/** Gathering a batch of new commits: nominate, follow fixes, cancel reverts, and settle what is not needed. */
module GatheringCommits {

  import opened Options
  import opened Commits
  import opened FixPropagation
  import opened RevertCancellation
  import opened Nomination

  // ----- the passes on commit objects

  /** Rewriting one object of a list rewrites one value. */
  lemma OneChanged(commits: seq<Commit>, before: seq<Record>, i: nat, r: Record)
    requires |before| == |commits| && i < |commits|
    requires commits[i].Value() == r
    requires forall j | 0 <= j < |commits| && j != i :: commits[j].Value() == before[j]
    ensures Values(commits) == before[i := r]
  {
    forall j | 0 <= j < |commits| ensures Values(commits)[j] == before[i := r][j] {
    }
  }

  /** One turn of the fix pass. */
  method NominateAtIndex(commits: seq<Commit>, i: nat, shas: set<Sha>) returns (shas': set<Sha>)
    requires Distinct(commits) && i < |commits|
    modifies commits
    ensures var nominated := NominateOne(old(Values(commits))[i], shas);
            && Values(commits) == old(Values(commits))[i := nominated]
            && shas' == shas + if nominated.nominated then {nominated.sha} else {}
  {
    var commit := commits[i];
    ghost var before := Values(commits);
    assert before[i] == commit.Value();
    if !commit.nominated && commit.nominationType == Some(FIXES) {
      commit.nominated := commit.becauseSha.Some? && commit.becauseSha.value in shas;
    }
    OneChanged(commits, before, i, NominateOne(before[i], shas));
    shas' := shas;
    if commit.nominated {
      shas' := shas + {commit.sha};
    }
  }

  /** The fix pass, from the oldest commit to the newest. */
  method FixPass(commits: seq<Commit>, base: set<Sha>) returns (shas: set<Sha>)
    requires Distinct(commits)
    modifies commits
    ensures Values(commits) == Nominate(old(Values(commits)), base)
    ensures shas == base + NominatedShas(Values(commits))
  {
    shas := base;
    ghost var cs := Values(commits);
    var i := |commits|;
    while i > 0
      invariant 0 <= i <= |commits|
      invariant Values(commits)[..i] == cs[..i]
      invariant Values(commits)[i..] == Nominate(cs[i..], base)
      invariant shas == base + NominatedShas(Values(commits)[i..])
    {
      i := i - 1;
      ghost var before := Values(commits);
      assert before[i] == cs[i] by { assert before[..i + 1][i] == cs[..i + 1][i]; }
      ghost var known := shas;
      shas := NominateAtIndex(commits, i, shas);
      FixTurn(cs, base, i, before, NominateOne(cs[i], known));
    }
    assert cs[0..] == cs && Values(commits)[0..] == Values(commits);
  }

  /** How one turn of the fix pass extends what it has computed. */
  lemma FixTurn(cs: seq<Record>, base: set<Sha>, i: nat, before: seq<Record>, nominated: Record)
    requires i < |cs| == |before|
    requires before[..i + 1] == cs[..i + 1] && before[i + 1..] == Nominate(cs[i + 1..], base)
    requires nominated == NominateOne(cs[i], base + NominatedShas(before[i + 1..]))
    ensures before[i := nominated][..i] == cs[..i]
    ensures before[i := nominated][i..] == Nominate(cs[i..], base)
    ensures NominatedShas(before[i := nominated][i..])
            == NominatedShas(before[i + 1..]) + if nominated.nominated then {nominated.sha} else {}
  {
    var after := before[i := nominated];
    assert before[..i + 1][..i] == before[..i] && cs[..i + 1][..i] == cs[..i];
    assert cs[i..][1..] == cs[i + 1..];
    assert after[i..] == [nominated] + before[i + 1..];
  }

  /** The search of the inner loop, from the oldest commit. */
  method FindOldest(commits: seq<Commit>, sha: Sha) returns (j: int)
    ensures j == OldestWith(Values(commits), sha)
  {
    j := |commits| - 1;
    while j >= 0 && commits[j].sha != sha
      invariant -1 <= j < |commits|
      invariant forall k | j < k < |commits| :: Values(commits)[k].sha != sha
    {
      j := j - 1;
    }
    var o := OldestWith(Values(commits), sha);
    assert o >= 0 ==> Values(commits)[o].sha == sha;
    assert j >= 0 ==> Values(commits)[j].sha == sha;
  }

  method Deny(commits: seq<Commit>, i: nat)
    requires Distinct(commits) && i < |commits|
    modifies commits
    ensures Values(commits) == old(Values(commits))[i := Denied(old(Values(commits))[i])]
  {
    commits[i].nominated := false;
    commits[i].resolution := DENOMINATED;
    OneChanged(commits, old(Values(commits)), i, Denied(old(Values(commits))[i]));
  }

  /** One turn of the revert pass. */
  method RevertTurn(commits: seq<Commit>, shas: set<Sha>, k: nat) returns (shas': set<Sha>)
    requires Distinct(commits) && k < |commits|
    modifies commits
    ensures var cs := old(Values(commits));
            if Fires(cs, shas, k) then
              Values(commits) == Cancelled(cs, shas, k) && shas' == shas - {cs[k].becauseSha.value}
            else Values(commits) == cs && shas' == shas
  {
    var commit := commits[k];
    assert commit.Value() == Values(commits)[k];
    shas' := shas;
    if commit.nominationType == Some(REVERT) && commit.becauseSha.Some? && commit.becauseSha.value in shas {
      var because := commit.becauseSha.value;
      var j := FindOldest(commits, because);
      if j >= 0 {
        Deny(commits, j);
        Deny(commits, k);
        shas' := shas - {because};
      }
    }
  }

  /** The revert pass, newest commit first. */
  method RevertPass(commits: seq<Commit>, initial: set<Sha>)
    requires Distinct(commits)
    modifies commits
    ensures Values(commits) == CancelFrom(old(Values(commits)), initial, 0)
  {
    var shas := initial;
    for k := 0 to |commits|
      invariant CancelFrom(Values(commits), shas, k) == CancelFrom(old(Values(commits)), initial, 0)
    {
      shas := RevertTurn(commits, shas, k);
    }
  }

  lemma ShasOfObjects(previous: seq<Commit>)
    ensures (set c | c in previous && c.nominated :: c.sha) == NominatedShas(Values(previous))
  {
    var vs := Values(previous);
    var shas := set c | c in previous && c.nominated :: c.sha;
    forall c | c in previous && c.nominated ensures c.sha in NominatedShas(vs) {
      var i :| 0 <= i < |previous| && previous[i] == c;
      HasSha(vs, i);
    }
    forall sha | sha in NominatedShas(vs) ensures sha in shas {
      var i := OwnerOfSha(vs, sha);
      assert previous[i] in previous && previous[i].Value() == vs[i];
    }
  }

  /** `resolve_fixes` */
  method ResolveFixes(commits: seq<Commit>, previous: seq<Commit>)
    requires Distinct(commits)
    modifies commits
    ensures Values(commits) == Resolved(old(Values(commits)), old(Values(previous)))
  {
    var base := set c | c in previous && c.nominated :: c.sha;
    ShasOfObjects(previous);
    var shas := FixPass(commits, base);
    RevertPass(commits, shas);
  }

  // ----- gathering

  /** The last loop of `gather_commits`. */
  function Settle(c: Record): Record {
    if c.resolution == UNRESOLVED && !c.nominated then c.(resolution := NOTNEEDED) else c
  }

  function SettleAll(cs: seq<Record>): seq<Record> {
    seq(|cs|, i requires 0 <= i < |cs| => Settle(cs[i]))
  }

  /** What `gather_commits` returns for a log, newest first, and the commits saved before. */
  function Gathered(o: Oracle, version: string, previous: seq<Record>, log: seq<(Sha, string)>): seq<Record> {
    SettleAll(Resolved(ResolveAll(o, version, log), previous))
  }

  /** One object per log entry. */
  method NewObjects(log: seq<(Sha, string)>) returns (objects: seq<Commit>)
    ensures fresh(objects) && Distinct(objects) && |objects| == |log|
    ensures forall j | 0 <= j < |log| :: objects[j].Value() == NewRecord(log[j].0, log[j].1)
  {
    objects := [];
    for i := 0 to |log|
      invariant |objects| == i && fresh(objects) && Distinct(objects)
      invariant forall j | 0 <= j < i :: objects[j].Value() == NewRecord(log[j].0, log[j].1)
    {
      var c := new Commit(NewRecord(log[i].0, log[i].1));
      objects := objects + [c];
    }
  }

  /** The objects, the tasks' stages and the slots stand for the gathering `g`. */
  ghost predicate Represents(objects: seq<Commit>, stages: seq<Stage>, slots: seq<Option<Commit>>, g: Gathering)
    reads objects
  {
    && |objects| == |stages| == |slots| == |g.tasks| == |g.slots|
    && forall i | 0 <= i < |objects| ::
         && g.tasks[i] == Task(objects[i].Value(), stages[i])
         && slots[i] == if stages[i].Done? then Some(objects[i]) else None
  }

  /** Resumes one task on its commit object. */
  method ResumeTask(o: Oracle, version: string, objects: seq<Commit>, stages: seq<Stage>, slots: seq<Option<Commit>>,
                    i: nat, ghost g: Gathering) returns (stages': seq<Stage>, slots': seq<Option<Commit>>)
    requires Distinct(objects) && Represents(objects, stages, slots, g)
    modifies objects
    ensures Represents(objects, stages', slots', Resume(o, version, g, i))
  {
    stages', slots' := stages, slots;
    if i < |objects| && !stages[i].Done? {
      var t := Advance(o, version, Task(objects[i].Value(), stages[i]));
      objects[i].Become(t.commit);
      stages' := stages[i := t.stage];
      if t.stage.Done? {
        slots' := slots[i := Some(objects[i])];
      }
    }
  }

  /** Once all tasks are done, every slot holds its object, and the objects hold the sequential result. */
  lemma SlotsAreFilled(o: Oracle, version: string, log: seq<(Sha, string)>, objects: seq<Commit>, stages: seq<Stage>,
                       slots: seq<Option<Commit>>, g: Gathering)
    requires Represents(objects, stages, slots, g) && OnTheWay(o, version, log, g) && AllDone(g)
    ensures |slots| == |objects| && forall i | 0 <= i < |slots| :: slots[i] == Some(objects[i])
    ensures Values(objects) == ResolveAll(o, version, log)
  {
    forall i | 0 <= i < |slots|
      ensures slots[i] == Some(objects[i]) && objects[i].Value() == ResolveAll(o, version, log)[i]
    {
      assert g.tasks[i].stage.Done?;
    }
  }

  /** Runs the tasks in the order `schedule` gives, each on its own commit object. */
  method RunTasks(o: Oracle, version: string, log: seq<(Sha, string)>, schedule: seq<nat>)
    returns (commits: seq<Commit>)
    requires AllDone(Interleave(o, version, Launch(log), schedule))
    ensures fresh(commits) && Distinct(commits) && |commits| == |log|
    ensures Values(commits) == ResolveAll(o, version, log)
  {
    var objects := NewObjects(log);
    var stages := seq(|log|, i => Fetch);
    var slots: seq<Option<Commit>> := seq(|log|, i => None);
    for k := 0 to |schedule|
      invariant Represents(objects, stages, slots, Interleave(o, version, Launch(log), schedule[..k]))
    {
      assert schedule[..k + 1][..k] == schedule[..k];
      stages, slots := ResumeTask(o, version, objects, stages, slots, schedule[k],
                                  Interleave(o, version, Launch(log), schedule[..k]));
    }
    assert schedule[..|schedule|] == schedule;
    AlwaysOnTheWay(o, version, log, schedule);
    SlotsAreFilled(o, version, log, objects, stages, slots, Interleave(o, version, Launch(log), schedule));
    commits := seq(|slots|, i requires 0 <= i < |slots| && slots[i].Some? => slots[i].value);
    assert commits == objects;
  }

  method SettleInPlace(commits: seq<Commit>)
    requires Distinct(commits)
    modifies commits
    ensures Values(commits) == SettleAll(old(Values(commits)))
  {
    ghost var cs := Values(commits);
    for i := 0 to |commits|
      invariant forall j | 0 <= j < |commits| :: commits[j].Value() == if j < i then Settle(cs[j]) else cs[j]
    {
      var commit := commits[i];
      if commit.resolution == UNRESOLVED && !commit.nominated {
        commit.resolution := NOTNEEDED;
      }
    }
  }

  /** `gather_commits`, for any schedule under which every task completes. */
  method GatherCommits(o: Oracle, version: string, previous: seq<Commit>, log: seq<(Sha, string)>, schedule: seq<nat>)
    returns (commits: seq<Commit>)
    requires AllDone(Interleave(o, version, Launch(log), schedule))
    ensures fresh(commits) && Distinct(commits)
    ensures Values(commits) == Gathered(o, version, Values(previous), log)
  {
    commits := RunTasks(o, version, log, schedule);
    ResolveFixes(commits, previous);
    SettleInPlace(commits);
  }

  // ----- what every gathered commit looks like

  /** The invariant of saved commits. */
  predicate Sane(c: Record) {
    && (c.resolution == UNRESOLVED ==> c.nominated)
    && (c.nominated ==> c.nominationType.Some?)
  }

  /** Freshly gathered commits are also nominated only while unresolved. */
  predicate FreshlySane(c: Record) {
    Sane(c) && (c.nominated <==> c.resolution == UNRESOLVED)
  }

  /** The revert loop leaves each commit alone or denominates it. */
  lemma {:induction false} CancelShape(cs: seq<Record>, shas: set<Sha>, k: nat, i: nat)
    requires k <= |cs| && i < |cs|
    ensures CancelFrom(cs, shas, k)[i] == cs[i] || CancelFrom(cs, shas, k)[i] == Denied(cs[i])
    decreases |cs| - k
  {
    if k < |cs| {
      if Fires(cs, shas, k) {
        CancelShape(Cancelled(cs, shas, k), shas - {cs[k].becauseSha.value}, k + 1, i);
      } else {
        CancelShape(cs, shas, k + 1, i);
      }
    }
  }

  /** A gathered commit is nominated exactly while it is unresolved, says why it is nominated, and is the commit of
      the log it stands for. */
  lemma GatheredFacts(o: Oracle, version: string, previous: seq<Record>, log: seq<(Sha, string)>, i: nat)
    requires i < |log|
    ensures |Gathered(o, version, previous, log)| == |log|
    ensures var c := Gathered(o, version, previous, log)[i];
            && c.sha == log[i].0 && c.description == log[i].1 && FreshlySane(c)
            && c == ResolveAll(o, version, log)[i].(nominated := c.nominated, resolution := c.resolution)
            && (!c.nominated ==> c.resolution == DENOMINATED || c.resolution == NOTNEEDED)
  {
    var cs := ResolveAll(o, version, log);
    var base := NominatedShas(previous);
    NominationIs(o, version, log[i].0, log[i].1);
    NominateShape(cs, base, i);
    CancelShape(Nominate(cs, base), base + NominatedShas(Nominate(cs, base)), 0, i);
  }

  // ----- batches

  lemma {:induction false} NominatedShasConcat(a: seq<Record>, b: seq<Record>)
    ensures NominatedShas(a + b) == NominatedShas(a) + NominatedShas(b)
  {
    if a == [] {
      assert a + b == b;
    } else {
      assert (a + b)[1..] == a[1..] + b;
      NominatedShasConcat(a[1..], b);
    }
  }

  lemma NominateCons(c: Record, cs: seq<Record>, base: set<Sha>, older: seq<Record>)
    requires Nominate(cs, base) == older
    ensures Nominate([c] + cs, base) == [NominateOne(c, base + NominatedShas(older))] + older
  {
    assert ([c] + cs)[1..] == cs;
  }

  lemma NominateSplitCons(c: Record, n: seq<Record>, both: seq<Record>, base: set<Sha>, known: set<Sha>,
                          rest: seq<Record>, tail: seq<Record>)
    requires known == base + NominatedShas(tail)
    requires Nominate(both, base) == rest + tail && Nominate(n, known) == rest
    ensures Nominate([c] + both, base) == Nominate([c] + n, known) + tail
  {
    SameKnown(rest, tail, base);
    var head := NominateOne(c, known + NominatedShas(rest));
    assert Nominate([c] + n, known) == [head] + rest by { NominateCons(c, n, known, rest); }
    assert Nominate([c] + both, base) == [head] + (rest + tail) by { NominateCons(c, both, base, rest + tail); }
    ConsConcat(head, rest, tail);
  }

  lemma ConsConcat(head: Record, rest: seq<Record>, tail: seq<Record>)
    ensures [head] + (rest + tail) == ([head] + rest) + tail
  {
  }

  lemma {:induction false} NominateSplit(newer: seq<Record>, older: seq<Record>, base: set<Sha>)
    ensures Nominate(newer + older, base)
            == Nominate(newer, base + NominatedShas(Nominate(older, base))) + Nominate(older, base)
  {
    if newer == [] {
      assert newer + older == older;
    } else {
      var n, tail := newer[1..], Nominate(older, base);
      var known := base + NominatedShas(tail);
      NominateSplit(n, older, base);
      NominateSplitCons(newer[0], n, n + older, base, known, Nominate(n, known), tail);
      assert newer + older == [newer[0]] + (n + older) && newer == [newer[0]] + n;
    }
  }

  lemma SameKnown(rest: seq<Record>, tail: seq<Record>, base: set<Sha>)
    ensures base + NominatedShas(rest + tail) == (base + NominatedShas(tail)) + NominatedShas(rest)
  {
    NominatedShasConcat(rest, tail);
  }

  ghost predicate NoReverts(cs: seq<Record>) {
    forall i | 0 <= i < |cs| :: cs[i].nominationType != Some(REVERT)
  }

  lemma {:induction false} NothingToCancel(cs: seq<Record>, shas: set<Sha>, k: nat)
    requires NoReverts(cs) && k <= |cs|
    ensures CancelFrom(cs, shas, k) == cs
    decreases |cs| - k
  {
    if k < |cs| {
      NothingToCancel(cs, shas, k + 1);
    }
  }

  lemma ResolvedWithoutReverts(cs: seq<Record>, previous: seq<Record>)
    requires NoReverts(cs)
    ensures Resolved(cs, previous) == Nominate(cs, NominatedShas(previous))
  {
    var base := NominatedShas(previous);
    var ps := Nominate(cs, base);
    forall i | 0 <= i < |cs| ensures ps[i].nominationType != Some(REVERT) {
      NominateShape(cs, base, i);
    }
    NothingToCancel(ps, base + NominatedShas(ps), 0);
  }

  lemma {:induction false} SettleKeepsNominated(cs: seq<Record>)
    ensures NominatedShas(SettleAll(cs)) == NominatedShas(cs)
  {
    if cs != [] {
      assert SettleAll(cs)[1..] == SettleAll(cs[1..]);
      SettleKeepsNominated(cs[1..]);
    }
  }

  lemma SettleConcat(a: seq<Record>, b: seq<Record>)
    ensures SettleAll(a + b) == SettleAll(a) + SettleAll(b)
  {
  }

  /** What the second update starts from is what the single update knows after the older commits. */
  lemma KnownAfterFirst(older: seq<Record>, previous: seq<Record>)
    requires NoReverts(older)
    ensures var base := NominatedShas(previous);
            && SettleAll(Resolved(older, previous)) == SettleAll(Nominate(older, base))
            && NominatedShas(SettleAll(Resolved(older, previous)) + previous)
               == base + NominatedShas(Nominate(older, base))
  {
    var base := NominatedShas(previous);
    ResolvedWithoutReverts(older, previous);
    SettleKeepsNominated(Nominate(older, base));
    NominatedShasConcat(SettleAll(Nominate(older, base)), previous);
  }

  lemma BatchesOfRecords(newer: seq<Record>, older: seq<Record>, previous: seq<Record>)
    requires NoReverts(newer) && NoReverts(older)
    ensures var first := SettleAll(Resolved(older, previous));
            SettleAll(Resolved(newer + older, previous)) == SettleAll(Resolved(newer, first + previous)) + first
  {
    var base := NominatedShas(previous);
    var first := SettleAll(Resolved(older, previous));
    ResolvedWithoutReverts(newer + older, previous);
    ResolvedWithoutReverts(newer, first + previous);
    KnownAfterFirst(older, previous);
    NominateSplit(newer, older, base);
    SettleConcat(Nominate(newer, NominatedShas(first + previous)), Nominate(older, base));
  }

  /** Without reverts it does not matter how often the picker is run: two updates, older commits first, give every
      commit the nomination and resolution that one update over both gives. */
  lemma BatchIndependence(o: Oracle, version: string, previous: seq<Record>,
                          newer: seq<(Sha, string)>, older: seq<(Sha, string)>)
    requires NoReverts(ResolveAll(o, version, newer + older))
    ensures var first := Gathered(o, version, previous, older);
            Gathered(o, version, previous, newer + older)
            == Gathered(o, version, first + previous, newer) + first
  {
    var ns, os := ResolveAll(o, version, newer), ResolveAll(o, version, older);
    var both := ResolveAll(o, version, newer + older);
    assert both == ns + os;
    forall i | 0 <= i < |ns| ensures ns[i].nominationType != Some(REVERT) { assert ns[i] == both[i]; }
    forall i | 0 <= i < |os| ensures os[i].nominationType != Some(REVERT) { assert os[i] == both[|ns| + i]; }
    BatchesOfRecords(ns, os, previous);
  }

  /** With a revert it does matter: gathered together, the revert drops the commit it names; gathered a day later,
      it comes too late and the commit stays nominated. */
  lemma RevertsMakeBatchesMatter()
    ensures var o := Oracle(sha => None, sha => if sha == "a" then Some(CcTag(None, None)) else None,
                            sha => if sha == "r" then Some("a") else None, text => Some(text), sha => false);
            var newer, older := [("r", "")], [("a", "")];
            var first := Gathered(o, "22.1", [], older);
            && !Gathered(o, "22.1", [], newer + older)[1].nominated
            && (Gathered(o, "22.1", first, newer) + first)[1].nominated
  {
    var o := Oracle(sha => None, sha => if sha == "a" then Some(CcTag(None, None)) else None,
                    sha => if sha == "r" then Some("a") else None, text => Some(text), sha => false);
    var newer, older := [("r", "")], [("a", "")];
    var a := NewRecord("a", "").(nominated := true, nominationType := Some(CC));
    var r := NewRecord("r", "").(nominationType := Some(REVERT), becauseSha := Some("a"));
    assert newer + older == [("r", ""), ("a", "")];
    assert ResolveAll(o, "22.1", newer + older) == [r, a];
    assert ResolveAll(o, "22.1", older) == [a];
    RevertOfNewest(r, a);
    ResolvedWithoutReverts([a], []);
    NominateShape([a], {}, 0);
  }

  /** A commit and its revert in one batch: the commit is dropped. */
  lemma RevertOfNewest(r: Record, a: Record)
    requires Reverts(r, a.sha) && a.nominated && a.sha != r.sha
    ensures Resolved([r, a], [])[1] == Denied(a)
  {
    var both := [r, a];
    NominateShape(both, {}, 0);
    NominateShape(both, {}, 1);
    assert Nominate(both, {}) == both;
    assert NominatedShas([]) == {};
    assert NamedBefore(both, 2, a.sha) by { assert Reverts(both[0], a.sha); }
    CancellationIsExact(both, {}, 1);
  }
}
