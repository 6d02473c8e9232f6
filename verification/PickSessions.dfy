/** Sessions of the picker: each loads the saved commits, adds what main has gained, lets the maintainer act, and
    saves. Main's history since the branch point is linear; `main` lists it oldest first. */
module PickSessions {

  import opened Options
  import opened Commits
  import opened Nomination
  import opened GatheringCommits

  type Entry = (Sha, string)

  /** The log's order: main's history, turned round. */
  function NewestFirst<T>(history: seq<T>): (log: seq<T>)
    ensures |log| == |history|
  {
    seq(|history|, i requires 0 <= i < |history| => history[|history| - 1 - i])
  }

  lemma NewestFirstConcat<T>(a: seq<T>, b: seq<T>)
    ensures NewestFirst(a + b) == NewestFirst(b) + NewestFirst(a)
  {
  }

  ghost predicate DistinctEntries(main: seq<Entry>) {
    forall i, j | 0 <= i < j < |main| :: main[i].0 != main[j].0
  }

  /** Where a sha stands in main's history, or its length. */
  function PositionOf(main: seq<Entry>, sha: Sha): (k: nat)
    ensures k <= |main|
    ensures k < |main| ==> main[k].0 == sha
    ensures forall j | 0 <= j < k :: main[j].0 != sha
  {
    if main == [] || main[0].0 == sha then 0 else 1 + PositionOf(main[1..], sha)
  }

  /** `git log <last saved>..upstream`, or everything since the branch point; `None` if git does not know the sha. */
  function NewEntries(main: seq<Entry>, saved: seq<Record>): Option<seq<Entry>> {
    if saved == [] then Some(NewestFirst(main))
    else
      var k := PositionOf(main, saved[0].sha);
      if k == |main| then None else Some(NewestFirst(main[k + 1..]))
  }

  // ----- what a session does to the saved list

  /** The maintainer applies, denominates or backports the commit at a position of the list. */
  datatype Act = Act(position: nat, to: Resolution)

  predicate IsAct(a: Act) {
    a.to == MERGED || a.to == DENOMINATED || a.to == BACKPORTED
  }

  function Updated(o: Oracle, version: string, main: seq<Entry>, saved: seq<Record>): Option<seq<Record>> {
    match NewEntries(main, saved)
    case None => None
    case Some(log) => Some(Gathered(o, version, saved, log) + saved)
  }

  /** The list after an update in a UI that holds the commits `stale` from an update before. If main has nothing new,
      they stay in front of the saved commits. */
  function Refreshed(o: Oracle, version: string, main: seq<Entry>, stale: seq<Record>, saved: seq<Record>)
    : Option<seq<Record>>
  {
    match NewEntries(main, saved)
    case None => None
    case Some(log) => Some(InFront(o, version, log, stale, saved) + saved)
  }

  function InFront(o: Oracle, version: string, log: seq<Entry>, stale: seq<Record>, saved: seq<Record>): seq<Record> {
    if log == [] then stale else Gathered(o, version, saved, log)
  }

  lemma FreshIsUpdated(o: Oracle, version: string, main: seq<Entry>, saved: seq<Record>)
    ensures Refreshed(o, version, main, [], saved) == Updated(o, version, main, saved)
  {
    GatheredLength(o, version, saved, []);
  }

  function Acted(rs: seq<Record>, a: Act): (r: seq<Record>)
    ensures |r| == |rs|
  {
    if a.position < |rs| then rs[a.position := rs[a.position].(resolution := a.to)] else rs
  }

  function ActedAll(rs: seq<Record>, acts: seq<Act>): (r: seq<Record>)
    ensures |r| == |rs|
    decreases |acts|
  {
    if acts == [] then rs else ActedAll(Acted(rs, acts[0]), acts[1..])
  }

  datatype Session = Session(o: Oracle, version: string, acts: seq<Act>)

  /** Main gains commits, or the picker is run once. */
  datatype Event = Push(entries: seq<Entry>) | Pick(session: Session)

  datatype Disk = Disk(main: seq<Entry>, saved: seq<Record>)

  ghost predicate Legal(d: Disk, e: Event) {
    match e
    case Push(entries) => DistinctEntries(d.main + entries)
    case Pick(s) => forall a | a in s.acts :: IsAct(a)
  }

  function After(d: Disk, e: Event): Disk {
    match e
    case Push(entries) => d.(main := d.main + entries)
    case Pick(s) =>
      match Updated(s.o, s.version, d.main, d.saved)
      case None => d
      case Some(rs) => d.(saved := ActedAll(rs, s.acts))
  }

  function AfterAll(d: Disk, events: seq<Event>): Disk {
    if events == [] then d else After(AfterAll(d, events[..|events| - 1]), events[|events| - 1])
  }

  ghost predicate LegalRun(d: Disk, events: seq<Event>) {
    events != [] ==>
      LegalRun(d, events[..|events| - 1]) && Legal(AfterAll(d, events[..|events| - 1]), events[|events| - 1])
  }

  // ----- the saved list is main's history

  function Titles(rs: seq<Record>): seq<Entry> {
    seq(|rs|, i requires 0 <= i < |rs| => (rs[i].sha, rs[i].description))
  }

  /** The saved list is the first `k` commits since the branch point, newest first. */
  ghost predicate Follows(d: Disk, k: nat) {
    k <= |d.main| && Titles(d.saved) == NewestFirst(d.main[..k])
  }

  ghost predicate Inv(d: Disk) {
    && DistinctEntries(d.main)
    && (exists k: nat :: Follows(d, k))
    && (forall c | c in d.saved :: Sane(c))
  }

  /** An update finds exactly the commits that are missing. */
  lemma NewEntriesAreTheRest(d: Disk, k: nat)
    requires DistinctEntries(d.main) && Follows(d, k)
    ensures NewEntries(d.main, d.saved) == Some(NewestFirst(d.main[k..]))
  {
    assert |d.saved| == |Titles(d.saved)| == k;
    if k > 0 {
      assert Titles(d.saved)[0] == d.main[k - 1];
      var p := PositionOf(d.main, d.saved[0].sha);
      assert p == k - 1;
    } else {
      assert d.main[0..] == d.main;
    }
  }

  lemma GatheredLength(o: Oracle, version: string, previous: seq<Record>, log: seq<Entry>)
    ensures |Gathered(o, version, previous, log)| == |log|
  {
  }

  lemma GatheredTitles(o: Oracle, version: string, previous: seq<Record>, log: seq<Entry>)
    ensures Titles(Gathered(o, version, previous, log)) == log
    ensures forall c | c in Gathered(o, version, previous, log) :: FreshlySane(c)
  {
    var gathered := Gathered(o, version, previous, log);
    GatheredLength(o, version, previous, log);
    forall i | 0 <= i < |log|
      ensures Titles(gathered)[i] == log[i] && FreshlySane(gathered[i])
    {
      GatheredFacts(o, version, previous, log, i);
    }
  }

  lemma TitlesConcat(a: seq<Record>, b: seq<Record>)
    ensures Titles(a + b) == Titles(a) + Titles(b)
  {
  }

  /** After an update the list is the new commits, freshly sane, in front of the saved ones, untouched; together they
      are the whole history. */
  lemma UpdateCompletes(o: Oracle, version: string, d: Disk) returns (gathered: seq<Record>)
    requires Inv(d)
    ensures NewEntries(d.main, d.saved).Some?
    ensures gathered == Gathered(o, version, d.saved, NewEntries(d.main, d.saved).value)
    ensures Updated(o, version, d.main, d.saved) == Some(gathered + d.saved)
    ensures forall c | c in gathered :: FreshlySane(c)
    ensures Titles(gathered + d.saved) == NewestFirst(d.main)
  {
    var k: nat :| Follows(d, k);
    NewEntriesAreTheRest(d, k);
    var log := NewestFirst(d.main[k..]);
    gathered := Gathered(o, version, d.saved, log);
    GatheredTitles(o, version, d.saved, log);
    TitlesConcat(gathered, d.saved);
    WholeHistory(d.main, k);
  }

  /** A further update in the same UI leaves main's history in the list exactly when main has gained commits, or the UI
      held no new ones. */
  lemma RepeatedUpdateIff(o: Oracle, version: string, d: Disk, stale: seq<Record>)
    requires Inv(d)
    ensures Refreshed(o, version, d.main, stale, d.saved).Some?
    ensures Titles(Refreshed(o, version, d.main, stale, d.saved).value) == NewestFirst(d.main)
            <==> stale == [] || |d.saved| < |d.main|
  {
    var k: nat :| Follows(d, k);
    assert |d.saved| == |Titles(d.saved)| == k;
    NewEntriesAreTheRest(d, k);
    var gathered := UpdateCompletes(o, version, d);
    if k == |d.main| && stale != [] {
      assert |Titles(stale + d.saved)| > |d.main|;
    } else if k == |d.main| {
      FreshIsUpdated(o, version, d.main, d.saved);
    }
  }

  /** With nothing new on main, the commits the UI holds are put in front of the list that already has them. */
  lemma HeldAreDoubled(o: Oracle, version: string, d: Disk, held: seq<Record>, rest: seq<Record>)
    requires Inv(d) && d.saved == held + rest && |d.saved| == |d.main|
    ensures Refreshed(o, version, d.main, held, d.saved) == Some(held + (held + rest))
  {
    var k: nat :| Follows(d, k);
    assert |d.saved| == |Titles(d.saved)| == k;
    NewEntriesAreTheRest(d, k);
    assert d.main[k..] == [];
  }

  /** A session in which the first update has found new commits, and any decisions have been made on the list `rs` it
      leaves: updating again, with nothing new on main, lists and saves those commits twice. */
  lemma RepeatedUpdateDoubles(o: Oracle, version: string, d: Disk, acts: seq<Act>) returns (found: nat, rs: seq<Record>)
    requires Inv(d) && |d.saved| < |d.main| && forall a | a in acts :: IsAct(a)
    ensures After(d, Pick(Session(o, version, acts))) == Disk(d.main, rs)
    ensures 0 < found == |d.main| - |d.saved| <= |rs|
    ensures Refreshed(o, version, d.main, rs[..found], rs) == Some(rs[..found] + rs)
    ensures forall i | 0 <= i < found :: (rs[..found] + rs)[i] == (rs[..found] + rs)[found + i]
  {
    found := |d.main| - |d.saved|;
    rs := After(d, Pick(Session(o, version, acts))).saved;
    PickKeeps(d, Session(o, version, acts));
    assert |rs| == |Titles(rs)| == |d.main|;
    TwoHalves(rs, found);
    HeldAreDoubled(o, version, Disk(d.main, rs), rs[..found], rs[found..]);
  }

  lemma WholeHistory(main: seq<Entry>, k: nat)
    requires k <= |main|
    ensures NewestFirst(main[k..]) + NewestFirst(main[..k]) == NewestFirst(main)
  {
    NewestFirstConcat(main[..k], main[k..]);
    TwoHalves(main, k);
  }

  lemma TwoHalves<T>(s: seq<T>, k: nat)
    requires k <= |s|
    ensures s[..k] + s[k..] == s
  {
  }

  /** Acting never makes a commit unresolved again. */
  lemma {:induction false} ActsKeep(rs: seq<Record>, acts: seq<Act>)
    requires forall a | a in acts :: IsAct(a)
    requires forall c | c in rs :: Sane(c)
    ensures Titles(ActedAll(rs, acts)) == Titles(rs)
    ensures forall c | c in ActedAll(rs, acts) :: Sane(c)
    decreases |acts|
  {
    if acts != [] {
      var rs' := Acted(rs, acts[0]);
      assert IsAct(acts[0]);
      forall c | c in rs' ensures Sane(c) {
        var i :| 0 <= i < |rs'| && rs'[i] == c;
        assert rs[i] in rs;
      }
      ActsKeep(rs', acts[1..]);
      assert Titles(rs') == Titles(rs);
    }
  }

  /** Acting changes resolutions and nothing else. */
  lemma {:induction false} ActsChangeResolution(rs: seq<Record>, acts: seq<Act>, i: nat)
    requires i < |rs|
    ensures SameButResolution(rs[i], ActedAll(rs, acts)[i])
    decreases |acts|
  {
    if acts != [] {
      ActsChangeResolution(Acted(rs, acts[0]), acts[1..], i);
    }
  }

  /** The decision at `k` is the last one about position `i`. */
  ghost predicate IsLastAct(acts: seq<Act>, k: nat, i: nat) {
    k < |acts| && acts[k].position == i && forall l | k < l < |acts| :: acts[l].position != i
  }

  /** After any decisions a commit has the resolution of the last one about it, and is as it was if there was none. */
  lemma {:induction false} LastActDecides(rs: seq<Record>, acts: seq<Act>, i: nat)
    requires i < |rs|
    ensures forall k: nat | IsLastAct(acts, k, i) :: ActedAll(rs, acts)[i].resolution == acts[k].to
    ensures (forall k | 0 <= k < |acts| :: acts[k].position != i) ==> ActedAll(rs, acts)[i] == rs[i]
    decreases |acts|
  {
    if acts != [] {
      var rest := acts[1..];
      LastActDecides(Acted(rs, acts[0]), rest, i);
      forall k: nat | IsLastAct(acts, k, i) ensures ActedAll(rs, acts)[i].resolution == acts[k].to {
        if k > 0 {
          assert IsLastAct(rest, k - 1, i);
        } else {
          assert forall l | 0 <= l < |rest| :: rest[l] == acts[l + 1];
        }
      }
    }
  }

  predicate SameButResolution(a: Record, b: Record) {
    b == a.(resolution := b.resolution)
  }

  /** Commit by commit, at most the resolutions differ. */
  ghost predicate SameButResolutions(a: seq<Record>, b: seq<Record>) {
    |a| == |b| && forall i | 0 <= i < |a| :: SameButResolution(a[i], b[i])
  }

  /** `later` is `earlier` with new commits put in front; of the old ones only resolutions differ. */
  ghost predicate Extends(earlier: seq<Record>, later: seq<Record>) {
    |earlier| <= |later| && SameButResolutions(earlier, later[|later| - |earlier|..])
  }

  lemma PickKeeps(d: Disk, s: Session)
    requires Inv(d) && Legal(d, Pick(s))
    ensures Inv(After(d, Pick(s)))
    ensures Extends(d.saved, After(d, Pick(s)).saved)
    ensures Titles(After(d, Pick(s)).saved) == NewestFirst(d.main)
  {
    var gathered := UpdateCompletes(s.o, s.version, d);
    var rs := gathered + d.saved;
    assert forall c | c in rs :: Sane(c);
    ActsKeep(rs, s.acts);
    var d' := d.(saved := ActedAll(rs, s.acts));
    assert d' == After(d, Pick(s));
    FollowsAll(d');
    SuffixActed(gathered, d.saved, s.acts);
  }

  lemma FollowsAll(d: Disk)
    requires DistinctEntries(d.main) && Titles(d.saved) == NewestFirst(d.main)
    requires forall c | c in d.saved :: Sane(c)
    ensures Inv(d)
  {
    assert d.main[..|d.main|] == d.main;
    assert Follows(d, |d.main|);
  }

  lemma SuffixActed(gathered: seq<Record>, saved: seq<Record>, acts: seq<Act>)
    ensures Extends(saved, ActedAll(gathered + saved, acts))
  {
    var rs := gathered + saved;
    var tail := ActedAll(rs, acts)[|gathered|..];
    forall i | 0 <= i < |saved| ensures SameButResolution(saved[i], tail[i]) {
      ActsChangeResolution(rs, acts, |gathered| + i);
    }
  }

  lemma EventKeeps(d: Disk, e: Event)
    requires Inv(d) && Legal(d, e)
    ensures Inv(After(d, e))
    ensures Extends(d.saved, After(d, e).saved)
    ensures e.Pick? ==> Titles(After(d, e).saved) == NewestFirst(After(d, e).main)
  {
    match e
    case Push(entries) =>
      var k: nat :| Follows(d, k);
      assert (d.main + entries)[..k] == d.main[..k];
      assert Follows(After(d, e), k);
    case Pick(s) =>
      PickKeeps(d, s);
  }

  /** Over any number of sessions the saved list is a prefix of main's history since the branch point, newest first,
      without gaps or repetitions; right after a session it is all of it; commits once saved stay, in place, with only
      their resolution ever changing; and every saved commit is sane. */
  lemma {:induction false} EverySession(d: Disk, events: seq<Event>)
    requires Inv(d) && LegalRun(d, events)
    ensures Inv(AfterAll(d, events))
    ensures Extends(d.saved, AfterAll(d, events).saved)
    ensures events != [] && events[|events| - 1].Pick? ==>
              Titles(AfterAll(d, events).saved) == NewestFirst(AfterAll(d, events).main)
  {
    if events != [] {
      var front, last := events[..|events| - 1], events[|events| - 1];
      EverySession(d, front);
      var d' := AfterAll(d, front);
      EventKeeps(d', last);
      ExtendsTransitive(d.saved, d'.saved, After(d', last).saved);
    }
  }

  lemma ExtendsTransitive(a: seq<Record>, b: seq<Record>, c: seq<Record>)
    requires Extends(a, b) && Extends(b, c)
    ensures Extends(a, c)
  {
    var b', c' := b[|b| - |a|..], c[|c| - |a|..];
    forall i | 0 <= i < |a| ensures SameButResolution(a[i], c'[i]) {
      var j := |b| - |a| + i;
      assert b'[i] == b[j] && c'[i] == c[|c| - |b|..][j];
      assert SameButResolution(b[j], c[|c| - |b|..][j]);
    }
  }

  lemma BranchPointIsFine(main: seq<Entry>)
    requires DistinctEntries(main)
    ensures Inv(Disk(main, []))
  {
    assert main[..0] == [];
    assert Follows(Disk(main, []), 0);
  }

  /** From a fresh branch on, without a saved list: after any pushes and sessions the list is the first commits since
      the branch point, newest first, each once, and after a session all of them. */
  lemma FromTheBranchPoint(main: seq<Entry>, events: seq<Event>)
    requires DistinctEntries(main) && LegalRun(Disk(main, []), events)
    ensures Inv(AfterAll(Disk(main, []), events)) && NothingTwice(AfterAll(Disk(main, []), events).saved)
    ensures events != [] && events[|events| - 1].Pick? ==>
              Titles(AfterAll(Disk(main, []), events).saved) == NewestFirst(AfterAll(Disk(main, []), events).main)
  {
    BranchPointIsFine(main);
    EverySession(Disk(main, []), events);
    HistoryHasNothingTwice(AfterAll(Disk(main, []), events));
  }

  ghost predicate NothingTwice(rs: seq<Record>) {
    forall i, j | 0 <= i < j < |rs| :: rs[i].sha != rs[j].sha
  }

  /** A list that follows main's history holds no commit twice. */
  lemma HistoryHasNothingTwice(d: Disk)
    requires Inv(d)
    ensures NothingTwice(d.saved)
  {
    var k: nat :| Follows(d, k);
    assert |Titles(d.saved)| == |d.saved| == k;
    forall i, j | 0 <= i < j < |d.saved| ensures d.saved[i].sha != d.saved[j].sha {
      assert Titles(d.saved)[i] == d.main[k - 1 - i] && Titles(d.saved)[j] == d.main[k - 1 - j];
    }
  }

  // ----- the program

  /** The status file; no entries stands for an absent file too. */
  class StatusFile {
    var entries: seq<CommitDict>
  }

  /** The commits that wait for a decision, oldest first. */
  function Waiting(rs: seq<Record>): seq<Record> {
    if rs == [] then []
    else Waiting(rs[1..]) + if rs[0].nominated && rs[0].resolution == UNRESOLVED then [rs[0]] else []
  }

  lemma WaitingStep(rs: seq<Record>, i: nat)
    requires i < |rs|
    ensures Waiting(rs[i..])
            == Waiting(rs[i + 1..]) + if rs[i].nominated && rs[i].resolution == UNRESOLVED then [rs[i]] else []
  {
    assert rs[i..][1..] == rs[i + 1..];
  }

  predicate IsWaiting(c: Record) {
    c.nominated && c.resolution == UNRESOLVED
  }

  /** `at` tells where the entries of `list` stand in `rs`: they are the waiting commits, each once, last to first. */
  ghost predicate Shows(rs: seq<Record>, list: seq<Record>, at: seq<nat>) {
    && |at| == |list|
    && (forall k | 0 <= k < |at| :: at[k] < |rs| && list[k] == rs[at[k]])
    && (forall k, l | 0 <= k < l < |at| :: at[k] > at[l])
    && (forall i: nat :: i in at <==> i < |rs| && IsWaiting(rs[i]))
  }

  /** The list shows every nominated unresolved commit, once, from the oldest to the newest, and nothing else. */
  lemma {:induction false} WaitingShows(rs: seq<Record>) returns (at: seq<nat>)
    ensures Shows(rs, Waiting(rs), at)
  {
    at := [];
    if rs != [] {
      var rest := WaitingShows(rs[1..]);
      at := ShowsOneMore(rs, Waiting(rs[1..]), rest);
    }
  }

  lemma ShowsOneMore(rs: seq<Record>, list: seq<Record>, rest: seq<nat>) returns (at: seq<nat>)
    requires rs != [] && Shows(rs[1..], list, rest)
    ensures Shows(rs, list + if IsWaiting(rs[0]) then [rs[0]] else [], at)
  {
    var shifted := seq(|rest|, k requires 0 <= k < |rest| => rest[k] + 1);
    ShiftedIn(rest, shifted);
    ShownEntries(rs, list, rest, shifted);
    at := shifted + if IsWaiting(rs[0]) then [0] else [];
    ShownPlaces(rs, rest, shifted, at);
  }

  lemma ShownEntries(rs: seq<Record>, list: seq<Record>, rest: seq<nat>, shifted: seq<nat>)
    requires rs != [] && |list| == |rest| == |shifted|
    requires forall k | 0 <= k < |rest| ::
               rest[k] < |rs[1..]| && list[k] == rs[1..][rest[k]] && shifted[k] == rest[k] + 1
    ensures forall k | 0 <= k < |shifted| :: shifted[k] < |rs| && list[k] == rs[shifted[k]]
  {
  }

  lemma ShownPlaces(rs: seq<Record>, rest: seq<nat>, shifted: seq<nat>, at: seq<nat>)
    requires rs != [] && (forall i: nat :: i in rest <==> i < |rs[1..]| && IsWaiting(rs[1..][i]))
    requires 0 !in shifted && forall i: nat | i > 0 :: i in shifted <==> i - 1 in rest
    requires at == shifted + if IsWaiting(rs[0]) then [0] else []
    ensures forall i: nat :: i in at <==> i < |rs| && IsWaiting(rs[i])
  {
    forall i: nat ensures i in at <==> i < |rs| && IsWaiting(rs[i]) {
      if i > 0 {
        assert i in at <==> i in shifted;
        assert i in shifted <==> i - 1 in rest;
        assert i < |rs| ==> rs[1..][i - 1] == rs[i];
      }
    }
  }

  lemma ShiftedIn(rest: seq<nat>, shifted: seq<nat>)
    requires |shifted| == |rest| && forall k | 0 <= k < |rest| :: shifted[k] == rest[k] + 1
    ensures 0 !in shifted && forall i: nat | i > 0 :: i in shifted <==> i - 1 in rest
  {
    forall i: nat | i > 0 ensures i in shifted <==> i - 1 in rest {
      if i in shifted {
        var k :| 0 <= k < |shifted| && shifted[k] == i;
        assert rest[k] == i - 1;
      }
      if i - 1 in rest {
        var k :| 0 <= k < |rest| && rest[k] == i - 1;
        assert shifted[k] == i;
      }
    }
  }

  /** Every commit offered for a decision says why it was nominated, which the list display relies on. */
  lemma {:induction false} WaitingSayWhy(rs: seq<Record>)
    requires forall c | c in rs :: Sane(c)
    ensures forall c | c in Waiting(rs) :: c in rs && c.nominationType.Some?
  {
    if rs != [] {
      assert rs[0] in rs && forall c | c in rs[1..] :: c in rs;
      WaitingSayWhy(rs[1..]);
    }
  }

  lemma ValuesConcat(a: seq<Commit>, b: seq<Commit>)
    ensures Values(a + b) == Values(a) + Values(b)
  {
  }

  /** `after` is `before` with objects of `all` added. */
  ghost predicate OnlyAdds(before: seq<Commit>, after: seq<Commit>, all: seq<Commit>) {
    before <= after && forall i | |before| <= i < |after| :: after[i] in all
  }

  class UI {
    var previousCommits: seq<Commit>
    var newCommits: seq<Commit>
    var commitList: seq<Commit>

    constructor ()
      ensures previousCommits == [] && newCommits == [] && commitList == []
    {
      previousCommits := [];
      newCommits := [];
      commitList := [];
    }

    function All(): seq<Commit>
      reads this`newCommits, this`previousCommits
    {
      newCommits + previousCommits
    }

    /** `load`: one object per saved commit. */
    method Load(file: StatusFile) returns (ok: bool)
      modifies this`previousCommits
      ensures ok <==> FromJsonAll(file.entries).Some?
      ensures ok ==> fresh(previousCommits) && Distinct(previousCommits)
                     && Values(previousCommits) == FromJsonAll(file.entries).value
      ensures !ok ==> previousCommits == old(previousCommits)
    {
      var loaded := FromJsonAll(file.entries);
      if loaded.None? {
        return false;
      }
      var objects: seq<Commit> := [];
      for i := 0 to |loaded.value|
        invariant |objects| == i && fresh(objects) && Distinct(objects)
        invariant forall j | 0 <= j < i :: objects[j].Value() == loaded.value[j]
      {
        var c := new Commit(loaded.value[i]);
        objects := objects + [c];
      }
      previousCommits := objects;
      ok := true;
    }

    /** `save` */
    method Save(file: StatusFile)
      modifies file
      ensures file.entries == ToJsonAll(Values(All())) && Values(All()) == old(Values(All()))
      ensures Values(newCommits) == old(Values(newCommits)) && Values(previousCommits) == old(Values(previousCommits))
      ensures Values(commitList) == old(Values(commitList))
    {
      file.entries := ToJsonAll(Values(newCommits + previousCommits));
    }

    /** The two lists hold each object once. */
    ghost predicate Separate()
      reads this
    {
      Distinct(newCommits) && Distinct(previousCommits) && forall c | c in newCommits :: c !in previousCommits
    }

    lemma SeparateIsDistinct()
      requires Separate()
      ensures Distinct(All())
    {
      var n := |newCommits|;
      forall i, j | 0 <= i < j < |All()| ensures All()[i] != All()[j] {
        assert j >= n ==> All()[j] == previousCommits[j - n] && previousCommits[j - n] in previousCommits;
        assert i < n ==> All()[i] == newCommits[i] && newCommits[i] in newCommits;
      }
    }

    /** Gathers the new commits, if there are any; if not, those of an update before stay. */
    method Collect(o: Oracle, version: string, log: seq<Entry>, schedule: seq<nat>)
      requires Separate()
      requires AllDone(Interleave(o, version, Launch(log), schedule))
      modifies this`newCommits
      ensures Separate() && (newCommits == old(newCommits) || fresh(newCommits))
      ensures Values(newCommits) == InFront(o, version, log, old(Values(newCommits)), Values(previousCommits))
      ensures Values(previousCommits) == old(Values(previousCommits)) && Values(commitList) == old(Values(commitList))
    {
      if log != [] {
        newCommits := GatherCommits(o, version, previousCommits, log, schedule);
      }
    }

    /** What follows loading: gather, list, save. */
    method Present(file: StatusFile, o: Oracle, version: string, log: seq<Entry>, schedule: seq<nat>)
      requires Separate()
      requires AllDone(Interleave(o, version, Launch(log), schedule))
      modifies this`newCommits, this`commitList, file
      ensures Separate() && (newCommits == old(newCommits) || fresh(newCommits))
      ensures Values(newCommits) == InFront(o, version, log, old(Values(newCommits)), Values(previousCommits))
      ensures file.entries == ToJsonAll(Values(All()))
      ensures Values(commitList) == old(Values(commitList)) + Waiting(Values(All()))
      ensures OnlyAdds(old(commitList), commitList, All())
    {
      Collect(o, version, log, schedule);
      ListWaiting();
      Save(file);
    }

    /** Once the saved commits are loaded; it fails if git does not know the last of them. */
    method Refresh(file: StatusFile, o: Oracle, version: string, main: seq<Entry>, schedule: seq<nat>)
      returns (ok: bool)
      requires Separate()
      requires var log := NewEntries(main, Values(previousCommits));
               log.Some? ==> AllDone(Interleave(o, version, Launch(log.value), schedule))
      modifies this`newCommits, this`commitList, file
      ensures ok <==> NewEntries(main, old(Values(previousCommits))).Some?
      ensures ok ==> Separate() && (newCommits == old(newCommits) || fresh(newCommits))
      ensures ok ==> Refreshed(o, version, main, old(Values(newCommits)), old(Values(previousCommits)))
                     == Some(Values(All()))
      ensures ok ==> file.entries == ToJsonAll(Values(All()))
      ensures ok ==> Values(commitList) == old(Values(commitList)) + Waiting(Values(All()))
      ensures ok ==> OnlyAdds(old(commitList), commitList, All())
      ensures !ok ==> file.entries == old(file.entries)
    {
      var log := NewEntries(main, Values(previousCommits));
      if log.None? {
        return false;
      }
      Present(file, o, version, log.value, schedule);
      ValuesConcat(newCommits, previousCommits);
      ok := true;
    }

    /** `update`, in a fresh UI or again in the same one. It fails if the file does not load or git does not know the
        last saved commit. */
    method Update(file: StatusFile, o: Oracle, version: string, main: seq<Entry>, schedule: seq<nat>) returns (ok: bool)
      requires Distinct(newCommits)
      requires var saved := FromJsonAll(file.entries);
               saved.Some? && NewEntries(main, saved.value).Some? ==>
                 AllDone(Interleave(o, version, Launch(NewEntries(main, saved.value).value), schedule))
      modifies this, file
      ensures ok <==> FromJsonAll(old(file.entries)).Some?
                      && Updated(o, version, main, FromJsonAll(old(file.entries)).value).Some?
      ensures ok ==> Separate() && fresh(previousCommits) && (newCommits == old(newCommits) || fresh(newCommits))
      ensures ok ==> Refreshed(o, version, main, old(Values(newCommits)), FromJsonAll(old(file.entries)).value)
                     == Some(Values(All()))
      ensures ok ==> file.entries == ToJsonAll(Values(All()))
      ensures ok ==> Values(commitList) == old(Values(commitList)) + Waiting(Values(All()))
      ensures ok ==> OnlyAdds(old(commitList), commitList, All())
      ensures !ok ==> file.entries == old(file.entries)
    {
      ok := Load(file);
      if ok {
        assert Values(newCommits) == old(Values(newCommits)) && Values(commitList) == old(Values(commitList));
        ok := Refresh(file, o, version, main, schedule);
      }
    }

    method Enlist(c: Commit)
      modifies this`commitList
      ensures commitList == old(commitList) + [c] && Values(commitList) == old(Values(commitList)) + [c.Value()]
    {
      commitList := commitList + [c];
    }

    /** Adds the commits to decide on to the list, walking from the oldest commit to the newest. */
    method ListWaiting()
      modifies this`commitList
      ensures Values(commitList) == old(Values(commitList)) + Waiting(Values(All()))
      ensures OnlyAdds(old(commitList), commitList, All())
      ensures Values(All()) == old(Values(All()))
      ensures Values(newCommits) == old(Values(newCommits)) && Values(previousCommits) == old(Values(previousCommits))
    {
      var all := newCommits + previousCommits;
      ghost var vs, before := Values(all), Values(commitList);
      var i := |all|;
      while i > 0
        invariant 0 <= i <= |all|
        invariant Values(commitList) == before + Waiting(vs[i..])
        invariant OnlyAdds(old(commitList), commitList, all) && Values(all) == vs
      {
        i := i - 1;
        WaitingStep(vs, i);
        if all[i].nominated && all[i].resolution == UNRESOLVED {
          Enlist(all[i]);
        }
      }
      assert vs[0..] == vs;
    }

    /** `apply`, `denominate`, `backport` and `resolve`, once git has done its part: set the resolution, save. */
    method Decide(file: StatusFile, a: Act)
      requires Distinct(All())
      modifies All(), file
      ensures Values(All()) == Acted(old(Values(All())), a)
      ensures a.position < |All()| ==> All()[a.position].resolution == a.to
      ensures forall i | 0 <= i < |All()| && i != a.position :: All()[i].Value() == old(All()[i].Value())
      ensures file.entries == ToJsonAll(Values(All()))
    {
      var all := newCommits + previousCommits;
      if a.position < |all| {
        ghost var before := Values(all);
        all[a.position].resolution := a.to;
        OneChanged(all, before, a.position, before[a.position].(resolution := a.to));
      }
      Save(file);
    }
  }

  /** One session from start to end: a fresh UI, one update, any decisions. */
  method RunSession(file: StatusFile, main: seq<Entry>, s: Session, schedule: seq<nat>, ghost saved: seq<Record>)
    requires file.entries == ToJsonAll(saved)
    requires NewEntries(main, saved).Some? ==>
               AllDone(Interleave(s.o, s.version, Launch(NewEntries(main, saved).value), schedule))
    modifies file
    ensures file.entries == ToJsonAll(After(Disk(main, saved), Pick(s)).saved)
    ensures Updated(s.o, s.version, main, saved).Some? && (forall a | a in s.acts :: IsAct(a)) ==>
              AreDecided(Updated(s.o, s.version, main, saved).value, s.acts, file.entries)
  {
    JsonRoundTrip(saved);
    var ui := new UI();
    var ok := ui.Update(file, s.o, s.version, main, schedule);
    FreshIsUpdated(s.o, s.version, main, saved);
    if ok {
      DecideAll(ui, file, s.acts);
    }
    if ok && forall a | a in s.acts :: IsAct(a) {
      AllAreDecided(Disk(main, saved), s);
    }
  }

  /** The decisions of a session, each of them saved. */
  method DecideAll(ui: UI, file: StatusFile, acts: seq<Act>)
    requires ui.Separate() && file.entries == ToJsonAll(Values(ui.All()))
    modifies ui.All(), file
    ensures Values(ui.All()) == ActedAll(old(Values(ui.All())), acts)
    ensures file.entries == ToJsonAll(Values(ui.All()))
  {
    ui.SeparateIsDistinct();
    ghost var rs := Values(ui.All());
    for k := 0 to |acts|
      invariant file.entries == ToJsonAll(Values(ui.All()))
      invariant ActedAll(Values(ui.All()), acts[k..]) == ActedAll(rs, acts)
    {
      assert acts[k..][0] == acts[k] && acts[k..][1..] == acts[k + 1..];
      ui.Decide(file, acts[k]);
    }
    assert acts[|acts|..] == [];
  }

  /** The number a decision leaves in the file. */
  function DecisionNumber(to: Resolution): int {
    match to case MERGED => 1 case DENOMINATED => 2 case BACKPORTED => 3 case _ => -1
  }

  /** A session, from the list its update makes to the file it leaves: each commit is saved under its own sha, with the
      number of the last decision about it, and as the update left it where nothing was decided. */
  lemma FileHoldsDecisions(d: Disk, s: Session, i: nat)
    requires forall a | a in s.acts :: IsAct(a)
    requires Updated(s.o, s.version, d.main, d.saved).Some? && i < |Updated(s.o, s.version, d.main, d.saved).value|
    ensures |After(d, Pick(s)).saved| == |Updated(s.o, s.version, d.main, d.saved).value|
    ensures IsDecided(Updated(s.o, s.version, d.main, d.saved).value[i], s.acts, i,
                      ToJsonAll(After(d, Pick(s)).saved)[i])
  {
    DecisionIsSaved(Updated(s.o, s.version, d.main, d.saved).value, s.acts, i);
  }

  /** The saved form of commit `i`, which an update left as `r`, after the decisions. */
  ghost predicate IsDecided(r: Record, acts: seq<Act>, i: nat, saved: CommitDict) {
    && saved.sha == r.sha && saved.nominated == r.nominated
    && (forall k: nat | IsLastAct(acts, k, i) :: saved.resolution == Some(DecisionNumber(acts[k].to)))
    && ((forall k | 0 <= k < |acts| :: acts[k].position != i) ==> FromJson(saved) == Some(r))
  }

  ghost predicate AreDecided(rs: seq<Record>, acts: seq<Act>, file: seq<CommitDict>) {
    |file| == |rs| && forall i | 0 <= i < |rs| :: IsDecided(rs[i], acts, i, file[i])
  }

  lemma AllAreDecided(d: Disk, s: Session)
    requires Updated(s.o, s.version, d.main, d.saved).Some? && forall a | a in s.acts :: IsAct(a)
    ensures AreDecided(Updated(s.o, s.version, d.main, d.saved).value, s.acts, ToJsonAll(After(d, Pick(s)).saved))
  {
    var rs := Updated(s.o, s.version, d.main, d.saved).value;
    forall i | 0 <= i < |rs| ensures IsDecided(rs[i], s.acts, i, ToJsonAll(After(d, Pick(s)).saved)[i]) {
      FileHoldsDecisions(d, s, i);
    }
  }

  lemma DecisionIsSaved(rs: seq<Record>, acts: seq<Act>, i: nat)
    requires i < |rs| && forall a | a in acts :: IsAct(a)
    ensures IsDecided(rs[i], acts, i, ToJson(ActedAll(rs, acts)[i]))
  {
    LastActDecides(rs, acts, i);
    ActsChangeResolution(rs, acts, i);
    forall k: nat | IsLastAct(acts, k, i)
      ensures ToJson(ActedAll(rs, acts)[i]).resolution == Some(DecisionNumber(acts[k].to))
    {
      assert acts[k] in acts && IsAct(acts[k]);
    }
  }
}
