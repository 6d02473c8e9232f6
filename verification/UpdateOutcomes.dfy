/** What one update does to a saved list that any run of the picker can produce, commit by commit, and when a session in
    between makes no difference. */
module UpdateOutcomes {

  import opened Options
  import opened Commits
  import opened FixPropagation
  import opened RevertCancellation
  import opened Nomination
  import opened GatheringCommits
  import opened Batches
  import opened PickSessions

  // ----- one update

  /** The commits main has gained, newest first, as their own messages nominate them. */
  function NewCommits(o: Oracle, version: string, d: Disk): seq<Record>
    requires NewEntries(d.main, d.saved).Some?
  {
    ResolveAll(o, version, NewEntries(d.main, d.saved).value)
  }

  lemma MissingAt(main: seq<Entry>, k: nat, i: nat)
    requires k <= |main| && i < |main| - k
    ensures NewestFirst(main[k..])[i] == main[|main| - 1 - i]
  {
  }

  lemma SavedAt(d: Disk, k: nat, j: nat)
    requires Follows(d, k) && j < |d.saved|
    ensures j < k && d.saved[j].sha == d.main[k - 1 - j].0
  {
    assert |Titles(d.saved)| == |d.saved|;
    assert Titles(d.saved)[j] == NewestFirst(d.main[..k])[j];
  }

  /** On every reachable disk the new commits have distinct shas, none of them saved before. */
  lemma NewCommitsAreFresh(d: Disk)
    requires Inv(d)
    ensures NewEntries(d.main, d.saved).Some?
    ensures IsFreshLog(NewEntries(d.main, d.saved).value, NominatedShas(d.saved))
  {
    var k: nat :| Follows(d, k);
    NewEntriesAreTheRest(d, k);
    var log := NewestFirst(d.main[k..]);
    forall i, j | 0 <= i < j < |log| ensures log[i].0 != log[j].0 {
      MissingAt(d.main, k, i);
      MissingAt(d.main, k, j);
    }
    forall i | 0 <= i < |log| ensures log[i].0 !in NominatedShas(d.saved) {
      MissingAt(d.main, k, i);
      if log[i].0 in NominatedShas(d.saved) {
        var j := OwnerOfSha(d.saved, log[i].0);
        SavedAt(d, k, j);
      }
    }
  }

  /** The commits as the fix pass leaves them. */
  function AfterFixes(o: Oracle, version: string, d: Disk): (ps: seq<Record>)
    requires NewEntries(d.main, d.saved).Some?
    ensures |ps| == |NewCommits(o, version, d)|
  {
    Nominate(NewCommits(o, version, d), NominatedShas(d.saved))
  }

  lemma UpdateTells(o: Oracle, version: string, d: Disk, i: nat)
    requires Inv(d) && NewEntries(d.main, d.saved).Some? && i < |NewCommits(o, version, d)|
    ensures Updated(o, version, d.main, d.saved).Some? && i < |Updated(o, version, d.main, d.saved).value|
    ensures Updated(o, version, d.main, d.saved).value[i] == Told(AfterFixes(o, version, d), i)
  {
    var base := NominatedShas(d.saved);
    var cs, ps := NewCommits(o, version, d), AfterFixes(o, version, d);
    NewCommitsAreFresh(d);
    ResolvedFace(o, version, NewEntries(d.main, d.saved).value, base);
    NominateKeepsFace(cs, base);
    FaceKeepsFit(cs, ps, base);
    ToldIs(ps, base);
  }

  /** From every saved list the picker can have produced, an update nominates exactly the new commits whose own message
      nominates them or from which a chain of fixes leads to a nominated commit, new or saved, except nominated commits
      that a new revert names and the newest revert of each. Here new commits name older ones only. */
  lemma UpdateNominatesExactly(o: Oracle, version: string, d: Disk, i: nat)
    requires Inv(d) && NewEntries(d.main, d.saved).Some? && i < |NewCommits(o, version, d)|
    requires PointsToOlder(NewCommits(o, version, d))
    ensures Updated(o, version, d.main, d.saved).Some? && i < |Updated(o, version, d.main, d.saved).value|
    ensures var cs, ps := NewCommits(o, version, d), AfterFixes(o, version, d);
            Updated(o, version, d.main, d.saved).value[i].nominated
            <==> && (cs[i].nominated || HasChain(cs, NominatedShas(d.saved), i))
                 && !IsTarget(ps, i) && !IsNewestRevert(ps, i)
  {
    UpdateTells(o, version, d, i);
    NominatedIffChain(NewCommits(o, version, d), NominatedShas(d.saved), i);
  }

  /** And with which resolution each of them is saved: a nominated commit waits, a commit that a new revert cancels and
      the newest revert cancelling it are denominated, and every other commit is not needed. */
  lemma UpdateResolvesExactly(o: Oracle, version: string, d: Disk, i: nat)
    requires Inv(d) && NewEntries(d.main, d.saved).Some? && i < |NewCommits(o, version, d)|
    ensures Updated(o, version, d.main, d.saved).Some? && i < |Updated(o, version, d.main, d.saved).value|
    ensures var r, ps := Updated(o, version, d.main, d.saved).value[i], AfterFixes(o, version, d);
            var cancelled := IsTarget(ps, i) || IsNewestRevert(ps, i);
            && r == NewCommits(o, version, d)[i].(nominated := r.nominated, resolution := r.resolution)
            && (r.nominated <==> ps[i].nominated && !cancelled)
            && r.resolution == if cancelled then DENOMINATED else if r.nominated then UNRESOLVED else NOTNEEDED
  {
    var cs, base := NewCommits(o, version, d), NominatedShas(d.saved);
    UpdateTells(o, version, d, i);
    NominateShape(cs, base, i);
    ResolvedFace(o, version, NewEntries(d.main, d.saved).value, base);
  }

  lemma UnnamedFixStays(ps: seq<Record>, i: nat)
    requires i < |ps| && IsFix(ps[i]) && !IsNamed(ps, ps[i].sha)
    ensures Told(ps, i) == Settle(ps[i])
  {
    assert !IsNewestRevert(ps, i);
  }

  /** A fix of a nominated new commit that is cancelled in the same update stays nominated itself exactly when no revert
      names it. */
  lemma FixOfCancelledStays(o: Oracle, version: string, d: Disk, i: nat, j: nat)
    requires Inv(d) && NewEntries(d.main, d.saved).Some? && i < j < |NewCommits(o, version, d)|
    requires var cs, ps := NewCommits(o, version, d), AfterFixes(o, version, d);
             && IsOpenFix(cs[i]) && cs[i].becauseSha.value == cs[j].sha
             && ps[j].nominated && IsDropped(ps, j)
    ensures Updated(o, version, d.main, d.saved).Some? && j < |Updated(o, version, d.main, d.saved).value|
    ensures var rs := Updated(o, version, d.main, d.saved).value;
            && (rs[i].nominated <==> !IsNamed(AfterFixes(o, version, d), NewCommits(o, version, d)[i].sha))
            && !rs[j].nominated && rs[j].resolution == DENOMINATED
  {
    var cs, ps := NewCommits(o, version, d), AfterFixes(o, version, d);
    var base := NominatedShas(d.saved);
    UpdateTells(o, version, d, i);
    UpdateTells(o, version, d, j);
    FixFollows(cs, base, i, j);
    NominateShape(cs, base, i);
    if !IsNamed(ps, cs[i].sha) {
      UnnamedFixStays(ps, i);
    }
  }

  /** What the fix pass is documented to ensure: every new fix that is nominated for the sake of another commit has,
      after the update to `rs`, that commit below it in the list, nominated. */
  ghost predicate FixesAreNeeded(cs: seq<Record>, rs: seq<Record>)
    requires |cs| <= |rs|
  {
    forall i | 0 <= i < |cs| && rs[i].nominated && IsOpenFix(cs[i]) :: HasNominated(rs, i, cs[i].becauseSha.value)
  }

  ghost predicate HasNominated(rs: seq<Record>, i: nat, sha: Sha) {
    exists m :: i < m < |rs| && rs[m].nominated && rs[m].sha == sha
  }

  /** A new fix names a nominated new commit that a new revert cancels, and no new revert names the fix. */
  ghost predicate FixesCancelled(cs: seq<Record>, ps: seq<Record>)
    requires |cs| == |ps|
  {
    exists i, j :: 0 <= i < j < |cs| && NamesDropped(cs[i], ps, j) && !IsNamed(ps, cs[i].sha)
  }

  lemma ShasOfUpdate(o: Oracle, version: string, d: Disk) returns (gathered: seq<Record>)
    requires Inv(d) && NewEntries(d.main, d.saved).Some?
    ensures Updated(o, version, d.main, d.saved) == Some(gathered + d.saved)
    ensures var cs, rs := NewCommits(o, version, d), gathered + d.saved;
            && |gathered| == |cs| && (forall i | 0 <= i < |cs| :: rs[i].sha == cs[i].sha)
            && NothingTwice(rs)
  {
    var log := NewEntries(d.main, d.saved).value;
    gathered := UpdateCompletes(o, version, d);
    var rs := gathered + d.saved;
    GatheredTitles(o, version, d.saved, log);
    ResolvedFace(o, version, log, {});
    forall i | 0 <= i < |log| ensures rs[i].sha == log[i].0 {
      assert Titles(gathered)[i] == log[i];
    }
    forall i, j | 0 <= i < j < |rs| ensures rs[i].sha != rs[j].sha {
      assert Titles(rs)[i] == NewestFirst(d.main)[i] && Titles(rs)[j] == NewestFirst(d.main)[j];
    }
  }

  lemma CancelledIsNotNeeded(o: Oracle, version: string, d: Disk, rs: seq<Record>, i: nat, j: nat)
    requires Inv(d) && NewEntries(d.main, d.saved).Some? && Updated(o, version, d.main, d.saved) == Some(rs)
    requires var cs, ps := NewCommits(o, version, d), AfterFixes(o, version, d);
             i < j < |cs| && NamesDropped(cs[i], ps, j) && !IsNamed(ps, cs[i].sha)
    ensures |NewCommits(o, version, d)| <= |rs| && !FixesAreNeeded(NewCommits(o, version, d), rs)
  {
    var cs := NewCommits(o, version, d);
    NominateShape(cs, NominatedShas(d.saved), j);
    FixOfCancelledStays(o, version, d, i, j);
    var gathered := ShasOfUpdate(o, version, d);
    OnlyOne(rs, i, j);
  }

  lemma OnlyOne(rs: seq<Record>, i: nat, j: nat)
    requires NothingTwice(rs) && j < |rs| && !rs[j].nominated
    ensures !HasNominated(rs, i, rs[j].sha)
  {
  }

  lemma OthersAreNeeded(o: Oracle, version: string, d: Disk, rs: seq<Record>, i: nat)
    requires Inv(d) && NewEntries(d.main, d.saved).Some? && Updated(o, version, d.main, d.saved) == Some(rs)
    requires var cs := NewCommits(o, version, d);
             i < |cs| <= |rs| && rs[i].nominated && IsOpenFix(cs[i]) && !FixesCancelled(cs, AfterFixes(o, version, d))
    ensures HasNominated(rs, i, NewCommits(o, version, d)[i].becauseSha.value)
  {
    var cs, ps, base := NewCommits(o, version, d), AfterFixes(o, version, d), NominatedShas(d.saved);
    var sha := cs[i].becauseSha.value;
    var gathered := ShasOfUpdate(o, version, d);
    UpdateTells(o, version, d, i);
    NominateShape(cs, base, i);
    if sha in base {
      var k := OwnerOfSha(d.saved, sha);
      assert rs[|gathered| + k] == d.saved[k];
    } else {
      var j := OlderOwner(cs, base, i);
      NominateShape(cs, base, j);
      UpdateTells(o, version, d, j);
      DroppedIsCancelled(cs, ps, i, j);
    }
  }

  lemma DroppedIsCancelled(cs: seq<Record>, ps: seq<Record>, i: nat, j: nat)
    requires |cs| == |ps| && i < j < |cs| && !IsNamed(ps, cs[i].sha)
    requires IsOpenFix(cs[i]) && cs[i].becauseSha.value == ps[j].sha && ps[j].nominated
    ensures IsDropped(ps, j) ==> FixesCancelled(cs, ps)
  {
    if IsDropped(ps, j) {
      assert NamesDropped(cs[i], ps, j);
    }
  }

  /** On every reachable disk an update leaves each nominated fix with a nominated commit to fix, as documented, exactly
      when no new fix names a new commit that is cancelled while the fix itself is not reverted. */
  lemma FixesAreNeededIff(o: Oracle, version: string, d: Disk, rs: seq<Record>)
    requires Inv(d) && NewEntries(d.main, d.saved).Some? && Updated(o, version, d.main, d.saved) == Some(rs)
    ensures var cs, ps := NewCommits(o, version, d), AfterFixes(o, version, d);
            |cs| <= |rs| && (FixesAreNeeded(cs, rs) <==> !FixesCancelled(cs, ps))
  {
    var cs, ps := NewCommits(o, version, d), AfterFixes(o, version, d);
    var gathered := ShasOfUpdate(o, version, d);
    if FixesCancelled(cs, ps) {
      var i, j :| 0 <= i < j < |cs| && NamesDropped(cs[i], ps, j) && !IsNamed(ps, cs[i].sha);
      CancelledIsNotNeeded(o, version, d, rs, i, j);
    } else {
      forall i | 0 <= i < |cs| && rs[i].nominated && IsOpenFix(cs[i])
        ensures HasNominated(rs, i, cs[i].becauseSha.value)
      {
        OthersAreNeeded(o, version, d, rs, i);
      }
    }
  }

  /** A commit marked for the branch, its revert and a fix of it, found in one update: the fix is nominated for
      nothing. */
  lemma FixWithoutTarget()
    ensures var d := Disk([("a", ""), ("revert", ""), ("fix", "")], []);
            && Inv(d) && Updated(FixAfterRevert, "22.1", d.main, d.saved).Some?
            && var rs := Updated(FixAfterRevert, "22.1", d.main, d.saved).value;
               && |rs| == 3 && rs[0].nominated && rs[0].becauseSha == Some("a")
               && !rs[2].nominated && rs[2].sha == "a"
  {
    var main := [("a", ""), ("revert", ""), ("fix", "")];
    var log := [("fix", "")] + [("revert", ""), ("a", "")];
    BranchPointIsFine(main);
    assert NewestFirst(main) == log;
    assert Gathered(FixAfterRevert, "22.1", [], log) + [] == Gathered(FixAfterRevert, "22.1", [], log);
    CancelledTargetStrandsFix();
    GatheredFacts(FixAfterRevert, "22.1", [], log, 2);
    ResolveConcat(FixAfterRevert, "22.1", [("fix", "")], [("revert", ""), ("a", "")]);
    ResolvedFixAfterRevert();
    GatheredFacts(FixAfterRevert, "22.1", [], log, 0);
  }

  // ----- two sessions and one

  /** A session without decisions. */
  function Glance(o: Oracle, version: string): Event {
    Pick(Session(o, version, []))
  }

  lemma GlanceUpdates(o: Oracle, version: string, d: Disk)
    requires Inv(d)
    ensures NewEntries(d.main, d.saved).Some?
    ensures After(d, Glance(o, version))
            == d.(saved := Gathered(o, version, d.saved, NewEntries(d.main, d.saved).value) + d.saved)
  {
    NewCommitsAreFresh(d);
  }

  /** What main gains is put in front of what was missing. */
  lemma EntriesAfterPush(d: Disk, entries: seq<Entry>)
    requires Inv(d) && Legal(d, Push(entries))
    ensures NewEntries(d.main, d.saved).Some?
    ensures NewEntries(d.main + entries, d.saved)
            == Some(NewestFirst(entries) + NewEntries(d.main, d.saved).value)
  {
    var k: nat :| Follows(d, k);
    var d' := d.(main := d.main + entries);
    assert d'.main[..k] == d.main[..k];
    assert Follows(d', k);
    NewEntriesAreTheRest(d, k);
    NewEntriesAreTheRest(d', k);
    assert d'.main[k..] == d.main[k..] + entries;
    NewestFirstConcat(d.main[k..], entries);
  }

  /** The list is the same whether or not the picker was run, without a decision, before main gained `entries`. */
  ghost predicate GlanceMakesNoDifference(o: Oracle, version: string, d: Disk, entries: seq<Entry>) {
    After(After(After(d, Glance(o, version)), Push(entries)), Glance(o, version))
    == After(After(d, Push(entries)), Glance(o, version))
  }

  /** One session after main has gained `entries`. */
  lemma PushThenGlance(o: Oracle, version: string, d: Disk, entries: seq<Entry>)
    requires Inv(d) && Legal(d, Push(entries))
    ensures NewEntries(d.main, d.saved).Some?
    ensures After(After(d, Push(entries)), Glance(o, version))
            == Disk(d.main + entries,
                    Gathered(o, version, d.saved, NewestFirst(entries) + NewEntries(d.main, d.saved).value) + d.saved)
  {
    EventKeeps(d, Push(entries));
    EntriesAfterPush(d, entries);
    GlanceUpdates(o, version, After(d, Push(entries)));
  }

  /** A session, `entries`, and another session. */
  lemma GlanceThenPush(o: Oracle, version: string, d: Disk, entries: seq<Entry>, first: seq<Record>)
    requires Inv(d) && Legal(d, Push(entries)) && NewEntries(d.main, d.saved).Some?
    requires first == Gathered(o, version, d.saved, NewEntries(d.main, d.saved).value)
    ensures After(After(After(d, Glance(o, version)), Push(entries)), Glance(o, version))
            == Disk(d.main + entries,
                    Gathered(o, version, first + d.saved, NewestFirst(entries)) + (first + d.saved))
  {
    var d1 := Disk(d.main, first + d.saved);
    GlanceUpdates(o, version, d);
    EventKeeps(d, Glance(o, version));
    assert After(d, Glance(o, version)) == d1;
    NothingMissing(d1);
    PushThenGlance(o, version, d1, entries);
    assert NewestFirst(entries) + [] == NewestFirst(entries);
  }

  lemma GlanceIsBatch(o: Oracle, version: string, d: Disk, entries: seq<Entry>)
    requires Inv(d) && Legal(d, Push(entries))
    ensures NewEntries(d.main, d.saved).Some?
    ensures GlanceMakesNoDifference(o, version, d, entries)
            <==> BatchesAgree(o, version, d.saved, NewestFirst(entries), NewEntries(d.main, d.saved).value)
  {
    PushThenGlance(o, version, d, entries);
    var newer, older := NewestFirst(entries), NewEntries(d.main, d.saved).value;
    var first := Gathered(o, version, d.saved, older);
    GlanceThenPush(o, version, d, entries, first);
    SameSuffix(Gathered(o, version, first + d.saved, newer), first,
               Gathered(o, version, d.saved, newer + older), d.saved);
  }

  lemma NothingMissing(d: Disk)
    requires Inv(d) && Titles(d.saved) == NewestFirst(d.main)
    ensures NewEntries(d.main, d.saved) == Some([])
  {
    assert d.main[..|d.main|] == d.main;
    assert Follows(d, |d.main|);
    NewEntriesAreTheRest(d, |d.main|);
  }

  lemma SameSuffix(second: seq<Record>, first: seq<Record>, whole: seq<Record>, saved: seq<Record>)
    ensures second + (first + saved) == whole + saved <==> second + first == whole
  {
    assert second + (first + saved) == (second + first) + saved;
    if (second + first) + saved == whole + saved {
      assert second + first == ((second + first) + saved)[..|second + first|];
      assert whole == (whole + saved)[..|whole|];
    }
  }

  /** From every reachable disk: running the picker before main gains commits makes no difference to the list exactly
      when no open fix among them names a commit that the earlier update cancels, and their reverts of commits it
      nominates are harmless. Older reverts do not name newer commits. */
  lemma GlanceMattersIff(o: Oracle, version: string, d: Disk, entries: seq<Entry>)
    requires Inv(d) && Legal(d, Push(entries)) && NewEntries(d.main, d.saved).Some?
    requires var base, po := NominatedShas(d.saved), AfterFixes(o, version, d);
             !RevertsInto(po, Nominate(ResolveAll(o, version, NewestFirst(entries)), base + NominatedShas(po)))
    ensures var ns, po := ResolveAll(o, version, NewestFirst(entries)), AfterFixes(o, version, d);
            GlanceMakesNoDifference(o, version, d, entries)
            <==> && !FixesDropped(ns, po)
                 && LateRevertsAreHarmless(Nominate(ns, NominatedShas(d.saved) + NominatedShas(po)), po)
  {
    GlanceIsBatch(o, version, d, entries);
    EventKeeps(d, Push(entries));
    NewCommitsAreFresh(After(d, Push(entries)));
    EntriesAfterPush(d, entries);
    BatchesAgreeIff(o, version, d.saved, NewestFirst(entries), NewEntries(d.main, d.saved).value);
  }
}
