/** Exactly when gathering in two updates and gathering in one agree, reverts included. */
module Batches {

  import opened Options
  import opened Commits
  import opened FixPropagation
  import opened RevertCancellation
  import opened Nomination
  import opened GatheringCommits

  /** Some revert of the batch names `sha`. */
  ghost predicate IsNamed(cs: seq<Record>, sha: Sha) {
    NamedBefore(cs, |cs|, sha)
  }

  /** The newest revert of the batch that names `sha`. */
  ghost predicate IsNewestNaming(cs: seq<Record>, i: nat, sha: Sha) {
    i < |cs| && Reverts(cs[i], sha) && !NamedBefore(cs, i, sha)
  }

  /** The revert loop denominates this commit. */
  ghost predicate IsDropped(cs: seq<Record>, i: nat)
    requires i < |cs|
  {
    IsTarget(cs, i) || IsNewestRevert(cs, i)
  }

  /** A revert among `cs` names a nominated commit of `targets`. */
  ghost predicate RevertsInto(cs: seq<Record>, targets: seq<Record>) {
    exists j :: 0 <= j < |targets| && targets[j].nominated && IsNamed(cs, targets[j].sha)
  }

  /** A fix among `cs`, not nominated itself, names a nominated commit of `batch` that the revert loop dropped. */
  ghost predicate FixesDropped(cs: seq<Record>, batch: seq<Record>) {
    exists i, j :: 0 <= i < |cs| && 0 <= j < |batch| && NamesDropped(cs[i], batch, j)
  }

  ghost predicate NamesDropped(c: Record, batch: seq<Record>, j: nat)
    requires j < |batch|
  {
    IsOpenFix(c) && c.becauseSha.value == batch[j].sha && batch[j].nominated && IsDropped(batch, j)
  }

  predicate IsOpenFix(c: Record) {
    !c.nominated && IsFix(c) && c.becauseSha.Some?
  }

  /** A newer revert of the older commit `j` changes nothing. Whatever it would drop or keep is dropped in any case: the
      newest newer revert of `j`, because another newer revert names it in turn; and, if there are older reverts of `j`,
      the newest of these, because some revert names it, or else `j` itself, because it is a revert that cancelled an
      older commit. */
  ghost predicate IsHarmless(pn: seq<Record>, po: seq<Record>, j: nat)
    requires j < |po|
  {
    && (forall m | 0 <= m < |pn| && IsNewestNaming(pn, m, po[j].sha) :: IsTarget(pn, m))
    && if IsNamed(po, po[j].sha) then
         forall i | 0 <= i < |po| && IsNewestNaming(po, i, po[j].sha) ::
           po[i].nominated && (IsNamed(pn, po[i].sha) || IsNamed(po, po[i].sha))
       else
         IsNewestRevert(po, j)
  }

  ghost predicate LateRevertsAreHarmless(pn: seq<Record>, po: seq<Record>) {
    forall j | 0 <= j < |po| && po[j].nominated && IsNamed(pn, po[j].sha) :: IsHarmless(pn, po, j)
  }

  // ----- the revert loop over a batch in two parts

  lemma NamedInConcat(pn: seq<Record>, po: seq<Record>, k: nat, sha: Sha)
    ensures k <= |pn| ==> (NamedBefore(pn + po, k, sha) <==> NamedBefore(pn, k, sha))
    ensures k <= |po| ==> (NamedBefore(pn + po, |pn| + k, sha) <==> IsNamed(pn, sha) || NamedBefore(po, k, sha))
  {
    var ps := pn + po;
    if k <= |pn| {
      assert forall m | 0 <= m < k :: ps[m] == pn[m];
    }
    if k <= |po| {
      if NamedBefore(po, k, sha) {
        var m :| 0 <= m < k && Reverts(po[m], sha);
        assert ps[|pn| + m] == po[m];
      }
      if NamedBefore(ps, |pn| + k, sha) {
        var m :| 0 <= m < |pn| + k && Reverts(ps[m], sha);
        assert ps[m] == if m < |pn| then pn[m] else po[m - |pn|];
      }
      if IsNamed(pn, sha) {
        var m :| 0 <= m < |pn| && Reverts(pn[m], sha);
        assert ps[m] == pn[m];
      }
    }
  }

  /** The older revert at `i` is the newest of the whole batch for an older commit. */
  ghost predicate StaysNewest(pn: seq<Record>, po: seq<Record>, i: nat) {
    exists j :: 0 <= j < |po| && po[j].nominated && IsNewestNaming(po, i, po[j].sha) && !IsNamed(pn, po[j].sha)
  }

  /** The newer revert at `i` is the newest one that names some older commit. */
  ghost predicate ReachesBack(pn: seq<Record>, po: seq<Record>, i: nat) {
    exists j :: 0 <= j < |po| && po[j].nominated && IsNewestNaming(pn, i, po[j].sha)
  }

  lemma OlderTarget(pn: seq<Record>, po: seq<Record>, i: nat)
    requires i < |po|
    ensures IsTarget(pn + po, |pn| + i) <==> po[i].nominated && (IsNamed(pn, po[i].sha) || IsNamed(po, po[i].sha))
  {
    assert (pn + po)[|pn| + i] == po[i];
    NamedInConcat(pn, po, |po|, po[i].sha);
  }

  lemma OlderNewest(pn: seq<Record>, po: seq<Record>, i: nat)
    requires i < |po| && !RevertsInto(po, pn)
    ensures IsNewestRevert(pn + po, |pn| + i) <==> StaysNewest(pn, po, i)
  {
    var ps := pn + po;
    assert ps[|pn| + i] == po[i];
    if IsNewestRevert(ps, |pn| + i) {
      var j :| 0 <= j < |ps| && ps[j].nominated && Reverts(ps[|pn| + i], ps[j].sha)
               && !NamedBefore(ps, |pn| + i, ps[j].sha);
      NamedInConcat(pn, po, i, ps[j].sha);
      if j < |pn| {
        assert IsNamed(po, pn[j].sha);
      } else {
        assert ps[j] == po[j - |pn|];
      }
    }
    if StaysNewest(pn, po, i) {
      var j :| 0 <= j < |po| && po[j].nominated && IsNewestNaming(po, i, po[j].sha) && !IsNamed(pn, po[j].sha);
      NamedInConcat(pn, po, i, po[j].sha);
      assert ps[|pn| + j] == po[j];
    }
  }

  lemma NewerTarget(pn: seq<Record>, po: seq<Record>, i: nat)
    requires i < |pn| && !RevertsInto(po, pn)
    ensures IsTarget(pn + po, i) <==> IsTarget(pn, i)
  {
    assert (pn + po)[i] == pn[i];
    NamedInConcat(pn, po, |po|, pn[i].sha);
  }

  lemma NewerNewest(pn: seq<Record>, po: seq<Record>, i: nat)
    requires i < |pn|
    ensures IsNewestRevert(pn + po, i) <==> IsNewestRevert(pn, i) || ReachesBack(pn, po, i)
  {
    var ps := pn + po;
    assert ps[i] == pn[i];
    if IsNewestRevert(ps, i) {
      var j :| 0 <= j < |ps| && ps[j].nominated && Reverts(ps[i], ps[j].sha) && !NamedBefore(ps, i, ps[j].sha);
      NamedInConcat(pn, po, i, ps[j].sha);
      assert ps[j] == if j < |pn| then pn[j] else po[j - |pn|];
    }
    if IsNewestRevert(pn, i) {
      var j :| 0 <= j < |pn| && pn[j].nominated && Reverts(pn[i], pn[j].sha) && !NamedBefore(pn, i, pn[j].sha);
      NamedInConcat(pn, po, i, pn[j].sha);
      assert ps[j] == pn[j];
    }
    if ReachesBack(pn, po, i) {
      var j :| 0 <= j < |po| && po[j].nominated && IsNewestNaming(pn, i, po[j].sha);
      NamedInConcat(pn, po, i, po[j].sha);
      assert ps[|pn| + j] == po[j];
    }
  }

  /** Commit `i` of the whole batch is dropped exactly if it is dropped within its own part. */
  ghost predicate DroppedAlike(pn: seq<Record>, po: seq<Record>, i: nat)
    requires i < |pn| + |po|
  {
    IsDropped(pn + po, i) <==> if i < |pn| then IsDropped(pn, i) else IsDropped(po, i - |pn|)
  }

  lemma HarmlessNewer(pn: seq<Record>, po: seq<Record>, i: nat)
    requires i < |pn| && !RevertsInto(po, pn) && LateRevertsAreHarmless(pn, po)
    ensures DroppedAlike(pn, po, i)
  {
    NewerTarget(pn, po, i);
    NewerNewest(pn, po, i);
    if ReachesBack(pn, po, i) {
      var j :| 0 <= j < |po| && po[j].nominated && IsNewestNaming(pn, i, po[j].sha);
      assert IsNamed(pn, po[j].sha);
      assert IsHarmless(pn, po, j);
    }
  }

  lemma HarmlessOlder(pn: seq<Record>, po: seq<Record>, i: nat)
    requires i < |po| && !RevertsInto(po, pn) && LateRevertsAreHarmless(pn, po)
    ensures DroppedAlike(pn, po, |pn| + i)
  {
    OlderTarget(pn, po, i);
    OlderNewest(pn, po, i);
    if po[i].nominated && IsNamed(pn, po[i].sha) {
      assert IsHarmless(pn, po, i);
    }
    if IsNewestRevert(po, i) && !StaysNewest(pn, po, i) {
      var j :| 0 <= j < |po| && po[j].nominated && Reverts(po[i], po[j].sha) && !NamedBefore(po, i, po[j].sha);
      assert IsNewestNaming(po, i, po[j].sha) && IsNamed(po, po[j].sha) && IsNamed(pn, po[j].sha);
      assert IsHarmless(pn, po, j);
    }
  }

  lemma ShasApart(pn: seq<Record>, po: seq<Record>, i: nat, j: nat)
    requires DistinctShas(pn + po) && i < |pn| && j < |po|
    ensures pn[i].sha != po[j].sha
  {
    assert (pn + po)[i] == pn[i] && (pn + po)[|pn| + j] == po[j];
  }

  lemma AlikeMeansNewerTargets(pn: seq<Record>, po: seq<Record>, j: nat, m: nat)
    requires DistinctShas(pn + po) && !RevertsInto(po, pn) && j < |po| && po[j].nominated
    requires IsNewestNaming(pn, m, po[j].sha) && DroppedAlike(pn, po, m)
    ensures IsTarget(pn, m)
  {
    NewerNewest(pn, po, m);
    if !IsTarget(pn, m) {
      var i :| 0 <= i < |pn| && pn[i].nominated && Reverts(pn[m], pn[i].sha) && !NamedBefore(pn, m, pn[i].sha);
      ShasApart(pn, po, i, j);
    }
  }

  lemma AlikeMeansOlderTargets(pn: seq<Record>, po: seq<Record>, j: nat, i: nat)
    requires !RevertsInto(po, pn) && j < |po| && po[j].nominated
    requires IsNamed(pn, po[j].sha) && IsNewestNaming(po, i, po[j].sha) && DroppedAlike(pn, po, |pn| + i)
    ensures po[i].nominated && (IsNamed(pn, po[i].sha) || IsNamed(po, po[i].sha))
  {
    OlderTarget(pn, po, i);
    OlderNewest(pn, po, i);
    assert IsNewestRevert(po, i);
  }

  /** The two parts are treated as in the whole batch exactly when late reverts are harmless. */
  lemma DroppedAlikeIff(pn: seq<Record>, po: seq<Record>)
    requires DistinctShas(pn + po) && !RevertsInto(po, pn)
    ensures (forall i | 0 <= i < |pn| + |po| :: DroppedAlike(pn, po, i)) <==> LateRevertsAreHarmless(pn, po)
  {
    if LateRevertsAreHarmless(pn, po) {
      forall i | 0 <= i < |pn| + |po| ensures DroppedAlike(pn, po, i) {
        if i < |pn| {
          HarmlessNewer(pn, po, i);
        } else {
          HarmlessOlder(pn, po, i - |pn|);
        }
      }
    }
    if forall i | 0 <= i < |pn| + |po| :: DroppedAlike(pn, po, i) {
      forall j | 0 <= j < |po| && po[j].nominated && IsNamed(pn, po[j].sha) ensures IsHarmless(pn, po, j) {
        AlikeMeansHarmless(pn, po, j);
      }
    }
  }

  lemma AlikeMeansHarmless(pn: seq<Record>, po: seq<Record>, j: nat)
    requires DistinctShas(pn + po) && !RevertsInto(po, pn)
    requires forall i | 0 <= i < |pn| + |po| :: DroppedAlike(pn, po, i)
    requires j < |po| && po[j].nominated && IsNamed(pn, po[j].sha)
    ensures IsHarmless(pn, po, j)
  {
    forall m | 0 <= m < |pn| && IsNewestNaming(pn, m, po[j].sha) ensures IsTarget(pn, m) {
      AlikeMeansNewerTargets(pn, po, j, m);
    }
    if IsNamed(po, po[j].sha) {
      forall i | 0 <= i < |po| && IsNewestNaming(po, i, po[j].sha)
        ensures po[i].nominated && (IsNamed(pn, po[i].sha) || IsNamed(po, po[i].sha))
      {
        AlikeMeansOlderTargets(pn, po, j, i);
      }
    } else {
      OlderTarget(pn, po, j);
      assert DroppedAlike(pn, po, |pn| + j);
    }
  }

  // ----- the fix pass after the older part has been cancelled

  /** What the first update leaves nominated. */
  ghost predicate AreLeft(po: seq<Record>, base: set<Sha>, left: set<Sha>) {
    forall sha: Sha :: sha in left <==> IsLeft(po, base, sha)
  }

  ghost predicate IsLeft(po: seq<Record>, base: set<Sha>, sha: Sha) {
    sha in base || exists j :: 0 <= j < |po| && po[j].sha == sha && po[j].nominated && !IsDropped(po, j)
  }

  /** With no open fix of a dropped commit, the fix pass over the newer commits is the same. */
  lemma {:induction false} SamePass(cs: seq<Record>, known: set<Sha>, left: set<Sha>)
    requires left <= known
    requires forall i | 0 <= i < |cs| && IsOpenFix(cs[i]) && cs[i].becauseSha.value in known ::
               cs[i].becauseSha.value in left
    ensures Nominate(cs, left) == Nominate(cs, known)
  {
    if cs != [] {
      SamePass(cs[1..], known, left);
    }
  }

  /** An open fix of a dropped commit is nominated by one pass and not by the other. */
  lemma StrandedFix(cs: seq<Record>, known: set<Sha>, left: set<Sha>, i: nat)
    requires i < |cs| && IsOpenFix(cs[i]) && cs[i].becauseSha.value in known && cs[i].becauseSha.value !in left
    requires forall k | 0 <= k < |cs| :: cs[k].sha != cs[i].becauseSha.value
    ensures Nominate(cs, known)[i].nominated && !Nominate(cs, left)[i].nominated
  {
    NominateAt(cs, known, i);
    NominateAt(cs, left, i);
    StrangerIsNotNominated(cs, left, i + 1, cs[i].becauseSha.value);
  }

  /** What is not in the batch is not nominated by it. */
  lemma StrangerIsNotNominated(cs: seq<Record>, base: set<Sha>, from: nat, sha: Sha)
    requires from <= |cs| && forall k | 0 <= k < |cs| :: cs[k].sha != sha
    ensures sha !in NominatedShas(Nominate(cs, base)[from..])
  {
    var rest := Nominate(cs, base)[from..];
    if sha in NominatedShas(rest) {
      var k := OwnerOfSha(rest, sha);
      NominateShape(cs, base, from + k);
    }
  }

  /** The batch, as the fix pass leaves it, is fit for the revert loop. */
  ghost predicate Fit(ps: seq<Record>, base: set<Sha>) {
    DistinctShas(ps) && forall i | 0 <= i < |ps| :: ps[i].sha !in base
  }

  lemma FitParts(pn: seq<Record>, po: seq<Record>, base: set<Sha>)
    requires Fit(pn + po, base)
    ensures Fit(pn, base) && Fit(po, base)
  {
    var ps := pn + po;
    assert forall i | 0 <= i < |pn| :: ps[i] == pn[i];
    assert forall i | 0 <= i < |po| :: ps[|pn| + i] == po[i];
  }

  lemma CancelledAt(ps: seq<Record>, base: set<Sha>, i: nat)
    requires Fit(ps, base) && i < |ps|
    ensures CancelFrom(ps, base + NominatedShas(ps), 0)[i] == if IsDropped(ps, i) then Denied(ps[i]) else ps[i]
  {
    CancellationIsExact(ps, base, i);
  }

  /** The second update starts from what the first one leaves. */
  lemma FirstUpdateLeaves(po: seq<Record>, previous: seq<Record>)
    requires Fit(po, NominatedShas(previous))
    ensures var base := NominatedShas(previous);
            var first := SettleAll(CancelFrom(po, base + NominatedShas(po), 0));
            AreLeft(po, base, NominatedShas(first + previous))
  {
    var base := NominatedShas(previous);
    var cancelled := CancelFrom(po, base + NominatedShas(po), 0);
    SettleKeepsNominated(cancelled);
    NominatedShasConcat(SettleAll(cancelled), previous);
    forall sha: Sha ensures sha in NominatedShas(cancelled) + base <==> IsLeft(po, base, sha) {
      if sha in NominatedShas(cancelled) {
        var j := OwnerOfSha(cancelled, sha);
        CancelledAt(po, base, j);
      }
      if j :| 0 <= j < |po| && po[j].sha == sha && po[j].nominated && !IsDropped(po, j) {
        CancelledAt(po, base, j);
        HasSha(cancelled, j);
      }
    }
  }

  lemma DroppedIsNotLeft(po: seq<Record>, base: set<Sha>, left: set<Sha>, j: nat)
    requires Fit(po, base) && AreLeft(po, base, left) && j < |po| && IsDropped(po, j)
    ensures po[j].sha !in left
  {
    assert po[j].sha in left <==> IsLeft(po, base, po[j].sha);
  }

  /** Both fix passes agree exactly when no open fix names a dropped commit; otherwise some fix is stranded. */
  lemma PassesAgreeIff(newer: seq<Record>, po: seq<Record>, base: set<Sha>, left: set<Sha>)
    requires Fit(po, base) && AreLeft(po, base, left)
    requires forall i, j | 0 <= i < |newer| && 0 <= j < |po| :: newer[i].sha != po[j].sha
    ensures var known := base + NominatedShas(po);
            if FixesDropped(newer, po) then
              exists i :: 0 <= i < |newer| && IsOpenFix(newer[i])
                          && Nominate(newer, known)[i].nominated && !Nominate(newer, left)[i].nominated
            else Nominate(newer, left) == Nominate(newer, known)
  {
    var known := base + NominatedShas(po);
    if FixesDropped(newer, po) {
      var i, j :| 0 <= i < |newer| && 0 <= j < |po| && NamesDropped(newer[i], po, j);
      HasSha(po, j);
      DroppedIsNotLeft(po, base, left, j);
      StrandedFix(newer, known, left, i);
    } else {
      LeftAreKnown(po, base, left);
      forall i | 0 <= i < |newer| && IsOpenFix(newer[i]) && newer[i].becauseSha.value in known
        ensures newer[i].becauseSha.value in left
      {
        KeptIsLeft(newer, po, base, left, i);
      }
      SamePass(newer, known, left);
    }
  }

  lemma LeftAreKnown(po: seq<Record>, base: set<Sha>, left: set<Sha>)
    requires AreLeft(po, base, left)
    ensures left <= base + NominatedShas(po)
  {
    forall sha | sha in left ensures sha in base + NominatedShas(po) {
      assert IsLeft(po, base, sha);
      if sha !in base {
        var j :| 0 <= j < |po| && po[j].sha == sha && po[j].nominated && !IsDropped(po, j);
        HasSha(po, j);
      }
    }
  }

  lemma KeptIsLeft(newer: seq<Record>, po: seq<Record>, base: set<Sha>, left: set<Sha>, i: nat)
    requires AreLeft(po, base, left) && !FixesDropped(newer, po)
    requires i < |newer| && IsOpenFix(newer[i]) && newer[i].becauseSha.value in base + NominatedShas(po)
    ensures newer[i].becauseSha.value in left
  {
    var sha := newer[i].becauseSha.value;
    if sha !in base {
      var j := OwnerOfSha(po, sha);
      assert !NamesDropped(newer[i], po, j);
    }
    assert IsLeft(po, base, sha);
  }

  // ----- two updates and one

  /** One update over everything, and two, older commits first. */
  function Once(newer: seq<Record>, older: seq<Record>, previous: seq<Record>): seq<Record> {
    SettleAll(Resolved(newer + older, previous))
  }

  function Twice(newer: seq<Record>, older: seq<Record>, previous: seq<Record>): seq<Record> {
    var first := SettleAll(Resolved(older, previous));
    SettleAll(Resolved(newer, first + previous)) + first
  }

  /** What becomes of a commit by the end of an update. */
  ghost function Told(ps: seq<Record>, i: nat): Record
    requires i < |ps|
  {
    Settle(if IsDropped(ps, i) then Denied(ps[i]) else ps[i])
  }

  ghost predicate AllUnresolved(cs: seq<Record>) {
    forall i | 0 <= i < |cs| :: cs[i].resolution == UNRESOLVED
  }

  lemma ToldIs(ps: seq<Record>, base: set<Sha>)
    requires Fit(ps, base)
    ensures var r := SettleAll(CancelFrom(ps, base + NominatedShas(ps), 0));
            |r| == |ps| && forall i | 0 <= i < |ps| :: r[i] == Told(ps, i)
  {
    forall i | 0 <= i < |ps| ensures SettleAll(CancelFrom(ps, base + NominatedShas(ps), 0))[i] == Told(ps, i) {
      CancelledAt(ps, base, i);
    }
  }

  lemma FitKnown(pn: seq<Record>, po: seq<Record>, base: set<Sha>, left: set<Sha>)
    requires Fit(pn + po, base) && AreLeft(po, base, left)
    ensures Fit(pn, left)
  {
    FitParts(pn, po, base);
    forall i | 0 <= i < |pn| ensures pn[i].sha !in left {
      assert pn[i].sha in left <==> IsLeft(po, base, pn[i].sha);
      if j :| 0 <= j < |po| && po[j].sha == pn[i].sha && po[j].nominated && !IsDropped(po, j) {
        ShasApart(pn, po, i, j);
      }
    }
  }

  /** Commits a fix pass looks at keep their shas and, being unresolved, tell by their resolution if they were
      dropped. */
  lemma ToldDiffers(ps: seq<Record>, i: nat, qs: seq<Record>, j: nat)
    requires i < |ps| && j < |qs| && ps[i] == qs[j] && ps[i].resolution == UNRESOLVED
    ensures Told(ps, i) == Told(qs, j) <==> (IsDropped(ps, i) <==> IsDropped(qs, j))
  {
  }

  /** The fix pass leaves shas and resolutions as they are. */
  ghost predicate SameFace(cs: seq<Record>, ps: seq<Record>) {
    |cs| == |ps| && forall i | 0 <= i < |cs| :: ps[i].sha == cs[i].sha && ps[i].resolution == cs[i].resolution
  }

  lemma NominateKeepsFace(cs: seq<Record>, base: set<Sha>)
    ensures SameFace(cs, Nominate(cs, base))
  {
    forall i | 0 <= i < |cs|
      ensures Nominate(cs, base)[i].sha == cs[i].sha && Nominate(cs, base)[i].resolution == cs[i].resolution
    {
      NominateShape(cs, base, i);
    }
  }

  lemma FaceOfConcat(a: seq<Record>, b: seq<Record>, pa: seq<Record>, pb: seq<Record>)
    requires SameFace(a, pa) && SameFace(b, pb)
    ensures SameFace(a + b, pa + pb)
  {
  }

  lemma FaceKeepsFit(cs: seq<Record>, ps: seq<Record>, base: set<Sha>)
    requires SameFace(cs, ps) && Fit(cs, base) && AllUnresolved(cs)
    ensures Fit(ps, base) && AllUnresolved(ps)
  {
  }

  /** Fresh commits as history gives them: distinct, not nominated before, unresolved, and no older revert names a
      nominated newer commit. */
  ghost predicate IsHistory(newer: seq<Record>, older: seq<Record>, base: set<Sha>) {
    var po := Nominate(older, base);
    && Fit(newer + older, base) && AllUnresolved(newer + older)
    && !RevertsInto(po, Nominate(newer, base + NominatedShas(po)))
  }

  lemma HistoryParts(newer: seq<Record>, older: seq<Record>, base: set<Sha>, known: set<Sha>)
    requires IsHistory(newer, older, base)
    ensures var ps := Nominate(newer, known) + Nominate(older, base); Fit(ps, base) && AllUnresolved(ps)
  {
    NominateKeepsFace(newer, known);
    NominateKeepsFace(older, base);
    FaceOfConcat(newer, older, Nominate(newer, known), Nominate(older, base));
    FaceKeepsFit(newer + older, Nominate(newer, known) + Nominate(older, base), base);
  }

  lemma OnceIs(newer: seq<Record>, older: seq<Record>, previous: seq<Record>, ps: seq<Record>)
    requires var base := NominatedShas(previous);
             var po := Nominate(older, base);
             ps == Nominate(newer, base + NominatedShas(po)) + po && Fit(ps, base)
    ensures |Once(newer, older, previous)| == |ps|
    ensures forall i | 0 <= i < |ps| :: Once(newer, older, previous)[i] == Told(ps, i)
  {
    NominateSplit(newer, older, NominatedShas(previous));
    ToldIs(ps, NominatedShas(previous));
  }

  /** What the two updates come to, with `left` what the first one leaves nominated. */
  ghost predicate IsTwice(newer: seq<Record>, older: seq<Record>, previous: seq<Record>, left: set<Sha>,
                          qn: seq<Record>, po: seq<Record>)
  {
    && qn == Nominate(newer, left) && po == Nominate(older, NominatedShas(previous))
    && AreLeft(po, NominatedShas(previous), left)
    && |Twice(newer, older, previous)| == |qn| + |po|
    && (forall i | 0 <= i < |qn| :: Twice(newer, older, previous)[i] == Told(qn, i))
    && (forall i | 0 <= i < |po| :: Twice(newer, older, previous)[|qn| + i] == Told(po, i))
  }

  lemma TwiceIs(newer: seq<Record>, older: seq<Record>, previous: seq<Record>) returns (left: set<Sha>)
    requires IsHistory(newer, older, NominatedShas(previous))
    ensures IsTwice(newer, older, previous, left, Nominate(newer, left), Nominate(older, NominatedShas(previous)))
  {
    var base := NominatedShas(previous);
    var first := SettleAll(Resolved(older, previous));
    left := NominatedShas(first + previous);
    var qn, po := Nominate(newer, left), Nominate(older, base);
    HistoryParts(newer, older, base, left);
    FitParts(qn, po, base);
    FirstUpdateLeaves(po, previous);
    FitKnown(qn, po, base, left);
    JoinTold(qn, left, po, base);
  }

  /** What becomes of the commits of two updates, one list after the other. */
  lemma JoinTold(qn: seq<Record>, left: set<Sha>, po: seq<Record>, base: set<Sha>)
    requires Fit(qn, left) && Fit(po, base)
    ensures var r := SettleAll(CancelFrom(qn, left + NominatedShas(qn), 0))
                     + SettleAll(CancelFrom(po, base + NominatedShas(po), 0));
            && |r| == |qn| + |po|
            && (forall i | 0 <= i < |qn| :: r[i] == Told(qn, i))
            && (forall i | 0 <= i < |po| :: r[|qn| + i] == Told(po, i))
  {
    ToldIs(qn, left);
    ToldIs(po, base);
  }

  /** If the passes over the newer commits agree, the updates agree exactly when late reverts are harmless. */
  lemma ToldAlikeIff(pn: seq<Record>, po: seq<Record>, once: seq<Record>, twice: seq<Record>)
    requires DistinctShas(pn + po) && AllUnresolved(pn + po) && !RevertsInto(po, pn)
    requires |once| == |twice| == |pn + po|
    requires forall i | 0 <= i < |once| :: once[i] == Told(pn + po, i)
    requires forall i | 0 <= i < |pn| :: twice[i] == Told(pn, i)
    requires forall i | 0 <= i < |po| :: twice[|pn| + i] == Told(po, i)
    ensures twice == once <==> LateRevertsAreHarmless(pn, po)
  {
    forall i | 0 <= i < |once| ensures twice[i] == once[i] <==> DroppedAlike(pn, po, i) {
      if i < |pn| {
        ToldDiffers(pn + po, i, pn, i);
      } else {
        ToldDiffers(pn + po, i, po, i - |pn|);
        assert twice[|pn| + (i - |pn|)] == Told(po, i - |pn|);
      }
    }
    DroppedAlikeIff(pn, po);
    if twice == once {
      assert forall i | 0 <= i < |pn| + |po| :: DroppedAlike(pn, po, i);
    }
  }

  /** A stranded fix ends nominated or cancelled after one update, and not needed after two. */
  lemma StrandedIsTold(ps: seq<Record>, qs: seq<Record>, i: nat)
    requires i < |ps| && i < |qs| && ps[i].nominated && !qs[i].nominated && IsFix(qs[i])
    requires ps[i].resolution == UNRESOLVED == qs[i].resolution
    ensures Told(ps, i) != Told(qs, i)
  {
    assert !IsDropped(qs, i);
  }

  /** Two updates give what one gives exactly when no open fix among the newer commits names an older commit that an
      older revert cancels, and no newer revert changes the fate of a nominated older commit or of its reverts. */
  lemma RecordBatchesAgreeIff(newer: seq<Record>, older: seq<Record>, previous: seq<Record>)
    requires IsHistory(newer, older, NominatedShas(previous))
    ensures var base := NominatedShas(previous);
            var po := Nominate(older, base);
            var pn := Nominate(newer, base + NominatedShas(po));
            Twice(newer, older, previous) == Once(newer, older, previous)
            <==> !FixesDropped(newer, po) && LateRevertsAreHarmless(pn, po)
  {
    var base := NominatedShas(previous);
    var po := Nominate(older, base);
    var pn := Nominate(newer, base + NominatedShas(po));
    var once, twice := Once(newer, older, previous), Twice(newer, older, previous);
    HistoryParts(newer, older, base, base + NominatedShas(po));
    OnceIs(newer, older, previous, pn + po);
    var left := TwiceIs(newer, older, previous);
    FitParts(pn, po, base);
    NewerAreOthers(newer, older, base);
    PassesAgreeIff(newer, po, base, left);
    if FixesDropped(newer, po) {
      var i :| 0 <= i < |newer| && IsOpenFix(newer[i]) && pn[i].nominated && !Nominate(newer, left)[i].nominated;
      NominateShape(newer, left, i);
      assert (pn + po)[i] == pn[i] && newer[i] == (newer + older)[i];
      StrandedIsTold(pn + po, Nominate(newer, left), i);
      assert once[i] != twice[i];
    } else {
      ToldAlikeIff(pn, po, once, twice);
    }
  }

  lemma NewerAreOthers(newer: seq<Record>, older: seq<Record>, base: set<Sha>)
    requires DistinctShas(newer + older)
    ensures forall i, j | 0 <= i < |newer| && 0 <= j < |older| :: newer[i].sha != Nominate(older, base)[j].sha
  {
    forall i, j | 0 <= i < |newer| && 0 <= j < |older| ensures newer[i].sha != Nominate(older, base)[j].sha {
      ShasApart(newer, older, i, j);
      NominateShape(older, base, j);
    }
  }

  /** In terms of chains: an open fix of a dropped commit is what leaves some commit with a chain of fixes that held
      before the first update cancelled, and none afterwards. */
  lemma StrandedChains(newer: seq<Record>, po: seq<Record>, base: set<Sha>, left: set<Sha>)
    requires Fit(po, base) && AreLeft(po, base, left) && PointsToOlder(newer)
    requires forall i, j | 0 <= i < |newer| && 0 <= j < |po| :: newer[i].sha != po[j].sha
    ensures FixesDropped(newer, po)
            <==> exists i :: 0 <= i < |newer| && !newer[i].nominated
                             && HasChain(newer, base + NominatedShas(po), i) && !HasChain(newer, left, i)
  {
    var known := base + NominatedShas(po);
    PassesAgreeIff(newer, po, base, left);
    forall i | 0 <= i < |newer| && !newer[i].nominated
      ensures HasChain(newer, known, i) == Nominate(newer, known)[i].nominated
      ensures HasChain(newer, left, i) == Nominate(newer, left)[i].nominated
    {
      NominatedIffChain(newer, known, i);
      NominatedIffChain(newer, left, i);
    }
  }

  lemma {:induction false} NewestExists(cs: seq<Record>, k: nat, sha: Sha) returns (m: nat)
    requires k <= |cs| && NamedBefore(cs, k, sha)
    ensures m < k && IsNewestNaming(cs, m, sha)
  {
    if NamedBefore(cs, k - 1, sha) {
      m := NewestExists(cs, k - 1, sha);
    } else {
      m := k - 1;
    }
  }

  /** When no newer revert is nominated itself, every newer revert of a nominated older commit does harm. */
  lemma PlainReverts(pn: seq<Record>, po: seq<Record>)
    requires forall m | 0 <= m < |pn| && pn[m].nominated :: !IsRevert(pn[m])
    ensures LateRevertsAreHarmless(pn, po) <==> !RevertsInto(pn, po)
  {
    if j :| 0 <= j < |po| && po[j].nominated && IsNamed(pn, po[j].sha) {
      var m := NewestExists(pn, |pn|, po[j].sha);
      assert !IsHarmless(pn, po, j);
    }
  }

  // ----- the same of the log

  /** The shas of the log are distinct and not nominated before. */
  ghost predicate IsFreshLog(log: seq<(Sha, string)>, base: set<Sha>) {
    && (forall i, j | 0 <= i < j < |log| :: log[i].0 != log[j].0)
    && (forall i | 0 <= i < |log| :: log[i].0 !in base)
  }

  lemma ResolvedFace(o: Oracle, version: string, log: seq<(Sha, string)>, base: set<Sha>)
    ensures AllUnresolved(ResolveAll(o, version, log))
    ensures forall i | 0 <= i < |log| :: ResolveAll(o, version, log)[i].sha == log[i].0
    ensures IsFreshLog(log, base) ==> Fit(ResolveAll(o, version, log), base)
  {
    forall i | 0 <= i < |log|
      ensures ResolveAll(o, version, log)[i].resolution == UNRESOLVED && ResolveAll(o, version, log)[i].sha == log[i].0
    {
      NominationIs(o, version, log[i].0, log[i].1);
    }
  }

  lemma ResolveConcat(o: Oracle, version: string, newer: seq<(Sha, string)>, older: seq<(Sha, string)>)
    ensures ResolveAll(o, version, newer + older) == ResolveAll(o, version, newer) + ResolveAll(o, version, older)
  {
  }

  /** Two updates, older commits first, agree with one update over both. */
  ghost predicate BatchesAgree(o: Oracle, version: string, previous: seq<Record>,
                               newer: seq<(Sha, string)>, older: seq<(Sha, string)>)
  {
    var first := Gathered(o, version, previous, older);
    Gathered(o, version, previous, newer + older) == Gathered(o, version, first + previous, newer) + first
  }

  /** The batch independence law with reverts allowed, and exactly when it holds. Of a log with distinct, new shas whose
      older reverts name no nominated newer commit, two updates give every commit what one update gives it if and only
      if no open fix among the newer commits names an older commit that the first update cancels, and newer reverts of
      nominated older commits are harmless. */
  lemma BatchesAgreeIff(o: Oracle, version: string, previous: seq<Record>,
                        newer: seq<(Sha, string)>, older: seq<(Sha, string)>)
    requires IsFreshLog(newer + older, NominatedShas(previous))
    requires var base := NominatedShas(previous);
             var po := Nominate(ResolveAll(o, version, older), base);
             !RevertsInto(po, Nominate(ResolveAll(o, version, newer), base + NominatedShas(po)))
    ensures var base := NominatedShas(previous);
            var ns, po := ResolveAll(o, version, newer), Nominate(ResolveAll(o, version, older), base);
            BatchesAgree(o, version, previous, newer, older)
            <==> !FixesDropped(ns, po) && LateRevertsAreHarmless(Nominate(ns, base + NominatedShas(po)), po)
  {
    ResolvedFace(o, version, newer + older, NominatedShas(previous));
    ResolveConcat(o, version, newer, older);
    RecordBatchesAgreeIff(ResolveAll(o, version, newer), ResolveAll(o, version, older), previous);
  }

  /** For reverts of commits outside the branch, which are the ones that are not nominated themselves, the condition is
      plain: nothing newer fixes what was cancelled, and nothing newer reverts what is nominated. */
  lemma PlainBatchesAgreeIff(o: Oracle, version: string, previous: seq<Record>,
                             newer: seq<(Sha, string)>, older: seq<(Sha, string)>)
    requires IsFreshLog(newer + older, NominatedShas(previous))
    requires var base := NominatedShas(previous);
             var po := Nominate(ResolveAll(o, version, older), base);
             !RevertsInto(po, Nominate(ResolveAll(o, version, newer), base + NominatedShas(po)))
    requires forall c | c in ResolveAll(o, version, newer) && c.nominated :: !IsRevert(c)
    ensures var base := NominatedShas(previous);
            var ns, po := ResolveAll(o, version, newer), Nominate(ResolveAll(o, version, older), base);
            BatchesAgree(o, version, previous, newer, older) <==> !FixesDropped(ns, po) && !RevertsInto(ns, po)
  {
    var base := NominatedShas(previous);
    var ns, po := ResolveAll(o, version, newer), Nominate(ResolveAll(o, version, older), base);
    var known := base + NominatedShas(po);
    BatchesAgreeIff(o, version, previous, newer, older);
    forall m | 0 <= m < |ns| && Nominate(ns, known)[m].nominated ensures !IsRevert(Nominate(ns, known)[m]) {
      NominateShape(ns, known, m);
      assert ns[m] in ns;
    }
    PlainReverts(Nominate(ns, known), po);
    SameReverts(ns, known, po);
  }

  /** The fix pass does not change what reverts name. */
  lemma SameReverts(cs: seq<Record>, known: set<Sha>, po: seq<Record>)
    ensures RevertsInto(cs, po) <==> RevertsInto(Nominate(cs, known), po)
  {
    var ps := Nominate(cs, known);
    forall m | 0 <= m < |cs|
      ensures ps[m].nominationType == cs[m].nominationType && ps[m].becauseSha == cs[m].becauseSha
    {
      NominateShape(cs, known, m);
    }
    forall sha ensures IsNamed(cs, sha) <==> IsNamed(ps, sha) {
      if m :| 0 <= m < |cs| && Reverts(cs[m], sha) {
        assert Reverts(ps[m], sha);
      }
      if m :| 0 <= m < |cs| && Reverts(ps[m], sha) {
        assert Reverts(cs[m], sha);
      }
    }
  }

  // ----- a fix that comes after its target was cancelled

  /** Main holds a commit marked for the branch, then its revert, then a fix of the commit; nothing is in the branch. */
  const FixAfterRevert := Oracle(sha => if sha == "fix" then Some("a") else None,
                                 sha => if sha == "a" then Some(CcTag(None, None)) else None,
                                 sha => if sha == "revert" then Some("a") else None,
                                 text => Some(text),
                                 sha => false)

  const Marked := NewRecord("a", "").(nominated := true, nominationType := Some(CC))
  const ItsRevert := NewRecord("revert", "").(nominationType := Some(REVERT), becauseSha := Some("a"))
  const ItsFix := NewRecord("fix", "").(nominationType := Some(FIXES), becauseSha := Some("a"))

  lemma PassesOfFixAfterRevert()
    ensures Nominate([ItsRevert, Marked], {}) == [ItsRevert, Marked]
    ensures Nominate([ItsFix], {} + NominatedShas([ItsRevert, Marked])) == [ItsFix.(nominated := true)]
    ensures IsDropped([ItsRevert, Marked], 1)
  {
    var older := [ItsRevert, Marked];
    NominateShape(older, {}, 0);
    NominateShape(older, {}, 1);
    HasSha(older, 1);
    NominateAt([ItsFix], {} + NominatedShas(older), 0);
    assert Reverts(older[0], "a");
  }

  lemma FixAfterRevertIsHistory()
    ensures IsHistory([ItsFix], [ItsRevert, Marked], {})
  {
    PassesOfFixAfterRevert();
    assert [ItsFix] + [ItsRevert, Marked] == [ItsFix, ItsRevert, Marked];
    assert !RevertsInto([ItsRevert, Marked], [ItsFix.(nominated := true)]);
  }

  lemma NominatedAtOnce()
    ensures var rs := Once([ItsFix], [ItsRevert, Marked], []);
            |rs| == 3 && rs[0].nominated && !rs[2].nominated && rs[2].resolution == DENOMINATED
  {
    var older, ps := [ItsRevert, Marked], [ItsFix.(nominated := true)] + [ItsRevert, Marked];
    PassesOfFixAfterRevert();
    FixAfterRevertIsHistory();
    HistoryParts([ItsFix], older, {}, {} + NominatedShas(older));
    OnceIs([ItsFix], older, [], ps);
    assert ps == [ItsFix.(nominated := true), ItsRevert, Marked];
    assert !IsDropped(ps, 0);
    assert IsDropped(ps, 2) by { assert Reverts(ps[1], ps[2].sha); }
  }

  lemma StrandedLater()
    ensures !Twice([ItsFix], [ItsRevert, Marked], [])[0].nominated
  {
    var older := [ItsRevert, Marked];
    PassesOfFixAfterRevert();
    FixAfterRevertIsHistory();
    var left := TwiceIs([ItsFix], older, []);
    FitParts([ItsFix], older, {});
    DroppedIsNotLeft(older, {}, left, 1);
    HasSha(older, 1);
    StrandedFix([ItsFix], NominatedShas(older), left, 0);
  }

  lemma ResolvedFixAfterRevert()
    ensures ResolveAll(FixAfterRevert, "22.1", [("fix", "")]) == [ItsFix]
    ensures ResolveAll(FixAfterRevert, "22.1", [("revert", ""), ("a", "")]) == [ItsRevert, Marked]
  {
    NominationIs(FixAfterRevert, "22.1", "fix", "");
    NominationIs(FixAfterRevert, "22.1", "revert", "");
    NominationIs(FixAfterRevert, "22.1", "a", "");
  }

  /** No newer revert is needed to make batches matter. Gathered at once, the fix is nominated before its target is
      cancelled, and stays beside it; gathered after the older commits, it finds its target cancelled. */
  lemma CancelledTargetStrandsFix()
    ensures var o, newer, older := FixAfterRevert, [("fix", "")], [("revert", ""), ("a", "")];
            var first := Gathered(o, "22.1", [], older);
            && NoReverts(ResolveAll(o, "22.1", newer))
            && Gathered(o, "22.1", [], newer + older)[0].nominated
            && !Gathered(o, "22.1", [], newer + older)[2].nominated
            && !Gathered(o, "22.1", first, newer)[0].nominated
            && !BatchesAgree(o, "22.1", [], newer, older)
  {
    var newer, older := [("fix", "")], [("revert", ""), ("a", "")];
    ResolveConcat(FixAfterRevert, "22.1", newer, older);
    ResolvedFixAfterRevert();
    NominatedAtOnce();
    StrandedLater();
    var first := Gathered(FixAfterRevert, "22.1", [], older);
    assert first + [] == first;
  }
}
