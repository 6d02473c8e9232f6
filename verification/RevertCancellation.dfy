/** The revert pass: a commit that is reverted before it was applied is dropped together with its revert. */
module RevertCancellation {

  import opened Options
  import opened Commits
  import opened FixPropagation

  function Denied(c: Record): Record {
    c.(nominated := false, resolution := DENOMINATED)
  }

  predicate IsRevert(c: Record) {
    c.nominationType == Some(REVERT)
  }

  predicate Reverts(c: Record, sha: Sha) {
    IsRevert(c) && c.becauseSha == Some(sha)
  }

  /** The oldest commit with this sha, or -1. */
  function OldestWith(cs: seq<Record>, sha: Sha): (j: int)
    ensures -1 <= j < |cs|
    ensures j >= 0 ==> cs[j].sha == sha
    ensures forall k | j < k < |cs| :: cs[k].sha != sha
  {
    if cs == [] then -1
    else if cs[|cs| - 1].sha == sha then |cs| - 1
    else OldestWith(cs[..|cs| - 1], sha)
  }

  /** The revert at `k` takes effect: what it names is nominated and stands in the batch. */
  predicate Fires(cs: seq<Record>, shas: set<Sha>, k: nat)
    requires k < |cs|
  {
    IsRevert(cs[k]) && BecauseIn(cs[k], shas) && OldestWith(cs, cs[k].becauseSha.value) >= 0
  }

  function Cancelled(cs: seq<Record>, shas: set<Sha>, k: nat): (r: seq<Record>)
    requires k < |cs| && Fires(cs, shas, k)
    ensures |r| == |cs|
  {
    var j := OldestWith(cs, cs[k].becauseSha.value);
    var cs' := cs[j := Denied(cs[j])];
    cs'[k := Denied(cs'[k])]
  }

  /** The revert loop from position `k` on. */
  function CancelFrom(cs: seq<Record>, shas: set<Sha>, k: nat): (r: seq<Record>)
    requires k <= |cs|
    ensures |r| == |cs|
    decreases |cs| - k
  {
    if k == |cs| then cs
    else if Fires(cs, shas, k) then CancelFrom(Cancelled(cs, shas, k), shas - {cs[k].becauseSha.value}, k + 1)
    else CancelFrom(cs, shas, k + 1)
  }

  /** Both passes of `resolve_fixes`. */
  function Resolved(cs: seq<Record>, previous: seq<Record>): (r: seq<Record>)
    ensures |r| == |cs|
  {
    var base := NominatedShas(previous);
    var ps := Nominate(cs, base);
    CancelFrom(ps, base + NominatedShas(ps), 0)
  }

  // ----- exactness

  ghost predicate DistinctShas(cs: seq<Record>) {
    forall i, j | 0 <= i < j < |cs| :: cs[i].sha != cs[j].sha
  }

  /** A revert before position `k` names `sha`. */
  ghost predicate NamedBefore(cs: seq<Record>, k: nat, sha: Sha)
    requires k <= |cs|
  {
    exists m :: 0 <= m < k && Reverts(cs[m], sha)
  }

  /** A nominated commit that some revert of the batch names. */
  ghost predicate IsTarget(cs: seq<Record>, i: nat)
    requires i < |cs|
  {
    cs[i].nominated && NamedBefore(cs, |cs|, cs[i].sha)
  }

  /** The newest revert that names some nominated commit of the batch. */
  ghost predicate IsNewestRevert(cs: seq<Record>, i: nat)
    requires i < |cs|
  {
    exists j :: 0 <= j < |cs| && cs[j].nominated && Reverts(cs[i], cs[j].sha) && !NamedBefore(cs, i, cs[j].sha)
  }

  /** What the loop has denominated before position `k`. */
  ghost predicate Hit(cs: seq<Record>, k: nat, i: nat)
    requires k <= |cs| && i < |cs|
  {
    (cs[i].nominated && NamedBefore(cs, k, cs[i].sha)) || (i < k && IsNewestRevert(cs, i))
  }

  ghost function Partial(cs: seq<Record>, k: nat): (r: seq<Record>)
    requires k <= |cs|
    ensures |r| == |cs|
    ensures forall i | 0 <= i < |cs| :: r[i] == if Hit(cs, k, i) then Denied(cs[i]) else cs[i]
  {
    seq(|cs|, i requires 0 <= i < |cs| => if Hit(cs, k, i) then Denied(cs[i]) else cs[i])
  }

  /** The shas the loop still holds at position `k`: those of nominated batch commits leave when they are named. */
  ghost predicate ShasAt(cs: seq<Record>, base: set<Sha>, k: nat, shas: set<Sha>)
    requires k <= |cs|
  {
    forall sha: Sha :: sha in shas <==> HeldAt(cs, base, k, sha)
  }

  ghost predicate HeldAt(cs: seq<Record>, base: set<Sha>, k: nat, sha: Sha)
    requires k <= |cs|
  {
    sha in base || (sha in NominatedShas(cs) && !NamedBefore(cs, k, sha))
  }

  lemma OldestIsOnly(cs: seq<Record>, i: nat)
    requires DistinctShas(cs) && i < |cs|
    ensures OldestWith(cs, cs[i].sha) == i
  {
  }

  /** The newest revert of a nominated commit fires, and finds that commit. */
  lemma NewestFires(cs: seq<Record>, base: set<Sha>, k: nat, shas: set<Sha>, j: nat)
    requires DistinctShas(cs) && k < |cs| && j < |cs|
    requires ShasAt(cs, base, k, shas)
    requires cs[j].nominated && Reverts(cs[k], cs[j].sha) && !NamedBefore(cs, k, cs[j].sha)
    ensures Fires(Partial(cs, k), shas, k) && OldestWith(Partial(cs, k), cs[k].becauseSha.value) == j
  {
    HasSha(cs, j);
    assert HeldAt(cs, base, k, cs[j].sha);
    OldestIsOnly(Partial(cs, k), j);
  }

  /** And a revert that fires is the newest one of a nominated commit. */
  lemma FiringIsNewest(cs: seq<Record>, base: set<Sha>, k: nat, shas: set<Sha>)
    requires DistinctShas(cs) && k < |cs|
    requires forall c | c in cs :: c.sha !in base
    requires ShasAt(cs, base, k, shas)
    requires Fires(Partial(cs, k), shas, k)
    ensures IsNewestRevert(cs, k)
  {
    var b := cs[k].becauseSha.value;
    assert HeldAt(cs, base, k, b);
    var j := OldestWith(Partial(cs, k), b);
    assert cs[j] in cs && cs[j].sha == b;
    var m := OwnerOfSha(cs, b);
    assert Reverts(cs[k], cs[m].sha) && !NamedBefore(cs, k, cs[m].sha);
  }

  /** Which reverts fire, told from the batch as it was before the loop. */
  lemma FiresIff(cs: seq<Record>, base: set<Sha>, k: nat, shas: set<Sha>)
    requires DistinctShas(cs) && k < |cs|
    requires forall c | c in cs :: c.sha !in base
    requires ShasAt(cs, base, k, shas)
    ensures Fires(Partial(cs, k), shas, k) <==> IsNewestRevert(cs, k)
    ensures IsNewestRevert(cs, k) ==>
              exists j :: 0 <= j < |cs| && cs[j].nominated && cs[j].sha == cs[k].becauseSha.value
                          && !NamedBefore(cs, k, cs[j].sha)
                          && OldestWith(Partial(cs, k), cs[k].becauseSha.value) == j
  {
    if IsNewestRevert(cs, k) {
      var j :| 0 <= j < |cs| && cs[j].nominated && Reverts(cs[k], cs[j].sha) && !NamedBefore(cs, k, cs[j].sha);
      NewestFires(cs, base, k, shas, j);
    } else if Fires(Partial(cs, k), shas, k) {
      FiringIsNewest(cs, base, k, shas);
    }
  }

  /** One turn of the loop moves the description from `k` to `k + 1`. */
  lemma HitStep(cs: seq<Record>, k: nat, i: nat)
    requires DistinctShas(cs) && k < |cs| && i < |cs|
    ensures Hit(cs, k + 1, i) <==>
              || Hit(cs, k, i)
              || (cs[i].nominated && Reverts(cs[k], cs[i].sha))
              || (i == k && IsNewestRevert(cs, k))
  {
    if cs[i].nominated && NamedBefore(cs, k + 1, cs[i].sha) {
      var m :| 0 <= m < k + 1 && Reverts(cs[m], cs[i].sha);
      if m < k {
        assert NamedBefore(cs, k, cs[i].sha);
      }
    }
    if cs[i].nominated && NamedBefore(cs, k, cs[i].sha) {
      var m :| 0 <= m < k && Reverts(cs[m], cs[i].sha);
      assert NamedBefore(cs, k + 1, cs[i].sha);
    }
    if cs[i].nominated && Reverts(cs[k], cs[i].sha) {
      assert NamedBefore(cs, k + 1, cs[i].sha);
    }
  }

  /** A revert that fires at `k` hits itself and the commit it names. */
  lemma FiringTurn(cs: seq<Record>, k: nat, j: nat, i: nat)
    requires DistinctShas(cs) && k < |cs| && j < |cs| && i < |cs|
    requires cs[j].nominated && Reverts(cs[k], cs[j].sha) && !NamedBefore(cs, k, cs[j].sha)
    ensures Partial(cs, k + 1)[i] == if i == j || i == k then Denied(cs[i]) else Partial(cs, k)[i]
  {
    HitStep(cs, k, i);
    assert IsNewestRevert(cs, k);
  }

  /** Any other commit at `k` hits nothing: what it may name has been hit before. */
  lemma QuietTurn(cs: seq<Record>, k: nat, i: nat)
    requires DistinctShas(cs) && k < |cs| && i < |cs| && !IsNewestRevert(cs, k)
    ensures Partial(cs, k + 1)[i] == Partial(cs, k)[i]
  {
    HitStep(cs, k, i);
  }

  lemma CancelledIs(ps: seq<Record>, shas: set<Sha>, k: nat, j: nat, i: nat)
    requires k < |ps| && Fires(ps, shas, k) && OldestWith(ps, ps[k].becauseSha.value) == j && i < |ps|
    ensures Cancelled(ps, shas, k)[i] == if i == j || i == k then Denied(ps[i]) else ps[i]
  {
  }

  /** One turn of the loop moves the batch from one description to the next. */
  lemma TurnMatches(cs: seq<Record>, base: set<Sha>, k: nat, shas: set<Sha>)
    requires DistinctShas(cs) && k < |cs|
    requires forall c | c in cs :: c.sha !in base
    requires ShasAt(cs, base, k, shas)
    ensures var ps := Partial(cs, k);
            Partial(cs, k + 1) == if Fires(ps, shas, k) then Cancelled(ps, shas, k) else ps
  {
    var ps := Partial(cs, k);
    FiresIff(cs, base, k, shas);
    if Fires(ps, shas, k) {
      var j := OldestWith(ps, cs[k].becauseSha.value);
      forall i | 0 <= i < |cs| ensures Partial(cs, k + 1)[i] == Cancelled(ps, shas, k)[i] {
        FiringTurn(cs, k, j, i);
        CancelledIs(ps, shas, k, j, i);
      }
    } else {
      forall i | 0 <= i < |cs| ensures Partial(cs, k + 1)[i] == ps[i] {
        QuietTurn(cs, k, i);
      }
    }
  }

  lemma ShasStep(cs: seq<Record>, base: set<Sha>, k: nat, shas: set<Sha>)
    requires DistinctShas(cs) && k < |cs|
    requires forall c | c in cs :: c.sha !in base
    requires ShasAt(cs, base, k, shas)
    ensures ShasAt(cs, base, k + 1,
                   if Fires(Partial(cs, k), shas, k) then shas - {cs[k].becauseSha.value} else shas)
  {
    FiresIff(cs, base, k, shas);
    var next := if Fires(Partial(cs, k), shas, k) then shas - {cs[k].becauseSha.value} else shas;
    forall sha: Sha ensures sha in next <==> HeldAt(cs, base, k + 1, sha) {
      assert sha in shas <==> HeldAt(cs, base, k, sha);
      assert NamedBefore(cs, k + 1, sha) <==> NamedBefore(cs, k, sha) || Reverts(cs[k], sha) by {
        if NamedBefore(cs, k, sha) {
          var m :| 0 <= m < k && Reverts(cs[m], sha);
          assert NamedBefore(cs, k + 1, sha);
        }
      }
      if sha in NominatedShas(cs) && Reverts(cs[k], sha) && !NamedBefore(cs, k, sha) {
        var j := OwnerOfSha(cs, sha);
        assert IsNewestRevert(cs, k);
      }
    }
  }

  lemma {:induction false} LoopMatches(cs: seq<Record>, base: set<Sha>, k: nat, shas: set<Sha>)
    requires DistinctShas(cs) && k <= |cs|
    requires forall c | c in cs :: c.sha !in base
    requires ShasAt(cs, base, k, shas)
    ensures CancelFrom(Partial(cs, k), shas, k) == Partial(cs, |cs|)
    decreases |cs| - k
  {
    if k < |cs| {
      TurnMatches(cs, base, k, shas);
      ShasStep(cs, base, k, shas);
      LoopMatches(cs, base, k + 1, if Fires(Partial(cs, k), shas, k) then shas - {cs[k].becauseSha.value} else shas);
    }
  }

  /** With distinct shas, none of them nominated before, the loop denominates exactly each nominated commit that a
      revert of the batch names and the newest revert naming it, and leaves every other commit as it was. */
  lemma CancellationIsExact(cs: seq<Record>, base: set<Sha>, i: nat)
    requires DistinctShas(cs) && i < |cs|
    requires forall c | c in cs :: c.sha !in base
    ensures CancelFrom(cs, base + NominatedShas(cs), 0)[i]
            == if IsTarget(cs, i) || IsNewestRevert(cs, i) then cs[i].(nominated := false, resolution := DENOMINATED)
               else cs[i]
  {
    assert Partial(cs, 0) == cs;
    LoopMatches(cs, base, 0, base + NominatedShas(cs));
  }
}
