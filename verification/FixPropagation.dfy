/** What the fix pass over a batch of new commits computes, and the least fixpoint it is. Batches are newest first. */
module FixPropagation {

  import opened Options
  import opened Commits

  // ----- the fix pass

  function NominatedShas(cs: seq<Record>): set<Sha> {
    if cs == [] then {} else NominatedShas(cs[1..]) + if cs[0].nominated then {cs[0].sha} else {}
  }

  lemma {:induction false} HasSha(cs: seq<Record>, i: nat)
    requires i < |cs| && cs[i].nominated
    ensures cs[i].sha in NominatedShas(cs)
  {
    if i > 0 {
      HasSha(cs[1..], i - 1);
    }
  }

  lemma {:induction false} OwnerOfSha(cs: seq<Record>, sha: Sha) returns (i: nat)
    requires sha in NominatedShas(cs)
    ensures i < |cs| && cs[i].nominated && cs[i].sha == sha
  {
    if cs[0].nominated && cs[0].sha == sha {
      i := 0;
    } else {
      i := OwnerOfSha(cs[1..], sha);
      i := i + 1;
    }
  }

  predicate IsFix(c: Record) {
    c.nominationType == Some(FIXES)
  }

  predicate BecauseIn(c: Record, shas: set<Sha>) {
    c.becauseSha.Some? && c.becauseSha.value in shas
  }

  /** The effect of one turn, with `shas` the nominated commits known so far. */
  function NominateOne(c: Record, shas: set<Sha>): Record {
    if !c.nominated && IsFix(c) then c.(nominated := BecauseIn(c, shas)) else c
  }

  /** The pass from the oldest commit, which comes last, to the newest. */
  function Nominate(cs: seq<Record>, base: set<Sha>): (r: seq<Record>)
    ensures |r| == |cs|
  {
    if cs == [] then []
    else
      var older := Nominate(cs[1..], base);
      [NominateOne(cs[0], base + NominatedShas(older))] + older
  }

  /** The pass changes nothing but the nomination of fixes that were not nominated. */
  lemma {:induction false} NominateShape(cs: seq<Record>, base: set<Sha>, i: nat)
    requires i < |cs|
    ensures Nominate(cs, base)[i] == cs[i].(nominated := Nominate(cs, base)[i].nominated)
    ensures cs[i].nominated || !IsFix(cs[i]) ==> Nominate(cs, base)[i] == cs[i]
  {
    if i > 0 {
      NominateShape(cs[1..], base, i - 1);
    }
  }

  // ----- the reference: the least set closed under "fixes a member"

  /** A commit that names something in `base`, or a batch commit that `members` says is in. */
  ghost predicate FixesMember(cs: seq<Record>, base: set<Sha>, members: set<nat>, i: nat)
    requires i < |cs|
  {
    && IsFix(cs[i]) && cs[i].becauseSha.Some?
    && (cs[i].becauseSha.value in base
        || exists j :: 0 <= j < |cs| && j in members && cs[j].sha == cs[i].becauseSha.value)
  }

  /** `members` holds everything nominated to begin with and every fix of a member. */
  ghost predicate Closed(cs: seq<Record>, base: set<Sha>, members: set<nat>) {
    forall i | 0 <= i < |cs| :: cs[i].nominated || FixesMember(cs, base, members, i) ==> i in members
  }

  /** The positions the pass nominates. */
  function Nominated(cs: seq<Record>, base: set<Sha>): set<nat> {
    set i | 0 <= i < |cs| && Nominate(cs, base)[i].nominated
  }

  /** Batch commits name only older batch commits, as history has it. */
  ghost predicate PointsToOlder(cs: seq<Record>) {
    forall i, j | 0 <= i < |cs| && 0 <= j < |cs| && cs[i].becauseSha == Some(cs[j].sha) :: i < j
  }

  /** One step of the pass, seen from position `k`. */
  lemma {:induction false} NominateAt(cs: seq<Record>, base: set<Sha>, k: nat)
    requires k < |cs|
    ensures Nominate(cs, base)[k..] == Nominate(cs[k..], base)
    ensures Nominate(cs, base)[k] == NominateOne(cs[k], base + NominatedShas(Nominate(cs, base)[k + 1..]))
  {
    var r := Nominate(cs, base);
    if k > 0 {
      NominateAt(cs[1..], base, k - 1);
      assert cs[1..][k - 1..] == cs[k..];
      assert r[k..] == Nominate(cs[1..], base)[k - 1..] && r[k + 1..] == Nominate(cs[1..], base)[k..];
    } else {
      assert cs[0..] == cs && r[0..] == r && r[1..] == Nominate(cs[1..], base);
    }
  }

  /** The pass nominates nothing it need not: whatever is closed contains what it nominates. */
  lemma {:induction false} PassIsSound(cs: seq<Record>, base: set<Sha>, members: set<nat>, k: nat)
    requires Closed(cs, base, members) && k <= |cs|
    ensures forall i | k <= i < |cs| && Nominate(cs, base)[i].nominated :: i in members
    decreases |cs| - k
  {
    if k < |cs| {
      PassIsSound(cs, base, members, k + 1);
      NominateAt(cs, base, k);
      var r := Nominate(cs, base);
      if r[k].nominated && !cs[k].nominated {
        var b := cs[k].becauseSha.value;
        if b !in base {
          var j := OwnerOfSha(r[k + 1..], b);
          NominateShape(cs, base, k + 1 + j);
        }
        assert FixesMember(cs, base, members, k);
      }
    }
  }

  /** A fix of an older commit that the pass nominates is nominated. */
  lemma FixFollows(cs: seq<Record>, base: set<Sha>, i: nat, j: nat)
    requires i < j < |cs| && IsFix(cs[i]) && cs[i].becauseSha == Some(cs[j].sha)
    requires Nominate(cs, base)[j].nominated
    ensures Nominate(cs, base)[i].nominated
  {
    var rest := Nominate(cs, base)[i + 1..];
    assert cs[j].sha in NominatedShas(rest) by {
      NominateShape(cs, base, j);
      HasSha(rest, j - i - 1);
    }
    NominateAt(cs, base, i);
  }

  lemma FixIsFollowed(cs: seq<Record>, base: set<Sha>, i: nat)
    requires PointsToOlder(cs) && i < |cs| && FixesMember(cs, base, Nominated(cs, base), i)
    ensures Nominate(cs, base)[i].nominated
  {
    if cs[i].becauseSha.value in base {
      NominateAt(cs, base, i);
    } else {
      var j :| 0 <= j < |cs| && j in Nominated(cs, base) && cs[j].sha == cs[i].becauseSha.value;
      FixFollows(cs, base, i, j);
    }
  }

  /** The pass misses nothing: what it nominates is closed. */
  lemma PassIsComplete(cs: seq<Record>, base: set<Sha>)
    requires PointsToOlder(cs)
    ensures Closed(cs, base, Nominated(cs, base))
  {
    forall i | 0 <= i < |cs| && (cs[i].nominated || FixesMember(cs, base, Nominated(cs, base), i))
      ensures i in Nominated(cs, base)
    {
      if cs[i].nominated {
        NominateShape(cs, base, i);
      } else {
        FixIsFollowed(cs, base, i);
      }
    }
  }

  /** The single pass nominates exactly the least closed set. */
  lemma PassIsLeastFixpoint(cs: seq<Record>, base: set<Sha>)
    requires PointsToOlder(cs)
    ensures Closed(cs, base, Nominated(cs, base))
    ensures forall members: set<nat> | Closed(cs, base, members) :: Nominated(cs, base) <= members
  {
    PassIsComplete(cs, base);
    forall members: set<nat> | Closed(cs, base, members) ensures Nominated(cs, base) <= members {
      PassIsSound(cs, base, members, 0);
    }
  }

  // ----- the same set, as chains of fixes

  /** `path` leads from a fix, through fixes of the batch that are not nominated themselves, to a commit that is
      nominated to begin with, in the batch or before it. */
  ghost predicate Chain(cs: seq<Record>, base: set<Sha>, path: seq<nat>)
    decreases |path|
  {
    && path != [] && path[0] < |cs|
    && var c := cs[path[0]];
       && !c.nominated && IsFix(c) && c.becauseSha.Some?
       && if |path| == 1 then
            c.becauseSha.value in base + NominatedShas(cs)
          else
            path[1] < |cs| && cs[path[1]].sha == c.becauseSha.value && Chain(cs, base, path[1..])
  }

  lemma ChainCons(cs: seq<Record>, base: set<Sha>, i: nat, rest: seq<nat>)
    requires Chain(cs, base, rest) && i < |cs|
    requires !cs[i].nominated && IsFix(cs[i]) && cs[i].becauseSha == Some(cs[rest[0]].sha)
    ensures Chain(cs, base, [i] + rest)
  {
    assert ([i] + rest)[1..] == rest;
  }

  /** Every nomination the pass adds is justified by a chain. */
  lemma {:induction false} ChainOf(cs: seq<Record>, base: set<Sha>, i: nat) returns (path: seq<nat>)
    requires i < |cs| && !cs[i].nominated && Nominate(cs, base)[i].nominated
    ensures path != [] && path[0] == i && Chain(cs, base, path)
    decreases |cs| - i
  {
    NominateAt(cs, base, i);
    path := [i];
    if cs[i].becauseSha.value !in base {
      var j := OlderOwner(cs, base, i);
      if cs[j].nominated {
        HasSha(cs, j);
      } else {
        var rest := ChainOf(cs, base, j);
        ChainCons(cs, base, i, rest);
        path := [i] + rest;
      }
    }
  }

  /** The commit of the batch that the pass found nominated when it nominated `i`. */
  lemma OlderOwner(cs: seq<Record>, base: set<Sha>, i: nat) returns (j: nat)
    requires i < |cs| && !cs[i].nominated && Nominate(cs, base)[i].nominated
    requires cs[i].becauseSha.Some? && cs[i].becauseSha.value !in base
    ensures i < j < |cs| && Nominate(cs, base)[j].nominated && cs[i].becauseSha == Some(cs[j].sha)
  {
    NominateAt(cs, base, i);
    var offset := OwnerOfSha(Nominate(cs, base)[i + 1..], cs[i].becauseSha.value);
    j := i + 1 + offset;
    NominateShape(cs, base, j);
  }

  /** And every chain is followed. */
  lemma {:induction false} ChainIsFollowed(cs: seq<Record>, base: set<Sha>, path: seq<nat>)
    requires PointsToOlder(cs) && Chain(cs, base, path)
    ensures Nominate(cs, base)[path[0]].nominated
    decreases |path|
  {
    PassIsComplete(cs, base);
    var i := path[0];
    var members := Nominated(cs, base);
    if |path| > 1 {
      ChainIsFollowed(cs, base, path[1..]);
      assert path[1] in members;
      assert FixesMember(cs, base, members, i);
    } else if cs[i].becauseSha.value !in base {
      var j := OwnerOfSha(cs, cs[i].becauseSha.value);
      assert j in members;
      assert FixesMember(cs, base, members, i);
    } else {
      assert FixesMember(cs, base, members, i);
    }
  }

  ghost predicate HasChain(cs: seq<Record>, base: set<Sha>, i: nat) {
    exists path :: path != [] && path[0] == i && Chain(cs, base, path)
  }

  /** A commit ends the pass nominated exactly when it began it nominated or a chain of fixes starts at it. */
  lemma NominatedIffChain(cs: seq<Record>, base: set<Sha>, i: nat)
    requires PointsToOlder(cs) && i < |cs|
    ensures Nominate(cs, base)[i].nominated
            <==> cs[i].nominated || HasChain(cs, base, i)
  {
    NominateShape(cs, base, i);
    if Nominate(cs, base)[i].nominated && !cs[i].nominated {
      var path := ChainOf(cs, base, i);
    }
    if path :| path != [] && path[0] == i && Chain(cs, base, path) {
      ChainIsFollowed(cs, base, path);
    }
  }

  /** Why the order matters: a fix placed before the commit it fixes is missed by the pass. */
  lemma OrderMatters()
    ensures var fix := NewRecord("f", "").(nominationType := Some(FIXES), becauseSha := Some("x"));
            var fixed := NewRecord("x", "").(nominated := true, nominationType := Some(CC));
            && Nominate([fix, fixed], {})[0].nominated
            && !Nominate([fixed, fix], {})[1].nominated
            && !PointsToOlder([fixed, fix])
  {
    var fix := NewRecord("f", "").(nominationType := Some(FIXES), becauseSha := Some("x"));
    var fixed := NewRecord("x", "").(nominated := true, nominationType := Some(CC));
    NominateAt([fix, fixed], {}, 0);
    NominateAt([fix, fixed], {}, 1);
    NominateAt([fixed, fix], {}, 1);
    HasSha(Nominate([fix, fixed], {})[1..], 0);
    assert [fixed, fix][1].becauseSha == Some([fixed, fix][0].sha);
  }
}
