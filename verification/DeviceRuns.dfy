/** Whole programs over device wrappers: every flag stays right, the counts of counted devices are those the
    program's variables call for, and no other device's count is ever touched. */
module DeviceRuns {

  import opened HandleAccounts
  import opened HandlePrograms
  import opened DeviceCounting

  /** Constructing a wrapper from a raw reference that the program gives up. */
  method AdoptOwned(rt: DeviceRuntime, h: Handle) returns (w: DeviceWrapper)
    requires rt.Valid() && (rt.IsReferenceCountable(h) ==> h in rt.owned)
    modifies rt`live, rt`owned
    ensures rt.Valid() && rt.owned == old(rt.owned) - Worth(rt.counted, h)
    ensures fresh(w) && rt.live == old(rt.live) + {w} && w.object_ == h
  {
    WorthCancels(rt.counted, h);
    w := new DeviceWrapper.FromHandle(rt, h, multiset{});
    rt.HandOver(h, Worth(rt.counted, h));
  }

  /** Assigning a raw reference that the program gives up. */
  method AssignOwned(rt: DeviceRuntime, w: DeviceWrapper, h: Handle)
    requires rt.Valid() && w in rt.live && (rt.IsReferenceCountable(h) ==> h in rt.owned)
    modifies w, rt`refs, rt`misuse, rt`owned
    ensures rt.Valid() && rt.owned == old(rt.owned) - Worth(rt.counted, h) && rt.misuse == old(rt.misuse)
    ensures UncountedSame(rt.counted, old(rt.refs), rt.refs)
    ensures w.object_ == h
  {
    WorthCancels(rt.counted, h);
    w.RawAssign(rt, h);
    rt.HandOver(h, Worth(rt.counted, h));
  }

  /** A program's wrappers, in the order it names them. */
  class DeviceProgram {
    const rt: DeviceRuntime
    var pool: seq<DeviceWrapper>
    var mine: multiset<Handle>

    ghost predicate Valid()
      reads this, rt, rt.live
    {
      && rt.Valid()
      && rt.owned == mine
      && (forall i, j | 0 <= i < j < |pool| :: pool[i] != pool[j])
      && rt.live == set w | w in pool
    }

    ghost function Seen(): View
      reads this, pool
    {
      View(seq(|pool|, i requires 0 <= i < |pool| reads this, pool => pool[i].object_), mine)
    }

    constructor (counted: Handle -> bool, refs: multiset<Handle>)
      requires NULL !in refs && forall h: Handle :: h in refs ==> !counted(h)
      ensures Valid() && Seen() == View([], multiset{}) && rt.misuse == 0 && fresh(rt)
      ensures rt.counted == counted && rt.refs == refs
    {
      rt := new DeviceRuntime(counted, refs);
      pool := [];
      mine := multiset{};
    }

    /** Conservation, as the program sees it. */
    lemma CountsFollow()
      requires Valid()
      ensures CountsMatch(rt.counted, rt.refs, Seen())
    {
      forall h: Handle | h != NULL && rt.counted(h) ensures rt.refs[h] == multiset(Seen().handles)[h] + mine[h] {
        assert FairAt(rt.counted, rt.refs, multiset{}, rt.Held(), rt.owned, h);
        TallyIsMultiplicity(pool, rt.Held(), h);
        assert HandlesOf(pool, rt.Held()) == Seen().handles;
      }
    }

    method Append(w: DeviceWrapper)
      requires rt.Valid() && rt.owned == mine
      requires forall i, j | 0 <= i < j < |pool| :: pool[i] != pool[j]
      requires w !in pool && rt.live == (set x | x in pool) + {w}
      modifies this`pool
      ensures Valid() && pool == old(pool) + [w]
      ensures Seen() == View(old(Seen().handles) + [w.object_], mine)
    {
      pool := pool + [w];
    }

    method AdoptHandle(h: Handle)
      requires Valid() && (rt.IsReferenceCountable(h) ==> h in mine)
      modifies this, rt`live, rt`owned
      ensures Valid() && Seen() == View(old(Seen().handles) + [h], old(mine) - Worth(rt.counted, h))
      ensures fresh(set w | w in pool && w !in old(pool))
    {
      var w := AdoptOwned(rt, h);
      mine := mine - Worth(rt.counted, h);
      assert Seen().handles == old(Seen().handles);
      Append(w);
    }

    method CopyOf(i: nat)
      requires Valid() && i < |pool|
      modifies this`pool, rt
      ensures Valid() && Seen() == Effect(rt.counted, old(Seen()), Copy(i)) && rt.misuse == old(rt.misuse)
      ensures UncountedSame(rt.counted, old(rt.refs), rt.refs)
      ensures fresh(set w | w in pool && w !in old(pool))
    {
      var w := new DeviceWrapper.Copy(rt, pool[i]);
      Append(w);
    }

    method MoveOf(i: nat)
      requires Valid() && i < |pool|
      modifies this`pool, pool, rt`live
      ensures Valid() && Seen() == Effect(rt.counted, old(Seen()), Move(i))
      ensures fresh(set w | w in pool && w !in old(pool))
    {
      var w := new DeviceWrapper.Move(rt, pool[i]);
      Append(w);
    }

    method AssignRaw(i: nat, h: Handle)
      requires Valid() && i < |pool| && (rt.IsReferenceCountable(h) ==> h in mine)
      modifies this`mine, pool, rt
      ensures Valid() && Seen() == View(old(Seen().handles)[i := h], old(mine) - Worth(rt.counted, h))
      ensures rt.misuse == old(rt.misuse)
      ensures UncountedSame(rt.counted, old(rt.refs), rt.refs)
    {
      AssignOwned(rt, pool[i], h);
      mine := mine - Worth(rt.counted, h);
      assert Seen().handles == old(Seen().handles)[i := h];
    }

    method DestroyAt(i: nat)
      requires Valid() && i < |pool|
      modifies this`pool, rt
      ensures Valid() && Seen() == Effect(rt.counted, old(Seen()), Destroy(i)) && rt.misuse == old(rt.misuse)
      ensures UncountedSame(rt.counted, old(rt.refs), rt.refs)
      ensures fresh(set w | w in pool && w !in old(pool))
    {
      pool[i].Destroy(rt);
      pool := pool[..i] + pool[i + 1..];
    }

    method AcquireRaw(h: Handle)
      requires Valid() && rt.IsReferenceCountable(h)
      modifies this`mine, rt`refs, rt`owned
      ensures Valid() && Seen() == Effect(rt.counted, old(Seen()), Acquire(h))
      ensures UncountedSame(rt.counted, old(rt.refs), rt.refs)
    {
      rt.Acquire(h);
      mine := mine + multiset{h};
      assert Seen().handles == old(Seen().handles);
    }

    method SurrenderRaw(h: Handle)
      requires Valid() && h in mine
      modifies this`mine, rt`refs, rt`misuse, rt`owned
      ensures Valid() && Seen() == Effect(rt.counted, old(Seen()), Surrender(h)) && rt.misuse == old(rt.misuse)
      ensures UncountedSame(rt.counted, old(rt.refs), rt.refs)
    {
      rt.Surrender(h);
      mine := mine - multiset{h};
      assert Seen().handles == old(Seen().handles);
    }

    method Assign(op: Op)
      requires Valid() && Legal(rt.counted, Seen(), op) && (op.CopyAssign? || op.MoveAssign?)
      modifies pool, rt`refs, rt`misuse
      ensures Valid() && Seen() == Effect(rt.counted, old(Seen()), op) && rt.misuse == old(rt.misuse)
      ensures UncountedSame(rt.counted, old(rt.refs), rt.refs)
    {
      if op.CopyAssign? {
        pool[op.i].CopyAssign(rt, pool[op.j]);
      } else {
        pool[op.i].MoveAssign(rt, pool[op.j]);
      }
    }

    method Join(op: Op)
      requires Valid() && Legal(rt.counted, Seen(), op) && (op.Construct? || op.Adopt? || op.Copy? || op.Move?)
      modifies this, pool, rt
      ensures Valid() && Seen() == Effect(rt.counted, old(Seen()), op) && rt.misuse == old(rt.misuse)
      ensures UncountedSame(rt.counted, old(rt.refs), rt.refs)
      ensures fresh(set w | w in pool && w !in old(pool))
    {
      if op.Construct? {
        assert mine - Worth(rt.counted, NULL) == mine;
        AdoptHandle(NULL);
      } else if op.Adopt? {
        AdoptHandle(op.h);
      } else if op.Copy? {
        CopyOf(op.i);
      } else {
        MoveOf(op.i);
      }
    }

    method Perform(op: Op)
      requires Valid() && Legal(rt.counted, Seen(), op)
      modifies this, pool, rt
      ensures Valid() && Seen() == Effect(rt.counted, old(Seen()), op) && rt.misuse == old(rt.misuse)
      ensures UncountedSame(rt.counted, old(rt.refs), rt.refs)
      ensures fresh(set w | w in pool && w !in old(pool))
    {
      if op.Acquire? {
        AcquireRaw(op.h);
      } else if op.Surrender? {
        SurrenderRaw(op.h);
      } else if op.Construct? || op.Adopt? || op.Copy? || op.Move? {
        Join(op);
      } else if op.CopyAssign? || op.MoveAssign? {
        Assign(op);
      } else if op.RawAssign? {
        AssignRaw(op.i, op.h);
      } else {
        DestroyAt(op.i);
      }
    }

    /** Any legal program: every flag is right (part of `Valid`), devices nobody counts are left alone, no retain or
        release ever meets a dead handle, every variable holds what its own operations say, and the counts match the
        variables. */
    method Run(ops: seq<Op>)
      requires Valid() && LegalRun(rt.counted, Seen(), ops)
      modifies this, pool, rt
      ensures Valid() && Seen() == RunEffect(rt.counted, old(Seen()), ops)
      ensures rt.misuse == old(rt.misuse)
      ensures UncountedSame(rt.counted, old(rt.refs), rt.refs)
      ensures CountsMatch(rt.counted, rt.refs, Seen())
      ensures fresh(set w | w in pool && w !in old(pool))
    {
      for k := 0 to |ops|
        invariant Valid() && LegalRun(rt.counted, Seen(), ops[k..])
        invariant RunEffect(rt.counted, Seen(), ops[k..]) == RunEffect(rt.counted, old(Seen()), ops)
        invariant rt.misuse == old(rt.misuse) && UncountedSame(rt.counted, old(rt.refs), rt.refs)
        invariant fresh(set w | w in pool && w !in old(pool))
      {
        ghost var before := rt.refs;
        Perform(ops[k]);
        UncountedSameTransitive(rt.counted, old(rt.refs), before, rt.refs);
        assert ops[k..][1..] == ops[k + 1..];
      }
      CountsFollow();
    }
  }
}
