/** Whole programs over wrappers: whatever the order of constructions, copies, moves, assignments and
    destructions, the driver's counts are those the program's variables call for. */
module WrapperRuns {

  import opened HandleAccounts
  import opened HandlePrograms
  import opened ReferenceCounting

  /** Constructing a wrapper from a raw reference that the program gives up. */
  method AdoptOwned(rt: Runtime, h: Handle) returns (w: Wrapper)
    requires rt.Valid() && (h == NULL || h in rt.owned)
    modifies rt`live, rt`owned
    ensures rt.Valid() && rt.owned == old(rt.owned) - Worth(All, h)
    ensures fresh(w) && rt.live == old(rt.live) + {w} && w.object_ == h
  {
    WorthCancels(All, h);
    w := new Wrapper.FromHandle(rt, h, multiset{});
    rt.HandOver(h, Worth(All, h));
  }

  /** Assigning a raw reference that the program gives up. */
  method AssignOwned(rt: Runtime, w: Wrapper, h: Handle)
    requires rt.Valid() && w in rt.live && (h == NULL || h in rt.owned)
    modifies w, rt`refs, rt`misuse, rt`owned
    ensures rt.Valid() && rt.owned == old(rt.owned) - Worth(All, h) && rt.misuse == old(rt.misuse)
    ensures w.object_ == h
  {
    WorthCancels(All, h);
    w.RawAssign(rt, h);
    rt.HandOver(h, Worth(All, h));
  }

  /** A program's wrappers, in the order it names them. */
  class Program {
    const rt: Runtime
    var pool: seq<Wrapper>
    var mine: multiset<Handle>

    ghost predicate Valid()
      reads this, rt, rt.live
    {
      && rt.Valid()
      && rt.owned == mine
      && (forall i, j | 0 <= i < j < |pool| :: pool[i] != pool[j])
      && rt.live == set w | w in pool
    }

    ghost function Seen(): View
      reads this, pool
    {
      View(seq(|pool|, i requires 0 <= i < |pool| reads this, pool => pool[i].object_), mine)
    }

    constructor ()
      ensures Valid() && Seen() == View([], multiset{}) && rt.misuse == 0 && fresh(rt)
    {
      rt := new Runtime();
      pool := [];
      mine := multiset{};
    }

    /** Conservation, as the program sees it. */
    lemma CountsFollow()
      requires Valid()
      ensures CountsMatch(All, rt.refs, Seen())
    {
      forall h: Handle | h != NULL ensures rt.refs[h] == multiset(Seen().handles)[h] + mine[h] {
        assert FairAt(All, rt.refs, multiset{}, rt.Held(), rt.owned, h);
        TallyIsMultiplicity(pool, rt.Held(), h);
        assert HandlesOf(pool, rt.Held()) == Seen().handles;
      }
    }

    method Append(w: Wrapper)
      requires rt.Valid() && rt.owned == mine
      requires forall i, j | 0 <= i < j < |pool| :: pool[i] != pool[j]
      requires w !in pool && rt.live == (set x | x in pool) + {w}
      modifies this`pool
      ensures Valid() && pool == old(pool) + [w]
      ensures Seen() == View(old(Seen().handles) + [w.object_], mine)
    {
      pool := pool + [w];
    }

    method AdoptHandle(h: Handle)
      requires Valid() && (h == NULL || h in mine)
      modifies this, rt`live, rt`owned
      ensures Valid() && Seen() == View(old(Seen().handles) + [h], old(mine) - Worth(All, h))
      ensures fresh(set w | w in pool && w !in old(pool))
    {
      var w := AdoptOwned(rt, h);
      mine := mine - Worth(All, h);
      assert Seen().handles == old(Seen().handles);
      Append(w);
    }

    method CopyOf(i: nat)
      requires Valid() && i < |pool|
      modifies this`pool, rt
      ensures Valid() && Seen() == Effect(All, old(Seen()), Copy(i)) && rt.misuse == old(rt.misuse)
      ensures fresh(set w | w in pool && w !in old(pool))
    {
      var w := new Wrapper.Copy(rt, pool[i]);
      Append(w);
    }

    method MoveOf(i: nat)
      requires Valid() && i < |pool|
      modifies this`pool, pool, rt`live
      ensures Valid() && Seen() == Effect(All, old(Seen()), Move(i))
      ensures fresh(set w | w in pool && w !in old(pool))
    {
      var w := new Wrapper.Move(rt, pool[i]);
      Append(w);
    }

    method AssignRaw(i: nat, h: Handle)
      requires Valid() && i < |pool| && (h == NULL || h in mine)
      modifies this`mine, pool, rt
      ensures Valid() && Seen() == View(old(Seen().handles)[i := h], old(mine) - Worth(All, h))
      ensures rt.misuse == old(rt.misuse)
    {
      AssignOwned(rt, pool[i], h);
      mine := mine - Worth(All, h);
      assert Seen().handles == old(Seen().handles)[i := h];
    }

    method DestroyAt(i: nat)
      requires Valid() && i < |pool|
      modifies this`pool, rt
      ensures Valid() && Seen() == Effect(All, old(Seen()), Destroy(i)) && rt.misuse == old(rt.misuse)
      ensures fresh(set w | w in pool && w !in old(pool))
    {
      pool[i].Destroy(rt);
      pool := pool[..i] + pool[i + 1..];
    }

    method AcquireRaw(h: Handle)
      requires Valid() && h != NULL
      modifies this`mine, rt`refs, rt`owned
      ensures Valid() && Seen() == Effect(All, old(Seen()), Acquire(h))
    {
      rt.Acquire(h);
      mine := mine + multiset{h};
      assert Seen().handles == old(Seen().handles);
    }

    method SurrenderRaw(h: Handle)
      requires Valid() && h in mine
      modifies this`mine, rt`refs, rt`misuse, rt`owned
      ensures Valid() && Seen() == Effect(All, old(Seen()), Surrender(h)) && rt.misuse == old(rt.misuse)
    {
      rt.Surrender(h);
      mine := mine - multiset{h};
      assert Seen().handles == old(Seen().handles);
    }

    method Assign(op: Op)
      requires Valid() && Legal(All, Seen(), op) && (op.CopyAssign? || op.MoveAssign?)
      modifies pool, rt`refs, rt`misuse
      ensures Valid() && Seen() == Effect(All, old(Seen()), op) && rt.misuse == old(rt.misuse)
    {
      if op.CopyAssign? {
        pool[op.i].CopyAssign(rt, pool[op.j]);
      } else {
        pool[op.i].MoveAssign(rt, pool[op.j]);
      }
    }

    method Join(op: Op)
      requires Valid() && Legal(All, Seen(), op) && (op.Construct? || op.Adopt? || op.Copy? || op.Move?)
      modifies this, pool, rt
      ensures Valid() && Seen() == Effect(All, old(Seen()), op) && rt.misuse == old(rt.misuse)
      ensures fresh(set w | w in pool && w !in old(pool))
    {
      if op.Construct? {
        assert mine - Worth(All, NULL) == mine;
        AdoptHandle(NULL);
      } else if op.Adopt? {
        AdoptHandle(op.h);
      } else if op.Copy? {
        CopyOf(op.i);
      } else {
        MoveOf(op.i);
      }
    }

    method Perform(op: Op)
      requires Valid() && Legal(All, Seen(), op)
      modifies this, pool, rt
      ensures Valid() && Seen() == Effect(All, old(Seen()), op) && rt.misuse == old(rt.misuse)
      ensures fresh(set w | w in pool && w !in old(pool))
    {
      if op.Acquire? {
        AcquireRaw(op.h);
      } else if op.Surrender? {
        SurrenderRaw(op.h);
      } else if op.Construct? || op.Adopt? || op.Copy? || op.Move? {
        Join(op);
      } else if op.CopyAssign? || op.MoveAssign? {
        Assign(op);
      } else if op.RawAssign? {
        AssignRaw(op.i, op.h);
      } else {
        DestroyAt(op.i);
      }
    }

    /** Any legal program: no retain or release ever meets a dead handle, every variable holds what its own
        operations say, and the counts match the variables. */
    method Run(ops: seq<Op>)
      requires Valid() && LegalRun(All, Seen(), ops)
      modifies this, pool, rt
      ensures Valid() && Seen() == RunEffect(All, old(Seen()), ops)
      ensures rt.misuse == old(rt.misuse)
      ensures CountsMatch(All, rt.refs, Seen())
      ensures fresh(set w | w in pool && w !in old(pool))
    {
      for k := 0 to |ops|
        invariant Valid() && LegalRun(All, Seen(), ops[k..])
        invariant RunEffect(All, Seen(), ops[k..]) == RunEffect(All, old(Seen()), ops)
        invariant rt.misuse == old(rt.misuse)
        invariant fresh(set w | w in pool && w !in old(pool))
      {
        Perform(ops[k]);
        assert ops[k..][1..] == ops[k + 1..];
      }
      CountsFollow();
    }
  }
}
