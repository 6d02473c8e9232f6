/** Programs over handle wrappers: the operations, and what they mean for the program without any counting. */
module HandlePrograms {

  import opened HandleAccounts

  /** One operation of a program; wrappers are named by their position among those alive. `Acquire` and
      `Surrender` obtain and release a raw reference; `Adopt` and `RawAssign` give one up to a wrapper. */
  datatype Op =
    | Acquire(h: Handle)
    | Surrender(h: Handle)
    | Construct
    | Adopt(h: Handle)
    | Copy(i: nat)
    | Move(i: nat)
    | CopyAssign(i: nat, j: nat)
    | MoveAssign(i: nat, j: nat)
    | RawAssign(i: nat, h: Handle)
    | Destroy(i: nat)

  /** What a program can see: the handle in each live wrapper, and the raw references it owns. */
  datatype View = View(handles: seq<Handle>, mine: multiset<Handle>)

  /** The caller's obligations: wrappers named exist, and a raw reference given up to a wrapper, where the driver
      counts that handle, is owned. */
  predicate Legal(counted: Handle -> bool, v: View, op: Op) {
    match op
    case Acquire(h) => h != NULL && counted(h)
    case Surrender(h) => h in v.mine
    case Construct => true
    case Adopt(h) => h != NULL && counted(h) ==> h in v.mine
    case Copy(i) => i < |v.handles|
    case Move(i) => i < |v.handles|
    case CopyAssign(i, j) => i < |v.handles| && j < |v.handles|
    case MoveAssign(i, j) => i < |v.handles| && j < |v.handles|
    case RawAssign(i, h) => i < |v.handles| && (h != NULL && counted(h) ==> h in v.mine)
    case Destroy(i) => i < |v.handles|
  }

  /** What an operation means for the program, without any counting. */
  function Effect(counted: Handle -> bool, v: View, op: Op): View
    requires Legal(counted, v, op)
  {
    match op
    case Acquire(h) => v.(mine := v.mine + multiset{h})
    case Surrender(h) => v.(mine := v.mine - multiset{h})
    case Construct => v.(handles := v.handles + [NULL])
    case Adopt(h) => View(v.handles + [h], v.mine - Worth(counted, h))
    case Copy(i) => v.(handles := v.handles + [v.handles[i]])
    case Move(i) => v.(handles := v.handles[i := NULL] + [v.handles[i]])
    case CopyAssign(i, j) => v.(handles := v.handles[i := v.handles[j]])
    case MoveAssign(i, j) => if i == j then v else v.(handles := v.handles[i := v.handles[j]][j := NULL])
    case RawAssign(i, h) => View(v.handles[i := h], v.mine - Worth(counted, h))
    case Destroy(i) => v.(handles := v.handles[..i] + v.handles[i + 1..])
  }

  ghost predicate LegalRun(counted: Handle -> bool, v: View, ops: seq<Op>)
    decreases |ops|
  {
    ops == [] || (Legal(counted, v, ops[0]) && LegalRun(counted, Effect(counted, v, ops[0]), ops[1..]))
  }

  ghost function RunEffect(counted: Handle -> bool, v: View, ops: seq<Op>): View
    requires LegalRun(counted, v, ops)
    decreases |ops|
  {
    if ops == [] then v else RunEffect(counted, Effect(counted, v, ops[0]), ops[1..])
  }

  /** The counts a program's view calls for. */
  ghost predicate CountsMatch(counted: Handle -> bool, refs: multiset<Handle>, v: View) {
    forall h: Handle | h != NULL && counted(h) :: refs[h] == multiset(v.handles)[h] + v.mine[h]
  }

  function HandlesOf<W>(pool: seq<W>, held: map<W, Handle>): seq<Handle>
    requires forall w | w in pool :: w in held
  {
    seq(|pool|, i requires 0 <= i < |pool| => held[pool[i]])
  }

  /** Counting holders and counting handles in a list of distinct holders is the same. */
  lemma {:induction false} TallyIsMultiplicity<W>(pool: seq<W>, held: map<W, Handle>, h: Handle)
    requires forall i, j | 0 <= i < j < |pool| :: pool[i] != pool[j]
    requires held.Keys == set w | w in pool
    ensures Tally(held, h) == multiset(HandlesOf(pool, held))[h]
  {
    if pool == [] {
      assert Holders(held, h) == {};
    } else {
      var n := |pool| - 1;
      var w, front := pool[n], pool[..n];
      var held' := held - {w};
      assert w !in front;
      TallyIsMultiplicity(front, held', h);
      TallyRemove(held, w, h);
      assert HandlesOf(pool, held) == HandlesOf(front, held') + [held[w]];
    }
  }

  lemma WorthCancels(counted: Handle -> bool, h: Handle)
    ensures multiset{} + Worth(counted, h) == Worth(counted, h)
    ensures Worth(counted, h) - Worth(counted, h) == multiset{}
  {
  }
}
