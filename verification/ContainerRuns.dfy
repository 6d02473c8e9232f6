/** Whole programs over several vectors and several strings: each stands for its own sequence throughout, whatever the
    order of operations and copies, and no operation on one shows in another. */
module ContainerRuns {

  import opened ClVector
  import ClString

  // ----- vectors

  /** One operation; vectors are named by the order of their construction. */
  datatype VectorOp<T> =
    | Make(size: nat, val: T)
    | MakeCopy(of: nat)
    | PushBack(at: nat, x: T)
    | PopBack(at: nat)
    | Clear(at: nat)
    | Resize(at: nat, size: nat, fill: T)
    | CopyFrom(at: nat, of: nat)
    | Assign(at: nat, of: nat, start: nat, end: nat)

  /** The vectors named exist, and an iterator range is one of the vector it is taken from. */
  predicate LegalForVectors<T>(vs: seq<seq<T>>, op: VectorOp<T>) {
    match op
    case Make(_, _) => true
    case MakeCopy(of) => of < |vs|
    case CopyFrom(at, of) => at < |vs| && of < |vs|
    case Assign(at, of, start, end) => at < |vs| && of < |vs| && start <= end <= |vs[of]|
    case _ => op.at < |vs|
  }

  /** What an operation means for sequences of at most `capacity` elements. */
  function VectorEffect<T>(capacity: nat, vs: seq<seq<T>>, op: VectorOp<T>): seq<seq<T>>
    requires LegalForVectors(vs, op)
  {
    match op
    case Make(size, val) => vs + [Truncated(Filled(val, size), capacity)]
    case MakeCopy(of) => vs + [vs[of]]
    case PushBack(at, x) => vs[at := Truncated(vs[at] + [x], capacity)]
    case PopBack(at) => vs[at := if vs[at] == [] then [] else vs[at][..|vs[at]| - 1]]
    case Clear(at) => vs[at := []]
    case Resize(at, size, fill) => vs[at := if size > capacity then vs[at] else Resized(vs[at], size, fill)]
    case CopyFrom(at, of) => vs[at := vs[of]]
    case Assign(at, of, start, end) => vs[at := vs[of][start..end]]
  }

  ghost predicate LegalVectorRun<T>(capacity: nat, vs: seq<seq<T>>, ops: seq<VectorOp<T>>)
    decreases |ops|
  {
    ops == [] || (LegalForVectors(vs, ops[0]) && LegalVectorRun(capacity, VectorEffect(capacity, vs, ops[0]), ops[1..]))
  }

  ghost function VectorRunEffect<T>(capacity: nat, vs: seq<seq<T>>, ops: seq<VectorOp<T>>): seq<seq<T>>
    requires LegalVectorRun(capacity, vs, ops)
    decreases |ops|
  {
    if ops == [] then vs else VectorRunEffect(capacity, VectorEffect(capacity, vs, ops[0]), ops[1..])
  }

  /** A program's vectors, all of one capacity. */
  class VectorProgram<T(0, ==)> {
    const capacity: nat
    var pool: seq<Vector<T>>

    ghost function Buffers(): set<array<T>>
      reads this
    {
      set v | v in pool :: v.data_
    }

    ghost predicate Valid()
      reads this, pool
    {
      && (forall i | 0 <= i < |pool| :: pool[i].Valid() && pool[i].data_.Length == capacity)
      && (forall i, j | 0 <= i < j < |pool| :: pool[i] != pool[j] && pool[i].data_ != pool[j].data_)
    }

    ghost function Seen(): (vs: seq<seq<T>>)
      requires Valid()
      reads this, pool, Buffers()
      ensures |vs| == |pool| && forall i | 0 <= i < |pool| :: vs[i] == pool[i].Contents() && |vs[i]| <= capacity
    {
      seq(|pool|, i requires 0 <= i < |pool| && Valid() reads this, pool, Buffers() => pool[i].Contents())
    }

    constructor (capacity: nat)
      ensures Valid() && this.capacity == capacity && Seen() == []
    {
      this.capacity := capacity;
      pool := [];
    }

    /** The program gains a vector. */
    method Append(v: Vector<T>)
      requires Valid() && v.Valid() && v.data_.Length == capacity
      requires forall i | 0 <= i < |pool| :: pool[i] != v && pool[i].data_ != v.data_
      modifies this`pool
      ensures Valid() && pool == old(pool) + [v] && Seen() == old(Seen()) + [v.Contents()]
    {
      pool := pool + [v];
    }

    method New(op: VectorOp<T>)
      requires Valid() && LegalForVectors(Seen(), op) && (op.Make? || op.MakeCopy?)
      modifies this`pool
      ensures Valid() && Seen() == VectorEffect(capacity, old(Seen()), op)
      ensures fresh(set v | v in pool && v !in old(pool)) && fresh(Buffers() - old(Buffers()))
    {
      var v: Vector<T>;
      if op.Make? {
        v := new Vector<T>.Of(capacity, op.size, op.val);
      } else {
        v := new Vector<T>.Copy(pool[op.of]);
      }
      Append(v);
    }

    method Change(op: VectorOp<T>)
      requires Valid() && LegalForVectors(Seen(), op) && (op.PushBack? || op.PopBack? || op.Clear? || op.Resize?)
      modifies pool[op.at], pool[op.at].data_
      ensures Valid() && Seen() == VectorEffect(capacity, old(Seen()), op)
    {
      var v := pool[op.at];
      if op.PushBack? {
        v.PushBack(op.x);
      } else if op.PopBack? {
        v.PopBack();
      } else if op.Clear? {
        v.Clear();
      } else {
        v.Resize(op.size, op.fill);
      }
      assert forall k | 0 <= k < |pool| && k != op.at :: pool[k].Contents() == old(pool[k].Contents());
    }

    method CopyInto(at: nat, of: nat)
      requires Valid() && at < |pool| && of < |pool|
      modifies pool[at], pool[at].data_
      ensures Valid() && Seen() == VectorEffect(capacity, old(Seen()), CopyFrom(at, of))
    {
      pool[at].CopyFrom(pool[of]);
      assert forall k | 0 <= k < |pool| && k != at :: pool[k].Contents() == old(pool[k].Contents());
    }

    method AssignInto(at: nat, of: nat, start: nat, end: nat)
      requires Valid() && at < |pool| && of < |pool| && start <= end <= |Seen()[of]|
      modifies pool[at], pool[at].data_
      ensures Valid() && Seen() == VectorEffect(capacity, old(Seen()), Assign(at, of, start, end))
    {
      ghost var s := pool[of].data_[..];
      assert s[start..end] == Seen()[of][start..end];
      pool[at].Assign(pool[of], Iterator(start), Iterator(end));
      assert forall k | 0 <= k < |pool| && k != at :: pool[k].Contents() == old(pool[k].Contents());
    }

    method Perform(op: VectorOp<T>)
      requires Valid() && LegalForVectors(Seen(), op)
      modifies this, pool, Buffers()
      ensures Valid() && Seen() == VectorEffect(capacity, old(Seen()), op)
      ensures fresh(set v | v in pool && v !in old(pool)) && fresh(Buffers() - old(Buffers()))
    {
      if op.Make? || op.MakeCopy? {
        New(op);
      } else if op.CopyFrom? {
        CopyInto(op.at, op.of);
      } else if op.Assign? {
        AssignInto(op.at, op.of, op.start, op.end);
      } else {
        Change(op);
      }
    }

    /** Any legal program: every vector holds what its own operations say and never more than its capacity. */
    method Run(ops: seq<VectorOp<T>>)
      requires Valid() && LegalVectorRun(capacity, Seen(), ops)
      modifies this, pool, Buffers()
      ensures Valid() && Seen() == VectorRunEffect(capacity, old(Seen()), ops)
    {
      for k := 0 to |ops|
        invariant Valid() && LegalVectorRun(capacity, Seen(), ops[k..])
        invariant VectorRunEffect(capacity, Seen(), ops[k..]) == VectorRunEffect(capacity, old(Seen()), ops)
        invariant fresh(set v | v in pool && v !in old(pool)) && fresh(Buffers() - old(Buffers()))
      {
        Perform(ops[k]);
        assert ops[k..][1..] == ops[k + 1..];
      }
    }
  }

  // ----- strings

  datatype StringOp =
    | FromBytes(bytes: seq<char>)
    | Duplicate(of: nat)
    | Pad(at: nat, size: nat)
    | Put(at: nat, pos: nat, c: char)
    | Overwrite(at: nat, of: nat)

  predicate LegalForStrings(ss: seq<seq<char>>, op: StringOp) {
    match op
    case FromBytes(_) => true
    case Duplicate(of) => of < |ss|
    case Pad(at, _) => at < |ss|
    case Put(at, pos, _) => at < |ss| && pos < |ss[at]|
    case Overwrite(at, of) => at < |ss| && of < |ss|
  }

  function StringEffect(ss: seq<seq<char>>, op: StringOp): seq<seq<char>>
    requires LegalForStrings(ss, op)
  {
    match op
    case FromBytes(bytes) => ss + [bytes]
    case Duplicate(of) => ss + [ss[of]]
    case Pad(at, size) => ss[at := ClString.Resized(ss[at], size)]
    case Put(at, pos, c) => ss[at := ss[at][pos := c]]
    case Overwrite(at, of) => ss[at := ss[of]]
  }

  ghost predicate LegalStringRun(ss: seq<seq<char>>, ops: seq<StringOp>)
    decreases |ops|
  {
    ops == [] || (LegalForStrings(ss, ops[0]) && LegalStringRun(StringEffect(ss, ops[0]), ops[1..]))
  }

  ghost function StringRunEffect(ss: seq<seq<char>>, ops: seq<StringOp>): seq<seq<char>>
    requires LegalStringRun(ss, ops)
    decreases |ops|
  {
    if ops == [] then ss else StringRunEffect(StringEffect(ss, ops[0]), ops[1..])
  }

  /** A string made of bytes that the caller provides. */
  method StringOf(bytes: seq<char>) returns (s: ClString.String)
    ensures fresh(s) && s.Valid() && s.Contents() == bytes && (s.str_ == null || fresh(s.str_))
  {
    var text := new char[|bytes|](i requires 0 <= i < |bytes| => bytes[i]);
    assert text[..|bytes|] == bytes;
    s := new ClString.String.FromBytes(text, |bytes|);
  }

  /** A program's strings. No two share their bytes, so writing into one never shows in a copy. */
  class StringProgram {
    var pool: seq<ClString.String>

    ghost function Buffers(): set<object?>
      reads this, pool
    {
      set s | s in pool :: s.str_
    }

    ghost predicate Valid()
      reads this, pool, Buffers()
    {
      && (forall i | 0 <= i < |pool| :: pool[i].Valid())
      && (forall i, j | 0 <= i < j < |pool| ::
            pool[i] != pool[j] && (pool[i].str_ != pool[j].str_ || pool[i].str_ == null))
    }

    ghost function Seen(): (ss: seq<seq<char>>)
      requires Valid()
      reads this, pool, Buffers()
      ensures |ss| == |pool| && forall i | 0 <= i < |pool| :: ss[i] == pool[i].Contents()
    {
      seq(|pool|, i requires 0 <= i < |pool| && Valid() reads this, pool, Buffers() => pool[i].Contents())
    }

    constructor ()
      ensures Valid() && Seen() == []
    {
      pool := [];
    }

    method Append(s: ClString.String)
      requires Valid() && s.Valid()
      requires forall i | 0 <= i < |pool| :: pool[i] != s && (pool[i].str_ != s.str_ || s.str_ == null)
      modifies this`pool
      ensures Valid() && pool == old(pool) + [s] && Seen() == old(Seen()) + [s.Contents()]
    {
      pool := pool + [s];
    }

    method MakeFrom(bytes: seq<char>)
      requires Valid()
      modifies this`pool
      ensures Valid() && Seen() == old(Seen()) + [bytes]
      ensures fresh(set s | s in pool && s !in old(pool)) && fresh(Buffers() - old(Buffers()) - {null})
    {
      var s := StringOf(bytes);
      Append(s);
    }

    method CopyOf(of: nat)
      requires Valid() && of < |pool|
      modifies this`pool
      ensures Valid() && Seen() == old(Seen()) + [old(Seen())[of]]
      ensures fresh(set s | s in pool && s !in old(pool)) && fresh(Buffers() - old(Buffers()) - {null})
    {
      var s := new ClString.String.Copy(pool[of]);
      Append(s);
    }

    method PadAt(at: nat, size: nat)
      requires Valid() && at < |pool|
      modifies pool[at]
      ensures Valid() && Seen() == StringEffect(old(Seen()), Pad(at, size))
      ensures fresh(Buffers() - old(Buffers()) - {null})
    {
      pool[at].Resize(size);
      assert forall k | 0 <= k < |pool| && k != at :: pool[k].Contents() == old(pool[k].Contents());
    }

    method PutAt(at: nat, pos: nat, c: char)
      requires Valid() && at < |pool| && pos < |Seen()[at]|
      modifies pool[at].str_
      ensures Valid() && Seen() == StringEffect(old(Seen()), Put(at, pos, c))
      ensures Buffers() == old(Buffers())
    {
      pool[at].Put(pos, c);
      assert forall k | 0 <= k < |pool| && k != at :: pool[k].Contents() == old(pool[k].Contents());
    }

    method OverwriteAt(at: nat, of: nat)
      requires Valid() && at < |pool| && of < |pool|
      modifies pool[at]
      ensures Valid() && Seen() == StringEffect(old(Seen()), Overwrite(at, of))
      ensures fresh(Buffers() - old(Buffers()) - {null})
    {
      pool[at].CopyFrom(pool[of]);
      assert forall k | 0 <= k < |pool| && k != at :: pool[k].Contents() == old(pool[k].Contents());
    }

    method Perform(op: StringOp)
      requires Valid() && LegalForStrings(Seen(), op)
      modifies this, pool, Buffers()
      ensures Valid() && Seen() == StringEffect(old(Seen()), op)
      ensures fresh(set s | s in pool && s !in old(pool)) && fresh(Buffers() - old(Buffers()) - {null})
    {
      if op.FromBytes? {
        MakeFrom(op.bytes);
      } else if op.Duplicate? {
        CopyOf(op.of);
      } else if op.Pad? {
        PadAt(op.at, op.size);
      } else if op.Put? {
        PutAt(op.at, op.pos, op.c);
      } else {
        OverwriteAt(op.at, op.of);
      }
    }

    /** Any legal program: every string holds what its own operations say, terminated, in memory of its own. */
    method Run(ops: seq<StringOp>)
      requires Valid() && LegalStringRun(Seen(), ops)
      modifies this, pool, Buffers()
      ensures Valid() && Seen() == StringRunEffect(old(Seen()), ops)
    {
      for k := 0 to |ops|
        invariant Valid() && LegalStringRun(Seen(), ops[k..])
        invariant StringRunEffect(Seen(), ops[k..]) == StringRunEffect(old(Seen()), ops)
        invariant fresh(set s | s in pool && s !in old(pool)) && fresh(Buffers() - old(Buffers()) - {null})
      {
        Perform(ops[k]);
        assert ops[k..][1..] == ops[k + 1..];
      }
    }
  }
}
