/** `cl::vector<T, N>` over plain elements: a fixed buffer that stands for a sequence of at most N elements.
    In the build without exceptions, an operation that does not fit is ignored. */
module ClVector {

  /** Iterators are an index into one vector; for an empty vector both ends are -1. */
  datatype Iterator = Iterator(index: int)

  function Truncated<T>(s: seq<T>, n: nat): (r: seq<T>)
    ensures r <= s && |r| <= n && (|s| <= n ==> |r| == |s|) && (|s| > n ==> |r| == n)
  {
    if |s| <= n then s else s[..n]
  }

  function Filled<T>(x: T, n: nat): seq<T> {
    seq(n, i => x)
  }

  /** The sequence a resize to `n` leaves: a prefix, or the whole followed by copies of the fill. */
  function Resized<T>(s: seq<T>, n: nat, fill: T): (r: seq<T>)
    ensures |r| == n && forall i | 0 <= i < n :: r[i] == if i < |s| then s[i] else fill
  {
    if n <= |s| then s[..n] else s + Filled(fill, n - |s|)
  }

  class Vector<T(0, ==)> {
    const data_: array<T>
    var size_: nat

    ghost predicate Valid()
      reads this
    {
      size_ <= data_.Length
    }

    ghost function Contents(): seq<T>
      requires Valid()
      reads this, data_
    {
      data_[..size_]
    }

    constructor (N: nat)
      ensures Valid() && fresh(data_) && data_.Length == N && Contents() == []
    {
      data_ := new T[N];
      size_ := 0;
    }

    /** The constructor from a count and a value: `push_back` ignores what exceeds the capacity. */
    constructor Of(N: nat, size: nat, val: T)
      ensures Valid() && fresh(data_) && data_.Length == N
      ensures Contents() == Truncated(Filled(val, size), N)
    {
      data_ := new T[N];
      size_ := 0;
      new;
      for i := 0 to size
        invariant Valid() && fresh(data_)
        invariant Contents() == Truncated(Filled(val, i), N)
      {
        PushBack(val);
      }
    }

    /** The copy constructor. */
    constructor Copy(vec: Vector<T>)
      requires vec.Valid()
      ensures Valid() && fresh(data_) && data_.Length == vec.data_.Length
      ensures Contents() == vec.Contents()
    {
      data_ := new T[vec.data_.Length];
      size_ := vec.size_;
      new;
      if size_ != 0 {
        Assign(vec, vec.Begin(), vec.End());
      }
    }

    method PushBack(x: T)
      requires Valid()
      modifies this, data_
      ensures Valid()
      ensures Contents() == if |old(Contents())| < data_.Length then old(Contents()) + [x] else old(Contents())
      ensures forall k | size_ <= k < data_.Length :: data_[k] == old(data_[k])
    {
      if size_ < data_.Length {
        data_[size_] := x;
        size_ := size_ + 1;
      }
    }

    method PopBack()
      requires Valid()
      modifies this
      ensures Valid()
      ensures Contents() == if old(Contents()) == [] then [] else old(Contents())[..|old(Contents())| - 1]
    {
      if size_ != 0 {
        size_ := size_ - 1;
      }
    }

    method Clear()
      requires Valid()
      modifies this
      ensures Valid() && Contents() == []
    {
      while size_ != 0
        invariant Valid()
      {
        PopBack();
      }
    }

    method Resize(newSize: nat, fill: T)
      requires Valid()
      modifies this, data_
      ensures Valid()
      ensures Contents() == if newSize > data_.Length then old(Contents()) else Resized(old(Contents()), newSize, fill)
    {
      if newSize <= data_.Length {
        ghost var s := Contents();
        while size_ < newSize
          invariant Valid() && (|s| <= size_ <= newSize || size_ == |s|)
          invariant Contents() == Resized(s, size_, fill)
        {
          data_[size_] := fill;
          size_ := size_ + 1;
        }
        while size_ > newSize
          invariant Valid() && newSize <= size_
          invariant Contents() == Resized(s, size_, fill)
        {
          size_ := size_ - 1;
        }
      }
    }

    function Begin(): Iterator
      reads this
    {
      Iterator(if size_ != 0 then 0 else -1)
    }

    function End(): Iterator
      reads this
    {
      Iterator(if size_ != 0 then size_ else -1)
    }

    /** A range of iterators that was taken from a vector holding `s`. */
    static ghost predicate RangeOf(s: seq<T>, start: Iterator, end: Iterator) {
      start.index == end.index || 0 <= start.index < end.index <= |s|
    }

    /** What the iterators of a range run over. */
    static ghost function Range(s: seq<T>, start: Iterator, end: Iterator): seq<T>
      requires RangeOf(s, start, end)
    {
      if start.index == end.index then [] else s[start.index..end.index]
    }

    /** `assign(start, end)`, also from a range of the vector itself: clearing does not erase plain elements, and
        each is read before its place is written again. */
    method Assign(source: Vector<T>, start: Iterator, end: Iterator)
      requires Valid() && source.Valid()
      requires source == this || source.data_ != data_
      requires RangeOf(source.data_[..], start, end)
      modifies this, data_
      ensures Valid()
      ensures Contents() == Truncated(Range(old(source.data_[..]), start, end), data_.Length)
    {
      ghost var s := source.data_[..];
      Clear();
      var i := start;
      while i.index != end.index
        invariant start.index <= i.index <= end.index
        invariant Valid() && size_ <= i.index - start.index
        invariant start.index < end.index ==> Contents() == Truncated(s[start.index..i.index], data_.Length)
        invariant forall k | size_ <= k < |s| :: source.data_[k] == s[k]
        decreases end.index - i.index
      {
        PushBack(source.data_[i.index]);
        assert s[start.index..i.index + 1] == s[start.index..i.index] + [s[i.index]];
        i := Iterator(i.index + 1);
      }
    }

    /** `operator=` */
    method CopyFrom(rhs: Vector<T>)
      requires Valid() && rhs.Valid() && rhs.data_.Length == data_.Length
      requires rhs == this || rhs.data_ != data_
      modifies this, data_
      ensures Valid() && Contents() == old(rhs.Contents())
    {
      if this != rhs {
        if rhs.size_ != 0 {
          Assign(rhs, rhs.Begin(), rhs.End());
        } else {
          Clear();
        }
      }
    }

    /** `operator==` */
    method Equals(vec: Vector<T>) returns (same: bool)
      requires Valid() && vec.Valid()
      ensures same <==> Contents() == vec.Contents()
    {
      if size_ != vec.size_ {
        return false;
      }
      var i := 0;
      while i < size_
        invariant 0 <= i <= size_
        invariant data_[..i] == vec.data_[..i]
      {
        if data_[i] != vec.data_[i] {
          assert Contents()[i] != vec.Contents()[i];
          return false;
        }
        i := i + 1;
      }
      return true;
    }

    /** A loop from `begin()` to `end()` visits the elements in order, each once, and ends, for empty vectors too. */
    method Iterate() returns (visited: seq<T>)
      requires Valid()
      ensures visited == Contents()
    {
      visited := [];
      var i := Begin();
      while i != End()
        invariant size_ == 0 ==> i == End() && visited == []
        invariant size_ != 0 ==> 0 <= i.index <= size_ && visited == data_[..i.index]
        decreases size_ - i.index
      {
        visited := visited + [data_[i.index]];
        i := Iterator(i.index + 1);
      }
    }

    /** The const form of `back()` is the last element. */
    method Back() returns (x: T)
      requires Valid() && size_ > 0
      ensures x == Contents()[|Contents()| - 1]
    {
      x := data_[size_ - 1];
    }
  }
}
