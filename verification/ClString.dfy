/** `cl::string`: a byte sequence kept in an allocation one longer than itself, with a NUL after it. */
module ClString {

  const NUL: char := '\0'

  function Zeros(n: nat): seq<char> {
    seq(n, i => NUL)
  }

  /** The text a resize to `n` leaves: a prefix, or the whole padded with NULs. */
  function Resized(s: seq<char>, n: nat): (r: seq<char>)
    ensures |r| == n && forall i | 0 <= i < n :: r[i] == if i < |s| then s[i] else NUL
  {
    if n <= |s| then s[..n] else s + Zeros(n - |s|)
  }

  /** `memcpy(dst, src, n)`: both ranges must exist. */
  method CopyBytes(dst: array<char>, src: array<char>, n: nat)
    requires dst != src && n <= src.Length && n <= dst.Length
    modifies dst
    ensures dst[..] == src[..n] + old(dst[..])[n..]
  {
    for i := 0 to n
      invariant dst[..] == src[..i] + old(dst[..])[i..]
    {
      dst[i] := src[i];
    }
  }

  /** `memset(dst + from, 0, n)` */
  method ClearBytes(dst: array<char>, from: nat, n: nat)
    requires from + n <= dst.Length
    modifies dst
    ensures dst[..] == old(dst[..])[..from] + Zeros(n) + old(dst[..])[from + n..]
  {
    for i := 0 to n
      invariant dst[..] == old(dst[..])[..from] + Zeros(i) + old(dst[..])[from + i..]
    {
      dst[from + i] := NUL;
    }
  }

  /** `strlen` */
  function Length(s: seq<char>): (n: nat)
    requires NUL in s
    ensures n < |s|
  {
    if s[0] == NUL then 0 else 1 + Length(s[1..])
  }

  lemma {:induction false} LengthFindsFirst(s: seq<char>)
    requires NUL in s
    ensures s[Length(s)] == NUL
    ensures forall i | 0 <= i < Length(s) :: s[i] != NUL
  {
    if s[0] != NUL {
      LengthFindsFirst(s[1..]);
    }
  }

  /** The constructor from a pointer and a size on any arguments; null stands for a read outside the bytes there are. A
      null pointer makes the empty string, as documented, exactly when the size is 0. */
  method Construct(str: array?<char>, size: nat) returns (s: String?)
    ensures s == null <==> size > 0 && (str == null || str.Length < size)
    ensures s != null ==> fresh(s) && s.Valid() && (s.str_ == null || fresh(s.str_))
    ensures s != null ==> s.Contents() == if size == 0 then [] else str[..size]
  {
    s := null;
    if size == 0 || (str != null && size <= str.Length) {
      s := new String.FromBytes(str, size);
    }
  }

  class String {
    var size_: nat
    var str_: array?<char>

    ghost predicate Valid()
      reads this, str_
    {
      && (str_ == null <==> size_ == 0)
      && (str_ != null ==> str_.Length == size_ + 1 && str_[size_] == NUL)
    }

    ghost function Contents(): seq<char>
      requires Valid()
      reads this, str_
    {
      if str_ == null then [] else str_[..size_]
    }

    constructor ()
      ensures Valid() && Contents() == []
    {
      size_ := 0;
      str_ := null;
    }

    /** `string(const char*, size)` copies `size` bytes, NULs included, and adds one of its own. With a size of 0 the
        pointer may be null; with a positive size it is read, although the comment there promises otherwise. */
    constructor FromBytes(str: array?<char>, size: nat)
      requires size > 0 ==> str != null && size <= str.Length
      ensures Valid() && (str_ == null || fresh(str_)) && Contents() == if size == 0 then [] else str[..size]
    {
      size_ := size;
      str_ := null;
      new;
      if size > 0 {
        str_ := new char[size_ + 1];
        CopyBytes(str_, str, size_);
        str_[size_] := NUL;
      }
    }

    /** `string(const char*)` copies up to the first NUL; a null pointer makes the empty string. */
    constructor FromTerminated(str: array?<char>)
      requires str != null ==> NUL in str[..]
      ensures Valid() && (str_ == null || fresh(str_))
      ensures Contents() == if str == null then [] else str[..][..Length(str[..])]
    {
      size_ := 0;
      str_ := null;
      new;
      if str != null {
        size_ := Length(str[..]);
        LengthFindsFirst(str[..]);
      }
      if size_ > 0 {
        str_ := new char[size_ + 1];
        CopyBytes(str_, str, size_ + 1);
      }
    }

    /** The copy constructor assigns to an empty string. */
    constructor Copy(rhs: String)
      requires rhs.Valid()
      ensures Valid() && (str_ == null || fresh(str_)) && Contents() == rhs.Contents()
    {
      size_ := 0;
      str_ := null;
      new;
      CopyFrom(rhs);
    }

    /** Writing through `operator[]`. */
    method Put(pos: nat, c: char)
      requires Valid() && pos < |Contents()|
      modifies str_
      ensures Valid() && Contents() == old(Contents())[pos := c]
    {
      str_[pos] := c;
    }

    method Resize(n: nat)
      requires Valid()
      modifies this
      ensures Valid() && Contents() == Resized(old(Contents()), n)
      ensures str_ == old(str_) || str_ == null || fresh(str_)
    {
      if size_ == n {
        return;
      }
      if n == 0 {
        str_ := null;
        size_ := 0;
      } else {
        var newString := new char[n + 1];
        var copySize := n;
        if size_ < n {
          copySize := size_;
        }
        size_ := n;
        if str_ != null {
          CopyBytes(newString, str_, copySize + 1);
        }
        if copySize < size_ {
          ClearBytes(newString, copySize, size_ - copySize);
        }
        newString[size_] := NUL;
        str_ := newString;
      }
    }

    /** `operator=` gives this string its own copy. */
    method CopyFrom(rhs: String)
      requires Valid() && rhs.Valid()
      modifies this
      ensures Valid() && Contents() == old(rhs.Contents())
      ensures if rhs == this then str_ == old(str_) else str_ == null || fresh(str_)
    {
      if this == rhs {
        return;
      }
      if str_ != null {
        str_ := null;
        size_ := 0;
      }
      if rhs.size_ == 0 || rhs.str_ == null {
        str_ := null;
        size_ := 0;
      } else {
        str_ := new char[rhs.size_ + 1];
        size_ := rhs.size_;
        CopyBytes(str_, rhs.str_, size_ + 1);
      }
    }

    /** `c_str()`: a terminated text that reads back as the contents up to their first NUL. */
    method CStr() returns (text: seq<char>)
      requires Valid()
      ensures text == Contents() + [NUL]
    {
      if str_ != null {
        text := str_[..];
      } else {
        text := [NUL];
      }
    }
  }
}
