/** The platform version parser of the OpenCL C++ bindings and the decision it drives. */
module PlatformVersion {

  import opened Decimal

  newtype int32 = x: int | -0x8000_0000 <= x < 0x8000_0000

  const PREFIX_LENGTH := 7  // "OpenCL "

  /** `buffer` holds seven characters, the digits `hi`, a dot, the digits `lo`, and then a space or NUL.
      The bounds are those under which the two numbers fit the halves of a signed 32-bit result. */
  ghost predicate Conforms(buffer: seq<char>, hi: string, lo: string) {
    && AllDigits(hi) && AllDigits(lo)
    && Value(hi) < 0x8000 && Value(lo) < 0x1_0000
    && PREFIX_LENGTH + |hi| + 1 + |lo| < |buffer|
    && buffer[PREFIX_LENGTH..PREFIX_LENGTH + |hi|] == hi
    && buffer[PREFIX_LENGTH + |hi|] == '.'
    && buffer[PREFIX_LENGTH + |hi| + 1..PREFIX_LENGTH + |hi| + 1 + |lo|] == lo
    && (buffer[PREFIX_LENGTH + |hi| + 1 + |lo|] == ' ' || buffer[PREFIX_LENGTH + |hi| + 1 + |lo|] == '\0')
  }

  /** Bitwise or of two non-negative numbers, bit by bit. */
  function BitOr(a: nat, b: nat): nat
    decreases a + b
  {
    if a == 0 && b == 0 then 0
    else (if a % 2 == 1 || b % 2 == 1 then 1 else 0) + 2 * BitOr(a / 2, b / 2)
  }

  /** `a << k` of a non-negative number. */
  function ShiftLeft(a: nat, k: nat): nat {
    if k == 0 then a else 2 * ShiftLeft(a, k - 1)
  }

  /** Or-ing with a zero leaves the other operand. */
  lemma {:induction false} BitOrZero(a: nat)
    ensures BitOr(a, 0) == a
  {
    if a != 0 {
      BitOrZero(a / 2);
    }
  }

  /** One bit of the or of an even number with another. */
  lemma BitOrOfEven(a: nat, b: nat)
    ensures BitOr(2 * a, b) == b % 2 + 2 * BitOr(a, b / 2)
  {
    assert (2 * a) / 2 == a && (2 * a) % 2 == 0;
  }

  /** The low `k` bits of a shifted number are free, so or-ing a number of `k` bits into them adds it. */
  lemma {:induction false} BitOrOfHalves(hi: nat, lo: nat, k: nat)
    requires lo < ShiftLeft(1, k)
    ensures BitOr(ShiftLeft(hi, k), lo) == ShiftLeft(hi, k) + lo
  {
    if k == 0 {
      BitOrZero(hi);
    } else {
      BitOrOfHalves(hi, lo / 2, k - 1);
      BitOrOfEven(ShiftLeft(hi, k - 1), lo);
    }
  }

  /** The packing `(high << 16) | low` of the source. */
  function Pack(high: nat, low: nat): nat {
    BitOr(ShiftLeft(high, 16), low)
  }

  lemma {:induction false} ShiftByFour(a: nat, k: nat)
    ensures ShiftLeft(a, k + 4) == 16 * ShiftLeft(a, k)
  {
    assert ShiftLeft(a, k + 2) == 4 * ShiftLeft(a, k);
    assert ShiftLeft(a, k + 4) == 4 * ShiftLeft(a, k + 2);
  }

  lemma PackAdds(high: nat, low: nat)
    requires low < 0x1_0000
    ensures Pack(high, low) == high * 0x1_0000 + low
  {
    forall a: nat ensures ShiftLeft(a, 16) == a * 0x1_0000 {
      ShiftByFour(a, 0);
      ShiftByFour(a, 4);
      ShiftByFour(a, 8);
      ShiftByFour(a, 12);
    }
    BitOrOfHalves(high, low, 16);
  }

  /** `getVersion`: no access leaves the buffer, no intermediate value leaves 32 bits,
      and the result carries the major number above the minor one. */
  method GetVersion(versionInfo: seq<char>, ghost hi: string, ghost lo: string) returns (version: nat)
    requires Conforms(versionInfo, hi, lo)
    ensures version == Value(hi) * 0x1_0000 + Value(lo)
  {
    var highVersion: int32 := 0;
    var lowVersion: int32 := 0;
    var index := PREFIX_LENGTH;
    while versionInfo[index] != '.'
      invariant PREFIX_LENGTH <= index <= PREFIX_LENGTH + |hi|
      invariant highVersion as int == Value(hi[..index - PREFIX_LENGTH]) <= Value(hi)
      decreases |versionInfo| - index
    {
      assert versionInfo[index] == hi[index - PREFIX_LENGTH];
      PrefixValue(hi, index - PREFIX_LENGTH);
      highVersion := highVersion * 10;
      highVersion := highVersion + (versionInfo[index] as int - '0' as int) as int32;
      index := index + 1;
    }
    assert hi[..|hi|] == hi;
    index := index + 1;
    ghost var start := index;
    while versionInfo[index] != ' ' && versionInfo[index] != '\0'
      invariant start <= index <= start + |lo|
      invariant lowVersion as int == Value(lo[..index - start]) <= Value(lo)
      decreases |versionInfo| - index
    {
      assert versionInfo[index] == lo[index - start];
      PrefixValue(lo, index - start);
      lowVersion := lowVersion * 10;
      lowVersion := lowVersion + (versionInfo[index] as int - '0' as int) as int32;
      index := index + 1;
    }
    assert lo[..|lo|] == lo;
    PackAdds(highVersion as int, lowVersion as int);
    version := Pack(highVersion as int, lowVersion as int);
  }

  /** Version (major, minor) is at least (1, 2), lexicographically. */
  predicate AtLeastOneTwo(major: nat, minor: nat) {
    major > 1 || (major == 1 && minor >= 2)
  }

  /** The platform's version text, as the driver prints it. */
  function VersionText(major: nat, minor: nat, rest: string): string {
    "OpenCL " + Print(major) + "." + Print(minor) + rest
  }

  /** Every text of the standard's form is accepted by the parser with its own two numbers. */
  lemma VersionTextConforms(major: nat, minor: nat, rest: string)
    requires major < 0x8000 && minor < 0x1_0000
    requires rest != [] && (rest[0] == ' ' || rest[0] == '\0')
    ensures Conforms(VersionText(major, minor, rest), Print(major), Print(minor))
    ensures Value(Print(major)) == major && Value(Print(minor)) == minor
  {
    ParsePrint(major);
    ParsePrint(minor);
    JoinConforms("OpenCL ", Print(major), Print(minor), rest);
  }

  lemma JoinConforms(prefix: string, hi: string, lo: string, rest: string)
    requires |prefix| == PREFIX_LENGTH
    requires AllDigits(hi) && AllDigits(lo) && Value(hi) < 0x8000 && Value(lo) < 0x1_0000
    requires rest != [] && (rest[0] == ' ' || rest[0] == '\0')
    ensures Conforms(prefix + hi + "." + lo + rest, hi, lo)
  {
    JoinedParts(prefix, hi, lo, rest, PREFIX_LENGTH + |hi|, PREFIX_LENGTH + |hi| + 1 + |lo|);
  }

  lemma JoinedParts(prefix: string, hi: string, lo: string, rest: string, dot: nat, end: nat)
    requires dot == |prefix| + |hi| && end == dot + 1 + |lo| && rest != []
    ensures var buffer := prefix + hi + "." + lo + rest;
            && end < |buffer| && buffer[|prefix|..dot] == hi && buffer[dot] == '.'
            && buffer[dot + 1..end] == lo && buffer[end] == rest[0]
  {
  }

  /** `isReferenceCountable`: a device is counted exactly when it exists and its platform is 1.2 or newer. */
  method IsReferenceCountable(hasDevice: bool, versionInfo: seq<char>, ghost hi: string, ghost lo: string)
    returns (countable: bool)
    requires hasDevice ==> Conforms(versionInfo, hi, lo)
    ensures countable <==> hasDevice && AtLeastOneTwo(Value(hi), Value(lo))
  {
    countable := false;
    if hasDevice {
      var version := GetVersion(versionInfo, hi, lo);
      if version > 0x1_0000 + 1 {
        countable := true;
      }
    }
  }

  /** The two thresholds the bindings test against are the same one. */
  method UseCreateImage(versionInfo: seq<char>, ghost hi: string, ghost lo: string) returns (use: bool)
    requires Conforms(versionInfo, hi, lo)
    ensures use <==> AtLeastOneTwo(Value(hi), Value(lo))
  {
    var version := GetVersion(versionInfo, hi, lo);
    use := version >= 0x10002;
  }
}
