/** Version names in the calendar: how the next one is read off the last one, and that it is read back. */
module ReleaseNames {

  import opened Options
  import opened Decimal

  predicate OccursAt(s: string, pattern: string, i: nat) {
    i + |pattern| <= |s| && s[i..i + |pattern|] == pattern
  }

  /** The last place at or below `i` where `pattern` occurs, or -1. */
  function LastOccurrence(s: string, pattern: string, i: int): int
    decreases i + 1
  {
    if i < 0 then -1
    else if OccursAt(s, pattern, i) then i
    else LastOccurrence(s, pattern, i - 1)
  }

  lemma {:induction false} LastOccurrenceFacts(s: string, pattern: string, i: int)
    ensures var k := LastOccurrence(s, pattern, i);
            && (k == -1 || (0 <= k <= i && OccursAt(s, pattern, k)))
            && forall j: nat | k < j <= i :: !OccursAt(s, pattern, j)
    decreases i + 1
  {
    if i >= 0 {
      LastOccurrenceFacts(s, pattern, i - 1);
    }
  }

  /** `pattern in s` */
  predicate Contains(s: string, pattern: string) {
    LastOccurrence(s, pattern, |s|) >= 0
  }

  lemma ContainsIff(s: string, pattern: string)
    ensures Contains(s, pattern) <==> exists i: nat :: OccursAt(s, pattern, i)
  {
    LastOccurrenceFacts(s, pattern, |s|);
  }

  /** `s.split(pattern)[-1]` for a pattern that does not overlap itself. */
  function AfterLast(s: string, pattern: string): string {
    var k := LastOccurrence(s, pattern, |s|);
    if 0 <= k && k + |pattern| <= |s| then s[k + |pattern|..] else s
  }

  /** `s.split(c)[0]` */
  function BeforeFirst(s: string, c: char): string {
    if s == [] || s[0] == c then [] else [s[0]] + BeforeFirst(s[1..], c)
  }

  /** Whether a release is a candidate, and its number. */
  datatype Point = Point(candidate: bool, number: nat)

  /** The branch of `extend` on the last version; `None` stands for the ValueError of `int`. */
  function PointOf(version: string): Option<Point> {
    var candidate := Contains(version, "-rc");
    var text := if candidate then AfterLast(version, "rc") else AfterLast(BeforeFirst(version, '-'), ".");
    match Parse(text)
    case None => None
    case Some(n) => Some(Point(candidate, n))
  }

  /** The templates `{}.0-rc{}` and `{}.{}`. */
  function NameOf(series: string, p: Point): string {
    series + (if p.candidate then ".0-rc" else ".") + Print(p.number)
  }

  // ----- reading names back

  lemma AfterLastOf(front: string, pattern: string, digits: string)
    requires pattern == "rc" || pattern == "."
    requires AllDigits(digits)
    ensures AfterLast(front + pattern + digits, pattern) == digits
  {
    var s := front + pattern + digits;
    var k := LastOccurrence(s, pattern, |s|);
    LastOccurrenceFacts(s, pattern, |s|);
    assert OccursAt(s, pattern, |front|);
    forall j: nat | |front| < j ensures !OccursAt(s, pattern, j) {
      assert j + |pattern| <= |s| ==> s[j..j + |pattern|][0] == s[j];
    }
    assert k == |front|;
  }

  lemma {:induction false} NothingBeforeFirst(s: string, c: char)
    requires c !in s
    ensures BeforeFirst(s, c) == s
  {
    if s != [] {
      NothingBeforeFirst(s[1..], c);
    }
  }

  /** The number of a candidate is what follows the last "rc". */
  lemma CandidateIsRead(front: string, digits: string)
    requires digits != "" && AllDigits(digits)
    ensures PointOf(front + "-rc" + digits) == Some(Point(true, Value(digits)))
  {
    var name := front + "-rc" + digits;
    assert name == (front + "-") + "rc" + digits;
    AfterLastOf(front + "-", "rc", digits);
    assert name[|front|..|front| + 3] == "-rc";
    ContainsIff(name, "-rc");
    assert OccursAt(name, "-rc", |front|);
  }

  lemma CandidateReadsBack(series: string, n: nat)
    ensures PointOf(NameOf(series, Point(true, n))) == Some(Point(true, n))
  {
    ParsePrint(n);
    CandidateIsRead(series + ".0", Print(n));
    assert NameOf(series, Point(true, n)) == (series + ".0") + "-rc" + Print(n);
  }

  lemma NoDashNoCandidate(name: string)
    requires '-' !in name
    ensures !Contains(name, "-rc")
  {
    ContainsIff(name, "-rc");
    forall i: nat ensures !OccursAt(name, "-rc", i) {
      assert i + 3 <= |name| ==> name[i..i + 3][0] == name[i];
    }
  }

  lemma DigitsHaveNoDash(series: string, digits: string)
    requires '-' !in series && AllDigits(digits)
    ensures '-' !in series + "." + digits
  {
  }

  /** The number of a release is what stands between the last dot and the first dash, or the end. */
  lemma ReleaseIsRead(front: string, digits: string, rest: string)
    requires '-' !in front && digits != "" && AllDigits(digits) && (rest == "" || rest[0] == '-')
    requires !Contains(front + "." + digits + rest, "-rc")
    ensures PointOf(front + "." + digits + rest) == Some(Point(false, Value(digits)))
  {
    var name := front + "." + digits;
    DigitsHaveNoDash(front, digits);
    if rest == "" {
      NothingBeforeFirst(name, '-');
      assert name + rest == name;
    } else {
      BeforeFirstOf(name, '-', rest[1..]);
      assert name + rest == name + ['-'] + rest[1..];
    }
    AfterLastOf(front, ".", digits);
  }

  lemma ReleaseReadsBack(series: string, n: nat)
    requires '-' !in series
    ensures PointOf(NameOf(series, Point(false, n))) == Some(Point(false, n))
  {
    ParsePrint(n);
    DigitsHaveNoDash(series, Print(n));
    NoDashNoCandidate(series + "." + Print(n));
    assert series + "." + Print(n) + "" == series + "." + Print(n);
    ReleaseIsRead(series, Print(n), "");
  }

  /** A candidate's name reads back as the same point, for every series; a release's name does when the series has no
      dash in it. */
  lemma NameReadsBack(series: string, p: Point)
    requires p.candidate || '-' !in series
    ensures PointOf(NameOf(series, p)) == Some(p)
  {
    if p.candidate {
      CandidateReadsBack(series, p.number);
    } else {
      ReleaseReadsBack(series, p.number);
    }
  }

  /** The text of a number determines the number. */
  lemma PrintIsInjective(m: nat, n: nat)
    requires Print(m) == Print(n)
    ensures m == n
  {
    ParsePrint(m);
    ParsePrint(n);
  }

  /** Past the series, only a candidate's name has a dash. */
  lemma DashMarksCandidate(series: string, p: Point)
    ensures |series| <= |NameOf(series, p)|
    ensures '-' in NameOf(series, p)[|series|..] <==> p.candidate
  {
    ParsePrint(p.number);
    var tail := NameOf(series, p)[|series|..];
    assert tail == (if p.candidate then ".0-rc" else ".") + Print(p.number);
    if p.candidate {
      assert tail[2] == '-';
    } else {
      forall i | 0 <= i < |tail| ensures tail[i] != '-' {
        assert i > 0 ==> IsDigit(tail[i]);
      }
    }
  }

  /** So does the name of a point, within a series. */
  lemma NameIsInjective(series: string, p: Point, q: Point)
    requires NameOf(series, p) == NameOf(series, q)
    ensures p == q
  {
    DashMarksCandidate(series, p);
    DashMarksCandidate(series, q);
    var k := |series| + if p.candidate then 5 else 1;
    assert NameOf(series, p)[k..] == Print(p.number);
    assert NameOf(series, q)[k..] == Print(q.number);
    PrintIsInjective(p.number, q.number);
  }

  lemma {:induction false} BeforeFirstOfConcat(s: string, rest: string, c: char)
    requires c in s
    ensures BeforeFirst(s + rest, c) == BeforeFirst(s, c)
  {
    if s[0] != c {
      assert (s + rest)[1..] == s[1..] + rest;
      BeforeFirstOfConcat(s[1..], rest, c);
    }
  }

  /** With a dash in the series, the number of a release is not read back at all, or not from the number: two
      different releases cannot both be read back. */
  lemma DashLosesTheNumber(series: string, m: nat, n: nat)
    requires '-' in series && m != n
    ensures PointOf(NameOf(series, Point(false, m))) != Some(Point(false, m))
            || PointOf(NameOf(series, Point(false, n))) != Some(Point(false, n))
  {
    BeforeFirstOfConcat(series, "." + Print(m), '-');
    BeforeFirstOfConcat(series, "." + Print(n), '-');
    assert NameOf(series, Point(false, m)) == series + ("." + Print(m));
    assert NameOf(series, Point(false, n)) == series + ("." + Print(n));
  }

  // ----- the version file

  /** `s.split(c)` */
  function Split(s: string, c: char): (parts: seq<string>)
    ensures |parts| >= 1
    decreases |s|
  {
    if c !in s then [s]
    else
      PrefixIsShorter(s, c);
      [BeforeFirst(s, c)] + Split(s[|BeforeFirst(s, c)| + 1..], c)
  }

  lemma {:induction false} PrefixIsShorter(s: string, c: char)
    requires c in s
    ensures |BeforeFirst(s, c)| < |s| && s[..|BeforeFirst(s, c)|] == BeforeFirst(s, c) && s[|BeforeFirst(s, c)|] == c
  {
    if s[0] != c {
      PrefixIsShorter(s[1..], c);
    }
  }

  /** `s.rstrip(chars)`: takes off any of the characters, in whatever order they come. */
  function StripRight(s: string, chars: string): string {
    if s != [] && s[|s| - 1] in chars then StripRight(s[..|s| - 1], chars) else s
  }

  /** The major and minor numbers of a version text; `None` stands for the ValueError of a text without exactly two
      dots. */
  function VersionParts(text: string): Option<(string, string)> {
    var parts := Split(StripRight(text, "-devel"), '.');
    if |parts| == 3 then Some((parts[0], parts[1])) else None
  }

  lemma {:induction false} StripStops(front: string, tail: string, chars: string)
    requires '.' !in chars
    ensures StripRight(front + "." + tail, chars) == front + "." + StripRight(tail, chars)
    ensures StripRight(tail, chars) <= tail
    decreases |tail|
  {
    var s := front + "." + tail;
    if tail == [] {
      assert s[|s| - 1] == '.';
    } else {
      var n := |tail| - 1;
      assert s[|s| - 1] == tail[n] && s[..|s| - 1] == front + "." + tail[..n];
      StripStops(front, tail[..n], chars);
    }
  }

  lemma {:induction false} BeforeFirstOf(head: string, c: char, rest: string)
    requires c !in head
    ensures BeforeFirst(head + [c] + rest, c) == head
  {
    if head != [] {
      assert (head + [c] + rest)[1..] == head[1..] + [c] + rest;
      BeforeFirstOf(head[1..], c, rest);
    }
  }

  lemma SplitCons(head: string, c: char, rest: string)
    requires c !in head
    ensures Split(head + [c] + rest, c) == [head] + Split(rest, c)
  {
    var s := head + [c] + rest;
    assert s[|head|] == c;
    BeforeFirstOf(head, c, rest);
    assert s[|head| + 1..] == rest;
  }

  /** Of a text with two dots, the parts before them are read, and never touched by what is stripped from the end, be it
      "-devel" or part of the patch number. */
  lemma VersionIsRead(major: string, minor: string, rest: string)
    requires '.' !in major && '.' !in minor && '.' !in rest
    ensures VersionParts(major + "." + minor + "." + rest) == Some((major, minor))
  {
    var tail := StripRight(rest, "-devel");
    StripStops(major + "." + minor, rest, "-devel");
    SplitThree(major, minor, tail);
  }

  lemma SplitThree(a: string, b: string, c: string)
    requires '.' !in a && '.' !in b && '.' !in c
    ensures Split(a + "." + b + "." + c, '.') == [a, b, c]
  {
    var last := b + "." + c;
    SplitCons(b, '.', c);
    assert b + ['.'] + c == last;
    SplitCons(a, '.', last);
    assert a + ['.'] + last == a + "." + b + "." + c;
    assert Split(c, '.') == [c];
  }

  lemma {:induction false} SplitCounts(s: string, c: char)
    ensures |Split(s, c)| == multiset(s)[c] + 1
    decreases |s|
  {
    if c in s {
      PrefixIsShorter(s, c);
      var n := |BeforeFirst(s, c)|;
      NotInPrefix(s, c);
      assert s == s[..n] + [s[n]] + s[n + 1..];
      SplitCounts(s[n + 1..], c);
    }
  }

  lemma {:induction false} NotInPrefix(s: string, c: char)
    ensures c !in BeforeFirst(s, c)
  {
    if s != [] && s[0] != c {
      NotInPrefix(s[1..], c);
    }
  }

  lemma {:induction false} StripKeeps(s: string, chars: string, c: char)
    requires c !in chars
    ensures multiset(StripRight(s, chars))[c] == multiset(s)[c]
  {
    if s != [] && s[|s| - 1] in chars {
      assert s == s[..|s| - 1] + [s[|s| - 1]];
      StripKeeps(s[..|s| - 1], chars, c);
    }
  }

  /** A version text is read exactly when it has two dots. */
  lemma VersionIsReadIff(text: string)
    ensures VersionParts(text).Some? <==> multiset(text)['.'] == 2
  {
    StripKeeps(text, "-devel", '.');
    SplitCounts(StripRight(text, "-devel"), '.');
  }
}
