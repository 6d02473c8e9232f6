/** Laws of extending a series: two extensions are one, and exactly for which series names that holds. */
module ExtensionLaws {

  import opened Options
  import opened Decimal
  import opened Dates
  import opened Calendar
  import opened ReleaseNames
  import opened Extension

  // ----- a table around the one block of a series

  ghost predicate IsSplice(series: string, before: Table, block: Table, after: Table) {
    && Absent(before, series) && Absent(after, series)
    && block != [] && block[0].header == series
    && (forall k | 1 <= k < |block| :: block[k].header == "")
    && (after != [] ==> after[0].header != "")
  }

  lemma SplicePlace(series: string, before: Table, block: Table, after: Table)
    requires IsSplice(series, before, block, after)
    ensures var t := before + block + after;
            && StandsOnce(t, series)
            && HeaderOf(t, series) == |before|
            && BlockEnd(t, |before|) == |before| + |block|
  {
    var t := before + block + after;
    assert forall k | 0 <= k < |before| :: t[k] == before[k];
    assert t[|before|] == block[0];
    assert forall k | 1 <= k < |block| :: t[|before| + k] == block[k];
    assert after != [] ==> t[|before| + |block|] == after[0];
    assert t[|before| + |block|..] == after;
  }

  lemma SpliceParts(before: Table, block: Table, after: Table)
    ensures var t := before + block + after;
            && t[..|before|] == before
            && t[|before|..|before| + |block|] == block
            && t[|before| + |block|..] == after
  {
  }

  function LastOf(block: Table, series: string): Row
    requires block != []
  {
    Stripped(block[|block| - 1], series)
  }

  /** A block whose last row stands for the point `p`, with `n` more rows. */
  function Grown(block: Table, series: string, p: Point, n: nat): (g: Table)
    requires block != []
    ensures |g| == |block| + n
  {
    StrippedAll(block, series) + NewRows(series, LastOf(block, series), p, n)
  }

  /** Extending a table given by its parts grows the block. */
  lemma SpliceExtended(series: string, before: Table, block: Table, after: Table, count: nat)
    requires IsSplice(series, before, block, after)
    ensures Extended(before + block + after, series, count)
            == match PointOf(block[|block| - 1].version)
               case None => None
               case Some(p) => Some(before + Grown(block, series, p, count) + after)
  {
    var t := before + block + after;
    SplicePlace(series, before, block, after);
    SpliceFront(series, before, block, after, count);
  }

  lemma SpliceFront(series: string, before: Table, block: Table, after: Table, count: nat)
    requires block != []
    ensures Front(before + block + after, series, count, |before|, |before| + |block|)
            == match PointOf(block[|block| - 1].version)
               case None => None
               case Some(p) => Some(before + Grown(block, series, p, count))
    ensures (before + block + after)[|before| + |block|..] == after
  {
    var t := before + block + after;
    SpliceParts(before, block, after);
    assert t[|before| + |block| - 1] == block[|block| - 1];
    var point := PointOf(block[|block| - 1].version);
    if point.Some? {
      Regroup(before, StrippedAll(block, series), NewRows(series, LastOf(block, series), point.value, count));
    }
  }

  lemma Regroup(a: Table, b: Table, c: Table)
    ensures a + b + c == a + (b + c)
  {
  }

  /** Every table with the header exactly once is such a splice. */
  lemma SpliceOf(t: Table, series: string) returns (before: Table, block: Table, after: Table)
    requires StandsOnce(t, series)
    ensures IsSplice(series, before, block, after) && t == before + block + after
  {
    var h := HeaderOf(t, series);
    var e := BlockEnd(t, h);
    before, block, after := t[..h], t[h..e], t[e..];
    CutInThree(t, h, e);
    BlockRows(t, h, e);
  }

  lemma BlockRows(t: Table, h: nat, e: nat)
    requires h < |t| && e == BlockEnd(t, h)
    ensures t[h..e][0] == t[h] && forall k | 1 <= k < e - h :: t[h..e][k].header == ""
    ensures t[e..] != [] ==> t[e..][0].header != ""
  {
  }

  lemma CutInThree(t: Table, h: nat, e: nat)
    requires h <= e <= |t|
    ensures t[..h] + t[h..e] + t[e..] == t
  {
  }

  // ----- two extensions

  lemma StrippedNewRow(series: string, last: Row, p: Point, k: nat, final: bool)
    ensures Stripped(NewRow(series, last, p, k, final), series) == NewRow(series, last, p, k, false)
  {
    assert |LastRelease(series)| > 0 && |OrFinal(series)| > 0;
  }

  lemma StrippedTwice(r: Row, series: string)
    ensures Stripped(Stripped(r, series), series) == Stripped(r, series)
  {
    assert |LastRelease(series)| > 0 && |OrFinal(series)| > 0;
  }

  /** The last row of a grown block. */
  lemma LastOfGrown(block: Table, series: string, p: Point, a: nat)
    requires block != []
    ensures var last := LastOf(block, series);
            LastOf(Grown(block, series, p, a), series) == if a == 0 then last else NewRow(series, last, p, a, false)
  {
    var g := Grown(block, series, p, a);
    if a == 0 {
      StrippedTwice(block[|block| - 1], series);
      assert g[|g| - 1] == LastOf(block, series);
    } else {
      assert g[|g| - 1] == NewRow(series, LastOf(block, series), p, a, true);
      StrippedNewRow(series, LastOf(block, series), p, a, true);
    }
  }

  lemma LaterRow(series: string, last: Row, p: Point, a: nat, k: nat, final: bool)
    ensures NewRow(series, NewRow(series, last, p, a, false), p.(number := p.number + a), k, final)
            == NewRow(series, last, p, a + k, final)
    ensures NewRow(series, last, p.(number := p.number), k, final) == NewRow(series, last, p, k, final)
  {
    AddDaysAdds(last.date, Interval(p) * a, Interval(p) * k);
    assert Interval(p) * a + Interval(p) * k == Interval(p) * (a + k);
  }

  lemma GrownAt(block: Table, series: string, p: Point, n: nat, i: nat)
    requires block != [] && i < |block| + n
    ensures Grown(block, series, p, n)[i]
            == if i < |block| then Stripped(block[i], series)
               else NewRow(series, LastOf(block, series), p, i - |block| + 1, i + 1 == |block| + n)
  {
  }

  lemma GrownTwiceOld(block: Table, series: string, p: Point, a: nat, b: nat, i: nat)
    requires block != [] && b > 0 && i < |block| + a
    ensures Stripped(Grown(block, series, p, a)[i], series) == Grown(block, series, p, a + b)[i]
  {
    GrownAt(block, series, p, a + b, i);
    GrownAt(block, series, p, a, i);
    if i < |block| {
      StrippedTwice(block[i], series);
    } else {
      StrippedNewRow(series, LastOf(block, series), p, i - |block| + 1, i + 1 == |block| + a);
    }
  }

  lemma NewRowGoesOn(block: Table, series: string, p: Point, a: nat, k: nat, final: bool, m: nat)
    requires block != [] && m == a + k
    ensures NewRow(series, LastOf(Grown(block, series, p, a), series), p.(number := p.number + a), k, final)
            == NewRow(series, LastOf(block, series), p, m, final)
  {
    LastOfGrown(block, series, p, a);
    LaterRow(series, LastOf(block, series), p, a, k, final);
  }

  lemma GrownTwiceNew(block: Table, series: string, p: Point, a: nat, b: nat, k: nat, n: nat, m: nat)
    requires block != [] && 0 < k <= b && n == a + b && m == a + k
    ensures NewRow(series, LastOf(Grown(block, series, p, a), series), p.(number := p.number + a), k, k == b)
            == Grown(block, series, p, n)[|block| + m - 1]
  {
    NewRowGoesOn(block, series, p, a, k, k == b, m);
    GrownAt(block, series, p, n, |block| + m - 1);
  }

  lemma GrownTwiceAt(block: Table, series: string, p: Point, a: nat, b: nat, n: nat, i: nat)
    requires block != [] && b > 0 && n == a + b && i < |block| + n
    ensures Grown(Grown(block, series, p, a), series, p.(number := p.number + a), b)[i]
            == Grown(block, series, p, n)[i]
  {
    var g := Grown(block, series, p, a);
    GrownAt(g, series, p.(number := p.number + a), b, i);
    if i < |g| {
      GrownTwiceOld(block, series, p, a, b, i);
    } else {
      GrownTwiceNew(block, series, p, a, b, i - |g| + 1, n, i - |block| + 1);
    }
  }

  /** Growing twice is growing once: the first note is blanked, numbers and dates go on. */
  lemma GrownTwice(block: Table, series: string, p: Point, a: nat, b: nat)
    requires block != [] && b > 0
    ensures Grown(Grown(block, series, p, a), series, p.(number := p.number + a), b)
            == Grown(block, series, p, a + b)
  {
    var twice := Grown(Grown(block, series, p, a), series, p.(number := p.number + a), b);
    var once := Grown(block, series, p, a + b);
    forall i | 0 <= i < |once| ensures twice[i] == once[i] {
      GrownTwiceAt(block, series, p, a, b, a + b, i);
    }
  }

  lemma GrownSplice(series: string, before: Table, block: Table, after: Table, p: Point, a: nat)
    requires IsSplice(series, before, block, after)
    ensures IsSplice(series, before, Grown(block, series, p, a), after)
  {
    var g := Grown(block, series, p, a);
    forall k | 0 <= k < |g| ensures g[k].header == if k == 0 then series else "" {
      GrownAt(block, series, p, a, k);
    }
  }

  /** The version a grown block ends with. */
  lemma VersionOfGrown(block: Table, series: string, p: Point, a: nat)
    requires block != []
    ensures var g := Grown(block, series, p, a);
            g[|g| - 1].version
            == if a == 0 then block[|block| - 1].version else NameOf(series, p.(number := p.number + a))
  {
    GrownAt(block, series, p, a, |block| + a - 1);
  }

  /** Extending by `a` and then by `b` gives what extending once by `a + b` gives. */
  ghost predicate Composes(t: Table, series: string, a: nat, b: nat) {
    && Extended(t, series, a).Some?
    && Extended(Extended(t, series, a).value, series, b) == Extended(t, series, a + b)
  }

  /** The last row of the series is a candidate. */
  predicate EndsInCandidate(t: Table, series: string)
    requires StandsOnce(t, series)
  {
    Contains(t[BlockEnd(t, HeaderOf(t, series)) - 1].version, "-rc")
  }

  /** `t'` is what extending `t` gives. */
  predicate ExtendsTo(t: Table, series: string, n: nat, t': Table) {
    Extended(t, series, n) == Some(t')
  }

  /** `t` has the block of `series` between `before` and `after`, and the block ends at `p`. */
  ghost predicate EndsAt(t: Table, series: string, before: Table, block: Table, after: Table, p: Point) {
    && IsSplice(series, before, block, after)
    && t == before + block + after
    && PointOf(block[|block| - 1].version) == Some(p)
  }

  /** The parts of a table that can be extended, and the point its block ends at. */
  lemma Parts(t: Table, series: string) returns (before: Table, block: Table, after: Table, p: Point)
    requires Extended(t, series, 0).Some?
    ensures EndsAt(t, series, before, block, after, p)
    ensures EndsInCandidate(t, series) == p.candidate
  {
    before, block, after := SpliceOf(t, series);
    SpliceExtended(series, before, block, after, 0);
    p := PointOf(block[|block| - 1].version).value;
    LastVersion(series, before, block, after);
  }

  lemma LastVersion(series: string, before: Table, block: Table, after: Table)
    requires IsSplice(series, before, block, after)
    ensures var t := before + block + after;
            StandsOnce(t, series)
            && EndsInCandidate(t, series) == Contains(block[|block| - 1].version, "-rc")
  {
    var t := before + block + after;
    SplicePlace(series, before, block, after);
    assert t[|before| + |block| - 1] == block[|block| - 1];
  }

  lemma ExtendOnce(t: Table, series: string, before: Table, block: Table, after: Table, p: Point, n: nat, t': Table)
    requires EndsAt(t, series, before, block, after, p)
    requires t' == before + Grown(block, series, p, n) + after
    ensures ExtendsTo(t, series, n, t')
  {
    SpliceExtended(series, before, block, after, n);
  }

  lemma GrownEndsAt(t: Table, series: string, before: Table, block: Table, after: Table, p: Point, a: nat)
    requires EndsAt(t, series, before, block, after, p)
    requires var q := p.(number := p.number + a); PointOf(NameOf(series, q)) == Some(q)
    ensures var g := Grown(block, series, p, a);
            EndsAt(before + g + after, series, before, g, after, p.(number := p.number + a))
  {
    GrownSplice(series, before, block, after, p, a);
    VersionOfGrown(block, series, p, a);
  }

  lemma ComposesVia(t: Table, t1: Table, t2: Table, series: string, a: nat, b: nat, n: nat)
    requires n == a + b
    requires ExtendsTo(t, series, a, t1) && ExtendsTo(t1, series, b, t2) && ExtendsTo(t, series, n, t2)
    ensures Composes(t, series, a, b)
  {
  }

  lemma ExtendAgain(t1: Table, series: string, before: Table, block: Table, after: Table, p: Point,
                    a: nat, b: nat, n: nat, t2: Table)
    requires EndsAt(before + block + after, series, before, block, after, p) && b > 0 && n == a + b
    requires t1 == before + Grown(block, series, p, a) + after
    requires t2 == before + Grown(block, series, p, n) + after
    requires var q := p.(number := p.number + a); PointOf(NameOf(series, q)) == Some(q)
    ensures ExtendsTo(t1, series, b, t2)
  {
    var g, q := Grown(block, series, p, a), p.(number := p.number + a);
    GrownEndsAt(before + block + after, series, before, block, after, p, a);
    GrownTwice(block, series, p, a, b);
    SameSplice(before, Grown(g, series, q, b), Grown(block, series, p, n), after);
    ExtendOnce(t1, series, before, g, after, q, b, t2);
  }

  lemma ExtendTwiceParts(t: Table, series: string, before: Table, block: Table, after: Table, p: Point,
                         a: nat, b: nat, n: nat)
    returns (t1: Table, t2: Table)
    requires EndsAt(t, series, before, block, after, p) && b > 0 && n == a + b
    requires var q := p.(number := p.number + a); PointOf(NameOf(series, q)) == Some(q)
    ensures ExtendsTo(t, series, a, t1) && ExtendsTo(t1, series, b, t2) && ExtendsTo(t, series, n, t2)
  {
    t1 := before + Grown(block, series, p, a) + after;
    t2 := before + Grown(block, series, p, n) + after;
    ExtendOnce(t, series, before, block, after, p, a, t1);
    ExtendOnce(t, series, before, block, after, p, n, t2);
    ExtendAgain(t1, series, before, block, after, p, a, b, n, t2);
  }

  lemma SameSplice(before: Table, x: Table, y: Table, after: Table)
    requires x == y
    ensures before + x + after == before + y + after
  {
  }

  /** Wherever the header stands once and the last version is readable, any two extensions compose: dates, names, moved
      end note and all. The series needs no dash in its name, unless its rows are candidates. */
  lemma ExtendTwice(t: Table, series: string, a: nat, b: nat)
    requires b > 0
    requires Extended(t, series, 0).Some?
    requires EndsInCandidate(t, series) || '-' !in series
    ensures Composes(t, series, a, b)
  {
    var before, block, after, p := Parts(t, series);
    NameReadsBack(series, p.(number := p.number + a));
    var n := a + b;
    var t1, t2 := ExtendTwiceParts(t, series, before, block, after, p, a, b, n);
    ComposesVia(t, t1, t2, series, a, b, n);
  }

  /** With a dash in the name of a series of releases, some two extensions do not compose. */
  lemma DashBreaksExtension(t: Table, series: string)
    requires Extended(t, series, 0).Some?
    requires !EndsInCandidate(t, series) && '-' in series
    ensures !Composes(t, series, 1, 1) || !Composes(t, series, 2, 1)
  {
    var before, block, after, p := Parts(t, series);
    DashLosesTheNumber(series, p.number + 1, p.number + 2);
    if PointOf(NameOf(series, p.(number := p.number + 1))) != Some(p.(number := p.number + 1)) {
      MisreadBreaks(t, series, before, block, after, p, 1);
    } else {
      MisreadBreaks(t, series, before, block, after, p, 2);
    }
  }

  lemma DashedIsNoCandidate(digits: string)
    requires AllDigits(digits)
    ensures !Contains("22-x." + digits, "-rc")
  {
    var name := "22-x." + digits;
    ContainsIff(name, "-rc");
    forall i: nat ensures !OccursAt(name, "-rc", i) {
      assert i + 3 <= |name| ==> name[i..i + 3][0] == name[i] && name[i..i + 3][1] == name[i + 1];
      assert 5 <= i < |name| ==> name[i] == digits[i - 5];
    }
  }

  lemma TwentyTwo()
    ensures AfterLast("22", ".") == "22"
    ensures Parse("22") == Some(22)
  {
    LastOccurrenceFacts("22", ".", 2);
    ParsePrint(22);
    assert Print(22) == [Digit(2)] + [Digit(2)] == "22";
  }

  /** A release of the series "22-x" is read as number 22, whatever its number is. */
  lemma DashedIsMisread(n: nat)
    ensures PointOf(NameOf("22-x", Point(false, n))) == Some(Point(false, 22))
  {
    var name, digits := NameOf("22-x", Point(false, n)), Print(n);
    ParsePrint(n);
    DashedIsNoCandidate(digits);
    assert name == "22-x." + digits == "22" + ['-'] + ("x." + digits);
    BeforeFirstOf("22", '-', "x." + digits);
    TwentyTwo();
  }

  /** A calendar whose only row is the release "22-x.0". Extended twice by one it announces 22-x.23 twice; extended once
      by two it announces 22-x.23 and 22-x.24. */
  lemma DashedSeriesDoesNotCompose()
    ensures var t := [Row("22-x", Date(2022, 1, 12), "22-x.0", "", None)];
            Extended(t, "22-x", 0).Some? && !Composes(t, "22-x", 1, 1)
  {
    var t := [Row("22-x", Date(2022, 1, 12), "22-x.0", "", None)];
    assert "22-x.0" == NameOf("22-x", Point(false, 0));
    DashedIsMisread(0);
    DashedIsMisread(23);
    assert [] + t + [] == t;
    assert EndsAt(t, "22-x", [], t, [], Point(false, 22));
    ExtendOnce(t, "22-x", [], t, [], Point(false, 22), 0, [] + Grown(t, "22-x", Point(false, 22), 0) + []);
    MisreadBreaks(t, "22-x", [], t, [], Point(false, 22), 1);
  }

  lemma MisreadBreaks(t: Table, series: string, before: Table, block: Table, after: Table, p: Point, a: nat)
    requires EndsAt(t, series, before, block, after, p) && a > 0
    requires PointOf(NameOf(series, p.(number := p.number + a))) != Some(p.(number := p.number + a))
    ensures !Composes(t, series, a, 1)
  {
    var n, g := a + 1, Grown(block, series, p, a);
    var t1, t2 := before + g + after, before + Grown(block, series, p, n) + after;
    ExtendOnce(t, series, before, block, after, p, a, t1);
    ExtendOnce(t, series, before, block, after, p, n, t2);
    MisreadExtension(series, before, block, g, after, p, a, n, t1, t2);
    ComposesNot(t, t1, t2, series, a, n);
  }

  lemma ComposesNot(t: Table, t1: Table, t2: Table, series: string, a: nat, n: nat)
    requires n == a + 1
    requires ExtendsTo(t, series, a, t1) && !ExtendsTo(t1, series, 1, t2) && ExtendsTo(t, series, n, t2)
    ensures !Composes(t, series, a, 1)
  {
  }

  /** Where the last version is misread, the second extension fails or goes on from another number. */
  lemma MisreadExtension(series: string, before: Table, block: Table, g: Table, after: Table, p: Point, a: nat, n: nat,
                         t1: Table, t2: Table)
    requires IsSplice(series, before, block, after) && g == Grown(block, series, p, a) && a > 0 && n == a + 1
    requires t1 == before + g + after && t2 == before + Grown(block, series, p, n) + after
    requires PointOf(NameOf(series, p.(number := p.number + a))) != Some(p.(number := p.number + a))
    ensures !ExtendsTo(t1, series, 1, t2)
  {
    GrownSplice(series, before, block, after, p, a);
    var read := MisreadBlock(series, block, g, p, a, p.(number := p.number + a));
    if read.Some? {
      GrownDiffers(block, series, p, a, read.value);
    }
    OtherExtension(series, before, g, after, read, t1, Grown(block, series, p, n), t2);
  }

  lemma MisreadBlock(series: string, block: Table, g: Table, p: Point, a: nat, q: Point) returns (read: Option<Point>)
    requires block != [] && g == Grown(block, series, p, a) && a > 0 && q == p.(number := p.number + a)
    requires PointOf(NameOf(series, q)) != Some(q)
    ensures |g| > 0 && read == PointOf(g[|g| - 1].version) && read != Some(q)
  {
    read := PointOf(NameOf(series, q));
    VersionOfGrown(block, series, p, a);
  }

  lemma OtherExtension(series: string, before: Table, g: Table, after: Table, read: Option<Point>, t1: Table, x: Table,
                       t2: Table)
    requires IsSplice(series, before, g, after) && read == PointOf(g[|g| - 1].version) && t1 == before + g + after
    requires |x| == |g| + 1 && (read.Some? ==> Grown(g, series, read.value, 1) != x) && t2 == before + x + after
    ensures !ExtendsTo(t1, series, 1, t2)
  {
    SpliceExtended(series, before, g, after, 1);
    if read.Some? {
      SpliceCancels(before, Grown(g, series, read.value, 1), x, after);
    }
  }

  lemma SpliceCancels(before: Table, x: Table, y: Table, after: Table)
    requires |x| == |y| && x != y
    ensures before + x + after != before + y + after
  {
    SpliceParts(before, x, after);
    SpliceParts(before, y, after);
  }

  lemma GrownDiffers(block: Table, series: string, p: Point, a: nat, q: Point)
    requires block != [] && q != p.(number := p.number + a)
    ensures Grown(Grown(block, series, p, a), series, q, 1) != Grown(block, series, p, a + 1)
  {
    var g, n := Grown(block, series, p, a), a + 1;
    var i := |block| + a;
    GrownAt(g, series, q, 1, i);
    GrownAt(block, series, p, n, i);
    OtherVersion(series, LastOf(g, series), LastOf(block, series), p, a, n, q);
  }

  lemma OtherVersion(series: string, last: Row, last': Row, p: Point, a: nat, n: nat, q: Point)
    requires q != p.(number := p.number + a) && n == a + 1
    ensures NewRow(series, last, q, 1, true).version != NewRow(series, last', p, n, true).version
  {
    if NewRow(series, last, q, 1, true).version == NewRow(series, last', p, n, true).version {
      NameIsInjective(series, q.(number := q.number + 1), p.(number := p.number + n));
    }
  }

  /** Extensions of a series compose for all counts exactly when its rows are candidates or its name has no dash. */
  lemma ExtensionsComposeIff(t: Table, series: string)
    requires Extended(t, series, 0).Some?
    ensures (forall a: nat, b: nat | b > 0 :: Composes(t, series, a, b))
            <==> EndsInCandidate(t, series) || '-' !in series
  {
    if EndsInCandidate(t, series) || '-' !in series {
      forall a: nat, b: nat | b > 0 ensures Composes(t, series, a, b) {
        ExtendTwice(t, series, a, b);
      }
    } else {
      DashBreaksExtension(t, series);
    }
  }
}
