/** What each edit of the calendar writes, row by row and in plain terms. */
module CalendarRows {

  import opened Options
  import opened Decimal
  import opened Dates
  import opened Calendar
  import opened ReleaseNames
  import opened Extension
  import opened ExtensionLaws
  import opened CalendarRuns

  // ----- extending

  /** A row of the block: as it was, less an end note of the series. */
  predicate IsKept(row: Row, old_: Row, series: string) {
    && row.header == old_.header && row.date == old_.date && row.version == old_.version && row.manager == old_.manager
    && row.note == if old_.note == Some("This is the last planned release of the " + series + ".x series.")
                      || old_.note == Some("Or " + series + ".0 final.")
                   then Some("") else old_.note
  }

  /** The `k`th of `n` new rows after `last`, whose version has the number `number`: weekly candidates after a
      candidate, fortnightly releases after a release; only the last row has a note. */
  predicate IsNew(row: Row, last: Row, number: nat, series: string, k: nat, n: nat) {
    && row.header == "" && row.manager == last.manager
    && if Contains(last.version, "-rc") then
         && Ordinal(row.date) == Ordinal(last.date) + 7 * k
         && row.version == series + ".0-rc" + Print(number + k)
         && row.note == Some(if k == n then "Or " + series + ".0 final." else "")
       else
         && Ordinal(row.date) == Ordinal(last.date) + 14 * k
         && row.version == series + "." + Print(number + k)
         && row.note == Some(if k == n then "This is the last planned release of the " + series + ".x series." else "")
  }

  /** Row `i` of the table extended by `n` rows, with the block of the series from `h` to `e`. */
  ghost predicate IsExtendedRow(t: Table, t': Table, series: string, n: nat, h: nat, e: nat, number: nat, i: nat)
    requires h < e <= |t| && |t'| == |t| + n && i < |t'|
  {
    if i < h then t'[i] == t[i]
    else if i < e then IsKept(t'[i], t[i], series)
    else if i < e + n then IsNew(t'[i], t[e - 1], number, series, i - e + 1, n)
    else t'[i] == t[i - n]
  }

  lemma StrippedIsKept(row: Row, series: string)
    ensures IsKept(Stripped(row, series), row, series)
  {
  }

  lemma NewRowIsNew(last: Row, p: Point, series: string, k: nat, n: nat)
    requires PointOf(last.version) == Some(p)
    ensures IsNew(NewRow(series, Stripped(last, series), p, k, k == n), last, p.number, series, k, n)
  {
    OrdinalOfAddDays(last.date, Interval(p) * k);
  }

  lemma BlockRow(t: Table, t': Table, series: string, before: Table, block: Table, after: Table, p: Point, n: nat,
                 e: nat, i: nat)
    requires IsGrowth(t, t', series, before, block, after, p, n, e) && |before| <= i < e
    ensures i < |t| && i < |t'| && t'[i] == Stripped(t[i], series)
  {
    GrownAt(block, series, p, n, i - |before|);
    assert t'[i] == Grown(block, series, p, n)[i - |before|] && t[i] == block[i - |before|];
  }

  lemma InsertedRow(t: Table, t': Table, series: string, before: Table, block: Table, after: Table, p: Point, n: nat,
                    e: nat, k: nat)
    requires IsGrowth(t, t', series, before, block, after, p, n, e) && 0 < k <= n
    ensures 0 < e <= |t| && e + k - 1 < |t'| && t[e - 1] == block[|block| - 1]
    ensures t'[e + k - 1] == NewRow(series, Stripped(t[e - 1], series), p, k, k == n)
  {
    ExtendedRow(t, t', series, before, block, after, p, n, e, e + k - 1);
    assert t[e - 1] == block[|block| - 1];
  }

  lemma OuterRow(t: Table, t': Table, series: string, before: Table, block: Table, after: Table, p: Point, n: nat,
                 e: nat, i: nat)
    requires IsGrowth(t, t', series, before, block, after, p, n, e) && i < |t'| && !(|before| <= i < e + n)
    ensures |before| < e <= |t| && |t'| == |t| + n && t'[i] == if i < |before| then t[i] else t[i - n]
  {
    if i >= |before| {
      ExtendedRow(t, t', series, before, block, after, p, n, e, i);
    }
  }

  lemma GrowthSizes(t: Table, t': Table, series: string, before: Table, block: Table, after: Table, p: Point, n: nat,
                    e: nat)
    requires IsGrowth(t, t', series, before, block, after, p, n, e)
    ensures |before| < e <= |t| && |t'| == |t| + n && t[e - 1] == block[|block| - 1]
  {
  }

  /** The extended table has the rows it should. */
  ghost predicate IsExtension(t: Table, t': Table, series: string, n: nat) {
    var h := HeaderOf(t, series);
    && h < |t|
    && var e := BlockEnd(t, h);
       && PointOf(t[e - 1].version).Some?
       && AreExtendedRows(t, t', series, n, h, e, PointOf(t[e - 1].version).value.number)
  }

  ghost predicate AreExtendedRows(t: Table, t': Table, series: string, n: nat, h: nat, e: nat, number: nat)
    requires h < e <= |t|
  {
    |t'| == |t| + n && forall i | 0 <= i < |t'| :: IsExtendedRow(t, t', series, n, h, e, number, i)
  }

  lemma GrowthRow(t: Table, t': Table, series: string, before: Table, block: Table, after: Table, p: Point, n: nat,
                  h: nat, e: nat, i: nat)
    requires IsGrowth(t, t', series, before, block, after, p, n, e) && h == |before| < e <= |t|
    requires t[e - 1] == block[|block| - 1] && PointOf(t[e - 1].version) == Some(p) && i < |t'| == |t| + n
    ensures IsExtendedRow(t, t', series, n, h, e, p.number, i)
  {
    if h <= i < e {
      BlockRow(t, t', series, before, block, after, p, n, e, i);
      StrippedIsKept(t[i], series);
    } else if e <= i < e + n {
      var k := i - e + 1;
      InsertedRow(t, t', series, before, block, after, p, n, e, k);
      NewRowIsNew(t[e - 1], p, series, k, n);
    } else {
      OuterRow(t, t', series, before, block, after, p, n, e, i);
    }
  }

  /** Every row of every extended table: nothing outside the block changes, its rows lose at most an end note, and the
      new rows go on from its last one. */
  lemma ExtendedRows(t: Table, series: string, n: nat)
    requires Extended(t, series, n).Some?
    ensures IsExtension(t, Extended(t, series, n).value, series, n)
  {
    var t' := Extended(t, series, n).value;
    var before, block, after, p, e := ExtensionParts(t, series, n);
    GrowthSizes(t, t', series, before, block, after, p, n, e);
    RowsOfGrowth(t, t', series, before, block, after, p, n, |before|, e);
  }

  lemma RowsOfGrowth(t: Table, t': Table, series: string, before: Table, block: Table, after: Table, p: Point, n: nat,
                     h: nat, e: nat)
    requires IsGrowth(t, t', series, before, block, after, p, n, e) && h == |before| < e <= |t|
    requires t[e - 1] == block[|block| - 1] && PointOf(t[e - 1].version) == Some(p) && |t'| == |t| + n
    requires HeaderOf(t, series) == h && BlockEnd(t, h) == e
    ensures IsExtension(t, t', series, n)
  {
    forall i | 0 <= i < |t'| ensures IsExtendedRow(t, t', series, n, h, e, p.number, i) {
      GrowthRow(t, t', series, before, block, after, p, n, h, e, i);
    }
  }

  /** Extending fails exactly when the header does not stand once or the number of the last version cannot be read. */
  lemma ExtensionFailsIff(t: Table, series: string, n: nat)
    ensures Extended(t, series, n).None?
            <==> !StandsOnce(t, series) || PointOf(t[BlockEnd(t, HeaderOf(t, series)) - 1].version).None?
  {
    if StandsOnce(t, series) {
      var h := HeaderOf(t, series);
      ExtendedFromFront(t, series, n, h, BlockEnd(t, h));
      FrontFailsIff(t, series, n, h, BlockEnd(t, h));
    }
  }

  lemma ExtendedFromFront(t: Table, series: string, n: nat, h: nat, e: nat)
    requires StandsOnce(t, series) && h == HeaderOf(t, series) && e == BlockEnd(t, h)
    ensures Extended(t, series, n).None? <==> Front(t, series, n, h, e).None?
  {
  }

  lemma FrontFailsIff(t: Table, series: string, n: nat, h: nat, e: nat)
    requires h < e <= |t|
    ensures Front(t, series, n, h, e).None? <==> PointOf(t[e - 1].version).None?
  {
  }

  // ----- appending

  /** Row `k` of `count` appended rows, `days` days apart from `start` on. */
  predicate IsAppended(row: Row, series: string, start: CalendarDate, days: nat, version: string, manager: string,
                       note: string, k: nat, count: nat)
  {
    && row.header == (if k == 0 then series else "")
    && Ordinal(row.date) == Ordinal(start) + days * k
    && row.version == version && row.manager == manager
    && row.note == if k + 1 == count then Some(note) else None
  }

  /** Candidates of a version text "major.minor.rest" are appended: rc1 to rc4, a week apart from the start of the
      quarter on; the last says that it may become the final release. */
  lemma CandidateRows(t: Table, major: string, minor: nat, rest: string, manager: string, k: nat)
    requires TwoDigits(major) && minor < 3 && '.' !in rest && k < 4
    ensures var series := major + "." + Print(minor);
            var t' := Edited(t, Candidates(series + "." + rest, manager));
            && t'.Some? && |t'.value| == |t| + 4 && t'.value[..|t|] == t
            && IsAppended(t'.value[|t| + k], series, StartOf(Value(major), minor), 7,
                          series + ".0-rc" + Print(k + 1), manager, "Or " + series + ".0 final.", k, 4)
  {
    CandidatesOfDevelopment(major, minor, rest, manager);
    OrdinalOfAddDays(StartOf(Value(major), minor), 7 * k);
  }

  /** A final series is appended: .0 to .3, or .1 to .3 if .0 is out, two weeks apart from the next release date on; the
      last says that it is. */
  lemma FinalRows(t: Table, today: CalendarDate, series: string, manager: string, zeroReleased: bool, k: nat)
    requires k < if zeroReleased then 3 else 4
    ensures var t' := Edited(t, Final(today, series, manager, zeroReleased));
            var first, count := if zeroReleased then 1 else 0, if zeroReleased then 3 else 4;
            && t'.Some? && |t'.value| == |t| + count && t'.value[..|t|] == t
            && IsAppended(t'.value[|t| + k], series, NextRelease(today, !zeroReleased), 14,
                          series + "." + Print(first + k), manager,
                          "This is the last planned release of the " + series + ".x series.", k, count)
  {
    OrdinalOfAddDays(NextRelease(today, !zeroReleased), 14 * k);
  }
}
