/** Whole histories of the release calendar: blocks are appended, extended and worked off, and the table stays in
    order. */
module CalendarRuns {

  import opened Options
  import opened Decimal
  import opened Dates
  import opened Calendar
  import opened ReleaseNames
  import opened Extension
  import opened ExtensionLaws

  // ----- appending blocks

  /** A block to be appended: where and at which interval it starts, its first point, and the note of its last row. */
  datatype Plan = Plan(series: string, start: CalendarDate, interval: nat, first: Point, count: nat, manager: string,
                       note: string)

  /** Row `k` of a block: the first carries the header, the last the note. */
  function RowAt(b: Plan, k: nat): Row {
    Row(if k == 0 then b.series else "", AddDays(b.start, b.interval * k),
        NameOf(b.series, b.first.(number := b.first.number + k)), b.manager,
        if k + 1 == b.count then Some(b.note) else None)
  }

  function RowsUpTo(b: Plan, n: nat): (rows: Table)
    ensures |rows| == n
  {
    seq(n, k requires 0 <= k < n => RowAt(b, k))
  }

  function Rows(b: Plan): (rows: Table)
    ensures |rows| == b.count
  {
    RowsUpTo(b, b.count)
  }

  lemma RowsStep(b: Plan, n: nat)
    ensures RowsUpTo(b, n + 1) == RowsUpTo(b, n) + [RowAt(b, n)]
    ensures AddDays(AddDays(b.start, b.interval * n), b.interval) == AddDays(b.start, b.interval * (n + 1))
  {
    OneMore(b.start, b.interval, n);
  }

  /** Four candidates, a week apart, for a version text; `None` if the text has no release start. */
  function CandidatePlan(version: string, manager: string): Option<Plan> {
    match VersionParts(version)
    case None => None
    case Some((major, minor)) =>
      match StartFor(major, minor)
      case None => None
      case Some(start) =>
        var series := major + "." + minor;
        Some(Plan(series, start, 7, Point(true, 1), 4, manager, OrFinal(series)))
  }

  /** The releases up to .3, two weeks apart, from .0 or, if that is out, from .1. */
  function FinalPlan(today: CalendarDate, series: string, manager: string, zeroReleased: bool): Plan {
    var base := if zeroReleased then 1 else 0;
    Plan(series, NextRelease(today, !zeroReleased), 14, Point(false, base), 4 - base, manager, LastRelease(series))
  }

  /** `release_candidate`, with the text of the version file as an argument. */
  method ReleaseCandidate(data: Table, version: string, manager: string) returns (r: Option<Table>)
    ensures r == match CandidatePlan(version, manager)
                 case None => None
                 case Some(b) => Some(data + Rows(b))
  {
    var parts := VersionParts(version);
    if parts.None? {
      return None;
    }
    var (major, minor) := parts.value;
    var start := ReleaseStart(major, minor);
    if start.None? {
      return None;
    }
    var rows := CandidateRows(major + "." + minor, start.value, manager);
    r := Some(data + rows);
  }

  /** The rows that `release_candidate` writes. */
  method CandidateRows(series: string, start: CalendarDate, manager: string) returns (rows: Table)
    ensures rows == Rows(Plan(series, start, 7, Point(true, 1), 4, manager, OrFinal(series)))
  {
    ghost var b := Plan(series, start, 7, Point(true, 1), 4, manager, OrFinal(series));
    var date := start;
    rows := [Row(series, date, NameOf(series, Point(true, 1)), manager, None)];
    assert rows == RowsUpTo(b, 1);
    for row := 2 to 4
      invariant date == AddDays(b.start, 7 * (row - 2)) && rows == RowsUpTo(b, row - 1)
    {
      RowsStep(b, row - 1);
      OneMore(b.start, 7, row - 2);
      date := AddDays(date, 7);
      rows := rows + [Row("", date, NameOf(series, Point(true, row)), manager, None)];
    }
    RowsStep(b, 3);
    OneMore(b.start, 7, 2);
    date := AddDays(date, 7);
    rows := rows + [Row("", date, NameOf(series, Point(true, 4)), manager, Some(OrFinal(series)))];
  }

  /** The version file of a development branch, whatever follows the second dot, be it "0-devel" and the end of the
      line, gives the candidates of its series, on the Wednesdays from the start of its quarter on. */
  lemma CandidatesOfDevelopment(major: string, minor: nat, rest: string, manager: string)
    requires TwoDigits(major) && minor < 3 && '.' !in rest
    ensures var series := major + "." + Print(minor);
            CandidatePlan(series + "." + rest, manager)
            == Some(Plan(series, StartOf(Value(major), minor), 7, Point(true, 1), 4, manager, OrFinal(series)))
  {
    ParsePrint(minor);
    DigitsHaveNoDot(major);
    DigitsHaveNoDot(Print(minor));
    VersionIsRead(major, Print(minor), rest);
  }

  lemma DigitsHaveNoDot(digits: string)
    requires AllDigits(digits)
    ensures '.' !in digits
  {
  }

  /** `final_release` */
  method FinalRelease(data: Table, today: CalendarDate, series: string, manager: string, zeroReleased: bool)
    returns (r: Table)
    ensures r == data + Rows(FinalPlan(today, series, manager, zeroReleased))
  {
    var date := NextReleaseDate(today, !zeroReleased);
    var base := if zeroReleased then 1 else 0;
    ghost var b := FinalPlan(today, series, manager, zeroReleased);
    var rows := [Row(series, date, NameOf(series, Point(false, base)), manager, None)];
    assert rows == RowsUpTo(b, 1);
    for row := base + 1 to 3
      invariant date == AddDays(b.start, 14 * (row - base - 1)) && rows == RowsUpTo(b, row - base)
    {
      RowsStep(b, row - base);
      OneMore(b.start, 14, row - base - 1);
      date := AddDays(date, 14);
      rows := rows + [Row("", date, NameOf(series, Point(false, row)), manager, None)];
    }
    RowsStep(b, 3 - base);
    OneMore(b.start, 14, 2 - base);
    date := AddDays(date, 14);
    rows := rows + [Row("", date, NameOf(series, Point(false, 3)), manager, Some(LastRelease(series)))];
    r := data + rows;
  }

  /** Steps of whole weeks from a Wednesday meet Wednesdays. */
  lemma InStep(start: CalendarDate, weeks: nat, days: nat)
    requires IsWednesday(start) && days == 7 * weeks
    ensures IsWednesday(AddDays(start, days)) && Ordinal(AddDays(start, days)) == Ordinal(start) + days
  {
    OrdinalOfAddDays(start, days);
    WeeksKeepWeekday(start, weeks);
  }

  /** A multiple of a multiple of seven is one, and multiples grow. */
  lemma Multiples(interval: nat, weeks: nat, k: nat)
    requires interval == 7 * weeks && weeks > 0
    ensures interval * k == 7 * (weeks * k)
    ensures k > 0 ==> interval * (k - 1) + interval == interval * k
  {
  }

  lemma RowInStep(b: Plan, weeks: nat, k: nat)
    requires IsWednesday(b.start) && weeks > 0 && b.interval == 7 * weeks
    ensures IsWednesday(RowAt(b, k).date) && Ordinal(RowAt(b, k).date) == Ordinal(b.start) + b.interval * k
  {
    Multiples(b.interval, weeks, k);
    InStep(b.start, weeks * k, b.interval * k);
  }

  lemma RowsAreWellFormed(b: Plan, weeks: nat)
    requires b.series != "" && IsWednesday(b.start) && weeks > 0 && b.interval == 7 * weeks
    ensures WellFormed(Rows(b))
  {
    forall k | 0 <= k < b.count ensures InOrder(Rows(b), k) {
      RowInStep(b, weeks, k);
      if k > 0 {
        RowInStep(b, weeks, k - 1);
        Multiples(b.interval, weeks, k);
      }
    }
  }

  /** A block may be put at the end exactly when it has a name, or goes on from the last row with a later date. */
  predicate MayFollow(t: Table, series: string, start: CalendarDate) {
    series != "" || (t != [] && Ordinal(t[|t| - 1].date) < Ordinal(start))
  }

  lemma AppendKeepsWellFormedIff(t: Table, b: Plan, weeks: nat)
    requires WellFormed(t) && IsWednesday(b.start) && weeks > 0 && b.interval == 7 * weeks && b.count > 0
    ensures WellFormed(t + Rows(b)) <==> MayFollow(t, b.series, b.start)
  {
    var t' := t + Rows(b);
    var named := b.(series := "x");
    RowInStep(b, weeks, 0);
    RowsAreWellFormed(named, weeks);
    forall i | 0 <= i < |t'| && i != |t| ensures InOrder(t', i) {
      if i < |t| {
        InOrderHere(t, i, t', i);
      } else {
        SameButName(b, named, i - |t|);
        SameButName(b, named, i - |t| - 1);
        InOrderHere(Rows(named), i - |t|, t', i);
      }
    }
    assert t'[|t|] == RowAt(b, 0);
    assert InOrder(t', |t|) <==> MayFollow(t, b.series, b.start);
  }

  lemma SameButName(b: Plan, named: Plan, k: nat)
    requires named == b.(series := named.series)
    ensures RowAt(b, k).date == RowAt(named, k).date
    ensures k > 0 ==> RowAt(b, k).header == "" == RowAt(named, k).header
  {
  }

  // ----- extending keeps order

  function WeeksOf(p: Point): nat {
    if p.candidate then 1 else 2
  }

  /** A new row falls on a Wednesday, the more weeks after the last row the further down it stands. */
  lemma NewRowDate(series: string, last: Row, p: Point, k: nat, final: bool)
    requires IsWednesday(last.date)
    ensures var row := NewRow(series, last, p, k, final);
            IsWednesday(row.date) && Ordinal(row.date) == Ordinal(last.date) + Interval(p) * k
  {
    Multiples(Interval(p), WeeksOf(p), k);
    InStep(last.date, WeeksOf(p) * k, Interval(p) * k);
  }

  /** `t` falls into parts around a block that ends at row `e`, and `t'` has the block grown by `n` rows. */
  ghost predicate IsGrowth(t: Table, t': Table, series: string, before: Table, block: Table, after: Table, p: Point,
                           n: nat, e: nat)
  {
    && block != [] && e == |before| + |block|
    && t == before + block + after
    && t' == before + Grown(block, series, p, n) + after
  }

  /** Row `i` of the extended table. */
  lemma ExtendedRow(t: Table, t': Table, series: string, before: Table, block: Table, after: Table, p: Point, n: nat,
                    e: nat, i: nat)
    requires IsGrowth(t, t', series, before, block, after, p, n, e) && i < |t'|
    ensures |t'| == |t| + n && e <= |t|
    ensures i < e ==> t'[i].header == t[i].header && t'[i].date == t[i].date
    ensures e <= i < e + n ==> t'[i] == NewRow(series, LastOf(block, series), p, i - e + 1, i + 1 == e + n)
    ensures e + n <= i ==> t'[i] == t[i - n]
  {
    if |before| <= i < e + n {
      GrownAt(block, series, p, n, i - |before|);
      assert t'[i] == Grown(block, series, p, n)[i - |before|];
    }
  }

  lemma LastOfBlock(t: Table, t': Table, series: string, before: Table, block: Table, after: Table, p: Point, n: nat,
                    e: nat)
    requires IsGrowth(t, t', series, before, block, after, p, n, e) && WellFormed(t)
    ensures 0 < e <= |t| && t[e - 1].date == LastOf(block, series).date && IsWednesday(LastOf(block, series).date)
  {
    assert t[e - 1] == block[|block| - 1];
    assert InOrder(t, e - 1);
  }

  /** A new row below one whose date is an interval earlier is in order. */
  lemma NewRowFollows(series: string, last: Row, p: Point, k: nat, final: bool, t: Table, i: nat)
    requires 0 < i < |t| && IsWednesday(last.date) && t[i] == NewRow(series, last, p, k + 1, final)
    requires Ordinal(t[i - 1].date) == Ordinal(last.date) + Interval(p) * k
    ensures InOrder(t, i)
  {
    NewRowDate(series, last, p, k + 1, final);
    Multiples(Interval(p), WeeksOf(p), k + 1);
  }

  lemma FirstRowFollows(series: string, last: Row, p: Point, final: bool, t: Table, i: nat)
    requires 0 < i < |t| && IsWednesday(last.date) && t[i] == NewRow(series, last, p, 1, final)
    requires t[i - 1].date == last.date
    ensures InOrder(t, i)
  {
    NewRowDate(series, last, p, 1, final);
  }

  /** The first new row comes after the last old row. */
  lemma FirstRowInOrder(t: Table, t': Table, series: string, before: Table, block: Table, after: Table, p: Point,
                        n: nat, e: nat)
    requires IsGrowth(t, t', series, before, block, after, p, n, e) && WellFormed(t) && n > 0
    ensures e < |t'| && InOrder(t', e)
  {
    var last := LastOf(block, series);
    LastOfBlock(t, t', series, before, block, after, p, n, e);
    ExtendedRow(t, t', series, before, block, after, p, n, e, e - 1);
    ExtendedRow(t, t', series, before, block, after, p, n, e, e);
    FirstRowFollows(series, last, p, n == 1, t', e);
  }

  /** Every other new row comes after the one before. */
  lemma LaterRowInOrder(t: Table, t': Table, series: string, before: Table, block: Table, after: Table, p: Point,
                        n: nat, e: nat, k: nat)
    requires IsGrowth(t, t', series, before, block, after, p, n, e) && WellFormed(t) && 0 < k < n
    ensures e + k < |t'| && InOrder(t', e + k)
  {
    var last := LastOf(block, series);
    LastOfBlock(t, t', series, before, block, after, p, n, e);
    ExtendedRow(t, t', series, before, block, after, p, n, e, e + k - 1);
    ExtendedRow(t, t', series, before, block, after, p, n, e, e + k);
    NewRowDate(series, last, p, k, false);
    NewRowFollows(series, last, p, k, k + 1 == n, t', e + k);
  }

  lemma OldRowInOrder(t: Table, t': Table, series: string, before: Table, block: Table, after: Table, p: Point, n: nat,
                      e: nat, i: nat)
    requires IsGrowth(t, t', series, before, block, after, p, n, e) && WellFormed(t)
    requires after != [] ==> after[0].header != ""
    requires i < |t'| && !(e <= i < e + n)
    ensures InOrder(t', i)
  {
    ExtendedRow(t, t', series, before, block, after, p, n, e, i);
    if i > 0 {
      ExtendedRow(t, t', series, before, block, after, p, n, e, i - 1);
    }
    if i < e {
      InOrderHere(t, i, t', i);
    } else {
      assert i == e + n ==> t[i - n] == after[0];
      InOrderHere(t, i - n, t', i);
    }
  }

  lemma GrowthKeepsWellFormed(t: Table, t': Table, series: string, before: Table, block: Table, after: Table, p: Point,
                              n: nat, e: nat)
    requires IsGrowth(t, t', series, before, block, after, p, n, e) && WellFormed(t)
    requires after != [] ==> after[0].header != ""
    ensures WellFormed(t')
  {
    forall i | 0 <= i < |t'| ensures InOrder(t', i) {
      if i == e && n > 0 {
        FirstRowInOrder(t, t', series, before, block, after, p, n, e);
      } else if e < i < e + n {
        LaterRowInOrder(t, t', series, before, block, after, p, n, e, i - e);
      } else {
        OldRowInOrder(t, t', series, before, block, after, p, n, e, i);
      }
    }
  }

  /** The parts of a table that has been extended. */
  lemma ExtensionParts(t: Table, series: string, n: nat)
    returns (before: Table, block: Table, after: Table, p: Point, e: nat)
    requires Extended(t, series, n).Some?
    ensures IsGrowth(t, Extended(t, series, n).value, series, before, block, after, p, n, e)
    ensures after != [] ==> after[0].header != ""
    ensures HeaderOf(t, series) == |before| < |t| && e == BlockEnd(t, HeaderOf(t, series))
    ensures PointOf(block[|block| - 1].version) == Some(p)
  {
    before, block, after := SpliceOf(t, series);
    SplicePlace(series, before, block, after);
    SpliceExtended(series, before, block, after, n);
    p := PointOf(block[|block| - 1].version).value;
    e := |before| + |block|;
  }

  /** Where a successful extension puts its rows. */
  lemma ExtensionGrows(t: Table, series: string, n: nat)
    returns (before: Table, block: Table, after: Table, p: Point, e: nat)
    requires Extended(t, series, n).Some?
    ensures IsGrowth(t, Extended(t, series, n).value, series, before, block, after, p, n, e)
    ensures after != [] ==> after[0].header != ""
    ensures HeaderOf(t, series) < |t| && e == BlockEnd(t, HeaderOf(t, series))
  {
    before, block, after, p, e := ExtensionParts(t, series, n);
  }

  /** Extending any series keeps Wednesdays and rising dates. */
  lemma ExtensionKeepsWellFormed(t: Table, series: string, count: nat)
    requires WellFormed(t) && Extended(t, series, count).Some?
    ensures WellFormed(Extended(t, series, count).value)
  {
    var before, block, after, p, e := ExtensionGrows(t, series, count);
    GrowthKeepsWellFormed(t, Extended(t, series, count).value, series, before, block, after, p, count, e);
  }

  // ----- extending keeps attribution

  lemma {:induction false} SameHeadersSameSeries(t: Table, t': Table, i: nat)
    requires i < |t| && i < |t'| && forall k | 0 <= k <= i :: t[k].header == t'[k].header
    ensures SeriesOf(t, i) == SeriesOf(t', i)
  {
    if t[i].header == "" && i > 0 {
      SameHeadersSameSeries(t, t', i - 1);
    }
  }

  /** `t'` is `t` with `n` rows put in at `e`: row `i` keeps its series where it stands or moves to, and an inserted row
      `i` belongs to the series of the row they follow. */
  ghost predicate KeepsSeries(t: Table, t': Table, e: nat, n: nat, i: nat) {
    && |t'| == |t| + n && 0 < e <= |t|
    && (i < e ==> SeriesOf(t', i) == SeriesOf(t, i))
    && (e <= i < e + n ==> SeriesOf(t', i) == SeriesOf(t, e - 1))
    && (e <= i < |t| ==> SeriesOf(t', i + n) == SeriesOf(t, i))
  }

  /** The same headers, with `n` rows without one put in at `e`, before a header or the end. */
  ghost predicate Inserted(t: Table, t': Table, e: nat, n: nat) {
    && |t'| == |t| + n && 0 < e <= |t| && (e < |t| ==> t[e].header != "")
    && (forall k | 0 <= k < e :: t'[k].header == t[k].header)
    && (forall k | e <= k < e + n :: t'[k].header == "")
    && (forall k | e <= k < |t| :: t'[k + n].header == t[k].header)
  }

  lemma {:induction false} SeriesOfInserted(t: Table, t': Table, e: nat, n: nat, i: nat)
    requires Inserted(t, t', e, n) && e <= i < e + n
    ensures SeriesOf(t', i) == SeriesOf(t, e - 1)
  {
    if i == e {
      SameHeadersSameSeries(t, t', e - 1);
    } else {
      SeriesOfInserted(t, t', e, n, i - 1);
    }
  }

  lemma {:induction false} SeriesOfMoved(t: Table, t': Table, e: nat, n: nat, i: nat)
    requires Inserted(t, t', e, n) && e <= i < |t|
    ensures SeriesOf(t', i + n) == SeriesOf(t, i)
  {
    if t[i].header == "" {
      SeriesOfMoved(t, t', e, n, i - 1);
    }
  }

  lemma InsertionKeepsSeries(t: Table, t': Table, e: nat, n: nat, i: nat)
    requires Inserted(t, t', e, n)
    ensures KeepsSeries(t, t', e, n, i)
  {
    if i < e {
      SameHeadersSameSeries(t, t', i);
    }
    if e <= i < e + n {
      SeriesOfInserted(t, t', e, n, i);
    }
    if e <= i < |t| {
      SeriesOfMoved(t, t', e, n, i);
    }
  }

  lemma GrowthIsInserted(t: Table, t': Table, series: string, before: Table, block: Table, after: Table, p: Point,
                         n: nat, e: nat)
    requires IsGrowth(t, t', series, before, block, after, p, n, e)
    requires after != [] ==> after[0].header != ""
    ensures Inserted(t, t', e, n)
  {
    assert after != [] ==> t[e] == after[0];
    forall i | 0 <= i < |t'|
      ensures i < e ==> t'[i].header == t[i].header
      ensures e <= i < e + n ==> t'[i].header == ""
    {
      ExtendedRow(t, t', series, before, block, after, p, n, e, i);
    }
    forall k | e <= k < |t| ensures t'[k + n].header == t[k].header {
      ExtendedRow(t, t', series, before, block, after, p, n, e, k + n);
    }
  }

  lemma GrowthKeepsSeries(t: Table, t': Table, series: string, before: Table, block: Table, after: Table, p: Point,
                          n: nat, e: nat, i: nat)
    requires IsGrowth(t, t', series, before, block, after, p, n, e)
    requires after != [] ==> after[0].header != ""
    ensures KeepsSeries(t, t', e, n, i)
  {
    GrowthIsInserted(t, t', series, before, block, after, p, n, e);
    InsertionKeepsSeries(t, t', e, n, i);
  }

  /** The rows of a block belong to the series that names it. */
  lemma {:induction false} BlockIsOfSeries(t: Table, h: nat, i: nat)
    requires h <= i < |t| && t[h].header != "" && forall k | h < k <= i :: t[k].header == ""
    ensures SeriesOf(t, i) == t[h].header
  {
    if i > h {
      BlockIsOfSeries(t, h, i - 1);
    }
  }

  /** After an extension every old row belongs to the series it belonged to, and the new rows, which stand from the end
      of the block on, to that of the block, which is the one extended unless the name given is empty. */
  lemma ExtensionKeepsAttribution(t: Table, series: string, n: nat, i: nat)
    requires Extended(t, series, n).Some?
    ensures HeaderOf(t, series) < |t|
    ensures KeepsSeries(t, Extended(t, series, n).value, BlockEnd(t, HeaderOf(t, series)), n, i)
    ensures series != "" ==> SeriesOf(t, BlockEnd(t, HeaderOf(t, series)) - 1) == series
  {
    var before, block, after, p, e := ExtensionGrows(t, series, n);
    GrowthKeepsSeries(t, Extended(t, series, n).value, series, before, block, after, p, n, e, i);
    BlockEndsInSeries(t, series, e);
  }

  lemma BlockEndsInSeries(t: Table, series: string, e: nat)
    requires HeaderOf(t, series) < |t| && e == BlockEnd(t, HeaderOf(t, series))
    ensures series != "" ==> SeriesOf(t, e - 1) == series
  {
    if series != "" {
      BlockIsOfSeries(t, HeaderOf(t, series), e - 1);
    }
  }

  // ----- runs

  datatype Edit =
    | Candidates(version: string, manager: string)
    | Final(today: CalendarDate, series: string, manager: string, zeroReleased: bool)
    | More(series: string, count: nat)
    | Released(version: string)

  /** A final series is given a name, or at least does not begin before the table ends. */
  predicate Legal(t: Table, e: Edit) {
    e.Final? ==> MayFollow(t, e.series, NextRelease(e.today, !e.zeroReleased))
  }

  /** The table after an edit; `None` if the edit fails. */
  function Edited(t: Table, e: Edit): Option<Table> {
    match e
    case Candidates(version, manager) =>
      (match CandidatePlan(version, manager)
       case None => None
       case Some(b) => Some(t + Rows(b)))
    case Final(today, series, manager, zeroReleased) => Some(t + Rows(FinalPlan(today, series, manager, zeroReleased)))
    case More(series, count) => Extended(t, series, count)
    case Released(version) => AfterRelease(t, version)
  }

  lemma CandidatesKeepWellFormed(t: Table, version: string, manager: string)
    requires WellFormed(t) && CandidatePlan(version, manager).Some?
    ensures WellFormed(t + Rows(CandidatePlan(version, manager).value))
  {
    var (major, minor) := VersionParts(version).value;
    StartIsWednesday(Value(major), Parse(minor).value);
    var plan := CandidatePlan(version, manager).value;
    AppendKeepsWellFormedIff(t, plan, 1);
  }

  /** Every edit that succeeds keeps the table in order, with the one exception of a nameless series that begins too
      early, which never does. */
  lemma EditKeepsWellFormedIff(t: Table, e: Edit)
    requires WellFormed(t) && Edited(t, e).Some?
    ensures WellFormed(Edited(t, e).value) <==> Legal(t, e)
  {
    match e
    case Candidates(version, manager) =>
      CandidatesKeepWellFormed(t, version, manager);
    case Final(today, series, manager, zeroReleased) =>
      NextReleaseIsWednesday(today, !zeroReleased);
      AppendKeepsWellFormedIff(t, FinalPlan(today, series, manager, zeroReleased), 2);
    case More(series, count) =>
      ExtensionKeepsWellFormed(t, series, count);
    case Released(version) =>
      ReleaseKeepsWellFormed(t, version);
  }

  /** `tables` is a run of legal, successful edits. */
  ghost predicate IsRun(tables: seq<Table>, edits: seq<Edit>) {
    && |tables| == |edits| + 1
    && forall i | 0 <= i < |edits| :: Legal(tables[i], edits[i]) && Edited(tables[i], edits[i]) == Some(tables[i + 1])
  }

  /** In every table of every run from a well-formed one, every date is a Wednesday and the dates of each block strictly
      increase. */
  lemma {:induction false} RunsStayWellFormed(tables: seq<Table>, edits: seq<Edit>, i: nat)
    requires IsRun(tables, edits) && WellFormed(tables[0]) && i < |tables|
    ensures WellFormed(tables[i])
    ensures forall j, k | 0 <= j < k < |tables[i]| && SameBlock(tables[i], j, k) ::
              Before(tables[i][j].date, tables[i][k].date)
  {
    if i > 0 {
      RunsStayWellFormed(tables, edits, i - 1);
      EditKeepsWellFormedIff(tables[i - 1], edits[i - 1]);
    }
    forall j, k | 0 <= j < k < |tables[i]| && SameBlock(tables[i], j, k)
      ensures Before(tables[i][j].date, tables[i][k].date)
    {
      DatesRise(tables[i], j, k);
    }
  }
}
