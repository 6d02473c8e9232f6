/** The release calendar: a table in which a series name stands only on the first row of its block. */
module Calendar {

  import opened Options
  import opened Dates

  type CalendarDate = d: Date | IsDate(d) witness Date(1, 1, 1)

  /** A row; `note` is absent in rows of four columns. */
  datatype Row = Row(header: string, date: CalendarDate, version: string, manager: string, note: Option<string>)

  type Table = seq<Row>

  /** The series a row belongs to: the nearest header at or above it. */
  function SeriesOf(t: Table, i: nat): string
    requires i < |t|
  {
    if t[i].header != "" || i == 0 then t[i].header else SeriesOf(t, i - 1)
  }

  // ----- well-formed tables

  /** A row's date is a Wednesday, and a row without a header comes after another row with an earlier date. */
  predicate InOrder(t: Table, i: nat)
    requires i < |t|
  {
    && IsWednesday(t[i].date)
    && (t[i].header == "" ==> i > 0 && Ordinal(t[i - 1].date) < Ordinal(t[i].date))
  }

  /** Every date is a Wednesday, dates rise from row to row within a block, and the first row is a header. */
  predicate WellFormed(t: Table) {
    forall i | 0 <= i < |t| :: InOrder(t, i)
  }

  /** Order looks at a row's header and date and at the date above. */
  lemma InOrderHere(t: Table, i: nat, t': Table, j: nat)
    requires i < |t| && j < |t'| && InOrder(t, i)
    requires t'[j].date == t[i].date && (t'[j].header == "" ==> t[i].header == "")
    requires i > 0 && t[i].header == "" ==> j > 0 && Ordinal(t'[j - 1].date) <= Ordinal(t[i - 1].date)
    ensures InOrder(t', j)
  {
  }

  /** Rows `i` to `j` are in one block. */
  ghost predicate SameBlock(t: Table, i: nat, j: nat)
    requires i <= j < |t|
  {
    forall k | i < k <= j :: t[k].header == ""
  }

  /** In a well-formed table the dates of a block strictly increase. */
  lemma {:induction false} DatesRise(t: Table, i: nat, j: nat)
    requires WellFormed(t) && i < j < |t| && SameBlock(t, i, j)
    ensures Ordinal(t[i].date) < Ordinal(t[j].date) && Before(t[i].date, t[j].date)
    ensures SeriesOf(t, i) == SeriesOf(t, j)
  {
    assert InOrder(t, j);
    if i + 1 < j {
      DatesRise(t, i, j - 1);
    }
    OrdinalIsMonotone(t[i].date, t[j].date);
  }

  /** A stretch of a well-formed table that begins with a header is well formed. */
  lemma WellFormedSlice(t: Table, lo: nat, hi: nat)
    requires WellFormed(t) && lo <= hi <= |t|
    requires lo < hi ==> t[lo].header != ""
    ensures WellFormed(t[lo..hi])
  {
    forall i | 0 <= i < hi - lo ensures InOrder(t[lo..hi], i) {
      InOrderHere(t, lo + i, t[lo..hi], i);
    }
  }

  // ----- removing a released version

  /** The row with this version, or -1. */
  function RowOf(t: Table, version: string): (p: int)
    ensures -1 <= p < |t|
    ensures p >= 0 ==> t[p].version == version
    ensures forall k | 0 <= k < |t| && (k < p || p < 0) :: t[k].version != version
  {
    if t == [] then -1
    else if t[0].version == version then 0
    else
      var p := RowOf(t[1..], version);
      assert forall k | 1 <= k < |t| :: t[1..][k - 1] == t[k];
      if p < 0 then -1 else p + 1
  }

  /** The table without row `p`; a header moves down to the next row. */
  function Removed(t: Table, p: nat): Table
    requires p < |t| && (t[p].header != "" ==> p + 1 < |t|)
  {
    var t' := if t[p].header != "" then t[p + 1 := t[p + 1].(header := t[p].header)] else t;
    t'[..p] + t'[p + 1..]
  }

  /** What `update_calendar` makes of a table. On an empty table, and when the last row carries the header that should
      move, it fails; when no row has the version, the last row goes. */
  function AfterRelease(t: Table, version: string): Option<Table> {
    var p := RowOf(t, version);
    if t == [] then None
    else if p < 0 then Some(t[..|t| - 1])
    else if t[p].header != "" && p + 1 == |t| then None
    else Some(Removed(t, p))
  }

  /** `update_calendar` */
  method UpdateCalendar(table: Table, version: string) returns (r: Option<Table>)
    ensures r == AfterRelease(table, version)
  {
    if table == [] {
      return None;
    }
    var calendar := table;
    var branch: Option<string> := None;
    var i := 0;
    while i < |calendar| - 1 && calendar[i].version != version
      invariant 0 <= i < |calendar| && calendar == table
      invariant forall k | 0 <= k < i :: calendar[k].version != version
    {
      i := i + 1;
    }
    if calendar[i].version == version {
      if calendar[i].header != "" {
        branch := Some(calendar[i].header);
      }
    }
    assert RowOf(table, version) == if table[i].version == version then i else -1;
    if branch.Some? {
      if i + 1 >= |calendar| {
        return None;
      }
      calendar := calendar[i + 1 := calendar[i + 1].(header := branch.value)];
    }
    calendar := calendar[..i] + calendar[i + 1..];
    assert RowOf(table, version) < 0 ==> calendar == table[..|table| - 1];
    r := Some(calendar);
  }

  /** Every row other than `p` belongs to the same series after the removal. */
  ghost predicate KeepsAttribution(t: Table, p: nat)
    requires p < |t| && (t[p].header != "" ==> p + 1 < |t|)
  {
    forall j | 0 <= j < |t| && j != p :: SeriesOf(Removed(t, p), if j < p then j else j - 1) == SeriesOf(t, j)
  }

  lemma {:induction false} AttributionAbove(t: Table, p: nat, j: nat)
    requires p < |t| && (t[p].header != "" ==> p + 1 < |t|) && j < p
    ensures SeriesOf(Removed(t, p), j) == SeriesOf(t, j)
  {
    if t[j].header == "" && j > 0 {
      AttributionAbove(t, p, j - 1);
    }
  }

  predicate HeaderMayMove(t: Table, p: nat)
    requires p < |t| && (t[p].header != "" ==> p + 1 < |t|)
  {
    t[p].header == "" || t[p + 1].header == "" || t[p + 1].header == t[p].header
  }

  lemma {:induction false} AttributionBelow(t: Table, p: nat, j: nat)
    requires p < |t| && (t[p].header != "" ==> p + 1 < |t|) && HeaderMayMove(t, p)
    requires p < j < |t|
    ensures SeriesOf(Removed(t, p), j - 1) == SeriesOf(t, j)
    decreases j
  {
    var t' := Removed(t, p);
    if j > p + 1 {
      assert t'[j - 1] == t[j];
      if t[j].header == "" {
        AttributionBelow(t, p, j - 1);
      }
    } else if t[p].header != "" {
      assert t'[p] == t[p + 1].(header := t[p].header);
    } else {
      assert t'[p] == t[p + 1];
      if t[j].header == "" && p > 0 {
        AttributionAbove(t, p, p - 1);
      }
    }
  }

  /** Attribution survives the removal of a row exactly when the row has no header, or the next row has none, or the
      next block is of the same series. */
  lemma AttributionKeptIff(t: Table, p: nat)
    requires p < |t| && (t[p].header != "" ==> p + 1 < |t|)
    ensures KeepsAttribution(t, p) <==> HeaderMayMove(t, p)
  {
    if HeaderMayMove(t, p) {
      forall j | 0 <= j < |t| && j != p
        ensures SeriesOf(Removed(t, p), if j < p then j else j - 1) == SeriesOf(t, j)
      {
        if j < p {
          AttributionAbove(t, p, j);
        } else {
          AttributionBelow(t, p, j);
        }
      }
    } else {
      assert Removed(t, p)[p] == t[p + 1].(header := t[p].header);
      assert SeriesOf(Removed(t, p), p) != SeriesOf(t, p + 1);
    }
  }

  /** Removing a row keeps a table well formed, whichever row takes over its header. */
  lemma RemovalKeepsWellFormed(t: Table, p: nat)
    requires WellFormed(t) && p < |t| && (t[p].header != "" ==> p + 1 < |t|)
    ensures WellFormed(Removed(t, p))
  {
    var t' := Removed(t, p);
    forall i | 0 <= i < |t'| ensures InOrder(t', i) {
      if i < p {
        InOrderHere(t, i, t', i);
      } else {
        RowsBelow(t, p, i);
        assert InOrder(t, i + 1) && InOrder(t, i);
        if i > p || t[p].header == "" {
          InOrderHere(t, i + 1, t', i);
        }
      }
    }
  }

  /** The rows below a removed one move up; the first of them may have been given a header. */
  lemma RowsBelow(t: Table, p: nat, i: nat)
    requires p < |t| && (t[p].header != "" ==> p + 1 < |t|) && p <= i < |t| - 1
    ensures var r := Removed(t, p);
            && r[i] == (if i == p && t[p].header != "" then t[i + 1].(header := t[p].header) else t[i + 1])
            && (i > 0 ==> r[i - 1].date == t[if i == p then p - 1 else i].date)
  {
  }

  /** Whatever release is announced, and whatever becomes of attribution, a calendar that is written stays in order. */
  lemma ReleaseKeepsWellFormed(t: Table, version: string)
    requires WellFormed(t) && AfterRelease(t, version).Some?
    ensures WellFormed(AfterRelease(t, version).value)
  {
    var p := RowOf(t, version);
    if p < 0 {
      assert InOrder(t, 0);
      WellFormedSlice(t, 0, |t| - 1);
      assert t[0..|t| - 1] == t[..|t| - 1];
    } else {
      RemovalKeepsWellFormed(t, p);
    }
  }

  /** Row `i` of the table after the release, told from the table before: above the row of the version nothing changes;
      the rows below move up with all they say, the first of them under the header that was there, if one was. */
  ghost predicate MovesUp(t: Table, t': Table, p: nat, i: nat)
    requires p < |t| && |t'| == |t| - 1 && i < |t'|
  {
    if i < p then t'[i] == t[i]
    else
      && t'[i].date == t[i + 1].date && t'[i].version == t[i + 1].version
      && t'[i].manager == t[i + 1].manager && t'[i].note == t[i + 1].note
      && t'[i].header == if i == p && t[p].header != "" then t[p].header else t[i + 1].header
  }

  lemma RemovedRow(t: Table, p: nat, i: nat)
    requires p < |t| && (t[p].header != "" ==> p + 1 < |t|) && i < |t| - 1
    ensures |Removed(t, p)| == |t| - 1 && MovesUp(t, Removed(t, p), p, i)
  {
    if i >= p {
      RowsBelow(t, p, i);
    }
  }

  /** Announcing a version takes away the first row that has it, whether or not that row has a header, and fails exactly
      when that row has one and is the last. */
  lemma ReleaseTakesItsRow(t: Table, version: string, p: nat)
    requires p < |t| && t[p].version == version && forall k | 0 <= k < p :: t[k].version != version
    ensures AfterRelease(t, version).None? <==> t[p].header != "" && p + 1 == |t|
    ensures AfterRelease(t, version).Some? ==>
              var t' := AfterRelease(t, version).value;
              && |t'| == |t| - 1
              && (forall i | 0 <= i < |t'| :: MovesUp(t, t', p, i))
              && ((forall k | p < k < |t| :: t[k].version != version) ==>
                    forall i | 0 <= i < |t'| :: t'[i].version != version)
  {
    if AfterRelease(t, version).Some? {
      var t' := AfterRelease(t, version).value;
      forall i | 0 <= i < |t| - 1 ensures |t'| == |t| - 1 && MovesUp(t, t', p, i) {
        RemovedRow(t, p, i);
      }
    }
  }

  /** A version that is not there takes the last row away, and every other row stays; an empty calendar fails. */
  lemma AbsentVersionTakesLastRow(t: Table, version: string)
    requires forall k | 0 <= k < |t| :: t[k].version != version
    ensures AfterRelease(t, version).None? <==> t == []
    ensures t != [] ==> var t' := AfterRelease(t, version).value;
                        |t'| == |t| - 1 && forall i | 0 <= i < |t'| :: t'[i] == t[i]
  {
  }
}
