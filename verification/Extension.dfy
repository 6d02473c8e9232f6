/** Extending a series: new rows go in at the end of its block, and the end note moves to the last of them. */
module Extension {

  import opened Options
  import opened Dates
  import opened Calendar
  import opened ReleaseNames

  function LastRelease(series: string): string {
    "This is the last planned release of the " + series + ".x series."
  }

  function OrFinal(series: string): string {
    "Or " + series + ".0 final."
  }

  // ----- the block of a series

  function Occurrences(t: Table, series: string): nat {
    if t == [] then 0
    else Occurrences(t[..|t| - 1], series) + if t[|t| - 1].header == series then 1 else 0
  }

  predicate Absent(rows: Table, series: string) {
    forall k | 0 <= k < |rows| :: rows[k].header != series
  }

  /** The first row with this header, or the length of the table. */
  function HeaderOf(t: Table, series: string): (h: nat)
    ensures h <= |t| && (h < |t| ==> t[h].header == series)
    ensures forall k | 0 <= k < h :: t[k].header != series
  {
    if t == [] || t[0].header == series then 0 else 1 + HeaderOf(t[1..], series)
  }

  /** The first row after `h` that has a header, or the length of the table. */
  function BlockEnd(t: Table, h: nat): (e: nat)
    requires h < |t|
    ensures h < e <= |t| && (e < |t| ==> t[e].header != "")
    ensures forall k | h < k < e :: t[k].header == ""
    decreases |t| - h
  {
    if h + 1 == |t| || t[h + 1].header != "" then h + 1 else BlockEnd(t, h + 1)
  }

  /** The header stands in the table, and not again after its block. An empty name stands where the first row without a
      header does. */
  predicate StandsOnce(t: Table, series: string) {
    var h := HeaderOf(t, series);
    h < |t| && Absent(t[BlockEnd(t, h)..], series)
  }

  // ----- notes and new rows

  predicate IsEndNote(note: Option<string>, series: string) {
    note == Some(LastRelease(series)) || note == Some(OrFinal(series))
  }

  /** An end note of the series is blanked. */
  function Stripped(r: Row, series: string): Row {
    if IsEndNote(r.note, series) then r.(note := Some("")) else r
  }

  function StrippedAll(rows: Table, series: string): (s: Table)
    ensures |s| == |rows|
  {
    seq(|rows|, i requires 0 <= i < |rows| => Stripped(rows[i], series))
  }

  /** Candidates come weekly, releases every two weeks. */
  function Interval(p: Point): nat {
    if p.candidate then 7 else 14
  }

  function EndNote(p: Point, series: string): string {
    if p.candidate then OrFinal(series) else LastRelease(series)
  }

  /** The `k`th row after `last`, which stands for the point `p`. */
  function NewRow(series: string, last: Row, p: Point, k: nat, final: bool): Row {
    Row("", AddDays(last.date, Interval(p) * k), NameOf(series, p.(number := p.number + k)), last.manager,
        Some(if final then EndNote(p, series) else ""))
  }

  /** The first `n` of `count` new rows; the last of all carries the end note. */
  function FirstRows(series: string, last: Row, p: Point, n: nat, count: nat): (rows: Table)
    ensures |rows| == n
  {
    seq(n, k requires 0 <= k < n => NewRow(series, last, p, k + 1, k + 1 == count))
  }

  function NewRows(series: string, last: Row, p: Point, count: nat): (rows: Table)
    ensures |rows| == count
  {
    FirstRows(series, last, p, count, count)
  }

  /** The rows that `extend` writes at its insertion point; it fails if the last version has no readable number. */
  function Insertion(series: string, last: Row, count: nat): Option<Table> {
    match PointOf(last.version)
    case None => None
    case Some(p) => Some(NewRows(series, last, p, count))
  }

  /** The table up to the end of the block from `h` to `e`, stripped, with the new rows. */
  function Front(t: Table, series: string, count: nat, h: nat, e: nat): Option<Table>
    requires h < e <= |t|
  {
    match Insertion(series, Stripped(t[e - 1], series), count)
    case None => None
    case Some(rows) => Some(t[..h] + StrippedAll(t[h..e], series) + rows)
  }

  /** What `extend` makes of a table: it needs the header exactly once, and a readable last version. */
  function Extended(t: Table, series: string, count: nat): Option<Table> {
    if !StandsOnce(t, series) then None
    else
      var h := HeaderOf(t, series);
      var e := BlockEnd(t, h);
      match Front(t, series, count, h, e)
      case None => None
      case Some(front) => Some(front + t[e..])
  }

  lemma {:induction false} NoOccurrence(t: Table, series: string)
    ensures Occurrences(t, series) == 0 <==> Absent(t, series)
  {
    if t != [] {
      var front := t[..|t| - 1];
      NoOccurrence(front, series);
      if Absent(front, series) {
        assert forall k | 0 <= k < |t| - 1 :: t[k] == front[k];
      } else {
        var k :| 0 <= k < |front| && front[k].header == series;
        assert t[k].header == series;
      }
    }
  }

  lemma {:induction false} OccurrencesConcat(a: Table, b: Table, series: string)
    ensures Occurrences(a + b, series) == Occurrences(a, series) + Occurrences(b, series)
  {
    if b == [] {
      assert a + b == a;
    } else {
      assert (a + b)[..|a + b| - 1] == a + b[..|b| - 1];
      OccurrencesConcat(a, b[..|b| - 1], series);
    }
  }

  lemma OccurrencesOfBlock(t: Table, series: string, h: nat, e: nat)
    requires series != "" && h < e <= |t| && t[h].header == series && forall k | h < k < e :: t[k].header == ""
    ensures Occurrences(t[h..e], series) == 1
  {
    assert t[h..e] == [t[h]] + t[h + 1..e];
    assert [t[h]][..0] == [] && Occurrences([t[h]], series) == 1;
    OccurrencesConcat([t[h]], t[h + 1..e], series);
    NoOccurrence(t[h + 1..e], series);
  }

  lemma OccurrencesOfParts(t: Table, series: string, h: nat, e: nat)
    requires h <= e <= |t|
    ensures Occurrences(t, series)
            == Occurrences(t[..h], series) + Occurrences(t[h..e], series) + Occurrences(t[e..], series)
  {
    var front := t[..h] + t[h..e];
    OccurrencesConcat(t[..h], t[h..e], series);
    assert front + t[e..] == t;
    OccurrencesConcat(front, t[e..], series);
  }

  /** For a series with a name this is to say that the table holds the header once. */
  lemma StandsOnceIff(t: Table, series: string)
    requires series != ""
    ensures StandsOnce(t, series) <==> Occurrences(t, series) == 1
  {
    var h := HeaderOf(t, series);
    if h == |t| {
      NoOccurrence(t, series);
    } else {
      var e := BlockEnd(t, h);
      OccurrencesOfBlock(t, series, h, e);
      NoOccurrence(t[..h], series);
      NoOccurrence(t[e..], series);
      OccurrencesOfParts(t, series, h, e);
    }
  }

  // ----- the program

  lemma OneMore(d: CalendarDate, interval: nat, k: nat)
    ensures AddDays(AddDays(d, interval * k), interval) == AddDays(d, interval * (k + 1))
  {
    AddDaysAdds(d, interval * k, interval);
    assert interval * k + interval == interval * (k + 1);
  }

  /** The body of the `with` block: the rows written after `last`. */
  method WriteNewRows(series: string, last: Row, count: int) returns (r: Option<Table>)
    ensures r == Insertion(series, last, if count < 0 then 0 else count)
  {
    var point := PointOf(last.version);
    if point.None? {
      return None;
    }
    var p := point.value;
    var total := if count < 0 then 0 else count;
    var rows: Table := [];
    var date := last.date;
    for k := 0 to total
      invariant date == AddDays(last.date, Interval(p) * k)
      invariant rows == FirstRows(series, last, p, k, total)
    {
      OneMore(last.date, Interval(p), k);
      date := AddDays(date, Interval(p));
      var note := "";
      if k + 1 == total {
        note := EndNote(p, series);
      }
      FirstRowsStep(series, last, p, k, total);
      rows := rows + [Row("", date, NameOf(series, p.(number := p.number + (k + 1))), last.manager, Some(note))];
    }
    r := Some(rows);
  }

  lemma FirstRowsStep(series: string, last: Row, p: Point, n: nat, count: nat)
    ensures FirstRows(series, last, p, n + 1, count)
            == FirstRows(series, last, p, n, count) + [NewRow(series, last, p, n + 1, n + 1 == count)]
  {
  }

  /** The state of the writing generator: what is written, whether it is inside the wanted block, whether it has handed
      out a row, and the last row written. */
  datatype Writer = Writer(out: Table, inWanted: bool, yielded: bool, last: Option<Row>)

  /** Handing out the last row: the new rows are written there. A second time, and with an unreadable version, it
      fails. */
  function Handed(w: Writer, series: string, count: nat): Option<Writer>
    requires w.last.Some?
  {
    if w.yielded then None
    else
      match Insertion(series, w.last.value, count)
      case None => None
      case Some(rows) => Some(w.(out := w.out + rows, inWanted := false, yielded := true))
  }

  /** One turn of the loop over the rows. */
  function Turn(w: Writer, row: Row, series: string, count: nat): Option<Writer>
    requires w.inWanted ==> w.last.Some?
  {
    var w1 := if w.inWanted && row.header != "" then Handed(w, series, count) else Some(w);
    if w1.None? then None
    else
      var inWanted := w1.value.inWanted || row.header == series;
      var written := if inWanted then Stripped(row, series) else row;
      Some(Writer(w1.value.out + [written], inWanted, w1.value.yielded, Some(written)))
  }

  /** The writer when it is about to handle row `i`, for the block from `h` to `e`. */
  ghost predicate Writing(t: Table, series: string, count: nat, h: nat, e: nat, i: nat, w: Writer)
    requires h <= e <= |t| && (h < |t| ==> h < e) && i <= |t|
  {
    if i <= h then w.out == t[..i] && !w.inWanted && !w.yielded
    else if i <= e then Inside(t, series, h, i, w)
    else Past(t, series, count, h, e, i, w)
  }

  ghost predicate Inside(t: Table, series: string, h: nat, i: nat, w: Writer)
    requires h < i <= |t|
  {
    && w.out == t[..h] + StrippedAll(t[h..i], series) && w.inWanted && !w.yielded
    && w.last == Some(Stripped(t[i - 1], series))
  }

  ghost predicate Past(t: Table, series: string, count: nat, h: nat, e: nat, i: nat, w: Writer)
    requires h < e < i <= |t|
  {
    && w.yielded && w.last.Some? && (w.inWanted <==> !Absent(t[e..i], series))
    && Front(t, series, count, h, e).Some?
    && (!w.inWanted ==> w.out == Front(t, series, count, h, e).value + t[e..i])
  }

  /** The place of the block, or the end of the table twice. */
  ghost predicate Placed(t: Table, series: string, h: nat, e: nat) {
    && h == HeaderOf(t, series)
    && e == if h < |t| then BlockEnd(t, h) else |t|
  }

  lemma AbsentConcat(a: Table, b: Table, series: string)
    ensures Absent(a + b, series) <==> Absent(a, series) && Absent(b, series)
  {
    if Absent(a + b, series) {
      forall k | 0 <= k < |a| ensures a[k].header != series { assert (a + b)[k] == a[k]; }
      forall k | 0 <= k < |b| ensures b[k].header != series { assert (a + b)[|a| + k] == b[k]; }
    }
  }

  lemma AbsentStep(t: Table, series: string, e: nat, i: nat)
    requires e <= i < |t|
    ensures Absent(t[e..i + 1], series) <==> Absent(t[e..i], series) && t[i].header != series
  {
    assert t[e..i + 1] == t[e..i] + [t[i]];
    AbsentConcat(t[e..i], [t[i]], series);
    assert [t[i]][0] == t[i];
  }

  lemma PresentStays(t: Table, series: string, e: nat, i: nat)
    requires e <= i <= |t| && !Absent(t[e..i], series)
    ensures !Absent(t[e..], series)
  {
    assert t[e..] == t[e..i] + t[i..];
    AbsentConcat(t[e..i], t[i..], series);
  }

  /** Up to the header and through the block, rows are written as they are, or stripped. */
  lemma TurnInside(t: Table, series: string, count: nat, h: nat, e: nat, i: nat, w: Writer)
    requires Placed(t, series, h, e) && i < |t| && i < e
    requires Writing(t, series, count, h, e, i, w)
    ensures Turn(w, t[i], series, count).Some?
    ensures Writing(t, series, count, h, e, i + 1, Turn(w, t[i], series, count).value)
  {
    if i < h {
      assert t[..i] + [t[i]] == t[..i + 1];
    } else {
      StrippedStep(t, series, h, i);
    }
  }

  lemma StrippedStep(t: Table, series: string, h: nat, i: nat)
    requires h <= i < |t|
    ensures t[..h] + StrippedAll(t[h..i + 1], series)
            == t[..h] + StrippedAll(t[h..i], series) + [Stripped(t[i], series)]
    ensures i == h ==> t[..h] + StrippedAll(t[h..i], series) == t[..h]
  {
    assert StrippedAll(t[h..i + 1], series) == StrippedAll(t[h..i], series) + [Stripped(t[i], series)];
  }

  /** What the writer hands out at the end of the block completes the front of the table. */
  lemma HandedIsFront(t: Table, series: string, count: nat, h: nat, e: nat, w: Writer)
    requires h < e <= |t| && Inside(t, series, h, e, w)
    ensures var handed, front := Handed(w, series, count), Front(t, series, count, h, e);
            if handed.Some? then
              front.Some? && handed.value == Writer(front.value, false, true, w.last)
            else front.None?
  {
  }

  lemma FrontFails(t: Table, series: string, count: nat, h: nat, e: nat)
    requires Placed(t, series, h, e) && h < |t| && Front(t, series, count, h, e).None?
    ensures Extended(t, series, count).None?
  {
  }

  lemma PastStarts(t: Table, series: string, count: nat, h: nat, e: nat, front: Table, w: Writer)
    requires h < e < |t| && Front(t, series, count, h, e) == Some(front)
    requires w.yielded && w.last.Some? && w.inWanted == (t[e].header == series)
    requires !w.inWanted ==> w.out == front + [t[e]]
    ensures Past(t, series, count, h, e, e + 1, w)
  {
    assert t[e..e + 1] == [t[e]];
  }

  /** At the next header the new rows go in. */
  lemma TurnAtEnd(t: Table, series: string, count: nat, h: nat, e: nat, w: Writer)
    requires Placed(t, series, h, e) && h < e < |t|
    requires Inside(t, series, h, e, w)
    ensures var next := Turn(w, t[e], series, count);
            if next.Some? then Past(t, series, count, h, e, e + 1, next.value)
            else Extended(t, series, count).None?
  {
    HandedIsFront(t, series, count, h, e, w);
    var handed := Handed(w, series, count);
    if handed.Some? {
      PastStarts(t, series, count, h, e, handed.value.out, Turn(w, t[e], series, count).value);
    } else {
      FrontFails(t, series, count, h, e);
    }
  }

  lemma AppendSlice(front: Table, t: Table, e: nat, i: nat)
    requires e <= i < |t|
    ensures front + t[e..i] + [t[i]] == front + t[e..i + 1]
  {
  }

  /** After the block, rows are copied, unless the header comes again. */
  lemma TurnAfter(t: Table, series: string, count: nat, h: nat, e: nat, i: nat, w: Writer)
    requires Placed(t, series, h, e) && h < e < i < |t|
    requires Past(t, series, count, h, e, i, w)
    ensures var next := Turn(w, t[i], series, count);
            if next.Some? then Past(t, series, count, h, e, i + 1, next.value)
            else Extended(t, series, count).None?
  {
    AbsentStep(t, series, e, i);
    if w.inWanted {
      PresentStays(t, series, e, i);
    } else {
      AppendSlice(Front(t, series, count, h, e).value, t, e, i);
    }
  }

  /** The writer is on its way, or has failed where extending fails. */
  ghost predicate OnTheWay(t: Table, series: string, count: nat, h: nat, e: nat, i: nat, w: Option<Writer>)
    requires h <= e <= |t| && (h < |t| ==> h < e) && i <= |t|
  {
    if w.Some? then Writing(t, series, count, h, e, i, w.value) else Extended(t, series, count).None?
  }

  lemma TurnKeeps(t: Table, series: string, count: nat, h: nat, e: nat, i: nat, w: Writer)
    requires Placed(t, series, h, e) && i < |t|
    requires Writing(t, series, count, h, e, i, w)
    ensures OnTheWay(t, series, count, h, e, i + 1, Turn(w, t[i], series, count))
  {
    if i < e {
      TurnInside(t, series, count, h, e, i, w);
    } else if i == e {
      TurnAtEnd(t, series, count, h, e, w);
    } else {
      TurnAfter(t, series, count, h, e, i, w);
    }
  }

  /** The writer after the first `i` rows; `None` if it has failed by then. */
  ghost function Written(t: Table, series: string, count: nat, i: nat): (w: Option<Writer>)
    requires i <= |t|
    ensures w.Some? && w.value.inWanted ==> w.value.last.Some?
  {
    if i == 0 then Some(Writer([], false, false, None))
    else
      match Written(t, series, count, i - 1)
      case None => None
      case Some(w) => Turn(w, t[i - 1], series, count)
  }

  lemma WrittenStep(t: Table, series: string, count: nat, h: nat, e: nat, i: nat, w: Option<Writer>)
    requires Placed(t, series, h, e) && i < |t| && w == Written(t, series, count, i)
    requires OnTheWay(t, series, count, h, e, i, w)
    ensures OnTheWay(t, series, count, h, e, i + 1, Written(t, series, count, i + 1))
  {
    if w.Some? {
      TurnKeeps(t, series, count, h, e, i, w.value);
      assert Written(t, series, count, i + 1) == Turn(w.value, t[i], series, count);
    } else {
      assert Written(t, series, count, i + 1) == None;
    }
  }

  lemma WrittenStarts(t: Table, series: string, count: nat, h: nat, e: nat)
    requires Placed(t, series, h, e)
    ensures OnTheWay(t, series, count, h, e, 0, Written(t, series, count, 0))
  {
    assert t[..0] == [];
  }

  lemma {:induction false} WrittenIs(t: Table, series: string, count: nat, h: nat, e: nat, i: nat)
    requires Placed(t, series, h, e) && i <= |t|
    ensures OnTheWay(t, series, count, h, e, i, Written(t, series, count, i))
  {
    if i > 0 {
      WrittenIs(t, series, count, h, e, i - 1);
      WrittenStep(t, series, count, h, e, i - 1, Written(t, series, count, i - 1));
    } else {
      WrittenStarts(t, series, count, h, e);
    }
  }

  /** What the generator's end makes of a state. */
  function Finished(w: Writer, series: string, count: nat): Option<Table>
    requires w.inWanted ==> w.last.Some?
  {
    if w.inWanted then
      match Handed(w, series, count)
      case None => None
      case Some(w') => Some(w'.out)
    else if w.yielded then Some(w.out)
    else None
  }

  /** When the rows are used up inside the block, the new rows go last. */
  lemma EndsInside(t: Table, series: string, count: nat, h: nat, w: Writer)
    requires Placed(t, series, h, |t|) && h < |t|
    requires Inside(t, series, h, |t|, w)
    ensures Finished(w, series, count) == Extended(t, series, count)
  {
    var front := Front(t, series, count, h, |t|);
    assert front.Some? ==> front.value + t[|t|..] == front.value;
  }

  lemma EndsPast(t: Table, series: string, count: nat, h: nat, e: nat, w: Writer)
    requires Placed(t, series, h, e) && h < e < |t|
    requires Past(t, series, count, h, e, |t|, w)
    ensures Finished(w, series, count) == Extended(t, series, count)
  {
    assert t[e..|t|] == t[e..];
  }

  /** When the rows are used up, the outcome is the one specified. */
  lemma WritingEnds(t: Table, series: string, count: nat, h: nat, e: nat, w: Writer)
    requires Placed(t, series, h, e)
    requires Writing(t, series, count, h, e, |t|, w)
    ensures Finished(w, series, count) == Extended(t, series, count)
  {
    if h == |t| {
      assert Finished(w, series, count) == None;
    } else if e == |t| {
      EndsInside(t, series, count, h, w);
    } else {
      EndsPast(t, series, count, h, e, w);
    }
  }

  /** The hand-out as the program does it. */
  method HandOut(w: Writer, series: string, count: int) returns (r: Option<Writer>)
    requires w.last.Some?
    ensures r == Handed(w, series, if count < 0 then 0 else count)
  {
    if w.yielded {
      return None;
    }
    var rows := WriteNewRows(series, w.last.value, count);
    if rows.None? {
      return None;
    }
    r := Some(w.(out := w.out + rows.value, inWanted := false, yielded := true));
  }

  method WriteRow(w: Writer, original: Row, series: string, count: int) returns (r: Option<Writer>)
    requires w.inWanted ==> w.last.Some?
    ensures r == Turn(w, original, series, if count < 0 then 0 else count)
  {
    var state, row := w, original;
    if state.inWanted && row.header != "" {
      var handed := HandOut(state, series, count);
      if handed.None? {
        return None;
      }
      state := handed.value;
    }
    if row.header == series {
      state := state.(inWanted := true);
    }
    if state.inWanted && IsEndNote(row.note, series) {
      row := row.(note := Some(""));
    }
    r := Some(state.(last := Some(row), out := state.out + [row]));
  }

  /** `extend`, for any series name. The generator hands out its last row where the block ends, and again if the header
      comes a second time, which fails; if the header never comes it hands out nothing, which fails too. */
  method Extend(t: Table, series: string, count: int) returns (r: Option<Table>)
    ensures r == Extended(t, series, if count < 0 then 0 else count)
  {
    ghost var n := if count < 0 then 0 else count;
    ghost var h := HeaderOf(t, series);
    ghost var e := if h < |t| then BlockEnd(t, h) else |t|;
    var w := Writer([], false, false, None);
    for i := 0 to |t|
      invariant Written(t, series, n, i) == Some(w)
    {
      var next := WriteRow(w, t[i], series, count);
      if next.None? {
        WrittenIs(t, series, n, h, e, i + 1);
        return None;
      }
      w := next.value;
    }
    WrittenIs(t, series, n, h, e, |t|);
    WritingEnds(t, series, n, h, e, w);
    r := Finish(w, series, count);
  }

  method Finish(w: Writer, series: string, count: int) returns (r: Option<Table>)
    requires w.inWanted ==> w.last.Some?
    ensures r == Finished(w, series, if count < 0 then 0 else count)
  {
    var state := w;
    if state.inWanted {
      var handed := HandOut(state, series, count);
      if handed.None? {
        return None;
      }
      state := handed.value;
    }
    if !state.yielded {
      return None;
    }
    r := Some(state.out);
  }
}
