/** Dates of the proleptic Gregorian calendar, and the two date computations of the release calendar. */
module Dates {

  import opened Options
  import opened Decimal

  datatype Date = Date(year: nat, month: nat, day: nat)

  predicate IsLeap(year: nat) {
    year % 4 == 0 && (year % 100 != 0 || year % 400 == 0)
  }

  function DaysInMonth(year: nat, month: nat): nat
    requires 1 <= month <= 12
  {
    if month == 2 then (if IsLeap(year) then 29 else 28)
    else if month == 4 || month == 6 || month == 9 || month == 11 then 30
    else 31
  }

  predicate IsDate(d: Date) {
    d.year >= 1 && 1 <= d.month <= 12 && 1 <= d.day <= DaysInMonth(d.year, d.month)
  }

  /** Days before the first of January of a year, counting from the year 1. */
  function DaysBeforeYear(year: nat): int
    requires year >= 1
  {
    var y := year - 1;
    y * 365 + y / 4 - y / 100 + y / 400
  }

  function DaysBeforeMonth(year: nat, month: nat): nat
    requires 1 <= month <= 12
  {
    if month == 1 then 0 else DaysBeforeMonth(year, month - 1) + DaysInMonth(year, month - 1)
  }

  /** The day number of a date; January 1 of year 1 is day 1. */
  function Ordinal(d: Date): int
    requires IsDate(d)
  {
    DaysBeforeYear(d.year) + DaysBeforeMonth(d.year, d.month) + d.day
  }

  /** Monday is 1 and Sunday 7. */
  function IsoWeekday(d: Date): (w: nat)
    requires IsDate(d)
    ensures 1 <= w <= 7
  {
    WeekdayOf(Ordinal(d))
  }

  function WeekdayOf(ordinal: int): (w: nat)
    ensures 1 <= w <= 7 && (ordinal - w) % 7 == 0
  {
    if ordinal % 7 == 0 then 7 else ordinal % 7
  }

  lemma {:induction false} WeekdayAfterWeeks(ordinal: int, weeks: nat)
    ensures WeekdayOf(ordinal + 7 * weeks) == WeekdayOf(ordinal)
  {
    if weeks > 0 {
      WeekdayAfterWeeks(ordinal, weeks - 1);
    }
  }

  const WEDNESDAY := 3

  predicate IsWednesday(d: Date)
    requires IsDate(d)
  {
    IsoWeekday(d) == WEDNESDAY
  }

  function NextDay(d: Date): (n: Date)
    requires IsDate(d)
    ensures IsDate(n)
  {
    if d.day < DaysInMonth(d.year, d.month) then d.(day := d.day + 1)
    else if d.month < 12 then Date(d.year, d.month + 1, 1)
    else Date(d.year + 1, 1, 1)
  }

  /** `date + timedelta(days=n)`, one day at a time. */
  function AddDays(d: Date, n: nat): (r: Date)
    requires IsDate(d)
    ensures IsDate(r)
  {
    if n == 0 then d else NextDay(AddDays(d, n - 1))
  }

  lemma QuotientSteps(y: nat)
    ensures (y + 1) / 4 == y / 4 + if (y + 1) % 4 == 0 then 1 else 0
    ensures (y + 1) / 100 == y / 100 + if (y + 1) % 100 == 0 then 1 else 0
    ensures (y + 1) / 400 == y / 400 + if (y + 1) % 400 == 0 then 1 else 0
  {
  }

  lemma MultiplesOf400(year: nat)
    ensures year % 400 == 0 ==> year % 100 == 0
    ensures year % 100 == 0 ==> year % 4 == 0
  {
    if year % 400 == 0 {
      assert year == 100 * (4 * (year / 400));
    }
    if year % 100 == 0 {
      assert year == 4 * (25 * (year / 100));
    }
  }

  lemma YearLength(year: nat)
    requires year >= 1
    ensures DaysBeforeYear(year + 1) == DaysBeforeYear(year) + if IsLeap(year) then 366 else 365
  {
    QuotientSteps(year - 1);
    MultiplesOf400(year);
  }

  lemma MonthsOfYear(year: nat)
    ensures DaysBeforeMonth(year, 12) == if IsLeap(year) then 335 else 334
  {
    assert DaysBeforeMonth(year, 2) == 31;
    assert DaysBeforeMonth(year, 3) == 31 + DaysInMonth(year, 2);
    assert DaysBeforeMonth(year, 5) == DaysBeforeMonth(year, 3) + 61;
    assert DaysBeforeMonth(year, 7) == DaysBeforeMonth(year, 5) + 61;
    assert DaysBeforeMonth(year, 9) == DaysBeforeMonth(year, 7) + 62;
    assert DaysBeforeMonth(year, 11) == DaysBeforeMonth(year, 9) + 61;
  }

  /** The day after a date has the next day number, across months, years and leap days. */
  lemma OrdinalOfNext(d: Date)
    requires IsDate(d)
    ensures Ordinal(NextDay(d)) == Ordinal(d) + 1
  {
    if d.day == DaysInMonth(d.year, d.month) && d.month == 12 {
      YearLength(d.year);
      MonthsOfYear(d.year);
    }
  }

  lemma {:induction false} OrdinalOfAddDays(d: Date, n: nat)
    requires IsDate(d)
    ensures Ordinal(AddDays(d, n)) == Ordinal(d) + n
  {
    if n > 0 {
      OrdinalOfAddDays(d, n - 1);
      OrdinalOfNext(AddDays(d, n - 1));
    }
  }

  lemma {:induction false} AddDaysAdds(d: Date, m: nat, n: nat)
    requires IsDate(d)
    ensures AddDays(AddDays(d, m), n) == AddDays(d, m + n)
  {
    if n > 0 {
      AddDaysAdds(d, m, n - 1);
    }
  }

  /** Whole weeks later it is the same day of the week. */
  lemma WeeksKeepWeekday(d: Date, weeks: nat)
    requires IsDate(d)
    ensures IsoWeekday(AddDays(d, 7 * weeks)) == IsoWeekday(d)
  {
    OrdinalOfAddDays(d, 7 * weeks);
    WeekdayAfterWeeks(Ordinal(d), weeks);
  }

  // ----- day numbers identify dates

  predicate Before(a: Date, b: Date) {
    a.year < b.year || (a.year == b.year && (a.month < b.month || (a.month == b.month && a.day < b.day)))
  }

  lemma {:induction false} YearsGrow(a: nat, b: nat)
    requires 1 <= a < b
    ensures DaysBeforeYear(a) + 365 <= DaysBeforeYear(b)
    ensures IsLeap(a) ==> DaysBeforeYear(a) + 366 <= DaysBeforeYear(b)
    decreases b - a
  {
    YearLength(a);
    if a + 1 < b {
      YearsGrow(a + 1, b);
    }
  }

  lemma {:induction false} MonthsGrow(year: nat, a: nat, b: nat)
    requires 1 <= a < b <= 12
    ensures DaysBeforeMonth(year, a) + DaysInMonth(year, a) <= DaysBeforeMonth(year, b)
    decreases b - a
  {
    if a + 1 < b {
      MonthsGrow(year, a, b - 1);
    }
  }

  /** Earlier dates have smaller day numbers, so a day number determines its date. */
  lemma OrdinalIsMonotone(a: Date, b: Date)
    requires IsDate(a) && IsDate(b)
    ensures Before(a, b) <==> Ordinal(a) < Ordinal(b)
    ensures Ordinal(a) == Ordinal(b) <==> a == b
  {
    if Before(a, b) {
      BeforeHasSmallerOrdinal(a, b);
    } else if Before(b, a) {
      BeforeHasSmallerOrdinal(b, a);
    }
  }

  lemma BeforeHasSmallerOrdinal(a: Date, b: Date)
    requires IsDate(a) && IsDate(b) && Before(a, b)
    ensures Ordinal(a) < Ordinal(b)
  {
    if a.year < b.year {
      YearsGrow(a.year, b.year);
      MonthsOfYear(a.year);
      if a.month < 12 {
        MonthsGrow(a.year, a.month, 12);
      }
    } else if a.month < b.month {
      MonthsGrow(a.year, a.month, b.month);
    }
  }

  // ----- release dates

  /** `date.fromisoformat` on texts of the form YYYY-MM-DD; `None` stands for its ValueError. */
  function FromIso(s: string): Option<Date> {
    if |s| == 10 && s[4] == '-' && s[7] == '-' && AllDigits(s[..4]) && AllDigits(s[5..7]) && AllDigits(s[8..]) then
      var d := Date(Value(s[..4]), Value(s[5..7]), Value(s[8..]));
      if IsDate(d) then Some(d) else None
    else None
  }

  /** The first months of the four quarters. */
  function QuarterMonth(minor: nat): nat
    requires minor < 4
  {
    [1, 4, 7, 10][minor]
  }

  /** The text in which the month is formatted after a fixed zero. */
  function QuarterText(major: string, month: nat): string {
    "20" + major + "-0" + Print(month) + "-01"
  }

  predicate TwoDigits(s: string) {
    |s| == 2 && AllDigits(s)
  }

  lemma ValueOfTwo(s: string)
    requires TwoDigits(s)
    ensures Value(s) == 10 * DigitValue(s[0]) + DigitValue(s[1])
  {
    var front := s[..1];
    assert front[..0] == [] && front[0] == s[0];
    assert Value(front) == DigitValue(s[0]);
  }

  lemma ValueOfFour(s: string, t: string)
    requires TwoDigits(s) && TwoDigits(t)
    ensures AllDigits(s + t) && Value(s + t) == 100 * Value(s) + Value(t)
  {
    ValueOfTwo(t);
    var front := s + [t[0]];
    assert (s + t)[..3] == front;
    assert front[..2] == s;
    assert Value(front) == 10 * Value(s) + DigitValue(t[0]);
  }

  lemma QuarterTextParts(major: string, month: nat)
    requires 1 <= month <= 9 && |major| == 2
    ensures var s := QuarterText(major, month);
            && |s| == 10 && s[4] == '-' == s[7]
            && s[..4] == "20" + major && s[5..7] == ['0', Digit(month)] && s[8..] == "01"
  {
    assert Print(month) == [Digit(month)];
  }

  lemma ShortQuarterText(major: string, month: nat)
    requires 1 <= month <= 9 && TwoDigits(major)
    ensures FromIso(QuarterText(major, month)) == Some(Date(2000 + Value(major), month, 1))
  {
    QuarterTextParts(major, month);
    ReadYear(major);
    ReadMonth(month);
    ReadFirst();
    FromIsoIs(QuarterText(major, month), "20" + major, ['0', Digit(month)], "01", 2000 + Value(major), month, 1);
  }

  lemma ReadYear(major: string)
    requires TwoDigits(major)
    ensures AllDigits("20" + major) && Value("20" + major) == 2000 + Value(major)
  {
    ValueOfTwo("20");
    ValueOfFour("20", major);
  }

  lemma ReadMonth(month: nat)
    requires month <= 9
    ensures AllDigits(['0', Digit(month)]) && Value(['0', Digit(month)]) == month
  {
    ValueOfTwo(['0', Digit(month)]);
  }

  lemma ReadFirst()
    ensures AllDigits("01") && Value("01") == 1
  {
    ValueOfTwo("01");
  }

  lemma FromIsoIs(s: string, y: string, m: string, d: string, year: nat, month: nat, day: nat)
    requires |s| == 10 && s[4] == '-' == s[7] && s[..4] == y && s[5..7] == m && s[8..] == d
    requires AllDigits(y) && AllDigits(m) && AllDigits(d) && IsDate(Date(year, month, day))
    requires Value(y) == year && Value(m) == month && Value(d) == day
    ensures FromIso(s) == Some(Date(year, month, day))
  {
  }

  lemma OtherQuarterText(major: string, month: nat)
    requires 1 <= month <= 99 && (month > 9 || !TwoDigits(major))
    ensures FromIso(QuarterText(major, month)) == None
  {
    var s := QuarterText(major, month);
    if month <= 9 {
      assert |s| == 8 + |major|;
      if |major| == 2 {
        var k :| 0 <= k < 2 && !IsDigit(major[k]);
        assert s[..4][2 + k] == major[k];
      }
    } else {
      assert Print(month) == [Digit(month / 10)] + [Digit(month % 10)];
      assert |s| == 9 + |major|;
      if |major| == 1 {
        assert s[..4][3] == '-';
      }
    }
  }

  /** The Wednesday of the week in which the quarter begins, two weeks on. */
  function StartOf(major: nat, minor: nat): (d: Date)
    requires minor < 3
    ensures IsDate(d)
  {
    var first := FirstOfQuarter(major, minor);
    first.(day := 18 - IsoWeekday(first))
  }

  function FirstOfQuarter(major: nat, minor: nat): (d: Date)
    requires minor < 4
    ensures IsDate(d)
  {
    Date(2000 + major, QuarterMonth(minor), 1)
  }

  /** The start for a version as the version file spells it: two digits, and the number of one of the first three
      quarters. Any other version has none. */
  function StartFor(major: string, minor: string): Option<Date> {
    match Parse(minor)
    case None => None
    case Some(m) => if TwoDigits(major) && m < 3 then Some(StartOf(Value(major), m)) else None
  }

  /** `_calculate_release_start`. It fails when there is no such quarter, when the major number does not have two
      digits, and for the fourth quarter, whose month is formatted with a zero too many. */
  method ReleaseStart(major: string, minor: string) returns (start: Option<Date>)
    ensures start == StartFor(major, minor)
  {
    var m := Parse(minor);
    if m.None? || m.value >= 4 {
      return None;
    }
    var month := [1, 4, 7, 10][m.value];
    var parsed := FromIso("20" + major + "-0" + Print(month) + "-01");
    if parsed.None? {
      ShortQuarterFails(major, month);
      return None;
    }
    QuarterParses(major, month);
    var quarter := parsed.value;
    var day := IsoWeekday(quarter);
    if day > 3 {
      return Some(quarter.(day := quarter.day - day + 3 + 14));
    } else if day < 3 {
      quarter := quarter.(day := quarter.day + 3 - day);
    }
    start := Some(quarter.(day := quarter.day + 14));
  }

  lemma QuarterParses(major: string, month: nat)
    requires 1 <= month <= 99 && FromIso(QuarterText(major, month)).Some?
    ensures TwoDigits(major) && month <= 9
    ensures FromIso(QuarterText(major, month)).value == Date(2000 + Value(major), month, 1)
  {
    if month > 9 || !TwoDigits(major) {
      OtherQuarterText(major, month);
    } else {
      ShortQuarterText(major, month);
    }
  }

  lemma ShortQuarterFails(major: string, month: nat)
    requires 1 <= month <= 99 && FromIso(QuarterText(major, month)).None?
    ensures month > 9 || !TwoDigits(major)
  {
    if month <= 9 && TwoDigits(major) {
      ShortQuarterText(major, month);
    }
  }

  /** For every year and every weekday the quarter begins on, the release starts on a Wednesday of that quarter's first
      month, between the 11th and the 17th. */
  lemma StartIsWednesday(major: nat, minor: nat)
    requires minor < 3
    ensures var d := StartOf(major, minor);
            && IsWednesday(d) && d.year == 2000 + major && 11 <= d.day <= 17
            && (minor == 0 ==> d.month == 1) && (minor == 1 ==> d.month == 4) && (minor == 2 ==> d.month == 7)
  {
    var first := FirstOfQuarter(major, minor);
    assert Ordinal(StartOf(major, minor)) == Ordinal(first) - IsoWeekday(first) + 17;
    WednesdayOfWeek(Ordinal(first), 2);
  }

  /** The date is the `n`th Wednesday of its month. */
  predicate IsNthWednesday(d: Date, n: nat)
    requires IsDate(d)
  {
    IsWednesday(d) && 7 * (n - 1) < d.day <= 7 * n
  }

  /** The release starts on the second Wednesday of its month, as documented, exactly when the month begins after a
      Wednesday; otherwise on the third. */
  lemma SecondWednesdayIff(major: nat, minor: nat)
    requires minor < 3
    ensures var d, first := StartOf(major, minor), FirstOfQuarter(major, minor);
            && (IsNthWednesday(d, 2) <==> IsoWeekday(first) > WEDNESDAY)
            && (IsNthWednesday(d, 3) <==> IsoWeekday(first) <= WEDNESDAY)
  {
    StartIsWednesday(major, minor);
  }

  /** The first candidate of 24.0 falls on the third Wednesday of January 2024, the 17th. */
  lemma ThirdWednesdayStart()
    ensures StartOf(24, 0) == Date(2024, 1, 17)
    ensures IsNthWednesday(StartOf(24, 0), 3) && !IsNthWednesday(StartOf(24, 0), 2)
  {
    assert Ordinal(FirstOfQuarter(24, 0)) == 738886;
    assert IsoWeekday(FirstOfQuarter(24, 0)) == 1;
    SecondWednesdayIff(24, 0);
  }

  /** The Wednesday of the week of `today`, one or two weeks on. */
  function NextRelease(today: Date, nextIsZero: bool): (d: Date)
    requires IsDate(today)
    ensures IsDate(d)
  {
    AddDays(today, WEDNESDAY - IsoWeekday(today) + if nextIsZero then 7 else 14)
  }

  /** `_calculate_next_release_date`, with `today` as an argument. */
  method NextReleaseDate(today: Date, nextIsZero: bool) returns (date: Date)
    requires IsDate(today)
    ensures date == NextRelease(today, nextIsZero)
  {
    var day: int := IsoWeekday(today);
    var delta: int;
    if day < 3 {
      delta := 3 - day;
    } else if day > 3 {
      delta := 3 - day;
    } else {
      delta := 0;
    }
    delta := delta + 7;
    if !nextIsZero {
      delta := delta + 7;
    }
    date := AddDays(today, delta);
  }

  /** From any day of a week the same Wednesday is found, a week or two ahead. */
  lemma NextReleaseIsWednesday(today: Date, nextIsZero: bool)
    requires IsDate(today)
    ensures IsWednesday(NextRelease(today, nextIsZero))
    ensures var gap := Ordinal(NextRelease(today, nextIsZero)) - Ordinal(today);
            if nextIsZero then 3 <= gap <= 9 else 10 <= gap <= 16
  {
    var weeks := if nextIsZero then 1 else 2;
    OrdinalOfAddDays(today, WEDNESDAY - IsoWeekday(today) + 7 * weeks);
    WednesdayOfWeek(Ordinal(today), weeks);
  }

  lemma WednesdayOfWeek(ordinal: int, weeks: nat)
    ensures WeekdayOf(ordinal - WeekdayOf(ordinal) + WEDNESDAY + 7 * weeks) == WEDNESDAY
  {
    WeekdayAfterWeeks(ordinal - WeekdayOf(ordinal) + WEDNESDAY, weeks);
  }

  // ----- the calendar itself

  /** The lengths of the twelve months. */
  lemma MonthLengths(year: nat)
    ensures seq(12, i requires 0 <= i < 12 => DaysInMonth(year, i + 1))
            == [31, if IsLeap(year) then 29 else 28, 31, 30, 31, 30, 31, 31, 30, 31, 30, 31]
  {
  }

  /** Four centuries have 97 leap days and are whole weeks, so the calendar repeats. */
  lemma FourCenturies(year: nat)
    requires year >= 1
    ensures DaysBeforeYear(year + 400) == DaysBeforeYear(year) + 400 * 365 + 97
    ensures IsLeap(year + 400) == IsLeap(year)
  {
    assert (year - 1 + 400) / 4 == (year - 1) / 4 + 100;
    assert (year - 1 + 400) / 100 == (year - 1) / 100 + 4;
    assert (year - 1 + 400) / 400 == (year - 1) / 400 + 1;
    assert (year + 400) % 4 == year % 4 && (year + 400) % 100 == year % 100 && (year + 400) % 400 == year % 400;
  }

  /** Dates whose weekday is known: 1 March 1900 and 1 January 1970 were Thursdays, 29 February 2000 a Tuesday. */
  lemma KnownWeekdays()
    ensures IsoWeekday(Date(1900, 3, 1)) == 4 && !IsLeap(1900)
    ensures IsoWeekday(Date(1970, 1, 1)) == 4
    ensures IsLeap(2000) && IsoWeekday(Date(2000, 2, 29)) == 2
  {
    assert DaysBeforeMonth(1900, 2) == 31 && DaysBeforeMonth(2000, 2) == 31;
  }
}
