/** Proleptic Gregorian calendar arithmetic, as JavaScript's `Date` performs it
    on local calendar dates: the leap-year rule, month lengths, day numbers
    counted from 1970-01-01, weekdays, and the normalisation that
    `new Date(y, m, d)` and `Date.prototype.setMonth` apply to months and days
    outside their ranges. Time of day and time zones are not modelled. */
module Gregorian {

  /** The Gregorian leap-year rule (RFC 3339, appendix C). */
  predicate IsLeapYear(y: int) {
    y % 4 == 0 && (y % 100 != 0 || y % 400 == 0)
  }

  function DaysInYear(y: int): int {
    if IsLeapYear(y) then 366 else 365
  }

  /** Length of month `m0` (0 is January) of year `y`: the table of
      RFC 3339, section 5.7. */
  function DaysInMonth(y: int, m0: int): int
    requires 0 <= m0 < 12
  {
    if m0 == 1 then (if IsLeapYear(y) then 29 else 28)
    else if m0 == 3 || m0 == 5 || m0 == 8 || m0 == 10 then 30
    else 31
  }

  /** Days of year `y` before the first of month `m0`, summing the month
      lengths; `m0 == 12` gives the whole year. */
  function DaysBeforeMonth(y: int, m0: int): (n: int)
    requires 0 <= m0 <= 12
    ensures 28 * m0 <= n <= 31 * m0
  {
    if m0 == 0 then 0 else DaysBeforeMonth(y, m0 - 1) + DaysInMonth(y, m0 - 1)
  }

  /** Day number of January 1st of year `y`, counted from 1970-01-01, by
      walking whole years from 1970. */
  function DayFromYear(y: int): int
    decreases if y < 1970 then 1970 - y else y - 1970
  {
    if y == 1970 then 0
    else if y > 1970 then DayFromYear(y - 1) + DaysInYear(y - 1)
    else DayFromYear(y + 1) - DaysInYear(y)
  }

  /** ECMA-262 DayFromYear: the closed form with floor divisions (`/` is
      floor division for a positive divisor). */
  function DayFromYearFormula(y: int): int {
    365 * (y - 1970) + (y - 1969) / 4 - (y - 1901) / 100 + (y - 1601) / 400
  }

  /** A calendar date with a 0-based month, as `getFullYear`, `getMonth` and
      `getDate` report it; the fields need not be in range. */
  datatype Ymd = Ymd(year: int, month0: int, day: int)

  /** A JavaScript `Date` always holds a normalised calendar date: the
      month is in 0..11 and the day exists in that month. */
  type Date = d: Ymd | 0 <= d.month0 < 12 && 1 <= d.day <= DaysInMonth(d.year, d.month0)
    witness Ymd(1970, 0, 1)

  /** Day number of `(year, month0, day)` counted from 1970-01-01; the day may be
      out of range, as in ECMA-262 MakeDay. */
  function DaysFromEpoch(d: Ymd): int
    requires 0 <= d.month0 < 12
  {
    DayFromYear(d.year) + DaysBeforeMonth(d.year, d.month0) + d.day - 1
  }

  lemma MonthStep(y: int, m0: int)
    requires 0 <= m0 < 12
    ensures DaysBeforeMonth(y, m0 + 1) == DaysBeforeMonth(y, m0) + DaysInMonth(y, m0)
  {
  }

  /** The sums agree with the cumulative table of ECMA-262 (section
      MonthFromTime): 0, 31, 59, 90, ... 334, 365, plus one from March on in
      a leap year. */
  lemma CumulativeTable(y: int, m0: int)
    requires 0 <= m0 <= 12
    ensures DaysBeforeMonth(y, m0) ==
      [0, 31, 59, 90, 120, 151, 181, 212, 243, 273, 304, 334, 365][m0] +
      (if m0 >= 2 && IsLeapYear(y) then 1 else 0)
    decreases m0
  {
    if m0 > 0 {
      CumulativeTable(y, m0 - 1);
    }
  }

  /** The twelve months make up the year. */
  lemma WholeYear(y: int)
    ensures DaysBeforeMonth(y, 12) == DaysInYear(y)
  {
    CumulativeTable(y, 12);
  }

  lemma {:induction false} MonthsAscend(y: int, m0: int)
    requires 0 <= m0 <= 12
    ensures DaysBeforeMonth(y, m0) <= DaysBeforeMonth(y, 12)
    decreases 12 - m0
  {
    if m0 < 12 {
      MonthsAscend(y, m0 + 1);
    }
  }

  /** Consecutive years are DaysInYear apart. */
  lemma YearStep(y: int)
    ensures DayFromYear(y + 1) == DayFromYear(y) + DaysInYear(y)
  {
  }

  /** The year walk agrees with the ECMA-262 closed form: the floor terms
      grow exactly at the leap years. */
  lemma {:induction false} DayFromYearMatchesFormula(y: int)
    ensures DayFromYear(y) == DayFromYearFormula(y)
    decreases if y < 1970 then 1970 - y else y - 1970
  {
    if y > 1970 {
      DayFromYearMatchesFormula(y - 1);
      FormulaStep(y - 1);
    } else if y < 1970 {
      DayFromYearMatchesFormula(y + 1);
      FormulaStep(y);
    }
  }

  lemma FormulaStep(y: int)
    ensures DayFromYearFormula(y + 1) == DayFromYearFormula(y) + DaysInYear(y)
  {
    FloorStep4(y - 1969);
    FloorStep100(y - 1901);
    FloorStep400(y - 1601);
    LeapByDivisors(y);
  }

  /** The leap-year rule as the floor formula counts it: one day for a
      multiple of 4, minus one for a multiple of 100, plus one for a
      multiple of 400. */
  lemma LeapByDivisors(y: int)
    ensures DaysInYear(y) == 365 + (if y % 4 == 0 then 1 else 0) - (if y % 100 == 0 then 1 else 0) +
      (if y % 400 == 0 then 1 else 0)
  {
    CenturiesDivideBy4(y);
    QuadCenturiesDivideBy100(y);
  }

  lemma CenturiesDivideBy4(y: int)
    ensures y % 100 == 0 ==> y % 4 == 0
  {
    if y % 100 == 0 {
      assert y == 4 * (25 * (y / 100));
    }
  }

  lemma QuadCenturiesDivideBy100(y: int)
    ensures y % 400 == 0 ==> y % 100 == 0
  {
    if y % 400 == 0 {
      assert y == 100 * (4 * (y / 400));
    }
  }

  lemma FloorStep4(a: int)
    ensures (a + 1) / 4 == a / 4 + (if (a + 1) % 4 == 0 then 1 else 0)
    ensures (a + 1) % 4 == (a + 1969) % 4
  {
  }

  lemma FloorStep100(a: int)
    ensures (a + 1) / 100 == a / 100 + (if (a + 1) % 100 == 0 then 1 else 0)
    ensures (a + 1) % 100 == (a + 1901) % 100
  {
  }

  lemma FloorStep400(a: int)
    ensures (a + 1) / 400 == a / 400 + (if (a + 1) % 400 == 0 then 1 else 0)
    ensures (a + 1) % 400 == (a + 1601) % 400
  {
  }

  /** The first day of month `m0` is DaysInMonth days after the first day of the
      month before; together with YearStep this walks the calendar month by month. */
  lemma NextMonthFirstDay(y: int, m0: int)
    requires 0 <= m0 < 12
    ensures m0 < 11 ==> DaysFromEpoch(Ymd(y, m0 + 1, 1)) == DaysFromEpoch(Ymd(y, m0, 1)) + DaysInMonth(y, m0)
    ensures m0 == 11 ==> DaysFromEpoch(Ymd(y + 1, 0, 1)) == DaysFromEpoch(Ymd(y, m0, 1)) + DaysInMonth(y, m0)
  {
    MonthStep(y, m0);
    YearStep(y);
    WholeYear(y);
  }

  /** The normalised date for `(y, m0, d)`: a day below 1 borrows from the
      months before, a day past the month's end carries into the months after.
      NormalizeDayNumber states what it computes. */
  function NormalizeDay(y: int, m0: int, d: int): Date
    requires 0 <= m0 < 12
    decreases if d < 1 then 1 - d else 0, d
  {
    if d < 1 then
      var py, pm := if m0 == 0 then y - 1 else y, if m0 == 0 then 11 else m0 - 1;
      NormalizeDay(py, pm, d + DaysInMonth(py, pm))
    else if d > DaysInMonth(y, m0) then
      var ny, nm := if m0 == 11 then y + 1 else y, if m0 == 11 then 0 else m0 + 1;
      NormalizeDay(ny, nm, d - DaysInMonth(y, m0))
    else
      Ymd(y, m0, d)
  }

  /** Normalisation keeps the day number: the result is the one valid date
      whose day number is that of `(y, m0, d)` (see DaysFromEpochInjective). */
  lemma {:induction false} NormalizeDayNumber(y: int, m0: int, d: int)
    requires 0 <= m0 < 12
    ensures DaysFromEpoch(NormalizeDay(y, m0, d)) == DaysFromEpoch(Ymd(y, m0, d))
    decreases if d < 1 then 1 - d else 0, d
  {
    if d < 1 {
      var py, pm := if m0 == 0 then y - 1 else y, if m0 == 0 then 11 else m0 - 1;
      NextMonthFirstDay(py, pm);
      NormalizeDayNumber(py, pm, d + DaysInMonth(py, pm));
    } else if d > DaysInMonth(y, m0) {
      var ny, nm := if m0 == 11 then y + 1 else y, if m0 == 11 then 0 else m0 + 1;
      NextMonthFirstDay(y, m0);
      NormalizeDayNumber(ny, nm, d - DaysInMonth(y, m0));
    }
  }

  /** The date ECMA-262 MakeDay(y, m, d) denotes: the month index is first
      reduced into the year (floor division), then the day is normalised.
      This is what `setMonth` computes, and what `new Date(y, m, d)`
      computes for years outside 0..99. */
  function NormalizeDate(y: int, m: int, d: int): Date {
    NormalizeDay(y + m / 12, m % 12, d)
  }

  lemma NormalizeDateNumber(y: int, m: int, d: int)
    ensures DaysFromEpoch(NormalizeDate(y, m, d)) == DaysFromEpoch(Ymd(y + m / 12, m % 12, d))
  {
    NormalizeDayNumber(y + m / 12, m % 12, d);
  }

  /** `new Date(y, m, d)`: as NormalizeDate, except that the constructor reads
      a year in 0..99 as 1900 + y (ECMA-262, the Date constructor). */
  function ConstructDate(y: int, m: int, d: int): Date {
    NormalizeDate(if 0 <= y <= 99 then 1900 + y else y, m, d)
  }

  /** Every valid date lies inside its own year's range of day numbers. */
  lemma DayWithinYear(d: Date)
    ensures DayFromYear(d.year) <= DaysFromEpoch(d) < DayFromYear(d.year) + DaysInYear(d.year)
  {
    MonthStep(d.year, d.month0);
    MonthsAscend(d.year, d.month0 + 1);
    WholeYear(d.year);
  }

  lemma {:induction false} YearsAscend(y1: int, y2: int)
    requires y1 < y2
    ensures DayFromYear(y1) + DaysInYear(y1) <= DayFromYear(y2)
    decreases y2 - y1
  {
    YearStep(y1);
    if y1 + 1 < y2 {
      YearsAscend(y1 + 1, y2);
    }
  }

  /** Distinct valid dates have distinct day numbers. */
  lemma {:induction false} DaysFromEpochInjective(a: Date, b: Date)
    requires DaysFromEpoch(a) == DaysFromEpoch(b)
    ensures a == b
  {
    DayWithinYear(a);
    DayWithinYear(b);
    if a.year < b.year {
      YearsAscend(a.year, b.year);
    } else if b.year < a.year {
      YearsAscend(b.year, a.year);
    }
    SameYearInjective(a, b);
  }

  lemma SameYearInjective(a: Date, b: Date)
    requires a.year == b.year && DaysFromEpoch(a) == DaysFromEpoch(b)
    ensures a == b
  {
    if a.month0 < b.month0 {
      MonthsAscendStrictly(a.year, a.month0, b.month0);
    } else if b.month0 < a.month0 {
      MonthsAscendStrictly(a.year, b.month0, a.month0);
    }
  }

  /** Every day of month `m1` comes before the first of a later month `m2`. */
  lemma {:induction false} MonthsAscendStrictly(y: int, m1: int, m2: int)
    requires 0 <= m1 < m2 <= 12
    ensures DaysBeforeMonth(y, m1) + DaysInMonth(y, m1) <= DaysBeforeMonth(y, m2)
    decreases m2 - m1
  {
    if m1 + 1 < m2 {
      MonthsAscendStrictly(y, m1 + 1, m2);
    }
  }

  /** A normalisation whose input is already a valid date returns it unchanged. */
  lemma NormalizeValid(y: int, m: int, d: int)
    requires 0 <= m < 12 && 1 <= d <= DaysInMonth(y, m)
    ensures NormalizeDay(y, m, d) == Ymd(y, m, d)
    ensures NormalizeDate(y, m, d) == Ymd(y, m, d)
  {
    assert m / 12 == 0 && m % 12 == m;
  }

  /** A day past the end of a month carries into the next month. */
  lemma NormalizeOverflow(y: int, m0: int, d: int)
    requires 0 <= m0 < 12
    requires DaysInMonth(y, m0) < d <= DaysInMonth(y, m0) + 28
    ensures var r := NormalizeDay(y, m0, d);
      12 * r.year + r.month0 == 12 * y + m0 + 1 && r.day == d - DaysInMonth(y, m0)
  {
    var ny, nm := if m0 == 11 then y + 1 else y, if m0 == 11 then 0 else m0 + 1;
    NextMonthFirstDay(y, m0);
    var c: Date := Ymd(ny, nm, d - DaysInMonth(y, m0));
    NormalizeDayNumber(y, m0, d);
    DaysFromEpochInjective(NormalizeDay(y, m0, d), c);
  }

  /** Day 0 of the month after `m0` is the last day of `m0`. */
  lemma DayZeroIsLastDay(y: int, m0: int)
    requires 0 <= m0 < 12
    ensures NormalizeDate(y, m0 + 1, 0) == Ymd(y, m0, DaysInMonth(y, m0))
  {
    var ny, nm := if m0 == 11 then y + 1 else y, if m0 == 11 then 0 else m0 + 1;
    assert y + (m0 + 1) / 12 == ny && (m0 + 1) % 12 == nm;
    assert NormalizeDate(y, m0 + 1, 0) == NormalizeDay(ny, nm, 0);
    DayZeroBorrows(y, m0, ny, nm);
  }

  lemma DayZeroBorrows(y: int, m0: int, ny: int, nm: int)
    requires 0 <= m0 < 12
    requires ny == (if m0 == 11 then y + 1 else y) && nm == (if m0 == 11 then 0 else m0 + 1)
    ensures NormalizeDay(ny, nm, 0) == Ymd(y, m0, DaysInMonth(y, m0))
  {
    NextMonthFirstDay(y, m0);
    NormalizeDayNumber(ny, nm, 0);
    DaysFromEpochInjective(NormalizeDay(ny, nm, 0), Ymd(y, m0, DaysInMonth(y, m0)));
  }

  /** The date with day number `n`. */
  function DateFromDays(n: int): Date {
    NormalizeDay(1970, 0, n + 1)
  }

  /** DateFromDays and DaysFromEpoch are inverse bijections between day
      numbers and valid dates. */
  lemma DateFromDaysRoundTrip(n: int, d: Date)
    ensures DaysFromEpoch(DateFromDays(n)) == n
    ensures DateFromDays(DaysFromEpoch(d)) == d
  {
    NormalizeDayNumber(1970, 0, n + 1);
    NormalizeDayNumber(1970, 0, DaysFromEpoch(d) + 1);
    DaysFromEpochInjective(DateFromDays(DaysFromEpoch(d)), d);
  }

  /** `getDay()`: ECMA-262 WeekDay, 0 is Sunday; 1970-01-01 was a Thursday. */
  function JsWeekday(d: Date): (w: int)
    ensures 0 <= w < 7
  {
    (DaysFromEpoch(d) + 4) % 7
  }

  /** Weekday with Monday as 0 and Sunday as 6, the column order of the grid. */
  function MondayFirstWeekday(d: Date): (w: int)
    ensures 0 <= w < 7
  {
    (DaysFromEpoch(d) + 3) % 7
  }

  /** The two weekday numberings differ by one place, Sunday wrapping to 6. */
  lemma MondayFirstFromSundayFirst(d: Date)
    ensures MondayFirstWeekday(d) == if JsWeekday(d) == 0 then 6 else JsWeekday(d) - 1
  {
    NextPlace(DaysFromEpoch(d) + 3);
  }

  lemma NextPlace(a: int)
    ensures (a + 1) % 7 == if a % 7 == 6 then 0 else a % 7 + 1
  {
  }

  /** Consecutive days of a month fall on consecutive weekdays. */
  lemma WeekdayOfDay(y: int, m0: int, d: int)
    requires 0 <= m0 < 12 && 1 <= d <= DaysInMonth(y, m0)
    ensures MondayFirstWeekday(Ymd(y, m0, d)) == (MondayFirstWeekday(Ymd(y, m0, 1)) + d - 1) % 7
  {
    var n := DaysFromEpoch(Ymd(y, m0, 1));
    ShiftPlace(DaysFromEpoch(Ymd(y, m0, d)), n, d - 1);
  }

  lemma ShiftPlace(x: int, n: int, k: int)
    requires x == n + k
    ensures (x + 3) % 7 == ((n + 3) % 7 + k) % 7
  {
  }

  /** Anchors: 2024-01-01 was a Monday and 1970-01-01 a Thursday. */
  lemma KnownWeekdays()
    ensures MondayFirstWeekday(Ymd(2024, 0, 1)) == 0
    ensures JsWeekday(Ymd(1970, 0, 1)) == 4
  {
    DayFromYearMatchesFormula(2024);
    assert DaysFromEpoch(Ymd(2024, 0, 1)) == 19723;
  }
}
