/** The calendar arithmetic of JavaScript's `Date`, on integer day numbers:
    the abstract operations DayFromYear, MakeDay and WeekDay of the
    ECMAScript Language Specification, the two-digit-year rule of the `Date`
    constructor and `Date.prototype.setMonth`. Day numbers count days from 1970-01-01;
    the calendar is the proleptic Gregorian one. */
module Dates {

  /** A calendar date as the page reads it: `getFullYear()`, `getMonth()`
      (0 is January) and `getDate()`. */
  datatype Date = Date(year: int, month: int, day: int)

  predicate IsLeapYear(y: int)
  {
    y % 4 == 0 && (y % 100 != 0 || y % 400 == 0)
  }

  function DaysInYear(y: int): (r: int)
    ensures r == 365 || r == 366
    ensures r == 366 <==> IsLeapYear(y)
  {
    if IsLeapYear(y) then 366 else 365
  }

  /** The day number of January 1 of year `y`. */
  function DayFromYear(y: int): int
  {
    365 * (y - 1970) + (y - 1969) / 4 - (y - 1901) / 100 + (y - 1601) / 400
  }

  /** The length of month `m` (0-based) of year `y`. */
  function DaysInMonth(y: int, m: int): (r: int)
    requires 0 <= m < 12
    ensures 28 <= r <= 31
    ensures r < 30 <==> m == 1
  {
    if m == 1 then (if IsLeapYear(y) then 29 else 28)
    else if m == 3 || m == 5 || m == 8 || m == 10 then 30
    else 31
  }

  /** Days of year `y` before the first of month `m`. */
  function DaysBeforeMonth(y: int, m: int): int
    requires 0 <= m < 12
  {
    [0, 31, 59, 90, 120, 151, 181, 212, 243, 273, 304, 334][m]
      + (if m >= 2 && IsLeapYear(y) then 1 else 0)
  }

  /** MakeDay(year, month, date): month and date may lie outside their usual
      ranges; the month carries into the year and the date counts on from
      the first of the month. */
  function MakeDay(year: int, month: int, date: int): int
  {
    var ym := year + month / 12;
    var mn := month % 12;
    DayFromYear(ym) + DaysBeforeMonth(ym, mn) + date - 1
  }

  /** WeekDay: 0 is Sunday; 1970-01-01 was a Thursday. */
  function WeekDay(t: int): (r: int)
    ensures 0 <= r < 7
  {
    (t + 4) % 7
  }

  /** A real date: a month in 0..11 and a day within that month. */
  predicate ValidDate(d: Date)
  {
    0 <= d.month < 12 && 1 <= d.day <= DaysInMonth(d.year, d.month)
  }

  function DayNumber(d: Date): int
  {
    MakeDay(d.year, d.month, d.day)
  }

  /** The day of the week of a date, 0 being Sunday. */
  function DayOfWeek(d: Date): (r: int)
    ensures 0 <= r < 7
  {
    WeekDay(DayNumber(d))
  }

  /** The `Date` constructor reads years 0..99 as 1900..1999. */
  function MakeFullYear(year: int): (r: int)
    ensures 0 <= year <= 99 ==> r == 1900 + year
    ensures (year < 0 || year > 99) ==> r == year
  {
    if 0 <= year <= 99 then 1900 + year else year
  }

  /** A year in 1..99 and the year 1900 later have the same month lengths;
      year 0 is a leap year and 1900 is not. */
  lemma TwoDigitYearMonths(y: int, m: int)
    requires 0 <= y <= 99 && 0 <= m < 12
    ensures y != 0 ==> DaysInMonth(MakeFullYear(y), m) == DaysInMonth(y, m)
    ensures y == 0 ==> (DaysInMonth(MakeFullYear(y), m) == DaysInMonth(y, m) <==> m != 1)
  {
    if y != 0 {
      assert (1900 + y) % 4 == y % 4 && (1900 + y) % 100 == y && y % 100 == y;
    }
  }

  // ---------------------------------------------------------------------
  // Consistency of the day count with the month and year lengths

  /** Consecutive New Year's days lie a year's length apart. */
  lemma DayFromYearStep(y: int)
    ensures DayFromYear(y + 1) == DayFromYear(y) + DaysInYear(y)
  {
    FloorStep(y - 1969, 4, 1968);
    FloorStep(y - 1901, 100, 1900);
    FloorStep(y - 1601, 400, 1600);
  }

  /** `(x + 1) / k` exceeds `x / k` exactly when `k` divides `x + 1`;
      `x + 1` is `y - c` with `c` a multiple of `k`. */
  lemma FloorStep(x: int, k: int, c: int)
    requires k == 4 || k == 100 || k == 400
    requires c % k == 0
    ensures (x + 1) / k == x / k + (if (x + 1 + c) % k == 0 then 1 else 0)
  {
  }

  /** The day number of the first of month `m` (0..11) of year `y`. */
  function MonthStart(y: int, m: int): int
    requires 0 <= m < 12
  {
    DayFromYear(y) + DaysBeforeMonth(y, m)
  }

  /** The month after month `m` of year `y`, as a year and a month. */
  function NextMonth(y: int, m: int): (r: (int, int))
    requires 0 <= m < 12
    ensures 0 <= r.1 < 12
    ensures r.0 * 12 + r.1 == y * 12 + m + 1
  {
    if m == 11 then (y + 1, 0) else (y, m + 1)
  }

  /** A date whose month is in 0..11 lies `day - 1` days after its month's first. */
  lemma DayNumberInMonth(d: Date)
    requires 0 <= d.month < 12
    ensures DayNumber(d) == MonthStart(d.year, d.month) + d.day - 1
  {
    assert d.month / 12 == 0 && d.month % 12 == d.month;
  }

  /** The weekday of day `d` of a month is `d - 1` days on from the
      weekday of its first. */
  lemma WeekdayInMonth(y: int, m: int, d: int)
    requires 0 <= m < 12
    ensures DayOfWeek(Date(y, m, d)) == (WeekDay(MakeDay(y, m, 1)) + d - 1) % 7
  {
    DayNumberInMonth(Date(y, m, 1));
    DayNumberInMonth(Date(y, m, d));
    var t := MakeDay(y, m, 1) + 4;
    assert DayNumber(Date(y, m, d)) + 4 == t + (d - 1);
    ModShift(t, d - 1);
  }

  /** Adding a multiple of 7 does not move the weekday. */
  lemma ModShift(a: int, b: int)
    ensures (a % 7 + b) % 7 == (a + b) % 7
  {
    var q := a / 7;
    assert a == 7 * q + a % 7;
    assert a + b == (a % 7 + b) + 7 * q;
  }

  /** The next month starts a month's length after this one. */
  lemma NextMonthStart(y: int, m: int)
    requires 0 <= m < 12
    ensures MonthStart(NextMonth(y, m).0, NextMonth(y, m).1) == MonthStart(y, m) + DaysInMonth(y, m)
  {
    if m == 11 {
      DayFromYearStep(y);
    }
  }

  /** `new Date(y, m + 1, 0)` is the last day of month `m`. */
  lemma DayZeroIsLastDay(y: int, m: int)
    requires 0 <= m < 12
    ensures MakeDay(y, m + 1, 0) == DayNumber(Date(y, m, DaysInMonth(y, m)))
    ensures ValidDate(Date(y, m, DaysInMonth(y, m)))
  {
    NextMonthStart(y, m);
    DayNumberInMonth(Date(y, m, DaysInMonth(y, m)));
    var n := NextMonth(y, m);
    if m == 11 {
      assert (m + 1) / 12 == 1 && (m + 1) % 12 == 0;
    } else {
      assert (m + 1) / 12 == 0 && (m + 1) % 12 == m + 1;
    }
    assert MakeDay(y, m + 1, 0) == MonthStart(n.0, n.1) - 1;
  }

  /** A month index `y * 12 + m` names one year and month. */
  lemma MonthIndexEqual(y1: int, m1: int, y2: int, m2: int)
    requires 0 <= m1 < 12 && 0 <= m2 < 12
    requires y1 * 12 + m1 == y2 * 12 + m2
    ensures y1 == y2 && m1 == m2
  {
  }

  /** Every day of an earlier month comes before the first of a later one. */
  lemma {:induction false} MonthStartsIncrease(y1: int, m1: int, y2: int, m2: int)
    requires 0 <= m1 < 12 && 0 <= m2 < 12
    requires y1 * 12 + m1 < y2 * 12 + m2
    ensures MonthStart(y1, m1) + DaysInMonth(y1, m1) <= MonthStart(y2, m2)
    decreases y2 * 12 + m2 - (y1 * 12 + m1)
  {
    var py, pm := if m2 == 0 then y2 - 1 else y2, if m2 == 0 then 11 else m2 - 1;
    assert NextMonth(py, pm) == (y2, m2);
    NextMonthStart(py, pm);
    if y1 * 12 + m1 < py * 12 + pm {
      MonthStartsIncrease(y1, m1, py, pm);
    } else {
      MonthIndexEqual(y1, m1, py, pm);
    }
  }

  /** A date of an earlier month has a smaller day number. */
  lemma DayNumberOrdered(a: Date, b: Date)
    requires ValidDate(a) && ValidDate(b)
    requires a.year * 12 + a.month < b.year * 12 + b.month
    ensures DayNumber(a) < DayNumber(b)
  {
    DayNumberInMonth(a);
    DayNumberInMonth(b);
    MonthStartsIncrease(a.year, a.month, b.year, b.month);
  }

  /** Distinct valid dates have distinct day numbers, so a day number names
      at most one date: the one `getFullYear`, `getMonth` and `getDate` read. */
  lemma DayNumberInjective(a: Date, b: Date)
    requires ValidDate(a) && ValidDate(b)
    requires DayNumber(a) == DayNumber(b)
    ensures a == b
  {
    if a.year * 12 + a.month < b.year * 12 + b.month {
      DayNumberOrdered(a, b);
    } else if b.year * 12 + b.month < a.year * 12 + a.month {
      DayNumberOrdered(b, a);
    } else {
      MonthIndexEqual(a.year, a.month, b.year, b.month);
      DayNumberInMonth(a);
      DayNumberInMonth(b);
    }
  }

  // ---------------------------------------------------------------------
  // setMonth

  /** MakeDay carries `month` into the year: the result is the day number of
      the normalised year and month. */
  lemma CarryMonth(year: int, month: int)
    ensures 0 <= month % 12 < 12
    ensures (year + month / 12) * 12 + month % 12 == year * 12 + month
    ensures MakeDay(year, month, 1) == MonthStart(year + month / 12, month % 12)
  {
  }

  /** `d.setMonth(month)`: the day number MakeDay(year, month, day), read
      back as a date. A day the target month does not have rolls over into
      the following month. */
  function SetMonth(d: Date, month: int): (r: Date)
    requires ValidDate(d)
    ensures ValidDate(r)
    ensures DayNumber(r) == MakeDay(d.year, month, d.day)
    ensures d.day <= DaysInMonth(d.year + month / 12, month % 12) ==>
      r.day == d.day && r.year * 12 + r.month == d.year * 12 + month
    ensures d.day > DaysInMonth(d.year + month / 12, month % 12) ==>
      r.day == d.day - DaysInMonth(d.year + month / 12, month % 12) &&
      r.year * 12 + r.month == d.year * 12 + month + 1
  {
    CarryMonth(d.year, month);
    var ty, tm := d.year + month / 12, month % 12;
    var len := DaysInMonth(ty, tm);
    if d.day <= len then
      DayNumberInMonth(Date(ty, tm, d.day));
      Date(ty, tm, d.day)
    else
      var n := NextMonth(ty, tm);
      NextMonthStart(ty, tm);
      DayNumberInMonth(Date(n.0, n.1, d.day - len));
      Date(n.0, n.1, d.day - len)
  }

  // ---------------------------------------------------------------------
  // Anchors

  lemma KnownWeekdays()
    ensures DayOfWeek(Date(1970, 0, 1)) == 4
    ensures DayOfWeek(Date(2000, 0, 1)) == 6
    ensures DayOfWeek(Date(2024, 1, 29)) == 4
    ensures DayOfWeek(Date(2026, 9, 14)) == 3
  {
    assert DayFromYear(1970) == 0;
    assert DayFromYear(2000) == 10957;
    assert DayFromYear(2024) == 19723;
    assert DayFromYear(2026) == 20454;
    assert DayNumber(Date(2024, 1, 29)) == 19782;
    assert DayNumber(Date(2026, 9, 14)) == 20740;
  }
}
