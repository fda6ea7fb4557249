/** The spending calendar of the analysis page: the month shown, the
    buttons that move it, the grid of day cells and the highlighting of
    weekends and of today's cell. The clock is not modelled: the date the
    page opens on and "today" are parameters. */
module AnalysisPage {
  import opened Dates

  /** One cell of the grid: `null` before the first of the month, else a
      day number. */
  datatype Cell = Blank | Day(day: int)

  /** `new Date(year, month, 1).getDay()`, with `year` and `month` read from
      the current date. */
  function FirstDayOfWeek(year: int, month: int): (r: int)
    ensures 0 <= r < 7
  {
    WeekDay(MakeDay(MakeFullYear(year), month, 1))
  }

  /** `new Date(year, month + 1, 0).getDate()`: the date whose day number is
      MakeDay(year, month + 1, 0), which is the last day of `month`. */
  function TotalDays(year: int, month: int): (r: int)
    requires 0 <= month < 12
    ensures 28 <= r <= 31
    ensures ValidDate(Date(MakeFullYear(year), month, r))
    ensures DayNumber(Date(MakeFullYear(year), month, r)) == MakeDay(MakeFullYear(year), month + 1, 0)
  {
    DayZeroIsLastDay(MakeFullYear(year), month);
    DaysInMonth(MakeFullYear(year), month)
  }

  /** No other date has the day number of "day 0 of the next month", so
      `getDate()` of that date is `TotalDays`. */
  lemma LastDayIsUnique(year: int, month: int, d: Date)
    requires 0 <= month < 12
    requires ValidDate(d) && DayNumber(d) == MakeDay(MakeFullYear(year), month + 1, 0)
    ensures d == Date(MakeFullYear(year), month, TotalDays(year, month))
  {
    DayNumberInjective(d, Date(MakeFullYear(year), month, TotalDays(year, month)));
  }

  /** The layout `renderCalendarDays` produces: `first` blanks, then the day
      numbers 1..total in order. */
  ghost predicate IsCalendarGrid(days: seq<Cell>, first: int, total: int)
  {
    0 <= first && 0 <= total &&
    |days| == first + total &&
    (forall i :: 0 <= i < first ==> days[i] == Blank) &&
    (forall d :: 1 <= d <= total ==> days[first + d - 1] == Day(d))
  }

  /** A grid cell is a blank exactly before the first, and past it holds
      the day counted from the first. */
  lemma GridCell(days: seq<Cell>, first: int, total: int, i: int)
    requires IsCalendarGrid(days, first, total)
    requires 0 <= i < |days|
    ensures days[i] == if i < first then Blank else Day(i - first + 1)
  {
    if i >= first {
      var d := i - first + 1;
      assert days[first + d - 1] == Day(d);
    }
  }

  /** For a cell that holds day `d`, the column `index % 7` is the weekday of
      that date (0 is Sunday), so the red and blue columns are the real
      Sundays and Saturdays. */
  lemma WeekdayColumn(year: int, month: int, days: seq<Cell>, i: int)
    requires 0 <= month < 12
    requires IsCalendarGrid(days, FirstDayOfWeek(year, month), TotalDays(year, month))
    requires 0 <= i < |days| && days[i].Day?
    ensures i % 7 == DayOfWeek(Date(MakeFullYear(year), month, days[i].day))
  {
    var first := FirstDayOfWeek(year, month);
    GridCell(days, first, TotalDays(year, month), i);
    WeekdayInMonth(MakeFullYear(year), month, days[i].day);
  }

  /** The text colour a day cell's column gives it. */
  datatype ColumnColour = SundayRed | SaturdayBlue | NoColour

  /** The `index % 7 === 0` and `index % 7 === 6` classes of a day cell. */
  function CellColour(index: nat): ColumnColour
  {
    if index % 7 == 0 then SundayRed
    else if index % 7 == 6 then SaturdayBlue
    else NoColour
  }

  /** A day cell is red exactly on Sundays and blue exactly on Saturdays. */
  lemma WeekendColouring(year: int, month: int, days: seq<Cell>, i: nat)
    requires 0 <= month < 12
    requires IsCalendarGrid(days, FirstDayOfWeek(year, month), TotalDays(year, month))
    requires i < |days| && days[i].Day?
    ensures CellColour(i) == SundayRed <==> DayOfWeek(Date(MakeFullYear(year), month, days[i].day)) == 0
    ensures CellColour(i) == SaturdayBlue <==> DayOfWeek(Date(MakeFullYear(year), month, days[i].day)) == 6
  {
    WeekdayColumn(year, month, days, i);
  }

  /** The `isToday` test of a cell: a truthy day number and the shown year,
      month and that day equal to today's. */
  predicate IsToday(cell: Cell, current: Date, today: Date)
  {
    cell.Day? && cell.day != 0 &&
    current.year == today.year && current.month == today.month &&
    cell.day == today.day
  }

  /** Today's cell, and no other, is highlighted: the cell at
      `first + today.day - 1`, when the shown month is today's month. */
  lemma TodayHighlight(current: Date, today: Date, days: seq<Cell>, i: int)
    requires 0 <= current.month < 12
    requires IsCalendarGrid(days, FirstDayOfWeek(current.year, current.month), TotalDays(current.year, current.month))
    requires 0 <= i < |days|
    ensures IsToday(days[i], current, today) <==>
      current.year == today.year && current.month == today.month &&
      1 <= today.day <= TotalDays(current.year, current.month) &&
      i == FirstDayOfWeek(current.year, current.month) + today.day - 1
  {
    GridCell(days, FirstDayOfWeek(current.year, current.month), TotalDays(current.year, current.month), i);
  }

  /** When the page shows today's month of any year but 0, exactly one cell
      is highlighted. */
  lemma TodayShownOnce(current: Date, today: Date, days: seq<Cell>)
    requires ValidDate(today) && ValidDate(current)
    requires current.year == today.year && current.month == today.month
    requires today.year != 0
    requires IsCalendarGrid(days, FirstDayOfWeek(current.year, current.month), TotalDays(current.year, current.month))
    ensures exists i :: 0 <= i < |days| && IsToday(days[i], current, today)
    ensures forall i, j ::
      0 <= i < |days| && 0 <= j < |days| &&
      IsToday(days[i], current, today) && IsToday(days[j], current, today)
      ==> i == j
  {
    if 0 <= today.year <= 99 {
      TwoDigitYearMonths(today.year, today.month);
    }
    var first := FirstDayOfWeek(current.year, current.month);
    var k := first + today.day - 1;
    assert days[k] == Day(today.day);
    assert IsToday(days[k], current, today);
    forall i, j | 0 <= i < |days| && 0 <= j < |days| &&
      IsToday(days[i], current, today) && IsToday(days[j], current, today)
      ensures i == j
    {
      TodayHighlight(current, today, days, i);
      TodayHighlight(current, today, days, j);
    }
  }

  /** The exception: shown in year 0, the page lays out February of 1900,
      which has 28 days, so on February 29 of year 0 no cell is today's. */
  lemma YearZeroLeapDayNotShown(days: seq<Cell>)
    requires IsCalendarGrid(days, FirstDayOfWeek(0, 1), TotalDays(0, 1))
    ensures ValidDate(Date(0, 1, 29))
    ensures forall i :: 0 <= i < |days| ==> !IsToday(days[i], Date(0, 1, 29), Date(0, 1, 29))
  {
    assert TotalDays(0, 1) == 28;
    forall i | 0 <= i < |days|
      ensures !IsToday(days[i], Date(0, 1, 29), Date(0, 1, 29))
    {
      TodayHighlight(Date(0, 1, 29), Date(0, 1, 29), days, i);
    }
  }

  /** `handleMonthChange(1)` then `handleMonthChange(-1)` restores a date
      whose day every month has. */
  lemma MonthChangeRoundTrip(d: Date)
    requires ValidDate(d) && d.day <= 28
    ensures SetMonth(SetMonth(d, d.month + 1), SetMonth(d, d.month + 1).month - 1) == d
  {
    var n := SetMonth(d, d.month + 1);
    var back := SetMonth(n, n.month - 1);
    MonthIndexEqual(back.year, back.month, d.year, d.month);
  }

  /** The round trip fails for a day the next month lacks: January 31 of a
      common year moves to March 3 ... */
  lemma MonthChangeOverflow()
    ensures SetMonth(Date(2025, 0, 31), 1) == Date(2025, 2, 3)
  {
    assert !IsLeapYear(2025) && DaysInMonth(2025, 1) == 28;
    assert NextMonth(2025, 1) == (2025, 2);
  }

  /** ... and going back a month from March 3 gives February 3. */
  lemma MonthChangeBack()
    ensures SetMonth(Date(2025, 2, 3), 1) == Date(2025, 1, 3)
  {
    assert DaysInMonth(2025, 1) == 28;
  }

  /** The analysis page's calendar state: the date whose month is shown. */
  class CalendarPage {
    var currentDate: Date

    ghost predicate Valid()
      reads this
    {
      ValidDate(currentDate)
    }

    /** `useState(new Date())`, with the clock's date passed in. */
    constructor(now: Date)
      requires ValidDate(now)
      ensures Valid() && currentDate == now
    {
      currentDate := now;
    }

    /** `handleMonthChange(direction)`: `setMonth(getMonth() + direction)`
        on a copy of the current date. */
    method HandleMonthChange(direction: int)
      requires Valid()
      modifies this
      ensures Valid()
      ensures currentDate == SetMonth(old(currentDate), old(currentDate).month + direction)
    {
      var newDate := SetMonth(currentDate, currentDate.month + direction);
      currentDate := newDate;
    }

    /** `renderCalendarDays()`: `firstDayOfWeek` nulls, then 1..totalDays. */
    method RenderCalendarDays() returns (days: seq<Cell>)
      requires Valid()
      ensures IsCalendarGrid(days, FirstDayOfWeek(currentDate.year, currentDate.month),
                             TotalDays(currentDate.year, currentDate.month))
      ensures |days| == FirstDayOfWeek(currentDate.year, currentDate.month)
                        + TotalDays(currentDate.year, currentDate.month)
    {
      var year := currentDate.year;
      var month := currentDate.month;
      var firstDayOfWeek := FirstDayOfWeek(year, month);
      var totalDays := TotalDays(year, month);
      days := [];
      var i := 0;
      while i < firstDayOfWeek
        invariant 0 <= i <= firstDayOfWeek
        invariant |days| == i
        invariant forall k :: 0 <= k < i ==> days[k] == Blank
      {
        days := days + [Blank];
        i := i + 1;
      }
      i := 1;
      while i <= totalDays
        invariant 1 <= i <= totalDays + 1
        invariant |days| == firstDayOfWeek + i - 1
        invariant forall k :: 0 <= k < firstDayOfWeek ==> days[k] == Blank
        invariant forall d :: 1 <= d < i ==> days[firstDayOfWeek + d - 1] == Day(d)
      {
        days := days + [Day(i)];
        i := i + 1;
      }
    }
  }
}
