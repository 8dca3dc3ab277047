/** The navigable windows of the calendar views: the seven-day Monday-first
    week of components/TimeSlotCalendar.tsx and components/WeeklyCalendar.tsx,
    the single day of components/DayView.tsx, and the month grid of
    components/MonthView.tsx. Each view keeps its current date as React
    state; here that state is a field its navigation methods update. */
module Views {

  import opened Calendar

  /** The week view's `currentWeek`: any day of the week on screen. */
  class WeekView {
    var current: Day

    constructor (today: Day)
      ensures current == today
    {
      current := today;
    }

    /** `weekDays`: the Monday-first week holding the current day. */
    function Days(): (days: seq<Day>)
      reads this
      ensures |days| == 7 && current in days
      ensures MondayIndex(days[0]) == 0 && days[0] <= current < days[0] + 7
      ensures forall i :: 0 <= i < 7 ==> days[i] == days[0] + i
    {
      WeekDays(current)
    }

    /** `handlePreviousWeek`: `addWeeks(currentWeek, -1)`. */
    method Previous()
      modifies this
      ensures current == old(current) - 7
      ensures forall i :: 0 <= i < 7 ==> Days()[i] == WeekDays(old(current))[i] - 7
    {
      WeekShift(current, -1);
      current := current - 7;
    }

    /** `handleNextWeek`: `addWeeks(currentWeek, 1)`. */
    method Next()
      modifies this
      ensures current == old(current) + 7
      ensures forall i :: 0 <= i < 7 ==> Days()[i] == WeekDays(old(current))[i] + 7
    {
      WeekShift(current, 1);
      current := current + 7;
    }
  }

  /** The day view's `currentDate`. */
  class DayView {
    var current: Day

    constructor (today: Day)
      ensures current == today
    {
      current := today;
    }

    /** `handlePrevious`: `addDays(currentDate, -1)`. */
    method Previous()
      modifies this
      ensures current == old(current) - 1
      ensures MondayIndex(current) == (MondayIndex(old(current)) + 6) % 7
    {
      MondayIndexMeaning(current - 1);
      current := current - 1;
    }

    /** `handleNext`: `addDays(currentDate, 1)`. */
    method Next()
      modifies this
      ensures current == old(current) + 1
      ensures MondayIndex(current) == (MondayIndex(old(current)) + 1) % 7
    {
      MondayIndexMeaning(current);
      current := current + 1;
    }
  }

  /** Two Mondays lie a whole number of weeks apart. */
  lemma MondaysApart(m1: Day, m2: Day)
    requires MondayIndex(m1) == 0 && MondayIndex(m2) == 0 && m1 < m2
    ensures m1 + 7 <= m2
  {
    MondayIndexClosed(m1);
    MondayIndexClosed(m2);
    var q1, q2 := (m1 + 3) / 7, (m2 + 3) / 7;
    assert m1 + 3 == 7 * q1 && m2 + 3 == 7 * q2;
  }

  /** A later day never has an earlier week start. */
  lemma StartOfWeekMonotone(a: Day, b: Day)
    requires a <= b
    ensures StartOfWeek(a) <= StartOfWeek(b)
  {
    if StartOfWeek(b) < StartOfWeek(a) {
      MondaysApart(StartOfWeek(b), StartOfWeek(a));
    }
  }

  /** The days from `first` through `last`, one apart; empty when `last`
      comes before `first`. */
  function DayRange(first: Day, last: Day): (r: seq<Day>)
    ensures |r| == if first <= last then last - first + 1 else 0
    ensures forall i :: 0 <= i < |r| ==> r[i] == first + i
    ensures forall d :: d in r <==> first <= d <= last
  {
    var r := seq(if first <= last then last - first + 1 else 0, i => first + i);
    forall d | first <= d <= last ensures d in r {
      assert r[d - first] == d;
    }
    r
  }

  /** The month view's loop: `while (day <= endDate)` push `day` and move to
      the next day. */
  method ListDays(first: Day, last: Day) returns (days: seq<Day>)
    ensures days == DayRange(first, last)
  {
    days := [];
    var day := first;
    while day <= last
      invariant first <= day <= if first <= last then last + 1 else first
      invariant |days| == day - first
      invariant forall i :: 0 <= i < |days| ==> days[i] == first + i
      decreases last - day
    {
      days := days + [day];
      day := day + 1;
    }
  }

  /** `calendarDays` as written, for the month from `monthStart` to
      `monthEnd`: from the Monday on or before its first day through the
      Monday on or before its last day. */
  function GridAsWritten(monthStart: Day, monthEnd: Day): seq<Day>
  {
    DayRange(StartOfWeek(monthStart), StartOfWeek(monthEnd))
  }

  /** The days from one Monday through a later or equal Monday. */
  lemma MondayRange(first: Day, last: Day)
    requires MondayIndex(first) == 0 && MondayIndex(last) == 0 && first <= last
    ensures var g := DayRange(first, last);
      && |g| >= 1 && g[0] == first && g[|g| - 1] == last
  {
  }

  /** The grid as written starts on a Monday, runs one day at a time, is never
      empty, holds the first of the month and ends on the Monday of the
      month's last week. */
  lemma GridAsWrittenShape(monthStart: Day, monthEnd: Day)
    requires monthStart + 27 <= monthEnd
    ensures var g := GridAsWritten(monthStart, monthEnd);
      && |g| >= 1
      && MondayIndex(g[0]) == 0 && g[|g| - 1] == StartOfWeek(monthEnd) && MondayIndex(g[|g| - 1]) == 0
      && (forall i :: 0 <= i < |g| ==> g[i] == g[0] + i)
      && monthStart in g
  {
    StartOfWeekMonotone(monthStart, monthEnd);
    MondayRange(StartOfWeek(monthStart), StartOfWeek(monthEnd));
  }

  /** The grid as written drops the end of the month: a day of the month
      after the Monday of its last week is missing, the last day of the
      month among them unless it is a Monday. */
  lemma GridAsWrittenMissesMonthEnd(monthStart: Day, monthEnd: Day, d: Day)
    requires monthStart + 27 <= monthEnd
    requires StartOfWeek(monthEnd) < d <= monthEnd
    ensures monthStart <= d && d !in GridAsWritten(monthStart, monthEnd)
    ensures MondayIndex(monthEnd) != 0 ==> monthEnd !in GridAsWritten(monthStart, monthEnd)
  {
  }

  /** January 1970 runs from day 0 to day 30 (`January1970`) and ends on a
      Saturday: its last five days, 27 to 31 January, are not in the grid
      as written. */
  lemma GridAsWrittenJanuary1970()
    ensures forall d :: 26 <= d <= 30 ==> d !in GridAsWritten(0, 30)
  {
    assert MondayIndex(25) == 0;
    StartOfWeekUnique(30, 25);
    forall d | 26 <= d <= 30 ensures d !in GridAsWritten(0, 30) {
      GridAsWrittenMissesMonthEnd(0, 30, d);
    }
  }

  /** `calendarDays` through the Sunday that ends the month's last week:
      whole weeks covering every day of the month. */
  function Grid(monthStart: Day, monthEnd: Day): seq<Day>
  {
    DayRange(StartOfWeek(monthStart), StartOfWeek(monthEnd) + 6)
  }

  /** The days from a Monday through the Sunday after a later or equal
      Monday are whole Monday-first weeks. */
  lemma WeeksRange(first: Day, last: Day)
    requires MondayIndex(first) == 0 && MondayIndex(last) == 0 && first <= last
    ensures var g := DayRange(first, last + 6);
      && |g| >= 7 && |g| % 7 == 0
      && (forall i :: 0 <= i < |g| ==> MondayIndex(g[i]) == i % 7)
  {
    if first < last {
      MondaysApart(first, last);
    }
    MondayIndexClosed(first);
    MondayIndexClosed(last);
    var q1, q2 := (first + 3) / 7, (last + 3) / 7;
    assert first + 3 == 7 * q1 && last + 3 == 7 * q2;
    assert last + 6 - first + 1 == 7 * (q2 - q1 + 1);
    var g := DayRange(first, last + 6);
    forall i | 0 <= i < |g| ensures MondayIndex(g[i]) == i % 7 {
      MondayIndexWeeks(first + i % 7, i / 7);
      MondayPlus(first, i % 7);
      assert g[i] == first + i % 7 + 7 * (i / 7);
    }
  }

  /** The grid is whole Monday-first weeks, at least four of them, and it
      shows every day of the month and the days padding its first and last
      weeks, and nothing else. */
  lemma GridShape(monthStart: Day, monthEnd: Day)
    requires monthStart + 27 <= monthEnd
    ensures var g := Grid(monthStart, monthEnd);
      && |g| >= 28 && |g| % 7 == 0
      && MondayIndex(g[0]) == 0 && MondayIndex(g[|g| - 1]) == 6
      && (forall i :: 0 <= i < |g| ==> MondayIndex(g[i]) == i % 7)
      && (forall d :: monthStart <= d <= monthEnd ==> d in g)
      && (forall d :: d in g <==> StartOfWeek(monthStart) <= d < StartOfWeek(monthEnd) + 7)
  {
    var first, last := StartOfWeek(monthStart), StartOfWeek(monthEnd);
    StartOfWeekMonotone(monthStart, monthEnd);
    WeeksRange(first, last);
    var g := Grid(monthStart, monthEnd);
    assert |g| % 7 == 0 && |g| >= 7;
    assert |g| > 21;
  }

  /** With whole weeks, every month is shown in full. */
  lemma EveryMonthShown(m: Month)
    ensures forall d :: MonthFirst(m) <= d <= MonthLast(m) ==> d in Grid(MonthFirst(m), MonthLast(m))
  {
    GridShape(MonthFirst(m), MonthLast(m));
  }

  /** The month view's `currentMonth`, to the month. */
  class MonthView {
    var month: Month

    constructor (today: Month)
      ensures month == today
    {
      month := today;
    }

    /** The `calendarDays` loop as the view runs it. */
    method CalendarDays() returns (days: seq<Day>)
      ensures days == GridAsWritten(MonthFirst(month), MonthLast(month))
    {
      days := ListDays(StartOfWeek(MonthFirst(month)), StartOfWeek(MonthLast(month)));
    }

    /** The same loop run on to the Sunday of the last week. */
    method FullCalendarDays() returns (days: seq<Day>)
      ensures days == Grid(MonthFirst(month), MonthLast(month))
    {
      days := ListDays(StartOfWeek(MonthFirst(month)), StartOfWeek(MonthLast(month)) + 6);
    }

    /** `handlePreviousMonth`: `addMonths(currentMonth, -1)`; the new month
      ends the day before the old one starts. */
    method Previous()
      modifies this
      ensures month == old(month) - 1
      ensures MonthLast(month) + 1 == MonthFirst(old(month))
    {
      MonthsAdjacent(month - 1);
      month := month - 1;
    }

    /** `handleNextMonth`: `addMonths(currentMonth, 1)`; the new month starts
      the day after the old one ends. */
    method Next()
      modifies this
      ensures month == old(month) + 1
      ensures MonthFirst(month) == MonthLast(old(month)) + 1
    {
      MonthsAdjacent(month);
      month := month + 1;
    }
  }
}
