/** Calendar days and wall-clock instants, as the views see them through
    date-fns (`getDay`, `startOfWeek`, `addDays`, `addWeeks`, `isSameDay`).
    A day is a serial number; the civil calendar behind it is not modelled. */
module Calendar {

  import Text

  /** A calendar day in local time, counted from Thursday 1 January 1970. */
  type Day = int

  /** date-fns `getDay`: 0 for Sunday, 1 for Monday, ..., 6 for Saturday. */
  function GetDay(d: Day): (w: int)
    ensures 0 <= w < 7
  {
    (d + 4) % 7
  }

  /** The views' `(getDay(day) + 6) % 7`: the position of `day` in a
      Monday-first week, which is also the index into `repeatDays`. */
  function MondayIndex(d: Day): (i: int)
    ensures 0 <= i < 7
  {
    (GetDay(d) + 6) % 7
  }

  /** Seven-day periodicity of the remainder. */
  lemma ModSeven(a: int, q: int, i: int)
    requires 0 <= i < 7 && a == 7 * q + i
    ensures a % 7 == i
  {
  }

  /** The index in closed form: day 4 (5 January 1970) is a Monday. */
  lemma MondayIndexClosed(d: Day)
    ensures MondayIndex(d) == (d + 3) % 7
  {
    var q, r := (d + 3) / 7, (d + 3) % 7;
    assert d + 3 == 7 * q + r;
    if r == 6 {
      ModSeven(d + 4, q + 1, 0);
    } else {
      ModSeven(d + 4, q, r + 1);
      ModSeven(r + 1 + 6, 1, r);
    }
  }

  /** The days after a Monday have indices 0 to 6 in order. */
  lemma MondayPlus(m: Day, i: int)
    requires MondayIndex(m) == 0 && 0 <= i < 7
    ensures MondayIndex(m + i) == i
  {
    MondayIndexClosed(m);
    MondayIndexClosed(m + i);
    var q := (m + 3) / 7;
    assert m + 3 == 7 * q;
    ModSeven(m + i + 3, q, i);
  }

  /** A whole number of weeks later, the index is the same. */
  lemma MondayIndexWeeks(d: Day, n: int)
    ensures MondayIndex(d + 7 * n) == MondayIndex(d)
  {
    MondayIndexClosed(d);
    MondayIndexClosed(d + 7 * n);
    var q, r := (d + 3) / 7, (d + 3) % 7;
    ModSeven(d + 7 * n + 3, q + n, r);
  }

  /** The conversion maps Monday to 0 and Sunday to 6, undoes `getDay`
      shifted by one, and gives consecutive days consecutive indices. */
  lemma MondayIndexMeaning(d: Day)
    ensures GetDay(d) == 1 <==> MondayIndex(d) == 0
    ensures GetDay(d) == 0 <==> MondayIndex(d) == 6
    ensures GetDay(d) == (MondayIndex(d) + 1) % 7
    ensures MondayIndex(d + 1) == (MondayIndex(d) + 1) % 7
  {
    MondayIndexClosed(d);
    MondayIndexClosed(d + 1);
    var q, r := (d + 3) / 7, (d + 3) % 7;
    if r == 6 {
      ModSeven(d + 4, q + 1, 0);
    } else {
      ModSeven(d + 4, q, r + 1);
    }
  }

  /** date-fns `startOfWeek(d, { weekStartsOn: 1 })`: the Monday on or before `d`. */
  function StartOfWeek(d: Day): (m: Day)
    ensures MondayIndex(m) == 0
    ensures m <= d < m + 7
  {
    MondayIndexClosed(d);
    MondayIndexClosed(d - MondayIndex(d));
    var q, r := (d + 3) / 7, (d + 3) % 7;
    ModSeven(d - r + 3, q, 0);
    d - MondayIndex(d)
  }

  /** The Monday on or before a day is the only Monday among the seven days
      ending on it. */
  lemma StartOfWeekUnique(d: Day, m: Day)
    requires MondayIndex(m) == 0 && m <= d < m + 7
    ensures m == StartOfWeek(d)
  {
    MondayPlus(m, d - m);
  }

  /** A Monday is its own week start. */
  lemma StartOfWeekOfMonday(m: Day)
    requires MondayIndex(m) == 0
    ensures StartOfWeek(m) == m
  {
    StartOfWeekUnique(m, m);
  }

  /** `Array.from({ length: 7 }, (_, i) => addDays(startOfWeek(d), i))`. */
  function WeekDays(d: Day): (days: seq<Day>)
    ensures |days| == 7
    ensures forall i :: 0 <= i < 7 ==> days[i] == StartOfWeek(d) + i && MondayIndex(days[i]) == i
    ensures d in days
  {
    var ws := StartOfWeek(d);
    var days := seq(7, i => ws + i);
    assert days[d - ws] == d;
    forall i | 0 <= i < 7 ensures MondayIndex(days[i]) == i {
      MondayPlus(ws, i);
    }
    days
  }

  /** Shifting a day by whole weeks shifts its week start, and every day of
      its week, by the same number of days. */
  lemma WeekShift(d: Day, n: int)
    ensures StartOfWeek(d + 7 * n) == StartOfWeek(d) + 7 * n
    ensures forall i :: 0 <= i < 7 ==> WeekDays(d + 7 * n)[i] == WeekDays(d)[i] + 7 * n
  {
    var m := StartOfWeek(d) + 7 * n;
    MondayIndexWeeks(StartOfWeek(d), n);
    StartOfWeekUnique(d + 7 * n, m);
  }

  /** The `format(day, 'yyyy-MM-dd')` key of a day. The civil calendar is
      not modelled, so the key is the day's serial number in decimal; the
      property the completion logic relies on, one key per day, is kept. */
  function DateKey(d: Day): (k: string)
    ensures |k| >= 1
  {
    if d >= 0 then Text.Decimal(d) else "-" + Text.Decimal(-d)
  }

  /** The key of a day before day 0 starts with a minus sign, any other
      with a digit. */
  lemma DateKeySign(d: Day)
    ensures d >= 0 <==> Text.IsDigit(DateKey(d)[0])
  {
  }

  /** Distinct days have distinct keys. */
  lemma DateKeyInjective(d1: Day, d2: Day)
    requires DateKey(d1) == DateKey(d2)
    ensures d1 == d2
  {
    DateKeySign(d1);
    DateKeySign(d2);
    if d1 >= 0 && d2 >= 0 {
      Text.DecimalInjective(d1, d2);
    } else if d1 < 0 && d2 < 0 {
      var k1, k2 := DateKey(d1), DateKey(d2);
      assert k1[1..] == Text.Decimal(-d1);
      assert k2[1..] == Text.Decimal(-d2);
      Text.DecimalInjective(-d1, -d2);
    }
  }

  /** A month, counted from January 1970 (month 0); `month % 12` is
      date-fns' zero-based month and `1970 + month / 12` the year. */
  type Month = int

  predicate IsLeapYear(y: int)
  {
    (y % 4 == 0 && y % 100 != 0) || y % 400 == 0
  }

  /** The length of a month in the Gregorian calendar. */
  function DaysInMonth(m: Month): (n: int)
    ensures 28 <= n <= 31
  {
    var y, k := 1970 + m / 12, m % 12;
    if k == 1 then (if IsLeapYear(y) then 29 else 28)
    else if k == 3 || k == 5 || k == 8 || k == 10 then 30
    else 31
  }

  /** The leap years among years 1 to `x` of the Gregorian count (less
      a constant for `x` below 1). */
  function Leaps(x: int): int
  {
    x / 4 - x / 100 + x / 400
  }

  /** Year `y` adds one to the count exactly when it is a leap year. */
  lemma LeapStep(y: int)
    ensures Leaps(y) - Leaps(y - 1) == if IsLeapYear(y) then 1 else 0
  {
    DivStep4(y);
    DivStep100(y);
    DivStep400(y);
  }

  lemma DivStep4(y: int)
    ensures y / 4 - (y - 1) / 4 == if y % 4 == 0 then 1 else 0
  {
  }

  lemma DivStep100(y: int)
    ensures y / 100 - (y - 1) / 100 == if y % 100 == 0 then 1 else 0
    ensures y % 100 == 0 ==> y % 4 == 0
  {
    if y % 100 == 0 {
      assert y == 4 * (25 * (y / 100));
    }
  }

  lemma DivStep400(y: int)
    ensures y / 400 - (y - 1) / 400 == if y % 400 == 0 then 1 else 0
    ensures y % 400 == 0 ==> y % 100 == 0
  {
    if y % 400 == 0 {
      assert y == 100 * (4 * (y / 400));
    }
  }

  /** The day 1 January of year `y` falls on. */
  function YearFirst(y: int): Day
  {
    365 * (y - 1970) + Leaps(y - 1) - Leaps(1969)
  }

  /** The days of a year before its month `k` (zero-based). */
  function DaysBeforeMonth(k: int, leap: bool): int
    requires 0 <= k < 12
  {
    var before :=
      if k == 0 then 0 else if k == 1 then 31 else if k == 2 then 59 else if k == 3 then 90
      else if k == 4 then 120 else if k == 5 then 151 else if k == 6 then 181 else if k == 7 then 212
      else if k == 8 then 243 else if k == 9 then 273 else if k == 10 then 304 else 334;
    before + if leap && k >= 2 then 1 else 0
  }

  /** date-fns `startOfMonth`: the first day of month `m`, the whole years
      before it and then the months before it in its year. */
  function MonthFirst(m: Month): Day
  {
    YearFirst(1970 + m / 12) + DaysBeforeMonth(m % 12, IsLeapYear(1970 + m / 12))
  }

  /** The month after `m` is the next one of the same year, or January of
      the next year. */
  lemma MonthSucc(m: Month)
    ensures m % 12 < 11 ==> (m + 1) / 12 == m / 12 && (m + 1) % 12 == m % 12 + 1
    ensures m % 12 == 11 ==> (m + 1) / 12 == m / 12 + 1 && (m + 1) % 12 == 0
  {
  }

  /** date-fns `endOfMonth`, to the day: the month's last day. */
  function MonthLast(m: Month): (d: Day)
    ensures MonthFirst(m) + 27 <= d <= MonthFirst(m) + 30
  {
    MonthFirst(m) + DaysInMonth(m) - 1
  }

  /** Consecutive months are adjacent: a month starts the day after the
      previous one ends. */
  lemma MonthsAdjacent(m: Month)
    ensures MonthFirst(m + 1) == MonthFirst(m) + DaysInMonth(m) == MonthLast(m) + 1
  {
    MonthSucc(m);
    LeapStep(1970 + m / 12);
  }

  /** January 1970 is month 0: days 0 to 30. */
  lemma January1970()
    ensures MonthFirst(0) == 0 && DaysInMonth(0) == 31 && MonthLast(0) == 30
  {
    JanuaryFirst();
    JanuaryLength();
  }

  lemma JanuaryFirst()
    ensures MonthFirst(0) == 0
  {
  }

  lemma JanuaryLength()
    ensures DaysInMonth(0) == 31
  {
  }

  type Hour = h: int | 0 <= h < 24
  type Minute = m: int | 0 <= m < 60

  /** A JavaScript `Date` to the minute, in local wall-clock time:
      `getHours()` and `getMinutes()` of a day. */
  datatype Instant = Instant(day: Day, hour: Hour, minute: Minute)

  /** Minutes since the start of the instant's day. */
  function MinuteOfDay(t: Instant): (m: int)
    ensures 0 <= m < 24 * 60
  {
    t.hour * 60 + t.minute
  }

  /** Minutes since the start of day 0: the order `<`/`<=` of `Date`s. */
  function Minutes(t: Instant): int
  {
    t.day * (24 * 60) + MinuteOfDay(t)
  }

  /** Division by sixty gives one remainder only. */
  lemma ModSixty(a: int, q: int, r: int)
    requires 0 <= r < 60 && a == 60 * q + r
    ensures a % 60 == r
  {
  }

  /** A minute count splits into days, hours and minutes. */
  lemma SplitMinutes(m: int)
    ensures 0 <= (m % (24 * 60)) / 60 < 24
    ensures m == (m / (24 * 60)) * (24 * 60) + ((m % (24 * 60)) / 60) * 60 + m % 60
  {
    var r := m % (24 * 60);
    assert m == (24 * 60) * (m / (24 * 60)) + r;
    assert r == 60 * (r / 60) + r % 60;
    ModSixty(m, 24 * (m / (24 * 60)) + r / 60, r % 60);
  }

  /** The instant a number of minutes after the start of day 0. */
  function FromMinutes(m: int): (t: Instant)
    ensures Minutes(t) == m
  {
    SplitMinutes(m);
    Instant(m / (24 * 60), (m % (24 * 60)) / 60, m % 60)
  }

  /** Instants are determined by their minute count. */
  lemma MinutesInjective(a: Instant, b: Instant)
    requires Minutes(a) == Minutes(b)
    ensures a == b
  {
    assert a.day == Minutes(a) / (24 * 60);
    assert b.day == Minutes(b) / (24 * 60);
  }

  /** `addMinutes(t, n)` (and `setHours(h + 1)` for `n = 60`). */
  function AddMinutes(t: Instant, n: int): (r: Instant)
    ensures Minutes(r) == Minutes(t) + n
  {
    FromMinutes(Minutes(t) + n)
  }

  /** date-fns `isSameDay(t, d)`. */
  predicate SameDay(t: Instant, d: Day)
  {
    t.day == d
  }
}
