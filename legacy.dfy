/** The two list views of the older task shape, components/TaskManager.tsx
    and components/WeeklyCalendar.tsx: a task has a `date` and an optional
    `time` text. TaskManager lists every task by date and then time, an
    untimed task counting as `23:59`; WeeklyCalendar lists a day's tasks
    by time, untimed ones last. Both orders are a key compared major part
    first, then minor text, and the list is sorted by that key. */
module Legacy {

  import opened Wrappers
  import opened Text
  import opened Calendar
  import opened Tasks
  import opened Sequences

  /** A task of the older shape. */
  datatype LegacyTask = LegacyTask(
    id: string,
    title: string,
    description: string,
    date: Instant,
    time: Option<string>,
    completed: bool)

  /** A sort key: a number, then a text. */
  datatype Key = Key(major: int, minor: string)

  predicate KeyLess(a: Key, b: Key)
  {
    a.major < b.major || (a.major == b.major && LexLess(a.minor, b.minor))
  }

  lemma KeyLessIrreflexive(a: Key)
    ensures !KeyLess(a, a)
  {
    LexLessIrreflexive(a.minor);
  }

  lemma KeyLessTransitive(a: Key, b: Key, c: Key)
    requires KeyLess(a, b) && KeyLess(b, c)
    ensures KeyLess(a, c)
  {
    if a.major == b.major == c.major {
      LexLessTransitive(a.minor, b.minor, c.minor);
    }
  }

  lemma KeyLessTotal(a: Key, b: Key)
    ensures a == b || KeyLess(a, b) || KeyLess(b, a)
  {
    LexLessTotal(a.minor, b.minor);
  }

  /** No element is ordered before an earlier one. */
  predicate Sorted(s: seq<LegacyTask>, key: LegacyTask -> Key)
  {
    forall i, j :: 0 <= i < j < |s| ==> !KeyLess(key(s[j]), key(s[i]))
  }

  /** Put `x` into a list after the leading elements not ordered after it. */
  function Insert(x: LegacyTask, s: seq<LegacyTask>, key: LegacyTask -> Key): (r: seq<LegacyTask>)
    ensures multiset(r) == multiset(s) + multiset{x}
    ensures forall y :: y in r <==> y == x || y in s
  {
    if s == [] then [x]
    else if !KeyLess(key(x), key(s[0])) then
      assert s == [s[0]] + s[1..];
      [s[0]] + Insert(x, s[1..], key)
    else [x] + s
  }

  /** Inserting into a sorted list keeps it sorted. */
  lemma {:induction false} InsertSorted(x: LegacyTask, s: seq<LegacyTask>, key: LegacyTask -> Key)
    requires Sorted(s, key)
    ensures Sorted(Insert(x, s, key), key)
  {
    if s == [] {
    } else if !KeyLess(key(x), key(s[0])) {
      var rest := Insert(x, s[1..], key);
      InsertSorted(x, s[1..], key);
      assert s == [s[0]] + s[1..];
      var r := [s[0]] + rest;
      forall j | 0 <= j < |rest| ensures !KeyLess(key(rest[j]), key(s[0])) {
        var y := rest[j];
        assert y in rest;
        if y != x {
          var k :| 0 <= k < |s[1..]| && s[1..][k] == y;
          assert s[k + 1] == y;
        }
      }
      forall i, j | 0 <= i < j < |r| ensures !KeyLess(key(r[j]), key(r[i])) {
        assert r[j] == rest[j - 1];
        if i > 0 {
          assert r[i] == rest[i - 1];
        }
      }
    } else {
      var r := [x] + s;
      forall i, j | 0 <= i < j < |r| ensures !KeyLess(key(r[j]), key(r[i])) {
        assert r[j] == s[j - 1];
        if i == 0 && KeyLess(key(s[j - 1]), key(x)) {
          KeyLessTransitive(key(s[j - 1]), key(x), key(s[0]));
          KeyLessIrreflexive(key(s[0]));
        }
        if i > 0 {
          assert r[i] == s[i - 1];
        }
      }
    }
  }

  /** `[...tasks].sort(compare)` for a comparator that orders by `key`: a
      sorted rearrangement of a copy of the list. */
  function SortByKey(s: seq<LegacyTask>, key: LegacyTask -> Key): (r: seq<LegacyTask>)
    ensures multiset(r) == multiset(s) && |r| == |s|
    ensures Sorted(r, key)
    decreases |s|
  {
    if s == [] then []
    else
      var n := |s| - 1;
      assert s == s[..n] + [s[n]];
      InsertSorted(s[n], SortByKey(s[..n], key), key);
      Insert(s[n], SortByKey(s[..n], key), key)
  }

  /** TaskManager's key: time stamp of the date, then the time text, a
      falsy time counting as `23:59`. */
  function ManagerKey(t: LegacyTask): Key
  {
    Key(Minutes(t.date), if Truthy(t.time) then t.time.value else "23:59")
  }

  /** TaskManager's comparator as written: the date difference when it is
      not zero, otherwise `timeA.localeCompare(timeB)`. */
  function ManagerCompare(a: LegacyTask, b: LegacyTask): (r: int)
    ensures Minutes(a.date) < Minutes(b.date) ==> r < 0
    ensures Minutes(a.date) > Minutes(b.date) ==> r > 0
  {
    var dateDiff := Minutes(a.date) - Minutes(b.date);
    if dateDiff != 0 then dateDiff
    else
      var timeA := if Truthy(a.time) then a.time.value else "23:59";
      var timeB := if Truthy(b.time) then b.time.value else "23:59";
      Compare(timeA, timeB)
  }

  /** The comparator orders exactly as the key does. */
  lemma ManagerCompareIsKey(a: LegacyTask, b: LegacyTask)
    ensures ManagerCompare(a, b) < 0 <==> KeyLess(ManagerKey(a), ManagerKey(b))
    ensures ManagerCompare(a, b) > 0 <==> KeyLess(ManagerKey(b), ManagerKey(a))
    ensures ManagerCompare(a, b) == 0 <==> ManagerKey(a) == ManagerKey(b)
  {
  }

  /** `sortedTasks`. */
  function SortedTasks(tasks: seq<LegacyTask>): (r: seq<LegacyTask>)
    ensures multiset(r) == multiset(tasks)
  {
    SortByKey(tasks, ManagerKey)
  }

  /** The sorted list runs by date, and within a date by time text, an
      untimed task counting as `23:59`. */
  lemma SortedTasksOrder(tasks: seq<LegacyTask>, i: int, j: int)
    requires 0 <= i < j < |SortedTasks(tasks)|
    ensures var r := SortedTasks(tasks);
      && Minutes(r[i].date) <= Minutes(r[j].date)
      && (Minutes(r[i].date) == Minutes(r[j].date) ==> !LexLess(ManagerKey(r[j]).minor, ManagerKey(r[i]).minor))
  {
  }

  /** WeeklyCalendar's key: timed tasks first, by time text; untimed tasks
      after them, all equal. */
  function WeekKey(t: LegacyTask): Key
  {
    if Truthy(t.time) then Key(0, t.time.value) else Key(1, "")
  }

  /** WeeklyCalendar's comparator as written. */
  function WeekCompare(a: LegacyTask, b: LegacyTask): (r: int)
    ensures !Truthy(a.time) ==> r >= 0
    ensures !Truthy(b.time) ==> r <= 0
  {
    if !Truthy(a.time) && !Truthy(b.time) then 0
    else if !Truthy(a.time) then 1
    else if !Truthy(b.time) then -1
    else Compare(a.time.value, b.time.value)
  }

  /** The comparator orders exactly as the key does. */
  lemma WeekCompareIsKey(a: LegacyTask, b: LegacyTask)
    ensures WeekCompare(a, b) < 0 <==> KeyLess(WeekKey(a), WeekKey(b))
    ensures WeekCompare(a, b) > 0 <==> KeyLess(WeekKey(b), WeekKey(a))
    ensures WeekCompare(a, b) == 0 <==> WeekKey(a) == WeekKey(b)
  {
  }

  /** WeeklyCalendar's `getTasksForDay(day)`: the day's tasks, sorted. */
  function DayTasks(tasks: seq<LegacyTask>, day: Day): (r: seq<LegacyTask>)
    ensures forall t :: multiset(r)[t] == if SameDay(t.date, day) then multiset(tasks)[t] else 0
    ensures forall t :: t in r <==> t in tasks && t.date.day == day
  {
    var dayTasks := Filter(tasks, (t: LegacyTask) => SameDay(t.date, day));
    forall t ensures multiset(dayTasks)[t] == if SameDay(t.date, day) then multiset(tasks)[t] else 0 {
      FilterMultiplicity(tasks, (t: LegacyTask) => SameDay(t.date, day), t);
    }
    SortByKey(dayTasks, WeekKey)
  }

  /** On a day, untimed tasks come after every timed one, and timed tasks
      run by time text. */
  lemma DayTasksOrder(tasks: seq<LegacyTask>, day: Day, i: int, j: int)
    requires 0 <= i < j < |DayTasks(tasks, day)|
    ensures var r := DayTasks(tasks, day);
      && (Truthy(r[j].time) ==> Truthy(r[i].time))
      && (Truthy(r[i].time) && Truthy(r[j].time) ==> !LexLess(r[j].time.value, r[i].time.value))
  {
    var dayTasks := Filter(tasks, (t: LegacyTask) => SameDay(t.date, day));
    assert DayTasks(tasks, day) == SortByKey(dayTasks, WeekKey);
  }

  /** The task `onTaskAdd` receives. */
  datatype LegacyInput = LegacyInput(title: string, description: string, date: Instant, time: Option<string>, completed: bool)

  /** TaskManager's `newTask` form; the date is `yyyy-MM-dd` text. */
  datatype NewTask = NewTask(title: string, description: string, date: string, time: string)

  /** TaskManager's dialog state. `today` is `format(new Date(), 'yyyy-MM-dd')`. */
  class TaskManager {
    var open: bool
    var newTask: NewTask

    constructor (today: string)
      ensures !open && newTask == NewTask("", "", today, "")
    {
      open := false;
      newTask := NewTask("", "", today, "");
    }

    /** `handleOpen`. */
    method HandleOpen()
      modifies this
      ensures open && newTask == old(newTask)
    {
      open := true;
    }

    /** `handleClose`: close and clear the form, the date back to today. */
    method HandleClose(today: string)
      modifies this
      ensures !open && newTask == NewTask("", "", today, "")
    {
      open := false;
      newTask := NewTask("", "", today, "");
    }

    /** `handleSubmit`: with a title that is not blank after `trim`, hand
      `onTaskAdd` the new task (not completed; an empty time as
      `undefined`; the date text read by `parseDate`, `new Date(text)`) and
      close; otherwise do nothing. */
    method HandleSubmit(parseDate: string -> Instant, today: string) returns (added: Option<LegacyInput>)
      modifies this
      ensures added.None? <==> IsBlank(old(newTask).title)
      ensures added.None? ==> open == old(open) && newTask == old(newTask)
      ensures added.Some? ==>
        && added.value == LegacyInput(old(newTask).title, old(newTask).description, parseDate(old(newTask).date),
                                      if old(newTask).time == "" then None else Some(old(newTask).time), false)
        && !open && newTask == NewTask("", "", today, "")
    {
      TrimEmptyIffBlank(newTask.title);
      if Trim(newTask.title) != "" {
        added := Some(LegacyInput(newTask.title, newTask.description, parseDate(newTask.date),
                                  if newTask.time == "" then None else Some(newTask.time), false));
        HandleClose(today);
      } else {
        added := None;
      }
    }
  }
}
