/** Which tasks a calendar cell shows. The day view and the week view
    (components/DayView.tsx, components/TimeSlotCalendar.tsx) ask for the
    tasks of one day and one half-hour slot; the month view
    (components/MonthView.tsx) asks for the tasks of one day. All three use
    the same occurrence test: the task starts on that day, or its weekday
    mask is on for that day's Monday-first index. */
module Occurrence {

  import opened Wrappers
  import opened Calendar
  import opened Tasks
  import opened Slots
  import opened Sequences

  /** A task occurs on day `d` when it starts on `d`, whatever its mask says,
      or when its mask is on for the weekday of `d`. */
  predicate OccursOn(t: Task, d: Day)
    ensures t.repeatDays.None? ==> (OccursOn(t, d) <==> SameDay(t.start, d))
    ensures OccursOn(t, d) && !SameDay(t.start, d) ==> t.repeatDays.Some? && MondayIndex(d) < |t.repeatDays.value| && t.repeatDays.value[MondayIndex(d)]
  {
    SameDay(t.start, d) || RepeatsOn(t, MondayIndex(d))
  }

  /** The slot views' filter: the start time rounds to this slot and the
      task occurs on this day. */
  predicate InSlot(t: Task, d: Day, slot: string)
  {
    RoundToTimeSlot(t.start) == slot && OccursOn(t, d)
  }

  /** `getTasksForSlot(day, timeSlot)`. */
  function TasksForSlot(tasks: seq<Task>, d: Day, slot: string): (r: seq<Task>)
    ensures |r| <= |tasks|
    ensures forall t :: t in r <==>
      && t in tasks
      && RoundToTimeSlot(t.start) == slot
      && (t.start.day == d
          || (t.repeatDays.Some? && (d + 3) % 7 < |t.repeatDays.value| && t.repeatDays.value[(d + 3) % 7]))
  {
    MondayIndexClosed(d);
    Filter(tasks, t => InSlot(t, d, slot))
  }

  /** `getTasksForDay(day)` of the month view: no slot condition. */
  function TasksForDay(tasks: seq<Task>, d: Day): (r: seq<Task>)
    ensures |r| <= |tasks|
    ensures forall t :: t in r <==>
      && t in tasks
      && (t.start.day == d
          || (t.repeatDays.Some? && (d + 3) % 7 < |t.repeatDays.value| && t.repeatDays.value[(d + 3) % 7]))
  {
    MondayIndexClosed(d);
    Filter(tasks, t => OccursOn(t, d))
  }

  /** A cell holds each task as often as the input does, or not at all: a
      list of distinct tasks gives a cell of distinct tasks. */
  lemma SlotMultiplicity(tasks: seq<Task>, d: Day, slot: string, t: Task)
    ensures multiset(TasksForSlot(tasks, d, slot))[t]
         == if InSlot(t, d, slot) then multiset(tasks)[t] else 0
  {
    FilterMultiplicity(tasks, t => InSlot(t, d, slot), t);
  }

  lemma DayMultiplicity(tasks: seq<Task>, d: Day, t: Task)
    ensures multiset(TasksForDay(tasks, d))[t]
         == if OccursOn(t, d) then multiset(tasks)[t] else 0
  {
    FilterMultiplicity(tasks, t => OccursOn(t, d), t);
  }

  /** The cell is a subsequence of the input: its `k`th task is the input's
      task at position `positions[k]`, and the positions increase. So the
      stacking index of a task in a cell follows input order. */
  lemma SlotOrder(tasks: seq<Task>, d: Day, slot: string)
    ensures var cell, positions := TasksForSlot(tasks, d, slot), KeptPositions(tasks, t => InSlot(t, d, slot));
      && |positions| == |cell|
      && (forall k :: 0 <= k < |cell| ==> positions[k] < |tasks| && cell[k] == tasks[positions[k]])
      && (forall k, l :: 0 <= k < l < |cell| ==> positions[k] < positions[l])
  {
    FilterPositions(tasks, t => InSlot(t, d, slot));
  }

  lemma DayOrder(tasks: seq<Task>, d: Day)
    ensures var cell, positions := TasksForDay(tasks, d), KeptPositions(tasks, t => OccursOn(t, d));
      && |positions| == |cell|
      && (forall k :: 0 <= k < |cell| ==> positions[k] < |tasks| && cell[k] == tasks[positions[k]])
      && (forall k, l :: 0 <= k < l < |cell| ==> positions[k] < positions[l])
  {
    FilterPositions(tasks, t => OccursOn(t, d));
  }

  /** A task is in at most one slot of a day. */
  lemma OneSlotPerDay(tasks: seq<Task>, d: Day, s1: string, s2: string, t: Task)
    requires t in TasksForSlot(tasks, d, s1) && t in TasksForSlot(tasks, d, s2)
    ensures s1 == s2
  {
  }

  /** The slot grid loses nothing: a task of the day is in exactly one of
      the 48 slots of that day, the one its start time rounds to; and a task
      in some slot of a day is a task of that day. */
  lemma SlotsCoverDay(tasks: seq<Task>, d: Day, t: Task)
    ensures t in TasksForDay(tasks, d) <==> exists i :: 0 <= i < SlotCount && t in TasksForSlot(tasks, d, AllSlots()[i])
    ensures t in TasksForDay(tasks, d) ==> t in TasksForSlot(tasks, d, RoundToTimeSlot(t.start))
  {
    if t in TasksForDay(tasks, d) {
      var i := SlotIndex(t.start);
      RoundInSlots(t.start);
      assert t in TasksForSlot(tasks, d, AllSlots()[i]);
    }
  }

  /** The same-day test comes first: a repeating task is shown on its own
      start day even when the mask is off for that weekday. */
  lemma StartDayWins(t: Task)
    requires t.repeatDays.Some? && !RepeatsOn(t, MondayIndex(t.start.day))
    ensures OccursOn(t, t.start.day)
  {
  }

  /** A task without a mask occurs on its start day only. */
  lemma OneTimeOnlyOnStartDay(t: Task, d: Day)
    requires t.repeatDays.None?
    ensures OccursOn(t, d) <==> d == t.start.day
  {
  }

  /** Away from its start day, a task occurs on a day exactly when it occurs
      a week later: the mask repeats every seven days. */
  lemma WeeklyRepetition(t: Task, d: Day, n: int)
    requires d != t.start.day && d + 7 * n != t.start.day
    ensures OccursOn(t, d) <==> OccursOn(t, d + 7 * n)
  {
    MondayIndexWeeks(d, n);
  }

  /** A week view column is the day view of that day: the week view asks
      for day `WeekDays(d)[i]` what the day view asks for that day. */
  lemma WeekColumnIsDay(tasks: seq<Task>, d: Day, i: int, slot: string)
    requires 0 <= i < 7
    ensures TasksForSlot(tasks, WeekDays(d)[i], slot) == TasksForSlot(tasks, StartOfWeek(d) + i, slot)
    ensures forall t :: t in TasksForSlot(tasks, WeekDays(d)[i], slot) ==>
      t.start.day == StartOfWeek(d) + i || RepeatsOn(t, i)
  {
  }

  /** The month view shows the first three tasks of a day. */
  function Shown(dayTasks: seq<Task>): (r: seq<Task>)
    ensures |r| <= 3 && r <= dayTasks
    ensures |dayTasks| <= 3 ==> r == dayTasks
  {
    if |dayTasks| <= 3 then dayTasks else dayTasks[..3]
  }

  /** The month view's `+N more` caption, absent for three tasks or fewer. */
  function MoreCount(dayTasks: seq<Task>): (r: Option<nat>)
    ensures r.Some? <==> |dayTasks| > 3
    ensures r.Some? ==> r.value >= 1
  {
    if |dayTasks| > 3 then Some(|dayTasks| - 3) else None
  }

  /** What is shown and what `+N more` counts add up to the day's tasks;
      the tasks left out are the ones after the first three. */
  lemma ShownPlusMore(dayTasks: seq<Task>)
    ensures |Shown(dayTasks)| + MoreCount(dayTasks).GetOr(0) == |dayTasks|
    ensures Shown(dayTasks) + dayTasks[|Shown(dayTasks)|..] == dayTasks
  {
  }
}
