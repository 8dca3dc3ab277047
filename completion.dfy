/** Completion state per calendar day (the `isCompleted` expression of the
    three views) and the patch `handleTaskToggleComplete` in app/page.tsx
    sends to the store. A repeating task is done on a day when its
    completed-dates list holds that day's key; any other task uses its
    single flag. */
module Completion {

  import opened Wrappers
  import opened Calendar
  import opened Tasks
  import opened Sequences

  /** `task.completedDates || []`. */
  function CompletedList(t: Task): seq<string>
  {
    t.completedDates.GetOr([])
  }

  /** The views' `isCompleted` for `task` on day `d`. */
  predicate IsCompleted(t: Task, d: Day)
    ensures t.repeatDays.Some? && t.completedDates.None? ==> !IsCompleted(t, d)
    ensures t.repeatDays.Some? && IsCompleted(t, d) ==> t.completedDates.Some? && DateKey(d) in t.completedDates.value
  {
    if t.repeatDays.Some? then DateKey(d) in CompletedList(t) else t.completed
  }

  /** `completedDates.filter(d => d !== dateString)`: every copy of the key
      goes, every other entry stays as often as it was, in order. */
  function RemoveKey(dates: seq<string>, key: string): (r: seq<string>)
    ensures key !in r
    ensures forall k :: k != key ==> (k in r <==> k in dates)
    ensures |r| <= |dates|
  {
    Filter(dates, k => k != key)
  }

  lemma RemoveKeyMultiplicity(dates: seq<string>, key: string, k: string)
    ensures multiset(RemoveKey(dates, key))[k] == if k == key then 0 else multiset(dates)[k]
  {
    FilterMultiplicity(dates, k => k != key, k);
  }

  /** The completed-dates list after toggling `key`: without it when it was
      there, with it appended when it was not. */
  function ToggleKey(dates: seq<string>, key: string): (r: seq<string>)
    ensures key in r <==> key !in dates
    ensures forall k :: k != key ==> (k in r <==> k in dates)
  {
    if key in dates then RemoveKey(dates, key) else dates + [key]
  }

  /** The patch `handleTaskToggleComplete` builds for `task` and the key of
      the clicked day. */
  function TogglePatch(t: Task, key: string): (p: Partial)
    ensures t.repeatDays.Some? ==> p == EmptyPartial.(completedDates := Some(ToggleKey(CompletedList(t), key)))
    ensures t.repeatDays.None? ==> p == EmptyPartial.(completed := Some(!t.completed))
  {
    if t.repeatDays.Some? then
      var dates := CompletedList(t);
      EmptyPartial.(completedDates := Some(if key in dates then RemoveKey(dates, key) else dates + [key]))
    else
      EmptyPartial.(completed := Some(!t.completed))
  }

  /** The patch sets one field, `completedDates` or `completed`, and never
      both; the mask and every other field are left alone. */
  lemma PatchTouchesOneField(t: Task, key: string)
    ensures var p := TogglePatch(t, key);
      && (p.completedDates.Some? <==> t.repeatDays.Some?)
      && (p.completed.Some? <==> t.repeatDays.None?)
      && p.title.None? && p.description.None? && p.start.None? && p.end.None?
      && p.repeatDays.None? && p.employerId.None? && p.assignedTo.None?
  {
  }

  /** The task as the patch leaves it. */
  function Toggled(t: Task, d: Day): (r: Task)
    ensures r.repeatDays == t.repeatDays && r.start == t.start && r.id == t.id
  {
    ApplyPartial(t, TogglePatch(t, DateKey(d)))
  }

  /** Toggling a day flips that day's completion. */
  lemma ToggleFlips(t: Task, d: Day)
    ensures IsCompleted(Toggled(t, d), d) == !IsCompleted(t, d)
  {
  }

  /** Toggling a day of a repeating task leaves every other day as it was. */
  lemma ToggleOtherDays(t: Task, d: Day, e: Day)
    requires t.repeatDays.Some? && e != d
    ensures IsCompleted(Toggled(t, d), e) == IsCompleted(t, e)
  {
    if DateKey(e) == DateKey(d) {
      DateKeyInjective(e, d);
    }
  }

  /** A task without a mask has one flag for all days: toggling any day
      flips it for every day, and `completedDates` is not touched. */
  lemma ToggleOneTime(t: Task, d: Day, e: Day)
    requires t.repeatDays.None?
    ensures IsCompleted(Toggled(t, d), e) == !IsCompleted(t, e)
    ensures Toggled(t, d) == t.(completed := !t.completed)
  {
  }

  /** Toggling the same day twice restores the completion of every day; for
      a task without a mask it restores the task itself. */
  lemma ToggleTwice(t: Task, d: Day, e: Day)
    ensures IsCompleted(Toggled(Toggled(t, d), d), e) == IsCompleted(t, e)
    ensures t.repeatDays.None? ==> Toggled(Toggled(t, d), d) == t
  {
    if t.repeatDays.Some? && e != d {
      ToggleOtherDays(t, d, e);
      ToggleOtherDays(Toggled(t, d), d, e);
    }
  }
}
