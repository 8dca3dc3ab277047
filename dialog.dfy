/** The task dialog of components/TaskDialog.tsx: the form it fills from a
    task or from defaults, the `datetime-local` text it writes the two times
    in, the repeat-day checkboxes, and `handleSubmit`, which checks the form
    and turns it into the task handed to `onSave`. */
module Dialog {

  import opened Wrappers
  import opened Text
  import opened Calendar
  import opened Tasks

  type MonthIndex = m: int | 0 <= m < 12
  type DayOfMonth = d: int | 1 <= d <= 31 witness 1

  /** What the local-time getters of a `Date` return: `getFullYear()`,
      `getMonth()` (0 for January), `getDate()`, `getHours()`,
      `getMinutes()`. */
  datatype Civil = Civil(year: int, month: MonthIndex, date: DayOfMonth, hours: Hour, minutes: Minute)

  /** `String(year)`: a minus sign in front of a negative year. */
  function YearText(y: int): (s: string)
    ensures y >= 0 ==> s == Decimal(y)
  {
    if y < 0 then "-" + Decimal(-y) else Decimal(y)
  }

  /** `formatDateTimeLocal`: `year-MM-DDTHH:MM`, the month counted from 1,
      month, day, hour and minute padded to two digits. */
  function FormatDateTimeLocal(c: Civil): (r: string)
    ensures var n := |YearText(c.year)|;
      |r| == n + 12 && r[..n] == YearText(c.year)
      && r[n] == '-' && r[n + 3] == '-' && r[n + 6] == 'T' && r[n + 9] == ':'
  {
    YearText(c.year) + "-" + Pad2(c.month + 1) + "-" + Pad2(c.date) + "T" + Pad2(c.hours) + ":" + Pad2(c.minutes)
  }

  /** `parseDateTimeLocal`, `new Date(text)`, on the `YYYY-MM-DDTHH:MM`
      layout the input uses, read as local time. `None` is an Invalid Date:
      any other text, or a field out of range. */
  function ParseDateTimeLocal(s: string): (r: Option<Civil>)
    ensures r.Some? ==> |s| == 16 && s[4] == '-' && s[7] == '-' && s[10] == 'T' && s[13] == ':'
  {
    if |s| == 16 && s[4] == '-' && s[7] == '-' && s[10] == 'T' && s[13] == ':'
       && AllDigits(s[..4]) && AllDigits(s[5..7]) && AllDigits(s[8..10]) && AllDigits(s[11..13]) && AllDigits(s[14..])
    then
      var year, month, date := DigitsValue(s[..4]), DigitsValue(s[5..7]), DigitsValue(s[8..10]);
      var hours, minutes := DigitsValue(s[11..13]), DigitsValue(s[14..]);
      if 1 <= month <= 12 && 1 <= date <= 31 && hours < 24 && minutes < 60 then
        Some(Civil(year, month - 1, date, hours, minutes))
      else None
    else None
  }

  /** A four-digit year is written with four digits. */
  lemma DecimalFour(y: nat)
    requires 1000 <= y <= 9999
    ensures |Decimal(y)| == 4
  {
    assert Decimal(y) == Decimal(y / 10) + [DigitChar(y % 10)];
    assert Decimal(y / 10) == Decimal(y / 100) + [DigitChar(y / 10 % 10)];
    assert Decimal(y / 100) == Decimal(y / 1000) + [DigitChar(y / 100 % 10)];
  }

  /** For a four-digit year the text has the fixed `YYYY-MM-DDTHH:MM`
      layout, and reading it back gives the same fields: the form shows a
      task's times and saves them unchanged. */
  lemma FormatRoundTrip(c: Civil)
    requires 1000 <= c.year <= 9999
    ensures var s := FormatDateTimeLocal(c);
      && |s| == 16 && s[4] == '-' && s[7] == '-' && s[10] == 'T' && s[13] == ':'
      && ParseDateTimeLocal(s) == Some(c)
  {
    var y, mo, d, h, mi := Decimal(c.year), Pad2(c.month + 1), Pad2(c.date), Pad2(c.hours), Pad2(c.minutes);
    DecimalFour(c.year);
    DecimalRoundTrip(c.year);
    Pad2RoundTrip(c.month + 1);
    Pad2RoundTrip(c.date);
    Pad2RoundTrip(c.hours);
    Pad2RoundTrip(c.minutes);
    var s := FormatDateTimeLocal(c);
    assert s == y + "-" + mo + "-" + d + "T" + h + ":" + mi;
    assert s[..4] == y;
    assert s[5..7] == mo;
    assert s[8..10] == d;
    assert s[11..13] == h;
    assert s[14..] == mi;
  }

  /** The dialog's form. The times are the texts of the two inputs. */
  datatype FormData = FormData(
    title: string,
    description: string,
    startText: string,
    endText: string,
    completed: bool,
    repeatDays: seq<bool>,
    assignedTo: string)

  /** `[false, false, false, false, false, false, false]`. */
  const NoDays: seq<bool> := [false, false, false, false, false, false, false]

  /** `formData.repeatDays.some(d => d)`. */
  predicate AnyDay(days: seq<bool>)
  {
    exists i :: 0 <= i < |days| && days[i]
  }

  /** What `handleSubmit` does with a form. */
  datatype Outcome =
    | Ignored           // blank title: nothing happens
    | EndNotAfterStart  // the alert; the dialog stays open
    | InvalidDates      // a time text is not a date: the comparison is false and the save goes ahead with Invalid Dates
    | Save(task: TaskInput)

  /** `handleSubmit`, with `toInstant` the local-time reading of the parsed
      fields. The title must not be blank after `trim`; the end must come
      after the start; the saved mask is the form's when at least one day is
      ticked and `undefined` otherwise; an empty assignee is `undefined`. */
  function Submit(form: FormData, toInstant: Civil -> Instant): (r: Outcome)
    ensures r == Ignored <==> IsBlank(form.title)
    ensures r == InvalidDates <==>
      !IsBlank(form.title) && (ParseDateTimeLocal(form.startText).None? || ParseDateTimeLocal(form.endText).None?)
    ensures r == EndNotAfterStart <==>
      && !IsBlank(form.title)
      && ParseDateTimeLocal(form.startText).Some? && ParseDateTimeLocal(form.endText).Some?
      && Minutes(toInstant(ParseDateTimeLocal(form.endText).value))
         <= Minutes(toInstant(ParseDateTimeLocal(form.startText).value))
    ensures r.Save? ==>
      && r.task.start == toInstant(ParseDateTimeLocal(form.startText).value)
      && r.task.end == toInstant(ParseDateTimeLocal(form.endText).value)
      && Minutes(r.task.start) < Minutes(r.task.end)
      && r.task.title == form.title && r.task.description == form.description
      && r.task.completed == form.completed
      && r.task.completedDates.None? && r.task.employerId.None?
      && (r.task.repeatDays.Some? <==> AnyDay(form.repeatDays))
      && (r.task.repeatDays.Some? ==> r.task.repeatDays.value == form.repeatDays)
      && (r.task.assignedTo.None? <==> form.assignedTo == "")
      && (r.task.assignedTo.Some? ==> r.task.assignedTo.value == form.assignedTo)
  {
    TrimEmptyIffBlank(form.title);
    if Trim(form.title) == "" then Ignored
    else
      var startDate, endDate := ParseDateTimeLocal(form.startText), ParseDateTimeLocal(form.endText);
      if startDate.None? || endDate.None? then InvalidDates
      else if Minutes(toInstant(endDate.value)) <= Minutes(toInstant(startDate.value)) then EndNotAfterStart
      else
        Save(TaskInput(
          form.title,
          form.description,
          toInstant(startDate.value),
          toInstant(endDate.value),
          form.completed,
          None,
          if AnyDay(form.repeatDays) then Some(form.repeatDays) else None,
          None,
          if form.assignedTo != "" then Some(form.assignedTo) else None))
  }

  /** `handleRepeatDayChange(index)` on the mask, for a checkbox index 0 to
      6: entry `index` flips. A mask shorter than that grows to it, the
      entries in between read as unticked. */
  function FlipDay(days: seq<bool>, i: nat): (r: seq<bool>)
    requires i < 7
    ensures |r| == if i < |days| then |days| else i + 1
    ensures r[i] == !(i < |days| && days[i])
    ensures forall j :: 0 <= j < |r| && j != i ==> r[j] == (j < |days| && days[j])
  {
    if i < |days| then days[i := !days[i]] else days + seq(i - |days|, _ => false) + [true]
  }

  /** Flipping the same checkbox twice restores the mask; a mask that had
      to grow comes back as itself followed by unticked days. */
  lemma FlipTwice(days: seq<bool>, i: nat)
    requires i < 7
    ensures i < |days| ==> FlipDay(FlipDay(days, i), i) == days
    ensures var r := FlipDay(FlipDay(days, i), i);
      forall j :: 0 <= j < |r| ==> r[j] == (j < |days| && days[j])
  {
  }

  /** `defaultStart.setMinutes(0, 0, 0)`: the top of the current hour. */
  function DefaultStart(now: Instant): (start: Instant)
    ensures start.day == now.day && start.hour == now.hour && start.minute == 0
    ensures Minutes(start) <= Minutes(now) < Minutes(start) + 60
  {
    now.(minute := 0)
  }

  /** `defaultEnd.setHours(defaultStart.getHours() + 1)`: an hour later. */
  function DefaultEnd(start: Instant): (end: Instant)
    ensures Minutes(end) == Minutes(start) + 60
    ensures start.minute == 0 ==> end.minute == 0
  {
    ModSixty(Minutes(start) + 60, start.day * 24 + start.hour + 1, start.minute);
    AddMinutes(start, 60)
  }

  /** The assignee of a new task: `assignedTo || ''`, but the only helper
      when an employer with exactly one helper opens the dialog without an
      assignee. */
  function DefaultAssignee(isEmployer: bool, helpers: Option<seq<string>>, assignedTo: Option<string>): (r: string)
    ensures isEmployer && helpers.Some? && |helpers.value| == 1 && !Truthy(assignedTo) ==> r == helpers.value[0]
    ensures Truthy(assignedTo) ==> r == assignedTo.value
    ensures r == "" <==>
      !Truthy(assignedTo) && !(isEmployer && helpers.Some? && |helpers.value| == 1 && helpers.value[0] != "")
  {
    var defaultAssignedTo := if Truthy(assignedTo) then assignedTo.value else "";
    if isEmployer && helpers.Some? && |helpers.value| == 1 && !Truthy(assignedTo) then helpers.value[0]
    else defaultAssignedTo
  }

  /** The form for an existing task, its times as `local` shows them. */
  function TaskForm(task: Task, local: Instant -> Civil): (form: FormData)
    ensures form.title == task.title && |form.repeatDays| == |task.repeatDays.GetOr(NoDays)|
  {
    FormData(
      task.title,
      task.description,
      FormatDateTimeLocal(local(task.start)),
      FormatDateTimeLocal(local(task.end)),
      task.completed,
      task.repeatDays.GetOr(NoDays),
      if Truthy(task.assignedTo) then task.assignedTo.value else "")
  }

  /** The form for a new task: blank, the coming hour, no days, the default
      assignee. */
  function NewForm(now: Instant, local: Instant -> Civil, isEmployer: bool, helpers: Option<seq<string>>,
                   assignedTo: Option<string>): (form: FormData)
    ensures form.title == "" && form.repeatDays == NoDays && !form.completed
  {
    var start := DefaultStart(now);
    FormData("", "", FormatDateTimeLocal(local(start)), FormatDateTimeLocal(local(DefaultEnd(start))),
             false, NoDays, DefaultAssignee(isEmployer, helpers, assignedTo))
  }

  /** Submitting a task's form unchanged saves the task as it was, except
      that a mask with no day ticked is saved as `undefined`, a falsy assignee
      as `undefined`, and `completedDates` and `employerId` are left out.
      `local` and `toInstant` are taken to be inverse on the two times. */
  lemma EditUnchanged(task: Task, local: Instant -> Civil, toInstant: Civil -> Instant)
    requires toInstant(local(task.start)) == task.start && toInstant(local(task.end)) == task.end
    requires 1000 <= local(task.start).year <= 9999 && 1000 <= local(task.end).year <= 9999
    requires !IsBlank(task.title) && Minutes(task.start) < Minutes(task.end)
    ensures Submit(TaskForm(task, local), toInstant) == Save(TaskInput(
      task.title, task.description, task.start, task.end, task.completed, None,
      if task.repeatDays.Some? && AnyDay(task.repeatDays.value) then task.repeatDays else None,
      None,
      if Truthy(task.assignedTo) then task.assignedTo else None))
  {
    FormatRoundTrip(local(task.start));
    FormatRoundTrip(local(task.end));
    var form := TaskForm(task, local);
    assert !AnyDay(NoDays);
    var r := Submit(form, toInstant);
    assert r.Save?;
  }

  /** A new form with a title saves a task lasting exactly one hour from the
      top of the current hour. */
  lemma NewFormHour(now: Instant, local: Instant -> Civil, toInstant: Civil -> Instant, isEmployer: bool,
                    helpers: Option<seq<string>>, assignedTo: Option<string>, title: string)
    requires var start := DefaultStart(now);
      && toInstant(local(start)) == start && toInstant(local(DefaultEnd(start))) == DefaultEnd(start)
      && 1000 <= local(start).year <= 9999 && 1000 <= local(DefaultEnd(start)).year <= 9999
    requires !IsBlank(title)
    ensures var r := Submit(NewForm(now, local, isEmployer, helpers, assignedTo).(title := title), toInstant);
      && r.Save? && r.task.start == DefaultStart(now)
      && Minutes(r.task.end) == Minutes(r.task.start) + 60
      && r.task.repeatDays.None?
  {
    var start := DefaultStart(now);
    FormatRoundTrip(local(start));
    FormatRoundTrip(local(DefaultEnd(start)));
    assert !AnyDay(NoDays);
  }

  /** The dialog's form state. */
  class TaskDialog {
    var form: FormData

    /** The initial `useState`: a blank form for the coming hour. */
    constructor (now: Instant, local: Instant -> Civil)
      ensures form == NewForm(now, local, false, None, None)
    {
      var defaultStart := DefaultStart(now);
      var defaultEnd := DefaultEnd(defaultStart);
      form := FormData("", "", FormatDateTimeLocal(local(defaultStart)), FormatDateTimeLocal(local(defaultEnd)),
                       false, NoDays, "");
    }

    /** The `useEffect` run when the dialog opens: the task's form, or a new
      one. */
    method Open(task: Option<Task>, now: Instant, local: Instant -> Civil, isEmployer: bool,
                helpers: Option<seq<string>>, assignedTo: Option<string>)
      modifies this
      ensures task.Some? ==> form == TaskForm(task.value, local)
      ensures task.None? ==> form == NewForm(now, local, isEmployer, helpers, assignedTo)
    {
      if task.Some? {
        form := TaskForm(task.value, local);
      } else {
        form := NewForm(now, local, isEmployer, helpers, assignedTo);
      }
    }

    /** `handleRepeatDayChange(index)`: copy the mask, flip entry `index` of
      the copy, and write the copy back; nothing else in the form changes. */
    method RepeatDayChange(index: nat)
      requires index < 7
      modifies this
      ensures form == old(form).(repeatDays := FlipDay(old(form).repeatDays, index))
    {
      var days := form.repeatDays;
      var n := if index < |days| then |days| else index + 1;
      var newRepeatDays := new bool[n](j requires 0 <= j < n => j < |days| && days[j]);
      newRepeatDays[index] := !newRepeatDays[index];
      form := form.(repeatDays := newRepeatDays[..]);
    }
  }
}
