# HelperCalendar task-occurrence engine, in Dafny

HelperCalendar is a small calendar app. An employer creates tasks and
assigns them to helpers. A task has a start and an end date-time and an
optional Monday-first `repeatDays` mask. A task without a mask is done or
not by one `completed` flag. A task with a mask is done per day: the day's
`yyyy-MM-dd` key is in its `completedDates`.

This project models the logic that decides what the calendar shows and what
it saves:

- the half-hour slot grid of the day and week views (the 48 labels, rounding
  a start time down to its slot, and the 12-hour display text);
- which tasks a cell shows: the task starts that day, or its mask is on for
  that weekday, plus the slot condition in the slot views;
- completion per day, and the one-field patch a toggle sends;
- the navigable windows: the Monday-first week, the single day, and the
  month grid;
- the task dialog: filling the form, the `datetime-local` text, the
  repeat-day checkboxes, and `handleSubmit`'s checks and normalisation;
- the documents the Firestore module writes and reads back, with the
  database as a list of documents;
- the home page's handlers (load, toggle, save, delete);
- the two legacy list views and their sort orders.

Modules, one per concern:

- `Wrappers`: `Option`.
- `Text`: the JavaScript string operations used. These are `String(n)`,
  `padStart`, `parseInt`'s leading digits, `split`, `trim`, and code-unit
  order.
- `Calendar`: days, weekdays, weeks, months and instants.
- `Tasks`: the `Task` record and its derived shapes.
- `Sequences`: `filter` and `find`.
- `Slots`, `Occurrence`, `Completion`, `Views`: the three calendar views.
- `Store`: lib/firebase/tasks.ts.
- `Board`: app/page.tsx.
- `Dialog`: components/TaskDialog.tsx.
- `Legacy`: components/TaskManager.tsx and components/WeeklyCalendar.tsx.

How dates are modelled:

- A day is an integer serial, day 0 being Thursday 1 January 1970.
- date-fns' `getDay` is `(d + 4) % 7`.
- An instant is a day, an hour and a minute.
- A month is counted from January 1970, with Gregorian month lengths.
- The `yyyy-MM-dd` key of a day is a text that is distinct for distinct
  days. The completion logic relies on nothing more.

The same-day test applies to repeating tasks as well as one-time tasks, and
it runs before the mask test (components/TimeSlotCalendar.tsx:89-96). The
model follows that code: a repeating task shows on its own start day even
when its mask is off for that weekday (`Occurrence.StartDayWins`).

## Model

| member | source | states |
|---|---|---|
| Calendar.MondayIndex | components/TimeSlotCalendar.tsx:74 | `(getDay(day) + 6) % 7` always lies in 0..6 |
| Calendar.MondayIndexMeaning | components/TimeSlotCalendar.tsx:74 | Sunday (getDay 0) maps to 6 and Monday (getDay 1) maps to 0; the next day has the next index, modulo 7 |
| Calendar.StartOfWeek | components/TimeSlotCalendar.tsx:53 | `startOfWeek(d, {weekStartsOn: 1})` is a Monday, on or before d, less than seven days before it |
| Calendar.StartOfWeekUnique | components/TimeSlotCalendar.tsx:53 | the week start is the only Monday among the seven days ending on d |
| Calendar.WeekDays | components/TimeSlotCalendar.tsx:53-54 | the week is 7 consecutive days from the week start, day i has Monday-first index i, and it holds the current day; the legacy view (components/WeeklyCalendar.tsx:34-35) builds the same seven days |
| Calendar.WeekShift | components/TimeSlotCalendar.tsx:56-62 | moving by n weeks moves the week start and every day of the week by 7n days |
| Calendar.DateKeyInjective | components/TimeSlotCalendar.tsx:201 | distinct days have distinct date keys |
| Calendar.DaysInMonth | components/MonthView.tsx:38-39 | a month has 28 to 31 days (Gregorian leap years) |
| Calendar.LeapStep | components/MonthView.tsx:38-39 | the count of Gregorian leap years grows by one exactly at a leap year, so a year's length is 366 exactly in leap years |
| Calendar.MonthLast | components/MonthView.tsx:39 | `endOfMonth` falls 27 to 30 days after `startOfMonth` |
| Calendar.MonthsAdjacent | components/MonthView.tsx:50-56 | the next month starts as many days after this one's start as this month has, the day after this month's last day |
| Calendar.January1970 | components/MonthView.tsx:38-39 | January 1970 starts on day 0, has 31 days and ends on day 30 |
| Calendar.MinutesInjective | components/TaskDialog.tsx:114 | two instants with the same minute count are the same instant, so comparing dates by minute count loses nothing |
| Calendar.AddMinutes | components/TaskDialog.tsx:60-61 | adding n minutes adds n to the minute count |
| Text.TrimEmptyIffBlank | components/TaskDialog.tsx:109 | `trim()` gives `''` exactly when every character is JavaScript white space |
| Text.ParseIntPrefix | components/TimeSlotCalendar.tsx:105 | on text that is empty or starts with a digit, `parseInt` is NaN exactly when the text is empty; leading white space and signs are not modelled |
| Text.DecimalRoundTrip | components/TimeSlotCalendar.tsx:40 | reading back `String(n)` gives n |
| Text.Pad2IsPadStart | components/TimeSlotCalendar.tsx:40 | the padded number is `String(n).padStart(2, '0')` |
| Text.Pad2Digits | components/TimeSlotCalendar.tsx:40 | below 100, `padStart(2, '0')` of `String(n)` is the tens digit then the units digit |
| Text.Pad2RoundTrip | components/TimeSlotCalendar.tsx:40 | below 100, the padded text is two digits that read back as n |
| Text.Compare | components/TaskManager.tsx:70 | the comparison is negative, zero or positive exactly when the first text is before, equal to or after the second |
| Text.LexLessTotal | components/WeeklyCalendar.tsx:52 | any two distinct texts are ordered one way or the other |
| Text.LexLessTransitive | components/WeeklyCalendar.tsx:52 | text order is transitive |
| Tasks.WithId | types/task.ts:1-12 | an input given an id becomes a task with that id and every other field from the input: dropping the id gives the input back |
| Tasks.ApplyPartial | types/task.ts:1-12 | a patch sets each field it defines, keeps the others and keeps the id |
| Tasks.ApplyEmpty | types/task.ts:1-12 | the empty patch changes nothing |
| Sequences.Filter | components/TimeSlotCalendar.tsx:76 | `filter` keeps exactly the elements satisfying the test and never lengthens the list |
| Sequences.FilterMultiplicity | components/TimeSlotCalendar.tsx:76 | each element is kept as often as it occurs, or not at all |
| Sequences.KeptPositions | components/TimeSlotCalendar.tsx:76 | the kept input positions strictly increase and are exactly the positions whose element passes |
| Sequences.FilterPositions | components/TimeSlotCalendar.tsx:76 | the filtered list is the input at the kept positions |
| Sequences.Find | app/page.tsx:116 | `find` returns the first element passing the test, and nothing exactly when none passes |
| Slots.TimeTextPadded | components/TimeSlotCalendar.tsx:38-41 | the `HH:MM` text is the padded hour, a colon and the padded minute |
| Slots.TimeTextLess | components/TimeSlotCalendar.tsx:38-41 | an earlier hour and minute give a smaller `HH:MM` text |
| Slots.SlotLabelMinutes | components/TimeSlotCalendar.tsx:36-45 | label i is `HH:MM` and names minute 30·i of the day |
| Slots.AllSlots | components/TimeSlotCalendar.tsx:36-45 | there are exactly 48 slots |
| Slots.GenerateTimeSlots | components/TimeSlotCalendar.tsx:36-45 | the nested loops produce exactly the 48 slot labels, in order; the day view's copy (components/DayView.tsx:36-45) produces the same labels |
| Slots.SlotsOrdered | components/TimeSlotCalendar.tsx:36-45 | the first label is `00:00`, the last is `23:30`, and the labels strictly increase as texts, so they are distinct; the same holds for the day view's labels (components/DayView.tsx:36-45) |
| Slots.SlotLabelLess | components/TimeSlotCalendar.tsx:36-45 | an earlier slot has a smaller label |
| Slots.RoundToTimeSlot | components/TimeSlotCalendar.tsx:65-70 | the rounded text is the label of the time's slot |
| Slots.RoundInSlots | components/TimeSlotCalendar.tsx:65-70 | the rounded text is the generated slot at the time's index, so it is one of the 48 labels |
| Slots.RoundFloors | components/TimeSlotCalendar.tsx:65-70 | the hour is kept, padded; minutes 0-29 become `00` and 30-59 become `30`; the slot starts at most 29 minutes before the time; the day view's copy (components/DayView.tsx:60-65) rounds the same way |
| Slots.RoundMonotone | components/TimeSlotCalendar.tsx:65-70 | a later time of day never falls in an earlier slot |
| Slots.RoundOnto | components/TimeSlotCalendar.tsx:65-70 | every slot is reached: a slot's own start time rounds to it |
| Slots.RoundSameSlot | components/TimeSlotCalendar.tsx:65-70 | two times round to the same label exactly when they are in the same half hour |
| Slots.DisplayHour | components/TimeSlotCalendar.tsx:107 | `hour % 12 \|\| 12` lies in 1..12 |
| Slots.FormatTime | components/TimeSlotCalendar.tsx:103-109 | `formatTime` text always ends in ` AM` or ` PM`, whatever its input; its value on `HH:MM` texts is given by Slots.FormatTimeText; the day view's copy (components/DayView.tsx:91-97) is the same function |
| Slots.FormatTimeText | components/TimeSlotCalendar.tsx:103-109 | `formatTime` of an `HH:MM` text is the 12-hour hour, the same minutes, and `PM` exactly from hour 12 on |
| Slots.FormatSlot | components/TimeSlotCalendar.tsx:103-109 | `formatTime` of slot label i is the 12-hour hour of i / 2, the label's minutes, and `PM` exactly from slot 24 on |
| Slots.CaptionHours | components/TimeSlotCalendar.tsx:145-149 | the time column captions exactly the whole-hour rows (even index), each with `formatTime` of its label: the 12-hour hour, `:00`, and `PM` exactly from noon on; the day view does the same (components/DayView.tsx:135-139) |
| Slots.HourRowCaption | components/TimeSlotCalendar.tsx:145-149 | the row of hour h is captioned with h on the 12-hour clock, `:00`, and `AM`/`PM` |
| Slots.FormatMidnight | components/DayView.tsx:135-139 | a task starting in the first half hour of the day sits in row 0, captioned `12:00 AM` |
| Slots.FormatNoon | components/DayView.tsx:135-139 | a task starting between 12:00 and 12:29 sits in row 24, captioned `12:00 PM` |
| Slots.FormatHalfHour | components/TimeSlotCalendar.tsx:145-149 | a task starting in the second half of hour h sits in row 2h + 1, which has no caption (task chips show only the title, components/TimeSlotCalendar.tsx:241), so its half-hour start is never written out |
| Occurrence.TasksForSlot | components/TimeSlotCalendar.tsx:73-101 | a task is in the cell exactly when its start rounds to the slot and it starts that day or its mask is on at the day's Monday-first index; the day view's copy (components/DayView.tsx:67-89) has the same rule |
| Occurrence.OccursOn | components/TimeSlotCalendar.tsx:89-96 | the day rule shared by the slot and month filters (components/MonthView.tsx:66-75): a task without a mask occurs exactly on its start day; a task that occurs on a day other than its start day has its mask on at that day's Monday-first index |
| Occurrence.TasksForDay | components/MonthView.tsx:58-78 | a task is in the month cell exactly when it starts that day or its mask is on for that weekday; there is no slot condition |
| Occurrence.SlotMultiplicity | components/TimeSlotCalendar.tsx:76-100 | a cell holds a task as often as the list does, or not at all |
| Occurrence.DayMultiplicity | components/MonthView.tsx:61-77 | a month cell holds a task as often as the list does, or not at all |
| Occurrence.SlotOrder | components/TimeSlotCalendar.tsx:199-211 | the cell is the input at increasing positions, so the stacking index follows input order |
| Occurrence.DayOrder | components/MonthView.tsx:61-77 | the month cell keeps input order |
| Occurrence.OneSlotPerDay | components/TimeSlotCalendar.tsx:83-86 | a task is in at most one slot of a day |
| Occurrence.SlotsCoverDay | components/TimeSlotCalendar.tsx:73-101 | a task of the day is in some slot of that day, namely the one its start rounds to, and a task in any slot of the day is a task of that day |
| Occurrence.StartDayWins | components/TimeSlotCalendar.tsx:89-96 | a repeating task shows on its start day even when its mask is off for that weekday |
| Occurrence.OneTimeOnlyOnStartDay | components/TimeSlotCalendar.tsx:89-96 | a task without a mask shows on its start day and no other |
| Occurrence.WeeklyRepetition | components/TimeSlotCalendar.tsx:94 | away from its start day, a task shows on a day exactly when it shows whole weeks later |
| Occurrence.WeekColumnIsDay | components/TimeSlotCalendar.tsx:54 | column i of the week asks about the week start plus i, and only tasks starting that day or with mask entry i on appear |
| Occurrence.Shown | components/MonthView.tsx:137 | at most three tasks are shown, a prefix of the day's tasks, and all of them when there are three or fewer |
| Occurrence.MoreCount | components/MonthView.tsx:197-199 | the `+N more` caption appears exactly when there are more than three tasks, with N at least 1 |
| Occurrence.ShownPlusMore | components/MonthView.tsx:137-199 | shown tasks plus the `+N` count give the number of tasks; the hidden ones are those after the first three |
| Completion.RemoveKey | app/page.tsx:126 | filtering out the key removes every copy of it and keeps every other entry |
| Completion.RemoveKeyMultiplicity | app/page.tsx:126 | every other entry keeps its number of copies |
| Completion.ToggleKey | app/page.tsx:123-127 | the key is in the new list exactly when it was not in the old one; other keys are unaffected |
| Completion.TogglePatch | app/page.tsx:119-131 | a repeating task's patch sets only `completedDates` to the toggled list; any other task's patch sets only `completed` to its negation |
| Completion.PatchTouchesOneField | app/page.tsx:119-131 | the patch defines `completedDates` or `completed`, never both, and no other field |
| Completion.Toggled | app/page.tsx:119-131 | toggling keeps the task's id, mask and start |
| Completion.ToggleFlips | app/page.tsx:121-131 | toggling a day flips that day's completion as the views compute it (TimeSlotCalendar.tsx:201-204) |
| Completion.IsCompleted | components/TimeSlotCalendar.tsx:201-204 | a repeating task is done on a day only if its `completedDates` is present and holds that day's key, so an absent list counts as empty; how a toggle changes it is stated by Completion.ToggleFlips and Completion.ToggleOtherDays |
| Completion.ToggleOtherDays | app/page.tsx:125-127 | toggling one day of a repeating task leaves every other day's completion as it was |
| Completion.ToggleOneTime | app/page.tsx:128-131 | for a task without a mask the patch is exactly `completed := !completed`, flipping every day, with `completedDates` untouched |
| Completion.ToggleTwice | app/page.tsx:123-127 | toggling the same day twice restores every day's completion, and a one-time task itself |
| Views.WeekView.Days | components/TimeSlotCalendar.tsx:53-54 | the shown week is seven days from a Monday and holds the current day |
| Views.WeekView.Previous | components/TimeSlotCalendar.tsx:56-58 | the current day moves 7 days back, and so does every day of the shown week; the legacy week (components/WeeklyCalendar.tsx:37-39) moves back the same way |
| Views.WeekView.Next | components/TimeSlotCalendar.tsx:60-62 | the current day moves 7 days on, and so does every day of the shown week; the legacy week (components/WeeklyCalendar.tsx:41-43) moves on the same way |
| Views.DayView.Previous | components/DayView.tsx:52-54 | the day moves back by exactly one, and its weekday index by one, modulo 7 |
| Views.DayView.Next | components/DayView.tsx:56-58 | the day moves on by exactly one, and its weekday index by one, modulo 7 |
| Views.StartOfWeekMonotone | components/MonthView.tsx:40-41 | a later day never has an earlier week start |
| Views.DayRange | components/MonthView.tsx:43-48 | the days from first through last, one apart, and nothing else |
| Views.ListDays | components/MonthView.tsx:43-48 | the `while (day <= endDate)` loop builds exactly that range |
| Views.GridAsWrittenShape | components/MonthView.tsx:38-48 | `calendarDays` as written is non-empty, starts on a Monday, steps by one day, holds the month's first day and ends on the Monday of the last week |
| Views.GridAsWrittenMissesMonthEnd | components/MonthView.tsx:41-45 | as written, days of the month after the Monday of its last week are missing, the last day among them unless it is a Monday |
| Views.GridAsWrittenJanuary1970 | components/MonthView.tsx:38-48 | the grid as written for the month of days 0 to 30 (January 1970, by `Calendar.January1970`) misses days 26 to 30, that is 27 to 31 January |
| Views.GridShape | components/MonthView.tsx:38-48 | the corrected grid is at least four whole Monday-first weeks, covers the month, and holds exactly the days of those weeks |
| Views.EveryMonthShown | components/MonthView.tsx:38-48 | with the correction, every day of every month is shown |
| Views.MonthView.CalendarDays | components/MonthView.tsx:38-48 | the view's loop gives the grid as written for the current month |
| Views.MonthView.FullCalendarDays | components/MonthView.tsx:38-48 | the corrected loop, run to the Sunday of the last week, gives the whole-week grid |
| Views.MonthView.Previous | components/MonthView.tsx:50-52 | the month moves back by exactly one; the new month ends the day before the old one starts |
| Views.MonthView.Next | components/MonthView.tsx:54-56 | the month moves on by exactly one; the new month starts the day after the old one ends |
| Store.StoredRef | lib/firebase/tasks.ts:24 | `assignedTo \|\| null` is `null` exactly when the id is missing or empty, and otherwise the id |
| Store.CreateFields | lib/firebase/tasks.ts:16-35 | the created document is well formed and has `completedDates` and `repeatDays` exactly when the task defines them |
| Store.CreateDefaults | lib/firebase/tasks.ts:17-35 | `completed` is the task's flag, `employerId` is the argument, `assignedTo` is `null` exactly for a falsy id, and no other fields are written |
| Store.ReadCreated | lib/firebase/tasks.ts:16-39 | a created document reads back as the saved task under its new id, without `employerId`/`assignedTo` |
| Store.UpdateFields | lib/firebase/tasks.ts:41-59 | the update writes a key exactly when it is updatable and has a value, with that value |
| Store.BuildUpdate | lib/firebase/tasks.ts:42-59 | building `taskData` field by field gives exactly those fields |
| Store.UpdateKeys | lib/firebase/tasks.ts:42-59 | `updatedAt` is always written, every other field exactly when the patch defines it, `employerId` never |
| Store.UpdateWellFormed | lib/firebase/tasks.ts:41-61 | an update keeps a document well formed |
| Store.ReadUpdated | lib/firebase/tasks.ts:41-61 | an updated document reads back as the old read-back with the patch applied |
| Store.ReadTask | lib/firebase/tasks.ts:87-98 | the read-back keeps id, title and times and drops `employerId` and `assignedTo` |
| Store.Query | lib/firebase/tasks.ts:68-102 | `getTasks` returns exactly the read-backs of the documents in scope |
| Store.MergeInto | lib/firebase/tasks.ts:61 | `updateDoc` writes the fields over the document with that id and leaves the others alone |
| Store.Without | lib/firebase/tasks.ts:64-66 | `deleteDoc` removes the document with that id and keeps the rest |
| Store.WithoutDistinct | lib/firebase/tasks.ts:64-66 | deleting keeps document ids distinct |
| Store.CreateIgnoresEmployerId | lib/firebase/tasks.ts:17-27 | `createTask` never reads the task's own `employerId` |
| Store.EditIgnoresEmployerId | lib/firebase/tasks.ts:42-59 | an edit, as written or corrected, never depends on the input's `employerId` |
| Store.AsPartial | app/page.tsx:165 | the edit's patch, applied to the input, gives back the input |
| Store.EditKeepsOldMask | app/page.tsx:165 | as written, an edit with every repeat day cleared leaves the stored mask, so the task still reads back as repeating |
| Store.EditKeepsOldAssignee | lib/firebase/tasks.ts:52 | as written, an edit that picks no helper leaves the stored assignee, so the task stays in that helper's query |
| Store.EditFields | app/page.tsx:165 | the mask-corrected edit never writes `employerId` |
| Store.EditFieldsValues | app/page.tsx:165 | the mask-corrected edit writes every form field and `updatedAt`, `null` for an undefined mask, the assignee through `\|\| null` exactly when the form defines one, and `completedDates` exactly when the form defines it |
| Store.EditSavesForm | app/page.tsx:165 | after the mask-corrected edit, title, description, times, flag and mask read back as the form, and `completedDates` is kept |
| Store.EditKeepsAssignee | lib/firebase/tasks.ts:52 | the mask-corrected edit, like the code as written, keeps the stored assignee when the form has none |
| Store.ReadTaskWithAssignee | lib/firebase/tasks.ts:89-98 | the corrected read-back is `ReadTask` plus the stored helper id, which `\|\| null` writes back unchanged |
| Store.EditFieldsWithAssignee | components/TaskDialog.tsx:126 | the assignee-corrected edit never writes `employerId` |
| Store.EditStoresAssignee | components/TaskDialog.tsx:126 | the assignee-corrected edit stores the form's assignee through `\|\| null`, as `createTask` does, and writes every other key as the mask-corrected edit |
| Store.EditUnassigns | lib/firebase/tasks.ts:68-102 | after an assignee-corrected edit that picks no helper, no helper's `getTasks` query selects the task |
| Store.Store.CreateTask | lib/firebase/tasks.ts:16-39 | the store gains one document, under the new id, with the created fields |
| Store.Store.UpdateTask | lib/firebase/tasks.ts:41-62 | with the id present the fields are merged into that document; with it absent it fails and nothing changes |
| Store.Store.EditTask | app/page.tsx:165 | the corrected edit merges its fields into the document, or fails with nothing changed, when no document has the id |
| Store.Store.DeleteTask | lib/firebase/tasks.ts:64-66 | the document with the id is gone and the store stays valid |
| Store.Store.GetTasks | lib/firebase/tasks.ts:84-101 | the `forEach` loop returns the query's read-backs in document order |
| Store.Store.GetTask | lib/firebase/tasks.ts:104-120 | a task exactly when a document has the id, read back from that document |
| Board.LoadScope | app/page.tsx:73-76 | a helper loads with its own id as `assignedTo`, an employer with none |
| Board.LoadScopeSelects | app/page.tsx:73-76 | a helper sees the documents assigned to it and an employer those it created; an empty helper id falls back to `employerId` |
| Board.SaveInput | app/page.tsx:150-159 | the saved `employerId` is the user's id for an employer and the incoming value for a helper, and nothing else changes |
| Board.UntouchedEditAsReadBack | components/TaskDialog.tsx:82 | the read-back drops `assignedTo` (lib/firebase/tasks.ts:89-98), so the edit form opens on no helper and an untouched save sends none: the edit as written and the mask-corrected edit keep the helper, and writing the assignee without reading it back would unassign the task |
| Board.UntouchedEditKeepsHelper | components/TaskDialog.tsx:82 | with the corrected read-back, an untouched save sends the stored helper and the assignee-corrected edit keeps the task in that helper's query |
| Board.SavedEmployerIdIgnored | app/page.tsx:158-165 | that choice reaches no document: the created `employerId` is the user's id, and neither the edit as written nor the corrected edit depends on it |
| Board.FindTask | app/page.tsx:116 | a found task has the id and is among the loaded ones; none is found exactly when no loaded task has the id |
| Board.ToggleReadBack | app/page.tsx:112-135 | after a toggle is written, the reloaded task's completion for that day is flipped, and other days of a repeating task are unchanged |
| Board.Home.LoadTasks | app/page.tsx:69-83 | without a user the list is unchanged; otherwise it is the user's scope of the store |
| Board.Home.ToggleComplete | app/page.tsx:112-139 | without a user or for an unknown id nothing changes; otherwise the toggle patch is written and the list reloaded, or nothing changes if the write fails |
| Board.Home.OpenCreate | app/page.tsx:100-104 | opens the dialog in create mode with no task |
| Board.Home.OpenTask | app/page.tsx:106-110 | opens the dialog on the task in view or edit mode; `handleTaskEdit` (app/page.tsx:141-145) opens the dialog on the task in edit mode, leaving the list and the store alone |
| Board.Home.CloseDialog | app/page.tsx:188-191 | closes the dialog and clears the task |
| Board.Home.SaveTask | app/page.tsx:147-174 | create adds a document with the user's id as employer; edit sends the dialog's task as `updateTask`'s patch for the selected task, so undefined fields keep their stored values; then reload and close; a failed edit changes nothing; view mode only reloads and closes |
| Board.Home.SaveTaskCorrected | app/page.tsx:147-174 | the same handler with the mask-corrected edit, which writes `null` for an undefined mask and keeps the stored assignee |
| Board.Home.DeleteTask | app/page.tsx:176-186 | the document goes, the list is reloaded, the dialog closes |
| Dialog.YearText | components/TaskDialog.tsx:44 | a year that is not negative is written in plain decimal |
| Dialog.ParseDateTimeLocal | components/TaskDialog.tsx:53-55 | only texts of the `YYYY-MM-DDTHH:MM` layout read as a date |
| Dialog.FormatRoundTrip | components/TaskDialog.tsx:43-50 | for a four-digit year the text is `YYYY-MM-DDTHH:MM` with 1-based month and padded fields, and reads back as the same fields |
| Dialog.FormatDateTimeLocal | components/TaskDialog.tsx:43-50 | the text is `String(year)` followed by exactly 12 characters `-MM-DDTHH:MM`, with `-`, `-`, `T` and `:` at their fixed places; Dialog.FormatRoundTrip proves the fields read back |
| Dialog.Submit | components/TaskDialog.tsx:108-131 | a blank title (after `trim`) saves nothing; an unreadable time text is the Invalid Date outcome; `end <= start` is refused; otherwise the saved task has the form's fields, end after start, the form's mask exactly when a day is ticked, and `undefined` for an empty assignee |
| Dialog.FlipDay | components/TaskDialog.tsx:140-144 | entry `index` flips and every other entry stays |
| Dialog.FlipTwice | components/TaskDialog.tsx:140-144 | flipping twice restores the mask |
| Dialog.DefaultStart | components/TaskDialog.tsx:58-59 | the default start is the top of the current hour |
| Dialog.DefaultEnd | components/TaskDialog.tsx:60-61 | the default end is exactly one hour after the start |
| Dialog.DefaultAssignee | components/TaskDialog.tsx:91-94 | an employer with exactly one helper and no given assignee gets that helper; a given assignee is kept; otherwise `''` |
| Dialog.TaskForm | components/TaskDialog.tsx:74-83 | the form of a task has the task's title and a mask as long as the task's, or seven entries when the task has none |
| Dialog.NewForm | components/TaskDialog.tsx:84-104 | a new form has an empty title, seven unticked days and is not completed |
| Dialog.EditUnchanged | components/TaskDialog.tsx:73-127 | submitting a task's form unchanged saves the task, except that an all-unticked mask and an empty assignee become `undefined` |
| Dialog.NewFormHour | components/TaskDialog.tsx:85-100 | a new form with a title saves a one-hour task from the top of the hour, without a mask |
| Dialog.TaskDialog.Open | components/TaskDialog.tsx:73-106 | opening sets the form from the task, or a new form when there is none |
| Dialog.TaskDialog.RepeatDayChange | components/TaskDialog.tsx:140-144 | copying the mask, flipping one entry of the copy and writing it back changes the mask as `FlipDay` and nothing else |
| Legacy.KeyLessTransitive | components/TaskManager.tsx:64-71 | the key order is transitive |
| Legacy.KeyLessTotal | components/TaskManager.tsx:64-71 | any two distinct keys are ordered |
| Legacy.Insert | components/TaskManager.tsx:64 | insertion adds exactly one copy of the element |
| Legacy.InsertSorted | components/TaskManager.tsx:64 | insertion into a sorted list leaves it sorted |
| Legacy.SortByKey | components/TaskManager.tsx:64 | the result is sorted by the key and a permutation of the input |
| Legacy.ManagerCompareIsKey | components/TaskManager.tsx:64-71 | the comparator is negative, zero or positive exactly as the (date, time or `23:59`) key is less, equal or greater |
| Legacy.ManagerCompare | components/TaskManager.tsx:64-71 | an earlier date sorts first and a later date last, whatever the times; the full order is stated by Legacy.ManagerCompareIsKey |
| Legacy.SortedTasks | components/TaskManager.tsx:64 | `sortedTasks` is a permutation of the tasks |
| Legacy.SortedTasksOrder | components/TaskManager.tsx:64-71 | the list runs by date and, within a date, by time text with a missing time as `23:59` |
| Legacy.WeekCompareIsKey | components/WeeklyCalendar.tsx:48-53 | the comparator is negative, zero or positive exactly as the (untimed last, then time) key is less, equal or greater; two untimed tasks compare equal |
| Legacy.WeekCompare | components/WeeklyCalendar.tsx:48-53 | a task without a time never sorts ahead of the other task; the full order is stated by Legacy.WeekCompareIsKey |
| Legacy.DayTasks | components/WeeklyCalendar.tsx:45-54 | a day's list holds exactly that day's tasks, each as often as in the input |
| Legacy.DayTasksOrder | components/WeeklyCalendar.tsx:48-53 | untimed tasks come after every timed one, and timed tasks run by time text |
| Legacy.TaskManager.HandleOpen | components/TaskManager.tsx:45 | opens the dialog and keeps the form |
| Legacy.TaskManager.HandleClose | components/TaskManager.tsx:46-49 | closes the dialog and resets the form, with the date set to today |
| Legacy.TaskManager.HandleSubmit | components/TaskManager.tsx:51-62 | a blank title adds nothing; otherwise the new task is added, not completed, with an empty time as `undefined`, and the dialog closes |

## Left out

- The civil calendar. A day is a serial number. The `yyyy-MM-dd` key is modelled as an injective text of the day, not its civil spelling.
- Dialog.FormatDateTimeLocal, Dialog.Civil: the local year, month and day of an instant come from a conversion passed in as a parameter (`local`, `toInstant`).
- Time zones and daylight-saving time. The `Date` objects work in local wall-clock time; `setHours(h + 1)` is modelled as adding 60 minutes.
- Seconds and milliseconds. Instants are to the minute; `setMinutes(0, 0, 0)` only clears the minute.
- `new Date()` for "now" and "today" is a parameter of the operations that use it.
- Firestore calls themselves. The database is a list of documents. `addDoc`'s generated id is a parameter, required to be new. Query results come in list order, and Firestore's own order is not modelled.
- `Timestamp` conversion is the identity on instants.
- Network errors are not modelled. A failed `updateDoc` is modelled only as an unknown id.
- Dialog.ParseDateTimeLocal: `new Date(text)` is modelled only for the `YYYY-MM-DDTHH:MM` layout the input produces. It does not check a day against its month's length.
- Dialog.Submit: with an Invalid Date the source still calls `onSave`; the model returns `InvalidDates` without a task, since the invalid time cannot be represented.
- Dialog.FlipDay: JavaScript array holes, from flipping past the end of a short mask, are modelled as `false`.
- Legacy.SortByKey: `Array.prototype.sort` is modelled by an insertion sort that is sorted and a permutation. Stability, which JavaScript guarantees, is not proved.
- Text.Compare: `localeCompare` is modelled as code-unit order. This agrees with locale order on the digit-and-colon time texts compared here.
- Text.ParseIntPrefix, Slots.FormatTime: `parseInt` is modelled only on text starting with a digit. Leading white space and signs do not occur in slot labels.
- The legacy tasks' date texts are read by a parse function passed in as a parameter.
- components/ThreeDayView.tsx is not part of this model.
- The dialog's delete button and its `window.confirm`; the page's delete handler is modelled as `Board.Home.DeleteTask`.
- Board.Home.ToggleComplete, Board.Home.SaveTask, Board.Home.SaveTaskCorrected, Board.Home.DeleteTask: each asynchronous handler is modelled as one uninterrupted step with the reload inside it. In the source, `loadTasks()` is not awaited (app/page.tsx:134, 166, 178), and other user actions can run between the awaits. So the lost update is not captured: two quick toggles of one repeating task both build their patch from the same stale `tasks` list (app/page.tsx:116-127), and the second overwrites the first day's key.
- Board.Home.SaveTaskCorrected corrects the mask only. The assignee correction changes the read-back as well (Store.ReadTaskWithAssignee with Store.EditFieldsWithAssignee). It is proved for one document and one dialog round trip, but the page's load, `Store.Query` and `Store.Store.GetTasks` still use the read-back as written.
- Authentication, helper management, the markdown editor, the retry loop waiting for user data, routing, alerts and confirmations, and all rendering beyond the stacking order.

## Findings

| source | as written | input that shows it | evidently intended | confidence | as-written member | corrected member |
|---|---|---|---|---|---|---|
| components/MonthView.tsx:41-45 | `endDate = startOfWeek(monthEnd)`, and the loop stops on that Monday | January 1970 ends on Saturday the 31st; the grid stops on Monday the 26th, so 27 to 31 January are never shown | run the loop through the Sunday that ends the month's last week | not executed | Views.GridAsWrittenJanuary1970, Calendar.January1970 | Views.EveryMonthShown |
| components/TaskDialog.tsx:125 | an all-unticked mask is saved as `undefined`; the edit (app/page.tsx:165) goes through `updateTask`, which skips `undefined` fields (lib/firebase/tasks.ts:51) | edit a task whose stored mask is `[true, false, false, false, false, false, false]`, untick Monday, save: the stored mask is unchanged and the task still repeats | clearing every day makes the task stop repeating | not executed | Store.EditKeepsOldMask, Board.Home.SaveTask | Store.EditSavesForm, Board.Home.SaveTaskCorrected |
| components/TaskDialog.tsx:126 | `formData.assignedTo \|\| undefined` sends `undefined` for "None (Unassigned)" (components/TaskDialog.tsx:219); `updateTask` skips it (lib/firebase/tasks.ts:52) | edit a task assigned to helper `h`, pick "None (Unassigned)", save: the stored `assignedTo` is still `h` and `h`'s `getTasks` query still returns the task | picking no helper unassigns the task, as `createTask`'s `\|\| null` does, while a save that leaves the helper alone keeps it; since the read-back drops `assignedTo` (lib/firebase/tasks.ts:89-98), this needs the read-back corrected as well as the write | not executed | Store.EditKeepsOldAssignee, Board.Home.SaveTask | Store.EditUnassigns, Board.UntouchedEditKeepsHelper |
