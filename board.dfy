/** The home page of app/page.tsx: the loaded task list, the signed-in user
    and the task store, and the handlers that load tasks, toggle a task's
    completion for a day, and save or delete a task from the dialog. */
module Board {

  import opened Wrappers
  import opened Calendar
  import opened Tasks
  import opened Sequences
  import opened Completion
  import opened Store
  import Text
  import Dialog

  datatype Role = Employer | Helper

  /** The signed-in user's record: an id and a role. */
  datatype UserData = UserData(uid: string, role: Role)

  /** The dialog's mode. */
  datatype Mode = Create | Edit | View

  /** `loadTasks`' second argument to `getTasks`: the user's own id for a
      helper, `undefined` for an employer. */
  function LoadScope(u: UserData): (assignedTo: Option<string>)
    ensures assignedTo.Some? <==> u.role == Helper
    ensures assignedTo.Some? ==> assignedTo.value == u.uid
  {
    if u.role == Helper then Some(u.uid) else None
  }

  /** Which documents `loadTasks` selects: a helper's tasks are the ones
      assigned to them, an employer's the ones they created. A helper with an
      empty id would fall back to the employer query, since `''` is falsy. */
  lemma LoadScopeSelects(u: UserData, f: Fields)
    ensures InScope(f, u.uid, LoadScope(u)) <==>
      if u.role == Helper && u.uid != "" then AssignedTo in f && f[AssignedTo] == Str(u.uid)
      else EmployerId in f && f[EmployerId] == Str(u.uid)
  {
  }

  /** `taskWithDates` of `handleTaskSave`: the dialog's task, its times
      already dates, with `employerId` the user's own id for an employer and
      the incoming value for a helper. */
  function SaveInput(u: UserData, input: TaskInput): (r: TaskInput)
    ensures u.role == Employer ==> r.employerId == Some(u.uid)
    ensures u.role == Helper ==> r.employerId == input.employerId
    ensures r.(employerId := input.employerId) == input
  {
    input.(employerId := if u.role == Employer then Some(u.uid) else input.employerId)
  }

  /** The `employerId` chosen for `taskWithDates` reaches no document:
      `createTask` stores its own `employerId` argument, which is the user's
      id, and `updateTask` never writes `employerId`. */
  lemma SavedEmployerIdIgnored(u: UserData, input: TaskInput, now: Instant)
    ensures CreateFields(SaveInput(u, input), u.uid, input.assignedTo, now)
         == CreateFields(input, u.uid, input.assignedTo, now)
    ensures CreateFields(SaveInput(u, input), u.uid, input.assignedTo, now)[EmployerId] == Str(u.uid)
    ensures EditFieldsAsWritten(SaveInput(u, input), now) == EditFieldsAsWritten(input, now)
    ensures EditFields(SaveInput(u, input), now) == EditFields(input, now)
  {
    var a, b := SaveInput(u, input), input;
    assert a.(employerId := None) == b.(employerId := None);
    CreateIgnoresEmployerId(a, b, u.uid, input.assignedTo, now);
    CreateDefaults(input, u.uid, input.assignedTo, now);
    EditIgnoresEmployerId(a, b, now);
  }

  /** A document the edit dialog can save back untouched: its title is not
      blank, its end comes after its start, its times have four-digit years
      in local time, and `local` and `toInstant` are inverse on them. */
  predicate Resubmittable(f: Fields, local: Instant -> Dialog.Civil, toInstant: Dialog.Civil -> Instant)
  {
    && WellFormed(f)
    && var start, end := f[StartDateTime].t, f[EndDateTime].t;
    && toInstant(local(start)) == start && toInstant(local(end)) == end
    && 1000 <= local(start).year <= 9999 && 1000 <= local(end).year <= 9999
    && !Text.IsBlank(f[Title].s) && Minutes(start) < Minutes(end)
  }

  /** With the read-back as written, the edit form of a task assigned to a
      helper opens on no helper, so a save that touches nothing sends no
      assignee. The code as written and the mask-corrected edit then keep the
      helper; an edit that wrote the assignee without reading it back would
      unassign the task. */
  lemma UntouchedEditAsReadBack(id: string, f: Fields, local: Instant -> Dialog.Civil, toInstant: Dialog.Civil -> Instant,
                                now: Instant, helper: string, employerId: string)
    requires Resubmittable(f, local, toInstant) && f[AssignedTo] == Str(helper) && helper != ""
    ensures var r := Dialog.Submit(Dialog.TaskForm(ReadTask(id, f), local), toInstant);
      && r.Save? && r.task.assignedTo.None?
      && InScope(f + EditFieldsAsWritten(r.task, now), employerId, Some(helper))
      && InScope(f + EditFields(r.task, now), employerId, Some(helper))
      && !InScope(f + EditFieldsWithAssignee(r.task, now), employerId, Some(helper))
  {
    var t := ReadTask(id, f);
    Dialog.EditUnchanged(t, local, toInstant);
    var r := Dialog.Submit(Dialog.TaskForm(t, local), toInstant);
    EditKeepsOldAssignee(id, f, r.task, now, helper, employerId);
    EditKeepsAssignee(f, r.task, now);
    EditUnassigns(f, r.task, now, helper, employerId);
  }

  /** With the assignee read back, a save that touches nothing keeps the
      helper under the assignee-corrected edit, while picking no helper
      unassigns the task (`EditUnassigns`). */
  lemma UntouchedEditKeepsHelper(id: string, f: Fields, local: Instant -> Dialog.Civil, toInstant: Dialog.Civil -> Instant,
                                 now: Instant, helper: string, employerId: string)
    requires Resubmittable(f, local, toInstant) && f[AssignedTo] == Str(helper) && helper != ""
    ensures var r := Dialog.Submit(Dialog.TaskForm(ReadTaskWithAssignee(id, f), local), toInstant);
      && r.Save? && r.task.assignedTo == Some(helper)
      && InScope(f + EditFieldsWithAssignee(r.task, now), employerId, Some(helper))
  {
    var t := ReadTaskWithAssignee(id, f);
    Dialog.EditUnchanged(t, local, toInstant);
    var r := Dialog.Submit(Dialog.TaskForm(t, local), toInstant);
    EditStoresAssignee(f, r.task, now);
  }

  /** `tasks.find(t => t.id === taskId)`. */
  function FindTask(tasks: seq<Task>, taskId: string): (r: Option<Task>)
    ensures r.Some? ==> r.value in tasks && r.value.id == taskId
    ensures r.None? <==> forall t :: t in tasks ==> t.id != taskId
  {
    Find(tasks, (t: Task) => t.id == taskId)
  }

  /** A toggle written to the document a task was read from flips that day's
      completion as the next load reads it, and, for a repeating task,
      leaves every other day's completion as it was. */
  lemma ToggleReadBack(id: string, f: Fields, d: Day, now: Instant)
    requires WellFormed(f)
    ensures var t := ReadTask(id, f);
      var g := f + UpdateFields(TogglePatch(t, DateKey(d)), now);
      && WellFormed(g)
      && IsCompleted(ReadTask(id, g), d) == !IsCompleted(t, d)
      && (t.repeatDays.Some? ==> forall e :: e != d ==> IsCompleted(ReadTask(id, g), e) == IsCompleted(t, e))
  {
    var t := ReadTask(id, f);
    var p := TogglePatch(t, DateKey(d));
    ReadUpdated(id, f, p, now);
    ToggleFlips(t, d);
    if t.repeatDays.Some? {
      forall e | e != d
        ensures IsCompleted(ReadTask(id, f + UpdateFields(p, now)), e) == IsCompleted(t, e)
      {
        ToggleOtherDays(t, d, e);
      }
    }
  }

  /** The page's state. */
  class Home {
    var tasks: seq<Task>
    var user: Option<UserData>
    var mode: Mode
    var selected: Option<Task>
    var dialogOpen: bool
    var store: Store

    ghost predicate Valid()
      reads this, store
    {
      store.Valid()
    }

    constructor (user: Option<UserData>, store: Store)
      requires store.Valid()
      ensures Valid()
      ensures this.user == user && this.store == store && tasks == []
      ensures mode == Create && selected.None? && !dialogOpen
    {
      this.user := user;
      this.store := store;
      tasks := [];
      mode := Create;
      selected := None;
      dialogOpen := false;
    }

    /** `loadTasks`: nothing without a user; otherwise the tasks of the
      user's scope. */
    method LoadTasks()
      requires Valid()
      modifies this
      ensures Valid()
      ensures store == old(store) && user == old(user)
      ensures mode == old(mode) && selected == old(selected) && dialogOpen == old(dialogOpen)
      ensures user.None? ==> tasks == old(tasks)
      ensures user.Some? ==> tasks == Query(store.docs, user.value.uid, LoadScope(user.value))
    {
      if user.Some? {
        var u := user.value;
        tasks := store.GetTasks(u.uid, LoadScope(u));
      }
    }

    /** `handleTaskToggleComplete(taskId, date)`: without a user, or for an
      id not among the loaded tasks, nothing happens; otherwise the toggle
      patch for that day's key is written and, when the write succeeds, the
      tasks are loaded again. */
    method ToggleComplete(taskId: string, date: Day, now: Instant)
      requires Valid()
      modifies this, store
      ensures Valid()
      ensures store == old(store) && user == old(user)
      ensures mode == old(mode) && selected == old(selected) && dialogOpen == old(dialogOpen)
      ensures user.None? || FindTask(old(tasks), taskId).None? ==>
        store.docs == old(store.docs) && tasks == old(tasks)
      ensures user.Some? && FindTask(old(tasks), taskId).Some? ==>
        var patch := TogglePatch(FindTask(old(tasks), taskId).value, DateKey(date));
        if taskId in Ids(old(store.docs)) then
          && store.docs == MergeInto(old(store.docs), taskId, UpdateFields(patch, now))
          && tasks == Query(store.docs, user.value.uid, LoadScope(user.value))
        else store.docs == old(store.docs) && tasks == old(tasks)
    {
      if user.None? {
        return;
      }
      var task := FindTask(tasks, taskId);
      if task.None? {
        return;
      }
      var updatedTask := TogglePatch(task.value, DateKey(date));
      var ok := store.UpdateTask(taskId, updatedTask, now);
      if ok {
        LoadTasks();
      }
    }

    /** `handleCreateTask`. */
    method OpenCreate()
      modifies this
      ensures mode == Create && selected.None? && dialogOpen
      ensures tasks == old(tasks) && user == old(user) && store == old(store)
    {
      selected := None;
      mode := Create;
      dialogOpen := true;
    }

    /** `handleTaskClick` (`View`) and `handleTaskEdit` (`Edit`). */
    method OpenTask(task: Task, m: Mode)
      requires m != Create
      modifies this
      ensures mode == m && selected == Some(task) && dialogOpen
      ensures tasks == old(tasks) && user == old(user) && store == old(store)
    {
      selected := Some(task);
      mode := m;
      dialogOpen := true;
    }

    /** `handleDialogClose`. */
    method CloseDialog()
      modifies this
      ensures !dialogOpen && selected.None?
      ensures mode == old(mode) && tasks == old(tasks) && user == old(user) && store == old(store)
    {
      dialogOpen := false;
      selected := None;
    }

    /** The tail of the save and delete handlers: `loadTasks()`, then the
      dialog closed and the selection cleared. */
    method ReloadAndClose()
      requires Valid()
      modifies this
      ensures Valid()
      ensures store == old(store) && user == old(user) && mode == old(mode)
      ensures user.None? ==> tasks == old(tasks)
      ensures user.Some? ==> tasks == Query(store.docs, user.value.uid, LoadScope(user.value))
      ensures selected.None? && !dialogOpen
    {
      LoadTasks();
      dialogOpen := false;
      selected := None;
    }

    /** `handleTaskSave(taskData)`: create with the user's id as employer,
      or send the dialog's task as the patch of `updateTask` for the selected
      task; then reload and close. A failed write returns with the page's
      list, selection and dialog as they were; the dialog's own `onClose`
      runs after `onSave` regardless (`CloseDialog`). `newId` is the id the
      database gives a created document. */
    method SaveTask(input: TaskInput, newId: string, now: Instant)
      requires Valid() && (mode == Create ==> newId !in Ids(store.docs))
      modifies this, store
      ensures Valid()
      ensures store == old(store) && user == old(user) && mode == old(mode)
      ensures user.None? ==>
        store.docs == old(store.docs) && tasks == old(tasks)
        && selected == old(selected) && dialogOpen == old(dialogOpen)
      ensures user.Some? && mode == Create ==>
        && store.docs == old(store.docs) + [Doc(newId, CreateFields(SaveInput(user.value, input), user.value.uid, input.assignedTo, now))]
        && tasks == Query(store.docs, user.value.uid, LoadScope(user.value))
        && selected.None? && !dialogOpen
      ensures user.Some? && mode == Edit && old(selected).Some? ==>
        if old(selected).value.id in Ids(old(store.docs)) then
          && store.docs == MergeInto(old(store.docs), old(selected).value.id, EditFieldsAsWritten(SaveInput(user.value, input), now))
          && tasks == Query(store.docs, user.value.uid, LoadScope(user.value))
          && selected.None? && !dialogOpen
        else
          && store.docs == old(store.docs) && tasks == old(tasks)
          && selected == old(selected) && dialogOpen == old(dialogOpen)
      ensures user.Some? && (mode == View || (mode == Edit && old(selected).None?)) ==>
        && store.docs == old(store.docs)
        && tasks == Query(store.docs, user.value.uid, LoadScope(user.value))
        && selected.None? && !dialogOpen
    {
      if user.None? {
        return;
      }
      var u := user.value;
      var taskWithDates := SaveInput(u, input);
      if mode == Create {
        var _ := store.CreateTask(taskWithDates, u.uid, input.assignedTo, newId, now);
      } else if mode == Edit && selected.Some? {
        var ok := store.UpdateTask(selected.value.id, AsPartial(taskWithDates), now);
        if !ok {
          return;
        }
      }
      ReloadAndClose();
    }

    /** `handleTaskSave` with the mask-corrected edit (`EditFields`), which
      clears the stored mask when every day is unticked. Creating is as in
      `SaveTask`. */
    method SaveTaskCorrected(input: TaskInput, newId: string, now: Instant)
      requires Valid() && (mode == Create ==> newId !in Ids(store.docs))
      modifies this, store
      ensures Valid()
      ensures store == old(store) && user == old(user) && mode == old(mode)
      ensures user.None? ==>
        store.docs == old(store.docs) && tasks == old(tasks)
        && selected == old(selected) && dialogOpen == old(dialogOpen)
      ensures user.Some? && mode == Create ==>
        && store.docs == old(store.docs) + [Doc(newId, CreateFields(SaveInput(user.value, input), user.value.uid, input.assignedTo, now))]
        && tasks == Query(store.docs, user.value.uid, LoadScope(user.value))
        && selected.None? && !dialogOpen
      ensures user.Some? && mode == Edit && old(selected).Some? ==>
        if old(selected).value.id in Ids(old(store.docs)) then
          && store.docs == MergeInto(old(store.docs), old(selected).value.id, EditFields(SaveInput(user.value, input), now))
          && tasks == Query(store.docs, user.value.uid, LoadScope(user.value))
          && selected.None? && !dialogOpen
        else
          && store.docs == old(store.docs) && tasks == old(tasks)
          && selected == old(selected) && dialogOpen == old(dialogOpen)
      ensures user.Some? && (mode == View || (mode == Edit && old(selected).None?)) ==>
        && store.docs == old(store.docs)
        && tasks == Query(store.docs, user.value.uid, LoadScope(user.value))
        && selected.None? && !dialogOpen
    {
      if user.None? {
        return;
      }
      var u := user.value;
      var taskWithDates := SaveInput(u, input);
      if mode == Create {
        var _ := store.CreateTask(taskWithDates, u.uid, input.assignedTo, newId, now);
      } else if mode == Edit && selected.Some? {
        var ok := store.EditTask(selected.value.id, taskWithDates, now);
        if !ok {
          return;
        }
      }
      ReloadAndClose();
    }

    /** `handleTaskDelete(taskId)`: delete, reload and close. */
    method DeleteTask(taskId: string)
      requires Valid()
      modifies this, store
      ensures Valid()
      ensures store == old(store) && user == old(user) && mode == old(mode)
      ensures store.docs == Without(old(store.docs), taskId)
      ensures user.Some? ==> tasks == Query(store.docs, user.value.uid, LoadScope(user.value))
      ensures user.None? ==> tasks == old(tasks)
      ensures selected.None? && !dialogOpen
    {
      store.DeleteTask(taskId);
      ReloadAndClose();
    }
  }
}
