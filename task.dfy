/** The `Task` record (types/task.ts) and the two shapes derived from it
    that the code passes around: `Omit<Task, 'id'>` for new tasks and
    `Partial<Omit<Task, 'id'>>` for patches. `None` is `undefined`. */
module Tasks {

  import opened Wrappers
  import opened Calendar

  /** A stored task. A one-time task has no `repeatDays` and uses `completed`;
      a repeating task has a Monday-first `repeatDays` mask and records each
      done occurrence by its `yyyy-MM-dd` key in `completedDates`. */
  datatype Task = Task(
    id: string,
    title: string,
    description: string,
    start: Instant,
    end: Instant,
    completed: bool,
    completedDates: Option<seq<string>>,
    repeatDays: Option<seq<bool>>,
    employerId: Option<string>,
    assignedTo: Option<string>)

  /** `Omit<Task, 'id'>`: a task before the store has given it an id. */
  datatype TaskInput = TaskInput(
    title: string,
    description: string,
    start: Instant,
    end: Instant,
    completed: bool,
    completedDates: Option<seq<string>>,
    repeatDays: Option<seq<bool>>,
    employerId: Option<string>,
    assignedTo: Option<string>)

  /** `Partial<Omit<Task, 'id'>>`: every field may be left `undefined`. */
  datatype Partial = Partial(
    title: Option<string>,
    description: Option<string>,
    start: Option<Instant>,
    end: Option<Instant>,
    completed: Option<bool>,
    completedDates: Option<seq<string>>,
    repeatDays: Option<seq<bool>>,
    employerId: Option<string>,
    assignedTo: Option<string>)

  /** `{}`: the empty patch. */
  const EmptyPartial := Partial(None, None, None, None, None, None, None, None, None)

  /** `task.repeatDays && task.repeatDays[i]`: the mask is present and entry
      `i` is true (an index past the end reads `undefined`, which is false). */
  predicate RepeatsOn(t: Task, i: int)
  {
    && t.repeatDays.Some?
    && 0 <= i < |t.repeatDays.value|
    && t.repeatDays.value[i]
  }

  /** JavaScript truthiness of an optional string: present and not `''`. */
  predicate Truthy(s: Option<string>)
  {
    s.Some? && s.value != ""
  }

  /** The fields of a task other than its id. */
  function WithoutId(t: Task): TaskInput
  {
    TaskInput(t.title, t.description, t.start, t.end, t.completed,
              t.completedDates, t.repeatDays, t.employerId, t.assignedTo)
  }

  /** The task an input becomes under the id the store assigns it: that id,
      and every other field from the input. */
  function WithId(input: TaskInput, id: string): (t: Task)
    ensures t.id == id && WithoutId(t) == input
  {
    Task(id, input.title, input.description, input.start, input.end, input.completed,
         input.completedDates, input.repeatDays, input.employerId, input.assignedTo)
  }

  /** `{ ...task, ...patch }` restricted to the patch's defined fields:
      the task a patch turns `t` into. */
  function ApplyPartial(t: Task, p: Partial): (r: Task)
    ensures r.id == t.id
    ensures r.title == p.title.GetOr(t.title)
    ensures r.description == p.description.GetOr(t.description)
    ensures r.start == p.start.GetOr(t.start) && r.end == p.end.GetOr(t.end)
    ensures r.completed == p.completed.GetOr(t.completed)
    ensures r.completedDates == (if p.completedDates.Some? then p.completedDates else t.completedDates)
    ensures r.repeatDays == (if p.repeatDays.Some? then p.repeatDays else t.repeatDays)
    ensures r.employerId == (if p.employerId.Some? then p.employerId else t.employerId)
    ensures r.assignedTo == (if p.assignedTo.Some? then p.assignedTo else t.assignedTo)
  {
    Task(
      t.id,
      p.title.GetOr(t.title),
      p.description.GetOr(t.description),
      p.start.GetOr(t.start),
      p.end.GetOr(t.end),
      p.completed.GetOr(t.completed),
      if p.completedDates.Some? then p.completedDates else t.completedDates,
      if p.repeatDays.Some? then p.repeatDays else t.repeatDays,
      if p.employerId.Some? then p.employerId else t.employerId,
      if p.assignedTo.Some? then p.assignedTo else t.assignedTo)
  }

  /** The empty patch changes nothing. */
  lemma ApplyEmpty(t: Task)
    ensures ApplyPartial(t, EmptyPartial) == t
  {
  }
}
