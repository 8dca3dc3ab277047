/** The task collection of lib/firebase/tasks.ts. The database is a list of
    documents, each an id and a map from field names to values; what the
    module decides is which fields a created or updated document gets, which
    documents a query selects, and how a document reads back as a task. */
module Store {

  import opened Wrappers
  import opened Calendar
  import opened Tasks
  import opened Sequences

  /** The values the module writes: strings, booleans, `null`, timestamps
      and the two arrays. */
  datatype Value =
    | Str(s: string)
    | Bool(b: bool)
    | Null
    | Time(t: Instant)
    | Strs(ss: seq<string>)
    | Bools(bs: seq<bool>)

  /** The names of the fields a task document can hold. */
  datatype FieldName =
    | Title | Description | StartDateTime | EndDateTime | Completed | EmployerId
    | AssignedTo | CreatedAt | UpdatedAt | CompletedDates | RepeatDays

  type Fields = map<FieldName, Value>

  datatype Doc = Doc(id: string, fields: Fields)

  /** The shape every document of the collection has: the fields `createTask`
      always writes, with the types it writes them with, and the optional
      arrays either absent or arrays. `null` is allowed wherever `updateTask`
      or a clearing edit may write it. */
  predicate WellFormed(f: Fields)
  {
    && Title in f && f[Title].Str?
    && Description in f && f[Description].Str?
    && StartDateTime in f && f[StartDateTime].Time?
    && EndDateTime in f && f[EndDateTime].Time?
    && Completed in f && f[Completed].Bool?
    && EmployerId in f && f[EmployerId].Str?
    && AssignedTo in f && (f[AssignedTo].Str? || f[AssignedTo].Null?)
    && CreatedAt in f && f[CreatedAt].Time?
    && UpdatedAt in f && f[UpdatedAt].Time?
    && (CompletedDates in f ==> f[CompletedDates].Strs? || f[CompletedDates].Null?)
    && (RepeatDays in f ==> f[RepeatDays].Bools? || f[RepeatDays].Null?)
  }

  /** `assignedTo || null`: a missing or empty id is stored as `null`. */
  function StoredRef(r: Option<string>): (v: Value)
    ensures v == Null <==> !Truthy(r)
    ensures v != Null ==> v == Str(r.value)
  {
    if Truthy(r) then Str(r.value) else Null
  }

  /** The document `createTask(task, employerId, assignedTo)` adds. */
  function CreateFields(task: TaskInput, employerId: string, assignedTo: Option<string>, now: Instant): (f: Fields)
    ensures WellFormed(f)
    ensures CompletedDates in f <==> task.completedDates.Some?
    ensures RepeatDays in f <==> task.repeatDays.Some?
  {
    var required := map[
      Title := Str(task.title),
      Description := Str(task.description),
      StartDateTime := Time(task.start),
      EndDateTime := Time(task.end),
      Completed := Bool(task.completed),
      EmployerId := Str(employerId),
      AssignedTo := StoredRef(assignedTo),
      CreatedAt := Time(now),
      UpdatedAt := Time(now)];
    var withDates := if task.completedDates.Some? then required[CompletedDates := Strs(task.completedDates.value)] else required;
    if task.repeatDays.Some? then withDates[RepeatDays := Bools(task.repeatDays.value)] else withDates
  }

  /** The fields `updateTask` may write. */
  const UpdatableKeys: set<FieldName> :=
    {UpdatedAt, Title, Description, Completed, CompletedDates,
     RepeatDays, AssignedTo, StartDateTime, EndDateTime}

  /** What `updateTask(taskId, patch)` writes under key `k`, if anything:
      `updatedAt` always, each other field when the patch defines it (the
      times when they are truthy, which a defined `Date` always is), and
      `assignedTo` through `|| null`. */
  function UpdateValue(p: Partial, now: Instant, k: FieldName): Option<Value>
  {
    match k
    case UpdatedAt => Some(Time(now))
    case Title => if p.title.Some? then Some(Str(p.title.value)) else None
    case Description => if p.description.Some? then Some(Str(p.description.value)) else None
    case Completed => if p.completed.Some? then Some(Bool(p.completed.value)) else None
    case CompletedDates => if p.completedDates.Some? then Some(Strs(p.completedDates.value)) else None
    case RepeatDays => if p.repeatDays.Some? then Some(Bools(p.repeatDays.value)) else None
    case AssignedTo => if p.assignedTo.Some? then Some(StoredRef(p.assignedTo)) else None
    case StartDateTime => if p.start.Some? then Some(Time(p.start.value)) else None
    case EndDateTime => if p.end.Some? then Some(Time(p.end.value)) else None
    case EmployerId => None
    case CreatedAt => None
  }

  /** `UpdateValue` unfolded for each key, for the proofs below. */
  lemma UpdateValues(p: Partial, now: Instant)
    ensures UpdateValue(p, now, UpdatedAt) == Some(Time(now))
    ensures UpdateValue(p, now, Title) == if p.title.Some? then Some(Str(p.title.value)) else None
    ensures UpdateValue(p, now, Description) == if p.description.Some? then Some(Str(p.description.value)) else None
    ensures UpdateValue(p, now, Completed) == if p.completed.Some? then Some(Bool(p.completed.value)) else None
    ensures UpdateValue(p, now, CompletedDates)
         == if p.completedDates.Some? then Some(Strs(p.completedDates.value)) else None
    ensures UpdateValue(p, now, RepeatDays) == if p.repeatDays.Some? then Some(Bools(p.repeatDays.value)) else None
    ensures UpdateValue(p, now, AssignedTo) == if p.assignedTo.Some? then Some(StoredRef(p.assignedTo)) else None
    ensures UpdateValue(p, now, StartDateTime) == if p.start.Some? then Some(Time(p.start.value)) else None
    ensures UpdateValue(p, now, EndDateTime) == if p.end.Some? then Some(Time(p.end.value)) else None
  {
  }

  lemma AllUpdatableKeys()
    ensures {UpdatedAt} + {Title} + {Description} + {Completed} + {CompletedDates} + {RepeatDays}
            + {AssignedTo} + {StartDateTime} + {EndDateTime} == UpdatableKeys
  {
  }

  /** What the update writes under the keys of `keys`. */
  function UpdateOver(p: Partial, now: Instant, keys: set<FieldName>): Fields
  {
    map k | k in keys && UpdateValue(p, now, k).Some? :: UpdateValue(p, now, k).value
  }

  /** Taking in one more key that has a value writes that value. */
  lemma UpdateOverSome(p: Partial, now: Instant, keys: set<FieldName>, k: FieldName, v: Value)
    requires UpdateValue(p, now, k) == Some(v)
    ensures UpdateOver(p, now, keys + {k}) == UpdateOver(p, now, keys)[k := v]
  {
  }

  /** Taking in one more key that has no value writes nothing. */
  lemma UpdateOverNone(p: Partial, now: Instant, keys: set<FieldName>, k: FieldName)
    requires UpdateValue(p, now, k).None?
    ensures UpdateOver(p, now, keys + {k}) == UpdateOver(p, now, keys)
  {
  }

  /** The fields `updateTask(taskId, patch)` writes over the stored ones. */
  function UpdateFields(p: Partial, now: Instant): (u: Fields)
    ensures forall k :: k in u <==> k in UpdatableKeys && UpdateValue(p, now, k).Some?
    ensures forall k :: k in u ==> u[k] == UpdateValue(p, now, k).value
  {
    UpdateOver(p, now, UpdatableKeys)
  }

  /** `updateTask`'s `taskData`: `updatedAt` first, then each field of the
      patch that is defined, one after another. */
  method BuildUpdate(p: Partial, now: Instant) returns (taskData: Fields)
    ensures taskData == UpdateFields(p, now)
  {
    UpdateValues(p, now);
    taskData := map[UpdatedAt := Time(now)];
    ghost var keys: set<FieldName> := {UpdatedAt};
    assert taskData == UpdateOver(p, now, keys);
    if p.title.Some? {
      UpdateOverSome(p, now, keys, Title, Str(p.title.value));
      taskData := taskData[Title := Str(p.title.value)];
    } else {
      UpdateOverNone(p, now, keys, Title);
    }
    keys := keys + {Title};
    if p.description.Some? {
      UpdateOverSome(p, now, keys, Description, Str(p.description.value));
      taskData := taskData[Description := Str(p.description.value)];
    } else {
      UpdateOverNone(p, now, keys, Description);
    }
    keys := keys + {Description};
    if p.completed.Some? {
      UpdateOverSome(p, now, keys, Completed, Bool(p.completed.value));
      taskData := taskData[Completed := Bool(p.completed.value)];
    } else {
      UpdateOverNone(p, now, keys, Completed);
    }
    keys := keys + {Completed};
    if p.completedDates.Some? {
      UpdateOverSome(p, now, keys, CompletedDates, Strs(p.completedDates.value));
      taskData := taskData[CompletedDates := Strs(p.completedDates.value)];
    } else {
      UpdateOverNone(p, now, keys, CompletedDates);
    }
    keys := keys + {CompletedDates};
    if p.repeatDays.Some? {
      UpdateOverSome(p, now, keys, RepeatDays, Bools(p.repeatDays.value));
      taskData := taskData[RepeatDays := Bools(p.repeatDays.value)];
    } else {
      UpdateOverNone(p, now, keys, RepeatDays);
    }
    keys := keys + {RepeatDays};
    if p.assignedTo.Some? {
      UpdateOverSome(p, now, keys, AssignedTo, StoredRef(p.assignedTo));
      taskData := taskData[AssignedTo := StoredRef(p.assignedTo)];
    } else {
      UpdateOverNone(p, now, keys, AssignedTo);
    }
    keys := keys + {AssignedTo};
    if p.start.Some? {
      UpdateOverSome(p, now, keys, StartDateTime, Time(p.start.value));
      taskData := taskData[StartDateTime := Time(p.start.value)];
    } else {
      UpdateOverNone(p, now, keys, StartDateTime);
    }
    keys := keys + {StartDateTime};
    if p.end.Some? {
      UpdateOverSome(p, now, keys, EndDateTime, Time(p.end.value));
      taskData := taskData[EndDateTime := Time(p.end.value)];
    } else {
      UpdateOverNone(p, now, keys, EndDateTime);
    }
    keys := keys + {EndDateTime};
    AllUpdatableKeys();
  }

  /** The task a document reads back as (`getTasks`, `getTask`): `completed`
      defaults to `false`, a falsy array becomes `undefined`, and
      `employerId` and `assignedTo` are not read. */
  function ReadTask(id: string, f: Fields): (t: Task)
    requires WellFormed(f)
    ensures t.id == id && t.employerId.None? && t.assignedTo.None?
    ensures t.title == f[Title].s && t.start == f[StartDateTime].t && t.end == f[EndDateTime].t
  {
    Task(
      id,
      f[Title].s,
      f[Description].s,
      f[StartDateTime].t,
      f[EndDateTime].t,
      f[Completed].b,
      if CompletedDates in f && f[CompletedDates].Strs? then Some(f[CompletedDates].ss) else None,
      if RepeatDays in f && f[RepeatDays].Bools? then Some(f[RepeatDays].bs) else None,
      None,
      None)
  }

  /** Which fields an update writes: `updatedAt` always, every other field
      exactly when the patch defines it, and never `employerId`. */
  lemma UpdateKeys(p: Partial, now: Instant)
    ensures var u := UpdateFields(p, now);
      && (Title in u <==> p.title.Some?)
      && (Description in u <==> p.description.Some?)
      && (Completed in u <==> p.completed.Some?)
      && (CompletedDates in u <==> p.completedDates.Some?)
      && (RepeatDays in u <==> p.repeatDays.Some?)
      && (AssignedTo in u <==> p.assignedTo.Some?)
      && (StartDateTime in u <==> p.start.Some?)
      && (EndDateTime in u <==> p.end.Some?)
      && u.Keys <= {UpdatedAt, Title, Description, Completed, CompletedDates,
                    RepeatDays, AssignedTo, StartDateTime, EndDateTime}
      && (p.assignedTo.Some? ==> u[AssignedTo] == StoredRef(p.assignedTo))
  {
    UpdateValues(p, now);
  }

  /** The defaults of a created document: `completed` as given, a falsy
      `assignedTo` as `null`, and the arrays only when defined. */
  lemma CreateDefaults(task: TaskInput, employerId: string, assignedTo: Option<string>, now: Instant)
    ensures var f := CreateFields(task, employerId, assignedTo, now);
      && f[Completed] == Bool(task.completed)
      && f[EmployerId] == Str(employerId)
      && (f[AssignedTo] == Null <==> !Truthy(assignedTo))
      && f.Keys <= {Title, Description, StartDateTime, EndDateTime, Completed, EmployerId,
                    AssignedTo, CreatedAt, UpdatedAt, CompletedDates, RepeatDays}
  {
  }

  /** An update keeps a document well formed. */
  lemma UpdateWellFormed(f: Fields, p: Partial, now: Instant)
    requires WellFormed(f)
    ensures WellFormed(f + UpdateFields(p, now))
  {
    UpdateKeys(p, now);
    UpdateValues(p, now);
  }

  /** Reading back a created document gives the task that was saved, under
      its new id, without `employerId` and `assignedTo`. */
  lemma ReadCreated(id: string, task: TaskInput, employerId: string, assignedTo: Option<string>, now: Instant)
    ensures ReadTask(id, CreateFields(task, employerId, assignedTo, now))
         == WithId(task, id).(employerId := None, assignedTo := None)
  {
  }

  /** Reading back an updated document gives the old read-back with the patch
      applied: an update changes what the patch defines and nothing else a
      reader sees. */
  lemma ReadUpdated(id: string, f: Fields, p: Partial, now: Instant)
    requires WellFormed(f)
    ensures WellFormed(f + UpdateFields(p, now))
    ensures ReadTask(id, f + UpdateFields(p, now))
         == ApplyPartial(ReadTask(id, f), p).(employerId := None, assignedTo := None)
  {
    UpdateWellFormed(f, p, now);
    UpdateKeys(p, now);
    UpdateValues(p, now);
    var u := UpdateFields(p, now);
    var g := f + u;
    var before, after := ReadTask(id, f), ReadTask(id, g);
    var expected := ApplyPartial(before, p).(employerId := None, assignedTo := None);
    assert after.title == expected.title by {
      assert Title in u <==> p.title.Some?;
    }
    assert after.description == expected.description by {
      assert Description in u <==> p.description.Some?;
    }
    assert after.start == expected.start && after.end == expected.end by {
      assert StartDateTime in u <==> p.start.Some?;
      assert EndDateTime in u <==> p.end.Some?;
    }
    assert after.completed == expected.completed by {
      assert Completed in u <==> p.completed.Some?;
    }
    assert after.completedDates == expected.completedDates by {
      assert CompletedDates in u <==> p.completedDates.Some?;
    }
    assert after.repeatDays == expected.repeatDays by {
      assert RepeatDays in u <==> p.repeatDays.Some?;
    }
  }

  /** The patch the task dialog's save sends for an edit: every field of the
      form, with the form's `undefined`s left undefined. */
  function AsPartial(input: TaskInput): (p: Partial)
    ensures ApplyPartial(WithId(input, ""), p) == WithId(input, "")
  {
    Partial(Some(input.title), Some(input.description), Some(input.start), Some(input.end),
            Some(input.completed), input.completedDates, input.repeatDays, input.employerId, input.assignedTo)
  }

  /** The fields an edit writes as the code is written:
      `updateTask(id, taskWithDates)`. */
  function EditFieldsAsWritten(input: TaskInput, now: Instant): Fields
  {
    UpdateFields(AsPartial(input), now)
  }

  /** An edit that unticks every repeat day saves `repeatDays: undefined`,
      which `updateTask` skips: the stored mask stays and the task keeps
      repeating. */
  lemma EditKeepsOldMask(id: string, f: Fields, input: TaskInput, now: Instant)
    requires WellFormed(f) && RepeatDays in f && f[RepeatDays].Bools?
    requires input.repeatDays.None?
    ensures WellFormed(f + EditFieldsAsWritten(input, now))
    ensures ReadTask(id, f + EditFieldsAsWritten(input, now)).repeatDays == Some(f[RepeatDays].bs)
    ensures ReadTask(id, f + EditFieldsAsWritten(input, now)).repeatDays != input.repeatDays
  {
    UpdateKeys(AsPartial(input), now);
  }

  /** An edit that picks no helper saves `assignedTo: undefined`, which
      `updateTask` skips: the stored assignee stays, and the task stays in
      that helper's `getTasks` query. */
  lemma EditKeepsOldAssignee(id: string, f: Fields, input: TaskInput, now: Instant, helper: string, employerId: string)
    requires WellFormed(f) && f[AssignedTo] == Str(helper) && helper != ""
    requires input.assignedTo.None?
    ensures WellFormed(f + EditFieldsAsWritten(input, now))
    ensures (f + EditFieldsAsWritten(input, now))[AssignedTo] == Str(helper)
    ensures InScope(f + EditFieldsAsWritten(input, now), employerId, Some(helper))
  {
    UpdateKeys(AsPartial(input), now);
    UpdateWellFormed(f, AsPartial(input), now);
  }

  /** The fields an edit writes once the mask is corrected: as written, and
      `null` for a mask the form leaves undefined, so that clearing every day
      clears the stored mask. An undefined assignee is still skipped: the
      form cannot tell "no helper picked" from "helper not read back" (see
      `EditFieldsWithAssignee`). */
  function EditFields(input: TaskInput, now: Instant): (u: Fields)
    ensures EmployerId !in u
  {
    var u := UpdateFields(AsPartial(input), now);
    if input.repeatDays.None? then u[RepeatDays := Null] else u
  }

  /** After a corrected edit the document reads back as the form: the same
      title, description, times, flag and mask, with `completedDates` kept
      when the form leaves it undefined. */
  lemma EditSavesForm(id: string, f: Fields, input: TaskInput, now: Instant)
    requires WellFormed(f)
    ensures WellFormed(f + EditFields(input, now))
    ensures var t := ReadTask(id, f + EditFields(input, now));
      && t.repeatDays == input.repeatDays
      && t.title == input.title && t.description == input.description
      && t.start == input.start && t.end == input.end && t.completed == input.completed
      && t.completedDates == (if input.completedDates.Some? then input.completedDates else ReadTask(id, f).completedDates)
  {
    EditFieldsValues(input, now);
  }

  /** What a corrected edit writes under each key. */
  lemma EditFieldsValues(input: TaskInput, now: Instant)
    ensures var u := EditFields(input, now);
      && u.Keys <= UpdatableKeys
      && Title in u && u[Title] == Str(input.title)
      && Description in u && u[Description] == Str(input.description)
      && StartDateTime in u && u[StartDateTime] == Time(input.start)
      && EndDateTime in u && u[EndDateTime] == Time(input.end)
      && Completed in u && u[Completed] == Bool(input.completed)
      && UpdatedAt in u && u[UpdatedAt] == Time(now)
      && RepeatDays in u && u[RepeatDays] == (if input.repeatDays.Some? then Bools(input.repeatDays.value) else Null)
      && (AssignedTo in u <==> input.assignedTo.Some?)
      && (input.assignedTo.Some? ==> u[AssignedTo] == StoredRef(input.assignedTo))
      && (CompletedDates in u <==> input.completedDates.Some?)
      && (input.completedDates.Some? ==> u[CompletedDates] == Strs(input.completedDates.value))
  {
    UpdateKeys(AsPartial(input), now);
    UpdateValues(AsPartial(input), now);
  }

  /** The mask-corrected edit keeps a stored helper when the form has no
      assignee, as the code as written does. */
  lemma EditKeepsAssignee(f: Fields, input: TaskInput, now: Instant)
    requires AssignedTo in f && input.assignedTo.None?
    ensures (f + EditFields(input, now))[AssignedTo] == f[AssignedTo]
  {
    EditFieldsValues(input, now);
  }

  /** The read-back with the assignee corrected: as `ReadTask`, and a stored
      helper id read into `assignedTo`, so that an edit form opened on the
      task shows its helper. */
  function ReadTaskWithAssignee(id: string, f: Fields): (t: Task)
    requires WellFormed(f)
    ensures t.(assignedTo := None) == ReadTask(id, f)
    ensures f[AssignedTo] != Str("") ==> StoredRef(t.assignedTo) == f[AssignedTo]
  {
    ReadTask(id, f).(assignedTo := if f[AssignedTo].Str? && f[AssignedTo].s != "" then Some(f[AssignedTo].s) else None)
  }

  /** The edit with the assignee corrected too: as `EditFields`, and the
      form's assignee always written through `|| null`, as `createTask`
      does. Meant for forms opened on `ReadTaskWithAssignee`. */
  function EditFieldsWithAssignee(input: TaskInput, now: Instant): (u: Fields)
    ensures EmployerId !in u
  {
    EditFields(input, now)[AssignedTo := StoredRef(input.assignedTo)]
  }

  /** It stores the form's assignee as `createTask` does and otherwise
      writes what the mask-corrected edit writes. */
  lemma EditStoresAssignee(f: Fields, input: TaskInput, now: Instant)
    ensures (f + EditFieldsWithAssignee(input, now))[AssignedTo] == StoredRef(input.assignedTo)
    ensures forall k :: k != AssignedTo && k in EditFields(input, now) ==>
      (f + EditFieldsWithAssignee(input, now))[k] == EditFields(input, now)[k]
  {
  }

  /** After an assignee-corrected edit that picks no helper, no helper's
      query selects the task any more. */
  lemma EditUnassigns(f: Fields, input: TaskInput, now: Instant, helper: string, employerId: string)
    requires input.assignedTo.None? && helper != ""
    ensures !InScope(f + EditFieldsWithAssignee(input, now), employerId, Some(helper))
  {
    EditStoresAssignee(f, input, now);
  }

  /** `createTask` never reads its task's own `employerId`. */
  lemma CreateIgnoresEmployerId(a: TaskInput, b: TaskInput, employerId: string, assignedTo: Option<string>, now: Instant)
    requires a.(employerId := None) == b.(employerId := None)
    ensures CreateFields(a, employerId, assignedTo, now) == CreateFields(b, employerId, assignedTo, now)
  {
    assert a.title == b.title && a.description == b.description && a.start == b.start && a.end == b.end;
    assert a.completed == b.completed && a.completedDates == b.completedDates && a.repeatDays == b.repeatDays;
  }

  /** An edit, as written or corrected, never writes the input's `employerId`. */
  lemma EditIgnoresEmployerId(a: TaskInput, b: TaskInput, now: Instant)
    requires a.(employerId := None) == b.(employerId := None)
    ensures EditFieldsAsWritten(a, now) == EditFieldsAsWritten(b, now)
    ensures EditFields(a, now) == EditFields(b, now)
    ensures EditFieldsWithAssignee(a, now) == EditFieldsWithAssignee(b, now)
  {
    var p, q := AsPartial(a), AsPartial(b);
    assert forall k :: UpdateValue(p, now, k) == UpdateValue(q, now, k);
    assert UpdateFields(p, now) == UpdateFields(q, now);
  }

  /** `getTasks(employerId, assignedTo)`'s query: by `assignedTo` when it is
      given (and not empty), and otherwise by `employerId`. */
  predicate InScope(f: Fields, employerId: string, assignedTo: Option<string>)
  {
    if Truthy(assignedTo) then AssignedTo in f && f[AssignedTo] == Str(assignedTo.value)
    else EmployerId in f && f[EmployerId] == Str(employerId)
  }

  predicate AllWellFormed(docs: seq<Doc>)
  {
    forall i :: 0 <= i < |docs| ==> WellFormed(docs[i].fields)
  }

  /** The tasks `getTasks` returns: the selected documents, read back, in
      the order the query yields them. */
  function Query(docs: seq<Doc>, employerId: string, assignedTo: Option<string>): (r: seq<Task>)
    requires AllWellFormed(docs)
    ensures |r| <= |docs|
    ensures forall t :: t in r <==>
      exists i :: 0 <= i < |docs| && InScope(docs[i].fields, employerId, assignedTo)
                  && t == ReadTask(docs[i].id, docs[i].fields)
    decreases |docs|
  {
    if docs == [] then []
    else
      var n := |docs| - 1;
      var init := docs[..n];
      assert forall i :: 0 <= i < n ==> init[i] == docs[i];
      var rest := Query(init, employerId, assignedTo);
      rest + (if InScope(docs[n].fields, employerId, assignedTo) then [ReadTask(docs[n].id, docs[n].fields)] else [])
  }

  /** The ids of the documents. */
  function Ids(docs: seq<Doc>): set<string>
  {
    set d | d in docs :: d.id
  }

  predicate DistinctIds(docs: seq<Doc>)
  {
    forall i, j :: 0 <= i < |docs| && 0 <= j < |docs| && docs[i].id == docs[j].id ==> i == j
  }

  /** Adding a well-formed document under a new id keeps the collection
      well-formed with distinct ids. */
  lemma AppendDoc(docs: seq<Doc>, d: Doc)
    requires AllWellFormed(docs) && DistinctIds(docs)
    requires d.id !in Ids(docs) && WellFormed(d.fields)
    ensures AllWellFormed(docs + [d]) && DistinctIds(docs + [d])
  {
    var r := docs + [d];
    forall i | 0 <= i < |docs| ensures r[i] == docs[i] && docs[i].id != d.id {
      assert docs[i] in docs;
    }
  }

  /** `updateDoc(doc(db, 'tasks', taskId), u)`: the document with that id
      gets `u` written over its fields. */
  function MergeInto(docs: seq<Doc>, taskId: string, u: Fields): (r: seq<Doc>)
    ensures |r| == |docs|
    ensures forall i :: 0 <= i < |docs| ==> r[i].id == docs[i].id
    ensures forall i :: 0 <= i < |docs| ==>
      r[i].fields == if docs[i].id == taskId then docs[i].fields + u else docs[i].fields
  {
    seq(|docs|, i requires 0 <= i < |docs| =>
      if docs[i].id == taskId then Doc(taskId, docs[i].fields + u) else docs[i])
  }

  /** `deleteDoc(doc(db, 'tasks', taskId))`: the document with that id goes,
      the others stay in order. */
  function Without(docs: seq<Doc>, taskId: string): (r: seq<Doc>)
    ensures forall d :: d in r <==> d in docs && d.id != taskId
    ensures Ids(r) == Ids(docs) - {taskId}
  {
    Filter(docs, (d: Doc) => d.id != taskId)
  }

  /** Deleting keeps the ids distinct: what is left is a subsequence. */
  lemma WithoutDistinct(docs: seq<Doc>, taskId: string)
    requires DistinctIds(docs)
    ensures DistinctIds(Without(docs, taskId))
  {
    var keep := (d: Doc) => d.id != taskId;
    FilterPositions(docs, keep);
    var r, pos := Without(docs, taskId), KeptPositions(docs, keep);
    forall i, j | 0 <= i < |r| && 0 <= j < |r| && r[i].id == r[j].id ensures i == j {
      assert docs[pos[i]].id == docs[pos[j]].id;
    }
  }

  /** The task collection. */
  class Store {
    var docs: seq<Doc>

    ghost predicate Valid()
      reads this
    {
      AllWellFormed(docs) && DistinctIds(docs)
    }

    constructor ()
      ensures Valid() && docs == []
    {
      docs := [];
    }

    /** `createTask(task, employerId, assignedTo)`: build `taskData` from the
      required fields, add the two arrays when defined, and add the document.
      The id is the one the database generates, distinct from every stored
      id, and `now` is the time stamped on it. */
    method CreateTask(task: TaskInput, employerId: string, assignedTo: Option<string>, newId: string, now: Instant)
      returns (id: string)
      requires Valid() && newId !in Ids(docs)
      modifies this
      ensures Valid()
      ensures id == newId
      ensures docs == old(docs) + [Doc(id, CreateFields(task, employerId, assignedTo, now))]
    {
      var taskData: Fields := map[
        Title := Str(task.title),
        Description := Str(task.description),
        StartDateTime := Time(task.start),
        EndDateTime := Time(task.end),
        Completed := Bool(task.completed),
        EmployerId := Str(employerId),
        AssignedTo := StoredRef(assignedTo),
        CreatedAt := Time(now),
        UpdatedAt := Time(now)];
      if task.completedDates.Some? {
        taskData := taskData[CompletedDates := Strs(task.completedDates.value)];
      }
      if task.repeatDays.Some? {
        taskData := taskData[RepeatDays := Bools(task.repeatDays.value)];
      }
      id := newId;
      assert taskData == CreateFields(task, employerId, assignedTo, now);
      AppendDoc(docs, Doc(id, taskData));
      docs := docs + [Doc(id, taskData)];
    }

    /** `updateTask(taskId, patch)`: build `taskData` field by field from the
      defined parts of the patch and write it over the document. `ok` is
      false, and nothing changes, when no document has that id (`updateDoc`
      rejects it). */
    method UpdateTask(taskId: string, p: Partial, now: Instant) returns (ok: bool)
      requires Valid()
      modifies this
      ensures Valid()
      ensures ok <==> taskId in Ids(old(docs))
      ensures docs == if ok then MergeInto(old(docs), taskId, UpdateFields(p, now)) else old(docs)
    {
      var taskData := BuildUpdate(p, now);
      ok := taskId in Ids(docs);
      if ok {
        forall i | 0 <= i < |docs| ensures WellFormed(docs[i].fields + taskData) {
          UpdateWellFormed(docs[i].fields, p, now);
        }
        docs := MergeInto(docs, taskId, taskData);
      }
    }

    /** The edit save of the task dialog, corrected to clear the mask when
      the form has none (see `EditFields`). */
    method EditTask(taskId: string, input: TaskInput, now: Instant) returns (ok: bool)
      requires Valid()
      modifies this
      ensures Valid()
      ensures ok <==> taskId in Ids(old(docs))
      ensures docs == if ok then MergeInto(old(docs), taskId, EditFields(input, now)) else old(docs)
    {
      ok := taskId in Ids(docs);
      if ok {
        forall i | 0 <= i < |docs| ensures WellFormed(docs[i].fields + EditFields(input, now)) {
          EditSavesForm(docs[i].id, docs[i].fields, input, now);
        }
        docs := MergeInto(docs, taskId, EditFields(input, now));
      }
    }

    /** `deleteTask(taskId)`; deleting a missing id is not an error. */
    method DeleteTask(taskId: string)
      requires Valid()
      modifies this
      ensures Valid()
      ensures docs == Without(old(docs), taskId)
    {
      WithoutDistinct(docs, taskId);
      docs := Without(docs, taskId);
    }

    /** `getTasks(employerId, assignedTo)`: the snapshot's `forEach` pushing
      each selected document, read back. */
    method GetTasks(employerId: string, assignedTo: Option<string>) returns (tasks: seq<Task>)
      requires Valid()
      ensures tasks == Query(docs, employerId, assignedTo)
    {
      tasks := [];
      var i := 0;
      while i < |docs|
        invariant 0 <= i <= |docs|
        invariant AllWellFormed(docs[..i])
        invariant tasks == Query(docs[..i], employerId, assignedTo)
      {
        assert docs[..i + 1][..i] == docs[..i];
        if InScope(docs[i].fields, employerId, assignedTo) {
          tasks := tasks + [ReadTask(docs[i].id, docs[i].fields)];
        }
        i := i + 1;
      }
      assert docs[..i] == docs;
    }

    /** `getTask(taskId)`: the document with that id read back, or `null`. */
    function GetTask(taskId: string): (r: Option<Task>)
      requires Valid()
      reads this
      ensures r.Some? <==> taskId in Ids(docs)
      ensures r.Some? ==> exists i :: 0 <= i < |docs| && docs[i].id == taskId && r.value == ReadTask(taskId, docs[i].fields)
    {
      if taskId in Ids(docs) then
        var d :| d in docs && d.id == taskId;
        Some(ReadTask(taskId, d.fields))
      else None
    }
  }
}
