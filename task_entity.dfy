/** The `Task` entity and its `TaskStatus` enum: the one table of the
    application, shared by the backend and the frontend. */
module TaskEntity {
  import opened JsText

  /** A nullable column: `None` is SQL NULL / JSON `null`. */
  datatype Option<T> = None | Some(value: T)

  /** The three members of the `TaskStatus` enum. */
  datatype TaskStatus = Todo | InProgress | Done {
    /** The string the enum member stands for. */
    function Value(): string {
      match this
      case Todo => "todo"
      case InProgress => "in_progress"
      case Done => "done"
    }
  }

  /** The status a record gets when none is given. */
  const DefaultStatus: TaskStatus := Todo

  /** `Object.values(TaskStatus)`, in declaration order. */
  const StatusValues: seq<string> := [Todo.Value(), InProgress.Value(), Done.Value()]

  /** `Object.values(TaskStatus).includes(s)`. */
  predicate IsStatusValue(s: string)
    ensures IsStatusValue(s) <==> s in StatusValues
  {
    s == "todo" || s == "in_progress" || s == "done"
  }

  /** The enum member whose value is `s`, if there is one. */
  function ParseStatus(s: string): (r: Option<TaskStatus>)
    ensures r.Some? ==> r.value.Value() == s
    ensures r.None? <==> forall st: TaskStatus :: st.Value() != s
    ensures r.Some? <==> IsStatusValue(s)
  {
    if s == "todo" then Some(Todo)
    else if s == "in_progress" then Some(InProgress)
    else if s == "done" then Some(Done)
    else None
  }

  /** The enum has exactly three members, with three different values. */
  lemma StatusValuesDistinct(a: TaskStatus, b: TaskStatus)
    ensures a.Value() == b.Value() <==> a == b
    ensures ParseStatus(a.Value()) == Some(a)
    ensures |StatusValues| == 3 && IsStatusValue(a.Value())
  {
  }

  /** A row of the `task` table. `status` is kept as the string that was
      saved: the update handler can store a string outside the enum (see
      `TaskRoutes.MergeStatusValidIff`). `dueDate` keeps the date text the
      client sent; date parsing is not modelled. Timestamps are clock
      readings. */
  datatype Task = Task(
    id: string,
    title: string,
    description: Option<string>,
    status: string,
    dueDate: Option<string>,
    createdAt: int,
    updatedAt: int)

  /** What a freshly created record always satisfies: a non-blank trimmed
      title, a status from the enum, a description that is either NULL or a
      non-blank trimmed string, and `createdAt <= updatedAt`. */
  ghost predicate WellFormed(t: Task) {
    && t.title != "" && Trimmed(t.title)
    && IsStatusValue(t.status)
    && (t.description.Some? ==> t.description.value != "" && Trimmed(t.description.value))
    && t.createdAt <= t.updatedAt
  }
}
