/** The `/tasks` router: list, get, create, update and delete over the task
    table. The table is a `TaskStore` object; each route handler is a method
    returning the HTTP outcome it sends. */
module TaskRoutes {
  import opened JsText
  import opened TaskEntity

  /** One property of a JSON request body: missing (`undefined`), an
      explicit `null`, or a string. */
  datatype Field = Absent | Null | Val(s: string)

  /** The destructured `{ title, description, status, dueDate }` of a body. */
  datatype TaskBody = TaskBody(title: Field, description: Field, status: Field, dueDate: Field)

  /** JavaScript truthiness of a field: only a non-empty string is truthy. */
  predicate Truthy(f: Field) {
    f.Val? && f.s != ""
  }

  /** What a handler sends back. `NotFound` carries the body
      `{ error: "Task not found" }`, `InternalError` the body
      `{ error: "Internal server error" }`. */
  datatype Outcome =
    | Ok(task: Task)               // 200 with one record
    | Created(task: Task)          // 201 with the new record
    | OkList(items: seq<Task>)     // 200 with an array of records
    | NoContent                    // 204, empty body
    | BadRequest(msg: string)      // 400 { error: msg }
    | NotFound                     // 404
    | InternalError                // 500

  const TitleRequired := "Title is required"
  const InvalidStatus := "Invalid status value"

  /** The HTTP status code of an outcome. */
  function HttpStatus(o: Outcome): (code: int)
    ensures 200 <= code < 300 <==> o.Ok? || o.Created? || o.OkList? || o.NoContent?
  {
    match o
    case Ok(_) => 200
    case Created(_) => 201
    case OkList(_) => 200
    case NoContent => 204
    case BadRequest(_) => 400
    case NotFound => 404
    case InternalError => 500
  }

  // ---------------------------------------------------------------------
  // Validation and normalisation

  /** The create handler's title check `!title || !title.trim()`. */
  predicate TitleMissing(f: Field)
    ensures TitleMissing(f) <==> !f.Val? || Blank(f.s)
  {
    !Truthy(f) || Trim(f.s) == ""
  }

  /** The status check `status && !Object.values(TaskStatus).includes(status)`
      shared by create and update: a falsy status (absent, null or "") is never
      rejected. */
  predicate StatusRejected(f: Field)
    ensures StatusRejected(f) <==> f.Val? && f.s != "" && forall st: TaskStatus :: st.Value() != f.s
    ensures !StatusRejected(f) && f.Val? ==> f.s == "" || ParseStatus(f.s).Some?
  {
    Truthy(f) && !IsStatusValue(f.s)
  }

  /** `description?.trim() || null`: absent, null and blank all give NULL. */
  function DescriptionValue(f: Field): (r: Option<string>)
    ensures r.None? <==> !f.Val? || Blank(f.s)
    ensures r.Some? ==> r.value == Trim(f.s) && r.value != "" && Trimmed(r.value)
  {
    if f.Val? && Trim(f.s) != "" then Some(Trim(f.s)) else None
  }

  /** `dueDate ? new Date(dueDate) : null`, keeping the date text. */
  function DueDateValue(f: Field): (r: Option<string>)
    ensures r.Some? <==> Truthy(f)
    ensures r.Some? ==> r.value == f.s
  {
    if Truthy(f) then Some(f.s) else None
  }

  /** `status || TaskStatus.TODO`, for a status that passed validation: always
      a member of the enum. */
  function StatusOrDefault(f: Field): (r: string)
    requires !StatusRejected(f)
    ensures IsStatusValue(r)
    ensures Truthy(f) ==> r == f.s
    ensures !Truthy(f) ==> r == DefaultStatus.Value()
  {
    if Truthy(f) then f.s else DefaultStatus.Value()
  }

  /** The record `create` builds from a body that passed both checks, given
      the generated id and the insertion time. */
  function NewTask(b: TaskBody, id: string, now: int): (t: Task)
    requires !TitleMissing(b.title) && !StatusRejected(b.status)
    ensures WellFormed(t)
    ensures t.id == id && t.createdAt == now && t.updatedAt == now
    ensures t.title == Trim(b.title.s)
    ensures t.description == DescriptionValue(b.description)
    ensures Truthy(b.status) ==> t.status == b.status.s
    ensures !Truthy(b.status) ==> t.status == DefaultStatus.Value()
    ensures t.dueDate.None? <==> !Truthy(b.dueDate)
    ensures Truthy(b.dueDate) ==> t.dueDate == Some(b.dueDate.s)
  {
    Task(id, Trim(b.title.s), DescriptionValue(b.description),
         StatusOrDefault(b.status), DueDateValue(b.dueDate), now, now)
  }

  /** The update handler's partial merge, for a body whose title and status
      are not `null` (those fail, see `TaskStore.Update`): a field changes
      only when its key is present, and `id` and `createdAt` never change. */
  function Merge(t: Task, b: TaskBody, now: int): (r: Task)
    requires b.title != Null && b.status != Null
    ensures r.id == t.id && r.createdAt == t.createdAt && r.updatedAt == now
    ensures b.title == Absent ==> r.title == t.title
    ensures b.description == Absent ==> r.description == t.description
    ensures b.status == Absent ==> r.status == t.status
    ensures b.dueDate == Absent ==> r.dueDate == t.dueDate
    ensures b.title.Val? ==> r.title == Trim(b.title.s)
    ensures b.description != Absent ==> r.description == DescriptionValue(b.description)
    ensures b.status.Val? ==> r.status == b.status.s
    ensures b.dueDate != Absent ==> r.dueDate == DueDateValue(b.dueDate)
  {
    t.(title := if b.title.Val? then Trim(b.title.s) else t.title,
       description := if b.description != Absent then DescriptionValue(b.description) else t.description,
       status := if b.status.Val? then b.status.s else t.status,
       dueDate := if b.dueDate != Absent then DueDateValue(b.dueDate) else t.dueDate,
       updatedAt := now)
  }

  // ---------------------------------------------------------------------
  // Listing order

  /** Ordered by `createdAt`, newest first. */
  ghost predicate NewestFirst(r: seq<Task>) {
    forall i, j :: 0 <= i < j < |r| ==> r[i].createdAt >= r[j].createdAt
  }

  /** `r` holds every record of `m` exactly once and nothing else. */
  ghost predicate Enumerates(r: seq<Task>, m: map<string, Task>) {
    && (forall i :: 0 <= i < |r| ==> r[i].id in m && m[r[i].id] == r[i])
    && (forall k :: k in m ==> exists i :: 0 <= i < |r| && r[i] == m[k])
    && (forall i, j :: 0 <= i < j < |r| ==> r[i].id != r[j].id)
  }

  /** A non-empty set of keys has a record with the latest `createdAt`. */
  lemma {:induction false} NewestExists(m: map<string, Task>, ks: set<string>)
    requires ks != {} && ks <= m.Keys
    ensures exists k :: k in ks && forall j :: j in ks ==> m[j].createdAt <= m[k].createdAt
    decreases ks
  {
    var x :| x in ks;
    if ks != {x} {
      NewestExists(m, ks - {x});
      var k :| k in ks - {x} && forall j :: j in ks - {x} ==> m[j].createdAt <= m[k].createdAt;
      if m[x].createdAt <= m[k].createdAt {
        assert forall j :: j in ks ==> m[j].createdAt <= m[k].createdAt;
      } else {
        assert forall j :: j in ks ==> m[j].createdAt <= m[x].createdAt;
      }
    }
  }

  /** In a listing, a record created strictly later comes first. */
  lemma NewerListedFirst(r: seq<Task>, i: int, j: int)
    requires NewestFirst(r) && 0 <= i < |r| && 0 <= j < |r|
    requires r[i].createdAt < r[j].createdAt
    ensures j < i
  {
  }

  /** Loop state of `TaskStore.List`: `r` lists, newest first and once each,
      the records of `m` whose keys are not in `remaining`, and none of them
      is older than a remaining record. */
  ghost predicate ListedSoFar(r: seq<Task>, m: map<string, Task>, remaining: set<string>) {
    && remaining <= m.Keys
    && (forall i :: 0 <= i < |r| ==> r[i].id in m && m[r[i].id] == r[i] && r[i].id !in remaining)
    && (forall k :: k in m && k !in remaining ==> exists i :: 0 <= i < |r| && r[i] == m[k])
    && (forall i, j :: 0 <= i < j < |r| ==> r[i].id != r[j].id)
    && NewestFirst(r)
    && (forall i, k :: 0 <= i < |r| && k in remaining ==> r[i].createdAt >= m[k].createdAt)
  }

  /** Appending the newest remaining record keeps `ListedSoFar`. */
  lemma ListStep(r: seq<Task>, m: map<string, Task>, remaining: set<string>, k: string)
    requires ListedSoFar(r, m, remaining)
    requires forall key :: key in m ==> m[key].id == key
    requires k in remaining && forall j :: j in remaining ==> m[j].createdAt <= m[k].createdAt
    ensures ListedSoFar(r + [m[k]], m, remaining - {k})
  {
    var r', rest := r + [m[k]], remaining - {k};
    assert r'[|r|] == m[k];
    forall i | 0 <= i < |r'|
      ensures r'[i].id in m && m[r'[i].id] == r'[i] && r'[i].id !in rest
    {
      if i < |r| {
        assert r'[i] == r[i];
      }
    }
    forall k' | k' in m && k' !in rest
      ensures exists i :: 0 <= i < |r'| && r'[i] == m[k']
    {
      if k' != k {
        var i :| 0 <= i < |r| && r[i] == m[k'];
        assert r'[i] == m[k'];
      }
    }
    forall i, j | 0 <= i < j < |r'|
      ensures r'[i].id != r'[j].id && r'[i].createdAt >= r'[j].createdAt
    {
      assert r'[i] == r[i];
      if j < |r| {
        assert r'[j] == r[j];
      }
    }
    forall i, k' | 0 <= i < |r'| && k' in rest
      ensures r'[i].createdAt >= m[k'].createdAt
    {
      if i < |r| {
        assert r'[i] == r[i];
      }
    }
  }

  // ---------------------------------------------------------------------
  // The table and the handlers

  /** The update handler's assignments to the fetched record: each present
      field is set in turn, then `updatedAt` is stamped on save. */
  method AssignFields(fetched: Task, b: TaskBody, now: int) returns (t: Task)
    requires b.title != Null && b.status != Null
    ensures t == Merge(fetched, b, now)
  {
    t := fetched;
    if b.title != Absent {
      t := t.(title := Trim(b.title.s));
    }
    if b.description != Absent {
      t := t.(description := DescriptionValue(b.description));
    }
    if b.status != Absent {
      t := t.(status := b.status.s);
    }
    if b.dueDate != Absent {
      t := t.(dueDate := DueDateValue(b.dueDate));
    }
    t := t.(updatedAt := now);
  }

  /** The table invariant: every row is stored under its own id and
      `createdAt <= updatedAt`, both no later than `clock`. */
  ghost predicate RowsValid(m: map<string, Task>, clock: int) {
    forall k :: k in m ==> m[k].id == k && m[k].createdAt <= m[k].updatedAt <= clock
  }

  /** Writing one row stamped `now` keeps the invariant, with the clock
      moved to `now`. */
  lemma PutKeepsRowsValid(m: map<string, Task>, clock: int, t: Task, now: int)
    requires RowsValid(m, clock) && clock <= now
    requires t.createdAt <= t.updatedAt <= now
    ensures RowsValid(m[t.id := t], now)
  {
  }

  /** The `task` table, keyed by id. `clock` is the latest timestamp the
      store has written; handlers that write are handed a reading `now` of a
      clock that does not run backwards. */
  class TaskStore {
    var tasks: map<string, Task>
    var clock: int

    /** Every row is stored under its own id and `createdAt <= updatedAt`,
        both no later than `clock`. */
    ghost predicate Valid()
      reads this
    {
      RowsValid(tasks, clock)
    }

    constructor (start: int)
      ensures Valid() && tasks == map[] && clock == start
    {
      tasks := map[];
      clock := start;
    }

    /** GET /tasks: every record, newest first. The datastore's
        `ORDER BY createdAt DESC` is modelled by repeatedly taking the newest
        remaining record; records with equal `createdAt` come in any order. */
    method List() returns (o: Outcome)
      requires Valid()
      ensures o.OkList? && Enumerates(o.items, tasks) && NewestFirst(o.items)
    {
      var remaining := tasks.Keys;
      var r: seq<Task> := [];
      while remaining != {}
        invariant ListedSoFar(r, tasks, remaining)
        decreases remaining
      {
        NewestExists(tasks, remaining);
        var k :| k in remaining && forall j :: j in remaining ==> tasks[j].createdAt <= tasks[k].createdAt;
        ListStep(r, tasks, remaining, k);
        r := r + [tasks[k]];
        remaining := remaining - {k};
      }
      o := OkList(r);
    }

    /** GET /tasks/:id. */
    method Get(id: string) returns (o: Outcome)
      requires Valid()
      ensures id in tasks ==> o == Ok(tasks[id]) && o.task.id == id
      ensures id !in tasks ==> o == NotFound
    {
      if id !in tasks {
        return NotFound;
      }
      o := Ok(tasks[id]);
    }

    /** POST /tasks with the generated id `id` and insertion time `now`. The
        title check runs before the status check; a rejected body leaves the
        table as it was. */
    method Create(b: TaskBody, id: string, now: int) returns (o: Outcome)
      requires Valid() && id !in tasks && clock <= now
      modifies this
      ensures Valid()
      ensures TitleMissing(b.title) ==>
        o == BadRequest(TitleRequired) && unchanged(this)
      ensures !TitleMissing(b.title) && StatusRejected(b.status) ==>
        o == BadRequest(InvalidStatus) && unchanged(this)
      ensures !TitleMissing(b.title) && !StatusRejected(b.status) ==>
        && o == Created(NewTask(b, id, now))
        && tasks == old(tasks)[id := o.task]
        && clock == now
    {
      if TitleMissing(b.title) {
        return BadRequest(TitleRequired);
      }
      if StatusRejected(b.status) {
        return BadRequest(InvalidStatus);
      }
      var t := Task(id, Trim(b.title.s), DescriptionValue(b.description),
                    StatusOrDefault(b.status), DueDateValue(b.dueDate), now, now);
      PutKeepsRowsValid(tasks, clock, t, now);
      tasks := tasks[id := t];
      clock := now;
      o := Created(t);
    }

    /** PUT /tasks/:id at time `now`. The existence check runs before the
        status check. A `null` title throws on `trim`, and a `null` status is
        refused by the NOT NULL column when saving; both give a 500 and
        nothing is saved. Both are checked before the fields are assigned,
        which gives the same outcome because the record is saved only at the
        end. */
    method Update(id: string, b: TaskBody, now: int) returns (o: Outcome)
      requires Valid() && clock <= now
      modifies this
      ensures Valid()
      ensures id !in old(tasks) ==> o == NotFound && unchanged(this)
      ensures id in old(tasks) && StatusRejected(b.status) ==>
        o == BadRequest(InvalidStatus) && unchanged(this)
      ensures id in old(tasks) && !StatusRejected(b.status) && (b.title == Null || b.status == Null) ==>
        o == InternalError && unchanged(this)
      ensures id in old(tasks) && !StatusRejected(b.status) && b.title != Null && b.status != Null ==>
        && o == Ok(Merge(old(tasks)[id], b, now))
        && tasks == old(tasks)[id := o.task]
        && clock == now
    {
      if id !in tasks {
        return NotFound;
      }
      if StatusRejected(b.status) {
        return BadRequest(InvalidStatus);
      }
      if b.title == Null || b.status == Null {
        return InternalError;
      }
      var t := AssignFields(tasks[id], b, now);
      PutKeepsRowsValid(tasks, clock, t, now);
      tasks := tasks[id := t];
      clock := now;
      o := Ok(t);
    }

    /** DELETE /tasks/:id: 404 when no row was affected, 204 otherwise. */
    method Delete(id: string) returns (o: Outcome)
      requires Valid()
      modifies this
      ensures Valid() && clock == old(clock)
      ensures id in old(tasks) ==> o == NoContent && tasks == old(tasks) - {id}
      ensures id !in old(tasks) ==> o == NotFound && tasks == old(tasks)
    {
      var affected := if id in tasks then 1 else 0;
      tasks := tasks - {id};
      if affected == 0 {
        return NotFound;
      }
      o := NoContent;
    }
  }

  // ---------------------------------------------------------------------
  // Properties of the merge

  /** The enum invariant survives an update exactly when the body's status is
      not the empty string: `""` passes the truthiness-based check and is then
      stored verbatim. */
  lemma MergeStatusValidIff(t: Task, b: TaskBody, now: int)
    requires IsStatusValue(t.status)
    requires b.title != Null && b.status != Null && !StatusRejected(b.status)
    ensures IsStatusValue(Merge(t, b, now).status) <==> b.status != Val("")
  {
  }

  /** `status: ""` passes the update handler's check, is stored verbatim,
      and leaves the record with a status outside the enum. */
  lemma EmptyStatusStored(t: Task, b: TaskBody, now: int)
    requires b.status == Val("") && b.title != Null
    ensures !StatusRejected(b.status)
    ensures Merge(t, b, now).status == "" && !IsStatusValue(Merge(t, b, now).status)
  {
  }

  /** Update does not re-check the title: a whitespace-only title is stored
      as the empty string, so an updated record need not be `WellFormed`. */
  lemma MergeBlankTitle(t: Task, b: TaskBody, now: int)
    requires b.title.Val? && Blank(b.title.s) && b.status != Null
    ensures Merge(t, b, now).title == ""
    ensures !WellFormed(Merge(t, b, now))
  {
  }

  /** An update whose present fields are all acceptable keeps a well-formed
      record well-formed, given a clock that has not run backwards. */
  lemma MergeKeepsWellFormed(t: Task, b: TaskBody, now: int)
    requires WellFormed(t) && t.updatedAt <= now
    requires b.title != Null && b.status != Null && !StatusRejected(b.status)
    requires b.title.Val? ==> !Blank(b.title.s)
    requires b.status != Val("")
    ensures WellFormed(Merge(t, b, now))
  {
  }

  /** The body the edit page sends when the user saves a record without
      changing it: the form is filled from the record (a NULL description or
      due date shows as ""), then the title is trimmed, and a blank
      description or an empty due date is left out of the body. */
  function EchoBody(t: Task): (b: TaskBody)
    ensures b.title == Val(Trim(t.title)) && b.status == Val(t.status)
    ensures b.description == Absent <==> t.description.None? || Blank(t.description.value)
    ensures b.description != Absent ==> b.description == Val(Trim(t.description.value))
    ensures b.dueDate == Absent <==> t.dueDate.None? || t.dueDate.value == ""
  {
    var description := if t.description.Some? then t.description.value else "";
    var dueDate := if t.dueDate.Some? then t.dueDate.value else "";
    TaskBody(Val(Trim(t.title)),
             if Trim(description) != "" then Val(Trim(description)) else Absent,
             Val(t.status),
             if dueDate != "" then Val(dueDate) else Absent)
  }

  /** Saving a well-formed record from the edit page without changing it
      changes nothing but `updatedAt`. */
  lemma MergeEchoIsNoOp(t: Task, now: int)
    requires WellFormed(t)
    ensures Merge(t, EchoBody(t), now) == t.(updatedAt := now)
  {
  }

  /** Two updates in a row act as one update carrying, per field, the later
      body's value when present and the earlier one's otherwise. */
  function Override(b1: TaskBody, b2: TaskBody): (b: TaskBody)
    ensures b2.title != Absent ==> b.title == b2.title
    ensures b2.title == Absent ==> b.title == b1.title
  {
    TaskBody(if b2.title != Absent then b2.title else b1.title,
             if b2.description != Absent then b2.description else b1.description,
             if b2.status != Absent then b2.status else b1.status,
             if b2.dueDate != Absent then b2.dueDate else b1.dueDate)
  }

  lemma MergeTwice(t: Task, b1: TaskBody, b2: TaskBody, n1: int, n2: int)
    requires b1.title != Null && b1.status != Null
    requires b2.title != Null && b2.status != Null
    ensures Merge(Merge(t, b1, n1), b2, n2) == Merge(t, Override(b1, b2), n2)
  {
  }
}

/** Request sequences against one store, checked against the handlers'
    contracts alone. */
module RouteScenarios {
  import opened TaskEntity
  import opened TaskRoutes

  /** Delete an existing record, then get it and delete it again: both
      report not-found. */
  method DeleteThenGet(store: TaskStore, id: string) returns (first: Outcome, get: Outcome, second: Outcome)
    requires store.Valid() && id in store.tasks
    modifies store
    ensures first == NoContent && get == NotFound && second == NotFound
    ensures HttpStatus(first) == 204 && HttpStatus(get) == 404 && HttpStatus(second) == 404
    ensures store.Valid() && store.tasks == old(store.tasks) - {id}
  {
    first := store.Delete(id);
    get := store.Get(id);
    second := store.Delete(id);
  }

  /** Create a record, then get it by id: the same record comes back, and it
      is well formed. */
  method CreateThenGet(store: TaskStore, b: TaskBody, id: string, now: int)
    returns (created: Outcome, fetched: Outcome)
    requires store.Valid() && id !in store.tasks && store.clock <= now
    requires !TitleMissing(b.title) && !StatusRejected(b.status)
    modifies store
    ensures created.Created? && fetched == Ok(created.task)
    ensures HttpStatus(created) == 201 && HttpStatus(fetched) == 200
    ensures WellFormed(created.task) && created.task.createdAt == created.task.updatedAt
  {
    created := store.Create(b, id, now);
    fetched := store.Get(id);
  }

  /** Create A, then B at a later time, then list: B comes before A. */
  method CreateTwoThenList(store: TaskStore, a: TaskBody, b: TaskBody,
                           idA: string, idB: string, timeA: int, timeB: int)
    returns (listed: seq<Task>)
    requires store.Valid() && store.clock <= timeA < timeB
    requires idA !in store.tasks && idB !in store.tasks && idA != idB
    requires !TitleMissing(a.title) && !StatusRejected(a.status)
    requires !TitleMissing(b.title) && !StatusRejected(b.status)
    modifies store
    ensures exists i, j :: 0 <= j < i < |listed| && listed[j].id == idB && listed[i].id == idA
  {
    var oa := store.Create(a, idA, timeA);
    var ob := store.Create(b, idB, timeB);
    var ol := store.List();
    listed := ol.items;
    var i :| 0 <= i < |listed| && listed[i] == store.tasks[idA];
    var j :| 0 <= j < |listed| && listed[j] == store.tasks[idB];
    NewerListedFirst(listed, i, j);
  }
}
