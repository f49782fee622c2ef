/** The task list page: its state (`tasks`, `loading`, `error`, `filter`),
    the status filter, local removal after a delete, and the status label and
    colour of each row. Rendering is not modelled. */
module HomePage {
  import opened TaskEntity

  /** The filter buttons: every task, or one status. */
  datatype StatusFilter = All | Only(status: TaskStatus)

  const FetchFailed := "Failed to fetch tasks"
  const DeleteFailed := "Failed to delete task"

  /** `Array.prototype.filter`: the elements satisfying `p`, in order. */
  function Filter(s: seq<Task>, p: Task -> bool): (r: seq<Task>)
    ensures |r| <= |s|
  {
    if s == [] then []
    else (if p(s[0]) then [s[0]] else []) + Filter(s[1..], p)
  }

  /** `filter` keeps exactly the elements satisfying `p`, each as many times
      as it occurs. */
  lemma {:induction false} FilterCounts(s: seq<Task>, p: Task -> bool)
    ensures forall x :: x in Filter(s, p) <==> x in s && p(x)
    ensures forall x :: multiset(Filter(s, p))[x] == if p(x) then multiset(s)[x] else 0
  {
    if s != [] {
      FilterCounts(s[1..], p);
      assert s == [s[0]] + s[1..];
    }
  }

  /** `filter` keeps the original order: it distributes over concatenation. */
  lemma {:induction false} FilterConcat(a: seq<Task>, b: seq<Task>, p: Task -> bool)
    ensures Filter(a + b, p) == Filter(a, p) + Filter(b, p)
  {
    if a == [] {
      assert a + b == b;
    } else {
      var head := if p(a[0]) then [a[0]] else [];
      assert (a + b)[0] == a[0] && (a + b)[1..] == a[1..] + b;
      calc {
        Filter(a + b, p);
        head + Filter(a[1..] + b, p);
        { FilterConcat(a[1..], b, p); }
        head + (Filter(a[1..], p) + Filter(b, p));
        (head + Filter(a[1..], p)) + Filter(b, p);
        Filter(a, p) + Filter(b, p);
      }
    }
  }

  /** A filter every element passes returns its input. */
  lemma {:induction false} FilterKeepsAll(s: seq<Task>, p: Task -> bool)
    requires forall i :: 0 <= i < |s| ==> p(s[i])
    ensures Filter(s, p) == s
  {
    if s != [] {
      FilterKeepsAll(s[1..], p);
    }
  }

  /** `filteredTasks`: the whole list under `'all'`, otherwise the tasks
      whose status is the selected one. */
  function VisibleTasks(tasks: seq<Task>, filter: StatusFilter): (r: seq<Task>)
    ensures filter == All ==> r == tasks
    ensures filter.Only? ==> forall t :: t in r <==> t in tasks && t.status == filter.status.Value()
    ensures filter.Only? ==> forall t: Task :: t.status == filter.status.Value() ==> multiset(r)[t] == multiset(tasks)[t]
  {
    match filter
    case All => tasks
    case Only(st) =>
      var p := (t: Task) => t.status == st.Value();
      FilterCounts(tasks, p);
      Filter(tasks, p)
  }

  /** A status filter keeps the original order: it distributes over
      concatenation. */
  lemma VisibleTasksConcat(a: seq<Task>, b: seq<Task>, filter: StatusFilter)
    ensures VisibleTasks(a + b, filter) == VisibleTasks(a, filter) + VisibleTasks(b, filter)
  {
    if filter.Only? {
      FilterConcat(a, b, (t: Task) => t.status == filter.status.Value());
    }
  }

  /** Number of tasks in `tasks` whose status is the value of `st`. */
  function CountWithStatus(tasks: seq<Task>, st: TaskStatus): (n: nat)
    ensures n <= |tasks|
  {
    if tasks == [] then 0
    else (if tasks[0].status == st.Value() then 1 else 0) + CountWithStatus(tasks[1..], st)
  }

  /** Each status filter shows exactly the tasks with that status. */
  lemma {:induction false} VisibleCount(tasks: seq<Task>, st: TaskStatus)
    ensures |VisibleTasks(tasks, Only(st))| == CountWithStatus(tasks, st)
  {
    if tasks != [] {
      VisibleCount(tasks[1..], st);
      assert Filter(tasks, (t: Task) => t.status == st.Value())
          == (if tasks[0].status == st.Value() then [tasks[0]] else [])
             + Filter(tasks[1..], (t: Task) => t.status == st.Value());
    }
  }

  /** When every status is a member of the enum, the three status filters
      split the list: each task shows under exactly one of them. */
  lemma {:induction false} StatusFiltersPartition(tasks: seq<Task>)
    requires forall i :: 0 <= i < |tasks| ==> IsStatusValue(tasks[i].status)
    ensures CountWithStatus(tasks, Todo) + CountWithStatus(tasks, InProgress)
            + CountWithStatus(tasks, Done) == |tasks|
  {
    if tasks != [] {
      StatusFiltersPartition(tasks[1..]);
    }
  }

  /** A task whose status is outside the enum (an update can store `""`) is
      shown under `'all'` only. */
  lemma OutOfEnumOnlyUnderAll(tasks: seq<Task>, t: Task, f: StatusFilter)
    requires t in tasks && !IsStatusValue(t.status)
    ensures t in VisibleTasks(tasks, f) <==> f == All
  {
  }

  /** `tasks.filter(task => task.id !== id)`: the local list after a delete. */
  function WithoutId(tasks: seq<Task>, id: string): (r: seq<Task>)
    ensures forall t :: t in r <==> t in tasks && t.id != id
    ensures forall t: Task :: t.id != id ==> multiset(r)[t] == multiset(tasks)[t]
  {
    var p := (t: Task) => t.id != id;
    FilterCounts(tasks, p);
    Filter(tasks, p)
  }

  /** Removing an id keeps the relative order of the other tasks. */
  lemma WithoutIdConcat(a: seq<Task>, b: seq<Task>, id: string)
    ensures WithoutId(a + b, id) == WithoutId(a, id) + WithoutId(b, id)
  {
    FilterConcat(a, b, (t: Task) => t.id != id);
  }

  /** Removing an id no task carries changes nothing. */
  lemma WithoutAbsentId(tasks: seq<Task>, id: string)
    requires forall i :: 0 <= i < |tasks| ==> tasks[i].id != id
    ensures WithoutId(tasks, id) == tasks
  {
    FilterKeepsAll(tasks, (t: Task) => t.id != id);
  }

  /** `getStatusLabel`: a display label for each enum member, and any other
      string shown as it is. */
  function StatusLabel(status: string): (shown: string)
    ensures shown != status <==> IsStatusValue(status)
    ensures status == Todo.Value() ==> shown == "To Do"
    ensures status == InProgress.Value() ==> shown == "In Progress"
    ensures status == Done.Value() ==> shown == "Done"
  {
    if status == Todo.Value() then "To Do"
    else if status == InProgress.Value() then "In Progress"
    else if status == Done.Value() then "Done"
    else status
  }

  const GrayBadge := "bg-gray-100 text-gray-800"

  /** `getStatusColor`: a badge class per enum member, gray for anything
      else. */
  function StatusColor(status: string): (cls: string)
    ensures cls == GrayBadge <==> !IsStatusValue(status)
  {
    if status == Todo.Value() then "bg-yellow-100 text-yellow-800"
    else if status == InProgress.Value() then "bg-blue-100 text-blue-800"
    else if status == Done.Value() then "bg-green-100 text-green-800"
    else GrayBadge
  }

  /** Different enum members get different labels and different colours. */
  lemma StatusBadgesDistinct(a: TaskStatus, b: TaskStatus)
    requires a != b
    ensures StatusLabel(a.Value()) != StatusLabel(b.Value())
    ensures StatusColor(a.Value()) != StatusColor(b.Value())
  {
  }

  /** The page's React state. API results and the user's answer to the
      confirmation dialog are parameters of the handlers. */
  class HomePageState {
    var tasks: seq<Task>
    var loading: bool
    var error: Option<string>
    var filter: StatusFilter

    /** The initial state: no tasks, loading, no error, filter `'all'`. */
    constructor ()
      ensures tasks == [] && loading && error == None && filter == All
    {
      tasks := [];
      loading := true;
      error := None;
      filter := All;
    }

    /** A filter button. */
    method SetFilter(f: StatusFilter)
      modifies this
      ensures filter == f
      ensures tasks == old(tasks) && error == old(error) && loading == old(loading)
    {
      filter := f;
    }

    /** `fetchTasks`, given the list the API returned (`None` when the request
        failed). `loading` is false afterwards either way. */
    method FetchTasks(fetched: Option<seq<Task>>)
      modifies this
      ensures !loading && filter == old(filter)
      ensures fetched.Some? ==> tasks == fetched.value && error == None
      ensures fetched.None? ==> tasks == old(tasks) && error == Some(FetchFailed)
    {
      loading := true;
      if fetched.Some? {
        tasks := fetched.value;
        error := None;
      } else {
        error := Some(FetchFailed);
      }
      loading := false;
    }

    /** `handleDelete(id)`, given whether the user confirmed and whether the
        delete request succeeded. `requested` tells whether the request was
        sent. */
    method HandleDelete(id: string, confirmed: bool, deleteSucceeds: bool) returns (requested: bool)
      modifies this
      ensures requested == confirmed
      ensures loading == old(loading) && filter == old(filter)
      ensures !confirmed ==> tasks == old(tasks) && error == old(error)
      ensures confirmed && deleteSucceeds ==> tasks == WithoutId(old(tasks), id) && error == old(error)
      ensures confirmed && !deleteSucceeds ==> tasks == old(tasks) && error == Some(DeleteFailed)
    {
      if !confirmed {
        return false;
      }
      requested := true;
      if deleteSucceeds {
        tasks := WithoutId(tasks, id);
      } else {
        error := Some(DeleteFailed);
      }
    }
  }
}
