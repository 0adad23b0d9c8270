/**
 The browser client's list logic: the filter the task list is shown through,
 the active and completed counters, and the updates the client applies to its
 local copy of the list once the service has answered a request.
 */
module TaskClient {
  import opened Text
  import opened TaskModel

  /** The three views of the list. */
  datatype FilterType = All | Active | Completed

  /** `Array.prototype.filter`: the tasks satisfying `keep`, in their original order. */
  function Filter(tasks: seq<Task>, keep: Task -> bool): (r: seq<Task>)
    ensures |r| <= |tasks|
    decreases |tasks|
  {
    if tasks == [] then []
    else if keep(tasks[0]) then [tasks[0]] + Filter(tasks[1..], keep)
    else Filter(tasks[1..], keep)
  }

  /** The filtered list holds exactly the tasks of the list that satisfy `keep`. */
  lemma {:induction false} FilterMembers(tasks: seq<Task>, keep: Task -> bool)
    ensures forall t :: t in Filter(tasks, keep) <==> t in tasks && keep(t)
    decreases |tasks|
  {
    if tasks != [] {
      FilterMembers(tasks[1..], keep);
      assert tasks == [tasks[0]] + tasks[1..];
    }
  }

  /** Filtering distributes over concatenation: what survives from the front
      comes before what survives from the back, so filtering keeps order. */
  lemma {:induction false} FilterAppend(a: seq<Task>, b: seq<Task>, keep: Task -> bool)
    ensures Filter(a + b, keep) == Filter(a, keep) + Filter(b, keep)
    decreases |a|
  {
    if a != [] {
      assert (a + b)[1..] == a[1..] + b;
      FilterAppend(a[1..], b, keep);
    } else {
      assert a + b == b;
    }
  }

  /** A filter that rejects nothing returns the list unchanged. */
  lemma {:induction false} FilterKeepsAll(tasks: seq<Task>, keep: Task -> bool)
    requires forall k :: 0 <= k < |tasks| ==> keep(tasks[k])
    ensures Filter(tasks, keep) == tasks
    decreases |tasks|
  {
    if tasks != [] {
      FilterKeepsAll(tasks[1..], keep);
    }
  }

  /** A task still to be done. */
  predicate IsActive(t: Task) {
    !t.isCompleted
  }

  /** A task marked done. */
  predicate IsDone(t: Task) {
    t.isCompleted
  }

  /** The active and the completed tasks split the list: their numbers add up to
      its length, and together they hold every task exactly as often. */
  lemma {:induction false} ActiveDonePartition(tasks: seq<Task>)
    ensures |Filter(tasks, IsActive)| + |Filter(tasks, IsDone)| == |tasks|
    ensures multiset(Filter(tasks, IsActive)) + multiset(Filter(tasks, IsDone)) == multiset(tasks)
    decreases |tasks|
  {
    if tasks != [] {
      ActiveDonePartition(tasks[1..]);
      assert tasks == [tasks[0]] + tasks[1..];
    }
  }

  /** `getFilteredTasks`: the whole list for `All`, otherwise exactly the active
      or exactly the completed tasks, in list order. */
  function GetFilteredTasks(tasks: seq<Task>, filter: FilterType): (r: seq<Task>)
    ensures filter == All ==> r == tasks
    ensures filter == Active ==> forall t :: t in r <==> t in tasks && !t.isCompleted
    ensures filter == Completed ==> forall t :: t in r <==> t in tasks && t.isCompleted
    ensures |r| <= |tasks|
  {
    match filter
    case Active =>
      FilterMembers(tasks, IsActive);
      Filter(tasks, IsActive)
    case Completed =>
      FilterMembers(tasks, IsDone);
      Filter(tasks, IsDone)
    case All => tasks
  }

  /** Every view keeps the relative order of the list: viewing a concatenation is
      viewing each part, one after the other. */
  lemma FilteredTasksKeepOrder(a: seq<Task>, b: seq<Task>, filter: FilterType)
    ensures GetFilteredTasks(a + b, filter) == GetFilteredTasks(a, filter) + GetFilteredTasks(b, filter)
  {
    match filter
    case Active => FilterAppend(a, b, IsActive);
    case Completed => FilterAppend(a, b, IsDone);
    case All =>
  }

  /** The number shown beside the "Active" button: at most the number of tasks,
      and zero exactly when every task is completed. */
  function ActiveCount(tasks: seq<Task>): (n: nat)
    ensures n <= |tasks|
    ensures n == 0 <==> forall k :: 0 <= k < |tasks| ==> tasks[k].isCompleted
  {
    ZeroWhenNoneKept(tasks, IsActive);
    |Filter(tasks, IsActive)|
  }

  /** The number shown beside the "Completed" button: at most the number of
      tasks, and zero exactly when no task is completed. */
  function CompletedCount(tasks: seq<Task>): (n: nat)
    ensures n <= |tasks|
    ensures n == 0 <==> forall k :: 0 <= k < |tasks| ==> !tasks[k].isCompleted
  {
    ZeroWhenNoneKept(tasks, IsDone);
    |Filter(tasks, IsDone)|
  }

  /** A filtered list is empty exactly when no task of the list passes the test. */
  lemma ZeroWhenNoneKept(tasks: seq<Task>, keep: Task -> bool)
    ensures Filter(tasks, keep) == [] <==> forall k :: 0 <= k < |tasks| ==> !keep(tasks[k])
  {
    var r := Filter(tasks, keep);
    FilterMembers(tasks, keep);
    if r != [] {
      assert r[0] in r;
    } else {
      forall k | 0 <= k < |tasks| ensures !keep(tasks[k]) {
        assert tasks[k] in tasks;
      }
    }
  }

  /** Together the two counters count every task once. The first two clauses
      hold by definition, since each counter is computed with the same filter as
      the view it labels; the third is the partition of the list. */
  lemma CountsMatchViews(tasks: seq<Task>)
    ensures ActiveCount(tasks) == |GetFilteredTasks(tasks, Active)|
    ensures CompletedCount(tasks) == |GetFilteredTasks(tasks, Completed)|
    ensures ActiveCount(tasks) + CompletedCount(tasks) == |tasks| == |GetFilteredTasks(tasks, All)|
  {
    ActiveDonePartition(tasks);
  }

  /** The description `addTask` posts for an input: its trimmed form, or nothing
      (no request at all) when the trimmed input is empty. */
  function AddRequest(input: string): (d: Option<string>)
    ensures d.None? <==> IsBlank(input, IsJsWs)
    ensures d.Some? ==> d.value == Trim(input, IsJsWs) && !IsBlank(d.value, IsJsWs)
  {
    var trimmed := Trim(input, IsJsWs);
    if trimmed == [] then None
    else
      TrimNonBlank(input, IsJsWs);
      Some(trimmed)
  }

  /** The local list after `addTask`: unchanged when nothing was posted or the
      request failed (`reply` is `None`); otherwise the task the service
      returned is appended after all earlier entries. */
  function AddTask(tasks: seq<Task>, input: string, reply: Option<Task>): (r: seq<Task>)
    ensures AddRequest(input).None? || reply.None? ==> r == tasks
    ensures AddRequest(input).Some? && reply.Some? ==>
              |r| == |tasks| + 1 && r[..|tasks|] == tasks && r[|tasks|] == reply.value
  {
    if AddRequest(input).None? then tasks
    else match reply
      case None => tasks
      case Some(t) => tasks + [t]
  }

  /** `tasks.map(t => t.id === id ? updated : t)`. */
  function ReplaceById(tasks: seq<Task>, id: int, updated: Task): (r: seq<Task>)
    ensures |r| == |tasks|
    ensures forall k :: 0 <= k < |tasks| ==> r[k] == if tasks[k].id == id then updated else tasks[k]
    decreases |tasks|
  {
    if tasks == [] then []
    else [if tasks[0].id == id then updated else tasks[0]] + ReplaceById(tasks[1..], id, updated)
  }

  /** The local list after `toggleTaskCompletion(task)`: unchanged when the
      request failed; otherwise every entry carrying the task's identifier is
      replaced by the task the service returned, and nothing else changes. */
  function ToggleTask(tasks: seq<Task>, task: Task, reply: Option<Task>): (r: seq<Task>)
    ensures |r| == |tasks|
    ensures reply.None? ==> r == tasks
    ensures reply.Some? ==>
              forall k :: 0 <= k < |tasks| ==>
                r[k] == if tasks[k].id == task.id then reply.value else tasks[k]
  {
    match reply
    case None => tasks
    case Some(u) => ReplaceById(tasks, task.id, u)
  }

  /** `tasks.filter(t => t.id !== id)`: every entry carrying `id` is dropped, all
      others stay in their order; a list without `id` comes back unchanged. */
  function RemoveById(tasks: seq<Task>, id: int): (r: seq<Task>)
    ensures forall t :: t in r <==> t in tasks && t.id != id
    ensures !HasId(r, id)
    ensures !HasId(tasks, id) ==> r == tasks
  {
    FilterMembers(tasks, OtherId(id));
    FilterOutId(tasks, id, OtherId(id));
    Filter(tasks, OtherId(id))
  }

  /** The test `t => t.id !== id` of `deleteTask`. */
  function OtherId(id: int): Task -> bool {
    (t: Task) => t.id != id
  }

  /** Removing an identifier from a concatenation removes it from each part and
      keeps the parts in order. */
  lemma RemoveByIdAppend(a: seq<Task>, b: seq<Task>, id: int)
    ensures RemoveById(a + b, id) == RemoveById(a, id) + RemoveById(b, id)
  {
    FilterAppend(a, b, OtherId(id));
  }

  /** Filtering out one identifier leaves no entry carrying it, and changes
      nothing when no entry carries it. */
  lemma FilterOutId(tasks: seq<Task>, id: int, keep: Task -> bool)
    requires forall t :: keep(t) == (t.id != id)
    ensures !HasId(Filter(tasks, keep), id)
    ensures !HasId(tasks, id) ==> Filter(tasks, keep) == tasks
  {
  }

  /** A filter that rejects exactly one position drops just that entry. */
  lemma {:induction false} FilterDropsOne(tasks: seq<Task>, i: nat, keep: Task -> bool)
    requires i < |tasks| && !keep(tasks[i])
    requires forall k :: 0 <= k < |tasks| && k != i ==> keep(tasks[k])
    ensures Filter(tasks, keep) == tasks[..i] + tasks[i + 1..]
    decreases i
  {
    var tail := tasks[1..];
    TailKept(tasks, i, keep);
    if i == 0 {
      FilterKeepsAll(tail, keep);
      assert tasks[..0] + tasks[1..] == tail;
    } else {
      assert keep(tasks[0]) && tail[i - 1] == tasks[i];
      assert Filter(tasks, keep) == [tasks[0]] + Filter(tail, keep);
      FilterDropsOne(tail, i - 1, keep);
      assert tasks[..i] + tasks[i + 1..] == [tasks[0]] + (tail[..i - 1] + tail[i..]);
    }
  }

  /** The tail of a list keeps every position the list keeps, shifted by one. */
  lemma TailKept(tasks: seq<Task>, i: nat, keep: Task -> bool)
    requires i < |tasks|
    requires forall k :: 0 <= k < |tasks| && k != i ==> keep(tasks[k])
    ensures forall k :: 0 <= k < |tasks| - 1 && k != i - 1 ==> keep(tasks[1..][k])
  {
  }

  /** When exactly one entry carries `id`, removing `id` drops just that entry. */
  lemma RemoveByIdSingle(tasks: seq<Task>, i: nat, id: int)
    requires i < |tasks| && tasks[i].id == id
    requires forall k :: 0 <= k < |tasks| && k != i ==> tasks[k].id != id
    ensures RemoveById(tasks, id) == tasks[..i] + tasks[i + 1..]
  {
    FilterDropsOne(tasks, i, OtherId(id));
  }

  /** The local list after `deleteTask(id)`: unchanged when the request failed,
      otherwise without the entries carrying `id`. */
  function DeleteTask(tasks: seq<Task>, id: int, succeeded: bool): (r: seq<Task>)
    ensures !succeeded ==> r == tasks
    ensures succeeded ==> forall t :: t in r <==> t in tasks && t.id != id
    ensures succeeded ==> !HasId(r, id)
  {
    if succeeded then RemoveById(tasks, id) else tasks
  }
}
