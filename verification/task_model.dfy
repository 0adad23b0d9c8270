/**
 The task record shared by the service and its browser client, and the
 facts about identifiers that both sides rely on.
 */
module TaskModel {

  /** An optional value: a JSON field that may be absent or null. */
  datatype Option<+T> = None | Some(value: T)

  /** A task as the service stores it and as the client receives it in JSON. */
  datatype Task = Task(id: int, description: string, isCompleted: bool)

  /** Some task in `tasks` carries identifier `id`. */
  ghost predicate HasId(tasks: seq<Task>, id: int) {
    exists k :: 0 <= k < |tasks| && tasks[k].id == id
  }

  /** Identifiers strictly increase along the sequence. */
  ghost predicate IdsIncreasing(tasks: seq<Task>) {
    forall i, j :: 0 <= i < j < |tasks| ==> tasks[i].id < tasks[j].id
  }

  /** No two positions of the sequence carry the same identifier. */
  ghost predicate IdsUnique(tasks: seq<Task>) {
    forall i, j :: 0 <= i < |tasks| && 0 <= j < |tasks| && tasks[i].id == tasks[j].id ==> i == j
  }

  /** A list ordered by strictly increasing identifier has unique identifiers. */
  lemma IncreasingIdsAreUnique(tasks: seq<Task>)
    ensures IdsIncreasing(tasks) ==> IdsUnique(tasks)
  {
  }

  /** The position of the first task carrying `id`, or `|tasks|` when there is
      none: the lookup `FirstOrDefault(t => t.Id == id)` performs. */
  function IndexOfId(tasks: seq<Task>, id: int): (i: nat)
    ensures i <= |tasks|
    ensures i < |tasks| ==> tasks[i].id == id
    ensures forall k :: 0 <= k < i ==> tasks[k].id != id
    ensures i == |tasks| <==> !HasId(tasks, id)
  {
    IndexOfIdFrom(tasks, id, 0)
  }

  /** The first position at or after `from` carrying `id`, or `|tasks|`. */
  function IndexOfIdFrom(tasks: seq<Task>, id: int, from: nat): (i: nat)
    requires from <= |tasks|
    ensures from <= i <= |tasks|
    ensures i < |tasks| ==> tasks[i].id == id
    ensures forall k :: from <= k < i ==> tasks[k].id != id
    decreases |tasks| - from
  {
    if from == |tasks| then from
    else if tasks[from].id == id then from
    else IndexOfIdFrom(tasks, id, from + 1)
  }
}
