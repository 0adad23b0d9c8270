/**
 The client's local list against the service's list. The client fetches the
 list once and afterwards patches its copy from each response instead of
 fetching again; these lemmas show that, with requests served one at a time,
 the patched copy is always exactly the service's list.
 */
module Mirror {
  import opened TaskModel
  import Text
  import Service = TaskStore
  import Client = TaskClient

  /** What the client sees of a response: the payload on success, nothing on an
      error status. */
  function Reply<T>(o: Service.Outcome<T>): Option<T> {
    if o.Ok? then Some(o.value) else None
  }

  /** One user action in the client. */
  datatype Action =
    | AddAction(input: string)
    | ToggleAction(task: Task)
    | DeleteAction(id: int)

  /** The body `toggleTaskCompletion` sends: flip the completion flag, leave the
      description alone. */
  function ToggleBody(task: Task): (b: Service.UpdateTaskRequest)
    ensures forall t :: Service.Patch(t, b) == t.(isCompleted := !task.isCompleted)
  {
    Service.UpdateTaskRequest(None, Some(!task.isCompleted))
  }

  /** The service store and the client list after one action: the request the
      client sends (if any) is served, and the client patches its list from the
      response. */
  function Perform(s: Service.Store, local: seq<Task>, a: Action): (Service.Store, seq<Task>)
  {
    match a
    case AddAction(input) =>
      var body := Client.AddRequest(input);
      if body.None? then (s, Client.AddTask(local, input, None))
      else
        var step := Service.CreateTask(s, Service.CreateTaskRequest(body));
        (step.store, Client.AddTask(local, input, Reply(step.outcome)))
    case ToggleAction(task) =>
      var step := Service.UpdateTask(s, task.id, ToggleBody(task));
      (step.store, Client.ToggleTask(local, task, Reply(step.outcome)))
    case DeleteAction(id) =>
      var step := Service.DeleteTask(s, id);
      (step.store, Client.DeleteTask(local, id, step.outcome.Ok?))
  }

  /** Only the service's handlers change the store, so one action keeps a valid
      store valid and never lowers the counter; an add with a blank input sends
      nothing and changes neither side. */
  lemma PerformStep(s: Service.Store, local: seq<Task>, a: Action)
    ensures Service.Valid(s) ==> Service.Valid(Perform(s, local, a).0)
    ensures Perform(s, local, a).0.nextId >= s.nextId
    ensures a.AddAction? && Client.AddRequest(a.input).None? ==> Perform(s, local, a) == (s, local)
  {
  }

  /** After an add, the local list is the service's list again. */
  lemma AddKeepsMirror(s: Service.Store, input: string)
    ensures var (s', local') := Perform(s, s.tasks, AddAction(input));
            local' == s'.tasks
  {
  }

  /** After a toggle, the local list is the service's list again: the service
      patches the one task carrying the identifier and the client replaces every
      entry carrying it, which is the same entry because identifiers are unique. */
  lemma ToggleKeepsMirror(s: Service.Store, task: Task)
    requires Service.Valid(s)
    ensures var (s', local') := Perform(s, s.tasks, ToggleAction(task));
            local' == s'.tasks
  {
  }

  /** After a delete, the local list is the service's list again: the service
      removes the first task carrying the identifier, the client removes all of
      them, and by uniqueness these are the same single entry. */
  lemma DeleteKeepsMirror(s: Service.Store, id: int)
    requires Service.Valid(s)
    ensures var (s', local') := Perform(s, s.tasks, DeleteAction(id));
            local' == s'.tasks
  {
    var step := Service.DeleteTask(s, id);
    assert Perform(s, s.tasks, DeleteAction(id))
        == (step.store, Client.DeleteTask(s.tasks, id, step.outcome.Ok?));
    if step.outcome.Ok? {
      var i := IndexOfId(s.tasks, id);
      assert i < |s.tasks| && s.tasks[i].id == id;
      IncreasingIdsAreUnique(s.tasks);
      assert forall k :: 0 <= k < |s.tasks| && k != i ==> s.tasks[k].id != id;
      Client.RemoveByIdSingle(s.tasks, i, id);
      assert step.store.tasks == s.tasks[..i] + s.tasks[i + 1..];
    }
  }

  /** The service store and the client list after a sequence of actions. */
  function Session(s: Service.Store, local: seq<Task>, actions: seq<Action>): (Service.Store, seq<Task>)
    decreases |actions|
  {
    if actions == [] then (s, local)
    else
      var (s', local') := Perform(s, local, actions[0]);
      Session(s', local', actions[1..])
  }

  /** Starting from the list the client fetched on load, any sequence of adds,
      toggles and deletes leaves the client's list equal to the service's list,
      and the service store valid. */
  lemma {:induction false} SessionKeepsMirror(s: Service.Store, actions: seq<Action>)
    requires Service.Valid(s)
    ensures var (s', local') := Session(s, Service.GetAllTasks(s).outcome.value, actions);
            Service.Valid(s') && local' == s'.tasks
    decreases |actions|
  {
    if actions != [] {
      var (s', local') := Perform(s, s.tasks, actions[0]);
      match actions[0] {
        case AddAction(input) => AddKeepsMirror(s, input);
        case ToggleAction(task) => ToggleKeepsMirror(s, task);
        case DeleteAction(id) => DeleteKeepsMirror(s, id);
      }
      assert Service.Valid(s') && local' == s'.tasks;
      SessionKeepsMirror(s', actions[1..]);
    }
  }

  /** The client and the service disagree on what is blank: U+0085 (NEXT LINE)
      is whitespace to .NET but not to ECMAScript, so the client posts it and the
      service rejects it; U+FEFF is the other way round, so the client never
      posts an input the service would have accepted. The mirror still holds in
      both cases (the rejected add leaves both lists alone). */
  lemma BlankClassesDiffer(s: Service.Store)
    ensures Client.AddRequest("\U{0085}") == Some("\U{0085}")
    ensures Service.CreateTask(s, Service.CreateTaskRequest(Some("\U{0085}"))) == Service.Step(Service.BadRequest, s)
    ensures Client.AddRequest("\U{FEFF}") == None
    ensures Service.CreateTask(s, Service.CreateTaskRequest(Some("\U{FEFF}"))).outcome.Ok?
  {
    var nel, bom := "\U{0085}", "\U{FEFF}";
    assert !Text.IsJsWs(nel[0]) && Text.IsDotNetWs(nel[0]);
    assert Text.IsJsWs(bom[0]) && !Text.IsDotNetWs(bom[0]);
    assert !Text.IsBlank(nel, Text.IsJsWs);
    Text.TrimUnique(nel, Text.IsJsWs, 0, 1);
    assert nel[0..1] == nel;
    assert !Text.IsBlank(bom, Text.IsDotNetWs);
  }

  /** The service's side of one add: the request the client sends for `input`,
      if any, served against `s`. Gives the store afterwards and the task the
      client receives, which exists exactly when a description was sent and the
      service found it non-blank; the store then has that task appended. */
  function SendAdd(s: Service.Store, input: string): (r: (Service.Store, Option<Task>))
    ensures r.1.Some? <==>
              Client.AddRequest(input).Some? && !Text.IsBlank(Client.AddRequest(input).value, Text.IsDotNetWs)
    ensures r.1.Some? ==> r.0 == Service.Store(s.tasks + [r.1.value], s.nextId + 1)
    ensures r.1.None? ==> r.0 == s
    ensures Service.Valid(s) ==> Service.Valid(r.0)
  {
    var body := Client.AddRequest(input);
    if body.None? then (s, None)
    else
      var step := Service.CreateTask(s, Service.CreateTaskRequest(body));
      (step.store, Reply(step.outcome))
  }

  /** Two adds whose requests are both sent before either response arrives (the
      input box and the Add button stay enabled while a request is in flight),
      answered by the service in order, with the client's patches as written:
      each handler appends its reply to the list it captured when it started, so
      when the second reply lands it replaces the list the first one set. */
  function OverlappingAdds(s: Service.Store, local: seq<Task>, first: string, second: string)
    : (Service.Store, seq<Task>)
  {
    var (s1, r1) := SendAdd(s, first);
    var (s2, r2) := SendAdd(s1, second);
    var afterFirst := Client.AddTask(local, first, r1);
    (s2, if r2.Some? then Client.AddTask(local, second, r2) else afterFirst)
  }

  /** Two overlapping adds that the service both accepts leave the service with
      its old tasks followed by both new ones, and the client with its old tasks
      followed by the second new one only: the first task is missing from the
      client's list. */
  lemma OverlappingAddsLoseTask(s: Service.Store, first: string, second: string)
    requires Client.AddRequest(first).Some? && !Text.IsBlank(Client.AddRequest(first).value, Text.IsDotNetWs)
    requires Client.AddRequest(second).Some? && !Text.IsBlank(Client.AddRequest(second).value, Text.IsDotNetWs)
    ensures var (s', local') := OverlappingAdds(s, s.tasks, first, second);
            var a := Task(s.nextId, Text.Trim(Client.AddRequest(first).value, Text.IsDotNetWs), false);
            var b := Task(s.nextId + 1, Text.Trim(Client.AddRequest(second).value, Text.IsDotNetWs), false);
            && s'.tasks == s.tasks + [a, b]
            && local' == s.tasks + [b]
            && local' != s'.tasks
  {
    var s1 := AcceptedAdd(s, first);
    var s2 := AcceptedAdd(s1, second);
    var a, b := s1.tasks[|s.tasks|], s2.tasks[|s1.tasks|];
    assert s2.tasks == s.tasks + [a, b];
    var local' := Client.AddTask(s.tasks, second, Some(b));
    assert local' == s.tasks + [b];
    assert OverlappingAdds(s, s.tasks, first, second) == (s2, local');
    assert |local'| < |s2.tasks|;
  }

  /** An add that the client sends and the service accepts appends the task with
      the old counter as identifier and the trimmed description; returns the
      store afterwards. */
  lemma AcceptedAdd(s: Service.Store, input: string) returns (next: Service.Store)
    requires Client.AddRequest(input).Some? && !Text.IsBlank(Client.AddRequest(input).value, Text.IsDotNetWs)
    ensures var t := Task(s.nextId, Text.Trim(Client.AddRequest(input).value, Text.IsDotNetWs), false);
            && SendAdd(s, input) == (next, Some(t))
            && next == Service.Store(s.tasks + [t], s.nextId + 1)
  {
    next := SendAdd(s, input).0;
  }

  /** The same two overlapping adds with the client's patches written as
      functional state updates (`setTasks(prev => [...prev, reply])`): each
      reply is appended to the list as it stands when the reply arrives. The
      replies are taken to arrive in the order the service handled the
      requests; nothing in the client guarantees that, and if they arrive
      swapped the client keeps both tasks but in the other order. */
  function OverlappingAddsFunctional(s: Service.Store, local: seq<Task>, first: string, second: string)
    : (Service.Store, seq<Task>)
  {
    var (s1, r1) := SendAdd(s, first);
    var (s2, r2) := SendAdd(s1, second);
    (s2, Client.AddTask(Client.AddTask(local, first, r1), second, r2))
  }

  /** With functional updates, two overlapping adds keep the client's list equal
      to the service's list and the store valid, whatever the service answers. */
  lemma OverlappingAddsFunctionalKeepMirror(s: Service.Store, first: string, second: string)
    requires Service.Valid(s)
    ensures var (s', local') := OverlappingAddsFunctional(s, s.tasks, first, second);
            Service.Valid(s') && local' == s'.tasks
  {
  }
}
