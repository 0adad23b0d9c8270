/**
 The in-memory task service: a list of tasks and a next-identifier counter,
 and the five request handlers of the tasks controller as pure transitions
 from one store to the next. Each handler returns the response outcome
 together with the store it leaves behind.
 */
module TaskStore {
  import opened Text
  import opened TaskModel

  /** Body of a create request; `None` is a JSON `null` description. */
  datatype CreateTaskRequest = CreateTaskRequest(description: Option<string>)

  /** Body of an update request; an absent or `null` field is `None`. */
  datatype UpdateTaskRequest = UpdateTaskRequest(description: Option<string>, isCompleted: Option<bool>)

  /** The response of a handler, reduced to its kind and payload. */
  datatype Outcome<+T> = Ok(value: T) | NotFound | BadRequest

  /** The service state: the task list in insertion order, and the identifier the
      next created task will receive. */
  datatype Store = Store(tasks: seq<Task>, nextId: nat)

  /** The outcome of one request and the store after it. */
  datatype Step<+T> = Step(outcome: Outcome<T>, store: Store)

  /** `string.IsNullOrWhiteSpace`: null, empty, or only .NET whitespace; that is,
      null or trimming to the empty string. */
  predicate IsNullOrWhiteSpace(d: Option<string>)
    ensures IsNullOrWhiteSpace(d) <==> d.None? || Trim(d.value, IsDotNetWs) == []
  {
    d.None? || IsBlank(d.value, IsDotNetWs)
  }

  /** The store invariant: identifiers are positive, below the counter, strictly
      increasing along the list (hence unique), and no description is blank. */
  ghost predicate Valid(s: Store) {
    && 1 <= s.nextId
    && IdsIncreasing(s.tasks)
    && (forall k :: 0 <= k < |s.tasks| ==> 1 <= s.tasks[k].id < s.nextId)
    && (forall k :: 0 <= k < |s.tasks| ==> !IsBlank(s.tasks[k].description, IsDotNetWs))
  }

  /** The store at process start: no tasks, counter at 1. */
  function Initial(): (s: Store)
    ensures Valid(s)
    ensures s.tasks == [] && s.nextId == 1
  {
    Store([], 1)
  }

  /** GET api/tasks: the whole list, in insertion order, which by the invariant
      is ascending identifier order. */
  function GetAllTasks(s: Store): (r: Step<seq<Task>>)
    ensures r.store == s
    ensures r.outcome.Ok? && r.outcome.value == s.tasks
    ensures Valid(s) ==> IdsIncreasing(r.outcome.value)
  {
    Step(Ok(s.tasks), s)
  }

  /** GET api/tasks/{id}: the task carrying `id`, or NotFound exactly when no
      task carries it. The store is untouched either way. */
  function GetTask(s: Store, id: int): (r: Step<Task>)
    ensures r.store == s
    ensures r.outcome.NotFound? <==> !HasId(s.tasks, id)
    ensures !r.outcome.BadRequest?
    ensures r.outcome.Ok? ==> r.outcome.value in s.tasks && r.outcome.value.id == id
    ensures Valid(s) && r.outcome.Ok? ==>
              forall t :: t in s.tasks && t.id == id ==> t == r.outcome.value
  {
    var i := IndexOfId(s.tasks, id);
    if i == |s.tasks| then Step(NotFound, s)
    else
      IncreasingIdsAreUnique(s.tasks);
      Step(Ok(s.tasks[i]), s)
  }

  /** POST api/tasks: a null or blank description is rejected and changes
      nothing; otherwise a new, not completed task with the trimmed description
      and the next identifier is appended and the counter advances by one. */
  function CreateTask(s: Store, req: CreateTaskRequest): (r: Step<Task>)
    ensures r.outcome.BadRequest? <==> IsNullOrWhiteSpace(req.description)
    ensures !r.outcome.NotFound?
    ensures r.outcome.BadRequest? ==> r.store == s
    ensures r.outcome.Ok? ==>
              && r.outcome.value.id == s.nextId
              && r.outcome.value.description == Trim(req.description.value, IsDotNetWs)
              && !r.outcome.value.isCompleted
              && r.store.tasks == s.tasks + [r.outcome.value]
              && r.store.nextId == s.nextId + 1
    ensures Valid(s) ==> Valid(r.store)
    ensures Valid(s) && r.outcome.Ok? ==> !HasId(s.tasks, r.outcome.value.id)
  {
    if IsNullOrWhiteSpace(req.description) then Step(BadRequest, s)
    else
      var d := req.description.value;
      TrimNonBlank(d, IsDotNetWs);
      var t := Task(s.nextId, Trim(d, IsDotNetWs), false);
      Step(Ok(t), Store(s.tasks + [t], s.nextId + 1))
  }

  /** The field changes of an update applied to one task: a description that is
      present and not blank replaces the old one in trimmed form, any other is
      ignored; a present completion flag replaces the old one. The identifier
      never changes, and a non-blank description stays non-blank. */
  function Patch(t: Task, req: UpdateTaskRequest): (u: Task)
    ensures u.id == t.id
    ensures u.description ==
              if IsNullOrWhiteSpace(req.description) then t.description
              else Trim(req.description.value, IsDotNetWs)
    ensures u.isCompleted == if req.isCompleted.Some? then req.isCompleted.value else t.isCompleted
    ensures !IsBlank(t.description, IsDotNetWs) ==> !IsBlank(u.description, IsDotNetWs)
  {
    var d := if !IsNullOrWhiteSpace(req.description) then
               TrimNonBlank(req.description.value, IsDotNetWs);
               Trim(req.description.value, IsDotNetWs)
             else t.description;
    var c := if req.isCompleted.Some? then req.isCompleted.value else t.isCompleted;
    Task(t.id, d, c)
  }

  /** PUT api/tasks/{id}: NotFound, changing nothing, when no task carries `id`;
      otherwise the task carrying `id` is patched in place and returned. Its
      position, every other task and the counter are unchanged. */
  function UpdateTask(s: Store, id: int, req: UpdateTaskRequest): (r: Step<Task>)
    ensures r.outcome.NotFound? <==> !HasId(s.tasks, id)
    ensures !r.outcome.BadRequest?
    ensures r.outcome.NotFound? ==> r.store == s
    ensures r.outcome.Ok? ==>
              && r.outcome.value.id == id
              && r.store.nextId == s.nextId
              && |r.store.tasks| == |s.tasks|
    ensures Valid(s) && r.outcome.Ok? ==>
              forall k :: 0 <= k < |s.tasks| ==>
                r.store.tasks[k] == if s.tasks[k].id == id then Patch(s.tasks[k], req) else s.tasks[k]
    ensures Valid(s) && r.outcome.Ok? ==> r.outcome.value in r.store.tasks
    ensures Valid(s) ==> Valid(r.store)
  {
    var i := IndexOfId(s.tasks, id);
    if i == |s.tasks| then Step(NotFound, s)
    else
      var t := Patch(s.tasks[i], req);
      var next := Store(s.tasks[i := t], s.nextId);
      assert next.tasks[i] == t;
      Step(Ok(t), next)
  }

  /** DELETE api/tasks/{id}: NotFound, changing nothing, when no task carries
      `id`; otherwise the first task carrying `id` is removed, the others keep
      their relative order, and the counter is unchanged. Under the invariant no
      task carrying `id` remains. */
  function DeleteTask(s: Store, id: int): (r: Step<()>)
    ensures r.outcome.NotFound? <==> !HasId(s.tasks, id)
    ensures !r.outcome.BadRequest?
    ensures r.outcome.NotFound? ==> r.store == s
    ensures r.outcome.Ok? ==>
              var i := IndexOfId(s.tasks, id);
              && r.store.tasks == s.tasks[..i] + s.tasks[i + 1..]
              && r.store.nextId == s.nextId
    ensures Valid(s) ==> Valid(r.store)
    ensures Valid(s) ==> !HasId(r.store.tasks, id)
    ensures Valid(s) ==> forall t :: t in r.store.tasks <==> t in s.tasks && t.id != id
  {
    var i := IndexOfId(s.tasks, id);
    if i == |s.tasks| then Step(NotFound, s)
    else
      var next := Store(s.tasks[..i] + s.tasks[i + 1..], s.nextId);
      Step(Ok(()), next)
  }

  /** One request to the service. */
  datatype Request =
    | ListTasks
    | GetById(id: int)
    | Post(create: CreateTaskRequest)
    | Put(id: int, update: UpdateTaskRequest)
    | Remove(id: int)

  /** The store after one request. */
  function Handle(s: Store, req: Request): Store {
    match req
    case ListTasks => GetAllTasks(s).store
    case GetById(id) => GetTask(s, id).store
    case Post(c) => CreateTask(s, c).store
    case Put(id, u) => UpdateTask(s, id, u).store
    case Remove(id) => DeleteTask(s, id).store
  }

  /** Every task of `next` whose identifier is below the counter of `s` carries
      an identifier some task of `s` already carried. */
  ghost predicate NoReissue(s: Store, next: Store) {
    forall t :: t in next.tasks && t.id < s.nextId ==> HasId(s.tasks, t.id)
  }

  /** One request keeps the invariant, never lowers the counter, and never
      brings in a task whose identifier is below the old counter unless a task
      with that identifier was already stored. */
  lemma HandleStep(s: Store, req: Request)
    ensures Valid(s) ==> Valid(Handle(s, req))
    ensures Handle(s, req).nextId >= s.nextId
    ensures Valid(s) ==> NoReissue(s, Handle(s, req))
  {
  }

  /** The store after a sequence of requests served one after the other. */
  function Serve(s: Store, reqs: seq<Request>): (r: Store)
    ensures Valid(s) ==> Valid(r) && r.nextId >= s.nextId
    decreases |reqs|
  {
    if reqs == [] then s
    else
      var next := Handle(s, reqs[0]);
      HandleStep(s, reqs[0]);
      Serve(next, reqs[1..])
  }

  /** Identifiers are never reused: after any sequence of requests, a task whose
      identifier is below the starting counter was already stored at the start. */
  lemma {:induction false} IdsNeverReissued(s: Store, reqs: seq<Request>)
    requires Valid(s)
    ensures NoReissue(s, Serve(s, reqs))
    decreases |reqs|
  {
    if reqs != [] {
      var next := Handle(s, reqs[0]);
      HandleStep(s, reqs[0]);
      IdsNeverReissued(next, reqs[1..]);
      forall t | t in Serve(s, reqs).tasks && t.id < s.nextId ensures HasId(s.tasks, t.id) {
        assert HasId(next.tasks, t.id);
        var k :| 0 <= k < |next.tasks| && next.tasks[k].id == t.id;
        assert next.tasks[k] in next.tasks;
      }
    }
  }

  /** Once deleted, an identifier never comes back. */
  lemma DeletedIdStaysGone(s: Store, id: int, reqs: seq<Request>)
    requires Valid(s)
    requires HasId(s.tasks, id)
    ensures !HasId(Serve(DeleteTask(s, id).store, reqs).tasks, id)
  {
    var d := DeleteTask(s, id).store;
    var k :| 0 <= k < |s.tasks| && s.tasks[k].id == id;
    assert id < d.nextId;
    IdsNeverReissued(d, reqs);
    var end := Serve(d, reqs).tasks;
    forall j | 0 <= j < |end| ensures end[j].id != id {
      assert end[j] in end;
    }
  }

  /** From any valid store: a create with a non-blank description followed by a
      get of the identifier it was given returns exactly the created task, not
      completed and with the trimmed description. */
  lemma CreateThenGet(s: Store, d: string)
    requires Valid(s) && !IsBlank(d, IsDotNetWs)
    ensures GetTask(CreateTask(s, CreateTaskRequest(Some(d))).store, s.nextId).outcome
            == Ok(Task(s.nextId, Trim(d, IsDotNetWs), false))
  {
    var c := CreateTask(s, CreateTaskRequest(Some(d)));
    var t := Task(s.nextId, Trim(d, IsDotNetWs), false);
    assert c.store.tasks[|s.tasks|] == t;
    assert HasId(c.store.tasks, s.nextId);
    assert t in c.store.tasks;
  }

  /** From the initial empty store: create a, create b, delete the first, create
      c. Then c receives identifier 3, not the freed 1, and the list is b, c. */
  lemma CreateDeleteCreateScenario(a: string, b: string, c: string)
    requires !IsBlank(a, IsDotNetWs) && !IsBlank(b, IsDotNetWs) && !IsBlank(c, IsDotNetWs)
    ensures var s1 := CreateTask(Store([], 1), CreateTaskRequest(Some(a))).store;
            var s2 := CreateTask(s1, CreateTaskRequest(Some(b))).store;
            var s3 := DeleteTask(s2, 1).store;
            var r := CreateTask(s3, CreateTaskRequest(Some(c)));
            && r.outcome == Ok(Task(3, Trim(c, IsDotNetWs), false))
            && GetAllTasks(r.store).outcome.value
               == [Task(2, Trim(b, IsDotNetWs), false), Task(3, Trim(c, IsDotNetWs), false)]
  {
    var s1 := CreateAccepted(Store([], 1), a);
    var s2 := CreateAccepted(s1, b);
    var s3 := DeleteFirst(s2);
    var s4 := CreateAccepted(s3, c);
  }

  /** A create with a non-blank description succeeds and appends the new task;
      returns the resulting store. */
  lemma CreateAccepted(s: Store, d: string) returns (next: Store)
    requires !IsBlank(d, IsDotNetWs)
    ensures var t := Task(s.nextId, Trim(d, IsDotNetWs), false);
            && CreateTask(s, CreateTaskRequest(Some(d))) == Step(Ok(t), next)
            && next == Store(s.tasks + [t], s.nextId + 1)
  {
    next := CreateTask(s, CreateTaskRequest(Some(d))).store;
  }

  /** Deleting the identifier of the first task removes the head of the list;
      returns the resulting store. */
  lemma DeleteFirst(s: Store) returns (next: Store)
    requires |s.tasks| > 0
    ensures DeleteTask(s, s.tasks[0].id) == Step(Ok(()), next)
    ensures next == Store(s.tasks[1..], s.nextId)
  {
    assert IndexOfId(s.tasks, s.tasks[0].id) == 0;
    next := Store(s.tasks[1..], s.nextId);
  }

  /** From the initial empty store: create d, mark it completed, delete it, look
      it up again. The task is created not completed with the trimmed
      description, the update flips only the flag, and after the delete the
      lookup fails. */
  lemma CompleteThenDeleteScenario(d: string)
    requires !IsBlank(d, IsDotNetWs)
    ensures var c := CreateTask(Store([], 1), CreateTaskRequest(Some(d)));
            var u := UpdateTask(c.store, 1, UpdateTaskRequest(None, Some(true)));
            var x := DeleteTask(u.store, 1);
            var g := GetTask(x.store, 1);
            && c.outcome == Ok(Task(1, Trim(d, IsDotNetWs), false))
            && u.outcome == Ok(Task(1, Trim(d, IsDotNetWs), true))
            && x.outcome == Ok(())
            && g.outcome == NotFound
  {
    var c := CreateTask(Store([], 1), CreateTaskRequest(Some(d)));
    assert c.store.tasks == [Task(1, Trim(d, IsDotNetWs), false)];
    assert IndexOfId(c.store.tasks, 1) == 0;
    var u := UpdateTask(c.store, 1, UpdateTaskRequest(None, Some(true)));
    assert u.store.tasks == [Task(1, Trim(d, IsDotNetWs), true)];
  }

  /** The description " buy milk " is accepted and stored as "buy milk". */
  lemma BuyMilkTrimmed()
    ensures !IsNullOrWhiteSpace(Some(" buy milk "))
    ensures Trim(" buy milk ", IsDotNetWs) == "buy milk"
  {
    assert !IsDotNetWs(" buy milk "[1]);
    TrimUnique(" buy milk ", IsDotNetWs, 1, 9);
    assert " buy milk "[1..9] == "buy milk";
  }
}
