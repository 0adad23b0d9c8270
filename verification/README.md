# Task manager: the task store and the client's list logic, in Dafny

This project models the two pieces of logic in a small task-tracking
application:

- **The task service** (`TasksController`). It keeps an in-memory list of
  tasks and a next-identifier counter. It answers five requests: list all
  tasks, get one by identifier, create, partially update, and delete.
- **The browser client** (`App.tsx`). It shows the list through an
  all / active / completed filter with two counters. After each successful
  add, toggle or delete it patches its local copy of the list from the
  service's response instead of fetching the list again.

Modules, one per concern:

| file | module | contents |
|---|---|---|
| `text.dfy` | `Text` | blank strings and trimming. Everything is generic in the whitespace class `ws: char -> bool`. It also gives the .NET class (`Char.IsWhiteSpace`) and the ECMAScript class (`String.prototype.trim`). |
| `task_model.dfy` | `TaskModel` | the `Task` record shared by both sides, `Option`, and identifier predicates. It also has `IndexOfId`, the `FirstOrDefault(t => t.Id == id)` lookup. |
| `task_store.dfy` | `TaskStore` | the `Store` (task list and counter), the store invariant `Valid`, and the five handlers as pure functions returning an `Outcome` (`Ok`, `NotFound` or `BadRequest`) with the next store. It also serves sequences of requests and proves that identifiers are never reissued. |
| `task_client.dfy` | `TaskClient` | `Array.prototype.filter` as `Filter`, `getFilteredTasks`, the counters, and the three local-list updates. |
| `mirror.dfy` | `Mirror` | one user action = the client's request, the service's transition and the client's patch. Proves that the client's list stays equal to the service's list while one request is in flight at a time, and shows how two overlapping adds break that. |

The store invariant `TaskStore.Valid` says:

- the counter is at least 1;
- every identifier is at least 1 and below the counter;
- identifiers strictly increase along the list, so they are unique and listing order is ascending identifier order;
- no stored description is blank under the .NET whitespace class.

It holds for the initial store. Create, update and delete preserve it. So
does any sequence of requests (`Serve`).

"Whitespace" is a parameter `ws`: every trimming lemma holds for any class.
The service uses `Text.IsDotNetWs` and the client uses `Text.IsJsWs`. The two
classes differ: U+0085 is whitespace only to .NET, and U+FEFF only to
ECMAScript. `Mirror.BlankClassesDiffer` states what that does to an add.

## Model

| member | source | states |
|---|---|---|
| Text.Trim | backend/TaskManager.Api/Controllers/TasksController.cs:43 | the trimmed string is a slice of the input whose surroundings are all whitespace and which starts and ends with a non-whitespace character when non-empty; it is empty exactly when the input is blank |
| Text.TrimUnique | backend/TaskManager.Api/Controllers/TasksController.cs:43 | any slice framed by whitespace on both sides with non-whitespace ends is the trimmed string, so `Framed` is an independent definition of trimming |
| Text.TrimIdempotent | backend/TaskManager.Api/Controllers/TasksController.cs:43 | trimming an already trimmed string changes nothing |
| Text.TrimNonBlank | backend/TaskManager.Api/Controllers/TasksController.cs:35-43 | a description that passes the not-blank check trims to a non-empty, non-blank string |
| TaskModel.IndexOfId | backend/TaskManager.Api/Controllers/TasksController.cs:23 | the lookup finds the first task carrying the identifier, and finds none exactly when no task carries it |
| TaskModel.IncreasingIdsAreUnique | backend/TaskManager.Api/Controllers/TasksController.cs:42 | a list ordered by strictly increasing identifier has no two tasks with the same identifier |
| TaskStore.Initial | backend/TaskManager.Api/Controllers/TasksController.cs:9-10 | the process starts with no tasks and counter 1, and that store satisfies the invariant |
| TaskStore.GetAllTasks | backend/TaskManager.Api/Controllers/TasksController.cs:14-17 | listing always succeeds, changes nothing, and returns the stored list, in ascending identifier order under the invariant |
| TaskStore.GetTask | backend/TaskManager.Api/Controllers/TasksController.cs:21-29 | get returns a stored task with that identifier (under the invariant the only one), fails with NotFound exactly when no task has it, and changes nothing either way |
| TaskStore.IsNullOrWhiteSpace | backend/TaskManager.Api/Controllers/TasksController.cs:35 | a description is rejected as null-or-whitespace exactly when it is null or trims to the empty string; the same test guards the description of an update at line 61 |
| TaskStore.CreateTask | backend/TaskManager.Api/Controllers/TasksController.cs:33-49 | a null, empty or whitespace-only description gives BadRequest and changes nothing; otherwise the new task has the old counter as identifier, the trimmed description and is not completed, it is appended at the end, the counter goes up by exactly one, the invariant is kept, and the identifier was not in use |
| TaskStore.Patch | backend/TaskManager.Api/Controllers/TasksController.cs:61-69 | a present, non-blank description replaces the old one in trimmed form and any other leaves it; a present flag replaces the completion flag and an absent one leaves it; the identifier never changes and a non-blank description stays non-blank |
| TaskStore.UpdateTask | backend/TaskManager.Api/Controllers/TasksController.cs:53-72 | an unknown identifier gives NotFound and changes nothing; otherwise under the invariant exactly the task carrying the identifier is patched in its position, every other task and the counter are unchanged, the returned task is the stored one, and the invariant is kept |
| TaskStore.DeleteTask | backend/TaskManager.Api/Controllers/TasksController.cs:76-86 | an unknown identifier gives NotFound and changes nothing; otherwise the found task is cut out of the list with the others in their order and the counter unchanged; under the invariant no task with that identifier remains, exactly the other tasks remain, and the invariant is kept |
| TaskStore.HandleStep | backend/TaskManager.Api/Controllers/TasksController.cs:14-86 | every request keeps the invariant, never lowers the counter, and brings in no identifier below the old counter that was not already stored |
| TaskStore.Serve | backend/TaskManager.Api/Controllers/TasksController.cs:9-10 | serving any sequence of requests from a valid store leaves a valid store with a counter no lower than before |
| TaskStore.IdsNeverReissued | backend/TaskManager.Api/Controllers/TasksController.cs:42 | after any sequence of requests, a task whose identifier is below the starting counter carries an identifier that was already stored at the start |
| TaskStore.DeletedIdStaysGone | backend/TaskManager.Api/Controllers/TasksController.cs:78-85 | once a task is deleted, no later sequence of requests brings its identifier back |
| TaskStore.CreateThenGet | backend/TaskManager.Api/Controllers/TasksController.cs:33-49 | from any valid store, creating a task with a non-blank description and then getting the identifier it was given returns exactly that task, not completed and with the trimmed description |
| TaskStore.CreateDeleteCreateScenario | backend/TaskManager.Api/Controllers/TasksController.cs:40-47 | from the empty store, create a, create b, delete 1, create c gives c identifier 3 and leaves the list b, c |
| TaskStore.CompleteThenDeleteScenario | backend/TaskManager.Api/Controllers/TasksController.cs:53-85 | from the empty store, a created task is not completed, an update carrying only the flag changes only the flag, and after delete a get fails with NotFound |
| TaskStore.BuyMilkTrimmed | backend/TaskManager.Api/Controllers/TasksController.cs:35-43 | " buy milk " is accepted and stored as "buy milk" |
| TaskClient.Filter | frontend/src/App.tsx:88-90 | `Array.prototype.filter`, as used for the views, the counters and the client's delete, never lengthens the list; which tasks it keeps is stated by `TaskClient.FilterMembers` and their order by `TaskClient.FilterAppend` |
| TaskClient.FilterMembers | frontend/src/App.tsx:88-90 | a filtered list holds exactly the tasks of the list that pass the test |
| TaskClient.FilterAppend | frontend/src/App.tsx:88-90 | filtering a concatenation filters each part and keeps them in order, so filtering preserves relative order |
| TaskClient.ActiveDonePartition | frontend/src/App.tsx:97-98 | the active and the completed tasks partition the list, both in number and as multisets |
| TaskClient.GetFilteredTasks | frontend/src/App.tsx:85-94 | `all` returns the list unchanged; `active` gives exactly the tasks not completed and `completed` exactly the completed ones |
| TaskClient.FilteredTasksKeepOrder | frontend/src/App.tsx:85-94 | every view of a concatenation is the view of each part, one after the other, so views keep list order |
| TaskClient.ActiveCount | frontend/src/App.tsx:97 | the active counter is at most the number of tasks and is zero exactly when every task is completed |
| TaskClient.CompletedCount | frontend/src/App.tsx:98 | the completed counter is at most the number of tasks and is zero exactly when no task is completed |
| TaskClient.CountsMatchViews | frontend/src/App.tsx:96-98 | active plus completed is the number of tasks; that each counter is the length of the view it labels holds by definition, as both use the same filter |
| TaskClient.AddRequest | frontend/src/App.tsx:40-46 | no request is made exactly when the input is blank; otherwise the trimmed input, non-blank, is posted |
| TaskClient.AddTask | frontend/src/App.tsx:39-53 | a blank input or a failed request leaves the list unchanged; otherwise the returned task is appended and all earlier entries are unchanged |
| TaskClient.ReplaceById | frontend/src/App.tsx:61 | the result has the same length; every entry carrying the identifier becomes the new task and every other entry is unchanged |
| TaskClient.ToggleTask | frontend/src/App.tsx:55-66 | a failed request leaves the list unchanged; otherwise only entries carrying the toggled task's identifier are replaced by the service's reply, and the length is kept |
| TaskClient.RemoveById | frontend/src/App.tsx:72 | exactly the entries not carrying the identifier remain, none carrying it is left, and a list without it is returned unchanged |
| TaskClient.RemoveByIdAppend | frontend/src/App.tsx:72 | removing an identifier from a concatenation removes it from each part and keeps them in order |
| TaskClient.RemoveByIdSingle | frontend/src/App.tsx:72 | when exactly one entry carries the identifier, removal cuts out just that entry |
| TaskClient.DeleteTask | frontend/src/App.tsx:68-77 | a failed request leaves the list unchanged; otherwise exactly the entries not carrying the identifier remain |
| Mirror.ToggleBody | frontend/src/App.tsx:58-60 | the update a toggle sends, applied to any task, flips its completion flag and leaves its identifier and description alone |
| Mirror.PerformStep | frontend/src/App.tsx:39-77 | one add, toggle or delete, served by the service and patched into the client's list, keeps a valid store valid and never lowers the counter; an add with blank input changes neither side |
| Mirror.AddKeepsMirror | frontend/src/App.tsx:39-53 | if the client's list equals the service's list, it still does after an add, whether no request is sent, the service rejects it, or it succeeds |
| Mirror.ToggleKeepsMirror | frontend/src/App.tsx:55-66 | if the client's list equals a valid service list, it still does after a toggle, because the service patches the one task with that identifier and the client replaces the same entry |
| Mirror.DeleteKeepsMirror | frontend/src/App.tsx:68-77 | if the client's list equals a valid service list, it still does after a delete, because the service's first match and the client's filter remove the same single entry |
| Mirror.SessionKeepsMirror | frontend/src/App.tsx:25-30 | starting from the list fetched on load, any sequence of adds, toggles and deletes keeps the client's list equal to the service's list and the service store valid |
| Mirror.BlankClassesDiffer | frontend/src/App.tsx:40 | the client posts U+0085 and the service rejects it, while the client drops U+FEFF that the service would accept |
| Mirror.SendAdd | frontend/src/App.tsx:44-46 | the client receives a task exactly when it sent a description the service finds non-blank, and the store then has that task appended with the counter one higher; otherwise the store is unchanged |
| Mirror.OverlappingAddsLoseTask | frontend/src/App.tsx:47 | when two adds are sent before either reply arrives and both are accepted, the service's list is its old tasks followed by both new tasks (the old counter and the next as identifiers, trimmed descriptions, not completed), while the client's list is the old tasks followed by the second new task only |
| Mirror.OverlappingAddsFunctionalKeepMirror | frontend/src/App.tsx:47 | if each reply is instead appended to the list as it stands when the reply arrives, and the replies arrive in the order the service handled the requests, two overlapping adds keep the client's list equal to the service's list, whatever the service answers |

## Left out

- HTTP routing, attributes, model binding and JSON serialisation are not modelled. A request is a Dafny value and a response is an `Outcome` kind with its payload.
- The `CreatedAtAction` Location header is not modelled. The 201 of create and the 204 of delete are both the `Ok` outcome, because the status codes are framework plumbing.
- Error message strings, on both sides, are not modelled because they are cosmetic.
- The service's list and counter are process-wide statics with no locking. Requests are modelled as sequential transitions only, so races between concurrent requests are out of scope.
- TaskStore.CreateTask: the counter is a `nat`. The 32-bit wrap-around of `_nextId++` after 2^31 - 1 creates is not modelled, so identifiers are assumed never to overflow.
- TaskItem is a mutable object in the source and the list holds references. The model uses immutable values. `UpdateTask` replaces the element in place, which is what mutating the shared object does to the list.
- Whitespace follows the documented .NET and ECMAScript character lists, with Unicode's current separator category (Zs). Changes to that category in other Unicode versions are not followed.
- React hooks, `useEffect`, the loading and error flags, clearing the input box, the Enter-key handler and all rendering are UI state and not modelled. `fetchTasks` is modelled only as the list the session starts from.
- Mirror.SessionKeepsMirror: each action runs to completion, reply and patch included, before the next one starts. Only the initial fetch disables the input (App.tsx:18, 27, 35), so the input, the Add button, the checkboxes and Delete stay live while a request is in flight. Every handler patches the list it captured when it started (App.tsx:47, 61, 72), so two actions that overlap from a single tab can make the local list wrong; `Mirror.OverlappingAddsLoseTask` shows this for two adds (see Findings). Overlapping deletes are worse: deleting both tasks of `[t1, t2]` back to back leaves the service empty while the client's list ends as `[t1]`, so a deleted task reappears. The session also starts from a successful initial fetch. If the fetch fails, App.tsx:31-35 leaves the list at `[]` and re-enables the input, so later adds append to `[]` while the service still holds its earlier tasks. Lost responses and other tabs or clients editing the same store are out of scope too, and the source does not handle them either.
- Dafny strings are sequences of Unicode scalar values, while .NET and ECMAScript strings are sequences of UTF-16 code units. Surrogate pairs are not modelled. This does not affect blank tests or trimming, because no whitespace character of either class is a surrogate.

## Findings

| source | as written | input that shows it | evidently intended | confidence | as-written member | corrected member |
|---|---|---|---|---|---|---|
| frontend/src/App.tsx:47 | `addTask` sets the list to `[...tasks, response.data]`, where `tasks` is the list captured when the handler started, and the input stays enabled while the request is in flight | two non-blank adds sent before either reply arrives, for example pressing Enter twice quickly; the service stores both tasks and the client shows only the second until the page is reloaded | append each reply to the list current when it arrives (`setTasks(prev => [...prev, response.data])`), so the client's list keeps matching the service's, provided the replies arrive in the order the service handled the requests; swapped replies leave both tasks in the client but in the other order | medium, not executed | Mirror.OverlappingAdds, Mirror.OverlappingAddsLoseTask | Mirror.OverlappingAddsFunctional, Mirror.OverlappingAddsFunctionalKeepMirror |
