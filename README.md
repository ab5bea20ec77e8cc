# Task tracker: the in-memory task table

This project models the simplest revision of a small task-tracking HTTP
service. The service keeps one list of tasks in process memory. Each task is
an `(id, title, status)` tuple. Four handlers serve the routes:

- `GET /tasks` returns the list.
- `POST /tasks` appends a task. Its id is the list's length plus one. Its
  status is the one given, or `"New"` when none is given.
- `PUT /tasks/{task_id}` checks `0 < task_id <= len(list)`. If that holds, it
  overwrites the task at position `task_id - 1` with `(task_id, title,
  status)`. Otherwise it answers with a "not found" error.
- `DELETE /tasks/{task_id}` runs the same check and removes the task at
  position `task_id - 1`.

Two files make up the model:

- `tasks.dfy` (module `Tasks`) describes the list as a value. It defines the
  `Task` record and the effect of each mutating request (`AfterCreate`,
  `AfterUpdate`, `AfterDelete`). Their contracts state the effect element by
  element. The module also runs a sequence of requests (`Run`) and proves what
  happens to the stored ids.
- `task_tracker.dfy` (module `TaskTracker`) holds the handlers. They are
  methods of a class `TaskStore` whose `tasks` field is the list and that they
  change in place. Each method's postcondition ties the new list to the
  matching function of the old list and gives the response for each branch.
  Four scenario methods drive the class through fixed request sequences.

Ids are derived from the list's length: a new task gets id
`len(task_list) + 1` (main.py:15). Update and delete address tasks by
position `task_id - 1`, not by the id field they store (main.py:22-23,
34-35). So "the task at position `i` carries id `i + 1`" (`PositionalIds`)
survives create and update. It is broken by any delete that removes a task
other than the last, and once it is broken ids can collide. The model proves
this both ways. From positional ids, a delete keeps them positional exactly
when it does not remove a task other than the last (an out-of-range delete
removes nothing and keeps them too). After an in-range delete, the next
create reuses a stored id exactly when the delete removed a task other than
the last (`CreateAfterDeleteReusesIdIff`, `CreateAfterDeleteDuplicatesId`).
For example, creating three tasks, deleting id 1 and creating again stores
id 3 twice (`DuplicateIdScenario`).

## Model

| member | source | states |
|---|---|---|
| `Tasks.AfterCreate` | simple_backend/src/task_tracker/main.py:15-16 | create grows the list by exactly one; every earlier task is unchanged and in place; the new last task has id old length + 1, the given title, and the given status or "New" |
| `Tasks.AfterUpdate` | simple_backend/src/task_tracker/main.py:22-27 | length unchanged; for an in-range id the task at position id - 1 becomes (id, title, status); every other position is unchanged; an out-of-range id (<= 0 or > length) leaves the list as it was |
| `Tasks.AfterDelete` | simple_backend/src/task_tracker/main.py:34-35 | for an in-range id the length drops by one, the tasks before position id - 1 stay put, the ones after it shift down one place in order, and exactly the removed task leaves the multiset; an out-of-range id leaves the list as it was |
| `Tasks.PositionalIdsAreUnique` | simple_backend/src/task_tracker/main.py:15 | while every task sits at position id - 1, no two tasks share an id and the id the next create hands out is not stored yet |
| `Tasks.CreateKeepsPositionalIds` | simple_backend/src/task_tracker/main.py:15-16 | create preserves "the task at position i has id i + 1" |
| `Tasks.UpdateKeepsPositionalIds` | simple_backend/src/task_tracker/main.py:22-27 | update, in range or not, preserves "the task at position i has id i + 1" |
| `Tasks.DeleteKeepsPositionalIdsIff` | simple_backend/src/task_tracker/main.py:34-35 | from positional ids, delete leaves ids positional if and only if it does not remove a task other than the last |
| `Tasks.CreateAfterDeleteReusesIdIff` | simple_backend/src/task_tracker/main.py:15-35 | from positional ids and after an in-range delete, the id the next create computes is already stored if and only if the deleted task was not the last |
| `Tasks.CreateAfterDeleteDuplicatesId` | simple_backend/src/task_tracker/main.py:15-35 | after deleting a task other than the last from positional ids, the next create leaves two tasks with the same id |
| `Tasks.ApplyKeepsPositionalIds` | simple_backend/src/task_tracker/main.py:14-37 | any single create, update or delete keeps ids positional, unless it is a delete that finds a task other than the last |
| `Tasks.RunKeepsPositionalIds` | simple_backend/src/task_tracker/main.py:5-37 | requests served one after another on the shared list, whose deletes only remove the last task, keep ids positional and unique, and the next create never reuses an id |
| `TaskTracker.TaskStore.constructor` | simple_backend/src/task_tracker/main.py:5 | the service starts with an empty task list |
| `TaskTracker.TaskStore.GetTasks` | simple_backend/src/task_tracker/main.py:9-10 | returns the current list and changes nothing |
| `TaskTracker.TaskStore.CreateTask` | simple_backend/src/task_tracker/main.py:14-17 | the new list is `AfterCreate` of the old one; the response is always the created message |
| `TaskTracker.TaskStore.UpdateTask` | simple_backend/src/task_tracker/main.py:21-29 | the new list is `AfterUpdate` of the old one; an in-range id answers with the updated message, any other id with the not-found error and no change |
| `TaskTracker.TaskStore.DeleteTask` | simple_backend/src/task_tracker/main.py:33-37 | the new list is `AfterDelete` of the old one; an in-range id answers with the deleted message, any other id with the not-found error and no change |
| `TaskTracker.BuyMilkScenario` | simple_backend/src/task_tracker/main.py:9-37 | on a fresh service, create "Buy milk" answers the created message and lists [(1, "Buy milk", "New")]; updating id 1 answers the updated message and lists [(1, "Buy milk and eggs", "Done")]; deleting id 1 answers the deleted message and lists [] |
| `TaskTracker.NotFoundScenario` | simple_backend/src/task_tracker/main.py:21-37 | with one task, updating id 2 and deleting id 0 both answer not-found and leave the list unchanged; after create x3 and delete of id 1, deleting id 3 answers not-found although a task with id 3 is stored, and the list stays [(2, "b", "New"), (3, "c", "New")] |
| `TaskTracker.DuplicateIdScenario` | simple_backend/src/task_tracker/main.py:14-37 | create three tasks, delete id 1, create again: the last two tasks both carry id 3 |
| `TaskTracker.UpdateByPositionScenario` | simple_backend/src/task_tracker/main.py:21-35 | create three tasks, delete id 1, update id 2: the update overwrites the task that carried id 3, leaving two tasks with id 2 |

## Left out

- The web framework: application set-up, route decorators, body parsing and
  the JSON encoding of tuples. The handlers take their arguments as typed
  parameters and return a `Response` value.
- The `KeyError` raised when the body has no `title`, or no `status` on
  update. Both are parameters of the handlers, so they are always present.
  The status of a create is an `Option`, and `None` stands for a missing
  field.
- Field values that are not strings. The body is an untyped dictionary, so a
  client could send a number or null as title or status. The model keeps
  title and status as strings.
- The message texts. Each response is one of three success acknowledgements
  or the not-found error.
- Concurrent requests. The list is shared by every request the framework
  serves, without locking. The model serves requests one at a time.
- Persistence. The list lives only in process memory (main.py:5) and is
  lost when the process stops; the code has no storage layer to model.
