/** The task table of the tracker as values: a task record, the effect of each
    mutating request on the ordered list of tasks, and what those effects do to
    the ids stored in the list.

    Ids are handed out as "length of the list plus one", and update and delete
    address a task by its position (id - 1), never by the id field it stores.
    The lemmas below make precise when the two views agree and how a delete
    that is not of the last task separates them. */
module Tasks {

  datatype Option<T> = None | Some(value: T)

  /** One row of the table: the tuple (id, title, status). */
  datatype Task = Task(id: int, title: string, status: string)

  /** The status a created task gets when the request carries none. */
  const DefaultStatus: string := "New"

  /** One mutating request, as the three write handlers receive it. */
  datatype Request =
    | Create(title: string, status: Option<string>)
    | Update(taskId: int, newTitle: string, newStatus: string)
    | Delete(taskId: int)

  /** The status a create request stores: the one it carries, or the default. */
  function StatusOrDefault(status: Option<string>): string
  {
    match status
    case Some(s) => s
    case None => DefaultStatus
  }

  /** The id a create request assigns: one more than the current length. */
  function NextId(tasks: seq<Task>): int
  {
    |tasks| + 1
  }

  /** The range check shared by update and delete: the id names a position. */
  predicate InRange(tasks: seq<Task>, taskId: int)
  {
    0 < taskId <= |tasks|
  }

  /** Some stored task carries the given id. */
  predicate HasId(tasks: seq<Task>, id: int)
  {
    exists i :: 0 <= i < |tasks| && tasks[i].id == id
  }

  /** The task at position i carries id i + 1, for every position. */
  predicate PositionalIds(tasks: seq<Task>)
  {
    forall i :: 0 <= i < |tasks| ==> tasks[i].id == i + 1
  }

  /** No two stored tasks carry the same id. */
  predicate UniqueIds(tasks: seq<Task>)
  {
    forall i, j :: 0 <= i < j < |tasks| ==> tasks[i].id != tasks[j].id
  }

  /** The list after a create request: one task appended at the end. */
  function AfterCreate(tasks: seq<Task>, title: string, status: Option<string>): (r: seq<Task>)
    ensures |r| == |tasks| + 1
    ensures r[..|tasks|] == tasks
    ensures r[|tasks|].id == |tasks| + 1
    ensures r[|tasks|].title == title
    ensures status.None? ==> r[|tasks|].status == DefaultStatus
    ensures status.Some? ==> r[|tasks|].status == status.value
  {
    tasks + [Task(NextId(tasks), title, StatusOrDefault(status))]
  }

  /** The list after an update request: the task at position taskId - 1 is
      replaced when the id is in range, and nothing changes otherwise. */
  function AfterUpdate(tasks: seq<Task>, taskId: int, title: string, status: string): (r: seq<Task>)
    ensures |r| == |tasks|
    ensures InRange(tasks, taskId) ==> r[taskId - 1] == Task(taskId, title, status)
    ensures forall i :: 0 <= i < |r| && i != taskId - 1 ==> r[i] == tasks[i]
    ensures !InRange(tasks, taskId) ==> r == tasks
  {
    if InRange(tasks, taskId) then tasks[taskId - 1 := Task(taskId, title, status)] else tasks
  }

  /** The list after a delete request: the task at position taskId - 1 is
      removed when the id is in range, and nothing changes otherwise. */
  function AfterDelete(tasks: seq<Task>, taskId: int): (r: seq<Task>)
    ensures InRange(tasks, taskId) ==> |r| == |tasks| - 1
    ensures InRange(tasks, taskId) ==> forall i :: 0 <= i < taskId - 1 ==> r[i] == tasks[i]
    ensures InRange(tasks, taskId) ==> forall i :: taskId - 1 <= i < |r| ==> r[i] == tasks[i + 1]
    ensures InRange(tasks, taskId) ==> multiset(r) + multiset{tasks[taskId - 1]} == multiset(tasks)
    ensures !InRange(tasks, taskId) ==> r == tasks
  {
    if InRange(tasks, taskId) then
      assert tasks == tasks[..taskId - 1] + [tasks[taskId - 1]] + tasks[taskId..];
      tasks[..taskId - 1] + tasks[taskId..]
    else
      tasks
  }

  /** The list after one request. */
  function Apply(tasks: seq<Task>, req: Request): seq<Task>
  {
    match req
    case Create(title, status) => AfterCreate(tasks, title, status)
    case Update(taskId, title, status) => AfterUpdate(tasks, taskId, title, status)
    case Delete(taskId) => AfterDelete(tasks, taskId)
  }

  /** The list after the requests are served one after another. */
  function Run(tasks: seq<Task>, reqs: seq<Request>): seq<Task>
    decreases |reqs|
  {
    if reqs == [] then tasks else Run(Apply(tasks, reqs[0]), reqs[1..])
  }

  /** Every delete in the run that finds its task removes the last one. */
  predicate DeletesOnlyLast(tasks: seq<Task>, reqs: seq<Request>)
    decreases |reqs|
  {
    reqs == [] ||
    ((reqs[0].Delete? && InRange(tasks, reqs[0].taskId) ==> reqs[0].taskId == |tasks|) &&
     DeletesOnlyLast(Apply(tasks, reqs[0]), reqs[1..]))
  }

  /** While ids are positional they are unique, and the next id is not taken. */
  lemma PositionalIdsAreUnique(tasks: seq<Task>)
    requires PositionalIds(tasks)
    ensures UniqueIds(tasks)
    ensures !HasId(tasks, NextId(tasks))
  {
  }

  /** Create keeps ids positional. */
  lemma CreateKeepsPositionalIds(tasks: seq<Task>, title: string, status: Option<string>)
    requires PositionalIds(tasks)
    ensures PositionalIds(AfterCreate(tasks, title, status))
  {
  }

  /** Update keeps ids positional, whether or not the id is in range. */
  lemma UpdateKeepsPositionalIds(tasks: seq<Task>, taskId: int, title: string, status: string)
    requires PositionalIds(tasks)
    ensures PositionalIds(AfterUpdate(tasks, taskId, title, status))
  {
  }

  /** From positional ids, delete keeps them positional exactly when it does
      not remove a task other than the last one. */
  lemma DeleteKeepsPositionalIdsIff(tasks: seq<Task>, taskId: int)
    requires PositionalIds(tasks)
    ensures PositionalIds(AfterDelete(tasks, taskId)) <==> !(InRange(tasks, taskId) && taskId < |tasks|)
  {
    var r := AfterDelete(tasks, taskId);
    if InRange(tasks, taskId) && taskId < |tasks| {
      assert r[taskId - 1].id == taskId + 1;
    }
  }

  /** From positional ids, the create that follows a delete hands out an id
      that is already stored exactly when the delete removed a task other than
      the last one. */
  lemma CreateAfterDeleteReusesIdIff(tasks: seq<Task>, taskId: int)
    requires PositionalIds(tasks)
    requires InRange(tasks, taskId)
    ensures var left := AfterDelete(tasks, taskId);
            HasId(left, NextId(left)) <==> taskId < |tasks|
  {
    var left := AfterDelete(tasks, taskId);
    if taskId < |tasks| {
      assert left[|left| - 1].id == NextId(left);
    } else {
      DeleteKeepsPositionalIdsIff(tasks, taskId);
      PositionalIdsAreUnique(left);
    }
  }

  /** So after such a delete, the next create leaves two tasks with one id. */
  lemma CreateAfterDeleteDuplicatesId(tasks: seq<Task>, taskId: int, title: string, status: Option<string>)
    requires PositionalIds(tasks)
    requires InRange(tasks, taskId) && taskId < |tasks|
    ensures !UniqueIds(AfterCreate(AfterDelete(tasks, taskId), title, status))
  {
    var left := AfterDelete(tasks, taskId);
    var r := AfterCreate(left, title, status);
    assert r[|left| - 1] == r[..|left|][|left| - 1];
    assert r[|left| - 1].id == r[|left|].id;
  }

  /** One request keeps ids positional unless it deletes a task other than the last. */
  lemma ApplyKeepsPositionalIds(tasks: seq<Task>, req: Request)
    requires PositionalIds(tasks)
    requires req.Delete? && InRange(tasks, req.taskId) ==> req.taskId == |tasks|
    ensures PositionalIds(Apply(tasks, req))
  {
    match req
    case Create(title, status) => CreateKeepsPositionalIds(tasks, title, status);
    case Update(taskId, title, status) => UpdateKeepsPositionalIds(tasks, taskId, title, status);
    case Delete(taskId) => DeleteKeepsPositionalIdsIff(tasks, taskId);
  }

  /** Any run of requests whose deletes only ever remove the last task keeps
      ids positional, hence unique, and the next create never reuses an id. */
  lemma {:induction false} RunKeepsPositionalIds(tasks: seq<Task>, reqs: seq<Request>)
    requires PositionalIds(tasks)
    requires DeletesOnlyLast(tasks, reqs)
    ensures PositionalIds(Run(tasks, reqs))
    ensures UniqueIds(Run(tasks, reqs))
    ensures !HasId(Run(tasks, reqs), NextId(Run(tasks, reqs)))
    decreases |reqs|
  {
    if reqs == [] {
      PositionalIdsAreUnique(tasks);
    } else {
      ApplyKeepsPositionalIds(tasks, reqs[0]);
      RunKeepsPositionalIds(Apply(tasks, reqs[0]), reqs[1..]);
    }
  }
}
