/** The four request handlers of the tracker, acting in place on the one list
    of tasks that the service keeps in memory. Each handler is specified by the
    value-level effect defined in module Tasks, so every lemma proved there
    applies to the store. */
module TaskTracker {
  import opened Tasks

  /** Which handler acknowledged the request. */
  datatype Ack = TaskCreated | TaskUpdated | TaskDeleted

  /** The response body: a success message, or the "no task with this id" error. */
  datatype Response = Message(ack: Ack) | NotFound

  /** The service's task list; every handler reads and changes it in place. */
  class TaskStore {
    var tasks: seq<Task>

    /** The service starts with an empty list. */
    constructor ()
      ensures tasks == []
    {
      tasks := [];
    }

    /** GET /tasks: the whole list as it stands; nothing changes. */
    method GetTasks() returns (r: seq<Task>)
      ensures r == tasks
    {
      r := tasks;
    }

    /** POST /tasks: append a task whose id is the current length plus one,
        with the given title and the given status or "New"; always succeeds. */
    method CreateTask(title: string, status: Option<string>) returns (resp: Response)
      modifies this
      ensures tasks == AfterCreate(old(tasks), title, status)
      ensures resp == Message(TaskCreated)
    {
      var newId := |tasks| + 1;
      tasks := tasks + [Task(newId, title, StatusOrDefault(status))];
      resp := Message(TaskCreated);
    }

    /** PUT /tasks/{taskId}: overwrite the task at position taskId - 1 with
        (taskId, title, status) when that position exists; otherwise report
        the not-found error and change nothing. */
    method UpdateTask(taskId: int, title: string, status: string) returns (resp: Response)
      modifies this
      ensures tasks == AfterUpdate(old(tasks), taskId, title, status)
      ensures InRange(old(tasks), taskId) ==> resp == Message(TaskUpdated)
      ensures !InRange(old(tasks), taskId) ==> resp == NotFound && tasks == old(tasks)
    {
      if 0 < taskId <= |tasks| {
        tasks := tasks[taskId - 1 := Task(taskId, title, status)];
        resp := Message(TaskUpdated);
        return;
      }
      resp := NotFound;
    }

    /** DELETE /tasks/{taskId}: remove the task at position taskId - 1 when
        that position exists; otherwise report the not-found error and change
        nothing. */
    method DeleteTask(taskId: int) returns (resp: Response)
      modifies this
      ensures tasks == AfterDelete(old(tasks), taskId)
      ensures InRange(old(tasks), taskId) ==> resp == Message(TaskDeleted)
      ensures !InRange(old(tasks), taskId) ==> resp == NotFound && tasks == old(tasks)
    {
      if 0 < taskId <= |tasks| {
        tasks := tasks[..taskId - 1] + tasks[taskId..];
        resp := Message(TaskDeleted);
        return;
      }
      resp := NotFound;
    }
  }

  /** Create, update and delete one task on a fresh service: the response of
      each handler and the list seen by GET after each step. */
  method BuyMilkScenario()
    returns (onCreate: Response, created: seq<Task>,
             onUpdate: Response, updated: seq<Task>,
             onDelete: Response, deleted: seq<Task>)
    ensures onCreate == Message(TaskCreated) && created == [Task(1, "Buy milk", "New")]
    ensures onUpdate == Message(TaskUpdated) && updated == [Task(1, "Buy milk and eggs", "Done")]
    ensures onDelete == Message(TaskDeleted) && deleted == []
  {
    var store := new TaskStore();
    onCreate := store.CreateTask("Buy milk", None);
    created := store.GetTasks();
    onUpdate := store.UpdateTask(1, "Buy milk and eggs", "Done");
    updated := store.GetTasks();
    onDelete := store.DeleteTask(1);
    deleted := store.GetTasks();
  }

  /** Requests naming an id that is not a position are refused without effect.
      With one task, ids 2 and 0 are refused. After the first of three tasks
      is deleted, id 3 is refused too, although a task carrying id 3 is still
      stored: the check looks at positions, not at stored ids. */
  method NotFoundScenario()
    returns (listed: seq<Task>, onUpdate: Response, onDelete: Response,
             shifted: seq<Task>, onDeleteStored: Response)
    ensures listed == [Task(1, "Buy milk", "New")]
    ensures onUpdate == NotFound && onDelete == NotFound
    ensures HasId(shifted, 3) && onDeleteStored == NotFound
    ensures shifted == [Task(2, "b", "New"), Task(3, "c", "New")]
  {
    var store := new TaskStore();
    var resp := store.CreateTask("Buy milk", None);
    onUpdate := store.UpdateTask(2, "Buy bread", "Done");
    onDelete := store.DeleteTask(0);
    listed := store.GetTasks();

    var other := new TaskStore();
    resp := other.CreateTask("a", None);
    resp := other.CreateTask("b", None);
    resp := other.CreateTask("c", None);
    resp := other.DeleteTask(1);
    onDeleteStored := other.DeleteTask(3);
    shifted := other.GetTasks();
    assert shifted[1].id == 3;
  }

  /** Create three tasks, delete the first, create again: the new task gets
      id 3, which the last surviving task already has. */
  method DuplicateIdScenario() returns (listed: seq<Task>)
    ensures |listed| == 3
    ensures listed[1].id == 3 && listed[2].id == 3
    ensures !UniqueIds(listed)
  {
    var store := new TaskStore();
    var resp := store.CreateTask("a", None);
    resp := store.CreateTask("b", None);
    resp := store.CreateTask("c", None);
    resp := store.DeleteTask(1);
    resp := store.CreateTask("d", None);
    listed := store.GetTasks();
  }

  /** Update addresses positions, not stored ids: after deleting the first of
      three tasks, updating id 2 overwrites the task that carried id 3, and the
      list ends up with two tasks carrying id 2. */
  method UpdateByPositionScenario() returns (listed: seq<Task>)
    ensures listed == [Task(2, "b", "New"), Task(2, "x", "Done")]
    ensures !UniqueIds(listed)
  {
    var store := new TaskStore();
    var resp := store.CreateTask("a", None);
    resp := store.CreateTask("b", None);
    resp := store.CreateTask("c", None);
    resp := store.DeleteTask(1);
    resp := store.UpdateTask(2, "x", "Done");
    listed := store.GetTasks();
    assert listed[0].id == listed[1].id;
  }
}
