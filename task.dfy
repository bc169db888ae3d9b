/**
 * A Task: an id, a title, a status (pending, in_progress or completed) and an optional
 * assignee email. The constructor stores what it is given; only the setters validate.
 */
module Tasks {
  import opened Common
  import opened Text
  import Identity

  const TitleError := "Task title cannot be empty"
  const StatusError := "Status must be one of: pending, in_progress, completed"

  /** The three statuses the status setter accepts. */
  predicate IsStatus(s: string) {
    s == "pending" || s == "in_progress" || s == "completed"
  }

  /** The dictionary `to_dict` writes and `from_dict` reads back; a stored file may lack keys. */
  datatype TaskRecord = TaskRecord(
    taskId: Field<int>,
    title: Field<string>,
    status: Field<string>,
    assignedTo: Field<Option<string>>)

  /** Every key `from_dict` reads with `data[key]` is there, so it raises no KeyError. */
  predicate Loadable(r: TaskRecord) {
    r.taskId.Present? && r.title.Present? && r.status.Present?
  }

  /** The record as `from_dict` reads it: `data.get('assigned_to')` makes a missing assignee None. */
  function WithDefaults(r: TaskRecord): TaskRecord {
    r.(assignedTo := Present(r.assignedTo.GetOr(None)))
  }

  /** The id a record carries, if it has one. */
  function IdOf(r: TaskRecord): set<int> {
    if r.taskId.Present? then {r.taskId.value} else {}
  }

  /** The test `task.task_id == id` of the lookups by id. */
  function HasId(id: int): Task -> bool {
    (t: Task) => t.taskId == id
  }

  /** `to_dict` writes every key, so `from_dict` can read it back with no default filled in. */
  lemma ToDictComplete(t: Task)
    ensures Loadable(t.ToDict()) && WithDefaults(t.ToDict()) == t.ToDict()
  {
  }

  class Task {
    const taskId: int
    var title: string
    var status: string
    var assignedTo: Option<string>

    /**
     * `Task(title, status='pending', assigned_to=None, task_id=None)`: takes its id from the
     * task counter and stores the other arguments unvalidated.
     */
    constructor (alloc: Identity.IdAllocator, title: string, status: string := "pending",
                 assignedTo: Option<string> := None, taskId: Option<int> := None)
      requires alloc.Valid()
      modifies alloc.tasks
      ensures alloc.Valid() && alloc.tasks.Advanced()
      ensures Identity.Issue(this.taskId, alloc.tasks.next) == Identity.Allocate(old(alloc.tasks.next), taskId)
      ensures alloc.tasks.issued == old(alloc.tasks.issued) + {this.taskId}
      ensures this.title == title && this.status == status && this.assignedTo == assignedTo
    {
      var id := alloc.tasks.Take(taskId);
      this.taskId := id;
      this.title := title;
      this.status := status;
      this.assignedTo := assignedTo;
    }

    /** The `title` setter: refuses a blank value and keeps the old title; otherwise stores it stripped. */
    method SetTitle(value: string) returns (r: Outcome)
      modifies this`title
      ensures r == if IsBlank(value) then Fail(TitleError) else Pass
      ensures title == if r.Pass? then Strip(value) else old(title)
    {
      StripEmptyIffBlank(value);
      var trimmed := Strip(value);
      if trimmed == [] {
        r := Fail(TitleError);
      } else {
        title := trimmed;
        r := Pass;
      }
    }

    /** The `status` setter: accepts exactly the three statuses; a refused value leaves the old one. */
    method SetStatus(value: string) returns (r: Outcome)
      modifies this`status
      ensures r == if IsStatus(value) then Pass else Fail(StatusError)
      ensures status == if r.Pass? then value else old(status)
    {
      if !IsStatus(value) {
        r := Fail(StatusError);
      } else {
        status := value;
        r := Pass;
      }
    }

    /** The `assigned_to` setter: no validation at all. */
    method SetAssignedTo(value: Option<string>)
      modifies this`assignedTo
      ensures assignedTo == value
    {
      assignedTo := value;
    }

    /** `complete()`: goes through the status setter, which always accepts "completed". */
    method Complete()
      modifies this`status
      ensures status == "completed"
      ensures title == old(title) && assignedTo == old(assignedTo)
    {
      var r := SetStatus("completed");
      assert r == Pass;
    }

    /** `to_dict()` */
    function ToDict(): TaskRecord
      reads this
    {
      TaskRecord(Present(taskId), Present(title), Present(status), Present(assignedTo))
    }

    /**
     * `Task.from_dict(data)`: raises KeyError (None here, with the counter untouched) when a
     * required key is missing; otherwise builds a new task through the explicit-id
     * constructor, whose `to_dict` is the record with its default filled in.
     */
    static method FromDict(data: TaskRecord, alloc: Identity.IdAllocator) returns (r: Option<Task>)
      requires alloc.Valid()
      modifies alloc.tasks
      ensures alloc.Valid() && alloc.tasks.Advanced()
      ensures r.Some? <==> Loadable(data)
      ensures r.Some? ==> fresh(r.value) && r.value.ToDict() == WithDefaults(data)
      ensures r.Some? ==> alloc.tasks.issued == old(alloc.tasks.issued) + {data.taskId.value}
      ensures r.Some? ==> alloc.tasks.next == Identity.Allocate(old(alloc.tasks.next), Some(data.taskId.value)).next
      ensures r.None? ==> unchanged(alloc.tasks)
    {
      if !Loadable(data) {
        return None;
      }
      var t := new Task(alloc, data.title.value, data.status.value, data.assignedTo.GetOr(None), Some(data.taskId.value));
      return Some(t);
    }
  }
}
