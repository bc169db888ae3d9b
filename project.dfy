/**
 * A Project: an id from the shared project counter, a title, a free-text description, a
 * due date, the owner's email (fixed at construction) and an ordered list of tasks.
 */
module Projects {
  import opened Common
  import opened Text
  import opened Dates
  import Identity
  import Tasks

  const TitleError := "Project title cannot be empty"
  const DueDateError := "Due date must be in YYYY-MM-DD format"

  /** The dictionary `to_dict` writes and `from_dict` reads back; a stored file may lack keys. */
  datatype ProjectRecord = ProjectRecord(
    projectId: Field<int>,
    title: Field<string>,
    description: Field<string>,
    dueDate: Field<string>,
    ownerEmail: Field<string>,
    tasks: Field<seq<Tasks.TaskRecord>>)

  /** The keys the constructor call in `from_dict` reads with `data[key]`. */
  predicate HasRequiredKeys(r: ProjectRecord) {
    && r.projectId.Present? && r.title.Present? && r.description.Present?
    && r.dueDate.Present? && r.ownerEmail.Present?
  }

  /** `from_dict` raises no KeyError: its own keys are there, and those of every task. */
  predicate Loadable(r: ProjectRecord) {
    && HasRequiredKeys(r)
    && var ts := r.tasks.GetOr([]);
       forall i {:trigger Tasks.Loadable(ts[i])} :: 0 <= i < |ts| ==> Tasks.Loadable(ts[i])
  }

  /** Each task record with its default filled in. */
  function TasksWithDefaults(ts: seq<Tasks.TaskRecord>): (r: seq<Tasks.TaskRecord>)
    ensures |r| == |ts|
    ensures forall i {:trigger r[i]} :: 0 <= i < |ts| ==> r[i] == Tasks.WithDefaults(ts[i])
  {
    if ts == [] then [] else TasksWithDefaults(ts[..|ts| - 1]) + [Tasks.WithDefaults(ts[|ts| - 1])]
  }

  /** The record as `from_dict` reads it: `data.get('tasks', [])`, and each task's own default. */
  function WithDefaults(r: ProjectRecord): ProjectRecord {
    r.(tasks := Present(TasksWithDefaults(r.tasks.GetOr([]))))
  }

  /** Filling in defaults neither adds nor removes a key that `from_dict` requires. */
  lemma LoadableWithDefaults(r: ProjectRecord)
    ensures Loadable(WithDefaults(r)) <==> Loadable(r)
  {
    var ts := r.tasks.GetOr([]);
    var ws := TasksWithDefaults(ts);
    assert WithDefaults(r).tasks.GetOr([]) == ws;
    forall i | 0 <= i < |ts| ensures Tasks.Loadable(ws[i]) <==> Tasks.Loadable(ts[i]) {
      assert ws[i] == Tasks.WithDefaults(ts[i]);
    }
  }

  /** The project id a record carries, if it has one. */
  function IdOf(r: ProjectRecord): set<int> {
    if r.projectId.Present? then {r.projectId.value} else {}
  }

  /** The task ids in a project record. */
  function TaskIdsIn(r: ProjectRecord): set<int> {
    Gather(r.tasks.GetOr([]), Tasks.IdOf)
  }

  /** Tasks whose records are those of `rs` (defaults filled in) can only come from loadable records. */
  lemma TasksLoaded(ts: seq<Tasks.Task>, rs: seq<Tasks.TaskRecord>)
    requires TaskDicts(ts) == TasksWithDefaults(rs)
    ensures forall k :: 0 <= k < |rs| ==> Tasks.Loadable(rs[k])
  {
    forall k | 0 <= k < |rs| ensures Tasks.Loadable(rs[k]) {
      assert TaskDicts(ts)[k] == TasksWithDefaults(rs)[k];
    }
  }

  /** `[task.to_dict() for task in tasks]` */
  function TaskDicts(ts: seq<Tasks.Task>): (r: seq<Tasks.TaskRecord>)
    reads ts
    ensures |r| == |ts|
    ensures forall i {:trigger r[i]} :: 0 <= i < |ts| ==> r[i] == ts[i].ToDict()
  {
    if ts == [] then [] else TaskDicts(ts[..|ts| - 1]) + [ts[|ts| - 1].ToDict()]
  }

  /**
   * `[task for task in tasks if task.status == status]`: exactly the tasks with that
   * status, so never more than all of them.
   */
  function WithStatus(ts: seq<Tasks.Task>, status: string): (r: seq<Tasks.Task>)
    reads ts
    ensures |r| <= |ts|
    ensures forall i :: 0 <= i < |r| ==> r[i] in ts && r[i].status == status
    ensures forall t :: t in ts && t.status == status ==> t in r
  {
    if ts == [] then []
    else
      var last := ts[|ts| - 1];
      WithStatus(ts[..|ts| - 1], status) + (if last.status == status then [last] else [])
  }

  /** The filter keeps order: filtering a concatenation is concatenating the filtered parts. */
  lemma {:induction false} WithStatusConcat(a: seq<Tasks.Task>, b: seq<Tasks.Task>, status: string)
    ensures WithStatus(a + b, status) == WithStatus(a, status) + WithStatus(b, status)
    decreases |b|
  {
    if b == [] {
      assert a + b == a;
    } else {
      var front := b[..|b| - 1];
      assert (a + b)[..|a + b| - 1] == a + front;
      WithStatusConcat(a, front, status);
    }
  }

  lemma TaskDictsAppend(ts: seq<Tasks.Task>, t: Tasks.Task)
    ensures TaskDicts(ts + [t]) == TaskDicts(ts) + [t.ToDict()]
  {
    assert (ts + [t])[..|ts|] == ts;
  }

  lemma TasksWithDefaultsStep(ts: seq<Tasks.TaskRecord>, i: nat)
    requires i < |ts|
    ensures TasksWithDefaults(ts[..i + 1]) == TasksWithDefaults(ts[..i]) + [Tasks.WithDefaults(ts[i])]
  {
    assert ts[..i + 1][..i] == ts[..i];
  }

  /** Framing: a list of task records only changes when one of its tasks does. */
  twostate lemma TaskDictsFramed(ts: seq<Tasks.Task>)
    requires forall t | t in ts :: unchanged(t)
    ensures TaskDicts(ts) == old(TaskDicts(ts))
  {
    forall i | 0 <= i < |ts| ensures ts[i].ToDict() == old(ts[i].ToDict()) {
      assert ts[i] in ts;
    }
  }

  /** `to_dict` writes every key at both levels, so `from_dict` fills in no default. */
  lemma ToDictComplete(p: Project)
    ensures Loadable(p.ToDict()) && WithDefaults(p.ToDict()) == p.ToDict()
  {
    var ts := TaskDicts(p.tasks);
    forall i | 0 <= i < |ts| ensures Tasks.Loadable(ts[i]) && Tasks.WithDefaults(ts[i]) == ts[i] {
      Tasks.ToDictComplete(p.tasks[i]);
    }
    assert TasksWithDefaults(ts) == ts;
  }

  /** The tasks of a list of projects, project after project, in order. */
  ghost function TasksIn(ps: seq<Project>): seq<Tasks.Task>
    reads ps
  {
    if ps == [] then [] else TasksIn(ps[..|ps| - 1]) + ps[|ps| - 1].tasks
  }

  lemma {:induction false} TasksInConcat(a: seq<Project>, b: seq<Project>)
    ensures TasksIn(a + b) == TasksIn(a) + TasksIn(b)
    decreases |b|
  {
    if b == [] {
      assert a + b == a;
    } else {
      var front := b[..|b| - 1];
      assert (a + b)[..|a + b| - 1] == a + front;
      TasksInConcat(a, front);
    }
  }

  /** Framing: the tasks of a list of projects only change when one of the projects does. */
  twostate lemma {:induction false} TasksInFramed(ps: seq<Project>)
    requires forall p | p in ps :: unchanged(p)
    ensures TasksIn(ps) == old(TasksIn(ps))
    decreases |ps|
  {
    if ps != [] {
      var front := ps[..|ps| - 1];
      forall p | p in front ensures unchanged(p) {
        assert p in ps;
      }
      TasksInFramed(front);
      assert ps[|ps| - 1] in ps;
    }
  }

  /** Every task in the tasks of a list of projects belongs to one of the projects. */
  lemma {:induction false} TasksInMember(ps: seq<Project>, t: Tasks.Task)
    requires t in TasksIn(ps)
    ensures exists p :: p in ps && t in p.tasks
    decreases |ps|
  {
    var front := ps[..|ps| - 1];
    if t !in ps[|ps| - 1].tasks {
      TasksInMember(front, t);
      var p :| p in front && t in p.tasks;
      assert p in ps;
    }
  }

  /** The tasks of project `j` sit between those of the projects before it and after it. */
  lemma {:induction false} TasksInAt(ps: seq<Project>, j: nat)
    requires j < |ps|
    ensures TasksIn(ps) == TasksIn(ps[..j]) + ps[j].tasks + TasksIn(ps[j + 1..])
    decreases |ps|
  {
    var last := |ps| - 1;
    var front := ps[..last];
    assert TasksIn(ps) == TasksIn(front) + ps[last].tasks;
    if j < last {
      TasksInAt(front, j);
      assert front[..j] == ps[..j] && front[j] == ps[j];
      var after := ps[j + 1..];
      assert after[..|after| - 1] == front[j + 1..] && after[|after| - 1] == ps[last];
      assert TasksIn(after) == TasksIn(front[j + 1..]) + ps[last].tasks;
    } else {
      assert ps[j + 1..] == [];
    }
  }

  /**
   * When no task occurs twice among the tasks of a list of projects, the projects own
   * their tasks exclusively: no project holds a task twice and no two projects share one.
   */
  lemma OwnedTasks(ps: seq<Project>)
    requires Distinct(TasksIn(ps))
    ensures forall j | 0 <= j < |ps| :: Distinct(ps[j].tasks)
    ensures forall j, k, t | 0 <= j < k < |ps| && t in ps[j].tasks :: t !in ps[k].tasks
  {
    forall j | 0 <= j < |ps| ensures Distinct(ps[j].tasks) {
      TasksInAt(ps, j);
      DistinctParts(TasksIn(ps[..j]) + ps[j].tasks, TasksIn(ps[j + 1..]));
      DistinctParts(TasksIn(ps[..j]), ps[j].tasks);
    }
    forall j, k, t | 0 <= j < k < |ps| && t in ps[j].tasks ensures t !in ps[k].tasks {
      TasksInAt(ps, k);
      TasksInAt(ps[..k], j);
      assert ps[..k][j] == ps[j];
      assert t in TasksIn(ps[..k]);
      DistinctParts(TasksIn(ps[..k]) + ps[k].tasks, TasksIn(ps[k + 1..]));
      DistinctParts(TasksIn(ps[..k]), ps[k].tasks);
    }
  }

  class Project {
    const projectId: int
    var title: string
    var description: string
    var dueDate: string
    const ownerEmail: string
    var tasks: seq<Tasks.Task>

    /**
     * `Project(title, description, due_date, owner_email, project_id=None)`: takes its id
     * from the project counter, stores the fields unvalidated, and starts with no tasks.
     */
    constructor (alloc: Identity.IdAllocator, title: string, description: string, dueDate: string,
                 ownerEmail: string, projectId: Option<int> := None)
      requires alloc.Valid()
      modifies alloc.projects
      ensures alloc.Valid() && alloc.projects.Advanced()
      ensures Identity.Issue(this.projectId, alloc.projects.next) == Identity.Allocate(old(alloc.projects.next), projectId)
      ensures alloc.projects.issued == old(alloc.projects.issued) + {this.projectId}
      ensures this.title == title && this.description == description && this.dueDate == dueDate
      ensures this.ownerEmail == ownerEmail && this.tasks == []
    {
      var id := alloc.projects.Take(projectId);
      this.projectId := id;
      this.title := title;
      this.description := description;
      this.dueDate := dueDate;
      this.ownerEmail := ownerEmail;
      this.tasks := [];
    }

    /** The `title` setter: refuses a blank value and keeps the old title; otherwise stores it stripped. */
    method SetTitle(value: string) returns (r: Outcome)
      modifies this`title
      ensures r == if IsBlank(value) then Fail(TitleError) else Pass
      ensures title == if r.Pass? then Strip(value) else old(title)
    {
      StripEmptyIffBlank(value);
      var trimmed := Strip(value);
      if trimmed == [] {
        r := Fail(TitleError);
      } else {
        title := trimmed;
        r := Pass;
      }
    }

    /** The `description` setter: no validation. */
    method SetDescription(value: string)
      modifies this`description
      ensures description == value
    {
      description := value;
    }

    /** The `due_date` setter: stores the value exactly when it parses as a %Y-%m-%d date. */
    method SetDueDate(value: string) returns (r: Outcome)
      modifies this`dueDate
      ensures r == if ValidDate(value) then Pass else Fail(DueDateError)
      ensures dueDate == if r.Pass? then value else old(dueDate)
    {
      if ValidDate(value) {
        dueDate := value;
        r := Pass;
      } else {
        r := Fail(DueDateError);
      }
    }

    /** `add_task(task)`: appends at the end. */
    method AddTask(task: Tasks.Task)
      modifies this`tasks
      ensures tasks == old(tasks) + [task]
    {
      tasks := tasks + [task];
    }

    /**
     * One pass of the task loop of `from_dict`: `Task.from_dict` on record `i`, then
     * `add_task`. When it succeeds, the tasks have the first `i + 1` records (defaults
     * filled in) as their records, and the task counter has taken in the id of record `i`
     * on top of what it held.
     */
    method AddFromDict(records: seq<Tasks.TaskRecord>, i: nat, alloc: Identity.IdAllocator,
                       ghost taskBase: set<int>, ghost taskStart: int)
      returns (ok: bool, ghost added: Option<Tasks.Task>)
      requires i < |records| && alloc.Valid()
      requires TaskDicts(tasks) == TasksWithDefaults(records[..i])
      requires alloc.tasks.issued == taskBase + GatherFirst(records, i, Tasks.IdOf)
      requires Identity.MovedOnlyBy(taskStart, alloc.tasks.next, GatherFirst(records, i, Tasks.IdOf))
      modifies this`tasks, alloc.tasks
      ensures alloc.Valid() && alloc.tasks.Advanced()
      ensures ok <==> Tasks.Loadable(records[i])
      ensures ok <==> added.Some?
      ensures ok ==> tasks == old(tasks) + [added.value] && fresh(added.value)
      ensures ok ==> TaskDicts(tasks) == TasksWithDefaults(records[..i + 1])
      ensures ok ==> alloc.tasks.issued == taskBase + GatherFirst(records, i + 1, Tasks.IdOf)
      ensures ok ==> Identity.MovedOnlyBy(taskStart, alloc.tasks.next, GatherFirst(records, i + 1, Tasks.IdOf))
    {
      label Before:
      var t := Tasks.Task.FromDict(records[i], alloc);
      if t.None? {
        return false, None;
      }
      added := t;
      ghost var earlier := tasks;
      TaskDictsFramed@Before(earlier);
      assert TaskDicts(earlier) == TasksWithDefaults(records[..i]);
      label Loaded:
      AddTask(t.value);
      TaskDictsFramed@Loaded(earlier);
      assert TaskDicts(earlier) == TasksWithDefaults(records[..i]);
      TaskDictsAppend(earlier, t.value);
      TasksWithDefaultsStep(records, i);
      GatherStep(taskBase, records, i, Tasks.IdOf, old(alloc.tasks.issued), alloc.tasks.issued);
      Identity.AdoptMovesOnlyBy(old(alloc.tasks.next), records[i].taskId.value);
      Identity.MovedOnlyByBoth(taskStart, old(alloc.tasks.next), alloc.tasks.next,
                               GatherFirst(records, i, Tasks.IdOf), Tasks.IdOf(records[i]));
      ok := true;
    }

    /**
     * The task loop of `from_dict` over the task records of a project that has none yet:
     * each is loaded and added in order, and the first one that raises ends the loop. When
     * all load, the tasks have those records with their defaults filled in, they are new
     * objects, and the task counter has adopted every id in them.
     */
    method AddAllFromDict(records: seq<Tasks.TaskRecord>, alloc: Identity.IdAllocator) returns (ok: bool)
      requires alloc.Valid() && tasks == []
      modifies this`tasks, alloc.tasks
      ensures alloc.Valid() && alloc.tasks.Advanced()
      ensures ok <==> forall k :: 0 <= k < |records| ==> Tasks.Loadable(records[k])
      ensures ok ==> TaskDicts(tasks) == TasksWithDefaults(records)
      ensures ok ==> forall t | t in tasks :: fresh(t)
      ensures ok ==> Distinct(tasks)
      ensures ok ==> alloc.tasks.issued == old(alloc.tasks.issued) + Gather(records, Tasks.IdOf)
      ensures ok ==> Identity.MovedOnlyBy(old(alloc.tasks.next), alloc.tasks.next, Gather(records, Tasks.IdOf))
    {
      var i := 0;
      while i < |records|
        invariant 0 <= i <= |records|
        invariant alloc.Valid() && alloc.tasks.Advanced()
        invariant alloc.tasks.issued == old(alloc.tasks.issued) + GatherFirst(records, i, Tasks.IdOf)
        invariant Identity.MovedOnlyBy(old(alloc.tasks.next), alloc.tasks.next, GatherFirst(records, i, Tasks.IdOf))
        invariant forall t | t in tasks :: fresh(t)
        invariant Distinct(tasks)
        invariant TaskDicts(tasks) == TasksWithDefaults(records[..i])
      {
        ghost var earlier := tasks;
        ghost var added;
        ok, added := AddFromDict(records, i, alloc, old(alloc.tasks.issued), old(alloc.tasks.next));
        if !ok {
          return;
        }
        forall t | t in tasks ensures fresh(t) {
          if t != added.value {
            assert t in earlier;
          }
        }
        DistinctConcat(earlier, [added.value]);
        i := i + 1;
      }
      assert records[..i] == records;
      TasksLoaded(tasks, records);
      ok := true;
    }

    /**
     * `remove_task(task_id)`: deletes the first task with that id and reports True, or
     * reports False and leaves the list alone. The other tasks keep their order.
     */
    method RemoveTask(taskId: int) returns (found: bool)
      modifies this`tasks
      ensures var k := FirstIndex(old(tasks), Tasks.HasId(taskId));
        && found == (k < |old(tasks)|)
        && tasks == if found then RemoveAt(old(tasks), k) else old(tasks)
    {
      var i := 0;
      while i < |tasks|
        invariant 0 <= i <= |tasks|
        invariant forall j :: 0 <= j < i ==> tasks[j].taskId != taskId
      {
        if tasks[i].taskId == taskId {
          tasks := RemoveAt(tasks, i);
          return true;
        }
        i := i + 1;
      }
      return false;
    }

    /** `get_task(task_id)`: the first task with that id, or None when there is none. */
    method GetTask(taskId: int) returns (r: Option<Tasks.Task>)
      ensures r.None? <==> forall t :: t in tasks ==> t.taskId != taskId
      ensures var k := FirstIndex(tasks, Tasks.HasId(taskId));
        r == if k < |tasks| then Some(tasks[k]) else None
    {
      var i := 0;
      while i < |tasks|
        invariant 0 <= i <= |tasks|
        invariant forall j :: 0 <= j < i ==> tasks[j].taskId != taskId
      {
        if tasks[i].taskId == taskId {
          return Some(tasks[i]);
        }
        i := i + 1;
      }
      return None;
    }

    /** `get_tasks_by_status(status)` */
    function GetTasksByStatus(status: string): seq<Tasks.Task>
      reads this, tasks
    {
      WithStatus(tasks, status)
    }

    /** `to_dict()` */
    function ToDict(): ProjectRecord
      reads this, tasks
    {
      ProjectRecord(Present(projectId), Present(title), Present(description),
                    Present(dueDate), Present(ownerEmail), Present(TaskDicts(tasks)))
    }

    /**
     * A project whose fields are those of `data` and whose tasks have the records of
     * `data`'s tasks (defaults filled in) was read from a loadable record, and its
     * `to_dict` gives that record back with its defaults filled in.
     */
    lemma Rebuilt(data: ProjectRecord)
      requires HasRequiredKeys(data)
      requires projectId == data.projectId.value && title == data.title.value
      requires description == data.description.value && dueDate == data.dueDate.value
      requires ownerEmail == data.ownerEmail.value
      requires TaskDicts(tasks) == TasksWithDefaults(data.tasks.GetOr([]))
      ensures Loadable(data) && ToDict() == WithDefaults(data)
    {
      var records := data.tasks.GetOr([]);
      forall k | 0 <= k < |records| ensures Tasks.Loadable(records[k]) {
        assert TaskDicts(tasks)[k] == TasksWithDefaults(records)[k];
      }
    }

    /**
     * `Project.from_dict(data)`: a missing key of its own raises KeyError before anything is
     * built (None, counters untouched). Otherwise the project is built through the
     * explicit-id constructor and the tasks are added in order; a task with a missing key
     * raises KeyError after the project and the earlier tasks have advanced the counters.
     * On success the new project's `to_dict` is the record with its defaults filled in.
     */
    static method FromDict(data: ProjectRecord, alloc: Identity.IdAllocator) returns (r: Option<Project>)
      requires alloc.Valid()
      modifies alloc.projects, alloc.tasks
      ensures alloc.Valid() && alloc.projects.Advanced() && alloc.tasks.Advanced()
      ensures r.Some? <==> Loadable(data)
      ensures r.Some? ==> fresh(r.value) && r.value.ToDict() == WithDefaults(data)
      ensures r.Some? ==> forall t | t in r.value.tasks :: fresh(t)
      ensures r.Some? ==> Distinct(r.value.tasks)
      ensures r.Some? ==> alloc.projects.issued == old(alloc.projects.issued) + {data.projectId.value}
      ensures r.Some? ==> alloc.tasks.issued == old(alloc.tasks.issued) + TaskIdsIn(data)
      ensures r.Some? ==> alloc.projects.next == Identity.Allocate(old(alloc.projects.next), Some(data.projectId.value)).next
      ensures r.Some? ==> Identity.MovedOnlyBy(old(alloc.tasks.next), alloc.tasks.next, TaskIdsIn(data))
      ensures !HasRequiredKeys(data) ==> unchanged(alloc.projects) && unchanged(alloc.tasks)
    {
      if !HasRequiredKeys(data) {
        return None;
      }
      var project: Project := new Project(alloc, data.title.value, data.description.value, data.dueDate.value,
                                 data.ownerEmail.value, Some(data.projectId.value));
      var ok := project.AddAllFromDict(data.tasks.GetOr([]), alloc);
      if !ok {
        return None;
      }
      project.Rebuilt(data);
      r := Some(project);
    }
  }
}
