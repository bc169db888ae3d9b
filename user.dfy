/**
 * A User: an id from the shared user counter, a name, an email address and an ordered
 * list of owned projects.
 */
module Users {
  import opened Common
  import opened Text
  import Identity
  import Tasks
  import Projects

  const NameError := "Name cannot be empty"
  const EmailError := "Invalid email format"

  predicate IsLetter(c: char) {
    ('a' <= c <= 'z') || ('A' <= c <= 'Z')
  }

  predicate IsAlnum(c: char) {
    IsLetter(c) || ('0' <= c <= '9')
  }

  /** The class `[a-zA-Z0-9._%+-]` of the local part. */
  predicate IsLocalChar(c: char) {
    IsAlnum(c) || c == '.' || c == '_' || c == '%' || c == '+' || c == '-'
  }

  /** The class `[a-zA-Z0-9.-]` of the domain. */
  predicate IsDomainChar(c: char) {
    IsAlnum(c) || c == '.' || c == '-'
  }

  /**
   * The email pattern `^[a-zA-Z0-9._%+-]+@[a-zA-Z0-9.-]+\.[a-zA-Z]{2,}$` matches `s` with
   * the '@' at `at` and the final '.' at `dot`.
   */
  predicate EmailSplit(s: string, at: int, dot: int) {
    && 1 <= at && at + 2 <= dot && dot + 3 <= |s|
    && (forall i :: 0 <= i < at ==> IsLocalChar(s[i]))
    && s[at] == '@'
    && (forall i :: at < i < dot ==> IsDomainChar(s[i]))
    && s[dot] == '.'
    && (forall i :: dot < i < |s| ==> IsLetter(s[i]))
  }

  /** `re.match(pattern, s)` succeeds: some choice of '@' and final '.' fits the pattern. */
  predicate IsEmail(s: string) {
    exists at, dot | 0 <= at < |s| && 0 <= dot < |s| :: EmailSplit(s, at, dot)
  }

  /**
   * Neither character class admits '@' and the top-level domain admits no '.', so an
   * accepted address has exactly one '@', its top-level domain starts after the last '.',
   * and the split is unique.
   */
  lemma EmailSplitUnique(s: string, at: int, dot: int)
    requires EmailSplit(s, at, dot)
    ensures forall i :: 0 <= i < |s| && s[i] == '@' ==> i == at
    ensures forall i :: dot < i < |s| ==> s[i] != '.'
    ensures forall at', dot' :: EmailSplit(s, at', dot') ==> at' == at && dot' == dot
  {
  }

  /** The '@' of an accepted address is its only one. */
  lemma OnlyAt(s: string, at: int, dot: int, i: int)
    requires EmailSplit(s, at, dot)
    requires 0 <= i < |s| && s[i] == '@'
    ensures i == at
  {
    EmailSplitUnique(s, at, dot);
  }

  /** A typical address is accepted. */
  lemma AcceptedEmail()
    ensures IsEmail("ann@example.com")
  {
    assert EmailSplit("ann@example.com", 3, 11);
  }

  /** Dots and a plus sign in the local part, and a dotted domain, are accepted too. */
  lemma AcceptedTaggedEmail()
    ensures IsEmail("j.doe+work@mail.co.uk")
  {
    assert EmailSplit("j.doe+work@mail.co.uk", 10, 18);
  }

  /**
   * Refused: no '@', an empty local part, two '@', a domain without a '.', a one-letter
   * top-level domain, and an empty name before the final '.'.
   */
  lemma RefusedEmails()
    ensures !IsEmail("ann.example.com")
    ensures !IsEmail("@example.com")
    ensures !IsEmail("ann@x@example.com")
    ensures !IsEmail("ann@localhost")
    ensures !IsEmail("ann@example.c")
    ensures !IsEmail("ann@.com")
  {
    forall at, dot | EmailSplit("ann.example.com", at, dot) ensures false {
      EmailSplitUnique("ann.example.com", at, dot);
    }
    forall at, dot | EmailSplit("ann@x@example.com", at, dot) ensures false {
      OnlyAt("ann@x@example.com", at, dot, 3);
      OnlyAt("ann@x@example.com", at, dot, 5);
    }
    forall at, dot | EmailSplit("ann@localhost", at, dot) ensures false {
      EmailSplitUnique("ann@localhost", at, dot);
    }
    forall at, dot | EmailSplit("ann@example.c", at, dot) ensures false {
      EmailSplitUnique("ann@example.c", at, dot);
    }
    forall at, dot | EmailSplit("ann@.com", at, dot) ensures false {
      EmailSplitUnique("ann@.com", at, dot);
    }
  }

  /** The dictionary `to_dict` writes and `from_dict` reads back; a stored file may lack keys. */
  datatype UserRecord = UserRecord(
    userId: Field<int>,
    name: Field<string>,
    email: Field<string>,
    projects: Field<seq<Projects.ProjectRecord>>)

  /** The keys the constructor call in `from_dict` reads with `data[key]`. */
  predicate HasRequiredKeys(r: UserRecord) {
    r.userId.Present? && r.name.Present? && r.email.Present?
  }

  /** `from_dict` raises no KeyError anywhere in the nested record. */
  predicate Loadable(r: UserRecord) {
    && HasRequiredKeys(r)
    && var ps := r.projects.GetOr([]);
       forall i {:trigger Projects.Loadable(ps[i])} :: 0 <= i < |ps| ==> Projects.Loadable(ps[i])
  }

  /** Each project record with its defaults filled in. */
  function ProjectsWithDefaults(ps: seq<Projects.ProjectRecord>): (r: seq<Projects.ProjectRecord>)
    ensures |r| == |ps|
    ensures forall i {:trigger r[i]} :: 0 <= i < |ps| ==> r[i] == Projects.WithDefaults(ps[i])
  {
    if ps == [] then [] else ProjectsWithDefaults(ps[..|ps| - 1]) + [Projects.WithDefaults(ps[|ps| - 1])]
  }

  /** The record as `from_dict` reads it: `data.get('projects', [])`, and the nested defaults. */
  function WithDefaults(r: UserRecord): UserRecord {
    r.(projects := Present(ProjectsWithDefaults(r.projects.GetOr([]))))
  }

  /** Filling in defaults neither adds nor removes a key that `from_dict` requires. */
  lemma LoadableWithDefaults(r: UserRecord)
    ensures Loadable(WithDefaults(r)) <==> Loadable(r)
  {
    var ps := r.projects.GetOr([]);
    var ws := ProjectsWithDefaults(ps);
    assert WithDefaults(r).projects.GetOr([]) == ws;
    forall i | 0 <= i < |ps| ensures Projects.Loadable(ws[i]) <==> Projects.Loadable(ps[i]) {
      assert ws[i] == Projects.WithDefaults(ps[i]);
      Projects.LoadableWithDefaults(ps[i]);
    }
  }

  /** The user id a record carries, if it has one. */
  function IdOf(r: UserRecord): set<int> {
    if r.userId.Present? then {r.userId.value} else {}
  }

  /** The project ids in a user record. */
  function ProjectIdsIn(r: UserRecord): set<int> {
    Gather(r.projects.GetOr([]), Projects.IdOf)
  }

  /** The task ids anywhere in a user record. */
  function TaskIdsIn(r: UserRecord): set<int> {
    Gather(r.projects.GetOr([]), Projects.TaskIdsIn)
  }

  /** The test `project.project_id == id` of the lookups by id. */
  function HasProjectId(id: int): Projects.Project -> bool {
    (p: Projects.Project) => p.projectId == id
  }

  /** The tasks of a list of projects: what their records are made from besides the projects. */
  ghost function TasksOf(ps: seq<Projects.Project>): set<Tasks.Task>
    reads ps
  {
    set p, t | p in ps && t in p.tasks :: t
  }

  /** `[project.to_dict() for project in projects]` */
  function ProjectDicts(ps: seq<Projects.Project>): (r: seq<Projects.ProjectRecord>)
    reads ps, TasksOf(ps)
    ensures |r| == |ps|
    ensures forall i {:trigger r[i]} :: 0 <= i < |ps| ==> r[i] == ps[i].ToDict()
  {
    if ps == [] then []
    else
      var last := ps[|ps| - 1];
      assert forall t | t in last.tasks :: t in TasksOf(ps);
      assert TasksOf(ps[..|ps| - 1]) <= TasksOf(ps);
      ProjectDicts(ps[..|ps| - 1]) + [last.ToDict()]
  }

  /** Framing: a project's record only changes when the project or one of its tasks does. */
  twostate lemma ProjectDictFramed(p: Projects.Project)
    requires unchanged(p)
    requires forall t | t in p.tasks :: unchanged(t)
    ensures p.ToDict() == old(p.ToDict())
  {
    Projects.TaskDictsFramed(p.tasks);
  }

  /** `to_dict` writes every key at every level, so `from_dict` fills in no default. */
  lemma ToDictComplete(u: User)
    ensures Loadable(u.ToDict()) && WithDefaults(u.ToDict()) == u.ToDict()
  {
    var ps := ProjectDicts(u.projects);
    forall i | 0 <= i < |ps| ensures Projects.Loadable(ps[i]) && Projects.WithDefaults(ps[i]) == ps[i] {
      Projects.ToDictComplete(u.projects[i]);
    }
    assert ProjectsWithDefaults(ps) == ps;
  }

  /**
   * `Project.from_dict` on record `i` of a user's project records, with the ids the
   * counters have adopted tracked over the records before it.
   */
  method LoadProject(records: seq<Projects.ProjectRecord>, i: nat, alloc: Identity.IdAllocator,
                     ghost projectBase: set<int>, ghost taskBase: set<int>) returns (p: Option<Projects.Project>)
    requires i < |records| && alloc.Valid()
    requires alloc.projects.issued == projectBase + GatherFirst(records, i, Projects.IdOf)
    requires alloc.tasks.issued == taskBase + GatherFirst(records, i, Projects.TaskIdsIn)
    modifies alloc.projects, alloc.tasks
    ensures alloc.Valid() && alloc.projects.Advanced() && alloc.tasks.Advanced()
    ensures p.Some? <==> Projects.Loadable(records[i])
    ensures p.Some? ==> fresh(p.value) && forall t | t in p.value.tasks :: fresh(t)
    ensures p.Some? ==> Distinct(p.value.tasks)
    ensures p.Some? ==> p.value.ToDict() == Projects.WithDefaults(records[i])
    ensures p.Some? ==> alloc.projects.issued == projectBase + GatherFirst(records, i + 1, Projects.IdOf)
    ensures p.Some? ==> alloc.tasks.issued == taskBase + GatherFirst(records, i + 1, Projects.TaskIdsIn)
    ensures p.Some? ==> Identity.MovedOnlyBy(old(alloc.projects.next), alloc.projects.next, Projects.IdOf(records[i]))
    ensures p.Some? ==> Identity.MovedOnlyBy(old(alloc.tasks.next), alloc.tasks.next, Projects.TaskIdsIn(records[i]))
  {
    p := Projects.Project.FromDict(records[i], alloc);
    if p.Some? {
      GatherStep(projectBase, records, i, Projects.IdOf, old(alloc.projects.issued), alloc.projects.issued);
      GatherStep(taskBase, records, i, Projects.TaskIdsIn, old(alloc.tasks.issued), alloc.tasks.issued);
      Identity.AdoptMovesOnlyBy(old(alloc.projects.next), records[i].projectId.value);
    }
  }

  /**
   * Appending a new project with distinct new tasks to projects that were there before
   * and did not change keeps every project, and every task, in the list only once.
   */
  twostate lemma OwnedAppend(ps: seq<Projects.Project>, new p: Projects.Project)
    requires Distinct(ps) && old(Distinct(Projects.TasksIn(ps)))
    requires forall q | q in ps :: unchanged(q)
    requires fresh(p) && Distinct(p.tasks) && forall t | t in p.tasks :: fresh(t)
    ensures Distinct(ps + [p]) && Distinct(Projects.TasksIn(ps + [p]))
  {
    DistinctConcat(ps, [p]);
    assert (ps + [p])[..|ps|] == ps;
    Projects.TasksInFramed(ps);
    forall t | t in Projects.TasksIn(ps) ensures t !in p.tasks {
      Projects.TasksInMember(ps, t);
      var q :| q in ps && t in q.tasks;
      assert old(t in q.tasks);
    }
    DistinctConcat(Projects.TasksIn(ps), p.tasks);
  }

  /** A project and its tasks were all created since the previous state. */
  twostate predicate ProjectNew(new p: Projects.Project)
    reads p
  {
    fresh(p) && forall t | t in p.tasks :: fresh(t)
  }

  /** Projects whose records are those of `rs` (defaults filled in) can only come from loadable records. */
  lemma ProjectsLoaded(ps: seq<Projects.Project>, rs: seq<Projects.ProjectRecord>)
    requires ProjectDicts(ps) == ProjectsWithDefaults(rs)
    ensures forall k :: 0 <= k < |rs| ==> Projects.Loadable(rs[k])
  {
    forall k | 0 <= k < |rs| ensures Projects.Loadable(rs[k]) {
      assert ProjectDicts(ps)[k] == ProjectsWithDefaults(rs)[k];
      Projects.ToDictComplete(ps[k]);
      Projects.LoadableWithDefaults(rs[k]);
    }
  }

  class User {
    const userId: int
    var name: string
    var email: string
    var projects: seq<Projects.Project>

    /**
     * `User(name, email, user_id=None)`: takes its id from the user counter, stores name
     * and email unvalidated, and starts with no projects.
     */
    constructor (alloc: Identity.IdAllocator, name: string, email: string, userId: Option<int> := None)
      requires alloc.Valid()
      modifies alloc.users
      ensures alloc.Valid() && alloc.users.Advanced()
      ensures Identity.Issue(this.userId, alloc.users.next) == Identity.Allocate(old(alloc.users.next), userId)
      ensures alloc.users.issued == old(alloc.users.issued) + {this.userId}
      ensures this.name == name && this.email == email && this.projects == []
    {
      var id := alloc.users.Take(userId);
      this.userId := id;
      this.name := name;
      this.email := email;
      this.projects := [];
    }

    /** The `name` setter: refuses a blank value and keeps the old name; otherwise stores it stripped. */
    method SetName(value: string) returns (r: Outcome)
      modifies this`name
      ensures r == if IsBlank(value) then Fail(NameError) else Pass
      ensures name == if r.Pass? then Strip(value) else old(name)
    {
      StripEmptyIffBlank(value);
      var trimmed := Strip(value);
      if trimmed == [] {
        r := Fail(NameError);
      } else {
        name := trimmed;
        r := Pass;
      }
    }

    /** The `email` setter: stores the value, unchanged, exactly when it matches the pattern. */
    method SetEmail(value: string) returns (r: Outcome)
      modifies this`email
      ensures r == if IsEmail(value) then Pass else Fail(EmailError)
      ensures email == if r.Pass? then value else old(email)
    {
      if !IsEmail(value) {
        r := Fail(EmailError);
      } else {
        email := value;
        r := Pass;
      }
    }

    /** `add_project(project)`: appends at the end. */
    method AddProject(project: Projects.Project)
      modifies this`projects
      ensures projects == old(projects) + [project]
    {
      projects := projects + [project];
    }

    /**
     * `remove_project(project_id)`: deletes the first project with that id and reports
     * True, or reports False and leaves the list alone. The others keep their order.
     */
    method RemoveProject(projectId: int) returns (found: bool)
      modifies this`projects
      ensures var k := FirstIndex(old(projects), HasProjectId(projectId));
        && found == (k < |old(projects)|)
        && projects == if found then RemoveAt(old(projects), k) else old(projects)
    {
      var i := 0;
      while i < |projects|
        invariant 0 <= i <= |projects|
        invariant forall j :: 0 <= j < i ==> projects[j].projectId != projectId
      {
        if projects[i].projectId == projectId {
          projects := RemoveAt(projects, i);
          return true;
        }
        i := i + 1;
      }
      return false;
    }

    /** `get_project(project_id)`: the first project with that id, or None when there is none. */
    method GetProject(projectId: int) returns (r: Option<Projects.Project>)
      ensures r.None? <==> forall p :: p in projects ==> p.projectId != projectId
      ensures var k := FirstIndex(projects, HasProjectId(projectId));
        r == if k < |projects| then Some(projects[k]) else None
    {
      var i := 0;
      while i < |projects|
        invariant 0 <= i <= |projects|
        invariant forall j :: 0 <= j < i ==> projects[j].projectId != projectId
      {
        if projects[i].projectId == projectId {
          return Some(projects[i]);
        }
        i := i + 1;
      }
      return None;
    }

    /** `to_dict()` */
    function ToDict(): UserRecord
      reads this, projects, TasksOf(projects)
    {
      UserRecord(Present(userId), Present(name), Present(email), Present(ProjectDicts(projects)))
    }

    /**
     * One turn of the loop in `from_dict`: `user.add_project(Project.from_dict(records[i]))`.
     * Reports False, with nothing added, when the project record is not loadable. Otherwise
     * the new project is appended, it and its tasks are new objects, the user's project
     * records are the first `i + 1` records with defaults filled in, and each counter has
     * taken in the ids of record `i` on top of what it held.
     */
    method AddFromDict(records: seq<Projects.ProjectRecord>, i: nat, alloc: Identity.IdAllocator,
                       ghost projectBase: set<int>, ghost taskBase: set<int>,
                       ghost projectStart: int, ghost taskStart: int)
      returns (ok: bool, ghost added: Option<Projects.Project>)
      requires i < |records| && alloc.Valid()
      requires ProjectDicts(projects) == ProjectsWithDefaults(records[..i])
      requires alloc.projects.issued == projectBase + GatherFirst(records, i, Projects.IdOf)
      requires alloc.tasks.issued == taskBase + GatherFirst(records, i, Projects.TaskIdsIn)
      requires Identity.MovedOnlyBy(projectStart, alloc.projects.next, GatherFirst(records, i, Projects.IdOf))
      requires Identity.MovedOnlyBy(taskStart, alloc.tasks.next, GatherFirst(records, i, Projects.TaskIdsIn))
      requires Distinct(projects) && Distinct(Projects.TasksIn(projects))
      modifies this`projects, alloc.projects, alloc.tasks
      ensures alloc.Valid() && alloc.projects.Advanced() && alloc.tasks.Advanced()
      ensures ok <==> Projects.Loadable(records[i])
      ensures ok <==> added.Some?
      ensures ok ==> projects == old(projects) + [added.value]
      ensures ok ==> fresh(added.value) && forall t | t in added.value.tasks :: fresh(t)
      ensures ok ==> Distinct(projects) && Distinct(Projects.TasksIn(projects))
      ensures ok ==> ProjectDicts(projects) == ProjectsWithDefaults(records[..i + 1])
      ensures ok ==> alloc.projects.issued == projectBase + GatherFirst(records, i + 1, Projects.IdOf)
      ensures ok ==> alloc.tasks.issued == taskBase + GatherFirst(records, i + 1, Projects.TaskIdsIn)
      ensures ok ==> Identity.MovedOnlyBy(projectStart, alloc.projects.next, GatherFirst(records, i + 1, Projects.IdOf))
      ensures ok ==> Identity.MovedOnlyBy(taskStart, alloc.tasks.next, GatherFirst(records, i + 1, Projects.TaskIdsIn))
    {
      label Before:
      var p := LoadProject(records, i, alloc, projectBase, taskBase);
      if p.None? {
        return false, None;
      }
      added := p;
      ghost var earlier := projects;
      ProjectDictsFramed@Before(earlier);
      assert ProjectDicts(earlier) == ProjectsWithDefaults(records[..i]);
      label Loaded:
      AddProject(p.value);
      ProjectDictsFramed@Loaded(earlier);
      assert ProjectDicts(earlier) == ProjectsWithDefaults(records[..i]);
      assert p.value.ToDict() == Projects.WithDefaults(records[i]);
      ProjectDictsAppend(earlier, p.value);
      ProjectsWithDefaultsStep(records, i);
      Identity.MovedOnlyByBoth(projectStart, old(alloc.projects.next), alloc.projects.next,
                               GatherFirst(records, i, Projects.IdOf), Projects.IdOf(records[i]));
      Identity.MovedOnlyByBoth(taskStart, old(alloc.tasks.next), alloc.tasks.next,
                               GatherFirst(records, i, Projects.TaskIdsIn), Projects.TaskIdsIn(records[i]));
      OwnedAppend@Before(earlier, p.value);
      ok := true;
    }

    /**
     * The loop of `from_dict` over the project records of a user that has none yet: each
     * is loaded and added in order, and the first one that raises ends the loop. When all
     * load, the user's projects have those records with their defaults filled in, they
     * and their tasks are new objects, and the counters have adopted every id in them.
     */
    method AddAllFromDict(records: seq<Projects.ProjectRecord>, alloc: Identity.IdAllocator) returns (ok: bool)
      requires alloc.Valid() && projects == []
      modifies this`projects, alloc.projects, alloc.tasks
      ensures alloc.Valid() && alloc.projects.Advanced() && alloc.tasks.Advanced()
      ensures ok <==> forall k :: 0 <= k < |records| ==> Projects.Loadable(records[k])
      ensures ok ==> ProjectDicts(projects) == ProjectsWithDefaults(records)
      ensures ok ==> forall p | p in projects :: fresh(p)
      ensures ok ==> forall p, t | p in projects && t in p.tasks :: fresh(t)
      ensures ok ==> Distinct(projects) && Distinct(Projects.TasksIn(projects))
      ensures ok ==> alloc.projects.issued == old(alloc.projects.issued) + Gather(records, Projects.IdOf)
      ensures ok ==> alloc.tasks.issued == old(alloc.tasks.issued) + Gather(records, Projects.TaskIdsIn)
      ensures ok ==> Identity.MovedOnlyBy(old(alloc.projects.next), alloc.projects.next, Gather(records, Projects.IdOf))
      ensures ok ==> Identity.MovedOnlyBy(old(alloc.tasks.next), alloc.tasks.next, Gather(records, Projects.TaskIdsIn))
    {
      var i := 0;
      while i < |records|
        invariant 0 <= i <= |records|
        invariant alloc.Valid() && alloc.projects.Advanced() && alloc.tasks.Advanced()
        invariant alloc.projects.issued == old(alloc.projects.issued) + GatherFirst(records, i, Projects.IdOf)
        invariant alloc.tasks.issued == old(alloc.tasks.issued) + GatherFirst(records, i, Projects.TaskIdsIn)
        invariant Identity.MovedOnlyBy(old(alloc.projects.next), alloc.projects.next, GatherFirst(records, i, Projects.IdOf))
        invariant Identity.MovedOnlyBy(old(alloc.tasks.next), alloc.tasks.next, GatherFirst(records, i, Projects.TaskIdsIn))
        invariant forall p | p in projects :: ProjectNew(p)
        invariant Distinct(projects) && Distinct(Projects.TasksIn(projects))
        invariant ProjectDicts(projects) == ProjectsWithDefaults(records[..i])
      {
        ghost var earlier := projects;
        ghost var added;
        ok, added := AddFromDict(records, i, alloc, old(alloc.projects.issued), old(alloc.tasks.issued),
                                 old(alloc.projects.next), old(alloc.tasks.next));
        if !ok {
          return;
        }
        forall p | p in projects ensures ProjectNew(p) {
          if p != added.value {
            assert p in earlier;
          }
        }
        i := i + 1;
      }
      forall p | p in projects ensures fresh(p) && forall t | t in p.tasks :: fresh(t) {
        assert ProjectNew(p);
      }
      assert records[..i] == records;
      ProjectsLoaded(projects, records);
      ok := true;
    }

    /**
     * A user whose fields are those of `data` and whose projects have the records of
     * `data`'s projects (defaults filled in) was read from a loadable record, and its
     * `to_dict` gives that record back with its defaults filled in.
     */
    lemma Rebuilt(data: UserRecord)
      requires HasRequiredKeys(data)
      requires userId == data.userId.value && name == data.name.value && email == data.email.value
      requires ProjectDicts(projects) == ProjectsWithDefaults(data.projects.GetOr([]))
      ensures Loadable(data) && ToDict() == WithDefaults(data)
    {
      var records := data.projects.GetOr([]);
      forall k | 0 <= k < |records| ensures Projects.Loadable(records[k]) {
        assert ProjectDicts(projects)[k] == ProjectsWithDefaults(records)[k];
        Projects.ToDictComplete(projects[k]);
        Projects.LoadableWithDefaults(records[k]);
      }
    }

    /**
     * `User.from_dict(data)`: a missing key of its own raises KeyError before anything is
     * built (None, counters untouched). Otherwise the user is built through the
     * explicit-id constructor and each project through `Project.from_dict`, in order; a
     * KeyError further down leaves the counters advanced by what was built before it.
     * On success the new user's `to_dict` is the record with its defaults filled in, and
     * every id in the record has been adopted by its counter.
     */
    static method FromDict(data: UserRecord, alloc: Identity.IdAllocator) returns (r: Option<User>)
      requires alloc.Valid()
      modifies alloc.users, alloc.projects, alloc.tasks
      ensures alloc.Valid() && alloc.users.Advanced() && alloc.projects.Advanced() && alloc.tasks.Advanced()
      ensures r.Some? <==> Loadable(data)
      ensures r.Some? ==> fresh(r.value) && r.value.ToDict() == WithDefaults(data)
      ensures r.Some? ==> forall p | p in r.value.projects :: fresh(p)
      ensures r.Some? ==> forall p, t | p in r.value.projects && t in p.tasks :: fresh(t)
      ensures r.Some? ==> Distinct(r.value.projects) && Distinct(Projects.TasksIn(r.value.projects))
      ensures r.Some? ==> alloc.users.issued == old(alloc.users.issued) + IdOf(data)
      ensures r.Some? ==> alloc.projects.issued == old(alloc.projects.issued) + ProjectIdsIn(data)
      ensures r.Some? ==> alloc.tasks.issued == old(alloc.tasks.issued) + TaskIdsIn(data)
      ensures r.Some? ==> alloc.users.next == Identity.Allocate(old(alloc.users.next), Some(data.userId.value)).next
      ensures r.Some? ==> Identity.MovedOnlyBy(old(alloc.projects.next), alloc.projects.next, ProjectIdsIn(data))
      ensures r.Some? ==> Identity.MovedOnlyBy(old(alloc.tasks.next), alloc.tasks.next, TaskIdsIn(data))
      ensures !HasRequiredKeys(data) ==> unchanged(alloc.users, alloc.projects, alloc.tasks)
    {
      if !HasRequiredKeys(data) {
        return None;
      }
      var user: User := new User(alloc, data.name.value, data.email.value, Some(data.userId.value));
      var ok := user.AddAllFromDict(data.projects.GetOr([]), alloc);
      if !ok {
        return None;
      }
      user.Rebuilt(data);
      r := Some(user);
    }
  }

  lemma ProjectDictsAppend(ps: seq<Projects.Project>, p: Projects.Project)
    ensures ProjectDicts(ps + [p]) == ProjectDicts(ps) + [p.ToDict()]
  {
    assert (ps + [p])[..|ps|] == ps;
  }

  lemma ProjectsWithDefaultsStep(ps: seq<Projects.ProjectRecord>, i: nat)
    requires i < |ps|
    ensures ProjectsWithDefaults(ps[..i + 1]) == ProjectsWithDefaults(ps[..i]) + [Projects.WithDefaults(ps[i])]
  {
    assert ps[..i + 1][..i] == ps[..i];
  }

  /** Framing: a list of project records only changes when a project or one of its tasks does. */
  twostate lemma ProjectDictsFramed(ps: seq<Projects.Project>)
    requires forall p | p in ps :: unchanged(p)
    requires forall p, t | p in ps && t in p.tasks :: unchanged(t)
    ensures ProjectDicts(ps) == old(ProjectDicts(ps))
  {
    forall i | 0 <= i < |ps| ensures ps[i].ToDict() == old(ps[i].ToDict()) {
      assert ps[i] in ps;
      ProjectDictFramed(ps[i]);
    }
  }

  /** Framing: a user's record only changes when the user, a project or a task of theirs does. */
  twostate lemma UserDictFramed(u: User)
    requires unchanged(u)
    requires forall p | p in u.projects :: unchanged(p)
    requires forall p, t | p in u.projects && t in p.tasks :: unchanged(t)
    ensures u.ToDict() == old(u.ToDict())
  {
    ProjectDictsFramed(u.projects);
  }
}
