/**
 * Persistence of the user list. The users file and its backup are modelled as values: a
 * file is absent (None), holds a list of user records, or holds text that does not decode
 * as one. Whether an open, read or write succeeds is a parameter of each operation.
 */
module DataManagement {
  import opened Common
  import Identity
  import Tasks
  import Projects
  import Users

  /** What a file holds: a decodable list of user records, or anything else. */
  datatype FileContents = Records(users: seq<Users.UserRecord>) | Unreadable

  /**
   * How a write went: it finished; the file could not be opened (nothing was written);
   * or it failed after the file was opened for writing, which truncated it.
   */
  datatype IoOutcome = Completed | OpenFailed | Interrupted

  /** The projects of a list of users. */
  ghost function ProjectsOf(us: seq<Users.User>): set<Projects.Project>
    reads us
  {
    set u, p | u in us && p in u.projects :: p
  }

  /** The tasks of the projects of a list of users. */
  ghost function TasksOfUsers(us: seq<Users.User>): set<Tasks.Task>
    reads us, ProjectsOf(us)
  {
    set u, p, t | u in us && p in u.projects && t in p.tasks :: t
  }

  /** The projects of a list with one more user are those of the list and those of the user. */
  lemma ProjectsOfAppend(us: seq<Users.User>, u: Users.User)
    ensures ProjectsOf(us + [u]) == ProjectsOf(us) + ProjectsOf([u])
  {
    forall p | p in ProjectsOf(us + [u]) ensures p in ProjectsOf(us) + ProjectsOf([u]) {
      var v :| v in us + [u] && p in v.projects;
      if v != u {
        assert v in us;
      }
    }
  }

  /** The tasks of a list with one more user are those of the list and those of the user. */
  lemma TasksOfUsersAppend(us: seq<Users.User>, u: Users.User)
    ensures TasksOfUsers(us + [u]) == TasksOfUsers(us) + TasksOfUsers([u])
  {
    forall t | t in TasksOfUsers(us + [u]) ensures t in TasksOfUsers(us) + TasksOfUsers([u]) {
      var v, p :| v in us + [u] && p in v.projects && t in p.tasks;
      if v != u {
        assert v in us;
      }
    }
  }

  /** A user whose projects and their tasks were all created since the previous state brings only new ones. */
  twostate lemma NewObjectsOf(new u: Users.User)
    requires forall p | p in u.projects :: fresh(p)
    requires forall p, t | p in u.projects && t in p.tasks :: fresh(t)
    ensures fresh(ProjectsOf([u])) && fresh(TasksOfUsers([u]))
  {
    forall p | p in ProjectsOf([u]) ensures fresh(p) {
      var v :| v in [u] && p in v.projects;
    }
    forall t | t in TasksOfUsers([u]) ensures fresh(t) {
      var v, p :| v in [u] && p in v.projects && t in p.tasks;
    }
  }

  /** The projects of a list of users, user after user, in order. */
  ghost function ProjectsIn(us: seq<Users.User>): seq<Projects.Project>
    reads us
  {
    if us == [] then [] else ProjectsIn(us[..|us| - 1]) + us[|us| - 1].projects
  }

  /** Framing: the projects of a list of users only change when one of the users does. */
  twostate lemma {:induction false} ProjectsInFramed(us: seq<Users.User>)
    requires forall u | u in us :: unchanged(u)
    ensures ProjectsIn(us) == old(ProjectsIn(us))
    decreases |us|
  {
    if us != [] {
      var front := us[..|us| - 1];
      forall u | u in front ensures unchanged(u) {
        assert u in us;
      }
      ProjectsInFramed(front);
      assert us[|us| - 1] in us;
    }
  }

  /** Every project in the projects of a list of users belongs to one of the users. */
  lemma {:induction false} ProjectsInMember(us: seq<Users.User>, p: Projects.Project)
    requires p in ProjectsIn(us)
    ensures exists u :: u in us && p in u.projects
    decreases |us|
  {
    var front := us[..|us| - 1];
    if p !in us[|us| - 1].projects {
      ProjectsInMember(front, p);
      var u :| u in front && p in u.projects;
      assert u in us;
    }
  }

  /** The projects of user `j` sit between those of the users before it and after it. */
  lemma {:induction false} ProjectsInAt(us: seq<Users.User>, j: nat)
    requires j < |us|
    ensures ProjectsIn(us) == ProjectsIn(us[..j]) + us[j].projects + ProjectsIn(us[j + 1..])
    decreases |us|
  {
    var last := |us| - 1;
    var front := us[..last];
    assert ProjectsIn(us) == ProjectsIn(front) + us[last].projects;
    if j < last {
      ProjectsInAt(front, j);
      assert front[..j] == us[..j] && front[j] == us[j];
      var after := us[j + 1..];
      assert after[..|after| - 1] == front[j + 1..] && after[|after| - 1] == us[last];
      assert ProjectsIn(after) == ProjectsIn(front[j + 1..]) + us[last].projects;
    } else {
      assert us[j + 1..] == [];
    }
  }

  /**
   * The users, their projects and the projects' tasks form a tree: no user is listed
   * twice, no project is reachable twice, and no task is reachable twice.
   */
  ghost predicate Owned(us: seq<Users.User>)
    reads us, ProjectsIn(us)
  {
    && Distinct(us)
    && Distinct(ProjectsIn(us))
    && Distinct(Projects.TasksIn(ProjectsIn(us)))
  }

  /**
   * What `Owned` says object by object: each user holds each of its projects once, no two
   * users share a project, each project holds each of its tasks once, and no two projects
   * share a task.
   */
  lemma OwnedTree(us: seq<Users.User>)
    requires Owned(us)
    ensures forall j | 0 <= j < |us| :: Distinct(us[j].projects)
    ensures forall j, k, p | 0 <= j < k < |us| && p in us[j].projects :: p !in us[k].projects
    ensures forall p | p in ProjectsIn(us) :: Distinct(p.tasks)
    ensures forall p, q, t | p in ProjectsIn(us) && q in ProjectsIn(us) && p != q && t in p.tasks :: t !in q.tasks
  {
    forall j | 0 <= j < |us| ensures Distinct(us[j].projects) {
      ProjectsInAt(us, j);
      DistinctParts(ProjectsIn(us[..j]) + us[j].projects, ProjectsIn(us[j + 1..]));
      DistinctParts(ProjectsIn(us[..j]), us[j].projects);
    }
    forall j, k, p | 0 <= j < k < |us| && p in us[j].projects ensures p !in us[k].projects {
      ProjectsInAt(us, k);
      ProjectsInAt(us[..k], j);
      assert us[..k][j] == us[j];
      assert p in ProjectsIn(us[..k]);
      DistinctParts(ProjectsIn(us[..k]) + us[k].projects, ProjectsIn(us[k + 1..]));
      DistinctParts(ProjectsIn(us[..k]), us[k].projects);
    }
    var ps := ProjectsIn(us);
    Projects.OwnedTasks(ps);
    forall p | p in ps ensures Distinct(p.tasks) {
      var j :| 0 <= j < |ps| && ps[j] == p;
    }
    forall p, q, t | p in ps && q in ps && p != q && t in p.tasks ensures t !in q.tasks {
      var j :| 0 <= j < |ps| && ps[j] == p;
      var k :| 0 <= k < |ps| && ps[k] == q;
    }
  }

  /**
   * Appending a new user, with new projects holding new tasks, each held once, to users
   * that were there before and did not change keeps the whole a tree.
   */
  twostate lemma OwnedAppend(us: seq<Users.User>, new u: Users.User)
    requires old(Owned(us))
    requires forall v | v in us :: unchanged(v)
    requires forall v, p | v in us && p in v.projects :: unchanged(p)
    requires fresh(u) && fresh(ProjectsOf([u])) && fresh(TasksOfUsers([u]))
    requires Distinct(u.projects) && Distinct(Projects.TasksIn(u.projects))
    ensures Owned(us + [u])
  {
    DistinctConcat(us, [u]);
    assert (us + [u])[..|us|] == us;
    ProjectsInFramed(us);
    var ps := ProjectsIn(us);
    assert forall p | p in u.projects :: p in ProjectsOf([u]);
    forall t | t in Projects.TasksIn(u.projects) ensures fresh(t) {
      Projects.TasksInMember(u.projects, t);
      var p :| p in u.projects && t in p.tasks;
      assert t in TasksOfUsers([u]);
    }
    forall p | p in ps ensures old(allocated(p)) && unchanged(p) && p !in u.projects {
      ProjectsInMember(us, p);
      var v :| v in us && p in v.projects;
      assert old(p in v.projects);
    }
    DistinctConcat(ps, u.projects);
    Projects.TasksInFramed(ps);
    Projects.TasksInConcat(ps, u.projects);
    forall t | t in Projects.TasksIn(ps) ensures t !in Projects.TasksIn(u.projects) {
      Projects.TasksInMember(ps, t);
      var p :| p in ps && t in p.tasks;
      assert old(t in p.tasks);
    }
    DistinctConcat(Projects.TasksIn(ps), Projects.TasksIn(u.projects));
  }

  /** `[user.to_dict() for user in users]` */
  function UserDicts(us: seq<Users.User>): (r: seq<Users.UserRecord>)
    reads us, ProjectsOf(us), TasksOfUsers(us)
    ensures |r| == |us|
    ensures forall i {:trigger r[i]} :: 0 <= i < |us| ==> r[i] == us[i].ToDict()
  {
    if us == [] then []
    else
      var last := us[|us| - 1];
      assert forall p | p in last.projects :: p in ProjectsOf(us);
      assert Users.TasksOf(last.projects) <= TasksOfUsers(us);
      assert ProjectsOf(us[..|us| - 1]) <= ProjectsOf(us);
      assert TasksOfUsers(us[..|us| - 1]) <= TasksOfUsers(us);
      UserDicts(us[..|us| - 1]) + [last.ToDict()]
  }

  lemma UserDictsAppend(us: seq<Users.User>, u: Users.User)
    ensures UserDicts(us + [u]) == UserDicts(us) + [u.ToDict()]
  {
    assert (us + [u])[..|us|] == us;
  }

  /** Framing: the records of a list of users only change when a user, project or task does. */
  twostate lemma UserDictsFramed(us: seq<Users.User>)
    requires forall u | u in us :: unchanged(u)
    requires forall u, p | u in us && p in u.projects :: unchanged(p)
    requires forall u, p, t | u in us && p in u.projects && t in p.tasks :: unchanged(t)
    ensures UserDicts(us) == old(UserDicts(us))
    ensures ProjectsOf(us) == old(ProjectsOf(us)) && TasksOfUsers(us) == old(TasksOfUsers(us))
  {
    forall i | 0 <= i < |us| ensures us[i].ToDict() == old(us[i].ToDict()) {
      assert us[i] in us;
      Users.UserDictFramed(us[i]);
    }
    assert ProjectsOf(us) == old(ProjectsOf(us));
    forall t | t in TasksOfUsers(us) ensures t in old(TasksOfUsers(us)) {
      var u, p :| u in us && p in u.projects && t in p.tasks;
      assert old(u in us && p in u.projects && t in p.tasks);
    }
    forall t | t in old(TasksOfUsers(us)) ensures t in TasksOfUsers(us) {
      var u, p :| u in us && p in old(u.projects) && t in old(p.tasks);
      assert unchanged(u);
      assert p in u.projects;
      assert unchanged(p);
      assert t in p.tasks;
    }
  }

  /** Each user record with its defaults filled in. */
  function UsersWithDefaults(rs: seq<Users.UserRecord>): (r: seq<Users.UserRecord>)
    ensures |r| == |rs|
    ensures forall i {:trigger r[i]} :: 0 <= i < |rs| ==> r[i] == Users.WithDefaults(rs[i])
  {
    if rs == [] then [] else UsersWithDefaults(rs[..|rs| - 1]) + [Users.WithDefaults(rs[|rs| - 1])]
  }

  lemma UsersWithDefaultsStep(rs: seq<Users.UserRecord>, i: nat)
    requires i < |rs|
    ensures UsersWithDefaults(rs[..i + 1]) == UsersWithDefaults(rs[..i]) + [Users.WithDefaults(rs[i])]
  {
    assert rs[..i + 1][..i] == rs[..i];
  }

  /** Every record of the list can be loaded. */
  predicate AllLoadable(rs: seq<Users.UserRecord>) {
    forall i {:trigger Users.Loadable(rs[i])} :: 0 <= i < |rs| ==> Users.Loadable(rs[i])
  }

  /**
   * What `save_users` writes can be loaded, and loading fills in no default: the records
   * `load_users` rebuilds from a saved file are the saved records themselves.
   */
  lemma SavedRecordsLoad(us: seq<Users.User>)
    ensures AllLoadable(UserDicts(us))
    ensures UsersWithDefaults(UserDicts(us)) == UserDicts(us)
  {
    var rs := UserDicts(us);
    forall i | 0 <= i < |rs| ensures Users.Loadable(rs[i]) && Users.WithDefaults(rs[i]) == rs[i] {
      Users.ToDictComplete(us[i]);
    }
  }

  /** Users whose records are those of `rs` (defaults filled in) can only come from loadable records. */
  lemma LoadedAll(us: seq<Users.User>, rs: seq<Users.UserRecord>)
    requires UserDicts(us) == UsersWithDefaults(rs)
    ensures AllLoadable(rs)
  {
    forall i | 0 <= i < |rs| ensures Users.Loadable(rs[i]) {
      assert UserDicts(us)[i] == UsersWithDefaults(rs)[i];
      Users.ToDictComplete(us[i]);
      Users.LoadableWithDefaults(rs[i]);
    }
  }

  /** What each counter held, and where it stood, when a load began. */
  datatype CountersAt = CountersAt(userIds: set<int>, projectIds: set<int>, taskIds: set<int>,
                                   userNext: int, projectNext: int, taskNext: int)

  ghost function Snapshot(alloc: Identity.IdAllocator): CountersAt
    reads alloc.users, alloc.projects, alloc.tasks
  {
    CountersAt(alloc.users.issued, alloc.projects.issued, alloc.tasks.issued,
               alloc.users.next, alloc.projects.next, alloc.tasks.next)
  }

  /**
   * What the counters hold once the first `n` records of `rs` have been loaded since
   * `start`: each has adopted exactly the ids of its kind in them on top of what it held,
   * and stands at the larger of where it stood and the largest of those ids plus one.
   */
  ghost function After(start: CountersAt, rs: seq<Users.UserRecord>, n: nat): CountersAt
    requires n <= |rs|
  {
    var users := GatherFirst(rs, n, Users.IdOf);
    var projects := GatherFirst(rs, n, Users.ProjectIdsIn);
    var tasks := GatherFirst(rs, n, Users.TaskIdsIn);
    CountersAt(start.userIds + users, start.projectIds + projects, start.taskIds + tasks,
               Identity.Raised(start.userNext, users), Identity.Raised(start.projectNext, projects),
               Identity.Raised(start.taskNext, tasks))
  }

  /** The first `n` records of `rs` have been loaded since `start`. */
  ghost predicate AdoptedFirst(alloc: Identity.IdAllocator, rs: seq<Users.UserRecord>, n: nat, start: CountersAt)
    requires n <= |rs|
    reads alloc.users, alloc.projects, alloc.tasks
  {
    Snapshot(alloc) == After(start, rs, n)
  }

  /**
   * One pass of the loop of `load_users`: `User.from_dict` on record `i`. When it
   * succeeds, the users loaded so far, with the new one appended, have the first `i + 1`
   * records (defaults filled in) as their records, and each counter has taken in the ids
   * of record `i` on top of what it held.
   */
  method LoadNext(users: seq<Users.User>, rs: seq<Users.UserRecord>, i: nat, alloc: Identity.IdAllocator,
                  ghost start: CountersAt)
    returns (u: Option<Users.User>)
    requires i < |rs| && alloc.Valid()
    requires UserDicts(users) == UsersWithDefaults(rs[..i])
    requires AdoptedFirst(alloc, rs, i, start)
    requires Owned(users)
    modifies alloc.users, alloc.projects, alloc.tasks
    ensures alloc.Valid() && alloc.users.Advanced() && alloc.projects.Advanced() && alloc.tasks.Advanced()
    ensures u.Some? <==> Users.Loadable(rs[i])
    ensures u.Some? ==> fresh(u.value) && fresh(ProjectsOf([u.value])) && fresh(TasksOfUsers([u.value]))
    ensures u.Some? ==> ProjectsOf(users + [u.value]) == old(ProjectsOf(users)) + ProjectsOf([u.value])
    ensures u.Some? ==> TasksOfUsers(users + [u.value]) == old(TasksOfUsers(users)) + TasksOfUsers([u.value])
    ensures u.Some? ==> UserDicts(users + [u.value]) == UsersWithDefaults(rs[..i + 1])
    ensures u.Some? ==> AdoptedFirst(alloc, rs, i + 1, start)
    ensures u.Some? ==> Owned(users + [u.value])
  {
    u := Users.User.FromDict(rs[i], alloc);
    if u.Some? {
      assert Users.IdOf(rs[i]) == {rs[i].userId.value};
      NewObjectsOf(u.value);
      OwnedAppend(users, u.value);
      UserDictsFramed(users);
      UserDictsAppend(users, u.value);
      ProjectsOfAppend(users, u.value);
      TasksOfUsersAppend(users, u.value);
      UsersWithDefaultsStep(rs, i);
      GatherStep(start.userIds, rs, i, Users.IdOf, old(alloc.users.issued), alloc.users.issued);
      GatherStep(start.projectIds, rs, i, Users.ProjectIdsIn, old(alloc.projects.issued), alloc.projects.issued);
      GatherStep(start.taskIds, rs, i, Users.TaskIdsIn, old(alloc.tasks.issued), alloc.tasks.issued);
      Identity.AdoptMovesOnlyBy(old(alloc.users.next), rs[i].userId.value);
      alloc.users.Covers(GatherFirst(rs, i, Users.IdOf) + Users.IdOf(rs[i]));
      alloc.projects.Covers(GatherFirst(rs, i, Users.ProjectIdsIn) + Users.ProjectIdsIn(rs[i]));
      alloc.tasks.Covers(GatherFirst(rs, i, Users.TaskIdsIn) + Users.TaskIdsIn(rs[i]));
      Identity.RaisedStep(start.userNext, GatherFirst(rs, i, Users.IdOf), Users.IdOf(rs[i]),
                          old(alloc.users.next), alloc.users.next);
      Identity.RaisedStep(start.projectNext, GatherFirst(rs, i, Users.ProjectIdsIn), Users.ProjectIdsIn(rs[i]),
                          old(alloc.projects.next), alloc.projects.next);
      Identity.RaisedStep(start.taskNext, GatherFirst(rs, i, Users.TaskIdsIn), Users.TaskIdsIn(rs[i]),
                          old(alloc.tasks.next), alloc.tasks.next);
    }
  }

  /**
   * The loop of `load_users` over the decoded records: every record goes through
   * `User.from_dict` in order, and the first one that is not loadable ends it with
   * nothing. When all load, the users' records are the records with defaults filled in,
   * the users, their projects and their tasks are new objects, and each counter has taken
   * in every id of its kind and moved only by taking them in.
   */
  method LoadAll(rs: seq<Users.UserRecord>, alloc: Identity.IdAllocator) returns (r: Option<seq<Users.User>>)
    requires alloc.Valid()
    modifies alloc.users, alloc.projects, alloc.tasks
    ensures alloc.Valid() && alloc.users.Advanced() && alloc.projects.Advanced() && alloc.tasks.Advanced()
    ensures r.Some? <==> AllLoadable(rs)
    ensures r.Some? ==> UserDicts(r.value) == UsersWithDefaults(rs)
    ensures r.Some? ==> fresh(set v | v in r.value) && fresh(ProjectsOf(r.value)) && fresh(TasksOfUsers(r.value))
    ensures r.Some? ==> AdoptedFirst(alloc, rs, |rs|, old(Snapshot(alloc)))
    ensures r.Some? ==> Owned(r.value)
  {
    ghost var start := Snapshot(alloc);
    var users: seq<Users.User> := [];
    var i := 0;
    while i < |rs|
      invariant 0 <= i <= |rs|
      invariant alloc.Valid()
      invariant alloc.users.Advanced() && alloc.projects.Advanced() && alloc.tasks.Advanced()
      invariant AdoptedFirst(alloc, rs, i, start)
      invariant fresh(set v | v in users) && fresh(ProjectsOf(users)) && fresh(TasksOfUsers(users))
      invariant UserDicts(users) == UsersWithDefaults(rs[..i])
      invariant Owned(users)
    {
      var u := LoadNext(users, rs, i, alloc, start);
      if u.None? {
        return None;
      }
      users := users + [u.value];
      i := i + 1;
    }
    assert rs[..i] == rs;
    LoadedAll(users, rs);
    r := Some(users);
  }

  /** The users' emails, in order. */
  function Emails(us: seq<Users.User>): (r: seq<string>)
    reads us
    ensures |r| == |us|
    ensures forall i {:trigger r[i]} :: 0 <= i < |us| ==> r[i] == us[i].email
  {
    if us == [] then [] else Emails(us[..|us| - 1]) + [us[|us| - 1].email]
  }

  /** The test `user.email == email` of `find_user_by_email`, on the email alone. */
  function EmailIs(email: string): string -> bool {
    (e: string) => e == email
  }

  /** The test `user.user_id == id` of `find_user_by_id`. */
  function HasUserId(id: int): Users.User -> bool {
    (u: Users.User) => u.userId == id
  }

  class DataManager {
    /** The users file, `data/users.json`. */
    var usersFile: Option<FileContents>
    /** Its backup, `data/users.json.backup`. */
    var backupFile: Option<FileContents>

    /** `DataManager(data_dir)`, over the files as they stand. */
    constructor (usersFile: Option<FileContents>, backupFile: Option<FileContents>)
      ensures this.usersFile == usersFile && this.backupFile == backupFile
    {
      this.usersFile := usersFile;
      this.backupFile := backupFile;
    }

    /** The stored records, when the users file exists and decodes. */
    function Stored(): Option<seq<Users.UserRecord>>
      reads this
    {
      if usersFile.Some? && usersFile.value.Records? then Some(usersFile.value.users) else None
    }

    /**
     * `save_users(users)`: replaces the whole file with the users' records and reports
     * True; or reports False, never raising, with the file left alone when it could not be
     * opened and left unreadable when writing failed part-way.
     */
    method SaveUsers(users: seq<Users.User>, io: IoOutcome) returns (ok: bool)
      modifies this`usersFile
      ensures ok <==> io == Completed
      ensures io == Completed ==> usersFile == Some(Records(UserDicts(users)))
      ensures io == OpenFailed ==> usersFile == old(usersFile)
      ensures io == Interrupted ==> usersFile == Some(Unreadable)
    {
      match io {
        case Completed =>
          var data := UserDicts(users);
          usersFile := Some(Records(data));
          UserDictsFramed(users);
          ok := true;
        case OpenFailed =>
          ok := false;
        case Interrupted =>
          usersFile := Some(Unreadable);
          ok := false;
      }
    }

    /**
     * `load_users()`: the empty list, with no counter touched, when the file is absent,
     * cannot be read or does not decode. Otherwise every record goes through
     * `User.from_dict` in order; one that is not loadable makes the whole result empty
     * (never a partial list), though the records before it have advanced the counters.
     * On success the users' records are the stored ones with defaults filled in, and
     * every counter has adopted, and so stands above, every id of its kind in the file.
     */
    method LoadUsers(alloc: Identity.IdAllocator, readOk: bool) returns (users: seq<Users.User>)
      requires alloc.Valid()
      modifies alloc.users, alloc.projects, alloc.tasks
      ensures alloc.Valid() && alloc.users.Advanced() && alloc.projects.Advanced() && alloc.tasks.Advanced()
      ensures !readOk || Stored().None? ==> users == [] && unchanged(alloc.users, alloc.projects, alloc.tasks)
      ensures readOk && Stored().Some? && !AllLoadable(Stored().value) ==> users == []
      ensures readOk && Stored().Some? && AllLoadable(Stored().value) ==>
        var rs := Stored().value;
        && UserDicts(users) == UsersWithDefaults(rs)
        && (forall u | u in users :: fresh(u))
        && fresh(ProjectsOf(users)) && fresh(TasksOfUsers(users))
        && Owned(users)
        && alloc.users.issued == old(alloc.users.issued) + Gather(rs, Users.IdOf)
        && alloc.projects.issued == old(alloc.projects.issued) + Gather(rs, Users.ProjectIdsIn)
        && alloc.tasks.issued == old(alloc.tasks.issued) + Gather(rs, Users.TaskIdsIn)
        && (forall id | id in Gather(rs, Users.IdOf) :: id < alloc.users.next)
        && (forall id | id in Gather(rs, Users.ProjectIdsIn) :: id < alloc.projects.next)
        && (forall id | id in Gather(rs, Users.TaskIdsIn) :: id < alloc.tasks.next)
        && alloc.users.next == Identity.Raised(old(alloc.users.next), Gather(rs, Users.IdOf))
        && alloc.projects.next == Identity.Raised(old(alloc.projects.next), Gather(rs, Users.ProjectIdsIn))
        && alloc.tasks.next == Identity.Raised(old(alloc.tasks.next), Gather(rs, Users.TaskIdsIn))
    {
      if !readOk || Stored().None? {
        return [];
      }
      var rs := Stored().value;
      var loaded := LoadAll(rs, alloc);
      if loaded.None? {
        return [];
      }
      users := loaded.value;
      alloc.users.Covers(Gather(rs, Users.IdOf));
      alloc.projects.Covers(Gather(rs, Users.ProjectIdsIn));
      alloc.tasks.Covers(Gather(rs, Users.TaskIdsIn));
    }

    /**
     * `find_user_by_email(users, email)`: the first user whose email is exactly `email`
     * (case-sensitive), or None when there is none.
     */
    method FindUserByEmail(users: seq<Users.User>, email: string) returns (r: Option<Users.User>)
      ensures r.None? <==> forall u | u in users :: u.email != email
      ensures r.Some? ==> r.value.email == email
      ensures var k := FirstIndex(Emails(users), EmailIs(email));
        r == if k < |users| then Some(users[k]) else None
    {
      var i := 0;
      while i < |users|
        invariant 0 <= i <= |users|
        invariant forall j :: 0 <= j < i ==> users[j].email != email
      {
        if users[i].email == email {
          assert EmailIs(email)(Emails(users)[i]);
          return Some(users[i]);
        }
        i := i + 1;
      }
      return None;
    }

    /** `find_user_by_id(users, user_id)`: the first user with that id, or None when there is none. */
    method FindUserById(users: seq<Users.User>, userId: int) returns (r: Option<Users.User>)
      ensures r.None? <==> forall u | u in users :: u.userId != userId
      ensures var k := FirstIndex(users, HasUserId(userId));
        r == if k < |users| then Some(users[k]) else None
    {
      var i := 0;
      while i < |users|
        invariant 0 <= i <= |users|
        invariant forall j :: 0 <= j < i ==> users[j].userId != userId
      {
        if users[i].userId == userId {
          return Some(users[i]);
        }
        i := i + 1;
      }
      return None;
    }

    /**
     * `backup_data()`: False, with nothing changed, when there is no users file. Otherwise
     * the backup becomes a copy of the users file and the result is True; or the result is
     * False with the backup left alone when a file could not be opened, and truncated when
     * the copy failed part-way.
     */
    method BackupData(io: IoOutcome) returns (ok: bool)
      modifies this`backupFile
      ensures usersFile.None? ==> !ok && backupFile == old(backupFile)
      ensures usersFile.Some? ==> (ok <==> io == Completed)
      ensures usersFile.Some? ==> backupFile == match io
        case Completed => usersFile
        case OpenFailed => old(backupFile)
        case Interrupted => Some(Unreadable)
    {
      if usersFile.None? {
        return false;
      }
      match io {
        case Completed =>
          backupFile := usersFile;
          ok := true;
        case OpenFailed =>
          ok := false;
        case Interrupted =>
          backupFile := Some(Unreadable);
          ok := false;
      }
    }

    /**
     * Saving and then loading, with no failure in between, gives back users whose records
     * are those of the saved users, in the same order.
     */
    method SaveThenLoad(users: seq<Users.User>, alloc: Identity.IdAllocator) returns (loaded: seq<Users.User>)
      requires alloc.Valid()
      modifies this`usersFile, alloc.users, alloc.projects, alloc.tasks
      ensures UserDicts(loaded) == old(UserDicts(users))
    {
      ghost var saved := old(UserDicts(users));
      var ok := SaveUsers(users, Completed);
      assert Stored() == Some(saved) && AllLoadable(saved) && UsersWithDefaults(saved) == saved by {
        UserDictsFramed(users);
        SavedRecordsLoad(users);
      }
      loaded := LoadUsers(alloc, true);
    }

    /**
     * `load_users()` followed by `User(name, email)`, as at start-up followed by a new
     * account. Ids resume above the store: the new id is above every user id in the file,
     * and it is the counter's old value or one more than a stored id, so it is the largest
     * stored id plus one whenever that is not below the counter. It collides with no id
     * seen before.
     */
    method LoadThenCreate(alloc: Identity.IdAllocator, readOk: bool, name: string, email: string)
      returns (users: seq<Users.User>, u: Users.User)
      requires alloc.Valid()
      modifies alloc.users, alloc.projects, alloc.tasks
      ensures alloc.Valid()
      ensures u.name == name && u.email == email && u.projects == []
      ensures u.userId !in old(alloc.users.issued) && old(alloc.users.next) <= u.userId
      ensures !readOk || Stored().None? ==> users == [] && u.userId == old(alloc.users.next)
      ensures readOk && Stored().Some? && AllLoadable(Stored().value) ==>
        var ids := Gather(Stored().value, Users.IdOf);
        && UserDicts(users) == UsersWithDefaults(Stored().value)
        && u.userId !in ids
        && (forall id | id in ids :: id < u.userId)
        && Identity.MovedOnlyBy(old(alloc.users.next), u.userId, ids)
        && u.userId == Identity.Raised(old(alloc.users.next), ids)
        && (forall m | m in ids && old(alloc.users.next) <= m + 1 && (forall k | k in ids :: k <= m) :: u.userId == m + 1)
    {
      users := LoadUsers(alloc, readOk);
      label Loaded:
      u := new Users.User(alloc, name, email);
      assert UserDicts(users) == old@Loaded(UserDicts(users)) by {
        UserDictsFramed@Loaded(users);
      }
    }
  }

  /**
   * A fresh process whose store holds user 7, with no projects, loads it and then creates
   * a user: the new user gets id 8.
   */
  method ReloadThenCreateExample() returns (u: Users.User)
    ensures u.userId == 8
  {
    var alloc := new Identity.IdAllocator();
    var stored := Users.UserRecord(Present(7), Present("Ada"), Present("ada@example.com"), Present([]));
    var store := new DataManager(Some(Records([stored])), None);
    assert Users.IdOf(stored) == {7};
    assert GatherFirst([stored], 1, Users.IdOf) == GatherFirst([stored], 0, Users.IdOf) + {7};
    assert Gather([stored], Users.IdOf) == {7};
    var users;
    users, u := store.LoadThenCreate(alloc, true, "Bob", "bob@example.com");
  }
}
