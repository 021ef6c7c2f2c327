/**
 * The project/task store: the two collections, the handlers of both controllers as methods,
 * and the read-only queries as functions. A database transaction is one method: either every
 * write it makes is applied, or the store is left exactly as it was.
 */
module Store {
  import opened Wrappers
  import opened Schema
  import opened Selection
  import opened ProjectRules
  import opened TaskRules

  /** A snapshot of the whole store. */
  datatype Db = Db(projects: map<ProjectId, Project>, tasks: map<TaskId, Task>, clock: nat)

  /** A project with its tasks in display order. */
  datatype ProjectView = ProjectView(project: Project, tasks: seq<Task>)

  /** A project created together with its tasks. */
  datatype CreatedProject = CreatedProject(project: Project, tasks: seq<Task>)

  /**
   * Every record is stored under its own id, which is below the counter; every record passes
   * its schema check; and every task belongs to a stored project.
   */
  ghost predicate Consistent(projects: map<ProjectId, Project>, tasks: map<TaskId, Task>, clock: nat) {
    && (forall k :: k in projects ==> k < clock && projects[k].id == k && ValidProject(projects[k]))
    && (forall k :: k in tasks ==> k < clock && tasks[k].id == k && ValidTask(tasks[k]) && tasks[k].projectId in projects)
  }

  /**
   * `after` is `before` with the records `docs` added under the consecutive keys from `first` on,
   * none of which `before` had: every old record is kept and nothing else is added.
   */
  ghost predicate Appended(before: map<TaskId, Task>, after: map<TaskId, Task>, first: nat, docs: seq<Task>) {
    && (forall k :: k in after <==> k in before || first <= k < first + |docs|)
    && (forall k :: k in before ==> after[k] == before[k])
    && (forall j :: 0 <= j < |docs| ==> after[first + j] == docs[j])
    && |after| == |before| + |docs|
  }

  /** Adding valid tasks of stored projects under consecutive fresh ids keeps the store consistent. */
  lemma InsertKeepsConsistent(projects: map<ProjectId, Project>, before: map<TaskId, Task>, after: map<TaskId, Task>,
                              first: nat, docs: seq<Task>)
    requires Consistent(projects, before, first)
    requires forall j :: 0 <= j < |docs| ==> docs[j].id == first + j && ValidTask(docs[j]) && docs[j].projectId in projects
    requires Appended(before, after, first, docs)
    ensures Consistent(projects, after, first + |docs|)
  {
    forall k | k in after
      ensures k < first + |docs| && after[k].id == k && ValidTask(after[k]) && after[k].projectId in projects
    {
      if k !in before {
        assert after[first + (k - first)] == docs[k - first];
      }
    }
  }

  class Store {
    /** The projects collection, keyed by id. */
    var projects: map<ProjectId, Project>
    /** The tasks collection, keyed by id. */
    var tasks: map<TaskId, Task>
    /** The creation counter: the next id, and the current time for timestamps. */
    var clock: nat

    /**
     * Every record is stored under its own id, which is below the counter; every record passes
     * its schema check; and every task belongs to a stored project (no task outlives its project).
     */
    ghost predicate Valid()
      reads this
    {
      Consistent(projects, tasks, clock)
    }

    ghost function State(): Db
      reads this
    {
      Db(projects, tasks, clock)
    }

    /** An empty store. */
    constructor ()
      ensures Valid() && State() == Db(map[], map[], 0)
    {
      projects, tasks, clock := map[], map[], 0;
    }

    // -------------------------------------------------------------------------
    // Ownership guard
    // -------------------------------------------------------------------------

    /**
     * The project a requester may act on: a missing project is NotFound, an existing project
     * of another owner is AccessDenied, so existence is checked before ownership.
     */
    function ProjectAccess(requester: UserId, id: ProjectId): (r: Result<Project>)
      reads this
      ensures id !in projects ==> r == Err(NotFound)
      ensures id in projects && projects[id].owner != requester ==> r == Err(AccessDenied)
      ensures r.Ok? <==> id in projects && projects[id].owner == requester
      ensures r.Ok? ==> r.value == projects[id]
    {
      if id !in projects then Err(NotFound)
      else if projects[id].owner != requester then Err(AccessDenied)
      else Ok(projects[id])
    }

    /** The tasks of project `pid`, in id order. */
    function ProjectTasks(pid: ProjectId): (ts: seq<Task>)
      reads this
      ensures forall t :: t in ts ==> t.projectId == pid && t in tasks.Values
      ensures forall k :: k in tasks && k < clock && tasks[k].projectId == pid ==> tasks[k] in ts
    {
      Select(tasks, (t: Task) => t.projectId == pid, clock)
    }

    /** In a valid store the scan of the ids below the counter finds every task of the project, once. */
    lemma ProjectTasksCount(pid: ProjectId)
      requires Valid()
      ensures |ProjectTasks(pid)| == |TaskIdsOfProject(tasks, pid)|
    {
      var p := (t: Task) => t.projectId == pid;
      assert KeysBelow(tasks, p, clock) == TaskIdsOfProject(tasks, pid);
    }

    // -------------------------------------------------------------------------
    // projectController
    // -------------------------------------------------------------------------

    /**
     * createProject: the requester becomes the owner; visibility defaults to private,
     * description to empty, metadata to an empty object.
     */
    method CreateProject(requester: UserId, title: string, description: Option<string>, visibility: Option<Visibility>)
      returns (r: Result<Project>)
      requires Valid()
      modifies this
      ensures Valid()
      ensures r.Err? <==> title == ""
      ensures r.Err? ==> r.error == ValidationFailed && State() == old(State())
      ensures r.Ok? ==>
        && r.value.id == old(clock) && r.value.id !in old(projects)
        && r.value.owner == requester && r.value.title == title
        && r.value.description == description.GetOr("") && r.value.visibility == visibility.GetOr(Private)
        && r.value.metadata == map[] && r.value.createdAt == old(clock) && r.value.updatedAt == old(clock)
        && projects == old(projects)[r.value.id := r.value] && tasks == old(tasks) && clock == old(clock) + 1
    {
      var p := ProjectWithDefaults(clock, title, requester, clock).(
        description := description.GetOr(DefaultDescription),
        visibility := visibility.GetOr(DefaultVisibility));
      if !ValidProject(p) {
        return Err(ValidationFailed);
      }
      projects := projects[p.id := p];
      clock := clock + 1;
      r := Ok(p);
    }

    /**
     * createProjectFromAI, one transaction: rejects a missing or empty plan with BadRequest;
     * otherwise writes the project, then all its tasks with orders 0..n-1. A schema violation at
     * either write aborts the transaction, undoing the project already written.
     */
    method CreateProjectFromAI(requester: UserId, title: string, description: Option<string>,
                               plan: Option<seq<TaskSpec>>, visibility: Option<Visibility>,
                               estimatedTotalHours: Option<int>)
      returns (r: Result<CreatedProject>)
      requires Valid()
      modifies this
      ensures Valid()
      ensures r.Err? ==> State() == old(State())
      ensures plan.None? || |plan.value| == 0 ==> r == Err(BadRequest)
      ensures r.Ok? <==>
        && plan.Some? && |plan.value| > 0 && title != ""
        && forall i :: 0 <= i < |plan.value| ==> plan.value[i].title != ""
      ensures r.Err? && plan.Some? && |plan.value| > 0 ==> r.error == ValidationFailed
      ensures r.Ok? ==>
        var pid := old(clock);
        && r.value.project.id == pid && pid !in old(projects)
        && r.value.project.owner == requester && r.value.project.title == title
        && r.value.project.description == description.GetOr("")
        && r.value.project.visibility == visibility.GetOr(Private)
        && r.value.project.metadata == GeneratedMetadata(estimatedTotalHours)
        && r.value.project.createdAt == pid && r.value.project.updatedAt == pid
        && projects == old(projects)[pid := r.value.project]
        && r.value.tasks == TaskDocs(plan.value, pid, pid + 1)
        && Appended(old(tasks), tasks, pid + 1, r.value.tasks)
        && |projects| == |old(projects)| + 1
        && clock == old(clock) + 1 + |plan.value|
    {
      if plan.None? || |plan.value| == 0 {
        return Err(BadRequest);
      }
      // startTransaction: what an abort restores
      var savedProjects, savedTasks, savedClock := projects, tasks, clock;

      // Project.create
      var pid := clock;
      var p := ProjectWithDefaults(pid, title, requester, pid).(
        description := description.GetOr(DefaultDescription),
        visibility := visibility.GetOr(DefaultVisibility),
        metadata := GeneratedMetadata(estimatedTotalHours));
      if !ValidProject(p) {
        return Err(ValidationFailed);
      }
      WriteProject(p);

      // Task.insertMany: every document is checked before any is written
      var docs := TaskDocs(plan.value, pid, clock);
      if exists i :: 0 <= i < |docs| && !ValidTask(docs[i]) {
        // abortTransaction
        projects, tasks, clock := savedProjects, savedTasks, savedClock;
        return Err(ValidationFailed);
      }
      InsertProjectTasks(docs);
      // commitTransaction
      r := Ok(CreatedProject(p, docs));
    }

    /** Project.create inside the transaction: a valid project under the next id. */
    method WriteProject(p: Project)
      requires Valid() && p.id == clock && ValidProject(p)
      modifies this
      ensures Valid()
      ensures p.id !in old(projects) && projects == old(projects)[p.id := p] && |projects| == |old(projects)| + 1
      ensures tasks == old(tasks) && clock == old(clock) + 1
    {
      projects := projects[p.id := p];
      clock := clock + 1;
    }

    /** Task.insertMany inside the transaction: the valid tasks of a stored project, under fresh ids. */
    method InsertProjectTasks(docs: seq<Task>)
      requires Valid()
      requires forall j :: 0 <= j < |docs| ==> docs[j].id == clock + j && ValidTask(docs[j]) && docs[j].projectId in projects
      modifies this
      ensures Valid()
      ensures Appended(old(tasks), tasks, old(clock), docs)
      ensures projects == old(projects) && clock == old(clock) + |docs|
    {
      ghost var before := tasks;
      InsertTasks(docs);
      InsertKeepsConsistent(projects, before, tasks, old(clock), docs);
    }

    /**
     * Task.insertMany of records with ids from the counter on, each of a stored project and
     * passing its schema check: each is written under its id, in turn.
     */
    method InsertTasks(docs: seq<Task>)
      requires forall k :: k in tasks ==> k < clock
      requires forall j :: 0 <= j < |docs| ==> docs[j].id == clock + j
      modifies this
      ensures Appended(old(tasks), tasks, old(clock), docs)
      ensures projects == old(projects) && clock == old(clock) + |docs|
    {
      var i := 0;
      while i < |docs|
        invariant 0 <= i <= |docs|
        invariant clock == old(clock) + i && projects == old(projects)
        invariant forall k :: k in tasks <==> k in old(tasks) || old(clock) <= k < clock
        invariant forall k :: k in old(tasks) ==> tasks[k] == old(tasks)[k]
        invariant forall j :: 0 <= j < i ==> tasks[old(clock) + j] == docs[j]
        invariant |tasks| == |old(tasks)| + i
      {
        var d := docs[i];
        assert d.id == clock && clock !in tasks;
        tasks := tasks[d.id := d];
        clock := clock + 1;
        i := i + 1;
      }
    }

    /** All projects a listing shows, newest first. */
    function Listing(requester: UserId, visibility: Option<Visibility>): (all: seq<Project>)
      reads this
      requires Valid()
      ensures NewestFirst(all)
      ensures forall p :: p in all ==> p in projects.Values && Listed(p, requester, visibility)
      ensures forall k :: k in projects && Listed(projects[k], requester, visibility) ==> projects[k] in all
      ensures |all| == |set k | k in projects && Listed(projects[k], requester, visibility)|
    {
      var selected := Select(projects, ListedBy(requester, visibility), clock);
      ListedCount(requester, visibility);
      SortNewestFirst(selected)
    }

    /** The filter of a listing, as a function on projects. */
    function ListedBy(requester: UserId, visibility: Option<Visibility>): Project -> bool {
      (p: Project) => Listed(p, requester, visibility)
    }

    /** In a valid store the scan of the ids below the counter finds every listed project, once. */
    lemma ListedCount(requester: UserId, visibility: Option<Visibility>)
      requires Valid()
      ensures |Select(projects, ListedBy(requester, visibility), clock)|
              == |set k | k in projects && Listed(projects[k], requester, visibility)|
    {
      assert KeysBelow(projects, ListedBy(requester, visibility), clock)
             == set k | k in projects && Listed(projects[k], requester, visibility);
    }

    /**
     * listProjects: only the requester's projects, further filtered by visibility when one is given;
     * `total` counts all of them; the page is the window of the newest-first listing that starts
     * after the earlier pages.
     */
    function ListProjects(requester: UserId, page: Option<int>, limit: Option<int>, visibility: Option<Visibility>)
      : (r: ProjectPage)
      reads this
      requires Valid()
      requires limit.Some? ==> limit.value >= 1
      ensures r.total == |set k | k in projects && Listed(projects[k], requester, visibility)|
      ensures forall p :: p in r.projects ==> p in projects.Values && Listed(p, requester, visibility)
      ensures NewestFirst(r.projects)
      ensures var all, w := Listing(requester, visibility), PageWindow(page, limit);
        && r.total == |all| && r.page == w.page && r.limit == w.limit
        && |r.projects| == (if w.skip >= |all| then 0 else if |all| - w.skip < w.limit then |all| - w.skip else w.limit)
        && forall i :: 0 <= i < |r.projects| ==> w.skip + i < |all| && r.projects[i] == all[w.skip + i]
    {
      ListedPage(requester, visibility, PageWindow(page, limit));
      WindowedPage(requester, visibility, page, limit);
      Paginate(Listing(requester, visibility), PageWindow(page, limit))
    }

    /** A page of the listing counts every listed project and shows only listed ones, newest first. */
    lemma ListedPage(requester: UserId, visibility: Option<Visibility>, w: Window)
      requires Valid()
      requires w.skip >= 0 && w.limit >= 1
      ensures var r := Paginate(Listing(requester, visibility), w);
        && r.total == |set k | k in projects && Listed(projects[k], requester, visibility)|
        && (forall p :: p in r.projects ==> p in projects.Values && Listed(p, requester, visibility))
        && NewestFirst(r.projects)
    {
    }

    /** The page a request selects is the window of the listing after the earlier pages. */
    lemma WindowedPage(requester: UserId, visibility: Option<Visibility>, page: Option<int>, limit: Option<int>)
      requires Valid()
      requires limit.Some? ==> limit.value >= 1
      ensures var all, w := Listing(requester, visibility), PageWindow(page, limit);
        var r := Paginate(all, w);
        && r.total == |all| && r.page == w.page && r.limit == w.limit
        && |r.projects| == (if w.skip >= |all| then 0 else if |all| - w.skip < w.limit then |all| - w.skip else w.limit)
        && forall i :: 0 <= i < |r.projects| ==> w.skip + i < |all| && r.projects[i] == all[w.skip + i]
    {
    }

    /**
     * getProject: NotFound before AccessDenied; on success the project with exactly its tasks,
     * by ascending order and then ascending creation time.
     */
    function GetProject(requester: UserId, id: ProjectId): (r: Result<ProjectView>)
      reads this
      requires Valid()
      ensures id !in projects ==> r == Err(NotFound)
      ensures id in projects && projects[id].owner != requester ==> r == Err(AccessDenied)
      ensures r.Ok? <==> id in projects && projects[id].owner == requester
      ensures r.Ok? ==> r.value.project == projects[id]
      ensures r.Ok? ==> forall t :: t in r.value.tasks ==> t in tasks.Values && t.projectId == id
      ensures r.Ok? ==> forall k :: k in tasks && tasks[k].projectId == id ==> tasks[k] in r.value.tasks
      ensures r.Ok? ==> |r.value.tasks| == |TaskIdsOfProject(tasks, id)|
      ensures r.Ok? ==> InDisplayOrder(r.value.tasks)
    {
      match ProjectAccess(requester, id)
      case Err(e) => Err(e)
      case Ok(p) =>
        var found := ProjectTasks(id);
        var sorted := SortTasks(found);
        ProjectTasksCount(id);
        Ok(ProjectView(p, sorted))
    }

    /**
     * updateProject: NotFound, then AccessDenied, then the schema check, each leaving the store
     * as it was; on success only the supplied fields of that one project change. The owner never does.
     */
    method UpdateProject(requester: UserId, id: ProjectId, patch: ProjectPatch) returns (r: Result<Project>)
      requires Valid()
      modifies this
      ensures Valid()
      ensures r.Err? ==> State() == old(State())
      ensures id !in old(projects) ==> r == Err(NotFound)
      ensures id in old(projects) && old(projects)[id].owner != requester ==> r == Err(AccessDenied)
      ensures r.Ok? <==>
        id in old(projects) && old(projects)[id].owner == requester && patch.title.GetOr(old(projects)[id].title) != ""
      ensures r.Err? && id in old(projects) && old(projects)[id].owner == requester ==> r.error == ValidationFailed
      ensures r.Ok? && ChangesNothing(old(projects)[id], patch) ==> r.value == old(projects)[id] && State() == old(State())
      ensures r.Ok? && !ChangesNothing(old(projects)[id], patch) ==>
        && r.value == ApplyProjectPatch(old(projects)[id], patch, old(clock))
        && projects == old(projects)[id := r.value] && tasks == old(tasks) && clock == old(clock) + 1
    {
      var access := ProjectAccess(requester, id);
      if access.Err? {
        return Err(access.error);
      }
      if ChangesNothing(access.value, patch) {
        // save() of a document with no modified path writes nothing
        return Ok(access.value);
      }
      var p := ApplyProjectPatch(access.value, patch, clock);
      if !ValidProject(p) {
        return Err(ValidationFailed);
      }
      projects := projects[id := p];
      clock := clock + 1;
      r := Ok(p);
    }

    /**
     * deleteProject, one transaction: NotFound, then AccessDenied, leaving the store as it was;
     * on success the project and every task of it are gone, and nothing else changes.
     */
    method DeleteProject(requester: UserId, id: ProjectId) returns (r: Outcome)
      requires Valid()
      modifies this
      ensures Valid()
      ensures r.Fail? ==> State() == old(State())
      ensures id !in old(projects) ==> r == Fail(NotFound)
      ensures id in old(projects) && old(projects)[id].owner != requester ==> r == Fail(AccessDenied)
      ensures r.Pass? <==> id in old(projects) && old(projects)[id].owner == requester
      ensures r.Pass? ==>
        && projects == old(projects) - {id}
        && tasks == WithoutProject(old(tasks), id)
        && clock == old(clock)
        && ProjectTasks(id) == []
    {
      var access := ProjectAccess(requester, id);
      if access.Err? {
        return Fail(access.error);
      }
      // Task.deleteMany, then deleteOne, then commit
      tasks := WithoutProject(tasks, id);
      projects := projects - {id};
      r := Pass;
      ProjectTasksCount(id);
      assert TaskIdsOfProject(tasks, id) == {};
    }

    // -------------------------------------------------------------------------
    // taskController
    // -------------------------------------------------------------------------

    /**
     * createTask: NotFound, then AccessDenied, then the schema check, each creating nothing;
     * on success one new task of that project, status todo, ordered after every existing task
     * of the project.
     */
    method CreateTask(requester: UserId, projectId: ProjectId, title: string, description: Option<string>,
                      estimatedHours: Option<int>, priority: Option<Priority>, assignee: Option<UserId>)
      returns (r: Result<Task>)
      requires Valid()
      modifies this
      ensures Valid()
      ensures r.Err? ==> State() == old(State())
      ensures projectId !in old(projects) ==> r == Err(NotFound)
      ensures projectId in old(projects) && old(projects)[projectId].owner != requester ==> r == Err(AccessDenied)
      ensures r.Ok? <==> projectId in old(projects) && old(projects)[projectId].owner == requester && title != ""
      ensures r.Err? && projectId in old(projects) && old(projects)[projectId].owner == requester ==> r.error == ValidationFailed
      ensures r.Ok? ==>
        && r.value.id == old(clock) && r.value.id !in old(tasks)
        && r.value.projectId == projectId && r.value.title == title && r.value.status == Todo
        && r.value.order == NextOrder(old(ProjectTasks(projectId)))
        && r.value.description == description.GetOr("") && r.value.estimatedHours == estimatedHours.GetOr(0)
        && r.value.priority == priority.GetOr(Medium) && r.value.assignee == assignee
        && r.value.createdAt == old(clock) && r.value.updatedAt == old(clock)
        && tasks == old(tasks)[r.value.id := r.value] && projects == old(projects) && clock == old(clock) + 1
    {
      var access := ProjectAccess(requester, projectId);
      if access.Err? {
        return Err(access.error);
      }
      // the new task goes after the largest order among the project's tasks
      var order := NextOrder(ProjectTasks(projectId));
      var t := TaskWithDefaults(clock, projectId, title, clock).(
        description := description.GetOr(DefaultDescription),
        estimatedHours := estimatedHours.GetOr(DefaultEstimatedHours),
        priority := priority.GetOr(DefaultPriority),
        order := order,
        assignee := assignee);
      if !ValidTask(t) {
        return Err(ValidationFailed);
      }
      tasks := tasks[t.id := t];
      clock := clock + 1;
      r := Ok(t);
    }

    /**
     * getTask: NotFound for a missing task; AccessDenied when its project is missing or not the
     * requester's. So a non-owner never receives the task.
     */
    function GetTask(requester: UserId, id: TaskId): (r: Result<Task>)
      reads this
      ensures id !in tasks ==> r == Err(NotFound)
      ensures id in tasks && tasks[id].projectId !in projects ==> r == Err(AccessDenied)
      ensures id in tasks && tasks[id].projectId in projects && projects[tasks[id].projectId].owner != requester
              ==> r == Err(AccessDenied)
      ensures r.Ok? <==>
        id in tasks && tasks[id].projectId in projects && projects[tasks[id].projectId].owner == requester
      ensures r.Ok? ==> r.value == tasks[id]
    {
      if id !in tasks then Err(NotFound)
      else
        var t := tasks[id];
        if t.projectId !in projects || projects[t.projectId].owner != requester then Err(AccessDenied)
        else Ok(t)
    }

    /**
     * updateTask: the same checks as getTask, then the schema check; on success the supplied
     * allow-listed fields of that task are written and nothing else changes.
     */
    method UpdateTask(requester: UserId, id: TaskId, patch: TaskPatch) returns (r: Result<Task>)
      requires Valid()
      modifies this
      ensures Valid()
      ensures r.Err? ==> State() == old(State())
      ensures r.Err? && old(GetTask(requester, id)).Err? ==> r.error == old(GetTask(requester, id)).error
      ensures r.Ok? <==> old(GetTask(requester, id)).Ok? && patch.title.GetOr(old(tasks)[id].title) != ""
      ensures r.Err? && old(GetTask(requester, id)).Ok? ==> r.error == ValidationFailed
      ensures r.Ok? ==> PatchedFrom(r.value, old(tasks)[id], patch)
      ensures r.Ok? && PatchedFrom(old(tasks)[id], old(tasks)[id], patch) ==>
        r.value == old(tasks)[id] && State() == old(State())
      ensures r.Ok? && !PatchedFrom(old(tasks)[id], old(tasks)[id], patch) ==>
        && r.value.updatedAt == old(clock)
        && tasks == old(tasks)[id := r.value] && projects == old(projects) && clock == old(clock) + 1
    {
      var found := GetTask(requester, id);
      if found.Err? {
        return Err(found.error);
      }
      var t := PatchTask(found.value, patch);
      if t == found.value {
        // save() of a document with no modified path writes nothing
        return Ok(t);
      }
      t := t.(updatedAt := clock);
      if !ValidTask(t) {
        return Err(ValidationFailed);
      }
      tasks := tasks[id := t];
      clock := clock + 1;
      r := Ok(t);
    }

    /** deleteTask: the same checks as getTask; on success exactly that one task is gone. */
    method DeleteTask(requester: UserId, id: TaskId) returns (r: Outcome)
      requires Valid()
      modifies this
      ensures Valid()
      ensures r.Fail? ==> State() == old(State())
      ensures r.Fail? <==> old(GetTask(requester, id)).Err?
      ensures r.Fail? ==> r.error == old(GetTask(requester, id)).error
      ensures r.Pass? ==> tasks == old(tasks) - {id} && projects == old(projects) && clock == old(clock)
    {
      var found := GetTask(requester, id);
      if found.Err? {
        return Fail(found.error);
      }
      tasks := tasks - {id};
      r := Pass;
    }

    /** Task.bulkWrite: one `$set` per entry, in turn; an entry whose task is absent matches nothing. */
    method ApplyBatch(os: seq<Assignment>, now: nat)
      requires Valid()
      modifies this
      ensures Valid()
      ensures tasks == ApplyAll(old(tasks), os, now)
      ensures projects == old(projects) && clock == old(clock)
    {
      var i := 0;
      while i < |os|
        invariant 0 <= i <= |os|
        invariant tasks == ApplyAll(old(tasks), os[..i], now)
        invariant projects == old(projects) && clock == old(clock)
      {
        assert os[..i + 1][..i] == os[..i];
        var a := os[i];
        if a.taskId in tasks {
          tasks := tasks[a.taskId := Reassigned(tasks[a.taskId], a, now)];
        }
        i := i + 1;
      }
      assert os[..|os|] == os;
    }

    /**
     * bulkReorder, one transaction: BadRequest for a missing project id or order list, NotFound,
     * AccessDenied, then BadRequest unless the listed ids are distinct tasks of the project; every
     * rejection leaves the store as it was. On success each listed task takes its new order, and its
     * new status when one is given; nothing else changes.
     */
    method BulkReorder(requester: UserId, projectId: Option<ProjectId>, orders: Option<seq<Assignment>>)
      returns (r: Outcome)
      requires Valid()
      modifies this
      ensures Valid()
      ensures r.Fail? ==> State() == old(State())
      ensures projectId.None? || orders.None? ==> r == Fail(BadRequest)
      ensures projectId.Some? && orders.Some? && old(ProjectAccess(requester, projectId.value)).Err? ==>
        r == Fail(old(ProjectAccess(requester, projectId.value)).error)
      ensures projectId.Some? && orders.Some? && old(ProjectAccess(requester, projectId.value)).Ok? ==>
        (r.Pass? <==> Distinct(TaskIdsOf(orders.value)) && AllInProject(old(tasks), projectId.value, TaskIdsOf(orders.value)))
        && (r.Fail? ==> r.error == BadRequest)
      ensures r.Pass? ==>
        && tasks == ApplyAll(old(tasks), orders.value, old(clock))
        && (forall i :: 0 <= i < |orders.value| ==>
              tasks[orders.value[i].taskId] == Reassigned(old(tasks)[orders.value[i].taskId], orders.value[i], old(clock)))
        && (forall k :: k in old(tasks) && k !in TaskIdsOf(orders.value) ==> tasks[k] == old(tasks)[k])
        && projects == old(projects) && clock == old(clock) + 1
    {
      if projectId.None? || orders.None? {
        return Fail(BadRequest);
      }
      var pid, os := projectId.value, orders.value;
      var access := ProjectAccess(requester, pid);
      if access.Err? {
        return Fail(access.error);
      }
      var ids := TaskIdsOf(os);
      var found := Resolved(tasks, pid, ids);
      ResolvedCountIff(tasks, pid, ids);
      if |found| != |ids| {
        return Fail(BadRequest);
      }
      ApplyAllEffect(tasks, os, clock);
      ApplyBatch(os, clock);
      clock := clock + 1;
      r := Pass;
    }
  }
}
