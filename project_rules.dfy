/**
 * The value-level rules of the project handlers: the records a generated project creates,
 * what a project update may write, what a cascade delete keeps, and how a listing is paged
 * and ordered.
 */
module ProjectRules {
  import opened Wrappers
  import opened Schema
  import opened Ordering

  // ---------------------------------------------------------------------------
  // Creating a project together with its tasks
  // ---------------------------------------------------------------------------

  /** One task of a generated plan, as the request supplies it. */
  datatype TaskSpec = TaskSpec(
    title: string,
    description: Option<string>,
    estimatedHours: Option<int>,
    priority: Option<Priority>)

  /**
   * The metadata of a generated project. JavaScript's `hours || null` turns an absent
   * estimate and an estimate of 0 alike into null.
   */
  function GeneratedMetadata(estimatedTotalHours: Option<int>): (m: Metadata)
    ensures m.Keys == {EstimatedTotalHoursKey}
    ensures m[EstimatedTotalHoursKey].Some? <==> estimatedTotalHours.Some? && estimatedTotalHours.value != 0
    ensures m[EstimatedTotalHoursKey].Some? ==> m[EstimatedTotalHoursKey] == estimatedTotalHours
  {
    map[EstimatedTotalHoursKey := if estimatedTotalHours == Some(0) then None else estimatedTotalHours]
  }

  /**
   * The task records built from a plan for project `pid`, the i-th with id and creation time `first + i`:
   * it takes its order from its position, starts as todo, and takes the schema default for every
   * field its spec leaves out.
   */
  function TaskDocs(specs: seq<TaskSpec>, pid: ProjectId, first: nat): (docs: seq<Task>)
    ensures |docs| == |specs|
    ensures forall i :: 0 <= i < |specs| ==>
      && docs[i].id == first + i && docs[i].createdAt == first + i && docs[i].updatedAt == first + i
      && docs[i].projectId == pid && docs[i].order == i && docs[i].status == Todo
      && docs[i].title == specs[i].title
      && docs[i].description == specs[i].description.GetOr("")
      && docs[i].estimatedHours == specs[i].estimatedHours.GetOr(0)
      && docs[i].priority == specs[i].priority.GetOr(Medium)
      && docs[i].assignee == None
  {
    seq(|specs|, i requires 0 <= i < |specs| =>
      var spec := specs[i];
      TaskWithDefaults(first + i, pid, spec.title, first + i).(
        description := spec.description.GetOr(DefaultDescription),
        estimatedHours := spec.estimatedHours.GetOr(DefaultEstimatedHours),
        priority := spec.priority.GetOr(DefaultPriority),
        order := i))
  }

  // ---------------------------------------------------------------------------
  // Updating a project
  // ---------------------------------------------------------------------------

  /** The fields a project update can carry; an update request has no way to name the owner. */
  datatype ProjectPatch = ProjectPatch(
    title: Option<string>,
    description: Option<string>,
    visibility: Option<Visibility>)

  /** The project after copying the supplied fields onto it and saving at time `now`. */
  function ApplyProjectPatch(p: Project, patch: ProjectPatch, now: nat): (r: Project)
    ensures r.title == patch.title.GetOr(p.title)
    ensures r.description == patch.description.GetOr(p.description)
    ensures r.visibility == patch.visibility.GetOr(p.visibility)
    ensures r.id == p.id && r.owner == p.owner && r.metadata == p.metadata && r.createdAt == p.createdAt
    ensures r.updatedAt == now
  {
    p.(title := patch.title.GetOr(p.title),
       description := patch.description.GetOr(p.description),
       visibility := patch.visibility.GetOr(p.visibility),
       updatedAt := now)
  }

  /** Whether the supplied fields all equal the stored ones, so that the update modifies no path. */
  predicate ChangesNothing(p: Project, patch: ProjectPatch) {
    && patch.title.GetOr(p.title) == p.title
    && patch.description.GetOr(p.description) == p.description
    && patch.visibility.GetOr(p.visibility) == p.visibility
  }

  /** An update modifies no path exactly when patching leaves the project as it was, timestamp aside. */
  lemma ChangesNothingIff(p: Project, patch: ProjectPatch)
    ensures ChangesNothing(p, patch) <==> ApplyProjectPatch(p, patch, p.updatedAt) == p
  {
  }

  // ---------------------------------------------------------------------------
  // Cascade delete
  // ---------------------------------------------------------------------------

  /** The tasks that survive deleting every task of project `pid`. */
  function WithoutProject(tasks: map<TaskId, Task>, pid: ProjectId): (r: map<TaskId, Task>)
    ensures forall k :: k in r <==> k in tasks && tasks[k].projectId != pid
    ensures forall k :: k in r ==> r[k] == tasks[k]
  {
    map k | k in tasks && tasks[k].projectId != pid :: tasks[k]
  }

  /** The ids of the tasks of project `pid`. */
  ghost function TaskIdsOfProject(tasks: map<TaskId, Task>, pid: ProjectId): set<TaskId> {
    set k | k in tasks && tasks[k].projectId == pid
  }

  /** A cascade delete of a project with k tasks removes exactly k tasks. */
  lemma CascadeCount(tasks: map<TaskId, Task>, pid: ProjectId)
    ensures |tasks| == |WithoutProject(tasks, pid)| + |TaskIdsOfProject(tasks, pid)|
  {
    var kept := WithoutProject(tasks, pid);
    var gone := TaskIdsOfProject(tasks, pid);
    assert tasks.Keys == kept.Keys + gone;
    assert kept.Keys !! gone;
    assert |tasks| == |tasks.Keys| && |kept| == |kept.Keys|;
  }

  // ---------------------------------------------------------------------------
  // Listing
  // ---------------------------------------------------------------------------

  /** The page, page size and number of skipped records a listing uses. */
  datatype Window = Window(page: int, limit: int, skip: int)

  /**
   * Page defaults to 1 and is at least 1; the page size defaults to 20 and is capped at 100;
   * the listing skips the records of the earlier pages.
   */
  function PageWindow(page: Option<int>, limit: Option<int>): (w: Window)
    requires limit.Some? ==> limit.value >= 1
    ensures w.page >= 1 && (w.page == 1 || page == Some(w.page))
    ensures page.Some? && page.value >= 1 ==> w.page == page.value
    ensures 1 <= w.limit <= 100
    ensures limit.None? ==> w.limit == 20
    ensures limit.Some? ==> w.limit == if limit.value <= 100 then limit.value else 100
    ensures w.skip == (w.page - 1) * w.limit && w.skip >= 0
  {
    var p := var requested := page.GetOr(1); if requested >= 1 then requested else 1;
    var l := var requested := limit.GetOr(20); if requested <= 100 then requested else 100;
    Window(p, l, (p - 1) * l)
  }

  /** At most `limit` elements of `s`, starting after the first `skip`. */
  function Slice<T>(s: seq<T>, skip: nat, limit: nat): (r: seq<T>)
    ensures |r| <= limit
    ensures |r| == if skip >= |s| then 0 else if |s| - skip < limit then |s| - skip else limit
    ensures forall i :: 0 <= i < |r| ==> r[i] == s[skip + i]
  {
    if skip >= |s| then []
    else if |s| - skip < limit then s[skip..]
    else s[skip..skip + limit]
  }

  /** One page of a listing. */
  datatype ProjectPage = ProjectPage(total: nat, page: int, limit: int, projects: seq<Project>)

  /**
   * The page of `all` that a window selects: `total` counts all of
   * `all`, and the page holds the records that follow the earlier pages, in the listing's order.
   */
  function Paginate(all: seq<Project>, w: Window): (r: ProjectPage)
    requires w.skip >= 0 && w.limit >= 1
    ensures r.total == |all| && r.page == w.page && r.limit == w.limit
    ensures |r.projects| == if w.skip >= |all| then 0 else if |all| - w.skip < w.limit then |all| - w.skip else w.limit
    ensures forall i :: 0 <= i < |r.projects| ==> w.skip + i < |all| && r.projects[i] == all[w.skip + i]
    ensures forall p :: p in r.projects ==> p in all
    ensures NewestFirst(all) ==> NewestFirst(r.projects)
  {
    var shown := Slice(all, w.skip, w.limit);
    assert forall p :: p in shown ==> p in all by {
      forall p | p in shown ensures p in all {
        var i :| 0 <= i < |shown| && shown[i] == p;
        assert shown[i] == all[w.skip + i];
      }
    }
    assert NewestFirst(all) ==> NewestFirst(shown) by {
      if NewestFirst(all) {
        forall i, j | 0 <= i < j < |shown| ensures shown[i].createdAt >= shown[j].createdAt {
          assert shown[i] == all[w.skip + i] && shown[j] == all[w.skip + j];
        }
      }
    }
    ProjectPage(|all|, w.page, w.limit, shown)
  }

  /** Whether a listing with this visibility filter shows project `p` to `requester`. */
  predicate Listed(p: Project, requester: UserId, visibility: Option<Visibility>) {
    p.owner == requester && (visibility.Some? ==> p.visibility == visibility.value)
  }

  /** Newest first: descending creation time, then descending id. */
  function NewestFirstKey(p: Project): Key {
    Key(0 - p.createdAt as int, 0 - p.id as int, 0)
  }

  /** Display order of tasks: ascending order, then ascending creation time, then ascending id. */
  function TaskKey(t: Task): Key {
    Key(t.order, t.createdAt, t.id)
  }

  /** Ascending `order`, with ties in ascending creation time. */
  ghost predicate InDisplayOrder(ts: seq<Task>) {
    forall i, j :: 0 <= i < j < |ts| ==>
      ts[i].order < ts[j].order || (ts[i].order == ts[j].order && ts[i].createdAt <= ts[j].createdAt)
  }

  /** No project created earlier comes before one created later. */
  ghost predicate NewestFirst(ps: seq<Project>) {
    forall i, j :: 0 <= i < j < |ps| ==> ps[i].createdAt >= ps[j].createdAt
  }

  /** Sorting by the task key puts tasks in display order. */
  function SortTasks(ts: seq<Task>): (r: seq<Task>)
    ensures InDisplayOrder(r)
    ensures multiset(r) == multiset(ts)
    ensures |r| == |ts| && forall t :: t in r <==> t in ts
  {
    var r := SortBy(ts, TaskKey);
    assert SortedBy(r, TaskKey);
    forall t ensures t in r <==> t in ts {
      SortByMembers(ts, TaskKey, t);
    }
    r
  }

  /** Sorting by the newest-first key puts projects newest first. */
  function SortNewestFirst(ps: seq<Project>): (r: seq<Project>)
    ensures NewestFirst(r)
    ensures multiset(r) == multiset(ps)
    ensures |r| == |ps| && forall p :: p in r <==> p in ps
  {
    var r := SortBy(ps, NewestFirstKey);
    assert SortedBy(r, NewestFirstKey);
    forall p ensures p in r <==> p in ps {
      SortByMembers(ps, NewestFirstKey, p);
    }
    r
  }
}
