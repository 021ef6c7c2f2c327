/**
 * The value-level rules of the task handlers: which fields an update may write,
 * where an appended task goes, and how a reorder batch is checked and applied.
 */
module TaskRules {
  import opened Wrappers
  import opened Schema

  // ---------------------------------------------------------------------------
  // Updating a task: an allow-list of writable fields
  // ---------------------------------------------------------------------------

  /** The names of the fields an update may write. */
  datatype Field = TitleKey | DescriptionKey | EstimatedHoursKey | PriorityKey | StatusKey | AssigneeKey | OrderKey

  /** The allow-list, in the order the update handler visits it. `projectId` is not on it. */
  const Allowed: seq<Field> := [TitleKey, DescriptionKey, EstimatedHoursKey, PriorityKey, StatusKey, AssigneeKey, OrderKey]

  /** The values an update request supplies; `None` is a field the request leaves out. */
  datatype TaskPatch = TaskPatch(
    title: Option<string>,
    description: Option<string>,
    estimatedHours: Option<int>,
    priority: Option<Priority>,
    status: Option<Status>,
    assignee: Option<UserId>,
    order: Option<int>)

  /**
   * Writes field `f` of `t` when the request supplies a value for it: one assignment touches
   * that field only, and never the identity, the project or the timestamps.
   */
  function SetField(t: Task, f: Field, p: TaskPatch): (r: Task)
    ensures r.id == t.id && r.projectId == t.projectId && r.createdAt == t.createdAt && r.updatedAt == t.updatedAt
    ensures r.title == if f == TitleKey then p.title.GetOr(t.title) else t.title
    ensures r.description == if f == DescriptionKey then p.description.GetOr(t.description) else t.description
    ensures r.estimatedHours == if f == EstimatedHoursKey then p.estimatedHours.GetOr(t.estimatedHours) else t.estimatedHours
    ensures r.priority == if f == PriorityKey then p.priority.GetOr(t.priority) else t.priority
    ensures r.status == if f == StatusKey then p.status.GetOr(t.status) else t.status
    ensures r.assignee == if f == AssigneeKey && p.assignee.Some? then p.assignee else t.assignee
    ensures r.order == if f == OrderKey then p.order.GetOr(t.order) else t.order
  {
    match f
    case TitleKey => if p.title.Some? then t.(title := p.title.value) else t
    case DescriptionKey => if p.description.Some? then t.(description := p.description.value) else t
    case EstimatedHoursKey => if p.estimatedHours.Some? then t.(estimatedHours := p.estimatedHours.value) else t
    case PriorityKey => if p.priority.Some? then t.(priority := p.priority.value) else t
    case StatusKey => if p.status.Some? then t.(status := p.status.value) else t
    case AssigneeKey => if p.assignee.Some? then t.(assignee := p.assignee) else t
    case OrderKey => if p.order.Some? then t.(order := p.order.value) else t
  }

  /**
   * `r` is `t` with every supplied allow-listed field written and everything else kept:
   * identity, `projectId` and creation time included. Any status may replace any other.
   */
  ghost predicate PatchedFrom(r: Task, t: Task, p: TaskPatch) {
    && r.title == p.title.GetOr(t.title)
    && r.description == p.description.GetOr(t.description)
    && r.estimatedHours == p.estimatedHours.GetOr(t.estimatedHours)
    && r.priority == p.priority.GetOr(t.priority)
    && r.status == p.status.GetOr(t.status)
    && r.assignee == (if p.assignee.Some? then p.assignee else t.assignee)
    && r.order == p.order.GetOr(t.order)
    && r.id == t.id && r.projectId == t.projectId && r.createdAt == t.createdAt
  }

  /** `r` is `t` with the supplied values written for the fields in `visited` only. */
  ghost predicate PatchedOver(r: Task, t: Task, p: TaskPatch, visited: seq<Field>) {
    && r.title == (if TitleKey in visited then p.title.GetOr(t.title) else t.title)
    && r.description == (if DescriptionKey in visited then p.description.GetOr(t.description) else t.description)
    && r.estimatedHours == (if EstimatedHoursKey in visited then p.estimatedHours.GetOr(t.estimatedHours) else t.estimatedHours)
    && r.priority == (if PriorityKey in visited then p.priority.GetOr(t.priority) else t.priority)
    && r.status == (if StatusKey in visited then p.status.GetOr(t.status) else t.status)
    && r.assignee == (if AssigneeKey in visited && p.assignee.Some? then p.assignee else t.assignee)
    && r.order == (if OrderKey in visited then p.order.GetOr(t.order) else t.order)
    && r.id == t.id && r.projectId == t.projectId
    && r.createdAt == t.createdAt && r.updatedAt == t.updatedAt
  }

  /** Visiting one more field keeps `PatchedOver` up to date. */
  lemma SetFieldStep(r: Task, t: Task, p: TaskPatch, visited: seq<Field>, f: Field)
    requires PatchedOver(r, t, p, visited) && f !in visited
    ensures PatchedOver(SetField(r, f, p), t, p, visited + [f])
  {
    var v := visited + [f];
    assert forall g :: g in v <==> g in visited || g == f;
    match f {
      case TitleKey =>
      case DescriptionKey =>
      case EstimatedHoursKey =>
      case PriorityKey =>
      case StatusKey =>
      case AssigneeKey =>
      case OrderKey =>
    }
  }

  /** No field occurs twice on the allow-list. */
  lemma AllowedDistinct(i: nat)
    requires i < |Allowed|
    ensures Allowed[i] !in Allowed[..i]
  {
  }

  /** The update handler's loop over the allow-list, assigning each supplied value to the task. */
  method PatchTask(t: Task, p: TaskPatch) returns (r: Task)
    ensures PatchedFrom(r, t, p)
    ensures r.updatedAt == t.updatedAt
  {
    r := t;
    for i := 0 to |Allowed|
      invariant PatchedOver(r, t, p, Allowed[..i])
    {
      var f := Allowed[i];
      assert Allowed[..i + 1] == Allowed[..i] + [f];
      AllowedDistinct(i);
      SetFieldStep(r, t, p, Allowed[..i], f);
      r := SetField(r, f, p);
    }
    assert Allowed[..|Allowed|] == Allowed;
  }

  // ---------------------------------------------------------------------------
  // Appending a task: one past the largest order in the project
  // ---------------------------------------------------------------------------

  /** The largest `order` among `ts`, or `None` when there are no tasks. */
  function MaxOrder(ts: seq<Task>): (r: Option<int>)
    ensures r.None? <==> ts == []
    ensures r.Some? ==> forall i :: 0 <= i < |ts| ==> ts[i].order <= r.value
    ensures r.Some? ==> exists i :: 0 <= i < |ts| && ts[i].order == r.value
  {
    if ts == [] then None
    else
      match MaxOrder(ts[1..])
      case None => Some(ts[0].order)
      case Some(m) => Some(if ts[0].order >= m then ts[0].order else m)
  }

  /**
   * The order of a task appended to a project whose tasks are `ts`: 0 for an empty project,
   * otherwise one more than the largest existing order, so it sorts after every existing task.
   */
  function NextOrder(ts: seq<Task>): (r: int)
    ensures ts == [] ==> r == 0
    ensures forall t :: t in ts ==> t.order < r
    ensures ts != [] ==> exists t :: t in ts && r == t.order + 1
  {
    match MaxOrder(ts)
    case None => 0
    case Some(m) => m + 1
  }

  // ---------------------------------------------------------------------------
  // Bulk reorder: membership check, then one batch of updates
  // ---------------------------------------------------------------------------

  /** One entry of a reorder batch: the task, its new order and optionally its new status. */
  datatype Assignment = Assignment(taskId: TaskId, order: int, status: Option<Status>)

  /** The task ids a batch names, in batch order. */
  function TaskIdsOf(os: seq<Assignment>): (ids: seq<TaskId>)
    ensures |ids| == |os|
    ensures forall i :: 0 <= i < |os| ==> ids[i] == os[i].taskId
  {
    seq(|os|, i requires 0 <= i < |os| => os[i].taskId)
  }

  /** The values of a sequence. */
  ghost function Elements(ids: seq<TaskId>): set<TaskId> {
    set x | x in ids
  }

  ghost predicate Distinct(ids: seq<TaskId>) {
    forall i, j :: 0 <= i < j < |ids| ==> ids[i] != ids[j]
  }

  /** Every id names a stored task of project `pid`. */
  ghost predicate AllInProject(tasks: map<TaskId, Task>, pid: ProjectId, ids: seq<TaskId>) {
    forall i :: 0 <= i < |ids| ==> ids[i] in tasks && tasks[ids[i]].projectId == pid
  }

  /**
   * The stored tasks a lookup by `ids` restricted to project `pid` finds: only named tasks of the
   * project, each of them, and each once, so never more than the number of ids named.
   */
  function Resolved(tasks: map<TaskId, Task>, pid: ProjectId, ids: seq<TaskId>): (found: set<TaskId>)
    ensures forall id :: id in found ==> id in Elements(ids) && id in tasks && tasks[id].projectId == pid
    ensures forall i :: 0 <= i < |ids| && ids[i] in tasks && tasks[ids[i]].projectId == pid ==> ids[i] in found
    ensures |found| <= |ids|
  {
    var found := set id | id in ids && id in tasks && tasks[id].projectId == pid;
    DistinctCount(ids);
    SubsetNoLarger(found, Elements(ids));
    found
  }

  /** A sequence has at least as many entries as distinct values, and as many exactly when no value repeats. */
  lemma {:induction false} DistinctCount(ids: seq<TaskId>)
    ensures |Elements(ids)| <= |ids|
    ensures |Elements(ids)| == |ids| <==> Distinct(ids)
  {
    if ids != [] {
      var rest := ids[1..];
      DistinctCount(rest);
      assert Elements(ids) == Elements(rest) + {ids[0]};
      if ids[0] in rest {
        var j :| 0 <= j < |rest| && rest[j] == ids[0];
        assert ids[0] == ids[j + 1];
        assert !Distinct(ids);
        assert Elements(ids) == Elements(rest);
      } else {
        assert ids[0] !in Elements(rest);
        assert |Elements(ids)| == |Elements(rest)| + 1;
        assert Distinct(ids) <==> Distinct(rest) by {
          if Distinct(rest) {
            forall i, j | 0 <= i < j < |ids| ensures ids[i] != ids[j] {
              if i == 0 {
                assert ids[j] == rest[j - 1];
              } else {
                assert ids[i] == rest[i - 1] && ids[j] == rest[j - 1];
              }
            }
          }
          if Distinct(ids) {
            forall i, j | 0 <= i < j < |rest| ensures rest[i] != rest[j] {
              assert rest[i] == ids[i + 1] && rest[j] == ids[j + 1];
            }
          }
        }
      }
    }
  }

  /** A subset of a finite set is no larger. */
  lemma {:induction false} SubsetNoLarger(a: set<TaskId>, b: set<TaskId>)
    requires a <= b
    ensures |a| <= |b|
    decreases |a|
  {
    if a != {} {
      var x :| x in a;
      SubsetNoLarger(a - {x}, b - {x});
    }
  }

  /** A proper subset of a finite set is smaller. */
  lemma ProperSubsetSmaller(a: set<TaskId>, b: set<TaskId>)
    requires a < b
    ensures |a| < |b|
  {
    var x :| x in b && x !in a;
    SubsetNoLarger(a, b - {x});
  }

  /**
   * The batch check: as many tasks are found as ids were named exactly when the ids are distinct
   * and each names a task of the project. So a missing id, an id of another project and a repeated
   * id are each rejected.
   */
  lemma ResolvedCountIff(tasks: map<TaskId, Task>, pid: ProjectId, ids: seq<TaskId>)
    ensures |Resolved(tasks, pid, ids)| == |ids| <==> Distinct(ids) && AllInProject(tasks, pid, ids)
  {
    var named := Elements(ids);
    var found := Resolved(tasks, pid, ids);
    DistinctCount(ids);
    assert found <= named;
    SubsetNoLarger(found, named);
    if Distinct(ids) && AllInProject(tasks, pid, ids) {
      assert found == named by {
        forall x | x in named ensures x in found {
          var i :| 0 <= i < |ids| && ids[i] == x;
        }
      }
    }
    if |found| == |ids| {
      if found != named {
        ProperSubsetSmaller(found, named);
      }
      assert found == named;
      forall i | 0 <= i < |ids| ensures ids[i] in tasks && tasks[ids[i]].projectId == pid {
        assert ids[i] in named;
        assert ids[i] in found;
      }
    }
  }

  /** One `$set`: the new order, the new status when one is given, and a fresh update time. */
  function Reassigned(t: Task, a: Assignment, now: nat): (r: Task)
    ensures r.order == a.order && r.status == a.status.GetOr(t.status) && r.updatedAt == now
    ensures r == t.(order := r.order, status := r.status, updatedAt := now)
  {
    t.(order := a.order, status := a.status.GetOr(t.status), updatedAt := now)
  }

  /** `b` differs from `a` at most in order, status and update time. */
  ghost predicate OnlyOrderingChanged(a: Task, b: Task) {
    b == a.(order := b.order, status := b.status, updatedAt := b.updatedAt)
  }

  /** The batch of updates applied in turn; an update whose task is absent matches nothing. */
  function ApplyAll(tasks: map<TaskId, Task>, os: seq<Assignment>, now: nat): (r: map<TaskId, Task>)
    ensures r.Keys == tasks.Keys
    ensures forall k :: k in r ==> OnlyOrderingChanged(tasks[k], r[k])
    decreases |os|
  {
    if os == [] then tasks
    else
      var prev := ApplyAll(tasks, os[..|os| - 1], now);
      var a := os[|os| - 1];
      if a.taskId in prev then prev[a.taskId := Reassigned(prev[a.taskId], a, now)] else prev
  }

  /** A task the batch does not name is left as it was. */
  lemma {:induction false} ApplyAllMisses(tasks: map<TaskId, Task>, os: seq<Assignment>, now: nat, k: TaskId)
    requires k in tasks && k !in TaskIdsOf(os)
    ensures ApplyAll(tasks, os, now)[k] == tasks[k]
    decreases |os|
  {
    if os != [] {
      var init := os[..|os| - 1];
      assert TaskIdsOf(init) == TaskIdsOf(os)[..|os| - 1];
      assert TaskIdsOf(os)[|os| - 1] == os[|os| - 1].taskId;
      ApplyAllMisses(tasks, init, now, k);
    }
  }

  /** For a batch of distinct ids of stored tasks, the task at position `i` receives assignment `i`. */
  lemma {:induction false} ApplyAllHits(tasks: map<TaskId, Task>, os: seq<Assignment>, now: nat, i: nat)
    requires Distinct(TaskIdsOf(os))
    requires forall j :: 0 <= j < |os| ==> os[j].taskId in tasks
    requires i < |os|
    ensures ApplyAll(tasks, os, now)[os[i].taskId] == Reassigned(tasks[os[i].taskId], os[i], now)
    decreases |os|
  {
    var init := os[..|os| - 1];
    var a := os[|os| - 1];
    var ids := TaskIdsOf(os);
    assert TaskIdsOf(init) == ids[..|os| - 1];
    if i == |os| - 1 {
      ApplyAllMisses(tasks, init, now, a.taskId);
    } else {
      assert ids[i] != ids[|os| - 1];
      ApplyAllHits(tasks, init, now, i);
    }
  }

  /**
   * For a batch of distinct ids of stored tasks, each named task receives its assignment,
   * and every other task is unchanged.
   */
  lemma ApplyAllEffect(tasks: map<TaskId, Task>, os: seq<Assignment>, now: nat)
    requires Distinct(TaskIdsOf(os))
    requires forall i :: 0 <= i < |os| ==> os[i].taskId in tasks
    ensures forall i :: 0 <= i < |os| ==>
      ApplyAll(tasks, os, now)[os[i].taskId] == Reassigned(tasks[os[i].taskId], os[i], now)
    ensures forall k :: k in tasks && k !in TaskIdsOf(os) ==> ApplyAll(tasks, os, now)[k] == tasks[k]
  {
    forall i | 0 <= i < |os|
      ensures ApplyAll(tasks, os, now)[os[i].taskId] == Reassigned(tasks[os[i].taskId], os[i], now)
    {
      ApplyAllHits(tasks, os, now, i);
    }
    forall k | k in tasks && k !in TaskIdsOf(os) ensures ApplyAll(tasks, os, now)[k] == tasks[k] {
      ApplyAllMisses(tasks, os, now, k);
    }
  }

  /** A task the batch names ends up the same after the batch twice as after it once. */
  lemma ApplyTwiceHit(tasks: map<TaskId, Task>, os: seq<Assignment>, first: nat, second: nat, i: nat)
    requires Distinct(TaskIdsOf(os))
    requires forall j :: 0 <= j < |os| ==> os[j].taskId in tasks
    requires i < |os|
    ensures ApplyAll(ApplyAll(tasks, os, first), os, second)[os[i].taskId] == ApplyAll(tasks, os, second)[os[i].taskId]
  {
    var once := ApplyAll(tasks, os, first);
    ApplyAllHits(tasks, os, first, i);
    ApplyAllHits(once, os, second, i);
    ApplyAllHits(tasks, os, second, i);
  }

  /** A task the batch does not name is the same after the batch twice as after it once. */
  lemma ApplyTwiceMiss(tasks: map<TaskId, Task>, os: seq<Assignment>, first: nat, second: nat, k: TaskId)
    requires k in tasks && k !in TaskIdsOf(os)
    ensures ApplyAll(ApplyAll(tasks, os, first), os, second)[k] == ApplyAll(tasks, os, second)[k]
  {
    ApplyAllMisses(tasks, os, first, k);
    ApplyAllMisses(ApplyAll(tasks, os, first), os, second, k);
    ApplyAllMisses(tasks, os, second, k);
  }

  /** Re-applying a batch of distinct ids of stored tasks gives the same state as applying it once. */
  lemma ApplyAllIdempotent(tasks: map<TaskId, Task>, os: seq<Assignment>, first: nat, second: nat)
    requires Distinct(TaskIdsOf(os))
    requires forall i :: 0 <= i < |os| ==> os[i].taskId in tasks
    ensures ApplyAll(ApplyAll(tasks, os, first), os, second) == ApplyAll(tasks, os, second)
  {
    ApplyTwiceAgrees(tasks, os, first, second);
  }

  /** Every stored task is the same after the batch twice as after it once. */
  lemma ApplyTwiceAgrees(tasks: map<TaskId, Task>, os: seq<Assignment>, first: nat, second: nat)
    requires Distinct(TaskIdsOf(os))
    requires forall i :: 0 <= i < |os| ==> os[i].taskId in tasks
    ensures forall k :: k in tasks ==> ApplyAll(ApplyAll(tasks, os, first), os, second)[k] == ApplyAll(tasks, os, second)[k]
  {
    forall k | k in tasks
      ensures ApplyAll(ApplyAll(tasks, os, first), os, second)[k] == ApplyAll(tasks, os, second)[k]
    {
      if k in TaskIdsOf(os) {
        var i :| 0 <= i < |os| && TaskIdsOf(os)[i] == k;
        ApplyTwiceHit(tasks, os, first, second, i);
      } else {
        ApplyTwiceMiss(tasks, os, first, second, k);
      }
    }
  }

  /** Applying a batch never moves a task to another project, so the same batch passes the check again. */
  lemma ApplyAllKeepsMembership(tasks: map<TaskId, Task>, os: seq<Assignment>, now: nat, pid: ProjectId, ids: seq<TaskId>)
    ensures Resolved(ApplyAll(tasks, os, now), pid, ids) == Resolved(tasks, pid, ids)
  {
    var r := ApplyAll(tasks, os, now);
    assert forall k :: k in r ==> r[k].projectId == tasks[k].projectId;
  }
}
