/**
 * The two persisted records, Task and Project, with their enumerations and defaults.
 * Enumerated string fields become datatypes, so a stored value is always one of the listed ones.
 */
module Schema {
  import opened Wrappers

  /** Record identities. Projects and tasks draw them from one counter standing for ObjectIds. */
  type ProjectId = nat
  type TaskId = nat
  type UserId = nat

  /** `priority` of a task: one of high, medium, low. */
  datatype Priority = High | Medium | Low

  /** `status` of a task: one of todo, inprogress, done. No transition graph is imposed. */
  datatype Status = Todo | InProgress | Done

  /** `visibility` of a project: one of private, team, public. */
  datatype Visibility = Private | Team | Public

  /** The free-form `metadata` object of a project; the only values the handlers store are numbers or null. */
  type Metadata = map<string, Option<int>>

  /** Hour estimates are numbers; the model keeps them as integers. */
  datatype Task = Task(
    id: TaskId,
    projectId: ProjectId,
    title: string,
    description: string,
    estimatedHours: int,
    priority: Priority,
    status: Status,
    order: int,
    assignee: Option<UserId>,
    createdAt: nat,
    updatedAt: nat)

  datatype Project = Project(
    id: ProjectId,
    title: string,
    description: string,
    owner: UserId,
    visibility: Visibility,
    metadata: Metadata,
    createdAt: nat,
    updatedAt: nat)

  // Schema defaults
  const DefaultDescription: string := ""
  const DefaultEstimatedHours: int := 0
  const DefaultPriority: Priority := Medium
  const DefaultStatus: Status := Todo
  const DefaultOrder: int := 0
  const DefaultVisibility: Visibility := Private

  /** The key under which the generated-project handler records the overall hour estimate. */
  const EstimatedTotalHoursKey: string := "estimatedTotalHours"

  /**
   * What saving a task checks: a `required` string must be present and non-empty.
   * `projectId` is always present in the model; the enumerations hold by their types.
   */
  predicate ValidTask(t: Task) {
    t.title != ""
  }

  /** What saving a project checks: a non-empty `title` (the `owner` is always present in the model). */
  predicate ValidProject(p: Project) {
    p.title != ""
  }

  /**
   * A task as the schema builds it when only its required fields are given:
   * every optional field takes its default and both timestamps are the creation time.
   */
  function TaskWithDefaults(id: TaskId, projectId: ProjectId, title: string, now: nat): (t: Task)
    ensures t.id == id && t.projectId == projectId && t.title == title
    ensures t.description == "" && t.estimatedHours == 0 && t.priority == Medium
    ensures t.status == Todo && t.order == 0 && t.assignee == None
    ensures t.createdAt == now && t.updatedAt == now
    ensures ValidTask(t) <==> title != ""
  {
    Task(id, projectId, title, DefaultDescription, DefaultEstimatedHours, DefaultPriority,
         DefaultStatus, DefaultOrder, None, now, now)
  }

  /**
   * A project as the schema builds it when only title and owner are given:
   * empty description, private visibility, empty metadata.
   */
  function ProjectWithDefaults(id: ProjectId, title: string, owner: UserId, now: nat): (p: Project)
    ensures p.id == id && p.title == title && p.owner == owner
    ensures p.description == "" && p.visibility == Private && p.metadata == map[]
    ensures p.createdAt == now && p.updatedAt == now
    ensures ValidProject(p) <==> title != ""
  {
    Project(id, title, DefaultDescription, owner, DefaultVisibility, map[], now, now)
  }
}
