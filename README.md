# GoalToTaskAI server: projects and tasks

This project models the part of the GoalToTaskAI server that stores projects and their tasks:

- the two Mongoose schemas (`Project`, `Task`) with their defaults and required fields;
- the six project handlers: create, create from a generated plan, list, get, update, delete;
- the five task handlers: create, get, update, delete, bulk reorder.

The store is a class `Store.Store` with three fields:

- `projects`, the projects collection as a map from id to record;
- `tasks`, the tasks collection as a map from id to record;
- `clock`, one counter that hands out ids and timestamps.

Each handler is a method of the class (or a function when it only reads). It takes the requester's user id and the request's fields, and returns a `Result` or an `Outcome` whose error is one of `BadRequest` (400), `NotFound` (404), `AccessDenied` (403) or `ValidationFailed` (a schema violation). Every handler method keeps the store invariant `Valid()`:

- every record is stored under its own id, which is below the counter;
- every record passes its schema check (a non-empty title);
- every task belongs to a stored project.

A database transaction (create-from-plan, delete, bulk reorder) is one method. Either every write it makes is applied, or the store is left exactly as it was (`State() == old(State())`).

The value-level rules live in modules of their own:

- `Schema`: records, enumerations and defaults.
- `TaskRules`: the update allow-list, where an appended task goes, and the reorder check and batch.
- `ProjectRules`: the records a plan creates, project updates, cascade delete, paging and ordering.
- `Selection`: scanning a collection by a filter.
- `Ordering`: sorting by a compound key.

Modelling choices:

- Ids and `createdAt` come from the same counter. So a record's id is its creation time, and records created earlier have smaller ids.
- The listing and task queries are modelled as a scan of the ids below the counter (`Selection.Select`). A `find` with a sort is that scan followed by an insertion sort on the query's sort key. The `findOne` sorted by descending order that places a new task is the largest `order` the scan yields (`TaskRules.MaxOrder`).
- The lookup of bulkReorder (`find` by a list of ids within one project) is modelled as the set of named ids that are stored tasks of the project (`TaskRules.Resolved`); its result is only counted, so its order does not matter.
- Saving a document none of whose fields changed writes nothing, as in Mongoose: an update that supplies only the stored values leaves the store, timestamps included, as it was.
- The AI service that produces plans, authentication and HTTP wiring are inputs or are left out (see below).

## Model

| member | source | states |
|---|---|---|
| Schema.TaskWithDefaults | models/Task.js:4-13 | a task built from its required fields has description "", 0 hours, medium priority, status todo, order 0, no assignee, both timestamps set to creation time; it passes the schema check exactly when its title is non-empty |
| Schema.ProjectWithDefaults | models/Project.js:4-10 | a project built from title and owner has description "", private visibility, empty metadata, both timestamps set to creation time; it passes the schema check exactly when its title is non-empty |
| Selection.SelectKeys | controllers/projectController.js:94 | scanning ids below the counter yields, strictly ascending, exactly the ids whose record matches the filter |
| Selection.SelectKeysCount | controllers/projectController.js:93 | the scan yields as many ids as there are matching records |
| Selection.Select | controllers/projectController.js:94 | a query returns only matching stored records, every matching record, and one entry per matching id |
| Ordering.Insert | controllers/projectController.js:114 | inserting adds exactly one occurrence of the element (multiset) |
| Ordering.InsertAtLeast | controllers/projectController.js:114 | inserting keeps any common lower bound of the keys |
| Ordering.InsertSorted | controllers/projectController.js:114 | inserting into a sorted sequence keeps it sorted |
| Ordering.SortBy | controllers/projectController.js:94 | a sort returns a sorted permutation of its input |
| Ordering.SortByMembers | controllers/projectController.js:114 | a sort keeps exactly the elements it is given (both directions) |
| ProjectRules.GeneratedMetadata | controllers/projectController.js:45 | the metadata has only the `estimatedTotalHours` key; it is null exactly when the estimate is absent or 0, and equals the estimate otherwise |
| ProjectRules.TaskDocs | controllers/projectController.js:51-59 | the i-th record of a plan has order i, status todo, the project's id, the spec's title, and the spec's description, hours and priority or their defaults; ids are consecutive |
| ProjectRules.ApplyProjectPatch | controllers/projectController.js:133-134 | an update writes the supplied title, description and visibility only; id, owner, metadata and creation time are kept |
| ProjectRules.ChangesNothingIff | controllers/projectController.js:133-134 | an update modifies no path exactly when copying the supplied fields leaves the project as it was |
| ProjectRules.WithoutProject | controllers/projectController.js:152 | the cascade delete keeps exactly the tasks of other projects, unchanged |
| ProjectRules.CascadeCount | controllers/projectController.js:152 | the tasks that remain plus those of the project add up to all tasks |
| ProjectRules.PageWindow | controllers/projectController.js:84-86 | page defaults to 1 and is at least 1; page size defaults to 20 and is capped at 100; skip is (page-1)*limit |
| ProjectRules.Slice | controllers/projectController.js:94 | skip-then-limit yields at most `limit` records, in order, starting at position `skip` |
| ProjectRules.Paginate | controllers/projectController.js:92-97 | `total` counts the whole listing; the page holds the records after the earlier pages, in order, with the exact length that implies; a page of a newest-first listing is newest first |
| ProjectRules.SortTasks | controllers/projectController.js:114 | tasks are arranged by ascending order, then ascending creation time, as a permutation of the found tasks |
| ProjectRules.SortNewestFirst | controllers/projectController.js:94 | projects are arranged by descending creation time, as a permutation of the found projects |
| TaskRules.SetField | controllers/taskController.js:67 | one assignment writes the supplied value of its own field only; every other field, the identity, the project and the timestamps are kept |
| TaskRules.SetFieldStep | controllers/taskController.js:66-68 | writing one more allow-listed field extends the patched-over fields by that field |
| TaskRules.AllowedDistinct | controllers/taskController.js:65 | no field occurs twice on the allow-list |
| TaskRules.PatchTask | controllers/taskController.js:65-68 | every supplied allow-listed field is written, every other field keeps its value; `projectId`, id and creation time cannot change |
| TaskRules.MaxOrder | controllers/taskController.js:16 | the largest order among the project's tasks, absent exactly when there are none |
| TaskRules.NextOrder | controllers/taskController.js:16-17 | an appended task's order is 0 in an empty project, otherwise one more than the largest order, so above every existing order |
| TaskRules.TaskIdsOf | controllers/taskController.js:111 | the ids named by a batch, position by position |
| TaskRules.DistinctCount | controllers/taskController.js:118 | a list has as many distinct values as entries exactly when none repeats |
| TaskRules.SubsetNoLarger | controllers/taskController.js:118 | a subset is no larger |
| TaskRules.ProperSubsetSmaller | controllers/taskController.js:118 | a proper subset is smaller |
| TaskRules.Resolved | controllers/taskController.js:113-116 | the lookup finds only named tasks of the project, every named task of the project, each once, so at most as many as ids were named |
| TaskRules.ResolvedCountIff | controllers/taskController.js:113-120 | the count check passes exactly when the ids are distinct and each names a task of the project |
| TaskRules.Reassigned | controllers/taskController.js:122-132 | one `$set` writes the new order, the new status when one is given, and the update time, and nothing else |
| TaskRules.ApplyAll | controllers/taskController.js:134 | a bulk write keeps the set of task ids and changes at most order, status and update time |
| TaskRules.ApplyAllMisses | controllers/taskController.js:122-134 | a task the batch does not name is unchanged |
| TaskRules.ApplyAllHits | controllers/taskController.js:122-134 | with distinct ids, the task at position i receives assignment i |
| TaskRules.ApplyAllEffect | controllers/taskController.js:122-134 | named tasks receive their assignments and all other tasks are unchanged |
| TaskRules.ApplyTwiceHit | controllers/taskController.js:122-134 | a named task ends the same after the batch twice as after it once |
| TaskRules.ApplyTwiceMiss | controllers/taskController.js:122-134 | an unnamed task ends the same after the batch twice as after it once |
| TaskRules.ApplyTwiceAgrees | controllers/taskController.js:122-134 | every stored task ends the same after the batch twice as after it once |
| TaskRules.ApplyAllIdempotent | controllers/taskController.js:122-134 | a valid reorder batch applied twice leaves the same collection as applied once |
| TaskRules.ApplyAllKeepsMembership | controllers/taskController.js:113-116 | a bulk write never moves a task to another project, so the same batch passes the check again |
| Store.InsertKeepsConsistent | controllers/projectController.js:61 | adding valid tasks of stored projects under fresh consecutive ids keeps the store consistent |
| Store.Store.ProjectAccess | controllers/projectController.js:107-112 | NotFound for a missing project, AccessDenied for another owner's project, otherwise the project; existence is checked first |
| Store.Store.ProjectTasks | controllers/projectController.js:114 | exactly the stored tasks of the project |
| Store.Store.ProjectTasksCount | controllers/projectController.js:114 | in a valid store, one entry per task of the project |
| Store.Store.CreateProject | controllers/projectController.js:11-23 | a project with an empty title is rejected and nothing is written; otherwise a new project under a fresh id, owned by the requester, with visibility and description defaulted and nothing else changed |
| Store.Store.CreateProjectFromAI | controllers/projectController.js:30-76 | a missing or empty plan is BadRequest; an empty project or task title aborts with ValidationFailed and the store unchanged; otherwise the project, created and updated at the current time, and its tasks (orders 0..n-1, status todo) are all added under fresh ids and every old record is kept |
| Store.Store.WriteProject | controllers/projectController.js:40-46 | the project is added under the next id, which was free, and the tasks are untouched |
| Store.Store.InsertProjectTasks | controllers/projectController.js:61 | the records are added under consecutive fresh ids, old records are kept, and the store stays valid |
| Store.Store.InsertTasks | controllers/projectController.js:61 | each record is written under its id in turn; afterwards the collection is the old one plus exactly these records |
| Store.Store.Listing | controllers/projectController.js:88-94 | exactly the requester's projects with the requested visibility, each once, newest first |
| Store.Store.ListedCount | controllers/projectController.js:93 | the listing has one entry per matching project |
| Store.Store.ListProjects | controllers/projectController.js:82-99 | `total` counts all the requester's matching projects; page and size are the defaulted, clamped request values; the page holds min(limit, total - skip) projects, none when skip >= total, and the i-th is the listing's entry at position skip + i, where skip = (page-1)*limit; the page shows only such projects, newest first |
| Store.Store.ListedPage | controllers/projectController.js:92-97 | a page of the listing counts every matching project and shows only the requester's matching projects, newest first |
| Store.Store.WindowedPage | controllers/projectController.js:84-97 | the page a request selects reports the defaulted page and size, counts the whole listing, and shows the listing's entries from position skip onwards, min(limit, total - skip) of them and none when skip >= total |
| Store.Store.GetProject | controllers/projectController.js:104-118 | NotFound, then AccessDenied; on success the project with exactly its tasks, each once, by ascending order then creation time |
| Store.Store.UpdateProject | controllers/projectController.js:124-137 | NotFound, then AccessDenied, then ValidationFailed for an empty title, each leaving the store unchanged; an update that changes no field writes nothing; otherwise only the supplied fields of that project change, never its owner, and its update time is stamped |
| Store.Store.DeleteProject | controllers/projectController.js:142-162 | NotFound or AccessDenied leave the store unchanged; on success the project and all its tasks are gone and nothing else changes |
| Store.Store.CreateTask | controllers/taskController.js:6-35 | NotFound, then AccessDenied, then ValidationFailed for an empty title, each creating nothing; on success one new task of the project, status todo, ordered after every existing task of the project, with defaults for omitted fields |
| Store.Store.GetTask | controllers/taskController.js:37-52 | NotFound for a missing task; AccessDenied when its project is missing or another user's; otherwise the task |
| Store.Store.UpdateTask | controllers/taskController.js:54-75 | the getTask checks, then ValidationFailed for an empty title, each leaving the store unchanged; on success the result carries the supplied allow-listed fields; an update that changes no field writes nothing, otherwise that one task is written with a new update time |
| Store.Store.DeleteTask | controllers/taskController.js:77-93 | the getTask checks leave the store unchanged; on success exactly that task is removed |
| Store.Store.ApplyBatch | controllers/taskController.js:122-134 | the loop of single updates yields the bulk write `ApplyAll` of the batch, and nothing else changes |
| Store.Store.BulkReorder | controllers/taskController.js:95-145 | BadRequest for a missing project id or list; NotFound; AccessDenied; BadRequest unless the ids are distinct tasks of the project; every rejection leaves the store unchanged; on success each named task takes its order and optional status, all else is unchanged (an empty list passes and changes no task) |

## Left out

- Database failures (a failed write, a commit conflict, a time-out) are not modelled: apart from the schema check, every database write succeeds. So Store.Store.DeleteProject and Store.Store.BulkReorder cannot abort after their checks pass, and the rollback of their catch blocks (projectController.js lines 157-160, taskController.js lines 140-143) is never taken; only Store.Store.CreateProjectFromAI aborts, on a schema violation (lines 71-74).
- Database sessions and concurrency: each transaction is one atomic method, so interleavings with other requests are not modelled.
- deleteProject's NotFound and AccessDenied returns (projectController.js lines 148-151) end the request without aborting the open session. This has no effect on stored data, so it is not modelled.
- Authentication, JWT handling, password hashing, the user model and the AI service: the requester's id and the plan are inputs.
- Joi request validation (middleware/validate.js): the model handles every input the handlers themselves handle, except for the preconditions listed below. The store's own schema check (a non-empty title) is modelled.
- Express wiring and response shaping are not modelled: status codes become the `Error` values, and the re-read of the created project at projectController.js lines 67-68 is not modelled.
- The HTTP status of a schema violation depends on an error-handling middleware that is not part of this model, so `ValidationFailed` carries no status.
- Database ids are modelled as counter values. Malformed ids (a cast error) are not modelled.
- Hours and orders are JavaScript numbers; the model uses integers, so fractional values are not represented.
- A visibility filter string outside the enumeration is not modelled: such a filter would match nothing.
- ProjectRules.PageWindow: requires a page size of at least 1, for the reason given in the next line.
- Store.Store.ListProjects: requires a page size of at least 1. `parseInt` of a non-number and a size of 0 or less (where the database would apply no limit or a different one) are not modelled.
- Store.Store.UpdateProject, Store.Store.UpdateTask: a field counts as changed when its new value differs from the stored one. Mongoose's finer rules (casting, marking a path modified by hand) are not modelled.
- Store.Store.BulkReorder: an empty order list, which the route's schema rejects (`min(1)` at routes/tasks.js lines 35-44), is handled as the handler is written: the check at line 118 passes and the batch changes no task. Whether the database call accepts an empty batch is outside this model.
- Sorting breaks ties between equal keys by id: descending for listings and ascending for tasks. The database leaves the order of equal keys unspecified.
