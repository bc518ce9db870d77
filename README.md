# Task store of the to-do API, in Dafny

This project models the backend's task store. It does ownership-scoped create, read, list, update, delete and completion toggle over the `tasks` table.

The files and what each one models:

- `wrappers.dfy`: `Option`, which stands for Python's `Optional[...]`.
- `models.dfy`: the `Task` row and its declared field constraints. It also covers the `TaskCreate` and `TaskUpdate` shapes (`backend/src/models/task.py`).
- `schemas.dfy`: the API's request and response shapes and their defaults (`backend/src/api/schemas/task.py`).
- `services.dfy`: `TaskService` (`backend/src/services/task_service.py`).
  - The class holds the table as a map from task id to row.
  - Each service operation is a method that returns the row or fails with `TaskNotFound`.
  - Pure functions describe the query, the two row changes and the three table transitions: `Select`, `ApplyPatch`, `Toggled`, `UpdateStep`, `DeleteStep` and `ToggleStep`.
  - Each mutating method is proved to produce exactly its transition's new table and answer. Lemmas prove the properties of the transitions.
- `scenarios.dfy`: client methods. They show what a caller can conclude from the contracts alone about typical request sequences: create then read back, cross-owner access, toggle twice, partial update, delete twice, and list scoping.

Behaviour the model keeps from the code:

- **Lookups.** Every lookup is one filter on `(id, user_id)`. A task owned by someone else is indistinguishable from a missing one, and both give `TaskNotFound`. `InsufficientPermissionException` is imported but never raised, so the model has no permission error.
- **Update.**
  - `update_task` adds the owner filter only when an owner is given. The model takes the owner as an `Option`.
  - Only the patch fields that are not `None` are assigned. So an update can never clear a description back to `None`.
  - `updated_at` is refreshed even for an empty patch.
- **Toggle.** Toggle always negates the stored flag. The request body's `completed` value is never read.
- **Delete.** Delete removes the row and answers `True`, or it raises. It never answers `False`.
- **Validation.** The length limits (title 1 to 255 characters, description at most 1000) are declared on the table model only. The request schemas declare none, and nothing in the service checks them. They are predicates in the model. The store keeps them only when the caller's requests already satisfy them. Lemmas show that the service passes a request with an empty title on to storage unchanged. Whether the database then accepts an over-long value is not modelled.

## Model

| member | source | states |
|---|---|---|
| `Models.NewTaskFields` | backend/src/models/task.py:10-21 | A new row carries exactly the supplied title, description and completed flag, with the given id and owner. Both timestamps are the creation time. It meets the declared field constraints exactly when the create request does. |
| `Schemas.CreateRequestDefaults` | backend/src/api/schemas/task.py:8-11 | A create request that has only a title gets description `None` and completed `false`. |
| `Schemas.UpdateRequestDefaults` | backend/src/api/schemas/task.py:14-17 | An update request with no fields is a patch in which every field is `None`. |
| `Schemas.RequestsAreUnconstrained` | backend/src/api/schemas/task.py:8-17 | The request schemas accept values the table model's constraints reject: an empty title, or a description over 1000 characters. This holds for both create and update. |
| `Schemas.ResponseKeepsEveryField` | backend/src/api/schemas/task.py:25-32 | A response carries all seven fields of the row. Two rows give equal responses exactly when the rows are equal. |
| `Services.SelectIsTheQuery` | backend/src/services/task_service.py:48-49 | The primary-key lookup finds nothing exactly when no row satisfies the `(id, user_id)` WHERE clause. Otherwise it finds the only row that does. |
| `Services.CrossOwnerLooksMissing` | backend/src/services/task_service.py:48-52 | A task owned by another user is not selected. The answer equals the one for a table without that task. |
| `Services.ListsAreDisjoint` | backend/src/services/task_service.py:69-70 | No task appears in two owners' lists. |
| `Services.OwnedIdsAfterInsert` | backend/src/services/task_service.py:21-30 | Inserting a new row adds its id to its owner's list, which grows by one. No other owner's list changes. |
| `Services.OwnedIdsAfterDelete` | backend/src/services/task_service.py:126-133 | Deleting a row removes its id from the list it was in. No other list changes. |
| `Services.PatchSetsOnlyPresentFields` | backend/src/services/task_service.py:99-106 | Each present patch field is assigned. Absent fields, the id, the owner and the creation time are unchanged. The update time becomes the new clock reading. |
| `Services.EmptyPatchOnlyRefreshes` | backend/src/services/task_service.py:98-106 | An empty patch changes the update time and nothing else. |
| `Services.PatchIsIdempotent` | backend/src/services/task_service.py:99-106 | Applying a patch twice gives the same row as applying it once at the later time. |
| `Services.PatchNeverClearsDescription` | backend/src/services/task_service.py:101-102 | No patch can turn a present description back into `None`. |
| `Services.PatchPreservesConstraints` | backend/src/services/task_service.py:99-104 | A patch that meets the declared constraints (backend/src/models/task.py:39-42) keeps a row within the length limits. |
| `Services.PatchPreservesTimeOrder` | backend/src/services/task_service.py:106 | If the clock has not run backwards, a patched row keeps `created_at <= updated_at`, and `updated_at` never moves back. |
| `Services.UncheckedPatchBreaksConstraints` | backend/src/services/task_service.py:99-100 | A patch with an empty title is applied as given, and the row leaves the declared constraints. |
| `Services.ToggleIsNegatingPatch` | backend/src/services/task_service.py:149-151 | Toggling gives the same row as an update that sets `completed` to the negation of the stored value. |
| `Services.ToggleTwiceRestores` | backend/src/services/task_service.py:149-151 | Toggling twice restores the completed flag and every other field except the update time. |
| `Services.UpdateStep` | backend/src/services/task_service.py:90-109 | Succeeds exactly when the id exists and either no owner is given or the owner matches. It then answers the patched row and stores it under the same id. The set of ids and every other row stay the same. On failure it answers `TaskNotFound(task_id)` and the table is unchanged. |
| `Services.DeleteStep` | backend/src/services/task_service.py:126-135 | Succeeds with `true` exactly when the caller owns the id, and removes exactly that id. Every remaining row is unchanged. On failure it answers `TaskNotFound(task_id)` and the table is unchanged. Afterwards a lookup of that id by the caller finds nothing. |
| `Services.ToggleStep` | backend/src/services/task_service.py:142-155 | Succeeds exactly when the caller owns the id. It then answers and stores the row with `completed` negated and `updated_at` set to now. Every other row stays the same. On failure it answers `TaskNotFound(task_id)` and the table is unchanged. |
| `Services.ScopedStepsSpareOtherOwners` | backend/src/services/task_service.py:90-151 | An update with an owner, a delete or a toggle leaves every row owned by someone else present and unchanged, whichever id was asked for. |
| `Services.UnscopedUpdateReachesEveryRow` | backend/src/services/task_service.py:90-93 | Without an owner, an update of any existing id succeeds, whoever owns the row, and the row keeps its owner. |
| `Services.ToggleStepTwice` | backend/src/services/task_service.py:142-151 | Toggling the same task twice succeeds both times. The table ends as before, except for that row's update time. |
| `Services.DeleteStepTwice` | backend/src/services/task_service.py:126-135 | The first delete answers `true`. A second delete of the same id then fails with `TaskNotFound` and changes nothing, and a lookup of the id finds nothing. |
| `Services.UpdateStepPreservesInvariants` | backend/src/services/task_service.py:90-109 | An update keeps every row within the declared constraints if the patch meets them. It keeps every row's timestamps ordered if the clock has not run backwards. |
| `Services.ToggleStepPreservesInvariants` | backend/src/services/task_service.py:142-155 | A toggle keeps every row within the declared constraints. It keeps timestamps ordered if the clock has not run backwards. |
| `Services.TaskService.CreateTask` | backend/src/services/task_service.py:16-41 | Adds exactly one row under the fresh id and changes no existing row. The row carries the request's title, description and completed flag, with the caller as owner and both timestamps set to now. The declared constraints and the time order are preserved, the constraints only for a valid request. |
| `Services.TaskService.GetTaskById` | backend/src/services/task_service.py:44-62 | Succeeds exactly when the id exists and the caller owns it, and then returns the stored row. Otherwise it fails with `TaskNotFound(task_id)`. |
| `Services.TaskService.GetTasksByUser` | backend/src/services/task_service.py:65-83 | Returns each of the caller's stored rows exactly once and nothing else. The length equals the number of rows the caller owns, so the list is empty when the caller owns none. |
| `Services.TaskService.UpdateTask` | backend/src/services/task_service.py:86-119 | Assigns the patch fields one at a time to a copy of the row, then stores the copy under the same id. The resulting table and answer are those of `UpdateStep`. The declared constraints are kept for a valid patch, and the time order is kept. |
| `Services.TaskService.DeleteTask` | backend/src/services/task_service.py:122-135 | The resulting table and answer are those of `DeleteStep`. |
| `Services.TaskService.ToggleTaskCompletion` | backend/src/services/task_service.py:138-165 | Negates the flag and stamps the row on a copy, then stores the copy under the same id. The resulting table and answer are those of `ToggleStep`. The declared constraints and the time order are kept. |
## Left out

- `backend/src/api/routes/tasks.py` (HTTP routing) is not part of this model. Three facts about it:
  - It ignores the toggle request body.
  - Its `else` branch after delete cannot be reached, because the service raises instead of answering `False`.
  - It always passes the caller's id to update, so the unscoped update path is not reachable over HTTP.
- SQLModel sessions, `commit`, `refresh` and storage faults are not modelled. The table is an in-memory map, and each operation is taken to be atomic.
- The column lengths are not enforced. `max_length` (backend/src/models/task.py:11-12) also sets each column's declared length (`VARCHAR(255)`, `VARCHAR(1000)`). A database backend that enforces those lengths rejects an over-long title or description at commit. The model stores such a value, so it does not capture that rejection.
- Concurrent requests (last write wins) are outside this sequential model.
- The wall clock is a `now` parameter. `updated_at >= created_at` is kept only as long as successive readings never decrease.
- The `Task` constructor's two default factories read the clock separately. The model gives both timestamps the same reading.
- The SQLAlchemy `onupdate` hook on `updated_at` is not modelled. The service always assigns the column itself.
- `uuid4` is replaced by a fresh id that the caller supplies, with a precondition that it is not already in the table.
- The `str(...)` conversions of ids in the returned dictionaries are not modelled. The service methods return the row record, which has the same seven fields as `TaskResponse`.
- Services.TaskService.UpdateTask: the owner is an `Option`, so only `None` skips the owner filter. In Python, any falsy owner value, such as an empty string, would also skip it. Ids are opaque here, so that case is not modelled.
- The row-level default `completed = False` (backend/src/models/task.py:13) is not used by the service, which always passes the request's value. The request default is modelled instead.
- `TaskRead`, `TaskToggleComplete`, `TaskListResponse` and `MessageResponse` are not modelled because no modelled operation reads them. `TaskToggleCompleteRequest` is declared but never read.
- Authentication (`get_current_user`) and the exceptions module are not part of this model. The owner id is taken as given.
- The frontend is not part of this model. Its form limits titles to 200 characters (frontend/src/components/tasks/TaskForm.tsx:10), while the backend declares 255.
