/**
 * Request and response shapes of the task API (backend/src/api/schemas/task.py).
 *
 * The request schemas have the same fields as the table model's `TaskCreate`
 * and `TaskUpdate` but declare no length constraints, so any string passes.
 */
module Schemas {
  import opened Wrappers
  import opened Models

  /** `TaskCreateRequest`: `title` required, `description` and `completed` with defaults. */
  type TaskCreateRequest = TaskCreate

  /** `TaskUpdateRequest`: the patch; each field optional and `None` by default. */
  type TaskUpdateRequest = TaskUpdate

  /** `TaskToggleCompleteRequest`: a required flag that the service never reads. */
  datatype TaskToggleCompleteRequest = TaskToggleCompleteRequest(completed: bool)

  /** `TaskResponse`: all seven task fields; only `description` may be `None`. */
  datatype TaskResponse = TaskResponse(
    id: Uuid,
    title: string,
    description: Option<string>,
    completed: bool,
    userId: Uuid,
    createdAt: Timestamp,
    updatedAt: Timestamp)

  /** A create request as pydantic builds it from a body that may omit the defaulted fields. */
  function CreateRequest(title: string, description: Option<string> := None, completed: bool := false): TaskCreateRequest {
    TaskCreate(title, description, completed)
  }

  /** An update request as pydantic builds it from a body that may omit any field. */
  function UpdateRequest(title: Option<string> := None, description: Option<string> := None,
                         completed: Option<bool> := None): TaskUpdateRequest {
    TaskUpdate(title, description, completed)
  }

  /** The seven-field record the service returns for a stored row. */
  function ToResponse(t: Task): TaskResponse {
    TaskResponse(t.id, t.title, t.description, t.completed, t.userId, t.createdAt, t.updatedAt)
  }

  /** A body with only a title yields no description and an incomplete task. */
  lemma CreateRequestDefaults(title: string)
    ensures CreateRequest(title).title == title
    ensures CreateRequest(title).description == None
    ensures !CreateRequest(title).completed
  {
  }

  /** A body with no fields yields the patch that changes nothing. */
  lemma UpdateRequestDefaults()
    ensures var p := UpdateRequest();
      p.title.None? && p.description.None? && p.completed.None?
  {
  }

  /**
   * The request schemas declare no length constraints: a create request or
   * a patch with an empty title, or an over-long description, is a
   * well-formed request even though the table model's constraints reject it.
   */
  lemma RequestsAreUnconstrained(longText: string)
    requires |longText| > MaxDescriptionLength
    ensures !ValidTaskCreate(CreateRequest(""))
    ensures !ValidTaskCreate(CreateRequest("t", Some(longText)))
    ensures !ValidTaskUpdate(UpdateRequest(title := Some("")))
    ensures !ValidTaskUpdate(UpdateRequest(description := Some(longText)))
  {
  }

  /** A response carries every field of the row: two rows give the same response only if they are equal. */
  lemma ResponseKeepsEveryField(a: Task, b: Task)
    ensures ToResponse(a) == ToResponse(b) <==> a == b
  {
  }
}
