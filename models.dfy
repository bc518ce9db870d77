/**
 * The `tasks` table row and the field constraints declared on it
 * (backend/src/models/task.py).
 *
 * The length constraints are declarations only: nothing in the service
 * checks them, so here they are predicates that lemmas assume, not guards
 * that operations apply.
 */
module Models {
  import opened Wrappers

  /** A UUID; the model only ever compares ids for equality. */
  type Uuid = nat

  /** A reading of the UTC clock; only the order of readings matters. */
  type Timestamp = int

  const MaxTitleLength := 255
  const MaxDescriptionLength := 1000

  /** One row of the `tasks` table: `TaskBase`'s three fields plus `Task`'s four. */
  datatype Task = Task(
    id: Uuid,
    title: string,
    description: Option<string>,
    completed: bool,
    userId: Uuid,
    createdAt: Timestamp,
    updatedAt: Timestamp)

  /** `TaskCreate`: the fields of `TaskBase`, which a caller supplies. */
  datatype TaskCreate = TaskCreate(title: string, description: Option<string>, completed: bool)

  /** `TaskUpdate`: every field optional; `None` means "leave as it is". */
  datatype TaskUpdate = TaskUpdate(title: Option<string>, description: Option<string>, completed: Option<bool>)

  /** `title: str = Field(min_length=1, max_length=255)` */
  predicate ValidTitle(title: string) {
    1 <= |title| <= MaxTitleLength
  }

  /** `description: Optional[str] = Field(default=None, max_length=1000)` */
  predicate ValidDescription(description: Option<string>) {
    description.None? || |description.value| <= MaxDescriptionLength
  }

  /** The declared constraints of `TaskBase`, as they bear on a stored row. */
  predicate SatisfiesFieldConstraints(t: Task) {
    ValidTitle(t.title) && ValidDescription(t.description)
  }

  /** The declared constraints of `TaskCreate`, inherited from `TaskBase`. */
  predicate ValidTaskCreate(c: TaskCreate) {
    ValidTitle(c.title) && ValidDescription(c.description)
  }

  /** The declared constraints of `TaskUpdate`: they bind only a present field. */
  predicate ValidTaskUpdate(p: TaskUpdate) {
    (p.title.Some? ==> ValidTitle(p.title.value)) && ValidDescription(p.description)
  }

  /** `updated_at >= created_at`; it holds only as long as the clock never runs backwards. */
  predicate TimeOrdered(t: Task) {
    t.createdAt <= t.updatedAt
  }

  /**
   * `Task(title=..., description=..., completed=..., user_id=...)`: the row
   * the constructor builds, its id drawn from `uuid4` and both timestamps
   * from the clock (`id` and `now` stand for those default factories).
   */
  function NewTask(c: TaskCreate, id: Uuid, userId: Uuid, now: Timestamp): Task {
    Task(id, c.title, c.description, c.completed, userId, now, now)
  }

  /**
   * A new row carries exactly what the caller supplied, under the given owner
   * and id, with both timestamps equal; it satisfies the declared field
   * constraints exactly when the request did.
   */
  lemma NewTaskFields(c: TaskCreate, id: Uuid, userId: Uuid, now: Timestamp)
    ensures var t := NewTask(c, id, userId, now);
      && TaskCreate(t.title, t.description, t.completed) == c
      && t.id == id && t.userId == userId
      && t.createdAt == t.updatedAt == now
      && TimeOrdered(t)
      && (SatisfiesFieldConstraints(t) <==> ValidTaskCreate(c))
  {
  }
}
