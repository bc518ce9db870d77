/**
 * The task store (backend/src/services/task_service.py): ownership-scoped
 * create, read, list, update, delete and toggle over the `tasks` table.
 *
 * The table is a map from primary key to row. Every lookup is one filtered
 * query on `(id, user_id)`; a row that exists under another owner is not
 * selected, so the caller sees the same `TaskNotFound` as for a missing id.
 */
module Services {
  import opened Wrappers
  import opened Models
  import opened Schemas

  /** `TaskNotFoundException(task_id)`, the only error the service raises. */
  datatype TaskError = TaskNotFound(taskId: Uuid)

  datatype Result<T> = Ok(value: T) | Err(error: TaskError)

  /** The primary key: each row is stored under its own id. */
  ghost predicate KeyedById(db: map<Uuid, Task>) {
    forall id :: id in db ==> db[id].id == id
  }

  /** Every stored row satisfies the declared field constraints. */
  ghost predicate TableConstrained(db: map<Uuid, Task>) {
    forall id :: id in db ==> SatisfiesFieldConstraints(db[id])
  }

  /** Every stored row has `created_at <= updated_at <= now`. */
  ghost predicate TableTimelyAt(db: map<Uuid, Task>, now: Timestamp) {
    forall id :: id in db ==> TimeOrdered(db[id]) && db[id].updatedAt <= now
  }

  // ---------------------------------------------------------------------
  // Queries

  /** The WHERE clause `Task.id == task_id`, with `Task.user_id == user_id` when an owner is given. */
  predicate Where(t: Task, taskId: Uuid, owner: Option<Uuid>) {
    t.id == taskId && (owner.None? || t.userId == owner.value)
  }

  /** The rows a `select(Task).where(...)` statement returns. */
  ghost function RowsWhere(db: map<Uuid, Task>, taskId: Uuid, owner: Option<Uuid>): set<Task> {
    set t | t in db.Values && Where(t, taskId, owner)
  }

  /** `session.exec(statement).first()`, answered by a primary-key lookup. */
  function Select(db: map<Uuid, Task>, taskId: Uuid, owner: Option<Uuid>): Option<Task> {
    if taskId in db && Where(db[taskId], taskId, owner) then Some(db[taskId]) else None
  }

  /**
   * The keyed lookup is the query: it finds nothing exactly when no row
   * satisfies the WHERE clause, and otherwise the one row that does, so
   * `.first()` never has a choice to make.
   */
  lemma SelectIsTheQuery(db: map<Uuid, Task>, taskId: Uuid, owner: Option<Uuid>)
    requires KeyedById(db)
    ensures Select(db, taskId, owner).None? <==> RowsWhere(db, taskId, owner) == {}
    ensures Select(db, taskId, owner).Some? ==> RowsWhere(db, taskId, owner) == {Select(db, taskId, owner).value}
  {
    var rows := RowsWhere(db, taskId, owner);
    if Select(db, taskId, owner).Some? {
      var t := db[taskId];
      assert t in rows;
      forall u | u in rows ensures u == t {
        var k :| k in db && db[k] == u;
      }
    } else {
      forall u | u in db.Values ensures !Where(u, taskId, owner) {
        var k :| k in db && db[k] == u;
      }
    }
  }

  /**
   * Ownership isolation: a task owned by someone else is not selected, and
   * the answer is the one the caller would get if the task did not exist at
   * all, whatever else the caller owns.
   */
  lemma CrossOwnerLooksMissing(db: map<Uuid, Task>, taskId: Uuid, caller: Uuid)
    requires taskId in db && db[taskId].userId != caller
    ensures Select(db, taskId, Some(caller)) == None
    ensures Select(db, taskId, Some(caller)) == Select(db - {taskId}, taskId, Some(caller))
  {
  }

  /** The ids the list query `select(Task).where(Task.user_id == user_id)` returns. */
  ghost function OwnedIds(db: map<Uuid, Task>, owner: Uuid): set<Uuid> {
    set id | id in db && db[id].userId == owner
  }

  /** Two owners' lists never share a task. */
  lemma ListsAreDisjoint(db: map<Uuid, Task>, a: Uuid, b: Uuid)
    requires a != b
    ensures OwnedIds(db, a) !! OwnedIds(db, b)
  {
  }

  /** Creating a task adds it to its owner's list and to no one else's. */
  lemma OwnedIdsAfterInsert(db: map<Uuid, Task>, t: Task, owner: Uuid)
    requires t.id !in db
    ensures OwnedIds(db[t.id := t], owner) == if t.userId == owner then OwnedIds(db, owner) + {t.id} else OwnedIds(db, owner)
    ensures t.userId == owner ==> |OwnedIds(db[t.id := t], owner)| == |OwnedIds(db, owner)| + 1
  {
  }

  /** Deleting a task removes it from its owner's list and changes no one else's. */
  lemma OwnedIdsAfterDelete(db: map<Uuid, Task>, taskId: Uuid, owner: Uuid)
    requires taskId in db
    ensures OwnedIds(db - {taskId}, owner) == OwnedIds(db, owner) - {taskId}
  {
  }

  // ---------------------------------------------------------------------
  // Row transitions

  /** Lines 99-106: assign each non-`None` patch field, then stamp the row. */
  function ApplyPatch(t: Task, p: TaskUpdate, now: Timestamp): Task {
    t.(title := p.title.GetOr(t.title),
       description := if p.description.Some? then p.description else t.description,
       completed := p.completed.GetOr(t.completed),
       updatedAt := now)
  }

  /**
   * A patch sets exactly its present fields; absent fields, the id, the
   * owner and the creation time keep their values; the update time is
   * always the new clock reading.
   */
  lemma PatchSetsOnlyPresentFields(t: Task, p: TaskUpdate, now: Timestamp)
    ensures var u := ApplyPatch(t, p, now);
      && u.id == t.id && u.userId == t.userId && u.createdAt == t.createdAt
      && u.updatedAt == now
      && (p.title.Some? ==> u.title == p.title.value) && (p.title.None? ==> u.title == t.title)
      && (p.description.Some? ==> u.description == p.description) && (p.description.None? ==> u.description == t.description)
      && (p.completed.Some? ==> u.completed == p.completed.value) && (p.completed.None? ==> u.completed == t.completed)
  {
  }

  /** An empty patch still refreshes the update time, and changes nothing else. */
  lemma EmptyPatchOnlyRefreshes(t: Task, now: Timestamp)
    ensures ApplyPatch(t, UpdateRequest(), now) == t.(updatedAt := now)
  {
  }

  /** Applying the same patch twice is applying it once, at the later time. */
  lemma PatchIsIdempotent(t: Task, p: TaskUpdate, first: Timestamp, second: Timestamp)
    ensures ApplyPatch(ApplyPatch(t, p, first), p, second) == ApplyPatch(t, p, second)
  {
  }

  /** `None` means "leave unchanged", so no patch can take a description away. */
  lemma PatchNeverClearsDescription(t: Task, p: TaskUpdate, now: Timestamp)
    requires t.description.Some?
    ensures ApplyPatch(t, p, now).description.Some?
  {
  }

  /** A patch within the declared constraints keeps a row within them. */
  lemma PatchPreservesConstraints(t: Task, p: TaskUpdate, now: Timestamp)
    requires SatisfiesFieldConstraints(t) && ValidTaskUpdate(p)
    ensures SatisfiesFieldConstraints(ApplyPatch(t, p, now))
  {
  }

  /** A clock that has not run backwards keeps a patched row's timestamps ordered, and never moves `updated_at` back. */
  lemma PatchPreservesTimeOrder(t: Task, p: TaskUpdate, now: Timestamp)
    requires TimeOrdered(t) && t.updatedAt <= now
    ensures TimeOrdered(ApplyPatch(t, p, now)) && t.updatedAt <= ApplyPatch(t, p, now).updatedAt
  {
  }

  /** Nothing checks a patch: an empty title is written to the row as given. */
  lemma UncheckedPatchBreaksConstraints(t: Task, now: Timestamp)
    ensures !SatisfiesFieldConstraints(ApplyPatch(t, UpdateRequest(title := Some("")), now))
  {
  }

  /** Lines 149-151: negate the stored flag and stamp the row. */
  function Toggled(t: Task, now: Timestamp): Task {
    t.(completed := !t.completed, updatedAt := now)
  }

  /** Toggling is the update that sets `completed` to the negation of its stored value. */
  lemma ToggleIsNegatingPatch(t: Task, now: Timestamp)
    ensures Toggled(t, now) == ApplyPatch(t, UpdateRequest(completed := Some(!t.completed)), now)
  {
  }

  /** Toggling twice restores the flag and every other field except the update time. */
  lemma ToggleTwiceRestores(t: Task, first: Timestamp, second: Timestamp)
    ensures Toggled(Toggled(t, first), second) == t.(updatedAt := second)
  {
  }

  // ---------------------------------------------------------------------
  // Table transitions

  /** What a mutating operation leaves behind: the new table and its answer. */
  datatype Step<T> = Step(db: map<Uuid, Task>, result: Result<T>)

  /**
   * Lines 90-109: select by id, and by owner only when one is given; on a
   * hit, write back the patched row.
   */
  function UpdateStep(db: map<Uuid, Task>, taskId: Uuid, p: TaskUpdate, owner: Option<Uuid>, now: Timestamp): (s: Step<Task>)
    requires KeyedById(db)
    ensures s.result.Ok? <==> taskId in db && (owner.None? || db[taskId].userId == owner.value)
    ensures s.result.Ok? ==> s.result.value == ApplyPatch(db[taskId], p, now)
    ensures s.result.Err? ==> s.result.error == TaskNotFound(taskId) && s.db == db
    ensures s.db.Keys == db.Keys && KeyedById(s.db)
    ensures forall id :: id in db && id != taskId ==> s.db[id] == db[id]
    ensures s.result.Ok? ==> s.db[taskId] == s.result.value
  {
    match Select(db, taskId, owner)
    case None => Step(db, Err(TaskNotFound(taskId)))
    case Some(t) =>
      var u := ApplyPatch(t, p, now);
      Step(db[taskId := u], Ok(u))
  }

  /** Lines 126-135: remove the caller's row and answer `True`; there is no `False` answer. */
  function DeleteStep(db: map<Uuid, Task>, taskId: Uuid, owner: Uuid): (s: Step<bool>)
    requires KeyedById(db)
    ensures s.result.Ok? <==> taskId in db && db[taskId].userId == owner
    ensures s.result.Ok? ==> s.result.value
    ensures s.result.Err? ==> s.result.error == TaskNotFound(taskId) && s.db == db
    ensures s.result.Ok? ==> s.db.Keys == db.Keys - {taskId}
    ensures forall id :: id in s.db ==> id in db && s.db[id] == db[id]
    ensures KeyedById(s.db) && Select(s.db, taskId, Some(owner)).None?
  {
    match Select(db, taskId, Some(owner))
    case None => Step(db, Err(TaskNotFound(taskId)))
    case Some(_) => Step(db - {taskId}, Ok(true))
  }

  /** Lines 142-155: negate the caller's row's flag and write it back. */
  function ToggleStep(db: map<Uuid, Task>, taskId: Uuid, owner: Uuid, now: Timestamp): (s: Step<Task>)
    requires KeyedById(db)
    ensures s.result.Ok? <==> taskId in db && db[taskId].userId == owner
    ensures s.result.Ok? ==> s.result.value == Toggled(db[taskId], now)
    ensures s.result.Ok? ==> s.result.value.completed == !db[taskId].completed
    ensures s.result.Err? ==> s.result.error == TaskNotFound(taskId) && s.db == db
    ensures s.db.Keys == db.Keys && KeyedById(s.db)
    ensures forall id :: id in db && id != taskId ==> s.db[id] == db[id]
    ensures s.result.Ok? ==> s.db[taskId] == s.result.value
  {
    match Select(db, taskId, Some(owner))
    case None => Step(db, Err(TaskNotFound(taskId)))
    case Some(t) =>
      var u := Toggled(t, now);
      Step(db[taskId := u], Ok(u))
  }

  /**
   * Ownership isolation for every scoped mutation: whatever a caller asks
   * to update, delete or toggle, each row owned by someone else is still
   * there and unchanged afterwards.
   */
  lemma ScopedStepsSpareOtherOwners(db: map<Uuid, Task>, taskId: Uuid, caller: Uuid,
                                      p: TaskUpdate, now: Timestamp, other: Uuid)
    requires KeyedById(db)
    requires other in db && db[other].userId != caller
    ensures var u := UpdateStep(db, taskId, p, Some(caller), now).db; other in u && u[other] == db[other]
    ensures var d := DeleteStep(db, taskId, caller).db; other in d && d[other] == db[other]
    ensures var t := ToggleStep(db, taskId, caller, now).db; other in t && t[other] == db[other]
  {
  }

  /**
   * Without an owner, the update filter is by id alone: any caller can
   * patch any existing row, whoever owns it.
   */
  lemma UnscopedUpdateReachesEveryRow(db: map<Uuid, Task>, taskId: Uuid, p: TaskUpdate, now: Timestamp)
    requires KeyedById(db) && taskId in db
    ensures UpdateStep(db, taskId, p, None, now).result.Ok?
    ensures UpdateStep(db, taskId, p, None, now).db[taskId].userId == db[taskId].userId
  {
  }

  /** Toggling the same task twice succeeds both times and restores the table except for the row's update time. */
  lemma ToggleStepTwice(db: map<Uuid, Task>, taskId: Uuid, owner: Uuid, first: Timestamp, second: Timestamp)
    requires KeyedById(db) && taskId in db && db[taskId].userId == owner
    ensures var s1 := ToggleStep(db, taskId, owner, first);
      var s2 := ToggleStep(s1.db, taskId, owner, second);
      s2.result.Ok? && s2.db == db[taskId := db[taskId].(updatedAt := second)]
  {
  }

  /** A delete succeeds once; a second delete of the same id, and a lookup of it, then find nothing. */
  lemma DeleteStepTwice(db: map<Uuid, Task>, taskId: Uuid, owner: Uuid)
    requires KeyedById(db) && taskId in db && db[taskId].userId == owner
    ensures var s1 := DeleteStep(db, taskId, owner);
      && s1.result == Ok(true)
      && DeleteStep(s1.db, taskId, owner) == Step(s1.db, Err(TaskNotFound(taskId)))
      && Select(s1.db, taskId, Some(owner)).None?
  {
  }

  /**
   * An update keeps the table within the declared constraints only when the
   * patch is within them, and keeps timestamps ordered while the clock does
   * not run backwards.
   */
  lemma UpdateStepPreservesInvariants(db: map<Uuid, Task>, taskId: Uuid, p: TaskUpdate,
                                        owner: Option<Uuid>, now: Timestamp)
    requires KeyedById(db)
    ensures TableConstrained(db) && ValidTaskUpdate(p) ==> TableConstrained(UpdateStep(db, taskId, p, owner, now).db)
    ensures TableTimelyAt(db, now) ==> TableTimelyAt(UpdateStep(db, taskId, p, owner, now).db, now)
  {
  }

  /** A toggle changes no field under a declared constraint and keeps timestamps ordered. */
  lemma ToggleStepPreservesInvariants(db: map<Uuid, Task>, taskId: Uuid, owner: Uuid, now: Timestamp)
    requires KeyedById(db)
    ensures TableConstrained(db) ==> TableConstrained(ToggleStep(db, taskId, owner, now).db)
    ensures TableTimelyAt(db, now) ==> TableTimelyAt(ToggleStep(db, taskId, owner, now).db, now)
  {
  }

  // ---------------------------------------------------------------------
  // The service

  /** `TaskService` over the session's `tasks` table. */
  class TaskService {
    var tasks: map<Uuid, Task>

    ghost predicate Valid()
      reads this
    {
      KeyedById(tasks)
    }

    /** An empty table. */
    constructor ()
      ensures Valid() && tasks == map[]
    {
      tasks := map[];
    }

    /**
     * `create_task`: insert a row with the request's fields under the caller,
     * with a fresh id. No constraint is checked; a row is within the
     * declared constraints only when the request was.
     */
    method CreateTask(taskCreate: TaskCreateRequest, userId: Uuid, newId: Uuid, now: Timestamp) returns (t: Task)
      requires Valid()
      requires newId !in tasks
      modifies this
      ensures Valid()
      ensures t.id == newId && t.userId == userId
      ensures t.title == taskCreate.title && t.description == taskCreate.description && t.completed == taskCreate.completed
      ensures t.createdAt == now && t.updatedAt == now
      ensures tasks == old(tasks)[newId := t]
      ensures TableConstrained(old(tasks)) && ValidTaskCreate(taskCreate) ==> TableConstrained(tasks)
      ensures TableTimelyAt(old(tasks), now) ==> TableTimelyAt(tasks, now)
    {
      t := NewTask(taskCreate, newId, userId, now);
      NewTaskFields(taskCreate, newId, userId, now);
      tasks := tasks[newId := t];
    }

    /** `get_task_by_id`: the row with this id and this owner, else `TaskNotFound`. */
    method GetTaskById(taskId: Uuid, userId: Uuid) returns (r: Result<Task>)
      requires Valid()
      ensures r.Ok? <==> taskId in tasks && tasks[taskId].userId == userId
      ensures r.Ok? ==> r.value == tasks[taskId]
      ensures r.Err? ==> r.error == TaskNotFound(taskId)
    {
      var found := Select(tasks, taskId, Some(userId));
      if found.None? {
        return Err(TaskNotFound(taskId));
      }
      r := Ok(found.value);
    }

    /**
     * `get_tasks_by_user`: each of the caller's rows exactly once, in no
     * particular order, and nothing else; empty when the caller owns none.
     */
    method GetTasksByUser(userId: Uuid) returns (r: seq<Task>)
      requires Valid()
      ensures |r| == |OwnedIds(tasks, userId)|
      ensures forall i :: 0 <= i < |r| ==> r[i].id in tasks && tasks[r[i].id] == r[i] && r[i].userId == userId
      ensures forall i, j :: 0 <= i < j < |r| ==> r[i].id != r[j].id
      ensures forall id :: id in tasks && tasks[id].userId == userId ==> tasks[id] in r
    {
      var db := tasks;
      r := [];
      var remaining := db.Keys;
      ghost var listed: set<Uuid> := {};
      while remaining != {}
        invariant remaining <= db.Keys
        invariant forall id :: id in listed <==> id in db && id !in remaining && db[id].userId == userId
        invariant |r| == |listed|
        invariant forall i :: 0 <= i < |r| ==> r[i].id in listed && db[r[i].id] == r[i]
        invariant forall i, j :: 0 <= i < j < |r| ==> r[i].id != r[j].id
        invariant forall id :: id in listed ==> db[id] in r
        decreases remaining
      {
        var id :| id in remaining;
        if db[id].userId == userId {
          r := r + [db[id]];
          listed := listed + {id};
        }
        remaining := remaining - {id};
      }
      assert listed == OwnedIds(db, userId);
    }

    /**
     * `update_task`: select by id, and also by owner only when one is given;
     * then apply the patch's present fields and refresh `updated_at`.
     * No other row changes, and no constraint is checked.
     */
    method UpdateTask(taskId: Uuid, taskUpdate: TaskUpdateRequest, userId: Option<Uuid>, now: Timestamp)
      returns (r: Result<Task>)
      requires Valid()
      modifies this
      ensures Valid()
      ensures Step(tasks, r) == UpdateStep(old(tasks), taskId, taskUpdate, userId, now)
      ensures TableConstrained(old(tasks)) && ValidTaskUpdate(taskUpdate) ==> TableConstrained(tasks)
      ensures TableTimelyAt(old(tasks), now) ==> TableTimelyAt(tasks, now)
    {
      var db := tasks;
      UpdateStepPreservesInvariants(db, taskId, taskUpdate, userId, now);
      var found := Select(db, taskId, userId);
      if found.None? {
        return Err(TaskNotFound(taskId));
      }
      var dbTask := found.value;
      if taskUpdate.title.Some? {
        dbTask := dbTask.(title := taskUpdate.title.value);
      }
      if taskUpdate.description.Some? {
        dbTask := dbTask.(description := taskUpdate.description);
      }
      if taskUpdate.completed.Some? {
        dbTask := dbTask.(completed := taskUpdate.completed.value);
      }
      dbTask := dbTask.(updatedAt := now);
      assert dbTask == ApplyPatch(found.value, taskUpdate, now);
      tasks := db[taskId := dbTask];
      r := Ok(dbTask);
    }

    /**
     * `delete_task`: remove the caller's row and answer `True`, else
     * `TaskNotFound`; it never answers `False`.
     */
    method DeleteTask(taskId: Uuid, userId: Uuid) returns (r: Result<bool>)
      requires Valid()
      modifies this
      ensures Valid()
      ensures Step(tasks, r) == DeleteStep(old(tasks), taskId, userId)
    {
      var found := Select(tasks, taskId, Some(userId));
      if found.None? {
        return Err(TaskNotFound(taskId));
      }
      tasks := tasks - {taskId};
      r := Ok(true);
    }

    /**
     * `toggle_task_completion`: negate the caller's row's `completed` and
     * refresh `updated_at`, else `TaskNotFound`. It takes no desired value.
     */
    method ToggleTaskCompletion(taskId: Uuid, userId: Uuid, now: Timestamp) returns (r: Result<Task>)
      requires Valid()
      modifies this
      ensures Valid()
      ensures Step(tasks, r) == ToggleStep(old(tasks), taskId, userId, now)
      ensures TableConstrained(old(tasks)) ==> TableConstrained(tasks)
      ensures TableTimelyAt(old(tasks), now) ==> TableTimelyAt(tasks, now)
    {
      var db := tasks;
      ToggleStepPreservesInvariants(db, taskId, userId, now);
      var found := Select(db, taskId, Some(userId));
      if found.None? {
        return Err(TaskNotFound(taskId));
      }
      var dbTask := found.value;
      dbTask := dbTask.(completed := !dbTask.completed);
      dbTask := dbTask.(updatedAt := now);
      tasks := db[taskId := dbTask];
      r := Ok(dbTask);
    }
  }
}
