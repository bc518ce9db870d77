/**
 * Client-side checks: what a caller of the task store can conclude from the
 * service's contracts alone, for the typical request sequences of the API.
 */
module Scenarios {
  import opened Wrappers
  import opened Models
  import opened Schemas
  import opened Services

  /** Create, read back, reach across owners, toggle twice, update, delete twice. */
  method LifecycleScenario() {
    var alice, bob := 100, 200;
    var s := new TaskService();

    var created := s.CreateTask(CreateRequest("Buy milk"), alice, 1, 10);
    var got := s.GetTaskById(1, alice);
    assert got == Ok(created);
    assert created.title == "Buy milk" && created.description == None;
    assert !created.completed && created.userId == alice;

    // Another owner's task looks exactly like a missing one.
    var foreign := s.GetTaskById(1, bob);
    assert foreign == Err(TaskNotFound(1));
    var missing := s.GetTaskById(2, bob);
    assert missing == Err(TaskNotFound(2));
    var foreignToggle := s.ToggleTaskCompletion(1, bob, 11);
    assert foreignToggle.Err? && s.tasks[1] == created;

    // Toggling twice restores the flag; each toggle stamps the row.
    var once := s.ToggleTaskCompletion(1, alice, 12);
    assert once.Ok? && once.value.completed && once.value.updatedAt == 12;
    var twice := s.ToggleTaskCompletion(1, alice, 13);
    assert twice.Ok? && !twice.value.completed && twice.value.updatedAt == 13;

    // A patch with only a title leaves the description alone.
    var withDescription := s.UpdateTask(1, UpdateRequest(description := Some("B")), Some(alice), 14);
    assert withDescription.Ok?;
    var retitled := s.UpdateTask(1, UpdateRequest(title := Some("C")), Some(alice), 15);
    assert retitled.Ok? && retitled.value.title == "C" && retitled.value.description == Some("B");

    // With an owner, update is scoped; without one, the owner filter is skipped.
    var foreignUpdate := s.UpdateTask(1, UpdateRequest(title := Some("D")), Some(bob), 16);
    assert foreignUpdate.Err?;
    var unscoped := s.UpdateTask(1, UpdateRequest(title := Some("D")), None, 17);
    assert unscoped.Ok? && unscoped.value.userId == alice && unscoped.value.title == "D";

    // Delete succeeds once; afterwards the task is gone for every operation.
    var foreignDelete := s.DeleteTask(1, bob);
    assert foreignDelete.Err? && 1 in s.tasks;
    var deleted := s.DeleteTask(1, alice);
    assert deleted == Ok(true);
    var again := s.DeleteTask(1, alice);
    assert again == Err(TaskNotFound(1));
    var gone := s.GetTaskById(1, alice);
    assert gone.Err?;
  }

  /** Two tasks for one owner and one for another: each list holds exactly its owner's tasks. */
  method ListScenario() {
    var alice, bob := 100, 200;
    var s := new TaskService();
    var a1 := s.CreateTask(CreateRequest("A1"), alice, 1, 10);
    var a2 := s.CreateTask(CreateRequest("A2"), alice, 2, 11);
    var b1 := s.CreateTask(CreateRequest("B1"), bob, 3, 12);
    assert s.tasks == map[1 := a1, 2 := a2, 3 := b1];
    assert OwnedIds(s.tasks, alice) == {1, 2};
    assert OwnedIds(s.tasks, bob) == {3};

    var forAlice := s.GetTasksByUser(alice);
    assert |forAlice| == 2 && a1 in forAlice && a2 in forAlice;
    assert forall i :: 0 <= i < |forAlice| ==> forAlice[i].userId == alice;
    var forBob := s.GetTasksByUser(bob);
    assert |forBob| == 1 && b1 in forBob;
  }

  /** A caller who owns nothing gets an empty list, even when other owners' tasks exist. */
  method EmptyListScenario() {
    var s := new TaskService();
    var t := s.CreateTask(CreateRequest("A1"), 100, 1, 10);
    assert OwnedIds(s.tasks, 200) == {};
    var forBob := s.GetTasksByUser(200);
    assert forBob == [];
  }
}
