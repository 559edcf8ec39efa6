/**
 * Client code that uses only the contracts above: the lifecycle the
 * integration tests walk through (tests/integration/test_endpoints.py).
 */
module Scenarios {
  import opened Wrappers
  import opened TaskModel
  import opened TaskSchemas
  import opened Repository
  import opened Service

  /** Create a task, batch it with two unknown ids, read it back, delete it. */
  method Lifecycle() {
    var repo := new TaskRepository();
    var service := new TaskService(repo);
    var created := service.CreateTask(TaskCreate("Valid Task", None, DefaultPriority));
    assert created.status == Pending;
    assert service.GetTask(created.id) == Success(created);

    var unknown1, unknown2 := created.id + 1, created.id + 2;
    var keys := repo.table.Keys;
    assert keys == {created.id};
    var count, total := service.ProcessTaskBatch([created.id, unknown1, unknown2], {});
    OneKnownTwoUnknown(keys, created.id, unknown1, unknown2);
    assert count == 1 && total == 3;
    assert UnitSucceeds(keys, [created.id, unknown1, unknown2], {}, 0);
    assert service.GetTask(created.id).value.status == Completed;

    var deleted := service.DeleteTask(created.id);
    assert deleted == Pass;
    assert service.GetTask(created.id) == Failure(TaskNotFound(created.id));
  }

  /** A deleted id is never handed out again, and stays not found after later inserts. */
  method IdsNotReused() {
    var repo := new TaskRepository();
    var service := new TaskService(repo);
    var first := service.CreateTask(TaskCreate("First", None, DefaultPriority));
    var deleted := service.DeleteTask(first.id);
    var second := service.CreateTask(TaskCreate("Second", None, DefaultPriority));
    assert second.id != first.id;
    assert second.createdAt > first.createdAt && first.createdAt == first.updatedAt;
    assert service.GetTask(first.id) == Failure(TaskNotFound(first.id));
  }
}
