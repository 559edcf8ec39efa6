/**
 * Lifecycle rules on top of the repository (app/services/task_service.py):
 * creation as pending, the not-found outcome, partial updates, deletion and
 * the batch that moves many tasks to completed.
 *
 * The batch runs one unit per listed id. Each unit issues one status update
 * and succeeds when a row matched. A unit whose session fails rolls back and
 * counts as not processed; which units fail is the environment's choice and
 * is the parameter `faulted`, a set of unit positions. The units are run one
 * after another: each touches one row with one statement, and the rows the
 * batch can match never change during it, so every unit's outcome is fixed
 * by its own id and its own fault alone.
 */
module Service {
  import opened Wrappers
  import opened TaskModel
  import opened TaskSchemas
  import opened Repository

  /** `TaskNotFoundException`, as a value. */
  datatype ServiceError = TaskNotFound(taskId: int)

  /**
   * The loaded task after the patch: a field present in the patch replaces
   * the task's, an absent one keeps it.
   */
  function ApplyPatch(task: Task, patch: TaskUpdate): (r: Task)
    ensures r.id == task.id && r.createdAt == task.createdAt && r.updatedAt == task.updatedAt
    ensures patch == TaskUpdate(None, None, None, None) ==> r == task
  {
    task.(title := patch.title.GetOr(task.title),
          description := if patch.description.Some? then patch.description else task.description,
          status := patch.status.GetOr(task.status),
          priority := patch.priority.GetOr(task.priority))
  }

  /** A patch changes only the fields it carries; an absent description cannot clear one. */
  lemma ApplyPatchFields(task: Task, patch: TaskUpdate)
    ensures var r := ApplyPatch(task, patch);
      && r.id == task.id && r.createdAt == task.createdAt && r.updatedAt == task.updatedAt
      && (patch.title.None? ==> r.title == task.title)
      && (patch.title.Some? ==> r.title == patch.title.value)
      && (patch.description.None? ==> r.description == task.description)
      && (patch.description.Some? ==> r.description == patch.description)
      && (patch.status.None? ==> r.status == task.status)
      && (patch.status.Some? ==> r.status == patch.status.value)
      && (patch.priority.None? ==> r.priority == task.priority)
      && (patch.priority.Some? ==> r.priority == patch.priority.value)
  {
  }

  /** The empty patch leaves the content as it was, so the flush writes nothing. */
  lemma EmptyPatchWritesNothing(task: Task, now: nat)
    ensures Flushed(task, ApplyPatch(task, TaskUpdate(None, None, None, None)), now) == task
  {
  }

  /** Unit `i` of the batch succeeds: its session did not fail and its id names a row. */
  predicate UnitSucceeds(keys: set<int>, ids: seq<int>, faulted: set<nat>, i: nat): (b: bool)
    requires i < |ids|
    ensures b ==> ids[i] in keys
    ensures i in faulted ==> !b
  {
    i !in faulted && ids[i] in keys
  }

  /** The number of successful units among the first `n`. */
  function Processed(keys: set<int>, ids: seq<int>, faulted: set<nat>, n: nat): (count: nat)
    requires n <= |ids|
    ensures count <= n
  {
    if n == 0 then 0
    else Processed(keys, ids, faulted, n - 1) + (if UnitSucceeds(keys, ids, faulted, n - 1) then 1 else 0)
  }

  /** The positions of the successful units among the first `n`. */
  ghost function SucceededUnits(keys: set<int>, ids: seq<int>, faulted: set<nat>, n: nat): set<nat>
    requires n <= |ids|
  {
    set i: nat | i < n && UnitSucceeds(keys, ids, faulted, i)
  }

  /** The count is the number of units that succeeded, each occurrence of an id on its own. */
  lemma {:induction false} ProcessedCountsSuccesses(keys: set<int>, ids: seq<int>, faulted: set<nat>, n: nat)
    requires n <= |ids|
    ensures Processed(keys, ids, faulted, n) == |SucceededUnits(keys, ids, faulted, n)|
  {
    if n == 0 {
      assert SucceededUnits(keys, ids, faulted, n) == {};
    } else {
      ProcessedCountsSuccesses(keys, ids, faulted, n - 1);
      var before := SucceededUnits(keys, ids, faulted, n - 1);
      assert n - 1 !in before;
      if UnitSucceeds(keys, ids, faulted, n - 1) {
        assert SucceededUnits(keys, ids, faulted, n) == before + {n - 1};
      } else {
        assert SucceededUnits(keys, ids, faulted, n) == before;
      }
    }
  }

  /**
   * Failure isolation: a fault in unit `j` costs the count that one unit at
   * most, and only if it would have succeeded; every other unit's outcome
   * stays as it was.
   */
  lemma FaultIsolation(keys: set<int>, ids: seq<int>, faulted: set<nat>, j: nat)
    requires j < |ids| && j !in faulted
    ensures Processed(keys, ids, faulted + {j}, |ids|) ==
      Processed(keys, ids, faulted, |ids|) - (if ids[j] in keys then 1 else 0)
    ensures forall i :: 0 <= i < |ids| && i != j ==>
      UnitSucceeds(keys, ids, faulted + {j}, i) == UnitSucceeds(keys, ids, faulted, i)
  {
    ProcessedCountsSuccesses(keys, ids, faulted, |ids|);
    ProcessedCountsSuccesses(keys, ids, faulted + {j}, |ids|);
    var s0 := SucceededUnits(keys, ids, faulted, |ids|);
    var s1 := SucceededUnits(keys, ids, faulted + {j}, |ids|);
    if ids[j] in keys {
      assert s0 == s1 + {j};
    } else {
      assert s0 == s1;
    }
  }

  /**
   * The table and the clock after the first `n` units, run one after the
   * other: a unit that succeeds completes its row at the current tick.
   */
  function RunUnits(table: Table, clock: nat, ids: seq<int>, faulted: set<nat>, n: nat): (st: (Table, nat))
    requires n <= |ids|
    ensures st.0.Keys == table.Keys
  {
    if n == 0 then (table, clock)
    else
      var (t, c) := RunUnits(table, clock, ids, faulted, n - 1);
      if UnitSucceeds(t.Keys, ids, faulted, n - 1) then (WithStatus(t, ids[n - 1], Completed, c), c + 1)
      else (t, c)
  }

  /** The batch keeps the storage invariant. */
  lemma {:induction false} RunUnitsWellFormed(table: Table, nextId: int, clock: nat, ids: seq<int>, faulted: set<nat>, n: nat)
    requires n <= |ids| && WellFormed(table, nextId, clock)
    ensures var st := RunUnits(table, clock, ids, faulted, n); WellFormed(st.0, nextId, st.1)
  {
    if n > 0 {
      RunUnitsWellFormed(table, nextId, clock, ids, faulted, n - 1);
      var (t, c) := RunUnits(table, clock, ids, faulted, n - 1);
      if UnitSucceeds(t.Keys, ids, faulted, n - 1) {
        WithStatusWellFormed(t, nextId, c, ids[n - 1], Completed);
      }
    }
  }

  /**
   * After the first `n` units: every id of a successful unit has status
   * completed; a row no successful unit names is unchanged; no row changed
   * anything but its status and `updated_at`.
   */
  lemma {:induction false} RunUnitsEffect(table: Table, clock: nat, ids: seq<int>, faulted: set<nat>, n: nat)
    requires n <= |ids|
    ensures var t := RunUnits(table, clock, ids, faulted, n).0;
      && (forall i :: 0 <= i < n && UnitSucceeds(table.Keys, ids, faulted, i) ==> t[ids[i]].status == Completed)
      && (forall k :: k in table && (forall i :: 0 <= i < n && UnitSucceeds(table.Keys, ids, faulted, i) ==> ids[i] != k)
            ==> t[k] == table[k])
      && (forall k :: k in table ==> SameFields(table[k], t[k]))
  {
    if n > 0 {
      RunUnitsEffect(table, clock, ids, faulted, n - 1);
    }
  }

  /** The case of a batch with one known id and two unknown ones: one unit succeeds. */
  lemma OneKnownTwoUnknown(keys: set<int>, known: int, unknown1: int, unknown2: int)
    requires known in keys && unknown1 !in keys && unknown2 !in keys
    ensures Processed(keys, [known, unknown1, unknown2], {}, 3) == 1
  {
    var ids := [known, unknown1, unknown2];
    assert Processed(keys, ids, {}, 1) == 1;
    assert Processed(keys, ids, {}, 2) == 1;
  }

  /** A listed id counts once per occurrence: the same known id twice gives two. */
  lemma DuplicateCountedTwice(keys: set<int>, id: int)
    requires id in keys
    ensures Processed(keys, [id, id], {}, 2) == 2
  {
  }

  /**
   * Every stored title and priority passes the payload checks. The storage
   * does not enforce this itself (its `priority` column takes any integer);
   * it holds because every write made through the service carries a
   * validated payload.
   */
  ghost predicate RowsAccepted(table: Table) {
    forall id :: id in table ==> TitleAccepted(table[id].title) && PriorityAccepted(table[id].priority)
  }

  class TaskService {
    const repo: TaskRepository

    constructor (repository: TaskRepository)
      ensures repo == repository
    {
      repo := repository;
    }

    /** `create_task`: persists a new pending task with the payload's fields. */
    method CreateTask(data: TaskCreate) returns (t: Task)
      requires repo.Valid() && CreateAccepted(data)
      modifies repo
      ensures repo.Valid()
      ensures t.status == Pending
      ensures t.title == data.title && t.description == data.description && t.priority == data.priority
      ensures t.id !in old(repo.table) && repo.table == old(repo.table)[t.id := t]
      ensures t.id == old(repo.nextId) && repo.nextId == old(repo.nextId) + 1
      ensures t.createdAt == t.updatedAt == old(repo.clock) && repo.clock == old(repo.clock) + 1
      ensures GetTask(t.id) == Success(t)
      ensures RowsAccepted(old(repo.table)) ==> RowsAccepted(repo.table)
    {
      t := repo.Create(Draft(data.title, data.description, Some(Pending), Some(data.priority)));
    }

    /** `get_task`: the stored task, or `TaskNotFound` exactly when no row has that id. */
    function GetTask(id: int): (r: Result<Task, ServiceError>)
      reads repo
      requires repo.Valid()
      ensures r.Failure? <==> id !in repo.table
      ensures r.Failure? ==> r.error == TaskNotFound(id)
      ensures r.Success? ==> r.value == repo.table[id] && r.value.id == id
    {
      match repo.GetById(id)
      case None => Failure(TaskNotFound(id))
      case Some(task) => Success(task)
    }

    /** `list_tasks`: the repository's page, passed through. */
    function ListTasks(skip: nat, limit: nat, status: Option<string>): (p: Page)
      reads repo
      requires repo.Valid()
      ensures p == repo.GetAll(skip, limit, status)
      ensures p.total == |MatchingSet(repo.table, status)|
      ensures forall k :: 0 <= k < |p.tasks| ==> Matches(p.tasks[k], status)
    {
      repo.GetAll(skip, limit, status)
    }

    /**
     * `update_task`: loads the task, overwrites the fields the patch carries
     * one by one and persists the result; on an unknown id nothing is written.
     */
    method UpdateTask(id: int, patch: TaskUpdate) returns (r: Result<Task, ServiceError>)
      requires repo.Valid() && UpdateAccepted(patch)
      modifies repo
      ensures repo.Valid()
      ensures r.Failure? <==> id !in old(repo.table)
      ensures r.Failure? ==> r.error == TaskNotFound(id) && unchanged(repo)
      ensures r.Success? ==>
        && r.value == Flushed(old(repo.table)[id], ApplyPatch(old(repo.table)[id], patch), old(repo.clock))
        && repo.table == old(repo.table)[id := r.value]
        && repo.nextId == old(repo.nextId)
        && repo.clock == if SameContent(old(repo.table)[id], ApplyPatch(old(repo.table)[id], patch))
                         then old(repo.clock) else old(repo.clock) + 1
      ensures RowsAccepted(old(repo.table)) ==> RowsAccepted(repo.table)
    {
      var found := GetTask(id);
      if found.Failure? {
        return Failure(found.error);
      }
      var task := found.value;
      if patch.title.Some? {
        task := task.(title := patch.title.value);
      }
      if patch.description.Some? {
        task := task.(description := patch.description);
      }
      if patch.status.Some? {
        task := task.(status := patch.status.value);
      }
      if patch.priority.Some? {
        task := task.(priority := patch.priority.value);
      }
      var saved := repo.Update(task);
      r := Success(saved);
    }

    /** `delete_task`: removes the task, or reports `TaskNotFound` and writes nothing. */
    method DeleteTask(id: int) returns (r: Outcome<ServiceError>)
      requires repo.Valid()
      modifies repo
      ensures repo.Valid()
      ensures r.Fail? <==> id !in old(repo.table)
      ensures r.Fail? ==> r.error == TaskNotFound(id) && unchanged(repo)
      ensures r.Pass? ==> repo.table == old(repo.table) - {id} && repo.nextId == old(repo.nextId)
      ensures repo.clock == old(repo.clock)
      ensures GetTask(id) == Failure(TaskNotFound(id))
      ensures RowsAccepted(old(repo.table)) ==> RowsAccepted(repo.table)
    {
      var found := GetTask(id);
      if found.Failure? {
        return Fail(found.error);
      }
      repo.Delete(found.value);
      r := Pass;
    }

    /**
     * `process_task_batch`: one unit per listed id sets that row to
     * completed; the result is the number of units that matched a row,
     * paired with the number of ids requested.
     */
    method ProcessTaskBatch(taskIds: seq<int>, faulted: set<nat>) returns (processedCount: nat, totalRequested: nat)
      requires repo.Valid()
      modifies repo
      ensures repo.Valid()
      ensures totalRequested == |taskIds|
      ensures processedCount == Processed(old(repo.table).Keys, taskIds, faulted, |taskIds|)
      ensures (repo.table, repo.clock) == RunUnits(old(repo.table), old(repo.clock), taskIds, faulted, |taskIds|)
      ensures repo.nextId == old(repo.nextId)
      ensures processedCount <= totalRequested
      ensures repo.table.Keys == old(repo.table).Keys
      ensures forall i :: 0 <= i < |taskIds| && UnitSucceeds(old(repo.table).Keys, taskIds, faulted, i) ==>
        repo.table[taskIds[i]].status == Completed
      ensures forall k :: k in old(repo.table) ==> SameFields(old(repo.table)[k], repo.table[k])
      ensures RowsAccepted(old(repo.table)) ==> RowsAccepted(repo.table)
    {
      ghost var table0, clock0 := repo.table, repo.clock;
      processedCount := 0;
      var i := 0;
      while i < |taskIds|
        invariant 0 <= i <= |taskIds|
        invariant repo.Valid()
        invariant (repo.table, repo.clock) == RunUnits(table0, clock0, taskIds, faulted, i)
        invariant repo.nextId == old(repo.nextId)
        invariant processedCount == Processed(table0.Keys, taskIds, faulted, i)
      {
        var updated := false;
        if i !in faulted {
          updated := repo.UpdateStatus(taskIds[i], Completed);
        }
        if updated {
          processedCount := processedCount + 1;
        }
        i := i + 1;
      }
      totalRequested := |taskIds|;
      RunUnitsEffect(table0, clock0, taskIds, faulted, |taskIds|);
    }
  }
}
