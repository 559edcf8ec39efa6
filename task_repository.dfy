/**
 * Storage access for tasks (app/repositories/task_repository.py).
 *
 * The table is a map from id to row. `nextId` is the autoincrement counter
 * (never reused, also after a delete) and `clock` the logical time read by
 * every write that touches a row.
 */
module Repository {
  import opened Wrappers
  import opened TaskModel

  type Table = map<int, Task>

  /**
   * The storage invariant: ids are keys in `[1, nextId)` and agree with the
   * row's own `id`, every row fits its columns and `updated_at >= created_at`,
   * every timestamp is in the past, and a row inserted later (larger id)
   * carries a later `created_at`.
   */
  ghost predicate WellFormed(table: Table, nextId: int, clock: nat) {
    && nextId >= 1
    && (forall id :: id in table ==>
          1 <= id < nextId && table[id].id == id && Valid(table[id]) && table[id].updatedAt < clock)
    && (forall a, b :: a in table && b in table && a < b ==> table[a].createdAt < table[b].createdAt)
  }

  /** The status filter of `get_all`: an absent or empty filter keeps every row. */
  predicate Matches(t: Task, filter: Option<string>): (b: bool)
    ensures filter.Some? && filter.value != "" ==> (b <==> ParseStatus(filter.value) == Some(t.status))
  {
    filter.None? || filter.value == "" || StatusName(t.status) == filter.value
  }

  /** The ids the filtered count query counts. */
  function MatchingSet(table: Table, filter: Option<string>): set<int> {
    set id | id in table && Matches(table[id], filter)
  }

  /** The matching ids below `hi`. */
  ghost function MatchingBelow(table: Table, filter: Option<string>, hi: int): set<int> {
    set id | id in MatchingSet(table, filter) && 1 <= id < hi
  }

  /** The matching ids below `hi`, largest (newest) first. */
  function MatchingIds(table: Table, filter: Option<string>, hi: int): (ids: seq<int>)
    decreases hi
    ensures forall k :: 0 <= k < |ids| ==>
      ids[k] in table && 1 <= ids[k] < hi && Matches(table[ids[k]], filter)
    ensures forall j, k :: 0 <= j < k < |ids| ==> ids[j] > ids[k]
  {
    if hi <= 1 then []
    else
      var rest := MatchingIds(table, filter, hi - 1);
      if hi - 1 in table && Matches(table[hi - 1], filter) then [hi - 1] + rest else rest
  }

  /** Raising the bound by one adds `hi - 1` exactly when that row matches. */
  lemma MatchingBelowStep(table: Table, filter: Option<string>, hi: int)
    ensures hi - 1 !in MatchingBelow(table, filter, hi - 1)
    ensures MatchingBelow(table, filter, hi) ==
      if hi - 1 >= 1 && hi - 1 in table && Matches(table[hi - 1], filter)
      then MatchingBelow(table, filter, hi - 1) + {hi - 1}
      else MatchingBelow(table, filter, hi - 1)
  {
  }

  /** Every matching id below `hi` is listed, so the listing has one entry per matching row. */
  lemma {:induction false} MatchingIdsComplete(table: Table, filter: Option<string>, hi: int)
    decreases hi
    ensures forall id :: id in MatchingBelow(table, filter, hi) ==> id in MatchingIds(table, filter, hi)
    ensures |MatchingIds(table, filter, hi)| == |MatchingBelow(table, filter, hi)|
  {
    if hi > 1 {
      MatchingIdsComplete(table, filter, hi - 1);
      MatchingBelowStep(table, filter, hi);
    } else {
      assert MatchingBelow(table, filter, hi) == {};
    }
  }

  /** An absent or empty filter keeps every row. */
  lemma UnfilteredKeepsAll(table: Table, filter: Option<string>)
    ensures filter.None? || filter == Some("") ==> MatchingSet(table, filter) == table.Keys
  {
    if filter.None? || filter == Some("") {
      forall id | id in table ensures id in MatchingSet(table, filter) {
      }
    }
  }

  /** The rows under the given ids. */
  function RowsOf(table: Table, ids: seq<int>): (rows: seq<Task>)
    requires forall k :: 0 <= k < |ids| ==> ids[k] in table
    ensures |rows| == |ids| && forall k :: 0 <= k < |ids| ==> rows[k] == table[ids[k]]
  {
    if ids == [] then [] else [table[ids[0]]] + RowsOf(table, ids[1..])
  }

  /** `.offset(skip).limit(limit)`: at most `limit` elements, starting at position `skip`. */
  function Window<T>(s: seq<T>, skip: nat, limit: nat): (w: seq<T>)
    ensures |w| == Min(limit, Max(0, |s| - skip))
    ensures forall k :: 0 <= k < |w| ==> w[k] == s[skip + k]
  {
    if skip >= |s| then [] else s[skip..Min(|s|, skip + limit)]
  }

  /** Two consecutive windows make up the window that spans both. */
  lemma WindowsTile<T>(s: seq<T>, skip: nat, a: nat, b: nat)
    ensures Window(s, skip, a) + Window(s, skip + a, b) == Window(s, skip, a + b)
  {
  }

  /** One page of `get_all`: the window of rows and the count of all matching rows. */
  datatype Page = Page(tasks: seq<Task>, total: nat)

  /** Tasks newest first. */
  ghost predicate NewestFirst(tasks: seq<Task>) {
    forall j, k :: 0 <= j < k < |tasks| ==> tasks[j].createdAt > tasks[k].createdAt
  }

  /** The rows the filter keeps, ordered by id from `hi - 1` down. */
  function Listing(table: Table, filter: Option<string>, hi: int): (rows: seq<Task>)
    ensures forall k :: 0 <= k < |rows| ==> rows[k] in table.Values && Matches(rows[k], filter)
  {
    RowsOf(table, MatchingIds(table, filter, hi))
  }

  /**
   * In a well-formed table the listing holds each row the filter keeps exactly
   * once, and nothing else, ordered by `created_at` descending.
   */
  lemma ListingSpec(table: Table, nextId: int, clock: nat, filter: Option<string>)
    requires WellFormed(table, nextId, clock)
    ensures |Listing(table, filter, nextId)| == |MatchingSet(table, filter)|
    ensures forall k :: 0 <= k < |Listing(table, filter, nextId)| ==>
      var t := Listing(table, filter, nextId)[k];
      t.id in table && table[t.id] == t && Matches(t, filter)
    ensures forall id :: id in MatchingSet(table, filter) ==> table[id] in Listing(table, filter, nextId)
    ensures NewestFirst(Listing(table, filter, nextId))
  {
    var ids := MatchingIds(table, filter, nextId);
    var rows := Listing(table, filter, nextId);
    MatchingIdsComplete(table, filter, nextId);
    assert MatchingBelow(table, filter, nextId) == MatchingSet(table, filter);
    forall id | id in MatchingSet(table, filter) ensures table[id] in rows {
      var k :| 0 <= k < |ids| && ids[k] == id;
      assert rows[k] == table[id];
    }
    forall j, k | 0 <= j < k < |rows| ensures rows[j].createdAt > rows[k].createdAt {
      assert ids[j] > ids[k];
    }
  }

  /**
   * The row a flush leaves behind: the edited content under the stored id
   * and creation time, with `updated_at` set to `now` when some field changed,
   * and the stored row itself when nothing did.
   */
  function Flushed(stored: Task, edited: Task, now: nat): (r: Task)
    ensures SameContent(r, edited)
    ensures r.id == stored.id && r.createdAt == stored.createdAt
    ensures r.updatedAt == if SameContent(stored, edited) then stored.updatedAt else now
  {
    if SameContent(stored, edited) then stored
    else edited.(id := stored.id, createdAt := stored.createdAt, updatedAt := now)
  }

  /** A flushed row stays valid, and a real change moves `updated_at` strictly forward. */
  lemma FlushedValid(stored: Task, edited: Task, now: nat)
    requires Valid(stored) && stored.updatedAt < now && FitsColumns(edited.title)
    ensures Valid(Flushed(stored, edited, now))
    ensures !SameContent(stored, edited) ==> Flushed(stored, edited, now).updatedAt > stored.updatedAt
  {
  }

  /** The fields a status-only update must leave alone. */
  predicate SameFields(a: Task, b: Task) {
    a.id == b.id && a.title == b.title && a.description == b.description &&
    a.priority == b.priority && a.createdAt == b.createdAt
  }

  /** The table after the row `id` is given `status` at tick `now`. */
  function WithStatus(table: Table, id: int, status: Status, now: nat): (r: Table)
    requires id in table
    ensures r.Keys == table.Keys
    ensures r[id].status == status && r[id].updatedAt == now && SameFields(table[id], r[id])
    ensures forall k :: k in table && k != id ==> r[k] == table[k]
  {
    table[id := table[id].(status := status, updatedAt := now)]
  }

  /** A status update at a fresh tick keeps the storage invariant. */
  lemma WithStatusWellFormed(table: Table, nextId: int, clock: nat, id: int, status: Status)
    requires WellFormed(table, nextId, clock) && id in table
    ensures WellFormed(WithStatus(table, id, status, clock), nextId, clock + 1)
  {
  }

  class TaskRepository {
    var table: Table
    var nextId: int
    var clock: nat

    ghost predicate Valid()
      reads this
    {
      WellFormed(table, nextId, clock)
    }

    /** An empty table whose autoincrement starts at 1. */
    constructor ()
      ensures Valid() && table == map[] && nextId == 1
    {
      table := map[];
      nextId := 1;
      clock := 0;
    }

    /** `get_by_id`: the row with that id, or none; absence is not an error. */
    function GetById(id: int): (r: Option<Task>)
      reads this
      requires Valid()
      ensures r.Some? <==> id in table
      ensures r.Some? ==> r.value == table[id] && r.value.id == id
    {
      if id in table then Some(table[id]) else None
    }

    /**
     * `get_all`: the count of the rows the filter keeps, independent of
     * `skip` and `limit`, and the window of at most `limit` of those rows,
     * newest first, after skipping `skip`.
     */
    function GetAll(skip: nat, limit: nat, filter: Option<string>): (p: Page)
      reads this
      requires Valid()
      ensures p.total == |MatchingSet(table, filter)|
      ensures filter.None? || filter == Some("") ==> p.total == |table|
      ensures |p.tasks| == Min(limit, Max(0, p.total - skip))
      ensures forall k :: 0 <= k < |p.tasks| ==>
        p.tasks[k].id in table && table[p.tasks[k].id] == p.tasks[k] && Matches(p.tasks[k], filter)
      ensures NewestFirst(p.tasks)
    {
      ListingSpec(table, nextId, clock, filter);
      UnfilteredKeepsAll(table, filter);
      Page(Window(Listing(table, filter, nextId), skip, limit), |MatchingSet(table, filter)|)
    }

    /** Consecutive pages make up the page that spans both: paging neither skips nor repeats a row. */
    lemma GetAllPagesTile(skip: nat, a: nat, b: nat, filter: Option<string>)
      requires Valid()
      ensures GetAll(skip, a, filter).tasks + GetAll(skip + a, b, filter).tasks == GetAll(skip, a + b, filter).tasks
    {
      WindowsTile(Listing(table, filter, nextId), skip, a, b);
    }

    /** A first page at least as long as the total holds every row the filter keeps. */
    lemma GetAllFirstPageComplete(limit: nat, filter: Option<string>)
      requires Valid()
      requires limit >= GetAll(0, limit, filter).total
      ensures forall id :: id in table && Matches(table[id], filter) ==> table[id] in GetAll(0, limit, filter).tasks
    {
      var rows := Listing(table, filter, nextId);
      ListingSpec(table, nextId, clock, filter);
      assert GetAll(0, limit, filter).tasks == rows;
      forall id | id in table && Matches(table[id], filter) ensures table[id] in rows {
        assert id in MatchingSet(table, filter);
      }
    }

    /** `create`: inserts the draft as one new row under a fresh id; every other row is unchanged. */
    method Create(draft: Draft) returns (t: Task)
      requires Valid() && FitsColumns(draft.title)
      modifies this
      ensures Valid()
      ensures t == Materialize(draft, old(nextId), old(clock))
      ensures t.id !in old(table) && table == old(table)[t.id := t]
      ensures nextId == old(nextId) + 1 && clock == old(clock) + 1
    {
      t := Materialize(draft, nextId, clock);
      table := table[t.id := t];
      nextId := nextId + 1;
      clock := clock + 1;
    }

    /**
     * `update`: writes the edited fields of a loaded row back. The flush
     * issues an UPDATE, and so refreshes `updated_at`, only when some field
     * differs from the stored row; `id` and `created_at` never change.
     */
    method Update(task: Task) returns (saved: Task)
      requires Valid() && task.id in table && FitsColumns(task.title)
      requires task.createdAt == table[task.id].createdAt && task.updatedAt == table[task.id].updatedAt
      modifies this
      ensures Valid()
      ensures saved == Flushed(old(table)[task.id], task, old(clock))
      ensures table == old(table)[task.id := saved]
      ensures nextId == old(nextId)
      ensures clock == if SameContent(old(table)[task.id], task) then old(clock) else old(clock) + 1
    {
      saved := Flushed(table[task.id], task, clock);
      if !SameContent(table[task.id], task) {
        table := table[task.id := saved];
        clock := clock + 1;
      }
    }

    /**
     * `update_status`: one targeted UPDATE of the status column of the row
     * with that id. Reports whether a row matched; the matched row gets the
     * new status and a refreshed `updated_at`, and nothing else changes.
     */
    method UpdateStatus(id: int, status: Status) returns (matched: bool)
      requires Valid()
      modifies this
      ensures Valid()
      ensures matched <==> id in old(table)
      ensures table == if matched then WithStatus(old(table), id, status, old(clock)) else old(table)
      ensures clock == if matched then old(clock) + 1 else old(clock)
      ensures nextId == old(nextId)
      ensures table.Keys == old(table).Keys
      ensures matched ==> table[id].status == status && SameFields(old(table)[id], table[id])
      ensures forall k :: k in old(table) && k != id ==> table[k] == old(table)[k]
    {
      matched := id in table;
      if matched {
        table := WithStatus(table, id, status, clock);
        clock := clock + 1;
      }
    }

    /** `delete`: removes the row of a loaded task; its id is never handed out again. */
    method Delete(task: Task)
      requires Valid() && task.id in table
      modifies this
      ensures Valid()
      ensures table == old(table) - {task.id}
      ensures nextId == old(nextId) && clock == old(clock)
      ensures GetById(task.id).None?
      ensures task.id < nextId
    {
      table := table - {task.id};
    }
  }
}
