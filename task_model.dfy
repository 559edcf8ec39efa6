/**
 * The `tasks` table row: its columns, the closed status enumeration and the
 * defaults the storage fills in at insert time (app/models/task.py).
 *
 * Timestamps are a logical clock (`nat`): every write that touches a row
 * reads the current tick, so later writes carry larger values.
 */
module TaskModel {
  import opened Wrappers

  /** The storage enumeration `task_status`: no other value can be stored. */
  datatype Status = Pending | InProgress | Completed

  /** The text each status is stored and exchanged as. */
  function StatusName(s: Status): string {
    match s
    case Pending => "pending"
    case InProgress => "in_progress"
    case Completed => "completed"
  }

  /** Reads a status from its text; any other text is not a status. */
  function ParseStatus(name: string): (r: Option<Status>)
    ensures r.Some? ==> StatusName(r.value) == name
    ensures r.None? ==> forall s: Status :: StatusName(s) != name
  {
    if name == "pending" then Some(Pending)
    else if name == "in_progress" then Some(InProgress)
    else if name == "completed" then Some(Completed)
    else None
  }

  /** Distinct statuses have distinct names, so a name identifies its status. */
  lemma StatusNameRoundTrip(s: Status)
    ensures ParseStatus(StatusName(s)) == Some(s)
  {
  }

  /** `String(200)`: the widest title the column accepts. */
  const TitleMaxLength: nat := 200

  /** Column default of `priority`. */
  const DefaultPriority: int := 3

  /** Column default of `status`. */
  const DefaultStatus: Status := Pending

  /** A persisted row. `id` is the autoincrement primary key. */
  datatype Task = Task(
    id: int,
    title: string,
    description: Option<string>,
    status: Status,
    priority: int,
    createdAt: nat,
    updatedAt: nat)

  /** The title fits its `VARCHAR(200) NOT NULL` column. */
  predicate FitsColumns(title: string) {
    |title| <= TitleMaxLength
  }

  /** What every stored row satisfies. */
  predicate Valid(t: Task) {
    FitsColumns(t.title) && t.createdAt <= t.updatedAt
  }

  /**
   * A task object that is not yet persisted. A field left as `None` is not
   * sent with the insert, so the column default applies to it.
   */
  datatype Draft = Draft(
    title: string,
    description: Option<string>,
    status: Option<Status>,
    priority: Option<int>)

  /** The two mutable-content rows agree on every field a client can edit. */
  predicate SameContent(a: Task, b: Task) {
    a.title == b.title && a.description == b.description &&
    a.status == b.status && a.priority == b.priority
  }

  /**
   * The row the storage creates from a draft under the autoincrement id `id`
   * at clock tick `now`: column defaults fill what the draft leaves out, and
   * both timestamps are set to `now`.
   */
  function Materialize(d: Draft, id: int, now: nat): (t: Task)
    ensures t.id == id && t.title == d.title && t.description == d.description
    ensures d.status.None? ==> t.status == DefaultStatus
    ensures d.status.Some? ==> t.status == d.status.value
    ensures d.priority.None? ==> t.priority == DefaultPriority
    ensures d.priority.Some? ==> t.priority == d.priority.value
    ensures t.createdAt == now && t.updatedAt == now
    ensures FitsColumns(d.title) ==> Valid(t)
  {
    Task(id, d.title, d.description, d.status.GetOr(DefaultStatus),
         d.priority.GetOr(DefaultPriority), now, now)
  }
}
