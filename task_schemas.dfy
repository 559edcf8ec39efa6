/**
 * Validation of the request payloads (app/schemas/task.py): the field
 * constraints of `TaskCreate` and `TaskUpdate`, and the positive-id check of
 * `BatchProcessRequest`. A field that is `Optional` in the source, or
 * required, is `None` when omitted or null alike; the creation payload's
 * priority, a non-optional field with a default, tells the two apart.
 *
 * The status enumeration of the payloads has exactly the values of the
 * storage enumeration, so `TaskModel.Status` serves for both.
 */
module TaskSchemas {
  import opened Wrappers
  import opened TaskModel

  /** Why a payload is rejected; a rejection lists every failing field. */
  datatype ValidationError =
    | TitleMissing
    | TitleLength
    | PriorityRange
    | PriorityNull
    | StatusUnknown
    | TaskIdsEmpty
    | TaskIdNotPositive

  const TitleMinLength: nat := 1
  const PriorityMin: int := 1
  const PriorityMax: int := 5

  predicate TitleAccepted(title: string) {
    TitleMinLength <= |title| <= TitleMaxLength
  }

  predicate PriorityAccepted(p: int) {
    PriorityMin <= p <= PriorityMax
  }

  /** A payload field that may be left out, sent as null, or given a value. */
  datatype Field<+T> = Omitted | Null | Given(value: T)

  /** A validated creation payload. */
  datatype TaskCreate = TaskCreate(title: string, description: Option<string>, priority: int)

  /** What every `TaskCreate` value guarantees. */
  predicate CreateAccepted(c: TaskCreate) {
    TitleAccepted(c.title) && PriorityAccepted(c.priority)
  }

  /** The errors of a creation payload, in field order. */
  function CreateErrors(title: Option<string>, priority: Field<int>): seq<ValidationError> {
    (if title.None? then [TitleMissing] else if !TitleAccepted(title.value) then [TitleLength] else []) +
    (if priority.Null? then [PriorityNull]
     else if priority.Given? && !PriorityAccepted(priority.value) then [PriorityRange]
     else [])
  }

  /**
   * `TaskCreate`: a title of 1 to 200 characters is required; the priority,
   * 1 to 5, defaults to 3 when left out and may not be null; the
   * description defaults to none.
   */
  function ValidateCreate(title: Option<string>, description: Option<string>, priority: Field<int>)
    : (r: Result<TaskCreate, seq<ValidationError>>)
    ensures r.Success? <==>
      title.Some? && TitleAccepted(title.value) &&
      (priority.Omitted? || (priority.Given? && PriorityAccepted(priority.value)))
    ensures r.Success? ==>
      && CreateAccepted(r.value)
      && r.value.title == title.value
      && r.value.description == description
      && r.value.priority == (if priority.Given? then priority.value else DefaultPriority)
    ensures r.Failure? ==>
      && r.error != []
      && (TitleMissing in r.error <==> title.None?)
      && (TitleLength in r.error <==> title.Some? && !TitleAccepted(title.value))
      && (PriorityNull in r.error <==> priority.Null?)
      && (PriorityRange in r.error <==> priority.Given? && !PriorityAccepted(priority.value))
  {
    var errors := CreateErrors(title, priority);
    if errors == [] then
      Success(TaskCreate(title.value, description, if priority.Given? then priority.value else DefaultPriority))
    else Failure(errors)
  }

  /** A left-out priority takes the default; an explicit null is rejected. */
  lemma NullPriorityRejected(title: string)
    requires TitleAccepted(title)
    ensures ValidateCreate(Some(title), None, Omitted) == Success(TaskCreate(title, None, DefaultPriority))
    ensures ValidateCreate(Some(title), None, Null) == Failure([PriorityNull])
  {
    var r := ValidateCreate(Some(title), None, Null);
    assert r.Failure?;
    assert r.error == [PriorityNull];
  }

  /** A validated patch: every field optional. */
  datatype TaskUpdate = TaskUpdate(
    title: Option<string>,
    description: Option<string>,
    status: Option<Status>,
    priority: Option<int>)

  /** What every `TaskUpdate` value guarantees about the fields it carries. */
  predicate UpdateAccepted(u: TaskUpdate) {
    (u.title.Some? ==> TitleAccepted(u.title.value)) &&
    (u.priority.Some? ==> PriorityAccepted(u.priority.value))
  }

  /** The errors of a patch, in field order. */
  function UpdateErrors(title: Option<string>, status: Option<string>, priority: Option<int>)
    : seq<ValidationError>
  {
    (if title.Some? && !TitleAccepted(title.value) then [TitleLength] else []) +
    (if status.Some? && ParseStatus(status.value).None? then [StatusUnknown] else []) +
    (if priority.Some? && !PriorityAccepted(priority.value) then [PriorityRange] else [])
  }

  /**
   * `TaskUpdate`: every field may be absent; a present title has 1 to 200
   * characters, a present status names one of the three statuses and a
   * present priority lies in 1 to 5.
   */
  function ValidateUpdate(title: Option<string>, description: Option<string>,
                          status: Option<string>, priority: Option<int>)
    : (r: Result<TaskUpdate, seq<ValidationError>>)
    ensures r.Success? <==>
      && (title.Some? ==> TitleAccepted(title.value))
      && (status.Some? ==> exists s: Status :: StatusName(s) == status.value)
      && (priority.Some? ==> PriorityAccepted(priority.value))
    ensures r.Success? ==>
      && UpdateAccepted(r.value)
      && r.value.title == title
      && r.value.description == description
      && r.value.priority == priority
      && (r.value.status.None? <==> status.None?)
      && (r.value.status.Some? ==> StatusName(r.value.status.value) == status.value)
    ensures r.Failure? ==>
      && r.error != []
      && (TitleLength in r.error <==> title.Some? && !TitleAccepted(title.value))
      && (PriorityRange in r.error <==> priority.Some? && !PriorityAccepted(priority.value))
      && (StatusUnknown in r.error <==> status.Some? && forall s: Status :: StatusName(s) != status.value)
  {
    var errors := UpdateErrors(title, status, priority);
    if errors == [] then
      Success(TaskUpdate(title, description,
                         if status.Some? then ParseStatus(status.value) else None,
                         priority))
    else Failure(errors)
  }

  /** The empty patch is accepted. */
  lemma EmptyPatchAccepted()
    ensures ValidateUpdate(None, None, None, None) == Success(TaskUpdate(None, None, None, None))
  {
  }

  /** The generator test `any(task_id <= 0 for task_id in v)`. */
  function AnyNonPositive(v: seq<int>): (b: bool)
    ensures b <==> exists i :: 0 <= i < |v| && v[i] <= 0
  {
    if v == [] then false
    else if v[0] <= 0 then true
    else
      var rest := AnyNonPositive(v[1..]);
      assert forall i :: 1 <= i < |v| ==> v[i] == v[1..][i - 1];
      rest
  }

  /**
   * `BatchProcessRequest`: the id list must be non-empty and every id
   * positive; an accepted list is passed on unchanged.
   */
  function ValidateTaskIds(v: seq<int>): (r: Result<seq<int>, ValidationError>)
    ensures r.Success? <==> |v| > 0 && forall i :: 0 <= i < |v| ==> v[i] > 0
    ensures r.Success? ==> r.value == v
    ensures r.Failure? ==> (r.error == TaskIdsEmpty <==> v == [])
  {
    if v == [] then Failure(TaskIdsEmpty)
    else if AnyNonPositive(v) then Failure(TaskIdNotPositive)
    else Success(v)
  }
}
