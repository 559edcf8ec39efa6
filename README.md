# Task lifecycle model

A verified model of the task-tracking core of a small web service. A task
moves through the closed lifecycle pending → in_progress → completed. The
model covers four layers:

- **Entity** (`TaskModel`): the `tasks` row, the closed status set, the storage defaults (status pending, priority 3).
- **Repository** (`Repository`, class `TaskRepository`): the table as a map from id to row. It has an autoincrement counter and a logical clock standing in for `created_at`/`updated_at`. Queries are functions (point lookup; filtered count with a newest-first page). Writes are methods (insert, write-back, targeted status update, delete).
- **Lifecycle service** (`Service`, class `TaskService`): creation as pending, `TaskNotFound` as a result value, partial updates, deletion, and the batch that completes many tasks and counts the ids that matched.
- **Validators** (`TaskSchemas`): the field constraints of the create, update and batch payloads.

`Scenarios.Lifecycle` is a client that uses only the contracts. It walks through create, read-back, a batch with one known and two unknown ids, and delete. `Scenarios.IdsNotReused` creates, deletes and creates again: the second task gets a different id and the deleted one stays not found.

Storage behaviour follows the configured backend (MySQL through SQLAlchemy):

- An UPDATE reports the rows it matched.
- The model compares the filter text exactly (see `Repository.Matches` under Left out).
- The Python-side `onupdate` refreshes `updated_at` on the targeted status UPDATE too.
- Writing back an object whose fields did not change issues no UPDATE, so `updated_at` stays as it was.
- A field left as `None` on a new object is not sent, so the column default applies.

Three further points about the code:

- `updated_at` is refreshed only when a write-back changes some field (`Repository.Flushed`).
- The service does not re-check `priority`, and the storage does not constrain it. `Service.RowsAccepted` shows that validated payloads keep every stored title and priority in bounds, and every service operation preserves it.
- The code runs the batch units concurrently. The model runs them as one sequential loop, where a duplicate id is matched and counted once per occurrence.

## Model

| member | source | states |
|---|---|---|
| `TaskModel.ParseStatus` | app/models/task.py:19-24 | a status is read back only from the exact name of one; any other text names no status (the closed set) |
| `TaskModel.StatusNameRoundTrip` | app/schemas/task.py:13-18 | the three statuses have distinct names and each parses back to itself |
| `TaskModel.Materialize` | app/models/task.py:32-68 | an inserted row takes its id from storage; an omitted status becomes pending and an omitted priority 3; both timestamps are the insert time; a title that fits the column gives a valid row |
| `TaskSchemas.ValidateCreate` | app/schemas/task.py:24-34 | accepted iff a title of 1-200 characters is present and the priority is left out or given as 1-5; a left-out priority defaults to 3, an explicit null priority is rejected, the description defaults to none; each failing field is reported |
| `TaskSchemas.NullPriorityRejected` | app/schemas/task.py:28-33 | a left-out priority becomes 3, while a null priority is rejected on its own |
| `TaskSchemas.ValidateUpdate` | app/schemas/task.py:39-45 | accepted iff each present field meets its bound (title 1-200, status one of the three names, priority 1-5); absent fields stay absent; each failing field (title length, unknown status, priority range) is reported |
| `TaskSchemas.EmptyPatchAccepted` | app/schemas/task.py:42-45 | the all-absent patch is valid |
| `TaskSchemas.AnyNonPositive` | app/schemas/task.py:61 | true iff some id in the list is zero or negative |
| `TaskSchemas.ValidateTaskIds` | app/schemas/task.py:53-63 | accepted iff the list is non-empty and every id is positive; an accepted list is returned unchanged; the empty list gets its own error |
| `Repository.Matches` | app/repositories/task_repository.py:42-44 | an absent or empty filter keeps every row; otherwise a row is kept iff the filter text parses to its status |
| `Repository.MatchingIds` | app/repositories/task_repository.py:42-51 | every listed id names a row below the bound that the filter keeps, and ids strictly decrease (newest first) |
| `Repository.MatchingIdsComplete` | app/repositories/task_repository.py:39-48 | every matching id is listed, so the listing has exactly as many entries as the filtered count |
| `Repository.UnfilteredKeepsAll` | app/repositories/task_repository.py:42-44 | an absent or empty filter keeps every row |
| `Repository.Window` | app/repositories/task_repository.py:51 | offset/limit: the window has min(limit, max(0, n - skip)) elements, the k-th being element skip + k |
| `Repository.WindowsTile` | app/repositories/task_repository.py:51 | two consecutive windows concatenate to the window spanning both |
| `Repository.Listing` | app/repositories/task_repository.py:51 | every listed row is a stored row that the filter keeps |
| `Repository.ListingSpec` | app/repositories/task_repository.py:39-55 | in a well-formed table the listing holds each row the filter keeps exactly once and nothing else, ordered by created_at descending |
| `Repository.Flushed` | app/repositories/task_repository.py:68-72 | write-back keeps the edited content under the stored id and created_at; updated_at moves to now only when some field changed |
| `Repository.FlushedValid` | app/models/task.py:58-68 | a written-back row stays valid (updated_at >= created_at), and a real change moves updated_at strictly forward |
| `Repository.WithStatus` | app/repositories/task_repository.py:81-85 | a status update changes that row's status and updated_at only; the keys and every other row are unchanged |
| `Repository.WithStatusWellFormed` | app/repositories/task_repository.py:81-86 | a status update keeps the storage invariant |
| `Repository.TaskRepository.GetById` | app/repositories/task_repository.py:19-24 | returns the row iff one has that id, and its own id is that id; absence is a value, not an error |
| `Repository.TaskRepository.GetAll` | app/repositories/task_repository.py:26-55 | total is the number of rows the filter keeps (all rows for an absent or empty filter) and does not depend on skip/limit; the page has min(limit, max(0, total - skip)) rows, each a stored row the filter keeps, newest first |
| `Repository.TaskRepository.GetAllPagesTile` | app/repositories/task_repository.py:50-55 | consecutive pages neither skip nor repeat a row |
| `Repository.TaskRepository.GetAllFirstPageComplete` | app/repositories/task_repository.py:50-55 | a first page at least as long as the total holds every matching row |
| `Repository.TaskRepository.Create` | app/repositories/task_repository.py:59-64 | adds exactly one row, under an id not in the table before, and leaves every other row unchanged |
| `Repository.TaskRepository.Update` | app/repositories/task_repository.py:68-72 | persists the edited fields of a loaded row as `Flushed` describes; nothing else changes |
| `Repository.TaskRepository.UpdateStatus` | app/repositories/task_repository.py:74-87 | returns true iff a row had that id; that row gets the status, its title, description, priority and created_at unchanged; every other row unchanged; on an absent id the table is unchanged |
| `Repository.TaskRepository.Delete` | app/repositories/task_repository.py:91-94 | removes exactly that row; afterwards lookup by its id gives none, and the id is below the counter so it is never handed out again |
| `Service.ApplyPatch` | app/services/task_service.py:73-80 | the patched row keeps the id and both timestamps; the empty patch is the identity |
| `Service.ApplyPatchFields` | app/services/task_service.py:73-80 | a patch overwrites exactly the fields it carries; an absent description never clears the stored one |
| `Service.EmptyPatchWritesNothing` | app/services/task_service.py:73-82 | an empty patch leaves the stored row, updated_at included, as it was |
| `Service.UnitSucceeds` | app/services/task_service.py:107-132 | a unit can succeed only when its id names a stored row, and a unit whose session failed never succeeds |
| `Service.Processed` | app/services/task_service.py:145-149 | the count over the first n units is at most n |
| `Service.ProcessedCountsSuccesses` | app/services/task_service.py:140-149 | the count is the number of units that succeeded (not faulted and id present), each occurrence on its own |
| `Service.FaultIsolation` | app/services/task_service.py:133-143 | a fault in one unit lowers the count by one only if that unit would have succeeded, and changes no other unit's outcome |
| `Service.RunUnits` | app/services/task_service.py:107-143 | the batch never adds or removes a row |
| `Service.RunUnitsWellFormed` | app/services/task_service.py:107-143 | the batch keeps the storage invariant |
| `Service.RunUnitsEffect` | app/services/task_service.py:119-132 | after the batch every id of a successful unit is completed, a row no successful unit names is unchanged, and no row changed anything but status and updated_at |
| `Service.OneKnownTwoUnknown` | tests/integration/test_endpoints.py:218-231 | one known id plus two unknown ids gives count 1 |
| `Service.DuplicateCountedTwice` | app/services/task_service.py:140-149 | a known id listed twice is counted twice in the sequential model |
| `Service.TaskService.CreateTask` | app/services/task_service.py:34-42 | persists a new pending task with title, description and priority from the payload under a fresh id, with both timestamps at the current clock, which then ticks; reading it back returns it; stored titles and priorities stay in bounds |
| `Service.TaskService.GetTask` | app/services/task_service.py:46-51 | fails with TaskNotFound(id) exactly when no row has the id; otherwise returns that row |
| `Service.TaskService.ListTasks` | app/services/task_service.py:53-65 | the repository's page unchanged: the filtered total and only rows the filter keeps |
| `Service.TaskService.UpdateTask` | app/services/task_service.py:69-82 | on an absent id fails with TaskNotFound and writes nothing; otherwise the row becomes the patched row as written back, the clock ticks only when some field changed, and nothing else changes |
| `Service.TaskService.DeleteTask` | app/services/task_service.py:86-89 | on an absent id fails with TaskNotFound and writes nothing; otherwise removes exactly that row; the clock does not move; afterwards GetTask fails with TaskNotFound |
| `Service.TaskService.ProcessTaskBatch` | app/services/task_service.py:93-151 | returns the number of units whose status update matched a row, with total_requested = number of ids; the count is at most total_requested; no row added or removed; every id of a successful unit completed; only status and updated_at change |

## Left out

- HTTP routing (`app/routers/tasks.py`) is not modelled: status codes, dependency wiring and response shapes. It pairs the batch count with the number of requested ids, and that pairing is folded into `Service.TaskService.ProcessTaskBatch`.
- Concurrency of the batch is not modelled: `asyncio.gather`, the two-second sleep, per-unit sessions and the wall-clock test. The units run as one sequential loop. This keeps the counts faithful because each unit is one single-row statement whose outcome depends only on whether its id exists. Under real concurrency the outcome for duplicate ids is not fixed by the code; here each occurrence matches and counts.
- Session faults are not modelled by mechanism. They are a parameter: the set of unit positions whose session fails. Such a unit rolls back, leaves the table as it was and is not counted. Storage faults in single-item operations are not modelled.
- Transactions are not modelled: commit/rollback plumbing, `refresh` and the engine and pool set-up (`app/core/database.py`). A session is the table itself.
- Real timestamps are not modelled; they are a logical clock that ticks on every write touching a row. Real timestamps can tie at the column's resolution, leaving the order of tied rows to the database. The clock never ties, and newest-first becomes id-descending. In the source, rows with tied `created_at` have no fixed order under offset/limit, so consecutive pages can repeat or skip such rows; `Repository.TaskRepository.GetAllPagesTile` holds only for the tie-free clock.
- `Repository.TaskRepository.Create` requires a title that fits `VARCHAR(200)`. The source does not handle the storage error a longer title raises, and every service path passes a validated title.
- `Repository.TaskRepository.Update` requires a title that fits `VARCHAR(200)`, for the same reason.
- `Repository.TaskRepository.Update` requires the row's created_at and updated_at to equal the stored ones. No caller in the source edits the timestamps of a loaded row.
- `Repository.Matches` compares the filter text exactly, as a binary collation would. On MySQL's default case-insensitive `_ci` collations, case variants such as `PENDING` also match.
- `Repository.TaskRepository.Delete` follows an id counter that persists and never goes back, so a deleted id is never handed out again. Whether that holds depends on the backend. SQLite without `AUTOINCREMENT` reuses the highest deleted rowid, and MySQL before 8.0 resets the InnoDB counter to MAX(id)+1 on restart.
- `Repository.TaskRepository.Delete` requires the task to be stored. The source passes an object it has just loaded, and deleting an object that is not persistent is an error the source does not handle.
- `Repository.TaskRepository.GetAll` takes `skip` and `limit` as natural numbers. The storage rejects negative values with an error the source does not handle.
- Pydantic mechanics are not modelled: type coercion, ignoring extra fields, and the response schemas. An omitted field and an explicit null are both `None` wherever the source treats them alike: the `Optional` fields, and the required title, where both are rejected. The creation payload's priority is the one field that tells them apart (`TaskSchemas.Field`).
- Configuration loading (`app/core/config.py`), application start-up (`app/main.py`), logging calls and test fixtures are not part of this model.
