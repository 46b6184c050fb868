# QuickTask task service, modelled in Dafny

QuickTask is a small REST service over one table of tasks. A task has an id, a title, an
optional description, a completion flag and two timestamps. This project models the logic
under the web framework and the ORM:

- the `Task` record: its columns, which of them may be NULL, and the values the database
  fills in on insert and on update (`wrappers.dfy`, `models.dfy`);
- the payload schemas `TaskBase`, `TaskCreate` and `TaskUpdate`, and the response model `Task`:
  length bounds, defaults, whitespace stripping and the root check that refuses an empty partial
  update (`schemas.dfy`);
- the table and its five operations `list_tasks`, `get_task`, `create_task`, `update_task` and
  `delete_task`. They are methods of a `TaskTable` class that owns a `map<string, Task>` and
  changes it in place (`crud.dfy`);
- the decision logic of the six request handlers. Each one returns a domain `Outcome` rather
  than an HTTP status (`endpoints.dfy`);
- the four tests of the repository's test suite, replayed against the handler contracts
  (`scenario.dfy`).

The `ORDER BY created_at DESC` of `list_tasks` is carried out by a loop in
`Crud.TaskTable.ListTasks` that repeatedly takes the newest remaining row.

A request body is a JSON object, modelled as `map<string, Raw>`. The body is validated before
the handler looks at the table, as the framework does. The clock is a parameter `now`, and the
drawn UUID is a parameter `freshId`. The table keeps a ghost `latest` clock reading, and every
writing method requires `latest <= now`: this is the assumption that the clock never runs
backwards. Every row satisfies `Models.Stored`:
- the key equals the id;
- the title has 1..255 characters;
- the description is absent or has 1..10000 characters;
- `created_at <= updated_at <= latest`.

The schemas are read with pydantic 1 semantics: the `class Config` keys
`anystr_strip_whitespace`, `min_anystr_length` and `orm_mode` and the `root_validator(pre=True)`
take effect as pydantic 1 defines them. In particular, `TaskUpdate` and the response model strip
a string before its length is checked, and the root check sees the raw body. Under pydantic 2
those configuration keys are not applied, and the stripping described below would not happen.

Behaviour of the code that the model makes explicit:
- `TaskCreate` does not strip whitespace, but `TaskUpdate` and the response model do. So a
  whitespace-only title is accepted by POST and stored, yet it can never be returned through
  the response model (`Schemas.BlankTitleOnlyCreateAccepts`).
- The root check of `TaskUpdate` looks at the raw body, unknown keys included, and refuses only
  a body whose values are ALL null.
  - `{"title": null, "is_completed": true}` passes validation, and the commit then breaks the
    NOT NULL constraint on `title` (`Endpoints.PatchWithNullTitleReachesStore`).
  - A body of unknown keys only passes too, and changes nothing (`Endpoints.PatchWithUnknownKeyOnly`).
- `updated_at` moves only when the commit changes some column value. SQLAlchemy issues no
  UPDATE otherwise, so `onupdate` does not fire.
- PUT first validates the body as `TaskCreate` (no stripping), looks the id up, and then builds a
  `TaskUpdate` from it, which strips. If stripping leaves a title or a description empty, the
  validation error is raised inside the handler, after the lookup. The model reports it as
  `ServerError(PayloadRejected(..))`, not as an invalid request.

Behaviour a reader might not expect:
- Not every input string is stripped: only `TaskUpdate` strips. An empty description is
  refused (`min_length=1`), not treated as absent.
- `updated_at` does not move on every mutation. It takes the current clock reading only when a
  value changes.
- Not all invalid input is stopped by validation. Explicit nulls in a PATCH for `title` or
  `is_completed` reach the store, which refuses them.

## Model

| member | source | states |
|---|---|---|
| `Models.DataColumns` | Vibe_coding/src/models.py:64-71 | a record's data columns are complete, typed and satisfy NOT NULL; they hold the title, the flag and the description text, and `description` is NULL exactly when the record has none |
| `Models.FromRow` | Vibe_coding/src/models.py:64-71 | a committed row reads back as a record whose data columns are exactly that row, with the id and timestamps given |
| `Models.RowRoundTrip` | Vibe_coding/src/models.py:64-71 | reading a record's own columns back gives the record itself |
| `Models.DataColumnsInjective` | Vibe_coding/src/models.py:64-71 | with the same id and timestamps, two records are equal exactly when their data columns are |
| `Models.NewRecord` | Vibe_coding/src/models.py:64-71 | an inserted record keeps the given id, title and description; `is_completed` is true only when given true (default false); `created_at` and `updated_at` both take the insert time |
| `Schemas.KeyOf` | Vibe_coding/src/schemas.py:34-36 | each writable column is sent under its own body key: `title`, `description` or `is_completed`, one-to-one |
| `Schemas.TrimStart` | Vibe_coding/src/schemas.py:41 | the result is the suffix that starts at the first non-space character; everything dropped is whitespace |
| `Schemas.TrimEnd` | Vibe_coding/src/schemas.py:41 | the result is the prefix that ends at the last non-space character; everything dropped is whitespace |
| `Schemas.Strip` | Vibe_coding/src/schemas.py:41 | the stripped string has no surrounding whitespace, is no longer than the input, and is empty exactly when the input is all whitespace |
| `Schemas.StripKeepsMiddle` | Vibe_coding/src/schemas.py:41 | the stripped string is a contiguous piece of the input with only whitespace before and after it |
| `Schemas.CutBothEnds` | Vibe_coding/src/schemas.py:41 | dropping a leading whitespace run and then a trailing one leaves a piece of the input surrounded by whitespace only |
| `Schemas.StripTrimmed` | Vibe_coding/src/schemas.py:60-62 | stripping a string without surrounding whitespace returns it unchanged |
| `Schemas.StripIdempotent` | Vibe_coding/src/schemas.py:60-62 | stripping twice is the same as stripping once |
| `Schemas.ConstrainedString` | Vibe_coding/src/schemas.py:19-22 | a string field is accepted exactly when the value is a string whose (optionally stripped) length is within 1..max; the accepted value is that string; errors name the field |
| `Schemas.CreateTitle` | Vibe_coding/src/schemas.py:19 | the create title is accepted exactly when present, a string, and 1..255 long without stripping |
| `Schemas.CreateDescription` | Vibe_coding/src/schemas.py:20-22 | the create description is accepted when absent, null, or a string 1..10000 long; it is absent in the payload exactly when absent or null in the body |
| `Schemas.CreateCompleted` | Vibe_coding/src/schemas.py:28 | `is_completed` is accepted when absent or a boolean, and is true only when the body says true; so it defaults to false |
| `Schemas.ParseCreate` | Vibe_coding/src/schemas.py:16-28 | a body is a valid `TaskCreate` exactly when all three fields are; the payload obeys the bounds, keeps the title as sent, and defaults the description to none and the flag to false; the payload is exactly the title, description and flag each field validator accepted, so a sent description and flag are kept as sent; a failure names at least one field |
| `Schemas.CreateErrorsNameFailingFields` | Vibe_coding/src/schemas.py:16-28 | a refused create body carries an error at `title`, `description` or `is_completed` exactly when that field's validator refused it |
| `Schemas.UpdateField` | Vibe_coding/src/schemas.py:34-41 | an accepted `TaskUpdate` field has the column's type and is null exactly when null was sent; a refusal is located at that field |
| `Schemas.UpdateFieldAccepts` | Vibe_coding/src/schemas.py:34-41 | an accepted `TaskUpdate` field is a typed cell whose text is stripped and within the column's bounds |
| `Schemas.UpdateFieldMeaning` | Vibe_coding/src/schemas.py:34-41 | a `TaskUpdate` field is accepted exactly when it is null, a boolean for `is_completed`, or a string whose stripped text is 1..max long; it keeps the boolean as sent and the stripped text |
| `Schemas.ParseUpdate` | Vibe_coding/src/schemas.py:31-49 | an empty or all-null body fails with the root error alone; otherwise a body is accepted exactly when each known field present is; the set-field map has exactly the known keys sent, each with its validated value |
| `Schemas.UpdateErrorsNameFailingFields` | Vibe_coding/src/schemas.py:31-49 | past the root check, a refused partial update carries an error at a field exactly when that field was sent and its value refused, and no error at the root |
| `Schemas.Present` | Vibe_coding/src/schemas.py:52-62 | the response strips every string and succeeds exactly when the stripped title is 1..255 and a stripped description is 1..10000; the other fields pass through |
| `Schemas.PresentTrimmed` | Vibe_coding/src/schemas.py:52-62 | a stored record whose strings carry no surrounding whitespace is returned exactly as stored |
| `Schemas.BlankTitleOnlyCreateAccepts` | Vibe_coding/src/schemas.py:16-41 | a whitespace-only title is accepted by `TaskCreate` but refused by `TaskUpdate` and by the response model |
| `Crud.NewestExists` | Vibe_coding/src/crud.py:16 | every non-empty part of the table has a newest record |
| `Crud.ListingCoversTable` | Vibe_coding/src/crud.py:13-16 | a listing contains every stored record |
| `Crud.Created` | Vibe_coding/src/crud.py:28 | the new record carries the drawn id and the payload's title, description and flag, created and updated at the insert time |
| `Crud.ApplyUpdate` | Vibe_coding/src/crud.py:35-44 | the commit fails exactly when a NOT NULL column is set to null; otherwise every set column takes its new value and every other column keeps its old one; id and `created_at` never change; `updated_at` moves to now exactly when some set column differs from the stored value, and a map that only repeats stored values leaves the record identical |
| `Crud.UpdateNothing` | Vibe_coding/src/crud.py:38-39 | an empty set-field map leaves the record identical, `updated_at` included |
| `Crud.UpdateFields` | Vibe_coding/src/crud.py:38-39 | after an update, title, description and flag are the values set, or the old values where nothing was set |
| `Crud.UpdateKeepsStored` | Vibe_coding/src/crud.py:35-44 | an update with a valid `TaskUpdate` keeps the row invariant, with the clock at now |
| `Crud.TaskTable.ListTasks` | Vibe_coding/src/crud.py:13-16 | returns each stored record exactly once, ordered by `created_at` newest first (so an empty table gives an empty list) |
| `Crud.TaskTable.GetTask` | Vibe_coding/src/crud.py:19-22 | returns the record stored under the id, or none when there is none; reads only |
| `Crud.TaskTable.CreateTask` | Vibe_coding/src/crud.py:25-32 | takes a 36-character id, as `str(uuid4())` draws; with an unused id, adds exactly the new record and keeps all others (the table grows by one); with a used id, fails on the primary key and changes nothing |
| `Crud.TaskTable.UpdateTask` | Vibe_coding/src/crud.py:35-44 | the result is `ApplyUpdate` of the stored record; on success only that record is replaced, on failure the table is unchanged |
| `Crud.TaskTable.DeleteTask` | Vibe_coding/src/crud.py:47-51 | removes exactly that id; the table shrinks by one |
| `Endpoints.AsUpdateBody` | Vibe_coding/src/main.py:56 | `task_in.dict()` sends every field with its value, the description as null when absent |
| `Endpoints.ReplacementFields` | Vibe_coding/src/main.py:56 | the PUT update sets every column: title and description stripped, the flag as given, the description null when absent; it fails exactly when stripping empties the title or the description |
| `Endpoints.ReplacementBodyFields` | Vibe_coding/src/main.py:56 | in the rebuilt body, the title and a description pass `TaskUpdate` exactly when they are not all whitespace, keeping the stripped text, and the flag always passes as sent |
| `Endpoints.ReplacementCommits` | Vibe_coding/src/main.py:56-57 | a PUT update never violates NOT NULL, so its commit succeeds |
| `Endpoints.ReplaceResetsOmittedFields` | Vibe_coding/src/main.py:56-57 | a PUT that omits description and completion clears the description and resets the flag to false |
| `Endpoints.PatchWithNullTitleReachesStore` | Vibe_coding/src/schemas.py:43-49 | a PATCH that mixes a null title with a value passes validation and then fails on NOT NULL at commit |
| `Endpoints.PatchTitleAndFlag` | Vibe_coding/src/schemas.py:31-49 | a PATCH body naming a clean title and the flag yields a set-field map of exactly those two fields, with the values sent |
| `Endpoints.PatchWithUnknownKeyOnly` | Vibe_coding/src/schemas.py:43-49 | a PATCH of unknown keys only passes the root check, sets no field and leaves the record unchanged |
| `Endpoints.ReadTasks` | Vibe_coding/src/main.py:25-29 | GET /tasks returns the table's listing in its order |
| `Endpoints.CreateTask` | Vibe_coding/src/main.py:32-41 | takes a 36-character drawn id; an invalid body is refused with the table unchanged; a valid one is inserted under an unused id and returned as created |
| `Endpoints.ReplaceTask` | Vibe_coding/src/main.py:44-57 | an invalid body is refused and an unknown id is not found, the table unchanged either way; otherwise the full update is applied to that record alone and returned |
| `Endpoints.UpdateTask` | Vibe_coding/src/main.py:60-70 | an invalid body is refused and an unknown id is not found, the table unchanged either way; otherwise the set-field map is applied as received, and a store refusal leaves the table unchanged |
| `Endpoints.DeleteTask` | Vibe_coding/src/main.py:73-85 | an unknown id is not found with the table unchanged; otherwise that record alone is removed, with no content returned |
| `Endpoints.ReadTask` | Vibe_coding/src/main.py:88-96 | returns the stored record exactly when the id is in the table, otherwise not found |

## Left out

- Engine and session setup (`create_engine`, `SessionLocal`, `init_db`, `get_db`, the database
  URL from the environment): database plumbing. An empty `TaskTable` stands for a freshly
  created table.
- Routing, dependency injection, `HTTPException` and status codes, and the server start-up.
  Handlers return an `Outcome` instead. The framework's serialisation of a returned record
  through the response model is not part of the handler outcomes: `Schemas.Present` states
  what that step accepts.
- UUID randomness and `datetime.utcnow`: they are the parameters `freshId` and `now`. The source
  reads the clock once per column default on insert. The model uses one reading for both
  `created_at` and `updated_at`.
- Column widths `String(36)` and `String(255)`: SQLite, the default and test backend, does not
  enforce them; the payload bounds keep every value within them anyway. The 255-character bound
  on stored titles comes from the payload schemas, as an invariant of the table.
- Order among tasks with equal `created_at`: the ORDER BY leaves it open, and so does
  `Crud.TaskTable.ListTasks`, which may return them in any order.
- Lenient type coercion of the payload library (numbers and booleans accepted as strings,
  `"yes"` or `1` accepted as booleans): such values are treated as type errors.
- A body that is not a JSON object, or a missing body: the framework rejects these before any
  schema runs.
- The wording of validation messages: an error carries only its location and kind.
- Concurrent sessions and last-writer-wins: the model is sequential.
- The re-export modules at the package root and the test fixtures (`conftest.py`): wiring only.
