# Tasks table of the TodoList API and CLI, in Dafny

This project models the one piece of `main.py` with behaviour worth stating:
the SQLite `tasks` table and what the four HTTP handlers (`get_tasks`,
`create_task`, `update_task`, `delete_task`) and the CLI commands (`addItem`,
`updateItem`, `removeItem`, `showList`) do to it, together with the field
validation declared on the pydantic models `TaskBase`, `TaskCreate`,
`TaskUpdate` and `Task`.

- `models.dfy`, module `Models`: the request bodies as sent (each field left
  out, `null`, or a string), the validated `TaskCreate` and `TaskUpdate`, the
  `Task` response, and the validation functions with their exact acceptance
  conditions (name length 1..100, description length at most 255, status in
  {pending, done, in-progress, testing}, defaults, nullability).
- `rows.dfy`, module `Rows`: a stored row, the row-to-Task mapping of
  `get_tasks`, the per-field merge of `update_task`, what a full `SELECT`
  returns, the 64-bit rowid range, and why an insert finds an unused rowid
  while one is left.
- `database.dfy`, module `Database`: class `TaskDb`, whose field `tasks` is
  the table as a map from `id` to row; each handler and CLI command is a
  method that changes that map as its SQL statement does. Three client
  methods at the end replay request sequences and prove their outcome from
  the method contracts alone.

A body that fails validation is answered with 422 before the handler runs;
the model checks the body first and leaves the table untouched. A path id
outside the signed 64-bit range cannot be bound by the `sqlite3` driver, which
raises `OverflowError`; the handler does not catch it, so the answer is 500
and the table is unchanged (the CLI commands crash the same way). `RowidKeys()`
says every key is a rowid SQLite could have given a new row (1 to 2^63 - 1);
every method keeps it. `Conforming()`
says every stored row satisfies the `Task` response model: the HTTP handlers
keep it, the CLI commands keep it only when their arguments happen to
satisfy the constraints.

Behaviour of `main.py` worth noting:

- validation failures are 422 (the framework's answer), not 400;
- `update_task` merges field by field: a field left out or sent as `null`
  keeps its stored value, so a PUT can never make a description absent again
  (`Rows.DescriptionNeverCleared`, `Database.UpdateKeepsDescription`);
- the status set has four members, including `testing`;
- a name is checked for length only, so `"   "` is accepted
  (`Models.BlankNameAccepted`);
- `TaskUpdate.status` is `Optional[...]` with no default, which pydantic 2
  treats as required but nullable: a PUT body without a `status` key is
  refused, one with `"status": null` keeps the stored status
  (`Models.UpdateNeedsStatusKey`);
- the CLI commands validate nothing and do not report unknown ids;
- ids come from SQLite's rowid and may be reused after a delete; the model
  says the new id is a positive 64-bit rowid that was not in the table;
- `SELECT` without `ORDER BY` fixes no order, so two listings of the same
  table are shown to hold the same rows, not the same sequence.

## Model

| member | source | states |
|---|---|---|
| `Models.OptionalText` | main.py:78-79 | an `Optional[str]` field with a length range is accepted exactly when it is absent, null, or a string of allowed length; the accepted value is the string sent, or none |
| `Models.CreateStatus` | main.py:72 | TaskCreate's status is accepted exactly when absent (giving "pending") or one of the four literals (giving that literal); null is refused |
| `Models.UpdateStatus` | main.py:80 | TaskUpdate's status is accepted exactly when null (giving none) or one of the four literals; a missing key is refused |
| `Models.ValidateCreate` | main.py:69-75 | a create body is accepted iff the name is a string of length 1..100, the description is absent, null or at most 255 long, and the status is absent or a literal; the result satisfies the field constraints, carries the values sent, and defaults status to pending and description to absent |
| `Models.ValidateUpdate` | main.py:77-80 | an update body is accepted iff a given name has length 1..100, a given description at most 255, and status is null or a literal; each field of the result is what the body carried, none where absent or null |
| `Models.BlankNameAccepted` | main.py:70 | a whitespace-only name passes validation: the check is on length only |
| `Models.LengthOnly` | main.py:70 | two names of the same length are accepted or refused together, by both TaskCreate and TaskUpdate validation |
| `Models.UpdateNeedsStatusKey` | main.py:80 | an update body without a status key is refused whatever it carries; with status null it is accepted exactly when it would be with a valid status |
| `Rows.ToTask` | main.py:93-99 | a fetched row becomes a Task with the same id and the same columns, field for field |
| `Rows.ToTasks` | main.py:92-100 | the comprehension yields one Task per fetched row, in the same order, each with that row's id and columns |
| `Rows.Inserted` | main.py:107-109 | the inserted row of a request that passed TaskCreate validation satisfies the Task response model |
| `Rows.Merge` | main.py:130-132 | the merged row keeps `date_added`, and a valid row merged with a valid update is still valid |
| `Rows.MergeTakesGivenKeepsOmitted` | main.py:130-132 | each of name, description and status takes the update's value when it is not None and keeps the stored value otherwise |
| `Rows.MergeNothing` | main.py:130-135 | an update carrying no field leaves the row unchanged |
| `Rows.MergeIdempotent` | main.py:130-135 | applying the same update twice equals applying it once |
| `Rows.MergeSequence` | main.py:130-135 | two successive updates equal one update in which the later one's given fields win |
| `Rows.DescriptionNeverCleared` | main.py:131 | once a row has a description, no update makes it absent |
| `Rows.ScanIsComplete` | main.py:90-91 | a full SELECT fetches every id of the table |
| `Rows.ScansAgree` | main.py:90-91 | two full SELECTs of the same table fetch the same rows and as many, possibly in different orders |
| `Rows.FreshRowidExists` | main.py:107-112 | a table with fewer rows than there are positive 64-bit rowids leaves one of them unused, so the insert gets a new key |
| `Database.TaskDb.constructor` | main.py:52-64 | creating the table on a new database gives an empty table, whose keys are trivially rowids |
| `Database.TaskDb.SelectAll` | main.py:89-91 | the SELECT returns as many rows as the table holds, each stored under its id, no id twice |
| `Database.TaskDb.GetTasks` | main.py:87-100 | GET /tasks returns one Task per stored row, equal to it field for field, every row exactly once, and changes nothing; on a conforming table every Task it returns satisfies the response model |
| `Database.TaskDb.CreateTask` | main.py:102-115 | POST /tasks succeeds exactly when the body validates and a rowid is left; then it adds one row under a positive 64-bit id not present before, holding the validated fields and the given date, changes no other row, and returns the stored row; an invalid body is 422, a full table 500, both with the table unchanged; conformance and rowid keys are kept |
| `Database.TaskDb.UpdateTask` | main.py:122-138 | PUT with an id outside the signed 64-bit range is 500 and on an unknown id 404, both changing nothing; on a known id the row becomes the merge of the stored row and the update, no other row changes, and the response equals the row now stored; an invalid body is 422 with no change; conformance and rowid keys are kept |
| `Database.TaskDb.DeleteTask` | main.py:140-148 | DELETE with an id outside the signed 64-bit range is 500 and on an unknown id 404, both changing nothing; on a known id exactly that row is removed and the table shrinks by one |
| `Database.TaskDb.AddItem` | main.py:162-171 | the CLI inserts one pending row with the given name and description under an unused positive 64-bit id, with no validation; with no rowid left nothing changes |
| `Database.TaskDb.UpdateItem` | main.py:173-181 | the CLI sets the status of an existing row to any text and changes nothing else; an unknown or unbindable id changes nothing |
| `Database.TaskDb.RemoveItem` | main.py:183-191 | the CLI removes the row with that id if any; an unknown or unbindable id changes nothing |
| `Database.CreateWithDefaults` | main.py:102-115 | POST with only a name yields a pending task with no description under a fresh id, stored as returned |
| `Database.UpdateKeepsDescription` | main.py:122-138 | PUT with a name and status but no description keeps the stored description and sets the status |
| `Database.CreateDeleteDelete` | main.py:140-148 | deleting a just-created task restores the table, and deleting it again is 404 |

## Left out

- FastAPI setup, CORS middleware, routing and dependency injection (main.py:19-49): framework plumbing.
- SQLite connections, commits and durability: the table is a map, and each method's change is atomic.
- The 201 and 204 success status codes and the 422/404/500 detail bodies: the model returns the value or the error kind only.
- CreateTask: does not model the `lastrowid is None` branch or the 500 answers for `sqlite3.Error` and other exceptions (main.py:113-120) other than a full table, which are library failures.
- CreateTask: which unused rowid SQLite picks is not modelled (one above the largest, or a random free one once the largest rowid is taken); the model only knows it is a positive 64-bit id the table did not hold, and it may be one freed by an earlier delete. SQLite's random search can give up with SQLITE_FULL before every rowid is taken; the model fails only when none is left.
- AddItem: same rowid choice as CreateTask; its failure on a full table is a crash of the command, modelled as no change.
- UpdateItem, RemoveItem: an unbindable id crashes the command with `OverflowError`; the model keeps only that the table is unchanged.
- Timestamps from `datetime.now().strftime` (main.py:105, main.py:164): `dateAdded` is a parameter.
- showList (main.py:151-160): its SELECT is `SelectAll`; the prettytable rendering, printing, the CLI console messages and typer dispatch are output and UI.
- GetTasks: does not model the 500 raised when a stored row fails the Task response model (for example a status written by `updateItem` outside the literal set); `Conforming()` states when this cannot happen.
- UpdateTask: when the merged row fails the Task model because it keeps a field the CLI wrote, the source commits the UPDATE and then fails building the response; the model answers with the row.
- Pydantic coercion of non-string JSON values and non-integer path ids: body fields are modelled as strings, absent or null, and ids as integers.
- The order of rows returned by a SELECT without ORDER BY: left unspecified.
