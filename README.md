# Message store of a WeChat-to-language-model webhook bridge

The bridge receives chat messages from a WeChat official-account webhook and answers them
with a language-model completion. Its data-access layer, `crud.py`, defines six operations
on a `messages` table of `Message` records. They are lookup by primary key, the
fingerprint lookup for an unfulfilled request with the same sender and text, the
time-ordered listing, insert, update, and get-or-create keyed on the message id. This
project models that record and those six operations. The POST handler of this revision
(main.py:45-65) does not call them: it passes the message text straight to the model and
stores nothing.

The table is a sequence of `Message` rows in storage order (`Models.Table`). The
primary-key constraint on `id` is `Models.UniqueIds`. Queries are functions of the rows,
so they cannot change the table. Writes are methods of the class `Crud.MessageDb`, which
holds the rows in a field. Each write is specified by a function of the rows before the
call (`Crud.Upserted`, `Crud.GetOrCreate`, or appending one row). The lemmas about those
functions state what the writes promise: keys stay unique, nothing else changes, and
get-or-create is idempotent.

Files:
- `wrappers.dfy`: `Option` (a query that finds no row) and `Result` (a commit that fails).
- `models.dfy`: the record, the schema's defaults, the fingerprint, and the table predicates.
- `crud.dfy`: the queries, the write specifications with their lemmas, and `MessageDb`.

## Model

| member | source | states |
|---|---|---|
| `Crud.GetMessage` | crud.py:10-11 | the result is a stored row with the requested key; it is `None` exactly when no stored row has that key |
| `Crud.GetMessageIsTheKeyedRow` | models.py:9 | under the primary key, the row with a given id is the one the lookup returns |
| `Crud.GetUnhandledMessage` | crud.py:13-14 | sound: a returned row is stored, has the request's source and content, and is unfulfilled; complete: `None` exactly when no stored row meets all three; the returned row is the first such row in storage order |
| `Crud.CreatedRequestIsUnhandled` | crud.py:13-14 | after an unfulfilled request is appended, the fingerprint lookup returns the earliest older unfulfilled row with that fingerprint, or the request itself when there is none |
| `Crud.NewRequestIsUnhandledAfterCreate` | schemas.py:13-15 | a request built with the schema defaults (no reply, not fulfilled) under a new id is appended by get-or-create and is then matched by the fingerprint lookup; it is the row returned when no older unfulfilled row has its fingerprint |
| `Crud.FulfilledRowIsNotUnhandled` | crud.py:14 | after a row is stored as fulfilled, the fingerprint lookup never answers with a row of that key |
| `Crud.GetAllMessages` | crud.py:7-8 | the listing is in non-decreasing `create_time` order and is a permutation of the stored rows |
| `Crud.RowOccursOnce` | models.py:9 | under the primary key, every stored row occurs exactly once in the table |
| `Crud.ListingHoldsEachRowOnce` | crud.py:7-8 | every stored row occurs exactly once in the listing, and the listing is as long as the table |
| `Crud.InsertOnlyAddsRow` | crud.py:24-29 | inserting a row with a new key makes that key look up the new row; every other key looks up what it did before |
| `Crud.InsertKeepsIdsUnique` | models.py:9 | inserting a row with a new key keeps all keys unique |
| `Crud.Upserted` | crud.py:31-35 | the written row is stored; every row is the written row or was stored before; the table grows by one only when the key was new; every row with another key keeps its place and value |
| `Crud.UpsertStoresRow` | crud.py:31-35 | after an update, keys are still unique, and the only row with the written key is the written row, which the lookup returns |
| `Crud.UpsertKeepsOtherKeys` | crud.py:31-35 | an update leaves the lookup of every other key unchanged |
| `Crud.GetOrCreate` | crud.py:37-41 | the returned row has the requested id and is stored; the old rows are a prefix of the new ones, which are at most one row longer |
| `Crud.GetOrCreateReturnsStoredRow` | crud.py:37-40 | when a row with the id is stored, that row is returned unchanged, whatever the request's other fields say, and nothing is written |
| `Crud.GetOrCreateInsertsWhenAbsent` | crud.py:41 | when no row has the id, the request is appended as the only new row and keys stay unique |
| `Crud.GetOrCreateIdempotent` | crud.py:37-41 | a second call with the same request returns the same row and leaves the table as the first call left it; keys stay unique |
| `Crud.MessageDb.CreateMessage` | crud.py:24-29 | a new key appends exactly the request and returns it, and all earlier rows are unchanged; an existing key fails with a duplicate-key error and writes nothing |
| `Crud.MessageDb.UpdateMessage` | crud.py:31-35 | the rows become `Upserted(old rows, msg)`, keys stay unique, the lookup of `msg.id` returns `msg`, and `msg` is returned |
| `Crud.MessageDb.GetOrCreateMessage` | crud.py:37-41 | the result and new rows are `GetOrCreate(old rows, msg)`: the stored row and no write when the key exists, otherwise an insert of `msg` |

## Left out

- The HTTP handlers, signature checks, XML parsing and reply rendering in `main.py` are not modelled. They are transport code and calls into foreign libraries.
- The language-model completion in `main.py` is not modelled. It is an opaque network call.
- The 4.9-second wait with its timeout fallback in `main.py` is not modelled. It is concurrency with a wall-clock bound.
- Settings loading in `main.py` is not modelled. It reads the environment at start-up.
- `mock_wechat_request.py` is not modelled. It is a one-off HTTP client script.
- Session mechanics are not modelled: `commit`, `refresh`, column indexes and transaction isolation. The store is a sequential in-memory table. The check-then-create in `get_or_create_message` is not atomic under concurrent requests, and the model does not claim that it is.
- The commented-out functions in `crud.py` are not live code and are not modelled.
- The schema field `req_times` (schemas.py:14) has no column in `models.Message`. The ORM constructor at crud.py:25 would therefore receive a keyword it does not map. The model builds the row from the fields the two classes share and does not model that failure.
- The columns `msg_id` and `time_elapsed` (models.py:13,17) have no schema field and are not part of the record.
- `create_time` is a datetime in the schema (schemas.py:12) but an Integer column (models.py:16). The model uses an unbounded `int`.
- `id` and `create_time` are Integer columns (models.py:9,16). The model uses unbounded `int` for both and does not model the 64-bit range of the columns.
- `Crud.GetAllMessages` breaks ties between equal `create_time` values by storage order. The SQL query leaves that order unspecified.
- `Crud.GetUnhandledMessage` takes "first" to mean first in storage order. The query has no `ORDER BY`, so the database chooses the order.
- `Crud.MessageDb.UpdateMessage` treats the argument as the session's own copy of the row, which the commit writes back. A transient object (built fresh, never loaded) carrying a stored key would instead be inserted and fail with an integrity error. That case is not modelled.
- `Crud.MessageDb.UpdateMessage` identifies the row by the id the argument carries. If a caller reassigns the primary key of the session's own row before the call, the database rewrites that row's key and the old key disappears. The model instead appends a row under the new key and keeps the old row. The model assumes that the primary key of a loaded row is never reassigned.
- `Crud.MessageDb.CreateMessage` models only the duplicate-key failure of the commit. Other database errors are not modelled.
