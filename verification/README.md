# Persistence layer of the Langchain RAG chatbot, in Dafny

The chatbot keeps two SQLite tables in `rag_app.db`:

- `application_logs`, the conversation log: one row per answered question, with the
  session id, the user's question, the model's answer, the model name and a
  `created_at` timestamp;
- `document_store`, the document metadata: one row per uploaded file, with its
  filename and an `upload_timestamp`.

Both tables use `INTEGER PRIMARY KEY AUTOINCREMENT` ids and `DEFAULT CURRENT_TIMESTAMP`
timestamps. `api/db_utils.py` writes and reads them. `get_chat_history` turns a session's
rows into alternating human/ai messages for the language model. `get_all_documents`
lists the uploaded files, newest first.

This project models the whole database as one immutable value (`Schema.Db`). It holds
both tables in insertion order, the two `sqlite_sequence` counters and an abstract
clock. Each function of `db_utils.py` becomes a pure function from one database value
to the next.

- `wrappers.dfy`: `Option` (also used for a nullable SQL value) and `Result`.
- `seqs.dfy`: order-preserving `Filter` (a `WHERE` clause) and `Reverse`, with their lemmas.
- `ordering.dfy`: lexicographic sort keys. It also proves that a strictly ordered
  `ORDER BY` has exactly one answer.
- `schema.dfy`: row and database types, the largest rowid, and the invariant `Valid`
  that every reachable database keeps.
- `logs.dfy`: `insert_application_logs` and `get_chat_history`.
- `documents.dfy`: `insert_document_record`, `delete_document_record` and `get_all_documents`.
- `trace.dfy`: runs of operations. It proves that ids are never reused and how a
  session's history grows over a run.

Modelling choices:

- **AUTOINCREMENT.** A new id is the table's `sqlite_sequence` value plus one. Deleting
  rows never lowers that counter. Once the counter reaches 2^63-1, an insert fails with
  `Full`, which is SQLite's SQLITE_FULL.
- **Integer parameters.** Python's `sqlite3` refuses to bind an integer outside the signed
  64-bit range and raises `OverflowError`. A delete with such an id fails with `Overflow`
  and changes nothing.
- **`CURRENT_TIMESTAMP`.** This is an abstract clock. Every insert takes a `tick: nat`
  and stamps the row with the clock advanced by that amount. So timestamps never
  decrease, and equal timestamps are allowed (the text format has one-second
  granularity).
- **`WHERE session_id = ?`.** This uses SQL equality: a NULL (`None`) on either side
  matches nothing.
- **Tie order.** SQLite leaves the order of equal sort keys unspecified. The model breaks
  ties by id: ascending in the history, descending in the listing. It proves that
  the result is the only arrangement strictly ordered by (timestamp, id), so it is
  one of the answers the SQL allows.

## Model

| member | source | states |
|---|---|---|
| `Schema.Empty` | api/db_utils.py:14-57 | The freshly created tables are empty and already satisfy the store invariant. |
| `Logs.SessionRows` | api/db_utils.py:39 | The rows selected for a session are exactly the log rows whose `session_id` equals it. A NULL session id selects nothing. |
| `Logs.InsertApplicationLogs` | api/db_utils.py:16-32 | Inserting a log row fails only when the AUTOINCREMENT counter is exhausted. Otherwise it appends exactly one row carrying the given fields, the next id and a timestamp no earlier than before. Every earlier log row, the document table and its counter are unchanged. The invariant is preserved, and the new row comes after every existing row in both id and time. |
| `Logs.Flatten` | api/db_utils.py:40-45 | Flattening N rows gives 2N messages. Message 2i is the i-th row's question with role human, and message 2i+1 is its answer with role ai. |
| `Logs.GetChatHistory` | api/db_utils.py:36-47 | The loop over fetched rows builds exactly the flattened history of the session, of length twice the session's row count. |
| `Logs.HistoryAlternates` | api/db_utils.py:40-45 | Every history has even length and alternates strictly: the message at an even position is from human, and the one at an odd position is from ai. |
| `Logs.HistoryEmptyIff` | api/db_utils.py:36-47 | The history is empty exactly when no log row belongs to the session. An unknown session yields an empty list, not an error. |
| `Logs.NullSessionHasNoHistory` | api/db_utils.py:39 | Asking for the history of a NULL session id always yields an empty list. |
| `Logs.SessionRowsOrdered` | api/db_utils.py:39 | In a valid database a session's rows are strictly ordered by (created_at, id), so `created_at` never decreases along the history. The rows the model returns are therefore one of the answers the query as written allows. |
| `Logs.SessionRowsUnique` | api/db_utils.py:39 | Any arrangement of the session's rows ordered by created_at with ties broken by id equals the rows the model returns. |
| `Logs.TiedTimestampsReorderHistory` | api/db_utils.py:39 | In any valid database, possibly holding other sessions, take a session with exactly two rows that share a timestamp and have different questions. `ORDER BY created_at` alone also admits the two rows in reverse order, and that order gives a different chat history. |
| `Logs.InsertLogIsolation` | api/db_utils.py:27-47 | Logging an exchange appends its human/ai pair to the end of its own session's history. The history of every other session stays identical. |
| `Documents.InsertDocumentRecord` | api/db_utils.py:53-68 | Inserting a document fails only when the counter is exhausted. Otherwise the returned id exceeds every id assigned before, including those of deleted rows. Exactly one row with that id and filename is appended, the logs are untouched, and the invariant is preserved. |
| `Documents.DeleteDocumentRecord` | api/db_utils.py:72-77 | An id outside SQLite's signed 64-bit integer range cannot be bound as a parameter: the call fails with `Overflow` before the statement runs, exactly for those ids. Any other id returns true. The delete keeps exactly the rows whose id differs and touches neither the logs, the counters nor the clock. For an absent id the database is identical. The invariant is preserved. |
| `Documents.DeleteIdempotent` | api/db_utils.py:72-77 | When a delete succeeds, deleting the same id again succeeds too and leaves the same database as deleting it once. |
| `Documents.GetAllDocuments` | api/db_utils.py:81-87 | The listing is a permutation of the document rows. In a valid database it is strictly ordered newest first by (upload_timestamp, id), so upload timestamps never increase along it. |
| `Documents.ListingUnique` | api/db_utils.py:84 | Any arrangement of the document rows ordered by upload_timestamp descending with ties broken by descending id equals the listing. |
| `Documents.InsertedListedOnce` | api/db_utils.py:61-87 | After an insert, the listing contains exactly one row with the returned id, and it carries the given filename. |
| `Trace.RunIssuesFreshIds` | api/db_utils.py:53-68 | Over any run of log inserts, document inserts and deletes, the invariant holds throughout. The document ids returned are strictly increasing and above every id assigned before the run. |
| `Trace.DeletedIdsNeverReissued` | api/db_utils.py:53-77 | No id of a document row present before a run is handed out again by any insert of the run, whether or not that row was deleted meanwhile. |
| `Trace.ApplyHistory` | api/db_utils.py:27-47 | A single operation adds exactly its own human/ai pair to the history of its session. A log insert that finds the id counter exhausted fails and leaves every history unchanged, and document operations add nothing. |
| `Trace.TurnsCount` | api/db_utils.py:27-45 | The messages a run contributes to a session's history number exactly twice the exchanges logged for that session (a NULL session id counts none). |
| `Trace.RunHistory` | api/db_utils.py:27-47 | Take any run whose log inserts all fit within the remaining log ids. Each session's history grows by exactly the human/ai pairs logged for it, in append order, and document operations add nothing. So its length grows by twice the number of exchanges logged for that session. |

## Findings

| source | as written | input that shows it | evidently intended | confidence | as-written member | corrected member |
|---|---|---|---|---|---|---|
| api/db_utils.py:39 | `ORDER BY created_at` only. `CURRENT_TIMESTAMP` has one-second resolution, and SQLite leaves the order of equal keys unspecified. | A session with two questions logged within the same second, in a table that may hold other sessions. The query may return the second question before the first. | History in insertion order, i.e. `ORDER BY created_at, id` | medium, not executed | `Logs.TiedTimestampsReorderHistory` | `Logs.SessionRowsUnique` |

## Left out

- Connection handling (`get_db_connection`, `commit`, `close`) and the import-time table creation (api/db_utils.py:7-10, 91-92) are I/O plumbing. The database is an abstract value, and `Schema.Empty` stands for the state right after both `CREATE TABLE IF NOT EXISTS` statements on a new database file. On an existing file those statements change nothing, so the `Trace` lemmas start from any valid database, not only from `Schema.Empty`.
- Storage failures other than an exhausted rowid (missing file, locked database, disk full) come from the environment and are not modelled. A failed insert leaves the database unchanged.
- Wall-clock time is not modelled. `CURRENT_TIMESTAMP` is an abstract clock that never goes backwards. A real clock that is set back would break the ordering lemmas. The text format of the timestamp is not modelled, because it sorts in chronological order.
- NULL in the `user_query`, `gpt_response`, `model` and `filename` columns is not modelled. These values are stored and returned unchanged, so they are plain strings here. Only `session_id` is nullable, because a NULL there changes which rows the `WHERE` clause selects.
- The `model` column is free text. The function stores whatever it is given, so the two-member model-name enumeration of api/pydantic_models.py is not imposed.
- SQLite type affinity (a number passed where text is stored, and so on) is not modelled.
- Rows are returned as records rather than Python dictionaries or `sqlite3.Row` objects.
- Concurrent access from several processes is not modelled. Every operation is one atomic step.
- The retrieval-augmented answer chain in api/langchain_utils.py (prompt templates, retriever, LLM calls, the random fallback sentence, today's date) is left out. It calls an external model and holds no logic that can be stated here. Its `get_rag_chain` ignores its `model` argument and always uses the 70B model.
- The request/response schemas in api/pydantic_models.py and the Streamlit user interface in app/streamlit_app.py are validation and presentation only. The API layer that calls these functions is not part of this model.
- Trace.RunHistory: does not cover runs that exhaust the 2^63-1 log ids. Once the counter is full, a log insert fails and adds no turn, while the lemma's expected turns would still include it. `Trace.ApplyHistory` states the failing step on its own: the history is unchanged.
