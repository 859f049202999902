/** The two SQLite tables of the application database, held as one immutable
    value: the conversation log (`application_logs`), the document metadata
    (`document_store`), the AUTOINCREMENT counter of each table and the clock
    that supplies `CURRENT_TIMESTAMP`. */
module Schema {
  import opened Wrappers
  import opened Seqs

  /** The largest rowid SQLite can assign (a signed 64-bit integer). */
  const MaxRowId: nat := 0x7FFF_FFFF_FFFF_FFFF

  /** An abstract point in time; larger is later. */
  type Timestamp = nat

  /** One row of `application_logs`. A NULL `session_id` is `None`. */
  datatype LogRow = LogRow(
    id: nat,
    sessionId: Option<string>,
    userQuery: string,
    gptResponse: string,
    model: string,
    createdAt: Timestamp)

  /** One row of `document_store`, also the shape of one listing entry. */
  datatype DocRow = DocRow(id: nat, filename: string, uploadTimestamp: Timestamp)

  /** The database. `logSeq` and `docSeq` are the tables' entries in
      `sqlite_sequence`: the largest id ever assigned, surviving deletion.
      `clock` is the latest timestamp handed out. */
  datatype Db = Db(
    logs: seq<LogRow>,
    docs: seq<DocRow>,
    logSeq: nat,
    docSeq: nat,
    clock: Timestamp)

  /** The smallest value an SQLite INTEGER parameter can hold (signed 64-bit). */
  const MinInteger: int := -0x8000_0000_0000_0000

  /** `x` can be bound as an SQLite INTEGER parameter. */
  predicate FitsInteger(x: int) {
    MinInteger <= x <= MaxRowId
  }

  /** `Full`: raised by an insert once the largest rowid has been used
      (SQLITE_FULL). `Overflow`: raised by the driver when an integer
      parameter does not fit in 64 bits, before the statement runs. */
  datatype StoreError = Full | Overflow

  /** Log row `a` was inserted before log row `b`. */
  predicate LogBefore(a: LogRow, b: LogRow) {
    a.id < b.id && a.createdAt <= b.createdAt
  }

  /** Document row `a` was inserted before document row `b`. */
  predicate DocBefore(a: DocRow, b: DocRow) {
    a.id < b.id && a.uploadTimestamp <= b.uploadTimestamp
  }

  /** Every log row carries an id already counted by `logSeq` and a time already reached. */
  ghost predicate LogsIssued(db: Db) {
    forall i :: 0 <= i < |db.logs| ==>
      1 <= db.logs[i].id <= db.logSeq && db.logs[i].createdAt <= db.clock
  }

  /** Every document row carries an id already counted by `docSeq` and a time already reached. */
  ghost predicate DocsIssued(db: Db) {
    forall i :: 0 <= i < |db.docs| ==>
      1 <= db.docs[i].id <= db.docSeq && db.docs[i].uploadTimestamp <= db.clock
  }

  /** The invariant every reachable database keeps: both tables are stored in
      insertion order, with ids strictly increasing and timestamps
      non-decreasing, and neither counter has passed the largest rowid. */
  ghost predicate Valid(db: Db) {
    && Pairwise(db.logs, LogBefore)
    && Pairwise(db.docs, DocBefore)
    && LogsIssued(db)
    && DocsIssued(db)
    && db.logSeq <= MaxRowId
    && db.docSeq <= MaxRowId
  }

  /** The database right after both `CREATE TABLE` statements ran, at time `start`. */
  function Empty(start: Timestamp): (db: Db)
    ensures Valid(db)
    ensures db.logs == [] && db.docs == []
    ensures db.clock == start
  {
    Db([], [], 0, 0, start)
  }
}
