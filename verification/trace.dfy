/** Sequences of store operations, applied one after another as the
    application issues them. */
module Trace {
  import opened Wrappers
  import opened Seqs
  import opened Schema
  import opened Logs
  import opened Documents

  /** One call into the store. */
  datatype Op =
    | AppendLog(sessionId: Option<string>, userQuery: string, gptResponse: string, model: string, tick: nat)
    | AddDocument(filename: string, tick: nat)
    | RemoveDocument(fileId: int)

  /** The database after `op`, and the document id it returned, if any. A
      failed insert or delete raises before commit and leaves the database as it was. */
  function Apply(db: Db, op: Op): (after: (Db, seq<nat>)) {
    match op
    case AppendLog(sid, q, a, m, tick) =>
      var r := InsertApplicationLogs(db, sid, q, a, m, tick);
      if r.Success? then (r.value, []) else (db, [])
    case AddDocument(name, tick) =>
      var r := InsertDocumentRecord(db, name, tick);
      if r.Success? then (r.value.db, [r.value.fileId]) else (db, [])
    case RemoveDocument(id) =>
      var r := DeleteDocumentRecord(db, id);
      if r.Success? then (r.value.db, []) else (db, [])
  }

  /** The database after all of `ops`, and every document id they returned, in order. */
  function Run(db: Db, ops: seq<Op>): (after: (Db, seq<nat>))
    decreases |ops|
  {
    if |ops| == 0 then (db, [])
    else
      var (db1, ids1) := Apply(db, ops[0]);
      var (db2, ids2) := Run(db1, ops[1..]);
      (db2, ids1 + ids2)
  }

  /** The turn `op` is meant to add to the history of session `t`: its
      question and answer when it logs an exchange of `t`, nothing otherwise. */
  function OpTurn(op: Op, t: Option<string>): (turn: seq<Message>) {
    if op.AppendLog? && t.Some? && op.sessionId == t
    then [Message(Human, op.userQuery), Message(Ai, op.gptResponse)]
    else []
  }

  /** The turns the log operations of `ops` add to the history of session `t`. */
  function OpTurns(ops: seq<Op>, t: Option<string>): (turns: seq<Message>)
    decreases |ops|
  {
    if |ops| == 0 then [] else OpTurn(ops[0], t) + OpTurns(ops[1..], t)
  }

  /** The number of exchanges `ops` logs for session `t`. */
  function Logged(ops: seq<Op>, t: Option<string>): (n: nat)
    ensures n <= LogInserts(ops)
    decreases |ops|
  {
    if |ops| == 0 then 0
    else (if ops[0].AppendLog? && t.Some? && ops[0].sessionId == t then 1 else 0) + Logged(ops[1..], t)
  }

  /** Every exchange logged for a session contributes exactly two messages. */
  lemma {:induction false} TurnsCount(ops: seq<Op>, t: Option<string>)
    ensures |OpTurns(ops, t)| == 2 * Logged(ops, t)
    decreases |ops|
  {
    if |ops| > 0 {
      TurnsCount(ops[1..], t);
    }
  }

  /** Every reachable database is valid, every document id handed out is
      larger than any assigned before the run, the ids come out strictly
      increasing, and none exceeds the final counter: an id is never handed
      out twice, even after its row was deleted. */
  lemma {:induction false} RunIssuesFreshIds(db: Db, ops: seq<Op>)
    requires Valid(db)
    ensures var (final, ids) := Run(db, ops);
      && Valid(final)
      && db.docSeq <= final.docSeq
      && (forall i :: 0 <= i < |ids| ==> db.docSeq < ids[i] <= final.docSeq)
      && (forall i, j :: 0 <= i < j < |ids| ==> ids[i] < ids[j])
    decreases |ops|
  {
    if |ops| > 0 {
      var (db1, ids1) := Apply(db, ops[0]);
      RunIssuesFreshIds(db1, ops[1..]);
    }
  }

  /** No id of a row present before the run is returned by any insert of the run. */
  lemma DeletedIdsNeverReissued(db: Db, ops: seq<Op>, d: DocRow)
    requires Valid(db)
    requires d in db.docs
    ensures d.id !in Run(db, ops).1
  {
    RunIssuesFreshIds(db, ops);
  }

  /** A run is its first operation followed by the run of the rest. Stated
      apart so that `RunHistory` unfolds `Run` once, within the resource limit. */
  lemma RunUnfold(db: Db, ops: seq<Op>)
    requires |ops| > 0
    ensures Run(db, ops).0 == Run(Apply(db, ops[0]).0, ops[1..]).0
  {
  }

  /** The number of log inserts in `ops`; each needs one log id. */
  function LogInserts(ops: seq<Op>): (n: nat)
    ensures n <= |ops|
    decreases |ops|
  {
    if |ops| == 0 then 0 else (if ops[0].AppendLog? then 1 else 0) + LogInserts(ops[1..])
  }

  /** One operation adds exactly its own turn to the history of `t` and uses
      at most one log id; a log insert that finds the counter exhausted fails
      and adds nothing. */
  lemma ApplyHistory(db: Db, op: Op, t: Option<string>)
    ensures History(Apply(db, op).0, t) ==
      History(db, t) + (if op.AppendLog? && db.logSeq >= MaxRowId then [] else OpTurn(op, t))
    ensures Apply(db, op).0.logSeq <= db.logSeq + (if op.AppendLog? then 1 else 0)
  {
  }

  /** While the log id counter has room for every log insert of a run, none
      of them fails, and the history of every session grows by exactly the
      turns appended for it, in append order; document operations leave it
      alone. */
  lemma {:induction false} RunHistory(db: Db, ops: seq<Op>, t: Option<string>)
    requires db.logSeq + LogInserts(ops) <= MaxRowId
    ensures History(Run(db, ops).0, t) == History(db, t) + OpTurns(ops, t)
    ensures |History(Run(db, ops).0, t)| == |History(db, t)| + 2 * Logged(ops, t)
    decreases |ops|
  {
    TurnsCount(ops, t);
    if |ops| > 0 {
      var db1 := Apply(db, ops[0]).0;
      ApplyHistory(db, ops[0], t);
      RunHistory(db1, ops[1..], t);
      var h0, h1, step, rest := History(db, t), History(db1, t), OpTurn(ops[0], t), OpTurns(ops[1..], t);
      RunUnfold(db, ops);
      assert OpTurns(ops, t) == step + rest;
      AppendAssoc(h0, step, rest);
    }
  }
}
