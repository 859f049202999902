/** The conversation log: `insert_application_logs` and `get_chat_history`. */
module Logs {
  import opened Wrappers
  import opened Seqs
  import opened Ordering
  import opened Schema

  /** Speaker of a chat message; serialised as "human" and "ai". */
  datatype Role = Human | Ai

  /** One entry of the chat history handed to the language model. */
  datatype Message = Message(role: Role, content: string)

  /** `WHERE session_id = ?`: SQL equality, so a NULL on either side matches nothing. */
  predicate InSession(s: Option<string>, r: LogRow) {
    s.Some? && r.sessionId == s
  }

  /** The `WHERE` clause of the history query as a filter argument. */
  function Matches(s: Option<string>): (keep: LogRow -> bool) {
    r => InSession(s, r)
  }

  /** The log rows of session `s`, in insertion order. */
  function SessionRows(logs: seq<LogRow>, s: Option<string>): (rows: seq<LogRow>)
    ensures forall r :: r in rows <==> r in logs && InSession(s, r)
  {
    Filter(logs, Matches(s))
  }

  /** Sort key of `ORDER BY created_at`, ties broken by id. */
  function LogKey(r: LogRow): (k: Key) {
    Key(r.createdAt, r.id)
  }

  /** `insert_application_logs`: appends one row with the next AUTOINCREMENT id,
      stamped with the clock advanced by `tick`. */
  function InsertApplicationLogs(db: Db, sessionId: Option<string>, userQuery: string,
                                 gptResponse: string, model: string, tick: nat): (r: Result<Db, StoreError>)
    ensures r.Failure? <==> db.logSeq >= MaxRowId
    ensures r.Success? ==>
      && |r.value.logs| == |db.logs| + 1
      && r.value.logs[..|db.logs|] == db.logs
      && r.value.docs == db.docs
      && r.value.docSeq == db.docSeq
      && r.value.logSeq == db.logSeq + 1
      && db.clock <= r.value.clock
    ensures r.Success? ==>
      var row := r.value.logs[|db.logs|];
      && row.sessionId == sessionId
      && row.userQuery == userQuery
      && row.gptResponse == gptResponse
      && row.model == model
      && row.id == r.value.logSeq
      && row.createdAt == r.value.clock
    ensures Valid(db) && r.Success? ==>
      && Valid(r.value)
      && forall i :: 0 <= i < |db.logs| ==> LogBefore(db.logs[i], r.value.logs[|db.logs|])
  {
    if db.logSeq >= MaxRowId then Failure(Full)
    else
      var now := db.clock + tick;
      var row := LogRow(db.logSeq + 1, sessionId, userQuery, gptResponse, model, now);
      var db' := db.(logs := db.logs + [row], logSeq := db.logSeq + 1, clock := now);
      assert db'.logs[..|db.logs|] == db.logs;
      Success(db')
  }

  /** The two messages one log row contributes: the question, then the answer. */
  function Turn(r: LogRow): (msgs: seq<Message>) {
    [Message(Human, r.userQuery), Message(Ai, r.gptResponse)]
  }

  /** The loop of `get_chat_history`: each row becomes a human message followed
      by an ai message. */
  function Flatten(rows: seq<LogRow>): (msgs: seq<Message>)
    ensures |msgs| == 2 * |rows|
    ensures forall i :: 0 <= i < |rows| ==>
      msgs[2 * i] == Message(Human, rows[i].userQuery) && msgs[2 * i + 1] == Message(Ai, rows[i].gptResponse)
    decreases |rows|
  {
    if |rows| == 0 then []
    else Flatten(rows[..|rows| - 1]) + Turn(rows[|rows| - 1])
  }

  /** The value `get_chat_history(s)` returns. */
  function History(db: Db, s: Option<string>): (h: seq<Message>) {
    Flatten(SessionRows(db.logs, s))
  }

  /** `get_chat_history` as a loop over the fetched rows. */
  method GetChatHistory(db: Db, s: Option<string>) returns (messages: seq<Message>)
    ensures messages == History(db, s)
    ensures |messages| == 2 * |SessionRows(db.logs, s)|
  {
    var rows := SessionRows(db.logs, s);
    messages := [];
    for i := 0 to |rows|
      invariant messages == Flatten(rows[..i])
    {
      assert rows[..i + 1][..i] == rows[..i];
      messages := messages + Turn(rows[i]);
    }
    assert rows[..|rows|] == rows;
  }

  /** The history alternates strictly: it has even length, starts with a
      "human" message, and every message at an even position is from "human"
      and every one at an odd position from "ai". */
  lemma HistoryAlternates(db: Db, s: Option<string>)
    ensures var h := History(db, s);
      && |h| % 2 == 0
      && forall k :: 0 <= k < |h| ==> h[k].role == (if k % 2 == 0 then Human else Ai)
  {
    var rows := SessionRows(db.logs, s);
    var h := History(db, s);
    forall k | 0 <= k < |h|
      ensures h[k].role == (if k % 2 == 0 then Human else Ai)
    {
      var i := k / 2;
      assert 0 <= i < |rows|;
      assert h[2 * i] == Message(Human, rows[i].userQuery);
      assert h[2 * i + 1] == Message(Ai, rows[i].gptResponse);
      if k % 2 == 0 {
        assert k == 2 * i;
      } else {
        assert k == 2 * i + 1;
      }
    }
  }

  /** A session has an empty history exactly when no log row belongs to it;
      asking about an unknown session is not an error. */
  lemma HistoryEmptyIff(db: Db, s: Option<string>)
    ensures History(db, s) == [] <==> forall r :: r in db.logs ==> !InSession(s, r)
  {
    var rows := SessionRows(db.logs, s);
    if rows != [] {
      assert rows[0] in rows;
      assert |History(db, s)| == 2 * |rows|;
    }
  }

  /** A NULL session id selects no rows, so its history is always empty. */
  lemma NullSessionHasNoHistory(db: Db)
    ensures History(db, None) == []
  {
    HistoryEmptyIff(db, None);
  }

  /** The history query exactly as written: the session's rows, each once,
      with `created_at` non-decreasing and nothing said about equal timestamps. */
  ghost predicate CreatedAtOrderAnswer(db: Db, s: Option<string>, rows: seq<LogRow>) {
    && (forall r :: r in rows <==> r in db.logs && InSession(s, r))
    && (forall i, j :: 0 <= i < j < |rows| ==> rows[i].id != rows[j].id)
    && (forall i, j :: 0 <= i < j < |rows| ==> rows[i].createdAt <= rows[j].createdAt)
  }

  /** In a valid database the rows of a session are strictly ordered by
      (created_at, id), so they are an answer of `ORDER BY created_at` in which
      equal timestamps keep their insertion order. */
  lemma SessionRowsOrdered(db: Db, s: Option<string>)
    requires Valid(db)
    ensures StrictlyAscending(SessionRows(db.logs, s), LogKey)
    ensures var rows := SessionRows(db.logs, s);
      forall i, j :: 0 <= i < j < |rows| ==> rows[i].createdAt <= rows[j].createdAt
    ensures CreatedAtOrderAnswer(db, s, SessionRows(db.logs, s))
  {
    FilterPairwise(db.logs, Matches(s), LogBefore);
  }

  /** Any arrangement of the session's rows strictly ordered by (created_at, id)
      is the one the model returns. */
  lemma SessionRowsUnique(db: Db, s: Option<string>, other: seq<LogRow>)
    requires Valid(db)
    requires StrictlyAscending(other, LogKey)
    requires forall r :: r in other <==> r in db.logs && InSession(s, r)
    ensures other == SessionRows(db.logs, s)
  {
    SessionRowsOrdered(db, s);
    AscendingUnique(other, SessionRows(db.logs, s), LogKey);
  }

  /** In any valid database, when a session has two rows logged within the
      same second with different questions, the query as written also admits
      them in reverse order, which yields a different chat history. Rows of
      other sessions may be present. */
  lemma TiedTimestampsReorderHistory(db: Db, s: Option<string>)
    requires Valid(db)
    requires var rows := SessionRows(db.logs, s);
      && |rows| == 2
      && rows[0].createdAt == rows[1].createdAt
      && rows[0].userQuery != rows[1].userQuery
    ensures var rows := SessionRows(db.logs, s);
      var swapped := [rows[1], rows[0]];
      && CreatedAtOrderAnswer(db, s, swapped)
      && swapped != rows
      && Flatten(swapped) != History(db, s)
  {
    var rows := SessionRows(db.logs, s);
    var swapped := [rows[1], rows[0]];
    SessionRowsOrdered(db, s);
    assert rows[0].id != rows[1].id by {
      assert Less(LogKey(rows[0]), LogKey(rows[1]));
    }
    assert CreatedAtOrderAnswer(db, s, swapped) by {
      forall r
        ensures r in swapped <==> r in db.logs && InSession(s, r)
      {
        assert r in swapped <==> r in rows by {
          assert rows == [rows[0], rows[1]];
        }
      }
    }
    assert swapped[0] != rows[0];
    assert Flatten(swapped)[0] != History(db, s)[0] by {
      assert Flatten(swapped)[0] == Message(Human, rows[1].userQuery);
      assert History(db, s)[0] == Message(Human, rows[0].userQuery);
    }
  }

  /** Inserting a log row appends its turn to the history of its own session
      and leaves the history of every other session unchanged. */
  lemma InsertLogIsolation(db: Db, sessionId: Option<string>, userQuery: string,
                           gptResponse: string, model: string, tick: nat, t: Option<string>)
    requires db.logSeq < MaxRowId
    ensures var db' := InsertApplicationLogs(db, sessionId, userQuery, gptResponse, model, tick).value;
      History(db', t) == History(db, t) +
        (if t.Some? && t == sessionId then [Message(Human, userQuery), Message(Ai, gptResponse)] else [])
  {
  }
}
