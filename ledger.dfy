/**
 * The query ledger: the `queries` and `query_responses` tables, the SELECTs
 * the chat and admin routes run over them, and the invariant the two
 * writing routes keep: a query's status is 'answered' exactly when it has
 * at least one response row.
 */
module Ledger {
  import opened Optional
  import opened Text
  import opened Accounts

  datatype Status = Pending | Answered

  /** A row of `queries`; `id` is the `query_id` serial. */
  datatype Query = Query(id: int, userId: int, text: string, status: Status)

  /** A row of `query_responses`. */
  datatype Response = Response(queryId: int, text: string)

  /** A row of the student history: `q.query_id, q.query_text, r.response_text, q.status`. */
  datatype HistoryRow = HistoryRow(queryId: int, text: string, response: Option<string>, status: Status)

  /** A row of the admin queue: `q.query_id, q.query_text, u.full_name`. */
  datatype PendingRow = PendingRow(queryId: int, text: string, fullName: string)

  // ---------------------------------------------------------------- responses

  /** The `response_text`s stored for query `qid`, in insertion order. */
  function ResponsesFor(rs: seq<Response>, qid: int): seq<string> {
    if rs == [] then []
    else ResponsesFor(rs[..|rs| - 1], qid) + (if rs[|rs| - 1].queryId == qid then [rs[|rs| - 1].text] else [])
  }

  predicate HasResponse(rs: seq<Response>, qid: int) {
    ResponsesFor(rs, qid) != []
  }

  /** A text is among the responses of `qid` iff a response row pairs them. */
  lemma {:induction false} ResponsesForIff(rs: seq<Response>, qid: int, t: string)
    ensures t in ResponsesFor(rs, qid) <==> Response(qid, t) in rs
  {
    if rs != [] {
      ResponsesForIff(rs[..|rs| - 1], qid, t);
      assert rs == rs[..|rs| - 1] + [rs[|rs| - 1]];
    }
  }

  /** A query has a response iff some response row carries its id. */
  lemma {:induction false} HasResponseIff(rs: seq<Response>, qid: int)
    ensures HasResponse(rs, qid) <==> exists k :: 0 <= k < |rs| && rs[k].queryId == qid
  {
    if rs != [] {
      var init := rs[..|rs| - 1];
      HasResponseIff(init, qid);
      if HasResponse(init, qid) {
        var k :| 0 <= k < |init| && init[k].queryId == qid;
        assert rs[k] == init[k];
      }
      if k :| 0 <= k < |rs| && rs[k].queryId == qid {
        if k < |init| { assert init[k] == rs[k]; }
      }
    }
  }

  lemma ResponsesForAppend(rs: seq<Response>, r: Response, qid: int)
    ensures ResponsesFor(rs + [r], qid) == ResponsesFor(rs, qid) + (if r.queryId == qid then [r.text] else [])
  {
    assert (rs + [r])[..|rs|] == rs;
  }

  // ---------------------------------------------------------------- invariant

  predicate IdsIncreasing(qs: seq<Query>) {
    forall i, j :: 0 <= i < j < |qs| ==> qs[i].id < qs[j].id
  }

  predicate IsQueryId(qs: seq<Query>, id: int) {
    exists i :: 0 <= i < |qs| && qs[i].id == id
  }

  /** 'answered' exactly when at least one response row exists. */
  predicate StatusMatches(qs: seq<Query>, rs: seq<Response>) {
    forall i :: 0 <= i < |qs| ==> (qs[i].status == Answered <==> HasResponse(rs, qs[i].id))
  }

  /**
   * What the writing routes keep true of the two tables: serial ids in
   * insertion order below the next one, every query owned by an existing
   * user, every response attached to an existing query, and the status rule.
   */
  predicate LedgerValid(users: seq<User>, qs: seq<Query>, rs: seq<Response>, nextQueryId: int) {
    && IdsIncreasing(qs)
    && (forall i :: 0 <= i < |qs| ==> qs[i].id < nextQueryId && UserById(users, qs[i].userId).Some?)
    && (forall k :: 0 <= k < |rs| ==> IsQueryId(qs, rs[k].queryId))
    && StatusMatches(qs, rs)
  }

  /** The next serial id has no response row yet. */
  lemma {:induction false} FreshIdUnanswered(users: seq<User>, qs: seq<Query>, rs: seq<Response>, nextQueryId: int)
    requires LedgerValid(users, qs, rs, nextQueryId)
    ensures !HasResponse(rs, nextQueryId)
  {
    HasResponseIff(rs, nextQueryId);
    forall k | 0 <= k < |rs| ensures rs[k].queryId != nextQueryId {
      var i :| 0 <= i < |qs| && qs[i].id == rs[k].queryId;
    }
  }

  /** A new 'pending' query under the next id, with no response row, keeps the ledger valid. */
  lemma {:induction false} QueueKeepsValid(users: seq<User>, qs: seq<Query>, rs: seq<Response>, nextQueryId: int, uid: int, text: string)
    requires LedgerValid(users, qs, rs, nextQueryId) && UserById(users, uid).Some?
    ensures LedgerValid(users, qs + [Query(nextQueryId, uid, text, Pending)], rs, nextQueryId + 1)
  {
    FreshIdUnanswered(users, qs, rs, nextQueryId);
    var qs' := qs + [Query(nextQueryId, uid, text, Pending)];
    forall i, j | 0 <= i < j < |qs'| ensures qs'[i].id < qs'[j].id {
      assert qs'[i] == qs[i];
    }
    forall k | 0 <= k < |rs| ensures IsQueryId(qs', rs[k].queryId) {
      var i :| 0 <= i < |qs| && qs[i].id == rs[k].queryId;
      assert qs'[i] == qs[i];
    }
    forall i | 0 <= i < |qs'| ensures qs'[i].status == Answered <==> HasResponse(rs, qs'[i].id) {
      if i < |qs| {
        assert qs'[i] == qs[i];
      }
    }
  }

  /** A new 'answered' query under the next id, with one response row for it, keeps the ledger valid. */
  lemma {:induction false} CopyKeepsValid(users: seq<User>, qs: seq<Query>, rs: seq<Response>, nextQueryId: int, uid: int, text: string, answer: string)
    requires LedgerValid(users, qs, rs, nextQueryId) && UserById(users, uid).Some?
    ensures LedgerValid(users, qs + [Query(nextQueryId, uid, text, Answered)], rs + [Response(nextQueryId, answer)], nextQueryId + 1)
  {
    var qs' := qs + [Query(nextQueryId, uid, text, Answered)];
    var rs' := rs + [Response(nextQueryId, answer)];
    forall k | 0 <= k < |rs'| ensures IsQueryId(qs', rs'[k].queryId) {
      if k < |rs| {
        var i :| 0 <= i < |qs| && qs[i].id == rs[k].queryId;
        assert qs'[i] == qs[i];
      } else {
        assert qs'[|qs|].id == nextQueryId;
      }
    }
    CopyKeepsStatus(users, qs, rs, nextQueryId, uid, text, answer);
  }

  /** The copied query is 'answered' and has its response row; no other query gains one. */
  lemma CopyKeepsStatus(users: seq<User>, qs: seq<Query>, rs: seq<Response>, nextQueryId: int, uid: int, text: string, answer: string)
    requires LedgerValid(users, qs, rs, nextQueryId)
    ensures StatusMatches(qs + [Query(nextQueryId, uid, text, Answered)], rs + [Response(nextQueryId, answer)])
  {
    var qs' := qs + [Query(nextQueryId, uid, text, Answered)];
    var rs' := rs + [Response(nextQueryId, answer)];
    forall i | 0 <= i < |qs'| ensures qs'[i].status == Answered <==> HasResponse(rs', qs'[i].id) {
      ResponsesForAppend(rs, Response(nextQueryId, answer), qs'[i].id);
      if i < |qs| {
        assert qs'[i] == qs[i] && qs[i].id < nextQueryId;
      }
    }
  }

  /** `UPDATE queries SET status='answered' WHERE query_id = qid` */
  function MarkAnswered(qs: seq<Query>, qid: int): (marked: seq<Query>)
    ensures |marked| == |qs|
    ensures forall i :: 0 <= i < |qs| ==>
      marked[i] == if qs[i].id == qid then qs[i].(status := Answered) else qs[i]
  {
    if qs == [] then []
    else
      var q := qs[|qs| - 1];
      MarkAnswered(qs[..|qs| - 1], qid) + [if q.id == qid then q.(status := Answered) else q]
  }

  /** Answering an existing query (a new response row plus the status update) keeps the ledger valid. */
  lemma {:induction false} AnswerKeepsValid(users: seq<User>, qs: seq<Query>, rs: seq<Response>, nextQueryId: int, qid: int, text: string)
    requires LedgerValid(users, qs, rs, nextQueryId) && IsQueryId(qs, qid)
    ensures LedgerValid(users, MarkAnswered(qs, qid), rs + [Response(qid, text)], nextQueryId)
  {
    MarkAnsweredKeepsKeys(users, qs, qid, nextQueryId);
    AnswerKeepsForeignKey(qs, rs, qid, text);
    AnswerKeepsStatus(qs, rs, qid, text);
  }

  /** The status update leaves every id and owner in place. */
  lemma MarkAnsweredKeepsKeys(users: seq<User>, qs: seq<Query>, qid: int, nextQueryId: int)
    requires IdsIncreasing(qs)
    requires forall i :: 0 <= i < |qs| ==> qs[i].id < nextQueryId && UserById(users, qs[i].userId).Some?
    ensures IdsIncreasing(MarkAnswered(qs, qid))
    ensures forall i :: 0 <= i < |qs| ==>
      MarkAnswered(qs, qid)[i].id < nextQueryId && UserById(users, MarkAnswered(qs, qid)[i].userId).Some?
  {
    var qs' := MarkAnswered(qs, qid);
    forall i, j | 0 <= i < j < |qs'| ensures qs'[i].id < qs'[j].id {
      assert qs'[i].id == qs[i].id && qs'[j].id == qs[j].id;
    }
    forall i | 0 <= i < |qs| ensures qs'[i].id < nextQueryId && UserById(users, qs'[i].userId).Some? {
      assert qs'[i].id == qs[i].id && qs'[i].userId == qs[i].userId;
    }
  }

  /** The new response row and the old ones still point at existing queries. */
  lemma AnswerKeepsForeignKey(qs: seq<Query>, rs: seq<Response>, qid: int, text: string)
    requires IsQueryId(qs, qid) && forall k :: 0 <= k < |rs| ==> IsQueryId(qs, rs[k].queryId)
    ensures forall k :: 0 <= k < |rs| + 1 ==> IsQueryId(MarkAnswered(qs, qid), (rs + [Response(qid, text)])[k].queryId)
  {
    var qs' := MarkAnswered(qs, qid);
    var rs' := rs + [Response(qid, text)];
    forall k | 0 <= k < |rs'| ensures IsQueryId(qs', rs'[k].queryId) {
      var i :| 0 <= i < |qs| && qs[i].id == rs'[k].queryId;
      assert qs'[i].id == qs[i].id;
    }
  }

  /** The status update and the response row agree: 'answered' still means "has a response row". */
  lemma AnswerKeepsStatus(qs: seq<Query>, rs: seq<Response>, qid: int, text: string)
    requires StatusMatches(qs, rs)
    ensures StatusMatches(MarkAnswered(qs, qid), rs + [Response(qid, text)])
  {
    var qs' := MarkAnswered(qs, qid);
    forall i | 0 <= i < |qs'| ensures qs'[i].status == Answered <==> HasResponse(rs + [Response(qid, text)], qs'[i].id) {
      ResponsesForAppend(rs, Response(qid, text), qs[i].id);
    }
  }

  /** Adding a user with a fresh id keeps the ledger valid: every owner still joins. */
  lemma {:induction false} NewUserKeepsValid(users: seq<User>, qs: seq<Query>, rs: seq<Response>, nextQueryId: int, u: User)
    requires LedgerValid(users, qs, rs, nextQueryId)
    ensures LedgerValid(users + [u], qs, rs, nextQueryId)
  {
    forall i | 0 <= i < |qs| ensures UserById(users + [u], qs[i].userId).Some? {
      UserByIdAppend(users, u, qs[i].userId);
    }
  }

  // ---------------------------------------------------------------- duplicate check

  /** Query `i` has the same text up to case as `text` and has a response. */
  predicate AnsweredMatch(qs: seq<Query>, rs: seq<Response>, text: string, i: int) {
    0 <= i < |qs| && Lower(qs[i].text) == Lower(text) && HasResponse(rs, qs[i].id)
  }

  /**
   * The duplicate check of a submission: a response of the newest query
   * whose lowercased text equals the lowercased new text and which has one.
   */
  function FindAnswered(qs: seq<Query>, rs: seq<Response>, text: string): Option<string> {
    if qs == [] then None
    else
      var q := qs[|qs| - 1];
      var texts := ResponsesFor(rs, q.id);
      if Lower(q.text) == Lower(text) && texts != [] then Some(texts[0])
      else FindAnswered(qs[..|qs| - 1], rs, text)
  }

  /** The check finds something iff an answered match exists, and then it is a response of the last such match. */
  lemma {:induction false} FindAnsweredSpec(qs: seq<Query>, rs: seq<Response>, text: string)
    ensures FindAnswered(qs, rs, text).Some? <==> exists i :: AnsweredMatch(qs, rs, text, i)
    ensures FindAnswered(qs, rs, text).Some? ==>
      exists i :: AnsweredMatch(qs, rs, text, i) && FindAnswered(qs, rs, text).value in ResponsesFor(rs, qs[i].id) &&
        forall j :: AnsweredMatch(qs, rs, text, j) ==> j <= i
  {
    if qs != [] {
      var n := |qs| - 1;
      var init := qs[..n];
      var found := FindAnswered(qs, rs, text);
      if AnsweredMatch(qs, rs, text, n) {
        assert found == Some(ResponsesFor(rs, qs[n].id)[0]);
        assert AnsweredMatch(qs, rs, text, n) && found.value in ResponsesFor(rs, qs[n].id) &&
          forall j :: AnsweredMatch(qs, rs, text, j) ==> j <= n;
      } else {
        assert found == FindAnswered(init, rs, text);
        FindAnsweredSpec(init, rs, text);
        forall j | AnsweredMatch(qs, rs, text, j) ensures AnsweredMatch(init, rs, text, j) {
          assert init[j] == qs[j];
        }
        if found.Some? {
          var i :| AnsweredMatch(init, rs, text, i) && found.value in ResponsesFor(rs, init[i].id) &&
            forall j :: AnsweredMatch(init, rs, text, j) ==> j <= i;
          assert init[i] == qs[i];
          assert AnsweredMatch(qs, rs, text, i);
        }
      }
    }
  }

  /** With serial ids, what the check copies is a response of the highest-id answered match. */
  lemma {:induction false} FindAnsweredNewest(qs: seq<Query>, rs: seq<Response>, text: string)
    requires IdsIncreasing(qs)
    ensures FindAnswered(qs, rs, text).Some? <==> exists i :: AnsweredMatch(qs, rs, text, i)
    ensures FindAnswered(qs, rs, text).Some? ==>
      exists i :: AnsweredMatch(qs, rs, text, i) && FindAnswered(qs, rs, text).value in ResponsesFor(rs, qs[i].id) &&
        forall j :: AnsweredMatch(qs, rs, text, j) ==> qs[j].id <= qs[i].id
  {
    FindAnsweredSpec(qs, rs, text);
    if FindAnswered(qs, rs, text).Some? {
      var i :| AnsweredMatch(qs, rs, text, i) && FindAnswered(qs, rs, text).value in ResponsesFor(rs, qs[i].id) &&
        forall j :: AnsweredMatch(qs, rs, text, j) ==> j <= i;
      forall j | AnsweredMatch(qs, rs, text, j) ensures qs[j].id <= qs[i].id {
        assert j <= i;
      }
    }
  }

  /** Once an admin answers a query, a later submission of the same text, in any letter case, is answered from it. */
  lemma AnsweredQuestionIsReused(qs: seq<Query>, rs: seq<Response>, i: int, answer: string, text: string)
    requires 0 <= i < |qs| && Lower(qs[i].text) == Lower(text)
    ensures FindAnswered(MarkAnswered(qs, qs[i].id), rs + [Response(qs[i].id, answer)], text).Some?
  {
    var qs' := MarkAnswered(qs, qs[i].id);
    var rs' := rs + [Response(qs[i].id, answer)];
    ResponsesForAppend(rs, Response(qs[i].id, answer), qs[i].id);
    assert qs'[i].text == qs[i].text && qs'[i].id == qs[i].id;
    assert AnsweredMatch(qs', rs', text, i);
    FindAnsweredSpec(qs', rs', text);
  }

  // ---------------------------------------------------------------- student history

  /** `q` with its rows of `queries LEFT JOIN query_responses`: one per response, or one with no response. */
  predicate RowOf(row: HistoryRow, q: Query, rs: seq<Response>) {
    && row.queryId == q.id && row.text == q.text && row.status == q.status
    && match row.response
       case None => !HasResponse(rs, q.id)
       case Some(t) => t in ResponsesFor(rs, q.id)
  }

  /** The LEFT JOIN rows of one query. */
  function RowsOf(q: Query, rs: seq<Response>): (rows: seq<HistoryRow>)
    ensures rows != []
    ensures forall row :: row in rows ==> RowOf(row, q, rs)
    ensures forall t :: t in ResponsesFor(rs, q.id) ==> HistoryRow(q.id, q.text, Some(t), q.status) in rows
    ensures ResponsesFor(rs, q.id) != [] ==>
      |rows| == |ResponsesFor(rs, q.id)| && forall k :: 0 <= k < |rows| ==> rows[k].response == Some(ResponsesFor(rs, q.id)[k])
  {
    var texts := ResponsesFor(rs, q.id);
    if texts == [] then [HistoryRow(q.id, q.text, None, q.status)]
    else
      var rows := seq(|texts|, k requires 0 <= k < |texts| => HistoryRow(q.id, q.text, Some(texts[k]), q.status));
      assert forall t :: t in texts ==> HistoryRow(q.id, q.text, Some(t), q.status) in rows by {
        forall t | t in texts ensures HistoryRow(q.id, q.text, Some(t), q.status) in rows {
          var k :| 0 <= k < |texts| && texts[k] == t;
          assert rows[k] == HistoryRow(q.id, q.text, Some(t), q.status);
        }
      }
      rows
  }

  /** The student's history: `... WHERE q.user_id = uid ORDER BY q.query_id DESC`. */
  function History(qs: seq<Query>, rs: seq<Response>, uid: int): seq<HistoryRow> {
    if qs == [] then []
    else
      var q := qs[|qs| - 1];
      (if q.userId == uid then RowsOf(q, rs) else []) + History(qs[..|qs| - 1], rs, uid)
  }

  /** `row` is a row of one of user `uid`'s queries. */
  predicate OwnRow(qs: seq<Query>, rs: seq<Response>, uid: int, row: HistoryRow) {
    exists i :: 0 <= i < |qs| && qs[i].userId == uid && RowOf(row, qs[i], rs)
  }

  /** Every history row is a row of one of the student's own queries. */
  lemma {:induction false} HistoryOnlyOwnQueries(qs: seq<Query>, rs: seq<Response>, uid: int)
    ensures forall k :: 0 <= k < |History(qs, rs, uid)| ==> OwnRow(qs, rs, uid, History(qs, rs, uid)[k])
  {
    if qs != [] {
      var n := |qs| - 1;
      var init := qs[..n];
      HistoryOnlyOwnQueries(init, rs, uid);
      var a := if qs[n].userId == uid then RowsOf(qs[n], rs) else [];
      var b := History(init, rs, uid);
      var h := History(qs, rs, uid);
      assert h == a + b;
      forall k | 0 <= k < |h| ensures OwnRow(qs, rs, uid, h[k]) {
        if k < |a| {
          assert a[k] in a;
          assert 0 <= n < |qs| && qs[n].userId == uid && RowOf(h[k], qs[n], rs);
        } else {
          assert h[k] == b[k - |a|];
          assert OwnRow(init, rs, uid, b[k - |a|]);
          var i :| 0 <= i < |init| && init[i].userId == uid && RowOf(b[k - |a|], init[i], rs);
          assert qs[i] == init[i];
          assert 0 <= i < |qs| && qs[i].userId == uid && RowOf(h[k], qs[i], rs);
        }
      }
    } else {
      assert History(qs, rs, uid) == [];
    }
  }

  /** Every row of every one of the student's queries is in the history. */
  lemma {:induction false} HistoryListsAllOwnQueries(qs: seq<Query>, rs: seq<Response>, uid: int)
    ensures forall i, row :: 0 <= i < |qs| && qs[i].userId == uid && row in RowsOf(qs[i], rs) ==> row in History(qs, rs, uid)
  {
    if qs != [] {
      var n := |qs| - 1;
      var init := qs[..n];
      HistoryListsAllOwnQueries(init, rs, uid);
      forall i, row | 0 <= i < |qs| && qs[i].userId == uid && row in RowsOf(qs[i], rs) ensures row in History(qs, rs, uid) {
        if i < n {
          assert init[i] == qs[i];
          assert row in History(init, rs, uid);
        }
      }
    }
  }

  /** The history of queries whose ids are all below `bound` has only rows below `bound`. */
  lemma {:induction false} HistoryIdsBelow(qs: seq<Query>, rs: seq<Response>, uid: int, bound: int)
    requires forall i :: 0 <= i < |qs| ==> qs[i].id < bound
    ensures forall k :: 0 <= k < |History(qs, rs, uid)| ==> History(qs, rs, uid)[k].queryId < bound
  {
    if qs != [] {
      var n := |qs| - 1;
      var init := qs[..n];
      assert forall i :: 0 <= i < n ==> init[i].id < bound by {
        forall i | 0 <= i < n ensures init[i].id < bound {
          assert init[i] == qs[i];
        }
      }
      HistoryIdsBelow(init, rs, uid, bound);
      var a := if qs[n].userId == uid then RowsOf(qs[n], rs) else [];
      var b := History(init, rs, uid);
      var h := History(qs, rs, uid);
      assert h == a + b;
      forall k | 0 <= k < |h| ensures h[k].queryId < bound {
        if k < |a| {
          assert a[k] in a;
        } else {
          assert h[k] == b[k - |a|];
        }
      }
    }
  }

  /** With serial ids the history is newest first. */
  lemma {:induction false} HistoryNewestFirst(qs: seq<Query>, rs: seq<Response>, uid: int)
    requires IdsIncreasing(qs)
    ensures forall j, k :: 0 <= j < k < |History(qs, rs, uid)| ==> History(qs, rs, uid)[j].queryId >= History(qs, rs, uid)[k].queryId
  {
    if qs != [] {
      var n := |qs| - 1;
      var init := qs[..n];
      assert IdsIncreasing(init) && forall i :: 0 <= i < n ==> init[i].id < qs[n].id by {
        forall i | 0 <= i < n ensures init[i] == qs[i] {}
      }
      HistoryNewestFirst(init, rs, uid);
      HistoryIdsBelow(init, rs, uid, qs[n].id);
      var a := if qs[n].userId == uid then RowsOf(qs[n], rs) else [];
      var b := History(init, rs, uid);
      var h := History(qs, rs, uid);
      assert h == a + b;
      assert forall j :: 0 <= j < |a| ==> a[j].queryId == qs[n].id by {
        forall j | 0 <= j < |a| ensures a[j].queryId == qs[n].id {
          assert a[j] in a;
        }
      }
      forall j, k | 0 <= j < k < |h| ensures h[j].queryId >= h[k].queryId {
        if k >= |a| {
          assert h[k] == b[k - |a|];
          if j >= |a| {
            assert h[j] == b[j - |a|];
          }
        }
      }
    }
  }

  /** The rows of `rows` that belong to query `qid`, in order. */
  function RowsWithId(rows: seq<HistoryRow>, qid: int): seq<HistoryRow> {
    if rows == [] then []
    else (if rows[0].queryId == qid then [rows[0]] else []) + RowsWithId(rows[1..], qid)
  }

  lemma {:induction false} RowsWithIdAppend(a: seq<HistoryRow>, b: seq<HistoryRow>, qid: int)
    ensures RowsWithId(a + b, qid) == RowsWithId(a, qid) + RowsWithId(b, qid)
  {
    if a != [] {
      assert (a + b)[0] == a[0] && (a + b)[1..] == a[1..] + b;
      RowsWithIdAppend(a[1..], b, qid);
      var head := if a[0].queryId == qid then [a[0]] else [];
      assert RowsWithId(a + b, qid) == head + (RowsWithId(a[1..], qid) + RowsWithId(b, qid));
    } else {
      assert a + b == b;
    }
  }

  lemma {:induction false} RowsWithIdAll(rows: seq<HistoryRow>, qid: int)
    requires forall k :: 0 <= k < |rows| ==> rows[k].queryId == qid
    ensures RowsWithId(rows, qid) == rows
  {
    if rows != [] {
      RowsWithIdAll(rows[1..], qid);
    }
  }

  lemma {:induction false} RowsWithIdNone(rows: seq<HistoryRow>, qid: int)
    requires forall k :: 0 <= k < |rows| ==> rows[k].queryId != qid
    ensures RowsWithId(rows, qid) == []
  {
    if rows != [] {
      RowsWithIdNone(rows[1..], qid);
    }
  }

  /**
   * With serial ids, the history holds each of the student's queries' LEFT
   * JOIN rows exactly once and in full, and no row of another student's query.
   */
  lemma {:induction false} HistoryRowsOfQuery(qs: seq<Query>, rs: seq<Response>, uid: int, i: int)
    requires IdsIncreasing(qs) && 0 <= i < |qs|
    ensures RowsWithId(History(qs, rs, uid), qs[i].id) == if qs[i].userId == uid then RowsOf(qs[i], rs) else []
  {
    var n := |qs| - 1;
    var init := qs[..n];
    var own := if qs[n].userId == uid then RowsOf(qs[n], rs) else [];
    var rest := History(init, rs, uid);
    assert History(qs, rs, uid) == own + rest;
    RowsWithIdAppend(own, rest, qs[i].id);
    assert forall j :: 0 <= j < |own| ==> own[j].queryId == qs[n].id by {
      forall j | 0 <= j < |own| ensures own[j].queryId == qs[n].id {
        assert own[j] in own;
      }
    }
    assert IdsIncreasing(init) && forall j :: 0 <= j < n ==> init[j].id < qs[n].id by {
      forall j | 0 <= j < n ensures init[j] == qs[j] {}
    }
    if i == n {
      RowsWithIdAll(own, qs[i].id);
      HistoryIdsBelow(init, rs, uid, qs[n].id);
      RowsWithIdNone(rest, qs[i].id);
    } else {
      assert init[i] == qs[i];
      RowsWithIdNone(own, qs[i].id);
      HistoryRowsOfQuery(init, rs, uid, i);
    }
  }

  // ---------------------------------------------------------------- pending count

  /** `SELECT COUNT(*) FROM queries WHERE user_id = uid AND (status IS NULL OR status != 'answered')` */
  function PendingCount(qs: seq<Query>, uid: int): (count: nat)
    ensures count <= |qs|
  {
    if qs == [] then 0
    else
      var q := qs[|qs| - 1];
      PendingCount(qs[..|qs| - 1], uid) + (if q.userId == uid && q.status != Answered then 1 else 0)
  }

  /** The number of rows that show no response. */
  function UnansweredRows(rows: seq<HistoryRow>): nat {
    if rows == [] then 0
    else (if rows[0].response.None? then 1 else 0) + UnansweredRows(rows[1..])
  }

  lemma {:induction false} UnansweredRowsAppend(a: seq<HistoryRow>, b: seq<HistoryRow>)
    ensures UnansweredRows(a + b) == UnansweredRows(a) + UnansweredRows(b)
  {
    if a != [] {
      assert (a + b)[0] == a[0];
      assert (a + b)[1..] == a[1..] + b;
      UnansweredRowsAppend(a[1..], b);
      assert UnansweredRows(a + b) == (if a[0].response.None? then 1 else 0) + UnansweredRows(a[1..] + b);
    } else {
      assert a + b == b;
    }
  }

  lemma {:induction false} UnansweredRowsOfQuery(q: Query, rs: seq<Response>, rows: seq<HistoryRow>)
    requires forall row :: row in rows ==> RowOf(row, q, rs)
    ensures UnansweredRows(rows) == if HasResponse(rs, q.id) || rows == [] then 0 else |rows|
  {
    if rows != [] {
      assert rows[0] in rows;
      assert forall row :: row in rows[1..] ==> row in rows;
      UnansweredRowsOfQuery(q, rs, rows[1..]);
    }
  }

  /** The student's pending badge equals the number of history rows that show no response. */
  lemma {:induction false} PendingCountIsUnansweredRows(qs: seq<Query>, rs: seq<Response>, uid: int)
    requires StatusMatches(qs, rs)
    ensures PendingCount(qs, uid) == UnansweredRows(History(qs, rs, uid))
  {
    if qs != [] {
      var n := |qs| - 1;
      var init := qs[..n];
      assert StatusMatches(init, rs) by {
        forall i | 0 <= i < |init| ensures init[i] == qs[i] { }
      }
      PendingCountIsUnansweredRows(init, rs, uid);
      var a := if qs[n].userId == uid then RowsOf(qs[n], rs) else [];
      UnansweredRowsAppend(a, History(init, rs, uid));
      if qs[n].userId == uid {
        UnansweredRowsOfQuery(qs[n], rs, a);
        assert !HasResponse(rs, qs[n].id) ==> a == [HistoryRow(qs[n].id, qs[n].text, None, qs[n].status)];
      }
    }
  }

  lemma PendingCountSnoc(qs: seq<Query>, q: Query, uid: int)
    ensures PendingCount(qs + [q], uid) == PendingCount(qs, uid) + (if q.userId == uid && q.status != Answered then 1 else 0)
  {
    assert (qs + [q])[..|qs|] == qs;
  }

  /** How many of user `uid`'s non-answered queries carry id `qid`. */
  function PendingWithId(qs: seq<Query>, qid: int, uid: int): nat {
    if qs == [] then 0
    else
      var q := qs[|qs| - 1];
      PendingWithId(qs[..|qs| - 1], qid, uid) + (if q.id == qid && q.userId == uid && q.status != Answered then 1 else 0)
  }

  /** Marking id `qid` answered removes exactly the non-answered queries with that id from every count. */
  lemma {:induction false} PendingCountAfterMark(qs: seq<Query>, qid: int, uid: int)
    ensures PendingCount(MarkAnswered(qs, qid), uid) == PendingCount(qs, uid) - PendingWithId(qs, qid, uid)
  {
    if qs != [] {
      var n := |qs| - 1;
      var init := qs[..n];
      var last := if qs[n].id == qid then qs[n].(status := Answered) else qs[n];
      assert MarkAnswered(qs, qid) == MarkAnswered(init, qid) + [last];
      PendingCountSnoc(MarkAnswered(init, qid), last, uid);
      PendingCountAfterMark(init, qid, uid);
    }
  }

  /** With serial ids, only query `i` carries its id. */
  lemma {:induction false} PendingWithUniqueId(qs: seq<Query>, i: int, uid: int)
    requires IdsIncreasing(qs) && 0 <= i < |qs|
    ensures PendingWithId(qs, qs[i].id, uid) == if qs[i].userId == uid && qs[i].status == Pending then 1 else 0
  {
    var n := |qs| - 1;
    var init := qs[..n];
    if i == n {
      assert !IsQueryId(init, qs[i].id) by {
        forall j | 0 <= j < n ensures init[j].id != qs[i].id {
          assert init[j] == qs[j];
        }
      }
      PendingWithAbsentId(init, qs[i].id, uid);
    } else {
      assert init[i] == qs[i];
      assert IdsIncreasing(init) by {
        forall a, b | 0 <= a < b < |init| ensures init[a].id < init[b].id {
          assert init[a] == qs[a] && init[b] == qs[b];
        }
      }
      PendingWithUniqueId(init, i, uid);
    }
  }

  lemma {:induction false} PendingWithAbsentId(qs: seq<Query>, qid: int, uid: int)
    requires !IsQueryId(qs, qid)
    ensures PendingWithId(qs, qid, uid) == 0
  {
    if qs != [] {
      var n := |qs| - 1;
      assert !IsQueryId(qs[..n], qid) by {
        forall j | 0 <= j < n ensures qs[..n][j].id != qid {
          assert qs[..n][j] == qs[j];
        }
      }
      PendingWithAbsentId(qs[..n], qid, uid);
    }
  }

  /** Answering query `i` lowers its owner's pending count by one if it was pending, and changes no other count. */
  lemma {:induction false} PendingCountAfterAnswer(qs: seq<Query>, i: int, uid: int)
    requires IdsIncreasing(qs) && 0 <= i < |qs|
    ensures PendingCount(MarkAnswered(qs, qs[i].id), uid) ==
      PendingCount(qs, uid) - (if qs[i].userId == uid && qs[i].status == Pending then 1 else 0)
  {
    PendingCountAfterMark(qs, qs[i].id, uid);
    PendingWithUniqueId(qs, i, uid);
  }

  // ---------------------------------------------------------------- admin queue

  /** Query `i` has no response row and its owner exists: the admin queue lists it. */
  predicate Waiting(qs: seq<Query>, rs: seq<Response>, users: seq<User>, i: int) {
    0 <= i < |qs| && !HasResponse(rs, qs[i].id) && UserById(users, qs[i].userId).Some?
  }

  function QueueRow(q: Query, users: seq<User>): PendingRow
    requires UserById(users, q.userId).Some?
  {
    PendingRow(q.id, q.text, UserById(users, q.userId).value.fullName)
  }

  /** The admin queue: `queries LEFT JOIN query_responses JOIN users WHERE r.response_id IS NULL ORDER BY q.query_id ASC`. */
  function PendingList(qs: seq<Query>, rs: seq<Response>, users: seq<User>): seq<PendingRow> {
    if qs == [] then []
    else
      var q := qs[|qs| - 1];
      PendingList(qs[..|qs| - 1], rs, users) +
        (if !HasResponse(rs, q.id) && UserById(users, q.userId).Some? then [QueueRow(q, users)] else [])
  }

  /** `row` is the queue row of some waiting query. */
  predicate QueuedRow(qs: seq<Query>, rs: seq<Response>, users: seq<User>, row: PendingRow) {
    exists i :: 0 <= i < |qs| && Waiting(qs, rs, users, i) && row == QueueRow(qs[i], users)
  }

  /** Every row of the queue is the row of a waiting query. */
  lemma {:induction false} PendingListSound(qs: seq<Query>, rs: seq<Response>, users: seq<User>)
    ensures forall k :: 0 <= k < |PendingList(qs, rs, users)| ==> QueuedRow(qs, rs, users, PendingList(qs, rs, users)[k])
  {
    if qs != [] {
      var n := |qs| - 1;
      var init := qs[..n];
      PendingListSound(init, rs, users);
      var pl := PendingList(qs, rs, users);
      var before := PendingList(init, rs, users);
      forall k | 0 <= k < |pl| ensures QueuedRow(qs, rs, users, pl[k]) {
        if k < |before| {
          QueuedRowExtends(qs, rs, users, before[k]);
        } else {
          assert Waiting(qs, rs, users, n) && pl[k] == QueueRow(qs[n], users);
        }
      }
    }
  }

  /** A row queued for a prefix of the queries is queued for all of them. */
  lemma QueuedRowExtends(qs: seq<Query>, rs: seq<Response>, users: seq<User>, row: PendingRow)
    requires qs != [] && QueuedRow(qs[..|qs| - 1], rs, users, row)
    ensures QueuedRow(qs, rs, users, row)
  {
    var init := qs[..|qs| - 1];
    var i :| 0 <= i < |init| && Waiting(init, rs, users, i) && row == QueueRow(init[i], users);
    assert init[i] == qs[i];
    assert Waiting(qs, rs, users, i);
  }

  /** Every waiting query has its row in the queue. */
  lemma {:induction false} PendingListComplete(qs: seq<Query>, rs: seq<Response>, users: seq<User>)
    ensures forall i :: Waiting(qs, rs, users, i) ==> QueueRow(qs[i], users) in PendingList(qs, rs, users)
  {
    if qs != [] {
      var n := |qs| - 1;
      var init := qs[..n];
      PendingListComplete(init, rs, users);
      var pl := PendingList(qs, rs, users);
      assert pl == PendingList(init, rs, users) +
        (if Waiting(qs, rs, users, n) then [QueueRow(qs[n], users)] else []);
      forall i | Waiting(qs, rs, users, i) ensures QueueRow(qs[i], users) in pl {
        if i < n {
          assert init[i] == qs[i];
          assert Waiting(init, rs, users, i);
        }
      }
    }
  }

  /** With serial ids the queue is oldest first. */
  lemma {:induction false} PendingListOldestFirst(qs: seq<Query>, rs: seq<Response>, users: seq<User>)
    requires IdsIncreasing(qs)
    ensures forall j, k :: 0 <= j < k < |PendingList(qs, rs, users)| ==>
      PendingList(qs, rs, users)[j].queryId < PendingList(qs, rs, users)[k].queryId
  {
    if qs != [] {
      var n := |qs| - 1;
      var init := qs[..n];
      PendingListOldestFirst(init, rs, users);
      PendingListSound(init, rs, users);
      var pl := PendingList(qs, rs, users);
      var before := PendingList(init, rs, users);
      assert pl == before + (if Waiting(qs, rs, users, n) then [QueueRow(qs[n], users)] else []);
      forall j, k | 0 <= j < k < |pl| ensures pl[j].queryId < pl[k].queryId {
        if k >= |before| {
          assert pl[j] == before[j] && pl[k] == QueueRow(qs[n], users);
          assert QueuedRow(init, rs, users, before[j]);
          var i :| 0 <= i < |init| && Waiting(init, rs, users, i) && before[j] == QueueRow(init[i], users);
          assert init[i] == qs[i] && i < n;
        }
      }
    }
  }

  /** In a valid ledger the queue lists exactly the queries whose status is 'pending'. */
  lemma {:induction false} PendingListIsPendingStatus(users: seq<User>, qs: seq<Query>, rs: seq<Response>, nextQueryId: int)
    requires LedgerValid(users, qs, rs, nextQueryId)
    ensures forall i :: 0 <= i < |qs| ==>
      (qs[i].status == Pending <==>
        exists k :: 0 <= k < |PendingList(qs, rs, users)| && PendingList(qs, rs, users)[k].queryId == qs[i].id)
  {
    PendingListSound(qs, rs, users);
    PendingListComplete(qs, rs, users);
    var pl := PendingList(qs, rs, users);
    forall i | 0 <= i < |qs| && qs[i].status == Pending
      ensures exists k :: 0 <= k < |pl| && pl[k].queryId == qs[i].id
    {
      PendingIsListed(users, qs, rs, nextQueryId, pl, i);
    }
    forall i, k | 0 <= i < |qs| && 0 <= k < |pl| && pl[k].queryId == qs[i].id
      ensures qs[i].status == Pending
    {
      ListedIsPending(users, qs, rs, nextQueryId, pl, i, k);
    }
  }

  lemma PendingIsListed(users: seq<User>, qs: seq<Query>, rs: seq<Response>, nextQueryId: int, pl: seq<PendingRow>, i: int)
    requires LedgerValid(users, qs, rs, nextQueryId) && 0 <= i < |qs| && qs[i].status == Pending
    requires forall i :: Waiting(qs, rs, users, i) ==> QueueRow(qs[i], users) in pl
    ensures exists k :: 0 <= k < |pl| && pl[k].queryId == qs[i].id
  {
    assert Waiting(qs, rs, users, i);
    var k :| 0 <= k < |pl| && pl[k] == QueueRow(qs[i], users);
    assert pl[k].queryId == qs[i].id;
  }

  lemma ListedIsPending(users: seq<User>, qs: seq<Query>, rs: seq<Response>, nextQueryId: int, pl: seq<PendingRow>, i: int, k: int)
    requires LedgerValid(users, qs, rs, nextQueryId) && 0 <= i < |qs|
    requires 0 <= k < |pl| && pl[k].queryId == qs[i].id && QueuedRow(qs, rs, users, pl[k])
    ensures qs[i].status == Pending
  {
    var j :| 0 <= j < |qs| && Waiting(qs, rs, users, j) && pl[k] == QueueRow(qs[j], users);
    assert qs[j].id == qs[i].id;
    assert i == j;
  }

  /** The rows of `rows` other than those of query `qid`. */
  function Without(rows: seq<PendingRow>, qid: int): seq<PendingRow> {
    if rows == [] then []
    else
      var row := rows[|rows| - 1];
      Without(rows[..|rows| - 1], qid) + (if row.queryId == qid then [] else [row])
  }

  /** Answering a query removes its rows from the queue and leaves every other row in place. */
  lemma {:induction false} PendingListAfterAnswer(qs: seq<Query>, rs: seq<Response>, users: seq<User>, qid: int, text: string)
    ensures PendingList(MarkAnswered(qs, qid), rs + [Response(qid, text)], users) == Without(PendingList(qs, rs, users), qid)
  {
    if qs != [] {
      var n := |qs| - 1;
      var init := qs[..n];
      var rs' := rs + [Response(qid, text)];
      var last := if qs[n].id == qid then qs[n].(status := Answered) else qs[n];
      var marked := MarkAnswered(qs, qid);
      assert marked == MarkAnswered(init, qid) + [last];
      assert marked[..n] == MarkAnswered(init, qid);
      PendingListAfterAnswer(init, rs, users, qid, text);
      ResponsesForAppend(rs, Response(qid, text), qs[n].id);
      var before := PendingList(init, rs, users);
      var tail := if !HasResponse(rs, qs[n].id) && UserById(users, qs[n].userId).Some? then [QueueRow(qs[n], users)] else [];
      var tail' := if !HasResponse(rs', last.id) && UserById(users, last.userId).Some? then [QueueRow(last, users)] else [];
      assert PendingList(marked, rs', users) == Without(before, qid) + tail';
      assert PendingList(qs, rs, users) == before + tail;
      if tail == [] {
        assert before + tail == before;
        assert tail' == [];
      } else {
        var all := before + tail;
        assert all[..|all| - 1] == before && all[|all| - 1] == QueueRow(qs[n], users);
        assert Without(all, qid) == Without(before, qid) + (if qs[n].id == qid then [] else [QueueRow(qs[n], users)]);
      }
    }
  }

  /** A response row for an id no query has leaves the queue unchanged. */
  lemma {:induction false} PendingListIgnoresForeignResponse(qs: seq<Query>, rs: seq<Response>, users: seq<User>, r: Response)
    requires !IsQueryId(qs, r.queryId)
    ensures PendingList(qs, rs + [r], users) == PendingList(qs, rs, users)
  {
    if qs != [] {
      var n := |qs| - 1;
      assert !IsQueryId(qs[..n], r.queryId) by {
        forall i | 0 <= i < n ensures qs[..n][i].id != r.queryId {
          assert qs[..n][i] == qs[i];
        }
      }
      PendingListIgnoresForeignResponse(qs[..n], rs, users, r);
      assert qs[n].id != r.queryId;
      ResponsesForAppend(rs, r, qs[n].id);
    }
  }

  /** A question queued as 'pending' joins the back of the admin queue. */
  lemma PendingListAfterQueue(qs: seq<Query>, rs: seq<Response>, users: seq<User>, q: Query)
    requires !HasResponse(rs, q.id) && UserById(users, q.userId).Some?
    ensures PendingList(qs + [q], rs, users) == PendingList(qs, rs, users) + [QueueRow(q, users)]
  {
    assert (qs + [q])[..|qs|] == qs;
  }

  /** A question answered from an earlier duplicate never enters the admin queue. */
  lemma {:induction false} PendingListAfterCopy(qs: seq<Query>, rs: seq<Response>, users: seq<User>, q: Query, answer: string)
    requires !IsQueryId(qs, q.id)
    ensures PendingList(qs + [q], rs + [Response(q.id, answer)], users) == PendingList(qs, rs, users)
  {
    assert (qs + [q])[..|qs|] == qs;
    PendingListIgnoresForeignResponse(qs, rs, users, Response(q.id, answer));
    ResponsesForAppend(rs, Response(q.id, answer), q.id);
  }
}
