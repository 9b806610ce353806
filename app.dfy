/**
 * The Flask routes of the backend as methods of one object holding the
 * four tables and the client's session.  Each method does what its route's
 * POST (or GET) branch does to the tables and the session, and returns the
 * page it renders or the route it redirects to.
 */
module App {
  import opened Optional
  import opened Text
  import opened Accounts
  import opened Sessions
  import opened Ledger

  datatype Route = StudentLoginRoute | AdminLoginRoute | UserChatRoute | AdminRoute

  /** What a handler returns: a redirect, a rendered template with its variables, or the 500 page. */
  datatype Reply =
    | Redirect(to: Route)
    | RegisterPage(error: Option<string>)
    | StudentLoginPage(error: Option<string>)
    | AdminLoginPage(error: Option<string>)
    | StudentDashboard(rows: seq<HistoryRow>, fullName: Option<SessionValue>, pendingCount: nat)
    | AdminDashboard(queue: seq<PendingRow>)
    | DatabaseError

  const AllFieldsRequired: string := "All fields are required."
  const EmailTaken: string := "This email address is already registered. Please login."
  const InvalidCredentials: string := "Invalid email or password."

  /**
   * The tables after student `uid` submits the non-empty `text`: one new
   * query under the next serial id, 'answered' with a copy of the answer the
   * duplicate check found, or 'pending' with no response row.
   */
  predicate Submitted(qs: seq<Query>, rs: seq<Response>, nextQueryId: int, uid: int, text: string,
                      qs': seq<Query>, rs': seq<Response>, nextQueryId': int)
  {
    && nextQueryId' == nextQueryId + 1
    && match FindAnswered(qs, rs, text)
       case Some(answer) =>
         qs' == qs + [Query(nextQueryId, uid, text, Answered)] && rs' == rs + [Response(nextQueryId, answer)]
       case None =>
         qs' == qs + [Query(nextQueryId, uid, text, Pending)] && rs' == rs
  }

  /** A session the student chat route admits names an existing user. */
  predicate SessionUserKnown(s: Session, users: seq<User>) {
    StudentGate(s).Admitted? ==> UserById(users, StudentGate(s).userId).Some?
  }

  /** The invariant of the tables, the serial counters and the session. */
  predicate Consistent(users: seq<User>, qs: seq<Query>, rs: seq<Response>, session: Session, nextUserId: int, nextQueryId: int) {
    && UsersValid(users, nextUserId)
    && LedgerValid(users, qs, rs, nextQueryId)
    && SessionUserKnown(session, users)
  }

  /** Answering an existing query keeps the whole invariant. */
  lemma AnswerKeepsConsistent(users: seq<User>, qs: seq<Query>, rs: seq<Response>, session: Session,
                               nextUserId: int, nextQueryId: int, qid: int, text: string)
    requires Consistent(users, qs, rs, session, nextUserId, nextQueryId) && IsQueryId(qs, qid)
    ensures Consistent(users, MarkAnswered(qs, qid), rs + [Response(qid, text)], session, nextUserId, nextQueryId)
  {
    AnswerKeepsValid(users, qs, rs, nextQueryId, qid, text);
  }


  class Backend {
    var users: seq<User>
    var admins: seq<Admin>
    var queries: seq<Query>
    var responses: seq<Response>
    var session: Session
    var nextUserId: int
    var nextQueryId: int

    ghost predicate Valid()
      reads this
    {
      Consistent(users, queries, responses, session, nextUserId, nextQueryId)
    }

    /** Empty `users`, `queries` and `query_responses`; the `admin` table is provisioned outside the app. */
    constructor (admins: seq<Admin>)
      ensures Valid()
      ensures this.admins == admins && users == [] && queries == [] && responses == [] && session == map[]
    {
      this.admins := admins;
      users, queries, responses := [], [], [];
      session := map[];
      nextUserId, nextQueryId := 1, 1;
    }

    /** POST /register */
    method Register(name: string, address: string, mobile: string, email: string, password: string) returns (reply: Reply)
      requires Valid()
      modifies this`users, this`nextUserId
      ensures Valid()
      ensures name == "" || email == "" || password == "" ==>
        reply == RegisterPage(Some(AllFieldsRequired)) && users == old(users) && nextUserId == old(nextUserId)
      ensures name != "" && email != "" && password != "" && StudentInfo(old(users), email).Some? ==>
        reply == RegisterPage(Some(EmailTaken)) && users == old(users) && nextUserId == old(nextUserId)
      ensures name != "" && email != "" && password != "" && StudentInfo(old(users), email).None? ==>
        && reply == Redirect(StudentLoginRoute)
        && users == old(users) + [User(old(nextUserId), name, email, mobile, password, address)]
        && nextUserId == old(nextUserId) + 1
    {
      if name == "" || email == "" || password == "" {
        return RegisterPage(Some(AllFieldsRequired));
      }
      if StudentInfo(users, email).Some? {
        return RegisterPage(Some(EmailTaken));
      }
      var u := User(nextUserId, name, email, mobile, password, address);
      RegisterKeepsUsersValid(users, nextUserId, u);
      NewUserKeepsValid(users, queries, responses, nextQueryId, u);
      if StudentGate(session).Admitted? {
        UserByIdAppend(users, u, StudentGate(session).userId);
      }
      users := users + [u];
      nextUserId := nextUserId + 1;
      reply := Redirect(StudentLoginRoute);
    }

    /** POST /login */
    method StudentLogin(email: string, password: string) returns (reply: Reply)
      requires Valid()
      modifies this`session
      ensures Valid()
      ensures match StudentLoginCheck(users, email, password)
        case Some(u) => session == StudentSession(u.id, u.fullName) && reply == Redirect(UserChatRoute)
        case None => session == old(session) && reply == StudentLoginPage(Some(InvalidCredentials))
    {
      var info := StudentInfo(users, email);
      if info.Some? {
        var u := info.value;
        if password == u.password {
          session := map[];
          session := session["logged_in" := Flag(true)];
          session := session["user_id" := Number(u.id)];
          session := session["full_name" := Str(u.fullName)];
          session := session["role" := Str("student")];
          reply := Redirect(UserChatRoute);
        } else {
          reply := StudentLoginPage(Some(InvalidCredentials));
        }
      } else {
        reply := StudentLoginPage(Some(InvalidCredentials));
      }
    }

    /** POST /admin_login */
    method AdminLogin(email: string, password: string) returns (reply: Reply)
      requires Valid()
      modifies this`session
      ensures Valid()
      ensures match AdminLoginCheck(admins, email, password)
        case Some(_) => session == AdminSession(email) && reply == Redirect(AdminRoute)
        case None => session == old(session) && reply == AdminLoginPage(Some(InvalidCredentials))
    {
      var info := AdminInfo(admins, email);
      if info.Some? {
        if password == info.value.password {
          session := map[];
          session := session["logged_in" := Flag(true)];
          session := session["email" := Str(email)];
          session := session["role" := Str("admin")];
          reply := Redirect(AdminRoute);
        } else {
          reply := AdminLoginPage(Some(InvalidCredentials));
        }
      } else {
        reply := AdminLoginPage(Some(InvalidCredentials));
      }
    }

    /** GET /logout */
    method Logout() returns (reply: Reply)
      requires Valid()
      modifies this`session
      ensures Valid()
      ensures session == map[] && StudentGate(session) == Denied && !AdminGate(session)
      ensures reply == Redirect(StudentLoginRoute)
    {
      session := map[];
      reply := Redirect(StudentLoginRoute);
    }

    /** POST /user: a student submits a question. */
    method UserChatPost(rawText: string) returns (reply: Reply)
      requires Valid()
      modifies this`session, this`queries, this`responses, this`nextQueryId
      ensures Valid()
      ensures StudentGate(old(session)) == Denied ==>
        && reply == Redirect(StudentLoginRoute) && session == old(session)
        && queries == old(queries) && responses == old(responses) && nextQueryId == old(nextQueryId)
      ensures StudentGate(old(session)) == Malformed ==>
        && reply == Redirect(StudentLoginRoute) && session == map[]
        && queries == old(queries) && responses == old(responses) && nextQueryId == old(nextQueryId)
      ensures StudentGate(old(session)) == Unusable ==>
        && session == old(session) && queries == old(queries) && responses == old(responses) && nextQueryId == old(nextQueryId)
        && reply == (if Strip(rawText) == [] then Redirect(UserChatRoute) else DatabaseError)
      ensures StudentGate(old(session)).Admitted? ==> reply == Redirect(UserChatRoute) && session == old(session)
      ensures StudentGate(old(session)).Admitted? && Strip(rawText) == [] ==>
        queries == old(queries) && responses == old(responses) && nextQueryId == old(nextQueryId)
      ensures StudentGate(old(session)).Admitted? && Strip(rawText) != [] ==>
        Submitted(old(queries), old(responses), old(nextQueryId), StudentGate(old(session)).userId, Strip(rawText),
          queries, responses, nextQueryId)
    {
      var access := StudentGate(session);
      if access == Denied {
        return Redirect(StudentLoginRoute);
      }
      if access == Malformed {
        session := map[];
        return Redirect(StudentLoginRoute);
      }
      var text := Strip(rawText);
      if access == Unusable {
        // a blank text is ignored before any query; otherwise the INSERT binds a boolean
        // to the integer user_id column and the transaction is rolled back
        return if text == [] then Redirect(UserChatRoute) else DatabaseError;
      }
      if text == [] {
        return Redirect(UserChatRoute);
      }
      RecordQuestion(access.userId, text);
      reply := Redirect(UserChatRoute);
    }

    /**
     * The INSERTs of a non-empty submission by student `uid`: a copy of an
     * earlier answer to the same question if there is one, else a pending query.
     */
    method RecordQuestion(uid: int, text: string)
      requires Valid() && UserById(users, uid).Some?
      modifies this`queries, this`responses, this`nextQueryId
      ensures Consistent(users, queries, responses, session, nextUserId, nextQueryId)
      ensures Submitted(old(queries), old(responses), old(nextQueryId), uid, text, queries, responses, nextQueryId)
    {
      var found := FindAnswered(queries, responses, text);
      var qid := nextQueryId;
      if found.Some? {
        CopyKeepsValid(users, queries, responses, qid, uid, text, found.value);
        queries := queries + [Query(qid, uid, text, Answered)];
        responses := responses + [Response(qid, found.value)];
      } else {
        QueueKeepsValid(users, queries, responses, qid, uid, text);
        queries := queries + [Query(qid, uid, text, Pending)];
      }
      nextQueryId := qid + 1;
    }

    /** GET /user: the student's dashboard. */
    method UserChatGet() returns (reply: Reply)
      requires Valid()
      modifies this`session
      ensures Valid()
      ensures StudentGate(old(session)) == Denied ==> reply == Redirect(StudentLoginRoute) && session == old(session)
      ensures StudentGate(old(session)) == Malformed ==> reply == Redirect(StudentLoginRoute) && session == map[]
      ensures StudentGate(old(session)) == Unusable ==> reply == DatabaseError && session == old(session)
      ensures StudentGate(old(session)).Admitted? ==>
        && session == old(session)
        && reply == StudentDashboard(
             History(queries, responses, StudentGate(old(session)).userId),
             Get(session, "full_name"),
             PendingCount(queries, StudentGate(old(session)).userId))
      ensures reply.StudentDashboard? ==>
        && reply.pendingCount == UnansweredRows(reply.rows)
        && forall j, k :: 0 <= j < k < |reply.rows| ==> reply.rows[j].queryId >= reply.rows[k].queryId
    {
      var access := StudentGate(session);
      if access == Denied {
        return Redirect(StudentLoginRoute);
      }
      if access == Malformed {
        session := map[];
        return Redirect(StudentLoginRoute);
      }
      if access == Unusable {
        // `WHERE q.user_id = true` compares an integer with a boolean: the SELECT fails
        return DatabaseError;
      }
      var uid := access.userId;
      PendingCountIsUnansweredRows(queries, responses, uid);
      HistoryNewestFirst(queries, responses, uid);
      reply := StudentDashboard(History(queries, responses, uid), Get(session, "full_name"), PendingCount(queries, uid));
    }

    /** POST /admin: an admin answers query `queryId`. */
    method AdminPost(queryId: int, responseText: string) returns (reply: Reply)
      requires Valid()
      modifies this`queries, this`responses
      ensures Valid()
      ensures !AdminGate(session) ==>
        reply == Redirect(AdminLoginRoute) && queries == old(queries) && responses == old(responses)
      ensures AdminGate(session) && !IsQueryId(old(queries), queryId) ==>
        reply == DatabaseError && queries == old(queries) && responses == old(responses)
      ensures AdminGate(session) && IsQueryId(old(queries), queryId) ==>
        && reply == Redirect(AdminRoute)
        && responses == old(responses) + [Response(queryId, responseText)]
        && queries == MarkAnswered(old(queries), queryId)
    {
      if !AdminGate(session) {
        return Redirect(AdminLoginRoute);
      }
      if !IsQueryId(queries, queryId) {
        // the response row would violate its foreign key: the transaction is rolled back
        return DatabaseError;
      }
      RecordAnswer(queryId, responseText);
      reply := Redirect(AdminRoute);
    }

    /** The INSERT of the response row and the UPDATE of the query's status, in one transaction. */
    method RecordAnswer(queryId: int, responseText: string)
      requires Valid() && IsQueryId(queries, queryId)
      modifies this`queries, this`responses
      ensures Consistent(users, queries, responses, session, nextUserId, nextQueryId)
      ensures responses == old(responses) + [Response(queryId, responseText)]
      ensures queries == MarkAnswered(old(queries), queryId)
    {
      AnswerKeepsConsistent(users, queries, responses, session, nextUserId, nextQueryId, queryId, responseText);
      queries, responses := MarkAnswered(queries, queryId), responses + [Response(queryId, responseText)];
    }

    /** GET /admin: the queue of unanswered queries, oldest first. */
    function AdminPage(): (reply: Reply)
      reads this
      requires Valid()
      ensures !AdminGate(session) ==> reply == Redirect(AdminLoginRoute)
      ensures AdminGate(session) ==> reply == AdminDashboard(PendingList(queries, responses, users))
      ensures reply.AdminDashboard? ==>
        && (forall k :: 0 <= k < |reply.queue| ==> QueuedRow(queries, responses, users, reply.queue[k]))
        && (forall i :: 0 <= i < |queries| ==>
              (queries[i].status == Pending <==>
                exists k :: 0 <= k < |reply.queue| && reply.queue[k].queryId == queries[i].id))
        && (forall j, k :: 0 <= j < k < |reply.queue| ==> reply.queue[j].queryId < reply.queue[k].queryId)
    {
      PendingListSound(queries, responses, users);
      PendingListIsPendingStatus(users, queries, responses, nextQueryId);
      PendingListOldestFirst(queries, responses, users);
      if AdminGate(session) then AdminDashboard(PendingList(queries, responses, users))
      else Redirect(AdminLoginRoute)
    }
  }
}
