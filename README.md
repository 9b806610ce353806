# SISTec query desk: a Dafny model

This project models the core of the SISTec student help desk backend. Students register and log in. They submit questions. A question that was already answered is answered at once from the earlier reply. Any other question waits as 'pending' until an admin answers it. The student dashboard lists the student's questions newest first, with a badge counting those still open. The admin dashboard lists the unanswered questions oldest first. The project also models the keyword rule of the admission agent.

Layout, one module per file:

- `optional.dfy`: `Option`.
- `text.dfy`: the string primitives the code relies on. These are `str.strip()`, `str.lower()` (the same as SQL `LOWER`) and the substring test `p in s`. Only ASCII is covered.
- `accounts.dfy`: the `users` and `admin` tables, `get_student_info`, `get_admin_info`, the `users` join, the credential checks, and the invariant registration keeps (serial ids, one row per email).
- `sessions.dfy`: the Flask session dictionary, the two role guards, the `user_id` sanity check, and the sessions the two logins leave behind.
- `ledger.dfy`: the `queries` and `query_responses` tables. It covers:
  - the SELECTs the routes run, as functions: the duplicate check, the student history, the pending count and the admin queue;
  - the table invariant: a query is 'answered' exactly when it has a response row, and every response row points at an existing query;
  - lemmas relating these views to the writes.
- `admission_agent.dfy`: `AdmissionAgent.get_response`.
- `app.dfy`: class `Backend`.
  - Its fields are the four tables, the two serial counters and one client's session.
  - It has one method per route branch that writes: register, the two logins, logout, the chat POST and the admin POST. Each states the new tables and session and keeps `Valid()`.
  - The two dashboard reads are `UserChatGet` and `AdminPage`, and their contracts tie what they show to the ledger views.

The tables are sequences in insertion order. A serial id is a counter field that only grows. A SQL SELECT is a recursive function over the sequence. A route's SELECT-then-INSERT is a method that reassigns the table fields.

In these places `backend/app.py` does something a hardened version of the app would not do, and the model follows the code:

- passwords are stored and compared in plain text;
- the duplicate check runs on every submission and copies answers across students: any student's answered question with the same text counts;
- answering an already-answered query adds one more response row;
- a student session whose `user_id` is a Python `bool` passes the sanity check at app.py:210, because `bool` is a subclass of `int`. psycopg2 then sends it as SQL `true` or `false`, and PostgreSQL rejects that for the integer `user_id` column. So the chat page fails with the 500 page (`DatabaseError`), and so does a non-blank submission, with nothing changed. A blank submission is still ignored, because it returns before any query runs.

## Model

| member | source | states |
|---|---|---|
| Text.Strip | SISTec-AI-System/backend/app.py:221-225 | the stripped text is empty iff the input is all whitespace; otherwise it neither starts nor ends with whitespace; and it is the input with a whitespace prefix and a whitespace suffix removed |
| Text.Lower | SISTec-AI-System/agents/admission_agent.py:4 | same length as the input, every character lowered, and no upper-case letter left |
| Text.LowerIdempotent | SISTec-AI-System/backend/app.py:233 | lowering twice is the same as lowering once, so `LOWER(a) = LOWER(b)` compares already-lowered text correctly |
| Text.Contains | SISTec-AI-System/agents/admission_agent.py:6-12 | a found substring is no longer than the text, and the empty string is always found; `Text.ContainsIff` characterises it completely |
| Text.ContainsIff | SISTec-AI-System/agents/admission_agent.py:6-12 | the substring test `p in s` holds iff `p` occurs in `s` at some position |
| AdmissionAgent.GetResponse | SISTec-AI-System/agents/admission_agent.py:2-16 | the answer is always one of the four fixed replies |
| AdmissionAgent.AnswerIgnoresCase | SISTec-AI-System/agents/admission_agent.py:4 | the answer depends only on the lowercased query |
| AdmissionAgent.SameLetterCaseInsensitive | SISTec-AI-System/agents/admission_agent.py:4-13 | two queries that differ only in letter case get the same answer |
| AdmissionAgent.EligibilityFirst | SISTec-AI-System/agents/admission_agent.py:6-7 | "eligibility" anywhere gives the eligibility reply, whatever other keywords occur |
| AdmissionAgent.DocumentsSecond | SISTec-AI-System/agents/admission_agent.py:9-10 | "documents" without "eligibility" gives the documents reply |
| AdmissionAgent.LastDateThird | SISTec-AI-System/agents/admission_agent.py:12-13 | "last date" without the two earlier keywords gives the last-date reply |
| AdmissionAgent.FallbackIffNoKeyword | SISTec-AI-System/agents/admission_agent.py:15-16 | the fallback is given exactly when none of the three keywords occurs |
| Accounts.StudentInfo | SISTec-AI-System/backend/app.py:34-53 | a row is found only if it is in `users` with that email; nothing is found iff no row has that email |
| Accounts.AdminInfo | SISTec-AI-System/backend/app.py:56-75 | a row is found only if it is in `admin` with that email; nothing is found iff no row has that email |
| Accounts.UserById | SISTec-AI-System/backend/app.py:336 | the join finds a `users` row with that id, or nothing iff no row has that id |
| Accounts.StudentLoginCheck | SISTec-AI-System/backend/app.py:142-157 | a successful check returns a `users` row with exactly the typed email and password, and an unknown email always fails; `Accounts.StudentLoginIff` states both directions |
| Accounts.AdminLoginCheck | SISTec-AI-System/backend/app.py:172-186 | a successful check returns an `admin` row with exactly the typed email and password, and an unknown email always fails; `Accounts.AdminLoginIff` and `Accounts.AdminLoginIffUnique` state both directions |
| Accounts.StudentInfoFindsTheRow | SISTec-AI-System/backend/app.py:41-46 | with one row per email, looking up a row's email returns that very row |
| Accounts.StudentLoginIff | SISTec-AI-System/backend/app.py:140-157 | student login succeeds iff some user has that email and exactly that password, and the user it returns has both |
| Accounts.AdminLoginIff | SISTec-AI-System/backend/app.py:170-186 | admin login succeeds iff the first `admin` row with that email stores exactly that password |
| Accounts.AdminLoginIffUnique | SISTec-AI-System/backend/app.py:170-186 | with one `admin` row per email, admin login succeeds iff some row has that email and exactly that password, whichever row the lookup returns |
| Accounts.StudentInfoAppend | SISTec-AI-System/backend/app.py:106-111 | inserting a user with a new email makes that email find the new row and changes no other email's lookup |
| Accounts.RegisteredStudentCanLogIn | SISTec-AI-System/backend/app.py:140-153 | right after registering, logging in with the same email and password succeeds and returns the new user |
| Accounts.RegisterKeepsUsersValid | SISTec-AI-System/backend/app.py:100-111 | inserting a fresh email under the next serial id keeps ids increasing and below the counter, and keeps emails unique |
| Accounts.UserByIdAppend | SISTec-AI-System/backend/app.py:106-109 | inserting a user never changes which user an existing id joins with |
| Sessions.UserIdOf | SISTec-AI-System/backend/app.py:210 | a session `user_id` yields the integer the route binds to its queries iff it is an integer or a string of digits; an integer stands for itself and a digit string for a non-negative number; a `bool` has none |
| Sessions.StudentGate | SISTec-AI-System/backend/app.py:201-213 | the student route is refused iff the session is not logged in or not a student's; a student session is cleared iff its `user_id` is missing or is a string that is not all digits; it is unusable iff its `user_id` is a `bool`, which passes the check but which the database refuses; otherwise the route proceeds with the integer that `user_id` denotes, and that session never passes the admin guard |
| Sessions.AdminGate | SISTec-AI-System/backend/app.py:307-308 | a session that passes the admin guard is logged in and is not a student's; `Sessions.StudentSession` and `Sessions.AdminSession` show that each login passes exactly its own guard |
| Sessions.StudentSession | SISTec-AI-System/backend/app.py:147-151 | after a student login the session holds exactly `logged_in`, `user_id`, `full_name` and `role`; it passes the student guard with that user id and fails the admin guard |
| Sessions.AdminSession | SISTec-AI-System/backend/app.py:177-180 | after an admin login the session holds exactly `logged_in`, `email` and `role`; it passes the admin guard and fails the student guard |
| Ledger.ResponsesForIff | SISTec-AI-System/backend/app.py:274 | a text is among a query's joined responses iff a response row pairs them |
| Ledger.HasResponseIff | SISTec-AI-System/backend/app.py:335-337 | a query has a response iff some `query_responses` row carries its id |
| Ledger.FreshIdUnanswered | SISTec-AI-System/backend/app.py:245-250 | in a valid ledger, the next serial id has no response row yet |
| Ledger.QueueKeepsValid | SISTec-AI-System/backend/app.py:262-266 | inserting a 'pending' query under the next id, for an existing user, keeps the ledger invariant |
| Ledger.CopyKeepsValid | SISTec-AI-System/backend/app.py:245-258 | inserting an 'answered' query under the next id together with its copied response keeps the ledger invariant |
| Ledger.MarkAnswered | SISTec-AI-System/backend/app.py:325 | the UPDATE sets the status of the rows with that id to 'answered' and leaves every other row and every other field unchanged |
| Ledger.AnswerKeepsValid | SISTec-AI-System/backend/app.py:321-327 | answering an existing query (response row plus status update) keeps the ledger invariant |
| Ledger.NewUserKeepsValid | SISTec-AI-System/backend/app.py:106-111 | a new user row keeps every query's owner joinable |
| Ledger.FindAnswered | SISTec-AI-System/backend/app.py:229-238 | the duplicate check; `Ledger.FindAnsweredSpec`, `Ledger.FindAnsweredNewest` and `Ledger.AnsweredQuestionIsReused` state its contract |
| Ledger.FindAnsweredSpec | SISTec-AI-System/backend/app.py:229-238 | the duplicate check finds something iff some query with the same text (up to case) has a response; what it finds is a response of the last such query |
| Ledger.FindAnsweredNewest | SISTec-AI-System/backend/app.py:235-236 | with serial ids, what the duplicate check copies is a response of the matching query with the highest id |
| Ledger.AnsweredQuestionIsReused | SISTec-AI-System/backend/app.py:227-242 | once an admin answers a query, a later submission of the same text in any letter case finds an answer to copy |
| Ledger.RowsOf | SISTec-AI-System/backend/app.py:272-274 | a query's LEFT JOIN rows are never empty; each carries the query's id, text and status and either one of its responses or none when it has none; a query with responses has exactly one row per response row, in the order the responses were stored |
| Ledger.History | SISTec-AI-System/backend/app.py:271-279 | the student history SELECT; `Ledger.HistoryOnlyOwnQueries`, `Ledger.HistoryListsAllOwnQueries`, `Ledger.HistoryRowsOfQuery` and `Ledger.HistoryNewestFirst` state its contract |
| Ledger.HistoryOnlyOwnQueries | SISTec-AI-System/backend/app.py:271-279 | every history row is a row of one of the student's own queries |
| Ledger.HistoryListsAllOwnQueries | SISTec-AI-System/backend/app.py:271-279 | every row of every one of the student's queries is in the history |
| Ledger.HistoryRowsOfQuery | SISTec-AI-System/backend/app.py:271-276 | with serial ids, the history rows of any query are exactly that query's LEFT JOIN rows, each once, when the student owns it, and there are none when another student owns it |
| Ledger.HistoryNewestFirst | SISTec-AI-System/backend/app.py:276 | with serial ids the history is in non-increasing query id order |
| Ledger.PendingCount | SISTec-AI-System/backend/app.py:282-286 | the pending badge never exceeds the number of queries; `Ledger.PendingCountIsUnansweredRows`, `Ledger.PendingCountSnoc`, `Ledger.PendingCountAfterMark` and `Ledger.PendingCountAfterAnswer` tie it to the history and to the writes |
| Ledger.PendingCountIsUnansweredRows | SISTec-AI-System/backend/app.py:282-286 | in a ledger whose statuses match its responses, the pending badge equals the number of history rows that show no response |
| Ledger.PendingCountAfterMark | SISTec-AI-System/backend/app.py:325 | the status update lowers each user's pending count by the number of their non-answered rows with that id |
| Ledger.PendingCountAfterAnswer | SISTec-AI-System/backend/app.py:321-327 | with serial ids, answering a query lowers its owner's pending count by one if it was pending and changes no other count |
| Ledger.PendingCountSnoc | SISTec-AI-System/backend/app.py:262-265 | a new query adds one to its owner's pending count iff it is not 'answered' |
| Ledger.PendingList | SISTec-AI-System/backend/app.py:332-340 | the admin queue SELECT; `Ledger.PendingListSound`, `Ledger.PendingListComplete` and `Ledger.PendingListOldestFirst` state its contract |
| Ledger.PendingListSound | SISTec-AI-System/backend/app.py:332-340 | every row of the admin queue is the row of a query with no response whose user exists |
| Ledger.PendingListComplete | SISTec-AI-System/backend/app.py:332-340 | every query with no response whose user exists has its row in the admin queue |
| Ledger.PendingListOldestFirst | SISTec-AI-System/backend/app.py:338 | with serial ids the admin queue is in strictly increasing query id order |
| Ledger.PendingListIsPendingStatus | SISTec-AI-System/backend/app.py:332-337 | in a valid ledger, a query's status is 'pending' iff the admin queue lists its id |
| Ledger.PendingListAfterAnswer | SISTec-AI-System/backend/app.py:321-325 | answering a query removes exactly its rows from the admin queue and keeps the other rows in order |
| Ledger.PendingListIgnoresForeignResponse | SISTec-AI-System/backend/app.py:335-337 | a response row for an id no query has does not change the admin queue |
| Ledger.PendingListAfterQueue | SISTec-AI-System/backend/app.py:262-265 | a question queued as 'pending' joins the back of the admin queue |
| Ledger.PendingListAfterCopy | SISTec-AI-System/backend/app.py:245-256 | a question answered from a duplicate never enters the admin queue |
| App.AnswerKeepsConsistent | SISTec-AI-System/backend/app.py:321-327 | answering an existing query keeps the whole backend invariant |
| App.Backend.Register | SISTec-AI-System/backend/app.py:84-114 | a missing name, email or password gives "All fields are required." and changes nothing; a registered email gives the already-registered message and changes nothing; otherwise exactly one user is appended under the next serial id and the reply redirects to the student login; the invariant is kept |
| App.Backend.StudentLogin | SISTec-AI-System/backend/app.py:136-159 | when the credential check passes, the session is replaced by exactly the student session and the reply redirects to the chat page; an unknown email and a wrong password both leave the session alone and give the same "Invalid email or password." |
| App.Backend.AdminLogin | SISTec-AI-System/backend/app.py:166-188 | when the admin credential check passes, the session is replaced by exactly the admin session and the reply redirects to the admin page; otherwise the session is unchanged and the reply carries the one shared error message |
| App.Backend.Logout | SISTec-AI-System/backend/app.py:191-195 | the session is emptied, passes neither guard, and the reply redirects to the student login |
| App.Backend.UserChatPost | SISTec-AI-System/backend/app.py:199-268 | a refused session changes nothing; a malformed student session is cleared; a blank text after strip changes no table; with a `bool` user id a non-blank text gives the 500 page and changes nothing; otherwise exactly one query is added under the next id, 'answered' with a copy of the found answer or 'pending' with no response row; the invariant is kept |
| App.Backend.RecordQuestion | SISTec-AI-System/backend/app.py:240-266 | the INSERTs of a non-empty submission: the duplicate check's result decides between the answered copy and the pending query, and the invariant is re-established |
| App.Backend.UserChatGet | SISTec-AI-System/backend/app.py:270-296 | a refused session is redirected and a malformed one cleared; a `bool` user id gives the 500 page with the session kept; for an admitted student the dashboard shows exactly that student's history and pending count; the badge equals the number of rows without a response, and the rows are newest first |
| App.Backend.AdminPost | SISTec-AI-System/backend/app.py:305-329 | a non-admin session is redirected with no change; an id with no query row fails with no change; otherwise exactly one response row is appended and only the target query's status changes, to 'answered'; the invariant is kept |
| App.Backend.RecordAnswer | SISTec-AI-System/backend/app.py:321-327 | the response INSERT and the status UPDATE together re-establish the invariant |
| App.Backend.AdminPage | SISTec-AI-System/backend/app.py:331-342 | a non-admin is redirected; an admin sees exactly the queue `Ledger.PendingList` computes: every row is the row of a query with no response whose user exists, carrying that query's text and its user's full name; a query is listed iff its status is 'pending'; ids strictly increase |

## Left out

- Flask plumbing is not modelled: templates, `url_for`, the GET branches that only render an empty form, the `/` and `/success` routes, and the secret key.
- A missing form field makes `request.form[...]` raise, and Flask answers 400. Methods take the form fields as parameters, so this case does not arise.
- psycopg2 connections, cursors, `print` logging and rollback are not modelled. So is the generic `psycopg2.Error` → 500 path in every route: the database is taken to be reachable. The only database failures modelled are the foreign-key failure of the admin answer and the rejected `bool` user id.
- Registration's `IntegrityError` branch (app.py:116-118) is not modelled. It is reachable only when two requests race between the email check and the INSERT, and the model has one client and no concurrency.
- Several clients are not modelled. The single `session` field is one client's cookie.
- Unicode is not modelled. `strip`, `lower`/`LOWER` and `isdigit` are modelled on ASCII only, whose whitespace, case mapping and digits agree with Python and PostgreSQL.
- SQL NULLs are not modelled. `status` and `response_text` are never NULL, because the code never writes NULL there. With them goes `status IS NULL` in the count and `response_text IS NOT NULL` in the duplicate check.
- PostgreSQL's 32-bit `integer` range is not modelled. A session `user_id` outside it, such as the string "99999999999", makes the history SELECT and the INSERTs fail with the 500 page. The model instead admits the session with that number. Sessions only ever hold ids the `users` serial produced.
- The admin form's `query_id` is taken to be an integer. A non-numeric value would make PostgreSQL raise, and that path is the generic error path above.
- App.Backend.UserChatGet: the `cur.rowcount != 0` guard (app.py:286) is not modelled, because `COUNT(*)` always returns one row.
- Ledger.History: SQL leaves the order of several rows of the same query unspecified. The model uses response insertion order, so `Ledger.HistoryRowsOfQuery` gives each query's rows in that order. SQL promises only the same rows, each once, in some order. Across queries, the lemmas promise non-increasing query ids.
- Ledger.FindAnswered: when the matching query has several responses, SQL may copy any of them. The model copies the first inserted one, and Ledger.FindAnsweredSpec only promises that the copied text is one of that query's responses.
- Accounts.AdminLoginIff: the model compares the password of the first `admin` row with that email. `get_admin_info` (app.py:63-64) runs without ORDER BY, and nothing here makes `admin.email` unique, so with two rows for one email the database may return either. `Accounts.AdminLoginIffUnique` states the fact that does not depend on the row order, for one row per email.
- The AI gateway and the other agents are not modelled. The routes modelled here never call them.
- Rows of the `admin` table come from outside the app. The constructor takes them as a parameter.

- The PostgreSQL schema is not part of this model. The model assumes three things about it: `query_id` and `user_id` are serials, `users.email` is unique, and `query_responses.query_id` references `queries`. Because of that last assumption, answering an id with no query row makes the response INSERT fail. The admin route then returns its 500 page with nothing changed (`DatabaseError`).
