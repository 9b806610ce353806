/**
 * The Flask `session` dictionary and the role guards of the two protected
 * routes.  A session value is a boolean, an integer or a string, which is
 * all the login routes ever store.
 */
module Sessions {
  import opened Optional

  datatype SessionValue = Flag(b: bool) | Number(n: int) | Str(s: string)

  type Session = map<string, SessionValue>

  /** Python truthiness of a stored value. */
  predicate Truthy(v: SessionValue) {
    match v
    case Flag(b) => b
    case Number(n) => n != 0
    case Str(s) => s != ""
  }

  /** `session.get(key)` */
  function Get(s: Session, key: string): Option<SessionValue> {
    if key in s then Some(s[key]) else None
  }

  /** `session.get('logged_in')` is truthy. */
  predicate LoggedIn(s: Session) {
    "logged_in" in s && Truthy(s["logged_in"])
  }

  /** `session.get('role') == role` */
  predicate HasRole(s: Session, role: string) {
    "role" in s && s["role"] == Str(role)
  }

  /** `s.isdigit()` on ASCII text: non-empty and decimal digits only. */
  predicate IsDigits(s: string) {
    s != [] && forall i :: 0 <= i < |s| ==> '0' <= s[i] <= '9'
  }

  /** The integer a digit string denotes, as the database reads it when it is bound to an integer column. */
  function DecimalValue(s: string): nat
    requires IsDigits(s) || s == []
  {
    if s == [] then 0 else 10 * DecimalValue(s[..|s| - 1]) + (s[|s| - 1] as int - '0' as int)
  }

  /** What the student chat route does before touching the database. */
  datatype StudentAccess =
    | Admitted(userId: int) // logged in as a student, with a user_id the database accepts as an integer
    | Denied                // not logged in, or not a student: redirect to the student login
    | Malformed             // a student session whose user_id is missing or not integer-like: clear it
    | Unusable              // a student session whose user_id is a Python bool: it passes the check, but the database refuses it

  /**
   * The integer the database reads for a session `user_id` bound to an
   * integer column: an integer, or a string of digits.  A Python `bool`
   * passes the sanity check (it is an `int`) but is sent as SQL `true` or
   * `false`, which no integer column accepts.
   */
  function UserIdOf(v: SessionValue): (id: Option<int>)
    ensures id.Some? <==> v.Number? || (v.Str? && IsDigits(v.s))
    ensures v.Number? ==> id == Some(v.n)
    ensures v.Str? && id.Some? ==> id.value >= 0
  {
    match v
    case Number(n) => Some(n)
    case Flag(_) => None
    case Str(t) => if IsDigits(t) then Some(DecimalValue(t)) else None
  }

  /** The guard of the student chat route: role check, then the user_id sanity check. */
  function StudentGate(s: Session): (access: StudentAccess)
    ensures access == Denied <==> !LoggedIn(s) || !HasRole(s, "student")
    ensures access == Malformed <==>
      LoggedIn(s) && HasRole(s, "student") && ("user_id" !in s || (s["user_id"].Str? && !IsDigits(s["user_id"].s)))
    ensures access == Unusable <==> LoggedIn(s) && HasRole(s, "student") && "user_id" in s && s["user_id"].Flag?
    ensures access.Admitted? ==> "user_id" in s && UserIdOf(s["user_id"]) == Some(access.userId) && !AdminGate(s)
  {
    if !LoggedIn(s) || !HasRole(s, "student") then Denied
    else if "user_id" !in s then Malformed
    else if s["user_id"].Flag? then Unusable
    else if UserIdOf(s["user_id"]).Some? then Admitted(UserIdOf(s["user_id"]).value)
    else Malformed
  }

  /** The guard of the admin route; a session that passes it is never a student's. */
  predicate AdminGate(s: Session)
    ensures AdminGate(s) ==> LoggedIn(s) && !HasRole(s, "student")
  {
    LoggedIn(s) && HasRole(s, "admin")
  }

  /** The session a successful student login leaves: cleared, then exactly these four keys. */
  function StudentSession(userId: int, fullName: string): (s: Session)
    ensures s.Keys == {"logged_in", "user_id", "full_name", "role"}
    ensures StudentGate(s) == Admitted(userId) && !AdminGate(s)
    ensures Get(s, "full_name") == Some(Str(fullName))
  {
    map["logged_in" := Flag(true), "user_id" := Number(userId), "full_name" := Str(fullName), "role" := Str("student")]
  }

  /** The session a successful admin login leaves: cleared, then exactly these three keys. */
  function AdminSession(email: string): (s: Session)
    ensures s.Keys == {"logged_in", "email", "role"}
    ensures AdminGate(s) && StudentGate(s) == Denied
  {
    map["logged_in" := Flag(true), "email" := Str(email), "role" := Str("admin")]
  }
}
