/**
 * The `users` and `admin` tables and the single-row lookups over them
 * (`get_student_info`, `get_admin_info`, and the `users` join used by the
 * admin queue), together with the plaintext credential check of the two
 * login routes.
 */
module Accounts {
  import opened Optional

  /** A row of `users`; `id` is the `user_id` serial. */
  datatype User = User(id: int, fullName: string, email: string, mobile: string, password: string, address: string)

  /** A row of `admin`: the table holds only an email and a password. */
  datatype Admin = Admin(email: string, password: string)

  /** `SELECT ... FROM users WHERE email = %s`, first row. */
  function StudentInfo(users: seq<User>, email: string): (found: Option<User>)
    ensures found.Some? ==> found.value in users && found.value.email == email
    ensures found.None? <==> forall i :: 0 <= i < |users| ==> users[i].email != email
  {
    if users == [] then None
    else if users[0].email == email then Some(users[0])
    else StudentInfo(users[1..], email)
  }

  /** `SELECT ... FROM admin WHERE email = %s`, first row. */
  function AdminInfo(admins: seq<Admin>, email: string): (found: Option<Admin>)
    ensures found.Some? ==> found.value in admins && found.value.email == email
    ensures found.None? <==> forall i :: 0 <= i < |admins| ==> admins[i].email != email
  {
    if admins == [] then None
    else if admins[0].email == email then Some(admins[0])
    else AdminInfo(admins[1..], email)
  }

  /** The `users` row a query's `user_id` joins with. */
  function UserById(users: seq<User>, id: int): (found: Option<User>)
    ensures found.Some? ==> found.value in users && found.value.id == id
    ensures found.None? <==> forall i :: 0 <= i < |users| ==> users[i].id != id
  {
    if users == [] then None
    else if users[0].id == id then Some(users[0])
    else UserById(users[1..], id)
  }

  predicate EmailsDistinct(users: seq<User>) {
    forall i, j :: 0 <= i < j < |users| ==> users[i].email != users[j].email
  }

  /** What registration keeps true of `users`: serial ids below the next one, and one row per email. */
  predicate UsersValid(users: seq<User>, nextUserId: int) {
    && (forall i, j :: 0 <= i < j < |users| ==> users[i].id < users[j].id)
    && (forall i :: 0 <= i < |users| ==> users[i].id < nextUserId)
    && EmailsDistinct(users)
  }

  /** The student login test: the row found by email, if its stored password equals the input. */
  function StudentLoginCheck(users: seq<User>, email: string, password: string): (found: Option<User>)
    ensures found.Some? ==> found.value in users && found.value.email == email && found.value.password == password
    ensures StudentInfo(users, email).None? ==> found.None?
  {
    match StudentInfo(users, email)
    case Some(u) => if u.password == password then Some(u) else None
    case None => None
  }

  /** The admin login test: the `admin` row found by email, if its stored password equals the input. */
  function AdminLoginCheck(admins: seq<Admin>, email: string, password: string): (found: Option<Admin>)
    ensures found.Some? ==> found.value in admins && found.value.email == email && found.value.password == password
    ensures AdminInfo(admins, email).None? ==> found.None?
  {
    match AdminInfo(admins, email)
    case Some(a) => if a.password == password then Some(a) else None
    case None => None
  }

  /** With one row per email, the row found by email is that email's only row. */
  lemma {:induction false} StudentInfoFindsTheRow(users: seq<User>, i: int)
    requires EmailsDistinct(users) && 0 <= i < |users|
    ensures StudentInfo(users, users[i].email) == Some(users[i])
  {
    if i > 0 {
      assert users[0].email != users[i].email;
      StudentInfoFindsTheRow(users[1..], i - 1);
    }
  }

  /** Student login succeeds iff some user has that email and exactly that stored password. */
  lemma {:induction false} StudentLoginIff(users: seq<User>, email: string, password: string)
    requires EmailsDistinct(users)
    ensures StudentLoginCheck(users, email, password).Some? <==>
      exists i :: 0 <= i < |users| && users[i].email == email && users[i].password == password
  {
    if i :| 0 <= i < |users| && users[i].email == email && users[i].password == password {
      StudentInfoFindsTheRow(users, i);
    }
  }

  /** Row `i` is the first `admin` row with this email: the one `fetchone()` returns. */
  predicate FirstAdminRow(admins: seq<Admin>, email: string, i: int) {
    0 <= i < |admins| && admins[i].email == email && forall j :: 0 <= j < i ==> admins[j].email != email
  }

  /** Admin login succeeds iff the first `admin` row with that email stores exactly that password. */
  lemma {:induction false} AdminLoginIff(admins: seq<Admin>, email: string, password: string)
    ensures AdminLoginCheck(admins, email, password).Some? <==>
      exists i :: FirstAdminRow(admins, email, i) && admins[i].password == password
  {
    if admins != [] {
      if admins[0].email == email {
        assert FirstAdminRow(admins, email, 0);
      } else {
        AdminLoginIff(admins[1..], email, password);
        assert AdminInfo(admins, email) == AdminInfo(admins[1..], email);
        forall i | FirstAdminRow(admins, email, i) ensures i > 0 && FirstAdminRow(admins[1..], email, i - 1) {
          forall j | 0 <= j < i - 1 ensures admins[1..][j].email != email {
            assert admins[1..][j] == admins[j + 1];
          }
        }
        forall i | FirstAdminRow(admins[1..], email, i) ensures FirstAdminRow(admins, email, i + 1) {
          forall j | 0 <= j < i + 1 ensures admins[j].email != email {
            if j > 0 { assert admins[j] == admins[1..][j - 1]; }
          }
        }
      }
    }
  }

  /**
   * With one `admin` row per email, which row the lookup returns no longer
   * matters: admin login succeeds iff some row has that email and exactly
   * that password.
   */
  lemma AdminLoginIffUnique(admins: seq<Admin>, email: string, password: string)
    requires forall i, j :: 0 <= i < j < |admins| ==> admins[i].email != admins[j].email
    ensures AdminLoginCheck(admins, email, password).Some? <==>
      exists i :: 0 <= i < |admins| && admins[i].email == email && admins[i].password == password
  {
    AdminLoginIff(admins, email, password);
    if i :| 0 <= i < |admins| && admins[i].email == email && admins[i].password == password {
      assert FirstAdminRow(admins, email, i);
    }
  }

  /** Appending a row with a new email leaves every earlier email's lookup alone and finds the new one. */
  lemma {:induction false} StudentInfoAppend(users: seq<User>, u: User, email: string)
    requires StudentInfo(users, u.email).None?
    ensures StudentInfo(users + [u], email) == if email == u.email then Some(u) else StudentInfo(users, email)
  {
    if users != [] {
      assert (users + [u])[1..] == users[1..] + [u];
      StudentInfoAppend(users[1..], u, email);
    }
  }

  /** A student who has just registered can log in with the same email and password. */
  lemma {:induction false} RegisteredStudentCanLogIn(users: seq<User>, u: User)
    requires StudentInfo(users, u.email).None?
    ensures StudentLoginCheck(users + [u], u.email, u.password) == Some(u)
  {
    StudentInfoAppend(users, u, u.email);
  }

  /** Registering a fresh email under the next serial id keeps `users` valid. */
  lemma {:induction false} RegisterKeepsUsersValid(users: seq<User>, nextUserId: int, u: User)
    requires UsersValid(users, nextUserId)
    requires u.id == nextUserId && StudentInfo(users, u.email).None?
    ensures UsersValid(users + [u], nextUserId + 1)
  {
    var users' := users + [u];
    forall i, j | 0 <= i < j < |users'| ensures users'[i].email != users'[j].email {
      if j == |users| { assert users'[i] == users[i]; }
    }
  }

  /** Adding a user never changes which user an existing id joins with. */
  lemma {:induction false} UserByIdAppend(users: seq<User>, u: User, id: int)
    requires UserById(users, id).Some?
    ensures UserById(users + [u], id) == UserById(users, id)
  {
    if users[0].id != id {
      assert (users + [u])[1..] == users[1..] + [u];
      UserByIdAppend(users[1..], u, id);
    }
  }
}
