/** The `users` table and the authentication handlers
    (backend/controllers/authController.js). bcrypt's `hash` and `compare`
    are parameters: a function from a password to its stored hash, and a
    relation between a password and a stored hash. A request field that is
    absent reads as "", which is the only falsy value a string field has. */
module AuthController {

  import opened Common
  import opened Seqs

  /** One row of `users`; `password` holds the stored hash. */
  datatype User = User(id: nat, fullName: string, email: string, password: string, studentId: string, role: string)

  /** `req.session.user`. loginUser writes the first four fields; `role` is
      the field requireAdmin reads, which loginUser never writes (None). */
  datatype SessionUser = SessionUser(id: nat, fullName: string, email: string, studentId: string, role: Option<string>)

  /** The fields registerUser reads from the request body. */
  datatype RegisterBody = RegisterBody(fullName: string, email: string, password: string, studentId: string)

  /** Some row already has this email. */
  predicate EmailTaken(rows: seq<User>, email: string) {
    exists i | 0 <= i < |rows| :: rows[i].email == email
  }

  /** No two rows share an email. */
  ghost predicate EmailsUnique(rows: seq<User>) {
    forall i, j :: 0 <= i < j < |rows| ==> rows[i].email != rows[j].email
  }

  /** The first row that `SELECT ... FROM users WHERE email = ?` returns. */
  function FindByEmail(rows: seq<User>, email: string): (r: Option<User>)
    ensures r.None? <==> !EmailTaken(rows, email)
    ensures r.Some? ==> r.value in rows && r.value.email == email
  {
    if rows == [] then None
    else if rows[0].email == email then Some(rows[0])
    else
      assert forall i :: 1 <= i < |rows| ==> rows[1..][i - 1] == rows[i];
      FindByEmail(rows[1..], email)
  }

  /** The first row whose id is `id`. */
  function FindById(rows: seq<User>, id: nat): (r: Option<User>)
    ensures r.None? <==> forall i :: 0 <= i < |rows| ==> rows[i].id != id
    ensures r.Some? ==> r.value in rows && r.value.id == id
  {
    FirstWith(rows, (row: User) => row.id, id)
  }

  /** The rows after `UPDATE users SET <f> WHERE id = ?`. */
  function UpdateWhereId(rows: seq<User>, id: nat, f: User -> User): seq<User> {
    seq(|rows|, i requires 0 <= i < |rows| => if rows[i].id == id then f(rows[i]) else rows[i])
  }

  /** The in-memory `users` table. `defaultRole` is the column default the
      schema gives rows inserted without a role. */
  class UserTable {
    var rows: seq<User>
    var nextId: nat
    const defaultRole: string

    ghost predicate Valid()
      reads this
    {
      && (forall i :: 0 <= i < |rows| ==> rows[i].id < nextId)
      && (forall i, j :: 0 <= i < j < |rows| ==> rows[i].id != rows[j].id)
      && EmailsUnique(rows)
    }

    constructor (defaultRole: string)
      ensures Valid() && rows == [] && nextId == 1 && this.defaultRole == defaultRole
    {
      rows := [];
      nextId := 1;
      this.defaultRole := defaultRole;
    }

    /** `INSERT INTO users (full_name, email, password, student_id)`, for an
        email no row has yet. */
    method Insert(fullName: string, email: string, hashed: string, studentId: string) returns (id: nat)
      requires Valid() && !EmailTaken(rows, email)
      modifies this
      ensures Valid()
      ensures id == old(nextId) && nextId == id + 1
      ensures rows == old(rows) + [User(id, fullName, email, hashed, studentId, defaultRole)]
    {
      id := nextId;
      rows := rows + [User(id, fullName, email, hashed, studentId, defaultRole)];
      nextId := nextId + 1;
    }

    /** `UPDATE users SET f WHERE id = ?` for an `f` that keeps id and email;
        reports whether the id exists. */
    method UpdateById(id: nat, f: User -> User) returns (matched: bool)
      requires Valid()
      requires forall u :: f(u).id == u.id && f(u).email == u.email
      modifies this
      ensures Valid() && nextId == old(nextId)
      ensures matched <==> FindById(old(rows), id).Some?
      ensures rows == UpdateWhereId(old(rows), id, f)
      ensures !matched ==> rows == old(rows)
    {
      matched := FindById(rows, id).Some?;
      rows := UpdateWhereId(rows, id, f);
    }
  }

  /** registerUser: the checks run in order, the first failure answering 400
      with nothing inserted; on success exactly one row is added, holding the
      password's hash, and 201 carries its id. Emails stay unique. */
  method RegisterUser(t: UserTable, body: RegisterBody, hash: string -> string) returns (reply: Reply<nat>)
    requires t.Valid()
    modifies t
    ensures t.Valid()
    ensures (body.fullName == "" || body.email == "" || body.password == "" || body.studentId == "") ==>
      reply == Reply(400, "All fields required: full_name, email, password, student_id", None)
      && t.rows == old(t.rows) && t.nextId == old(t.nextId)
    ensures body.fullName != "" && body.email != "" && body.password != "" && body.studentId != "" ==>
      if EmailTaken(old(t.rows), body.email) then
        reply == Reply(400, "Email already registered", None) && t.rows == old(t.rows) && t.nextId == old(t.nextId)
      else
        && reply == Reply(201, "Registration successful", Some(old(t.nextId)))
        && t.rows == old(t.rows) + [User(old(t.nextId), body.fullName, body.email, hash(body.password), body.studentId, t.defaultRole)]
  {
    if body.fullName == "" || body.email == "" || body.password == "" || body.studentId == "" {
      return Reply(400, "All fields required: full_name, email, password, student_id", None);
    }
    if EmailTaken(t.rows, body.email) {
      return Reply(400, "Email already registered", None);
    }
    var hashed := hash(body.password);
    var id := t.Insert(body.fullName, body.email, hashed, body.studentId);
    reply := Reply(201, "Registration successful", Some(id));
  }

  /** The record loginUser stores in the session: id, name, email and student
      id of the row, and nothing else. */
  function SessionRecord(u: User): (s: SessionUser)
    ensures s.id == u.id && s.fullName == u.fullName && s.email == u.email && s.studentId == u.studentId
    ensures s.role.None?
  {
    SessionUser(u.id, u.fullName, u.email, u.studentId, None)
  }

  /** The session record with the row's role copied in, the field the admin
      gate reads. */
  function SessionRecordWithRole(u: User): (s: SessionUser)
    ensures s.id == u.id && s.fullName == u.fullName && s.email == u.email && s.studentId == u.studentId
    ensures s.role == Some(u.role)
  {
    SessionRecord(u).(role := Some(u.role))
  }

  /** A login's reply together with the session it leaves behind. */
  datatype LoginResult = LoginResult(reply: Reply<SessionUser>, session: Option<SessionUser>)

  /** loginUser: 400 when a field is missing; the same 401 for an unknown email
      and for a wrong password; otherwise the session user becomes the
      password-free record of the row and the reply echoes it. Failures leave
      the session as it was. */
  function LoginUser(rows: seq<User>, session: Option<SessionUser>, email: string, password: string,
                     compare: (string, string) -> bool): (r: LoginResult)
    ensures (email == "" || password == "") ==>
      r == LoginResult(Reply(400, "Email and password are required", None), session)
    ensures email != "" && password != "" && !EmailTaken(rows, email) ==>
      r == LoginResult(Reply(401, "Invalid email or password", None), session)
    ensures email != "" && password != "" && EmailTaken(rows, email) ==>
      var u := FindByEmail(rows, email).value;
      if compare(password, u.password) then
        r == LoginResult(Reply(200, "Login successful", Some(SessionRecord(u))), Some(SessionRecord(u)))
      else
        r == LoginResult(Reply(401, "Invalid email or password", None), session)
  {
    if email == "" || password == "" then LoginResult(Reply(400, "Email and password are required", None), session)
    else match FindByEmail(rows, email)
      case None => LoginResult(Reply(401, "Invalid email or password", None), session)
      case Some(u) =>
        if !compare(password, u.password) then LoginResult(Reply(401, "Invalid email or password", None), session)
        else
          var s := SessionRecord(u);
          LoginResult(Reply(200, "Login successful", Some(s)), Some(s))
  }

  /** An unknown email and a wrong password are indistinguishable to the caller. */
  lemma LoginFailuresLookAlike(rows: seq<User>, session: Option<SessionUser>, unknown: string, known: string,
                               password: string, compare: (string, string) -> bool)
    requires unknown != "" && known != "" && password != ""
    requires !EmailTaken(rows, unknown)
    requires EmailTaken(rows, known) && !compare(password, FindByEmail(rows, known).value.password)
    ensures LoginUser(rows, session, unknown, password, compare) == LoginUser(rows, session, known, password, compare)
  {
  }

  /** A successful login's session belongs to the row with that email, and
      with unique emails it is the only such row. */
  lemma LoginSessionIsTheAccount(rows: seq<User>, session: Option<SessionUser>, email: string, password: string,
                                 compare: (string, string) -> bool, i: nat)
    requires EmailsUnique(rows)
    requires i < |rows| && rows[i].email == email
    requires LoginUser(rows, session, email, password, compare).reply.status == 200
    ensures LoginUser(rows, session, email, password, compare).session == Some(SessionRecord(rows[i]))
  {
    var u := FindByEmail(rows, email).value;
    var k :| 0 <= k < |rows| && rows[k] == u;
    assert rows[k].email == rows[i].email;
  }

  /** getCurrentUser: 401 without a session user, otherwise that user unchanged. */
  function GetCurrentUser(session: Option<SessionUser>): (r: Reply<SessionUser>)
    ensures session.None? ==> r == Reply(401, "Not authenticated", None)
    ensures session.Some? ==> r.status == 200 && r.data == session
  {
    match session
    case None => Reply(401, "Not authenticated", None)
    case Some(u) => Reply(200, "", Some(u))
  }
}
