/** The profile handlers (backend/controllers/userController.js). */
module UserController {

  import opened Common
  import opened AuthController

  /** getProfile: 401 without a session user, otherwise that user unchanged. */
  function GetProfile(session: Option<SessionUser>): (r: Reply<SessionUser>)
    ensures session.None? ==> r == Reply(401, "Not authenticated", None)
    ensures session.Some? ==> r == Reply(200, "Profile loaded", session)
  {
    match session
    case None => Reply(401, "Not authenticated", None)
    case Some(u) => Reply(200, "Profile loaded", Some(u))
  }

  /** The change that changePassword's UPDATE makes to a row. */
  function SetPassword(hashed: string): User -> User {
    (u: User) => u.(password := hashed)
  }

  /** changePassword: four checks in order, the first failure deciding the
      reply and no row changing; on success only the session user's
      `password` changes, to the hash of the new password. */
  method ChangePassword(t: UserTable, session: Option<SessionUser>, currentPassword: string, newPassword: string,
                        hash: string -> string, compare: (string, string) -> bool)
    returns (reply: Reply<()>)
    requires t.Valid()
    modifies t
    ensures t.Valid() && t.nextId == old(t.nextId)
    ensures session.None? ==> reply == Reply(401, "Not authenticated", None)
    ensures session.Some? && (currentPassword == "" || newPassword == "") ==>
      reply == Reply(400, "currentPassword and newPassword are required", None)
    ensures session.Some? && currentPassword != "" && newPassword != "" && FindById(old(t.rows), session.value.id).None? ==>
      reply == Reply(404, "User not found", None)
    ensures session.Some? && currentPassword != "" && newPassword != "" && FindById(old(t.rows), session.value.id).Some? ==>
      var u := FindById(old(t.rows), session.value.id).value;
      reply == if compare(currentPassword, u.password) then Reply(200, "Password updated", None)
               else Reply(400, "Incorrect current password", None)
    ensures reply.status != 200 ==> t.rows == old(t.rows)
    ensures reply.status == 200 ==> session.Some? && |t.rows| == |old(t.rows)|
    ensures reply.status == 200 ==> forall i :: 0 <= i < |t.rows| ==>
      t.rows[i] == if old(t.rows)[i].id == session.value.id
                   then old(t.rows)[i].(password := hash(newPassword)) else old(t.rows)[i]
  {
    if session.None? {
      return Reply(401, "Not authenticated", None);
    }
    if currentPassword == "" || newPassword == "" {
      return Reply(400, "currentPassword and newPassword are required", None);
    }
    var userId := session.value.id;
    var found := FindById(t.rows, userId);
    if found.None? {
      return Reply(404, "User not found", None);
    }
    if !compare(currentPassword, found.value.password) {
      return Reply(400, "Incorrect current password", None);
    }
    var hashed := hash(newPassword);
    var _ := t.UpdateById(userId, SetPassword(hashed));
    reply := Reply(200, "Password updated", None);
  }
}
