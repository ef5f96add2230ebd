/**
 * api/users.php: profiles, the user listing, profile updates and account
 * deletion. `admin` and `library_admin` are the user administrators; the
 * library moderator has no say here.
 */
module Users {
  import opened Common
  import opened Seqs
  import opened Text
  import opened State

  const DefaultLimit: nat := 50

  /** The roles that administer accounts. */
  predicate ManagesUsers(role: Role) {
    role == Admin || role == LibraryAdmin
  }

  // ---------------------------------------------------------------- routing

  datatype Route =
    | MyProfile
    | UserProfile(id: int)
    | ListUsers
    | UpdateUser(target: Option<int>)
    | RemoveUser(id: int)
    | Deny(code: nat, message: string)

  /**
   * The router: reading one's own profile skips the login gate; the listing
   * and deletion are for user administrators, and so is updating a profile
   * named by id.
   */
  function Dispatch(session: Session, verb: Method, action: string, id: Option<int>): (r: Route)
    ensures !session.loggedIn && !(verb == HttpGet && action == "profile" && !GivenId(id)) ==>
      r == Deny(Unauthorized, "Authentication required")
    ensures r == MyProfile <==> verb == HttpGet && action == "profile" && !GivenId(id)
    ensures r.UserProfile? <==> session.loggedIn && verb == HttpGet && action == "profile" && GivenId(id)
    ensures r == ListUsers <==> session.loggedIn && verb == HttpGet && action == "list" && ManagesUsers(SessionRole(session))
    ensures r.UpdateUser? <==>
      session.loggedIn && verb == HttpPut && action == "profile" && (GivenId(id) ==> ManagesUsers(SessionRole(session)))
    ensures r.UpdateUser? ==> r.target == id
    ensures r.RemoveUser? <==> session.loggedIn && verb == HttpDelete && GivenId(id) && ManagesUsers(SessionRole(session))
    ensures r.UserProfile? || r.RemoveUser? ==> r.id == id.value
    ensures session.loggedIn && verb == HttpGet && action == "list" && !ManagesUsers(SessionRole(session)) ==>
      r == Deny(Forbidden, "Admin access required")
    ensures session.loggedIn && verb in {HttpGet, HttpPut} && action != "profile" && (verb == HttpPut || action != "list") ==>
      r == Deny(BadRequest, "Invalid action")
    ensures session.loggedIn && verb == HttpPut && action == "profile" && GivenId(id) && !ManagesUsers(SessionRole(session)) ==>
      r == Deny(Forbidden, "Admin access required")
    ensures session.loggedIn && verb == HttpDelete && !r.RemoveUser? ==> r == Deny(Forbidden, "Admin access required")
    ensures session.loggedIn && verb !in {HttpGet, HttpPut, HttpDelete} ==> r == Deny(MethodNotAllowed, "Method not allowed")
  {
    if !(verb == HttpGet && action == "profile" && !GivenId(id)) && !session.loggedIn then
      Deny(Unauthorized, "Authentication required")
    else
      var admin := ManagesUsers(SessionRole(session));
      match verb
      case HttpGet =>
        if action == "profile" then (if GivenId(id) then UserProfile(id.value) else MyProfile)
        else if action == "list" then (if admin then ListUsers else Deny(Forbidden, "Admin access required"))
        else Deny(BadRequest, "Invalid action")
      case HttpPut =>
        if action != "profile" then Deny(BadRequest, "Invalid action")
        else if GivenId(id) && !admin then Deny(Forbidden, "Admin access required")
        else UpdateUser(id)
      case HttpDelete =>
        if GivenId(id) && admin then RemoveUser(id.value) else Deny(Forbidden, "Admin access required")
      case _ => Deny(MethodNotAllowed, "Method not allowed")
  }

  // ---------------------------------------------------------------- reading

  /** `formatUser`: the account with its display name. */
  datatype UserView = UserView(user: User, fullName: string)

  function Format(u: User): (v: UserView)
    ensures v.user == u
  {
    UserView(u, FullName(u.firstName, u.middleName, u.lastName, u.suffix))
  }

  /** `getMyProfile`: the caller's own account; without a session user there is none. */
  function GetMyProfile(lib: Library, caller: Option<int>): (r: Reply<UserView>)
    ensures r.Data? <==> caller.Some? && FindUser(lib, caller.value).Some?
    ensures r.Data? ==> r.value.user in lib.users && r.value.user.id == caller.value
    ensures r.Refused? ==> r == Refused(NotFound, "User not found")
  {
    var found := if caller.Some? then FindUser(lib, caller.value) else None;
    match found
    case Some(u) => Data(Format(u))
    case None => Refused(NotFound, "User not found")
  }

  /** `getUserProfile`: another account, for itself or a user administrator. */
  function GetUserProfile(lib: Library, caller: int, role: Role, target: int): (r: Reply<UserView>)
    ensures target != caller && !ManagesUsers(role) ==> r == Refused(Forbidden, "Access denied")
    ensures r.Data? <==> (target == caller || ManagesUsers(role)) && FindUser(lib, target).Some?
    ensures r.Data? ==> r.value.user in lib.users && r.value.user.id == target
    ensures (target == caller || ManagesUsers(role)) && FindUser(lib, target).None? ==> r == Refused(NotFound, "User not found")
  {
    if target != caller && !ManagesUsers(role) then Refused(Forbidden, "Access denied")
    else
      match FindUser(lib, target)
      case Some(u) => Data(Format(u))
      case None => Refused(NotFound, "User not found")
  }

  /** The listing's filters: a status filter applies for the three statuses, a role filter only for three of the four roles. */
  predicate Listed(u: User, status: string, role: string) {
    && (status in {"active", "suspended", "inactive"} ==> u.status.Name() == status)
    && (role in {"user", "admin", "library_admin"} ==> u.role.Name() == role)
  }

  function Formats(rows: seq<User>): (r: seq<UserView>)
    ensures |r| == |rows|
    ensures forall i :: 0 <= i < |rows| ==> r[i] == Format(rows[i])
  {
    Map(rows, Format)
  }

  /** The accounts the filters select, newest first. */
  function Selection(lib: Library, status: string, role: string): (r: seq<User>)
    ensures forall u :: u in r <==> u in lib.users && Listed(u, status, role)
    ensures |r| == Count(lib.users, (u: User) => Listed(u, status, role))
  {
    Reverse(Filter(lib.users, (u: User) => Listed(u, status, role)))
  }

  /** The user listing reads the selected accounts newest first. */
  lemma UsersNewestFirst(lib: Library, status: string, role: string)
    ensures NewestFirst(Selection(lib, status, role), lib.users)
  {
    SelectionNewestFirst(lib.users, (u: User) => Listed(u, status, role));
  }

  /** `getUserList`: one page, newest first, of the accounts the filters select. */
  function GetUserList(lib: Library, status: string, role: string, limit: Option<nat>, offset: Option<nat>): (r: seq<UserView>)
    ensures
      var sel, lim, off := Selection(lib, status, role), limit.GetOr(DefaultLimit), offset.GetOr(0);
      && |r| <= lim
      && (off < |sel| ==> |r| == Min(lim, |sel| - off))
      && (off >= |sel| ==> r == [])
      && forall i :: 0 <= i < |r| ==> off + i < |sel| && r[i] == Format(sel[off + i])
    ensures forall i :: 0 <= i < |r| ==> r[i].user in lib.users && Listed(r[i].user, status, role)
  {
    var sel := Selection(lib, status, role);
    var page := Page(sel, limit.GetOr(DefaultLimit), offset.GetOr(0));
    var r := Formats(page);
    assert forall i :: 0 <= i < |r| ==> r[i].user == page[i] && page[i] in sel;
    r
  }

  /** A first page at least as long as the selection lists every account the filters select. */
  lemma UserListComplete(lib: Library, status: string, role: string, limit: Option<nat>, offset: Option<nat>)
    requires offset.GetOr(0) == 0
    requires Count(lib.users, (u: User) => Listed(u, status, role)) <= limit.GetOr(DefaultLimit)
    ensures forall u :: u in lib.users && Listed(u, status, role) ==>
      exists i :: 0 <= i < |GetUserList(lib, status, role, limit, offset)| && GetUserList(lib, status, role, limit, offset)[i].user == u
  {
    var sel := Selection(lib, status, role);
    var page := Page(sel, limit.GetOr(DefaultLimit), 0);
    var r := GetUserList(lib, status, role, limit, offset);
    assert r == Formats(page);
    forall u | u in lib.users && Listed(u, status, role)
      ensures exists i :: 0 <= i < |r| && r[i].user == u
    {
      var i :| 0 <= i < |sel| && sel[i] == u;
      assert page[i] == sel[i];
      assert r[i].user == u;
    }
  }

  /**
   * The role filter does not know the `library_moderator` role: asking for
   * moderators lists every role, exactly as giving no role filter does.
   */
  lemma ModeratorFilterIgnored(lib: Library, status: string)
    ensures Selection(lib, status, "library_moderator") == Selection(lib, status, "")
  {
    FilterCongruent(lib.users, (u: User) => Listed(u, status, "library_moderator"), (u: User) => Listed(u, status, ""));
  }

  // ---------------------------------------------------------------- update

  /** The fields of a profile update request; `None` is a field not set. Passwords are in clear. */
  datatype ProfilePatch = ProfilePatch(
    firstName: Option<string>,
    middleName: Option<string>,
    lastName: Option<string>,
    suffix: Option<string>,
    phone: Option<string>,
    address: Option<string>,
    profileImage: Option<string>,
    status: Option<UserStatus>,
    role: Option<Role>,
    password: Option<string>,
    currentPassword: Option<string>)

  /** Which of the guarded fields the caller may write: status for administrators, role also only on someone else. */
  datatype Grants = Grants(status: bool, role: bool)

  function GrantsFor(caller: int, role: Role, target: int): (g: Grants)
    ensures g.status <==> ManagesUsers(role)
    ensures g.role <==> ManagesUsers(role) && target != caller
  {
    Grants(ManagesUsers(role), ManagesUsers(role) && target != caller)
  }

  /** The patch sets at least one field the caller may write. */
  predicate Writes(p: ProfilePatch, g: Grants) {
    || p.firstName.Some? || p.middleName.Some? || p.lastName.Some? || p.suffix.Some?
    || p.phone.Some? || p.address.Some? || p.profileImage.Some?
    || (g.status && p.status.Some?) || (g.role && p.role.Some?)
  }

  /** The account with every set and permitted field written, and the new password hash if there is one. */
  function Apply(u: User, p: ProfilePatch, g: Grants, newHash: Option<string>): (r: User)
    ensures r.id == u.id && r.email == u.email && r.lastLogin == u.lastLogin
    ensures Patched(p.firstName, u.firstName, r.firstName) && Patched(p.lastName, u.lastName, r.lastName)
    ensures PatchedNullable(p.middleName, u.middleName, r.middleName) && PatchedNullable(p.suffix, u.suffix, r.suffix)
    ensures PatchedNullable(p.phone, u.phone, r.phone) && PatchedNullable(p.address, u.address, r.address)
    ensures PatchedNullable(p.profileImage, u.profileImage, r.profileImage)
    ensures g.status ==> Patched(p.status, u.status, r.status)
    ensures !g.status ==> r.status == u.status
    ensures g.role ==> Patched(p.role, u.role, r.role)
    ensures !g.role ==> r.role == u.role
    ensures Patched(newHash, u.passwordHash, r.passwordHash)
    ensures !Writes(p, g) && newHash.None? ==> r == u
  {
    var status := if g.status && p.status.Some? then p.status.value else u.status;
    var role := if g.role && p.role.Some? then p.role.value else u.role;
    User(u.id, p.firstName.GetOr(u.firstName), Pick(p.middleName, u.middleName), p.lastName.GetOr(u.lastName),
         Pick(p.suffix, u.suffix), u.email, newHash.GetOr(u.passwordHash), role, status,
         Pick(p.phone, u.phone), Pick(p.address, u.address), Pick(p.profileImage, u.profileImage),
         u.lastLogin)
  }

  /** Applying the same update twice writes nothing more. */
  lemma ApplyIdempotent(u: User, p: ProfilePatch, g: Grants, newHash: Option<string>)
    ensures Apply(Apply(u, p, g, newHash), p, g, newHash) == Apply(u, p, g, newHash)
  {
  }

  /** The password change a patch asks for: only when both the new and the current password are set. */
  predicate ChangesPassword(p: ProfilePatch) {
    p.password.Some? && p.currentPassword.Some?
  }

  /** The user a profile update writes: the one named by id, or the caller. */
  function TargetOf(caller: int, targetId: Option<int>): int {
    targetId.GetOr(caller)
  }

  /** The password check refuses the update: the account is missing, or the current password does not verify. */
  function PasswordError(lib: Library, target: int, p: ProfilePatch, verify: (string, string) -> bool): (r: Option<Outcome>)
    ensures r.Some? ==> ChangesPassword(p) && r.value.Fail?
    ensures ChangesPassword(p) && FindUser(lib, target).None? ==> r == Some(Fail(NotFound, "User not found"))
    ensures r.None? <==>
      !ChangesPassword(p) || (FindUser(lib, target).Some? && verify(p.currentPassword.value, FindUser(lib, target).value.passwordHash))
  {
    if !ChangesPassword(p) then None
    else
      match FindUser(lib, target)
      case None => Some(Fail(NotFound, "User not found"))
      case Some(u) =>
        if verify(p.currentPassword.value, u.passwordHash) then None
        else Some(Fail(Unauthorized, "Current password is incorrect"))
  }

  /**
   * `updateProfile`: someone else's profile needs a user administrator; a
   * password change needs the current password; a request writing nothing
   * is refused; a failure changes nothing. Success rewrites every row with
   * the target id (none, when the target does not exist) and logs under the
   * caller.
   */
  function UpdateProfile(lib: Library, caller: int, role: Role, targetId: Option<int>, p: ProfilePatch,
                         hash: string -> string, verify: (string, string) -> bool): (r: Step)
    ensures r.outcome.Fail? ==> r.after == lib
    ensures TargetOf(caller, targetId) != caller && !ManagesUsers(role) ==> r.outcome == Fail(Forbidden, "Access denied")
    ensures r.outcome.Ok? <==>
      var target := TargetOf(caller, targetId);
      && (target == caller || ManagesUsers(role))
      && PasswordError(lib, target, p, verify).None?
      && (Writes(p, GrantsFor(caller, role, target)) || ChangesPassword(p))
    ensures (TargetOf(caller, targetId) == caller || ManagesUsers(role)) && PasswordError(lib, TargetOf(caller, targetId), p, verify).None?
              && !Writes(p, GrantsFor(caller, role, TargetOf(caller, targetId))) && !ChangesPassword(p) ==>
      r.outcome == Fail(BadRequest, "No fields to update")
    ensures r.outcome.Ok? ==>
      var target := TargetOf(caller, targetId);
      var newHash := if ChangesPassword(p) then Some(hash(p.password.value)) else None;
      && |r.after.users| == |lib.users|
      && (forall i :: 0 <= i < |lib.users| ==>
            r.after.users[i] == if lib.users[i].id == target then Apply(lib.users[i], p, GrantsFor(caller, role, target), newHash) else lib.users[i])
      && r.after.logs == lib.logs + [LogEntry(lib.nextId, Some(caller), "Profile updated: User ID " + IntToString(target), Info)]
    // no other table changes
    ensures r.outcome.Ok? ==> r.after == lib.(users := r.after.users, logs := r.after.logs, nextId := lib.nextId + 1)
  {
    var target := TargetOf(caller, targetId);
    if target != caller && !ManagesUsers(role) then Step(Fail(Forbidden, "Access denied"), lib)
    else
      match PasswordError(lib, target, p, verify)
      case Some(failure) => Step(failure, lib)
      case None =>
        var g := GrantsFor(caller, role, target);
        if !Writes(p, g) && !ChangesPassword(p) then Step(Fail(BadRequest, "No fields to update"), lib)
        else
          var newHash := if ChangesPassword(p) then Some(hash(p.password.value)) else None;
          var lib1 := lib.(users := UpdateWhere(lib.users, (u: User) => u.id == target, (u: User) => Apply(u, p, g, newHash)));
          Step(Ok, Log(lib1, Some(caller), "Profile updated: User ID " + IntToString(target), Info))
  }

  /** No one can change their own role, administrator or not; and only administrators change anyone's status or role. */
  lemma RoleChangeNeedsAnotherAdmin(lib: Library, caller: int, role: Role, targetId: Option<int>, p: ProfilePatch,
                                    hash: string -> string, verify: (string, string) -> bool)
    ensures
      var after := UpdateProfile(lib, caller, role, targetId, p, hash, verify).after;
      && |after.users| == |lib.users|
      && forall i :: 0 <= i < |lib.users| && after.users[i].role != lib.users[i].role ==>
           ManagesUsers(role) && lib.users[i].id != caller
    ensures
      var after := UpdateProfile(lib, caller, role, targetId, p, hash, verify).after;
      !ManagesUsers(role) ==> forall i :: 0 <= i < |lib.users| ==> after.users[i].status == lib.users[i].status
  {
  }

  // ---------------------------------------------------------------- delete

  /**
   * `deleteUser`: one's own account cannot be deleted and an unknown one is
   * not found, both changing nothing. Deletion removes the account and, by
   * the schema's cascade, its borrowings, reservations, bookmarks and
   * notifications; books and the audit log stay, and the deletion is logged
   * as a warning under the caller.
   */
  function DeleteUser(lib: Library, caller: int, target: int): (r: Step)
    ensures r.outcome.Fail? ==> r.after == lib
    ensures target == caller ==> r.outcome == Fail(BadRequest, "Cannot delete your own account")
    ensures target != caller && FindUser(lib, target).None? ==> r.outcome == Fail(NotFound, "User not found")
    ensures r.outcome.Ok? <==> target != caller && FindUser(lib, target).Some?
    ensures r.outcome.Ok? ==>
      && (forall u :: u in r.after.users <==> u in lib.users && u.id != target)
      && (forall b :: b in r.after.borrowings <==> b in lib.borrowings && b.userId != target)
      && (forall h :: h in r.after.reservations <==> h in lib.reservations && h.userId != target)
      && (forall m :: m in r.after.bookmarks <==> m in lib.bookmarks && m.userId != target)
      && (forall n :: n in r.after.notifications <==> n in lib.notifications && n.userId != target)
      && r.after.books == lib.books && r.after.categories == lib.categories
      && r.after.logs == lib.logs + [LogEntry(lib.nextId, Some(caller), "User deleted: " + FindUser(lib, target).value.email, Warning)]
  {
    if target == caller then Step(Fail(BadRequest, "Cannot delete your own account"), lib)
    else
      match FindUser(lib, target)
      case None => Step(Fail(NotFound, "User not found"), lib)
      case Some(u) =>
        var lib1 := lib.(
          users := DeleteWhere(lib.users, (x: User) => x.id == target),
          borrowings := DeleteWhere(lib.borrowings, (b: Borrowing) => b.userId == target),
          reservations := DeleteWhere(lib.reservations, (h: Reservation) => h.userId == target),
          bookmarks := DeleteWhere(lib.bookmarks, (m: Bookmark) => m.userId == target),
          notifications := DeleteWhere(lib.notifications, (n: Notification) => n.userId == target));
        Step(Ok, Log(lib1, Some(caller), "User deleted: " + u.email, Warning))
  }
}
