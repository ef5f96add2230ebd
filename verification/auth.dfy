/**
 * api/auth.php: login, registration, logout and the session check. The
 * password hash, its verification and the e-mail syntax check are PHP
 * built-ins and enter as function parameters.
 */
module Auth {
  import opened Common
  import opened Seqs
  import opened State

  const MinPasswordLength: nat := 6

  // ---------------------------------------------------------------- routing

  datatype Route = LoginAction | RegisterAction | CheckAction | LogoutAction | Deny(code: nat, message: string)

  /** The router: each action belongs to one method; no login gate. */
  function Dispatch(verb: Method, action: string): (r: Route)
    ensures r == LoginAction <==> verb == HttpPost && action == "login"
    ensures r == RegisterAction <==> verb == HttpPost && action == "register"
    ensures r == CheckAction <==> verb == HttpGet && action == "check"
    ensures r == LogoutAction <==> verb == HttpDelete && action == "logout"
    ensures r.Deny? ==> r.code == (if verb in {HttpGet, HttpPost, HttpDelete} then BadRequest else MethodNotAllowed)
    ensures verb in {HttpGet, HttpPost, HttpDelete} && !(r == LoginAction || r == RegisterAction || r == CheckAction || r == LogoutAction) ==>
      r == Deny(BadRequest, "Invalid action")
    ensures verb !in {HttpGet, HttpPost, HttpDelete} ==> r == Deny(MethodNotAllowed, "Method not allowed")
  {
    match verb
    case HttpPost =>
      if action == "login" then LoginAction
      else if action == "register" then RegisterAction
      else Deny(BadRequest, "Invalid action")
    case HttpGet => if action == "check" then CheckAction else Deny(BadRequest, "Invalid action")
    case HttpDelete => if action == "logout" then LogoutAction else Deny(BadRequest, "Invalid action")
    case _ => Deny(MethodNotAllowed, "Method not allowed")
  }

  // ---------------------------------------------------------------- session

  /** The user object login and the session check report. */
  datatype Summary = Summary(id: int, email: string, fullName: string, firstName: string, lastName: string, role: Role)

  function Summarize(u: User): Summary {
    Summary(u.id, u.email, FullName(u.firstName, u.middleName, u.lastName, u.suffix), u.firstName, u.lastName, u.role)
  }

  /** The session a successful login establishes for `u`. */
  function SessionOf(u: User): Session {
    Session(true, Some(u.id), Some(u.email), Some(u.role))
  }

  /** What login and the session check produce: the reply, the database after, and the session after. */
  datatype Exchange = Exchange(reply: Reply<Summary>, after: Library, session: Session)

  /** The account `WHERE email = ?` finds first. */
  function FindByEmail(lib: Library, email: string): (r: Option<User>)
    ensures r.Some? ==> r.value in lib.users && r.value.email == email
    ensures r.None? <==> forall u :: u in lib.users ==> u.email != email
  {
    First(lib.users, (u: User) => u.email == email)
  }

  /** The message both an unknown e-mail and a wrong password get, so a caller cannot tell them apart. */
  const BadCredentials := "Invalid email or password"

  /** The login checks that decide the 401: no account, or a password that does not verify. */
  predicate Rejected(lib: Library, email: string, password: string, verify: (string, string) -> bool) {
    FindByEmail(lib, email).None? || !verify(password, FindByEmail(lib, email).value.passwordHash)
  }

  /**
   * `handleLogin`: missing credentials, bad credentials and an account not
   * `active` are refused in that order and change nothing; success stamps
   * the account's last login, logs it and establishes the session.
   */
  function Login(lib: Library, session: Session, email: string, password: string,
                 verify: (string, string) -> bool, now: int): (r: Exchange)
    ensures r.reply.Refused? ==> r.after == lib && r.session == session
    ensures Empty(email) || Empty(password) ==> r.reply == Refused(BadRequest, "Email and password are required")
    ensures !Empty(email) && !Empty(password) && Rejected(lib, email, password, verify) ==>
      r.reply == Refused(Unauthorized, BadCredentials)
    ensures !Empty(email) && !Empty(password) && !Rejected(lib, email, password, verify)
              && FindByEmail(lib, email).value.status != Active ==>
      r.reply == Refused(Forbidden, "Account is suspended or inactive")
    ensures r.reply.Data? <==>
      !Empty(email) && !Empty(password) && !Rejected(lib, email, password, verify) && FindByEmail(lib, email).value.status == Active
    ensures r.reply.Data? ==>
      var u := FindByEmail(lib, email).value;
      && r.reply.value == Summarize(u)
      && r.session == SessionOf(u)
      && |r.after.users| == |lib.users|
      && (forall i :: 0 <= i < |lib.users| ==>
            r.after.users[i] == if lib.users[i].id == u.id then lib.users[i].(lastLogin := Some(now)) else lib.users[i])
      && r.after.logs == lib.logs + [LogEntry(lib.nextId, Some(u.id), "User logged in", Info)]
    // no other table changes
    ensures r.reply.Data? ==> r.after == lib.(users := r.after.users, logs := r.after.logs, nextId := lib.nextId + 1)
  {
    if Empty(email) || Empty(password) then Exchange(Refused(BadRequest, "Email and password are required"), lib, session)
    else
      match FindByEmail(lib, email)
      case None => Exchange(Refused(Unauthorized, BadCredentials), lib, session)
      case Some(u) =>
        if !verify(password, u.passwordHash) then Exchange(Refused(Unauthorized, BadCredentials), lib, session)
        else if u.status != Active then Exchange(Refused(Forbidden, "Account is suspended or inactive"), lib, session)
        else
          var lib1 := lib.(users := UpdateWhere(lib.users, (x: User) => x.id == u.id, (x: User) => x.(lastLogin := Some(now))));
          Exchange(Data(Summarize(u)), Log(lib1, Some(u.id), "User logged in", Info), SessionOf(u))
  }

  /**
   * An unknown e-mail and a wrong password are indistinguishable: whichever
   * happened, in whatever database, the reply is the same 401 and nothing
   * changes.
   */
  lemma LoginFailuresAlike(lib1: Library, lib2: Library, session: Session, email: string, password1: string, password2: string,
                           verify: (string, string) -> bool, now: int)
    requires !Empty(email) && !Empty(password1) && !Empty(password2)
    requires FindByEmail(lib1, email).None?
    requires FindByEmail(lib2, email).Some? && !verify(password2, FindByEmail(lib2, email).value.passwordHash)
    ensures Login(lib1, session, email, password1, verify, now).reply == Login(lib2, session, email, password2, verify, now).reply
    ensures Login(lib1, session, email, password1, verify, now) == Exchange(Refused(Unauthorized, BadCredentials), lib1, session)
    ensures Login(lib2, session, email, password2, verify, now) == Exchange(Refused(Unauthorized, BadCredentials), lib2, session)
  {
  }

  /**
   * `checkSession`: a session not logged in is refused and kept; one whose
   * user is gone or no longer `active` is refused and destroyed; otherwise
   * the user is reported. The database never changes.
   */
  function CheckSession(lib: Library, session: Session): (r: Exchange)
    ensures r.after == lib
    ensures !session.loggedIn ==> r == Exchange(Refused(Unauthorized, "Not authenticated"), lib, session)
    ensures session.loggedIn && (session.userId.None? || FindUser(lib, session.userId.value).None?) ==>
      r == Exchange(Refused(Unauthorized, "Session invalid"), lib, NoSession)
    ensures session.loggedIn && session.userId.Some? && FindUser(lib, session.userId.value).Some?
              && FindUser(lib, session.userId.value).value.status != Active ==>
      r == Exchange(Refused(Forbidden, "Account is suspended"), lib, NoSession)
    ensures r.reply.Data? <==>
      session.loggedIn && session.userId.Some? && FindUser(lib, session.userId.value).Some?
      && FindUser(lib, session.userId.value).value.status == Active
    ensures r.reply.Data? ==> r.reply.value == Summarize(FindUser(lib, session.userId.value).value) && r.session == session
  {
    if !session.loggedIn then Exchange(Refused(Unauthorized, "Not authenticated"), lib, session)
    else
      var found := if session.userId.Some? then FindUser(lib, session.userId.value) else None;
      match found
      case None => Exchange(Refused(Unauthorized, "Session invalid"), lib, NoSession)
      case Some(u) =>
        if u.status != Active then Exchange(Refused(Forbidden, "Account is suspended"), lib, NoSession)
        else Exchange(Data(Summarize(u)), lib, session)
  }

  /** Ids are unique among the users, as the primary key guarantees. */
  predicate UniqueUserIds(users: seq<User>) {
    forall i, j :: 0 <= i < j < |users| ==> users[i].id != users[j].id
  }

  /** The session a login establishes passes the session check, which reports the same user. */
  lemma LoginThenCheck(lib: Library, session: Session, email: string, password: string,
                       verify: (string, string) -> bool, now: int)
    requires UniqueUserIds(lib.users)
    requires Login(lib, session, email, password, verify, now).reply.Data?
    ensures
      var r := Login(lib, session, email, password, verify, now);
      CheckSession(r.after, r.session).reply == r.reply
  {
    var r := Login(lib, session, email, password, verify, now);
    var u := FindByEmail(lib, email).value;
    var k :| 0 <= k < |lib.users| && lib.users[k] == u;
    var u' := r.after.users[k];
    assert u' == u.(lastLogin := Some(now));
    assert forall j :: 0 <= j < |r.after.users| && j != k ==> r.after.users[j].id != u.id;
    assert FindUser(r.after, u.id) == Some(u') by {
      var f := FindIndex(r.after.users, (x: User) => x.id == u.id);
      assert f == Some(k);
    }
  }

  // ---------------------------------------------------------------- register

  /** The registration checks that precede the e-mail lookup, in order; `None` when all pass. */
  function RegistrationError(first: string, last: string, email: string, password: string, confirm: string,
                             validEmail: string -> bool): (r: Option<string>)
    ensures r.None? <==>
      !Empty(first) && !Empty(last) && !Empty(email) && !Empty(password)
      && password == confirm && |password| >= MinPasswordLength && validEmail(email)
    ensures Empty(first) || Empty(last) || Empty(email) || Empty(password) ==>
      r == Some("First name, last name, email, and password are required")
    ensures !Empty(first) && !Empty(last) && !Empty(email) && !Empty(password) && password != confirm ==>
      r == Some("Passwords do not match")
    ensures !Empty(first) && !Empty(last) && !Empty(email) && !Empty(password) && password == confirm
              && |password| < MinPasswordLength ==>
      r == Some("Password must be at least 6 characters")
    ensures !Empty(first) && !Empty(last) && !Empty(email) && !Empty(password) && password == confirm
              && |password| >= MinPasswordLength && !validEmail(email) ==>
      r == Some("Invalid email format")
  {
    if Empty(first) || Empty(last) || Empty(email) || Empty(password) then
      Some("First name, last name, email, and password are required")
    else if password != confirm then Some("Passwords do not match")
    else if |password| < MinPasswordLength then Some("Password must be at least 6 characters")
    else if !validEmail(email) then Some("Invalid email format")
    else None
  }

  /**
   * `handleRegister`: absent fields arrive as "". An invalid request is
   * refused, an e-mail already registered is a conflict, and a failure
   * changes nothing; otherwise a `user` account is appended with the hashed
   * password and the registration logged under the new id. The account's
   * status is the column default, given as `initialStatus`.
   */
  function Register(lib: Library, first: string, middle: string, last: string, suffix: string, email: string,
                    password: string, confirm: string, hash: string -> string, validEmail: string -> bool,
                    initialStatus: UserStatus): (r: Step)
    ensures r.outcome.Fail? ==> r.after == lib
    ensures RegistrationError(first, last, email, password, confirm, validEmail).Some? ==>
      r.outcome == Fail(BadRequest, RegistrationError(first, last, email, password, confirm, validEmail).value)
    ensures RegistrationError(first, last, email, password, confirm, validEmail).None? && FindByEmail(lib, email).Some? ==>
      r.outcome == Fail(Conflict, "Email already registered")
    ensures r.outcome.Ok? <==>
      RegistrationError(first, last, email, password, confirm, validEmail).None? && FindByEmail(lib, email).None?
    ensures r.outcome.Ok? ==>
      && r.after.users == lib.users + [User(lib.nextId, first, Some(middle), last, Some(suffix), email, hash(password),
                                             RegularUser, initialStatus, None, None, None, None)]
      && r.after.logs == lib.logs + [LogEntry(lib.nextId + 1, Some(lib.nextId), "New user registered", Info)]
    // no other table changes
    ensures r.outcome.Ok? ==> r.after == lib.(users := r.after.users, logs := r.after.logs, nextId := lib.nextId + 2)
  {
    match RegistrationError(first, last, email, password, confirm, validEmail)
    case Some(message) => Step(Fail(BadRequest, message), lib)
    case None =>
      if FindByEmail(lib, email).Some? then Step(Fail(Conflict, "Email already registered"), lib)
      else
        var id := lib.nextId;
        var u := User(id, first, Some(middle), last, Some(suffix), email, hash(password),
                      RegularUser, initialStatus, None, None, None, None);
        var lib1 := lib.(users := lib.users + [u], nextId := id + 1);
        Step(Ok, Log(lib1, Some(id), "New user registered", Info))
  }

  /**
   * A fresh registration can log in with the same e-mail and password, as
   * long as the hash verifies against its own password and new accounts
   * start `active`.
   */
  lemma RegisterThenLogin(lib: Library, session: Session, first: string, middle: string, last: string, suffix: string,
                          email: string, password: string, hash: string -> string, verify: (string, string) -> bool,
                          validEmail: string -> bool, now: int)
    requires Register(lib, first, middle, last, suffix, email, password, password, hash, validEmail, Active).outcome.Ok?
    requires verify(password, hash(password))
    ensures
      var after := Register(lib, first, middle, last, suffix, email, password, password, hash, validEmail, Active).after;
      var r := Login(after, session, email, password, verify, now);
      && r.reply.Data? && r.reply.value.id == lib.nextId && r.reply.value.role == RegularUser
      && r.session == Session(true, Some(lib.nextId), Some(email), Some(RegularUser))
  {
    var after := Register(lib, first, middle, last, suffix, email, password, password, hash, validEmail, Active).after;
    var u := after.users[|lib.users|];
    assert FindIndex(after.users, (x: User) => x.email == email) == Some(|lib.users|) by {
      assert forall j :: 0 <= j < |lib.users| ==> after.users[j] == lib.users[j] && lib.users[j] in lib.users;
    }
  }

  // ---------------------------------------------------------------- logout

  datatype Farewell = Farewell(outcome: Outcome, after: Library, session: Session)

  /** `handleLogout`: always succeeds and destroys the session; a session with a user id logs the logout. */
  function Logout(lib: Library, session: Session): (r: Farewell)
    ensures r.outcome == Ok && r.session == NoSession
    ensures session.userId.None? ==> r.after == lib
    ensures session.userId.Some? ==>
      r.after.logs == lib.logs + [LogEntry(lib.nextId, session.userId, "User logged out", Info)]
    // only the audit log grows
    ensures session.userId.Some? ==> r.after == lib.(logs := r.after.logs, nextId := lib.nextId + 1)
  {
    if session.userId.Some? then Farewell(Ok, Log(lib, session.userId, "User logged out", Info), NoSession)
    else Farewell(Ok, lib, NoSession)
  }

  /** After logging out, the session check refuses the session as not authenticated. */
  lemma LogoutThenCheck(lib: Library, session: Session)
    ensures
      var r := Logout(lib, session);
      CheckSession(r.after, r.session).reply == Refused(Unauthorized, "Not authenticated")
  {
  }
}
