/**
 * api/logs.php: the audit trail, open to library staff only. Listing reads
 * the newest rows first with an optional level and user filter; a single
 * row is read by id; deleting a row is itself logged when the session
 * carries a user id.
 */
module Logs {
  import opened Common
  import opened Seqs
  import opened Text
  import opened State

  const DefaultLimit: nat := 100

  /** The roles the file-level gate lets in. */
  predicate Staff(role: Role) {
    role == LibraryAdmin || role == LibraryModerator
  }

  // ---------------------------------------------------------------- routing

  datatype Route = ListLogs | ShowLog(id: int) | RemoveLog(id: int) | Deny(code: nat, message: string)

  /**
   * The router at the top of the file: anyone who is not logged-in staff is
   * refused with 403, a GET with an id reads one row and without one lists,
   * a DELETE needs an id, and every other method is not allowed.
   */
  function Dispatch(session: Session, verb: Method, id: Option<int>): (r: Route)
    ensures !(session.loggedIn && Staff(SessionRole(session))) ==> r == Deny(Forbidden, "Admin access required")
    ensures r == ListLogs <==> session.loggedIn && Staff(SessionRole(session)) && verb == HttpGet && !GivenId(id)
    ensures r.ShowLog? <==> session.loggedIn && Staff(SessionRole(session)) && verb == HttpGet && GivenId(id)
    ensures r.RemoveLog? <==> session.loggedIn && Staff(SessionRole(session)) && verb == HttpDelete && GivenId(id)
    ensures (r.ShowLog? || r.RemoveLog?) ==> r.id == id.value
    ensures session.loggedIn && Staff(SessionRole(session)) && verb == HttpDelete && !GivenId(id) ==>
      r == Deny(BadRequest, "Log ID required")
    ensures session.loggedIn && Staff(SessionRole(session)) && verb !in {HttpGet, HttpDelete} ==>
      r == Deny(MethodNotAllowed, "Method not allowed")
  {
    if !(session.loggedIn && Staff(SessionRole(session))) then Deny(Forbidden, "Admin access required")
    else
      match verb
      case HttpGet => if GivenId(id) then ShowLog(id.value) else ListLogs
      case HttpDelete => if GivenId(id) then RemoveLog(id.value) else Deny(BadRequest, "Log ID required")
      case _ => Deny(MethodNotAllowed, "Method not allowed")
  }

  // ---------------------------------------------------------------- one row as the API shows it

  /** The user a log row names, as the `LEFT JOIN users` finds it. */
  function Author(lib: Library, e: LogEntry): (r: Option<User>)
    ensures r.Some? ==> e.userId.Some? && r.value in lib.users && r.value.id == e.userId.value
    ensures e.userId.Some? && r.None? ==> forall u :: u in lib.users ==> u.id != e.userId.value
  {
    if e.userId.Some? then FindUser(lib, e.userId.value) else None
  }

  /**
   * `user_name`: the joined user's first and last name, trimmed, when the
   * first name is truthy, and "System" for a row without such a user.
   */
  function UserName(lib: Library, e: LogEntry): (r: string)
    ensures r == "System" <== Author(lib, e).None? || Empty(Author(lib, e).value.firstName)
    ensures Author(lib, e).Some? && !Empty(Author(lib, e).value.firstName) ==>
      r == Trim(Author(lib, e).value.firstName + " " + Author(lib, e).value.lastName)
  {
    match Author(lib, e)
    case Some(u) => if Empty(u.firstName) then "System" else Trim(u.firstName + " " + u.lastName)
    case None => "System"
  }

  /** A row of the listing: the entry, its truthy user id, and the joined user's name and email. */
  datatype LogView = LogView(entry: LogEntry, userId: Option<int>, userName: string, userEmail: Option<string>)

  function View(lib: Library, e: LogEntry): (r: LogView)
    ensures r.entry == e
    ensures r.userId.Some? <==> GivenId(e.userId)
    ensures r.userId.Some? ==> r.userId == e.userId
    ensures r.userName == UserName(lib, e)
    ensures r.userEmail.Some? <==> Author(lib, e).Some?
    ensures r.userEmail.Some? ==> r.userEmail.value == Author(lib, e).value.email
  {
    LogView(
      e,
      if GivenId(e.userId) then e.userId else None,
      UserName(lib, e),
      match Author(lib, e) case Some(u) => Some(u.email) case None => None)
  }

  function Views(lib: Library, rows: seq<LogEntry>): (r: seq<LogView>)
    ensures |r| == |rows|
    ensures forall i :: 0 <= i < |rows| ==> r[i] == View(lib, rows[i])
  {
    Map(rows, (e: LogEntry) => View(lib, e))
  }

  // ---------------------------------------------------------------- listing

  /** The level filter: only the four level names select; any other value lists every level. */
  function LevelFilter(level: string): (r: Option<LogLevel>)
    ensures r.Some? <==> level in {"info", "warning", "error", "success"}
    ensures r.Some? ==> r.value.Name() == level
  {
    if level == "info" then Some(Info)
    else if level == "warning" then Some(Warning)
    else if level == "error" then Some(ErrorLevel)
    else if level == "success" then Some(SuccessLevel)
    else None
  }

  /** The user filter: a truthy string of decimal digits selects that user id; anything else lists every user. */
  function UserFilter(userId: string): (r: Option<int>)
    ensures r.Some? <==> !Empty(userId) && IsDigits(userId)
    ensures r.Some? ==> r.value == ParseDigits(userId)
  {
    if !Empty(userId) && IsDigits(userId) then Some(ParseDigits(userId)) else None
  }

  /** `e` passes the WHERE clause the filters build. */
  predicate Selected(e: LogEntry, level: string, userId: string) {
    && (LevelFilter(level).Some? ==> e.level == LevelFilter(level).value)
    && (UserFilter(userId).Some? ==> e.userId == Some(UserFilter(userId).value))
  }

  /** The rows the filters select, newest first. */
  function Selection(lib: Library, level: string, userId: string): (r: seq<LogEntry>)
    ensures forall e :: e in r <==> e in lib.logs && Selected(e, level, userId)
    ensures |r| == Count(lib.logs, (e: LogEntry) => Selected(e, level, userId))
  {
    Reverse(Filter(lib.logs, (e: LogEntry) => Selected(e, level, userId)))
  }

  /** The log listing reads the selected rows newest first. */
  lemma LogsNewestFirst(lib: Library, level: string, userId: string)
    ensures NewestFirst(Selection(lib, level, userId), lib.logs)
  {
    SelectionNewestFirst(lib.logs, (e: LogEntry) => Selected(e, level, userId));
  }

  /** `getLogs`: one page of the selection, `limit` rows from `offset` on. */
  function GetLogs(lib: Library, level: string, userId: string, limit: Option<nat>, offset: Option<nat>): (r: seq<LogView>)
    ensures
      var sel, lim, off := Selection(lib, level, userId), limit.GetOr(DefaultLimit), offset.GetOr(0);
      && |r| <= lim
      && (off < |sel| ==> |r| == Min(lim, |sel| - off))
      && (off >= |sel| ==> r == [])
      && forall i :: 0 <= i < |r| ==> off + i < |sel| && r[i] == View(lib, sel[off + i])
    ensures forall v :: v in r ==> v.entry in lib.logs && Selected(v.entry, level, userId)
  {
    var sel := Selection(lib, level, userId);
    var page := Page(sel, limit.GetOr(DefaultLimit), offset.GetOr(0));
    var r := Views(lib, page);
    assert forall i :: 0 <= i < |r| ==> r[i].entry == page[i] && page[i] in sel;
    r
  }

  /**
   * A level that is not one of the four names filters nothing: the rows
   * selected, and so every page of the listing, are the unfiltered ones.
   */
  lemma UnknownLevelIgnored(lib: Library, level: string, userId: string)
    requires level !in {"info", "warning", "error", "success"}
    ensures Selection(lib, level, userId) == Selection(lib, "", userId)
  {
    FilterCongruent(lib.logs, (e: LogEntry) => Selected(e, level, userId), (e: LogEntry) => Selected(e, "", userId));
  }

  /** Without filters the selection is the whole table, newest first. */
  lemma UnfilteredSelection(lib: Library)
    ensures Selection(lib, "", "") == Reverse(lib.logs)
  {
    FilterKeepsAll(lib.logs, (e: LogEntry) => Selected(e, "", ""));
  }

  /** Without filters, a page is read straight from the table reversed. */
  lemma UnfilteredPage(lib: Library, limit: nat)
    ensures GetLogs(lib, "", "", Some(limit), Some(0)) == Views(lib, Page(Reverse(lib.logs), limit, 0))
  {
    UnfilteredSelection(lib);
  }

  /** Without filters, a first page lists the newest rows, the newest first; one large enough lists every row. */
  lemma UnfilteredNewestFirst(lib: Library, limit: nat)
    ensures |GetLogs(lib, "", "", Some(limit), Some(0))| == Min(limit, |lib.logs|)
    ensures forall i :: 0 <= i < Min(limit, |lib.logs|) ==>
      GetLogs(lib, "", "", Some(limit), Some(0))[i] == View(lib, lib.logs[|lib.logs| - 1 - i])
  {
    UnfilteredPage(lib, limit);
    NewestPage(lib.logs, limit);
  }

  // ---------------------------------------------------------------- one row and deletion

  /** `getLog`: the first row with the id, or 404. */
  function GetLog(lib: Library, id: int): (r: Reply<LogView>)
    ensures r.Data? <==> exists e :: e in lib.logs && e.id == id
    ensures r.Data? ==> r.value.entry in lib.logs && r.value.entry.id == id && r.value == View(lib, r.value.entry)
    ensures r.Refused? ==> r == Refused(NotFound, "Log not found")
  {
    match First(lib.logs, (e: LogEntry) => e.id == id)
    case Some(e) => Data(View(lib, e))
    case None => Refused(NotFound, "Log not found")
  }

  /**
   * `deleteLog`: every row with the id is deleted, and none being there is
   * not an error; a session with a truthy user id then logs the deletion.
   */
  function DeleteLog(lib: Library, session: Session, id: int): (r: Step)
    ensures r.outcome == Ok
    ensures SameRecords(r.after, lib) && r.after.notifications == lib.notifications
    ensures GivenId(session.userId) ==>
      r.after.logs == DeleteWhere(lib.logs, (e: LogEntry) => e.id == id)
                      + [LogEntry(lib.nextId, session.userId, "Log deleted: ID " + IntToString(id), Info)]
    ensures !GivenId(session.userId) ==> r.after.logs == DeleteWhere(lib.logs, (e: LogEntry) => e.id == id)
    ensures forall e :: e in lib.logs && e.id != id ==> e in r.after.logs
  {
    var lib1 := lib.(logs := DeleteWhere(lib.logs, (e: LogEntry) => e.id == id));
    if GivenId(session.userId) then Step(Ok, Log(lib1, session.userId, "Log deleted: ID " + IntToString(id), Info))
    else Step(Ok, lib1)
  }

  /**
   * After a deletion the row can no longer be read, unless the audit row the
   * deletion itself wrote happens to take the deleted id.
   */
  lemma DeleteThenGet(lib: Library, session: Session, id: int)
    ensures GetLog(DeleteLog(lib, session, id).after, id).Data? <==> GivenId(session.userId) && id == lib.nextId
  {
    var after := DeleteLog(lib, session, id).after;
    if GivenId(session.userId) && id == lib.nextId {
      assert after.logs[|after.logs| - 1].id == id;
      assert after.logs[|after.logs| - 1] in after.logs;
    }
  }

  /** Deleting an id no row has removes nothing: at most the audit row is added. */
  lemma DeleteMissingKeepsLogs(lib: Library, session: Session, id: int)
    requires forall i :: 0 <= i < |lib.logs| ==> lib.logs[i].id != id
    ensures DeleteLog(lib, session, id).after.logs ==
      lib.logs + (if GivenId(session.userId) then [LogEntry(lib.nextId, session.userId, "Log deleted: ID " + IntToString(id), Info)] else [])
  {
    DeleteWhereNone(lib.logs, (e: LogEntry) => e.id == id);
  }
}
