/**
 * api/notifications.php: the caller's own notifications. Every query and
 * every update is scoped to the caller's user id, and the updates answer
 * success whether or not a row matched.
 */
module Notifications {
  import opened Common
  import opened Seqs
  import opened State

  const DefaultLimit: nat := 50

  /** `n` belongs to `user` and is unread. */
  predicate UnreadOf(n: Notification, user: int) {
    n.userId == user && !n.isRead
  }

  /** `getUnreadCount`: the number of the user's unread notifications. */
  function UnreadCount(lib: Library, user: int): nat {
    Count(lib.notifications, (n: Notification) => UnreadOf(n, user))
  }

  // ---------------------------------------------------------------- routing

  datatype Route =
    | ShowNotice(id: int)
    | ListNotices
    | MarkRead(id: int)
    | UpdateNotice(id: int)
    | MarkAllRead
    | DeleteNotice(id: int)
    | ClearNotices
    | Deny(code: nat, message: string)

  /** The router at the top of the file: login gate, then method, id and action. */
  function Dispatch(session: Session, verb: Method, id: Option<int>, action: string): (r: Route)
    ensures !session.loggedIn ==> r == Deny(Unauthorized, "Authentication required")
    ensures r.ShowNotice? <==> session.loggedIn && verb == HttpGet && GivenId(id)
    ensures r == ListNotices <==> session.loggedIn && verb == HttpGet && !GivenId(id)
    ensures r.MarkRead? <==> session.loggedIn && verb == HttpPut && GivenId(id) && action == "read"
    ensures r.UpdateNotice? <==> session.loggedIn && verb == HttpPut && GivenId(id) && action != "read"
    ensures r == MarkAllRead <==> session.loggedIn && verb == HttpPut && !GivenId(id) && action == "read-all"
    ensures session.loggedIn && verb == HttpPut && !GivenId(id) && action != "read-all" ==> r == Deny(BadRequest, "Invalid action")
    ensures r.DeleteNotice? <==> session.loggedIn && verb == HttpDelete && GivenId(id)
    ensures r == ClearNotices <==> session.loggedIn && verb == HttpDelete && !GivenId(id) && action == "clear-all"
    ensures session.loggedIn && verb == HttpDelete && !GivenId(id) && action != "clear-all" ==>
      r == Deny(BadRequest, "Notification ID or action required")
    ensures r.ShowNotice? || r.MarkRead? || r.UpdateNotice? || r.DeleteNotice? ==> GivenId(id) && r.id == id.value
    ensures session.loggedIn && verb !in {HttpGet, HttpPut, HttpDelete} ==> r == Deny(MethodNotAllowed, "Method not allowed")
  {
    if !session.loggedIn then Deny(Unauthorized, "Authentication required")
    else
      match verb
      case HttpGet => if GivenId(id) then ShowNotice(id.value) else ListNotices
      case HttpPut =>
        if GivenId(id) then (if action == "read" then MarkRead(id.value) else UpdateNotice(id.value))
        else if action == "read-all" then MarkAllRead
        else Deny(BadRequest, "Invalid action")
      case HttpDelete =>
        if GivenId(id) then DeleteNotice(id.value)
        else if action == "clear-all" then ClearNotices
        else Deny(BadRequest, "Notification ID or action required")
      case _ => Deny(MethodNotAllowed, "Method not allowed")
  }

  // ---------------------------------------------------------------- reading

  /**
   * A notification as reported: the `LEFT JOIN books` supplies the book id
   * and title, so a notification whose book is gone (or whose book id is 0)
   * reports neither.
   */
  datatype NoticeView = NoticeView(notice: Notification, bookId: Option<int>, bookTitle: Option<string>)

  function View(lib: Library, n: Notification): (v: NoticeView)
    ensures v.notice == n
    ensures v.bookId.Some? <==> n.bookId.Some? && n.bookId.value != 0 && FindBook(lib, n.bookId.value).Some?
    ensures v.bookId.Some? ==> v.bookId == n.bookId
    ensures v.bookTitle.Some? <==> n.bookId.Some? && FindBook(lib, n.bookId.value).Some?
    ensures v.bookTitle.Some? ==> v.bookTitle.value == FindBook(lib, n.bookId.value).value.title
  {
    match n.bookId
    case None => NoticeView(n, None, None)
    case Some(b) =>
      match FindBook(lib, b)
      case None => NoticeView(n, None, None)
      case Some(book) => NoticeView(n, if b != 0 then Some(b) else None, Some(book.title))
  }

  /** The rows the `filter` parameter selects among the caller's: `unread`, one kind, or anything else for all. */
  predicate Selected(n: Notification, caller: int, filter: string) {
    && n.userId == caller
    && match filter
       case "unread" => !n.isRead
       case "due" => n.kind == DueNotice
       case "available" => n.kind == AvailableNotice
       case "system" => n.kind == SystemNotice
       case _ => true
  }

  datatype Listing = Listing(items: seq<NoticeView>, unreadCount: nat)

  function Views(lib: Library, rows: seq<Notification>): (r: seq<NoticeView>)
    ensures |r| == |rows|
    ensures forall i :: 0 <= i < |rows| ==> r[i] == View(lib, rows[i])
  {
    Map(rows, (n: Notification) => View(lib, n))
  }

  /** The caller's notifications the filter selects, newest first. */
  function Selection(lib: Library, caller: int, filter: string): (r: seq<Notification>)
    ensures forall n :: n in r <==> n in lib.notifications && Selected(n, caller, filter)
    ensures |r| == Count(lib.notifications, (n: Notification) => Selected(n, caller, filter))
  {
    Reverse(Filter(lib.notifications, (n: Notification) => Selected(n, caller, filter)))
  }

  /** The notification listing reads the selected rows newest first. */
  lemma NoticesNewestFirst(lib: Library, caller: int, filter: string)
    ensures NewestFirst(Selection(lib, caller, filter), lib.notifications)
  {
    SelectionNewestFirst(lib.notifications, (n: Notification) => Selected(n, caller, filter));
  }

  /**
   * `getNotifications`: one page of the selection, `limit` rows from
   * `offset` on, with the caller's unread count over all of their
   * notifications whatever the filter.
   */
  function List(lib: Library, caller: int, filter: string, limit: Option<nat>, offset: Option<nat>): (r: Listing)
    ensures
      var sel, lim, off := Selection(lib, caller, filter), limit.GetOr(DefaultLimit), offset.GetOr(0);
      && |r.items| <= lim
      && (off < |sel| ==> |r.items| == Min(lim, |sel| - off))
      && (off >= |sel| ==> r.items == [])
      && forall i :: 0 <= i < |r.items| ==> off + i < |sel| && r.items[i] == View(lib, sel[off + i])
    ensures forall v :: v in r.items ==> v.notice in lib.notifications && Selected(v.notice, caller, filter)
    ensures r.unreadCount == UnreadCount(lib, caller)
  {
    var sel := Selection(lib, caller, filter);
    var page := Page(sel, limit.GetOr(DefaultLimit), offset.GetOr(0));
    var items := Views(lib, page);
    assert forall i :: 0 <= i < |items| ==> items[i].notice == page[i] && page[i] in sel;
    Listing(items, UnreadCount(lib, caller))
  }

  /** `getNotification`: one of the caller's notifications by id. */
  function Get(lib: Library, caller: int, id: int): (r: Reply<NoticeView>)
    ensures r.Data? <==> exists n :: n in lib.notifications && n.id == id && n.userId == caller
    ensures r.Data? ==> r.value.notice in lib.notifications && r.value.notice.id == id && r.value.notice.userId == caller
    ensures r.Refused? ==> r == Refused(NotFound, "Notification not found")
  {
    match First(lib.notifications, (n: Notification) => n.id == id && n.userId == caller)
    case Some(n) => Data(View(lib, n))
    case None => Refused(NotFound, "Notification not found")
  }

  // ---------------------------------------------------------------- updates

  /** `markAsRead`: the caller's notifications with that id become read; nothing else changes. */
  function MarkAsRead(lib: Library, caller: int, id: int): (r: Library)
    ensures |r.notifications| == |lib.notifications|
    ensures forall i :: 0 <= i < |lib.notifications| ==>
      var n, n' := lib.notifications[i], r.notifications[i];
      n' == if n.id == id && n.userId == caller then n.(isRead := true) else n
    ensures r == lib.(notifications := r.notifications)
  {
    lib.(notifications := UpdateWhere(lib.notifications, (n: Notification) => n.id == id && n.userId == caller,
      (n: Notification) => n.(isRead := true)))
  }

  /** Marking a notification read twice is the same as marking it once. */
  lemma MarkAsReadIdempotent(lib: Library, caller: int, id: int)
    ensures MarkAsRead(MarkAsRead(lib, caller, id), caller, id) == MarkAsRead(lib, caller, id)
  {
    var once := MarkAsRead(lib, caller, id);
    var twice := MarkAsRead(once, caller, id);
    assert twice.notifications == once.notifications;
  }

  /** `markAllAsRead`: every unread notification of the caller becomes read; nothing else changes. */
  function MarkAllAsRead(lib: Library, caller: int): (r: Library)
    ensures |r.notifications| == |lib.notifications|
    ensures forall i :: 0 <= i < |lib.notifications| ==>
      var n, n' := lib.notifications[i], r.notifications[i];
      n' == if n.userId == caller then n.(isRead := true) else n
    ensures r == lib.(notifications := r.notifications)
  {
    lib.(notifications := UpdateWhere(lib.notifications, (n: Notification) => UnreadOf(n, caller),
      (n: Notification) => n.(isRead := true)))
  }

  /** After marking all read, the caller's unread count is zero and every other user's count is unchanged. */
  lemma MarkAllAsReadCounts(lib: Library, caller: int, other: int)
    requires other != caller
    ensures UnreadCount(MarkAllAsRead(lib, caller), caller) == 0
    ensures UnreadCount(MarkAllAsRead(lib, caller), other) == UnreadCount(lib, other)
  {
    var after := MarkAllAsRead(lib, caller);
    CountZero(after.notifications, (n: Notification) => UnreadOf(n, caller));
    CountSameOn(lib.notifications, after.notifications, other);
  }

  /** Two tables agreeing row by row on `other`'s unread rows count them alike. */
  lemma {:induction false} CountSameOn(xs: seq<Notification>, ys: seq<Notification>, other: int)
    requires |xs| == |ys|
    requires forall i :: 0 <= i < |xs| ==> UnreadOf(xs[i], other) == UnreadOf(ys[i], other)
    ensures Count(xs, (n: Notification) => UnreadOf(n, other)) == Count(ys, (n: Notification) => UnreadOf(n, other))
    decreases |xs|
  {
    if xs != [] {
      var k := |xs| - 1;
      CountSameOn(xs[..k], ys[..k], other);
      assert xs == xs[..k] + [xs[k]] && ys == ys[..k] + [ys[k]];
      CountAppend(xs[..k], xs[k], (n: Notification) => UnreadOf(n, other));
      CountAppend(ys[..k], ys[k], (n: Notification) => UnreadOf(n, other));
    }
  }

  /** A new notification raises exactly its recipient's unread count, by one. */
  lemma NotifyRaisesUnread(lib: Library, user: int, kind: NoticeKind, title: string, bookId: Option<int>, someone: int)
    ensures UnreadCount(Notify(lib, user, kind, title, bookId), someone) ==
      UnreadCount(lib, someone) + (if someone == user then 1 else 0)
  {
    var n := Notification(lib.nextId, user, kind, title, bookId, false, Medium);
    assert Notify(lib, user, kind, title, bookId).notifications == lib.notifications + [n];
    CountAppend(lib.notifications, n, (x: Notification) => UnreadOf(x, someone));
  }

  /** `deleteNotification`: the caller's notifications with that id are deleted; nothing else changes. */
  function Delete(lib: Library, caller: int, id: int): (r: Library)
    ensures forall n :: n in r.notifications <==> n in lib.notifications && !(n.id == id && n.userId == caller)
    ensures r == lib.(notifications := r.notifications)
  {
    lib.(notifications := DeleteWhere(lib.notifications, (n: Notification) => n.id == id && n.userId == caller))
  }

  /** `clearAllNotifications`: the caller has no notifications left; other users keep all of theirs. */
  function ClearAll(lib: Library, caller: int): (r: Library)
    ensures forall n :: n in r.notifications <==> n in lib.notifications && n.userId != caller
    ensures r == lib.(notifications := r.notifications)
  {
    lib.(notifications := DeleteWhere(lib.notifications, (n: Notification) => n.userId == caller))
  }

  /**
   * `updateNotification`: sets `is_read` and `priority` when given; a
   * request giving neither is rejected and nothing changes. Only the
   * caller's notifications with that id are touched.
   */
  function Update(lib: Library, caller: int, id: int, isRead: Option<bool>, priority: Option<string>): (r: Step)
    ensures r.outcome.Fail? <==> isRead.None? && priority.None?
    ensures r.outcome.Fail? ==> r == Step(Fail(BadRequest, "No fields to update"), lib)
    ensures |r.after.notifications| == |lib.notifications|
    ensures forall i :: 0 <= i < |lib.notifications| ==>
      var n, n' := lib.notifications[i], r.after.notifications[i];
      if n.id == id && n.userId == caller
      then n' == n.(isRead := isRead.GetOr(n.isRead), priority := priority.GetOr(n.priority))
      else n' == n
    ensures r.after == lib.(notifications := r.after.notifications)
  {
    if isRead.None? && priority.None? then Step(Fail(BadRequest, "No fields to update"), lib)
    else
      Step(Ok, lib.(notifications := UpdateWhere(lib.notifications, (n: Notification) => n.id == id && n.userId == caller,
        (n: Notification) => n.(isRead := isRead.GetOr(n.isRead), priority := priority.GetOr(n.priority)))))
  }

  /** Updating only `is_read` to true does what marking as read does. */
  lemma UpdateReadIsMarkAsRead(lib: Library, caller: int, id: int)
    ensures Update(lib, caller, id, Some(true), None) == Step(Ok, MarkAsRead(lib, caller, id))
  {
    var a := Update(lib, caller, id, Some(true), None).after;
    var b := MarkAsRead(lib, caller, id);
    assert a.notifications == b.notifications;
  }
}
