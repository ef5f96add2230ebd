/**
 * api/reservations.php: reserving a book, cancelling a reservation, and the
 * reserver's and the staff's listings. A reservation made while the book
 * is on the shelf is `available` at once and takes the book off the shelf;
 * otherwise it waits as `pending`.
 */
module Reservations {
  import opened Common
  import opened Seqs
  import opened State

  /** Days a reservation is held when the request names none. */
  const DefaultExpiryDays: int := 7

  /** The roles that see every reservation: the listing gate and the lookups by id. */
  predicate SeesAllHolds(role: Role) {
    role == LibraryAdmin || role == LibraryModerator
  }

  /** A reservation still in force: `status IN ('pending', 'available')`. */
  predicate Active(h: Reservation) {
    h.status == Pending || h.status == Ready
  }

  /** `user` holds a reservation in force on `book`. */
  predicate HasActiveHold(lib: Library, user: int, book: int) {
    exists i :: 0 <= i < |lib.reservations| && ActiveHoldOf(lib.reservations[i], user, book)
  }

  predicate ActiveHoldOf(h: Reservation, user: int, book: int) {
    h.userId == user && h.bookId == book && Active(h)
  }

  /** Some reservation in force names `book`. */
  predicate BookHeld(reservations: seq<Reservation>, book: int) {
    exists i :: 0 <= i < |reservations| && reservations[i].bookId == book && Active(reservations[i])
  }

  // ---------------------------------------------------------------- routing

  datatype Route =
    | ShowHold(id: int)
    | ListMine
    | ListAll
    | CreateAction
    | CancelAction(id: int)
    | Deny(code: nat, message: string)

  /** The router at the top of the file: login gate, method and action dispatch, staff gate. */
  function Dispatch(session: Session, verb: Method, action: string, id: Option<int>): (r: Route)
    ensures !session.loggedIn ==> r == Deny(Unauthorized, "Authentication required")
    ensures r.ShowHold? <==> session.loggedIn && verb == HttpGet && GivenId(id)
    ensures r == ListMine <==> session.loggedIn && verb == HttpGet && !GivenId(id) && action == "my"
    ensures r == ListAll <==>
      session.loggedIn && verb == HttpGet && !GivenId(id) && action != "my" && SeesAllHolds(SessionRole(session))
    ensures session.loggedIn && verb == HttpGet && !GivenId(id) && action != "my" && !SeesAllHolds(SessionRole(session)) ==>
      r == Deny(Forbidden, "Admin access required")
    ensures r == CreateAction <==> session.loggedIn && verb == HttpPost && action == "create"
    ensures session.loggedIn && verb == HttpPost && action != "create" ==> r == Deny(BadRequest, "Invalid action")
    ensures r.CancelAction? <==> session.loggedIn && verb == HttpDelete && GivenId(id)
    ensures r.ShowHold? || r.CancelAction? ==> r.id == id.value
    ensures session.loggedIn && verb == HttpDelete && !GivenId(id) ==> r == Deny(BadRequest, "Reservation ID required")
    ensures session.loggedIn && verb !in {HttpGet, HttpPost, HttpDelete} ==> r == Deny(MethodNotAllowed, "Method not allowed")
  {
    if !session.loggedIn then Deny(Unauthorized, "Authentication required")
    else
      match verb
      case HttpGet =>
        if GivenId(id) then ShowHold(id.value)
        else if action == "my" then ListMine
        else if !SeesAllHolds(SessionRole(session)) then Deny(Forbidden, "Admin access required")
        else ListAll
      case HttpPost =>
        if action == "create" then CreateAction else Deny(BadRequest, "Invalid action")
      case HttpDelete =>
        if GivenId(id) then CancelAction(id.value) else Deny(BadRequest, "Reservation ID required")
      case _ => Deny(MethodNotAllowed, "Method not allowed")
  }

  // ---------------------------------------------------------------- create

  /** The three checks a reservation request with a book id must pass. */
  predicate MayReserve(lib: Library, caller: int, id: int) {
    FindBook(lib, id).Some? && !HasOpenLoan(lib, caller, id) && !HasActiveHold(lib, caller, id)
  }

  /**
   * `createReservation`: the checks run in order (missing id, unknown book,
   * book already borrowed by the caller, reservation already in force) and
   * a failure changes nothing. Success appends the reservation, `available`
   * when the book is on the shelf (which then becomes `reserved`) and
   * `pending` otherwise, then logs and notifies the caller.
   */
  function Create(lib: Library, caller: int, bookId: Option<int>, expiryDays: Option<int>, now: int): (r: Step)
    ensures r.outcome.Fail? ==> r.after == lib
    ensures !GivenId(bookId) ==> r.outcome == Fail(BadRequest, "Book ID is required")
    ensures GivenId(bookId) && FindBook(lib, bookId.value).None? ==> r.outcome == Fail(NotFound, "Book not found")
    ensures GivenId(bookId) && FindBook(lib, bookId.value).Some? && HasOpenLoan(lib, caller, bookId.value) ==>
      r.outcome == Fail(BadRequest, "You already have this book borrowed")
    ensures GivenId(bookId) && FindBook(lib, bookId.value).Some? && !HasOpenLoan(lib, caller, bookId.value)
              && HasActiveHold(lib, caller, bookId.value) ==>
      r.outcome == Fail(BadRequest, "You already have a pending reservation for this book")
    ensures r.outcome.Ok? <==> GivenId(bookId) && MayReserve(lib, caller, bookId.value)
    // the new reservation
    ensures r.outcome.Ok? ==>
      var id := bookId.value;
      var ready := FindBook(lib, id).value.availability == Available;
      && r.after.reservations == lib.reservations + [Reservation(lib.nextId, caller, id, now,
           now + expiryDays.GetOr(DefaultExpiryDays) * SecondsPerDay, if ready then Ready else Pending)]
    // the book leaves the shelf only when the reservation is ready at once
    ensures r.outcome.Ok? ==>
      var id := bookId.value;
      var ready := FindBook(lib, id).value.availability == Available;
      && |r.after.books| == |lib.books|
      && forall i :: 0 <= i < |lib.books| ==>
           r.after.books[i] == if ready && lib.books[i].id == id then lib.books[i].(availability := Reserved) else lib.books[i]
    ensures r.outcome.Ok? ==>
      var id := bookId.value;
      var ready := FindBook(lib, id).value.availability == Available;
      && r.after.users == lib.users && r.after.borrowings == lib.borrowings && r.after.bookmarks == lib.bookmarks
      && r.after.categories == lib.categories
      && r.after.logs == lib.logs + [LogEntry(lib.nextId + 1, Some(caller), "Book reserved: " + FindBook(lib, id).value.title, Info)]
      && |r.after.notifications| == |lib.notifications| + 1
      && r.after.notifications[..|lib.notifications|] == lib.notifications
      && Announces(r.after.notifications[|lib.notifications|], caller,
           if ready then AvailableNotice else SystemNotice,
           if ready then "Reserved Book Ready" else "Book Reserved", id)
  {
    if !GivenId(bookId) then Step(Fail(BadRequest, "Book ID is required"), lib)
    else
      var id := bookId.value;
      match FindBook(lib, id)
      case None => Step(Fail(NotFound, "Book not found"), lib)
      case Some(book) =>
        if HasOpenLoan(lib, caller, id) then Step(Fail(BadRequest, "You already have this book borrowed"), lib)
        else if HasActiveHold(lib, caller, id) then
          Step(Fail(BadRequest, "You already have a pending reservation for this book"), lib)
        else
          var ready := book.availability == Available;
          var hold := Reservation(lib.nextId, caller, id, now,
            now + expiryDays.GetOr(DefaultExpiryDays) * SecondsPerDay, if ready then Ready else Pending);
          var lib1 := lib.(reservations := lib.reservations + [hold], nextId := lib.nextId + 1);
          var lib2 :=
            if ready then lib1.(books := UpdateWhere(lib1.books, (b: Book) => b.id == id, (b: Book) => b.(availability := Reserved)))
            else lib1;
          var lib3 := Log(lib2, Some(caller), "Book reserved: " + book.title, Info);
          Step(Ok,
            if ready then Notify(lib3, caller, AvailableNotice, "Reserved Book Ready", Some(id))
            else Notify(lib3, caller, SystemNotice, "Book Reserved", Some(id)))
  }

  // ---------------------------------------------------------------- cancel

  /** Whether the caller may see or cancel reservation `h`: its owner or staff, and its book must exist. */
  predicate HoldVisible(lib: Library, h: Reservation, caller: int, role: Role) {
    (h.userId == caller || SeesAllHolds(role)) && FindBook(lib, h.bookId).Some?
  }

  /** The reservation `cancelReservation` acts on: the first with that id the caller may see. */
  function LocateHold(lib: Library, caller: int, role: Role, id: int): (r: Option<Reservation>)
    ensures r.Some? ==> r.value in lib.reservations && r.value.id == id && HoldVisible(lib, r.value, caller, role)
    ensures r.None? <==> forall h :: h in lib.reservations && h.id == id ==> !HoldVisible(lib, h, caller, role)
  {
    First(lib.reservations, (h: Reservation) => h.id == id && HoldVisible(lib, h, caller, role))
  }

  /**
   * What a located cancellation does: every row with that id becomes
   * `cancelled`, whatever its status was, and the book is put back on the
   * shelf when no reservation in force is left for it, even if it is out on
   * loan; the cancellation is logged under the caller.
   */
  function Withdraw(lib: Library, caller: int, hold: Reservation, title: string): (r: Library)
    ensures |r.reservations| == |lib.reservations|
    ensures forall i :: 0 <= i < |lib.reservations| ==>
      r.reservations[i] == if lib.reservations[i].id == hold.id then lib.reservations[i].(status := Cancelled) else lib.reservations[i]
    ensures |r.books| == |lib.books|
    ensures forall i :: 0 <= i < |lib.books| ==>
      r.books[i] ==
        if lib.books[i].id == hold.bookId && !BookHeld(r.reservations, hold.bookId)
        then lib.books[i].(availability := Available) else lib.books[i]
    ensures r.users == lib.users && r.borrowings == lib.borrowings && r.bookmarks == lib.bookmarks
    ensures r.categories == lib.categories && r.notifications == lib.notifications
    ensures r.logs == lib.logs + [LogEntry(lib.nextId, Some(caller), "Reservation cancelled: " + title, Info)]
  {
    var lib1 := lib.(reservations := UpdateWhere(lib.reservations, (x: Reservation) => x.id == hold.id,
      (x: Reservation) => x.(status := Cancelled)));
    var left := Count(lib1.reservations, (x: Reservation) => x.bookId == hold.bookId && Active(x));
    CountZero(lib1.reservations, (x: Reservation) => x.bookId == hold.bookId && Active(x));
    var lib2 :=
      if left == 0 then lib1.(books := UpdateWhere(lib1.books, (b: Book) => b.id == hold.bookId, (b: Book) => b.(availability := Available)))
      else lib1;
    Log(lib2, Some(caller), "Reservation cancelled: " + title, Info)
  }

  /** `cancelReservation`: a reservation the caller cannot see is not found and nothing changes. */
  function Cancel(lib: Library, caller: int, role: Role, id: int): (r: Step)
    ensures r.outcome.Fail? ==> r.after == lib
    ensures r.outcome.Fail? <==> forall h :: h in lib.reservations && h.id == id ==> !HoldVisible(lib, h, caller, role)
    ensures r.outcome.Fail? ==> r.outcome == Fail(NotFound, "Reservation not found")
    ensures r.outcome.Ok? ==>
      var hold := LocateHold(lib, caller, role, id).value;
      r.after == Withdraw(lib, caller, hold, FindBook(lib, hold.bookId).value.title)
  {
    match LocateHold(lib, caller, role, id)
    case None => Step(Fail(NotFound, "Reservation not found"), lib)
    case Some(h) => Step(Ok, Withdraw(lib, caller, h, FindBook(lib, h.bookId).value.title))
  }

  /**
   * Cancelling does not look at the prior status, so a reservation that has
   * just been cancelled can be cancelled again.
   */
  lemma CancelAgain(lib: Library, caller: int, role: Role, id: int)
    requires LocateHold(lib, caller, role, id).Some?
    ensures Cancel(Cancel(lib, caller, role, id).after, caller, role, id).outcome.Ok?
  {
    var hold := LocateHold(lib, caller, role, id).value;
    WithdrawnStaysVisible(lib, caller, role, hold, FindBook(lib, hold.bookId).value.title);
  }

  /** A withdrawn reservation is still there, under its id, for whoever could see it. */
  lemma WithdrawnStaysVisible(lib: Library, caller: int, role: Role, hold: Reservation, title: string)
    requires hold in lib.reservations && HoldVisible(lib, hold, caller, role)
    ensures LocateHold(Withdraw(lib, caller, hold, title), caller, role, hold.id).Some?
  {
    var after := Withdraw(lib, caller, hold, title);
    var k :| 0 <= k < |lib.reservations| && lib.reservations[k] == hold;
    var i :| 0 <= i < |lib.books| && lib.books[i] == FindBook(lib, hold.bookId).value;
    assert after.books[i] in after.books;
    assert after.reservations[k] in after.reservations;
    assert HoldVisible(after, after.reservations[k], caller, role);
  }

  // ---------------------------------------------------------------- reading

  /** A row of `getMyReservations`: the stored reservation and the status it reports. */
  datatype HoldView = HoldView(hold: Reservation, status: string)

  /** `expired` for a pending reservation past its expiry, the stored status otherwise. */
  function ReportedStatus(h: Reservation, now: int): (s: string)
    ensures s == "expired" <==> h.status == Pending && h.expiresAt < now
    ensures s != "expired" ==> s == h.status.Name()
    ensures s == "cancelled" <==> h.status == Cancelled
  {
    if h.status == Pending && h.expiresAt < now then "expired" else h.status.Name()
  }

  /** The rows `getMyReservations` selects: the caller's, not cancelled, with an existing book. */
  predicate ListedHold(lib: Library, h: Reservation, caller: int) {
    h.userId == caller && h.status != Cancelled && FindBook(lib, h.bookId).Some?
  }

  function Views(rows: seq<Reservation>, now: int): (r: seq<HoldView>)
    ensures |r| == |rows|
    ensures forall i :: 0 <= i < |rows| ==> r[i] == HoldView(rows[i], ReportedStatus(rows[i], now))
  {
    Map(rows, (h: Reservation) => HoldView(h, ReportedStatus(h, now)))
  }

  /** Every view shows one of the rows with its reported status, and every row is shown. */
  lemma ViewsCover(rows: seq<Reservation>, now: int)
    ensures forall v :: v in Views(rows, now) ==> v.hold in rows && v.status == ReportedStatus(v.hold, now)
    ensures forall h :: h in rows ==> exists i :: 0 <= i < |rows| && Views(rows, now)[i].hold == h
  {
    var r := Views(rows, now);
    forall v | v in r
      ensures v.hold in rows && v.status == ReportedStatus(v.hold, now)
    {
      var i :| 0 <= i < |r| && r[i] == v;
    }
  }

  /** The caller's reservations not cancelled whose book exists, newest first. */
  function Selection(lib: Library, caller: int): (r: seq<Reservation>)
    ensures forall h :: h in r <==> h in lib.reservations && ListedHold(lib, h, caller)
    ensures |r| == Count(lib.reservations, (h: Reservation) => ListedHold(lib, h, caller))
  {
    Reverse(Filter(lib.reservations, (h: Reservation) => ListedHold(lib, h, caller)))
  }

  /** The caller's reservations are read newest first. */
  lemma MineNewestFirst(lib: Library, caller: int)
    ensures NewestFirst(Selection(lib, caller), lib.reservations)
  {
    SelectionNewestFirst(lib.reservations, (h: Reservation) => ListedHold(lib, h, caller));
  }

  /** `getMyReservations`: the caller's reservations not cancelled, newest first, each with its reported status. */
  function MyReservations(lib: Library, caller: int, now: int): (r: seq<HoldView>)
    ensures |r| == |Selection(lib, caller)|
    ensures forall i :: 0 <= i < |r| ==> r[i].hold == Selection(lib, caller)[i]
    ensures forall v :: v in r ==> v.hold in lib.reservations && ListedHold(lib, v.hold, caller)
    ensures forall h :: h in lib.reservations && ListedHold(lib, h, caller) ==>
      exists i :: 0 <= i < |r| && r[i].hold == h
    ensures forall v :: v in r ==> v.status == ReportedStatus(v.hold, now) && v.status != "cancelled"
  {
    var rows := Selection(lib, caller);
    ViewsCover(rows, now);
    Views(rows, now)
  }

  /** `getReservation`: a reservation by id, for its owner or staff. */
  function GetReservation(lib: Library, caller: int, role: Role, id: int): (r: Reply<Reservation>)
    ensures r.Data? <==> exists h :: h in lib.reservations && h.id == id && HoldVisible(lib, h, caller, role)
    ensures r.Data? ==> r.value in lib.reservations && r.value.id == id && HoldVisible(lib, r.value, caller, role)
    ensures r.Refused? ==> r == Refused(NotFound, "Reservation not found")
  {
    match LocateHold(lib, caller, role, id)
    case Some(h) => Data(h)
    case None => Refused(NotFound, "Reservation not found")
  }

  /** `getAllReservations`: every reservation whose book and user exist, newest first. */
  function AllReservations(lib: Library): (r: seq<Reservation>)
    ensures forall h :: h in r <==> h in lib.reservations && FindBook(lib, h.bookId).Some? && FindUser(lib, h.userId).Some?
    ensures |r| == Count(lib.reservations, (h: Reservation) => FindBook(lib, h.bookId).Some? && FindUser(lib, h.userId).Some?)
  {
    Reverse(Filter(lib.reservations, (h: Reservation) => FindBook(lib, h.bookId).Some? && FindUser(lib, h.userId).Some?))
  }

  /** Every reservation is read newest first. */
  lemma AllReservationsNewestFirst(lib: Library)
    ensures NewestFirst(AllReservations(lib), lib.reservations)
  {
    SelectionNewestFirst(lib.reservations, (h: Reservation) => FindBook(lib, h.bookId).Some? && FindUser(lib, h.userId).Some?);
  }
}
