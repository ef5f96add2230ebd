/**
 * api/borrowings.php: borrowing a book, returning it with a fine, and the
 * borrower's and the administrators' listings. Every handler runs behind
 * the login gate of the router.
 */
module Borrowings {
  import opened Common
  import opened Seqs
  import opened Text
  import opened State

  /** Loan period when the request names none. */
  const DefaultDueDays: int := 14

  /** Fine per day overdue, in whole currency units. */
  const DailyFine: int := 1

  /** The roles that see every borrowing: the listing gate and the lookup by id. */
  predicate SeesAllLoans(role: Role) {
    role == Admin || role == LibraryAdmin
  }

  /** The book `id` exists and its availability is `available`. */
  predicate OnShelf(lib: Library, id: int) {
    FindBook(lib, id).Some? && FindBook(lib, id).value.availability == Available
  }

  /** The three checks a borrow request with a book id must pass. */
  predicate MayBorrow(lib: Library, caller: int, id: int) {
    OnShelf(lib, id) && !HasOpenLoan(lib, caller, id)
  }

  // ---------------------------------------------------------------- routing

  datatype Route =
    | ShowLoan(id: int)
    | ListMine
    | ListAll
    | BorrowAction
    | ReturnAction
    | Deny(code: nat, message: string)

  /** The router at the top of the file: login gate, method and action dispatch, admin gate. */
  function Dispatch(session: Session, verb: Method, action: string, id: Option<int>): (r: Route)
    ensures !session.loggedIn ==> r == Deny(Unauthorized, "Authentication required")
    ensures r.ShowLoan? <==> session.loggedIn && verb == HttpGet && GivenId(id)
    ensures r.ShowLoan? ==> r.id == id.value
    ensures r == ListMine <==> session.loggedIn && verb == HttpGet && !GivenId(id) && action == "my"
    ensures r == ListAll <==>
      session.loggedIn && verb == HttpGet && !GivenId(id) && action != "my" && SeesAllLoans(SessionRole(session))
    ensures session.loggedIn && verb == HttpGet && !GivenId(id) && action != "my" && !SeesAllLoans(SessionRole(session)) ==>
      r == Deny(Forbidden, "Admin access required")
    ensures r == BorrowAction <==> session.loggedIn && verb == HttpPost && action == "borrow"
    ensures r == ReturnAction <==> session.loggedIn && verb == HttpPost && action == "return"
    ensures session.loggedIn && verb == HttpPost && action != "borrow" && action != "return" ==>
      r == Deny(BadRequest, "Invalid action")
    ensures session.loggedIn && verb != HttpGet && verb != HttpPost ==> r == Deny(MethodNotAllowed, "Method not allowed")
  {
    if !session.loggedIn then Deny(Unauthorized, "Authentication required")
    else
      match verb
      case HttpGet =>
        if GivenId(id) then ShowLoan(id.value)
        else if action == "my" then ListMine
        else if !SeesAllLoans(SessionRole(session)) then Deny(Forbidden, "Admin access required")
        else ListAll
      case HttpPost =>
        if action == "borrow" then BorrowAction
        else if action == "return" then ReturnAction
        else Deny(BadRequest, "Invalid action")
      case _ => Deny(MethodNotAllowed, "Method not allowed")
  }

  // ---------------------------------------------------------------- borrow

  /**
   * `borrowBook`: the checks run in order (missing id, unknown book, book
   * not `available`, caller already borrowing it) and a failure changes
   * nothing; success inserts the borrowing, marks the book borrowed, cancels
   * the caller's own pending reservations of it, logs and notifies.
   */
  function Borrow(lib: Library, caller: int, bookId: Option<int>, dueDays: Option<int>, now: int): (r: Step)
    ensures r.outcome.Fail? ==> r.after == lib
    ensures !GivenId(bookId) ==> r.outcome == Fail(BadRequest, "Book ID is required")
    ensures GivenId(bookId) && FindBook(lib, bookId.value).None? ==> r.outcome == Fail(NotFound, "Book not found")
    ensures GivenId(bookId) && FindBook(lib, bookId.value).Some? && !OnShelf(lib, bookId.value) ==>
      r.outcome == Fail(BadRequest, "Book is not available for borrowing")
    ensures GivenId(bookId) && OnShelf(lib, bookId.value) && HasOpenLoan(lib, caller, bookId.value) ==>
      r.outcome == Fail(BadRequest, "You already have this book borrowed")
    ensures r.outcome.Ok? <==> GivenId(bookId) && MayBorrow(lib, caller, bookId.value)
    // the new borrowing
    ensures r.outcome.Ok? ==>
      var id, today := bookId.value, Day(now);
      && |r.after.borrowings| == |lib.borrowings| + 1
      && r.after.borrowings[..|lib.borrowings|] == lib.borrowings
      && var loan := r.after.borrowings[|lib.borrowings|];
         && loan.userId == caller && loan.bookId == id && loan.status == Lent
         && loan.borrowedDate == today && loan.dueDate == today + dueDays.GetOr(DefaultDueDays)
         && loan.returnDate.None? && loan.id == lib.nextId
    // the book
    ensures r.outcome.Ok? ==>
      var id, today := bookId.value, Day(now);
      && |r.after.books| == |lib.books|
      && forall i :: 0 <= i < |lib.books| ==>
           var b, b' := lib.books[i], r.after.books[i];
           if b.id == id
           then b' == b.(availability := Borrowed, totalBorrows := b.totalBorrows + 1, lastBorrowed := Some(today))
           else b' == b
    // only the caller's pending reservations of the book are cancelled
    ensures r.outcome.Ok? ==>
      var id := bookId.value;
      && |r.after.reservations| == |lib.reservations|
      && forall i :: 0 <= i < |lib.reservations| ==>
           var h, h' := lib.reservations[i], r.after.reservations[i];
           && h'.(status := h.status) == h
           && (h' != h <==> h.userId == caller && h.bookId == id && h.status == Pending)
           && (h' != h ==> h'.status == Cancelled)
    // one audit row and one notification, nothing else
    ensures r.outcome.Ok? ==>
      var id := bookId.value;
      && r.after.users == lib.users && r.after.bookmarks == lib.bookmarks && r.after.categories == lib.categories
      && r.after.logs == lib.logs + [LogEntry(lib.nextId + 1, Some(caller), "Book borrowed: " + FindBook(lib, id).value.title, Info)]
      && |r.after.notifications| == |lib.notifications| + 1
      && r.after.notifications[..|lib.notifications|] == lib.notifications
      && Announces(r.after.notifications[|lib.notifications|], caller, SystemNotice, "Book Borrowed", id)
  {
    if !GivenId(bookId) then Step(Fail(BadRequest, "Book ID is required"), lib)
    else
      var id := bookId.value;
      match FindBook(lib, id)
      case None => Step(Fail(NotFound, "Book not found"), lib)
      case Some(book) =>
        if book.availability != Available then Step(Fail(BadRequest, "Book is not available for borrowing"), lib)
        else if HasOpenLoan(lib, caller, id) then Step(Fail(BadRequest, "You already have this book borrowed"), lib)
        else
          var today := Day(now);
          var loan := Borrowing(lib.nextId, caller, id, today, today + dueDays.GetOr(DefaultDueDays), None, Lent, 0);
          var lib1 := lib.(borrowings := lib.borrowings + [loan], nextId := lib.nextId + 1);
          var lib2 := lib1.(books := UpdateWhere(lib1.books, (b: Book) => b.id == id,
            (b: Book) => b.(availability := Borrowed, totalBorrows := b.totalBorrows + 1, lastBorrowed := Some(today))));
          var lib3 := lib2.(reservations := UpdateWhere(lib2.reservations,
            (h: Reservation) => h.userId == caller && h.bookId == id && h.status == Pending,
            (h: Reservation) => h.(status := Cancelled)));
          var lib4 := Log(lib3, Some(caller), "Book borrowed: " + book.title, Info);
          Step(Ok, Notify(lib4, caller, SystemNotice, "Book Borrowed", Some(id)))
  }

  // ---------------------------------------------------------------- return

  /** The fine for returning on day `returnDate` a loan due on day `dueDate`. */
  function Fine(dueDate: int, returnDate: int): (fine: int)
    ensures fine >= 0
    ensures fine == 0 <==> returnDate <= dueDate
    ensures returnDate > dueDate ==> fine == (returnDate - dueDate) * DailyFine
  {
    if returnDate > dueDate then (returnDate - dueDate) * DailyFine else 0
  }

  /** Whether the caller may act on borrowing `b` when naming it by id. */
  predicate LoanVisible(lib: Library, b: Borrowing, caller: int, role: Role) {
    (b.userId == caller || SeesAllLoans(role)) && FindBook(lib, b.bookId).Some?
  }

  /**
   * The borrowing `returnBook` acts on: by id it is any borrowing visible to
   * the caller, whatever its status; by book it is the caller's own open
   * borrowing of that book. Either way its book must still exist (the join).
   */
  function LocateLoan(lib: Library, caller: int, role: Role, borrowingId: Option<int>, bookId: int): (r: Option<Borrowing>)
    ensures r.Some? ==> r.value in lib.borrowings && FindBook(lib, r.value.bookId).Some?
    ensures r.Some? && GivenId(borrowingId) ==> r.value.id == borrowingId.value && LoanVisible(lib, r.value, caller, role)
    ensures r.Some? && !GivenId(borrowingId) ==> OpenLoan(r.value, caller, bookId)
    ensures r.None? && GivenId(borrowingId) ==>
      forall b :: b in lib.borrowings && b.id == borrowingId.value ==> !LoanVisible(lib, b, caller, role)
    ensures r.None? && !GivenId(borrowingId) ==>
      forall b :: b in lib.borrowings && OpenLoan(b, caller, bookId) ==> FindBook(lib, b.bookId).None?
  {
    if GivenId(borrowingId) then
      First(lib.borrowings, (b: Borrowing) => b.id == borrowingId.value && LoanVisible(lib, b, caller, role))
    else
      First(lib.borrowings, (b: Borrowing) => OpenLoan(b, caller, bookId) && FindBook(lib, b.bookId).Some?)
  }

  /**
   * What a located return does: the borrowing is marked returned today with
   * its fine, the book becomes `available` whatever reservations are
   * waiting, the oldest pending reserver and then the borrower are
   * notified, and the return is logged under the caller.
   */
  function CloseLoan(lib: Library, caller: int, loan: Borrowing, title: string, now: int): (r: Library)
    // the borrowing is closed with its fine
    ensures
      var today := Day(now);
      && |r.borrowings| == |lib.borrowings|
      && forall i :: 0 <= i < |lib.borrowings| ==>
           var b, b' := lib.borrowings[i], r.borrowings[i];
           if b.id == loan.id
           then b' == b.(returnDate := Some(today), status := Returned, fine := Fine(loan.dueDate, today))
           else b' == b
    // the book becomes available, pending reservations or not
    ensures |r.books| == |lib.books|
    ensures forall i :: 0 <= i < |lib.books| ==>
      r.books[i] == if lib.books[i].id == loan.bookId then lib.books[i].(availability := Available) else lib.books[i]
    // reservations, users and bookmarks are not touched
    ensures r.reservations == lib.reservations && r.users == lib.users
    ensures r.bookmarks == lib.bookmarks && r.categories == lib.categories
    // the oldest pending reserver, if any, then the borrower are notified
    ensures
      var waiting := FirstPending(lib, loan.bookId);
      && |r.notifications| == |lib.notifications| + (if waiting.Some? then 2 else 1)
      && r.notifications[..|lib.notifications|] == lib.notifications
      && (waiting.Some? ==>
            Announces(r.notifications[|lib.notifications|], waiting.value.userId, AvailableNotice, "Reserved Book Available", loan.bookId))
      && Announces(r.notifications[|r.notifications| - 1], loan.userId, SystemNotice, "Book Returned", loan.bookId)
    ensures |r.logs| == |lib.logs| + 1 && r.logs == lib.logs + [r.logs[|lib.logs|]]
    ensures r.logs[|lib.logs|].userId == Some(caller) && r.logs[|lib.logs|].action == "Book returned: " + title
    ensures r.logs[|lib.logs|].level == Info
  {
    var today := Day(now);
    var lib1 := lib.(borrowings := UpdateWhere(lib.borrowings, (b: Borrowing) => b.id == loan.id,
      (b: Borrowing) => b.(returnDate := Some(today), status := Returned, fine := Fine(loan.dueDate, today))));
    var lib2 := lib1.(books := UpdateWhere(lib1.books, (b: Book) => b.id == loan.bookId,
      (b: Book) => b.(availability := Available)));
    assert FirstPending(lib2, loan.bookId) == FirstPending(lib, loan.bookId);
    var lib3 :=
      match FirstPending(lib2, loan.bookId)
      case Some(h) => Notify(lib2, h.userId, AvailableNotice, "Reserved Book Available", Some(loan.bookId))
      case None => lib2;
    var lib4 := Log(lib3, Some(caller), "Book returned: " + title, Info);
    Notify(lib4, loan.userId, SystemNotice, "Book Returned", Some(loan.bookId))
  }

  /**
   * `returnBook`: a request naming neither a borrowing nor a book is
   * rejected, a borrowing that cannot be located is not found, and a failure
   * changes nothing; otherwise the located borrowing is closed.
   */
  function Return(lib: Library, caller: int, role: Role, borrowingId: Option<int>, bookId: Option<int>, now: int): (r: Step)
    ensures r.outcome.Fail? ==> r.after == lib
    ensures !GivenId(borrowingId) && !GivenId(bookId) ==>
      r.outcome == Fail(BadRequest, "Borrowing ID or Book ID is required")
    ensures (GivenId(borrowingId) || GivenId(bookId)) && LocateLoan(lib, caller, role, borrowingId, bookId.GetOr(0)).None? ==>
      r.outcome == Fail(NotFound, "Borrowing record not found")
    ensures r.outcome.Ok? <==>
      (GivenId(borrowingId) || GivenId(bookId)) && LocateLoan(lib, caller, role, borrowingId, bookId.GetOr(0)).Some?
    ensures r.outcome.Ok? ==>
      var loan := LocateLoan(lib, caller, role, borrowingId, bookId.GetOr(0)).value;
      r.after == CloseLoan(lib, caller, loan, FindBook(lib, loan.bookId).value.title, now)
  {
    if !GivenId(borrowingId) && !GivenId(bookId) then
      Step(Fail(BadRequest, "Borrowing ID or Book ID is required"), lib)
    else
      match LocateLoan(lib, caller, role, borrowingId, bookId.GetOr(0))
      case None => Step(Fail(NotFound, "Borrowing record not found"), lib)
      case Some(loan) => Step(Ok, CloseLoan(lib, caller, loan, FindBook(lib, loan.bookId).value.title, now))
  }

  /**
   * Naming a borrowing by id does not require it to be open, so a borrowing
   * that has just been returned can be returned again.
   */
  lemma ReturnAgain(lib: Library, caller: int, role: Role, id: int, now: int, later: int)
    requires id != 0 && LocateLoan(lib, caller, role, Some(id), 0).Some?
    ensures Return(Return(lib, caller, role, Some(id), None, now).after, caller, role, Some(id), None, later).outcome.Ok?
  {
    var loan := LocateLoan(lib, caller, role, Some(id), 0).value;
    var title := FindBook(lib, loan.bookId).value.title;
    ClosedLoanStaysVisible(lib, caller, role, loan, title, now);
    assert Return(lib, caller, role, Some(id), None, now).after == CloseLoan(lib, caller, loan, title, now);
  }

  /** A closed borrowing is still there, under its id, for whoever could see it. */
  lemma ClosedLoanStaysVisible(lib: Library, caller: int, role: Role, loan: Borrowing, title: string, now: int)
    requires loan in lib.borrowings && LoanVisible(lib, loan, caller, role) && loan.id != 0
    ensures LocateLoan(CloseLoan(lib, caller, loan, title, now), caller, role, Some(loan.id), 0).Some?
  {
    var after := CloseLoan(lib, caller, loan, title, now);
    var k :| 0 <= k < |lib.borrowings| && lib.borrowings[k] == loan;
    var i :| 0 <= i < |lib.books| && lib.books[i] == FindBook(lib, loan.bookId).value;
    assert after.books[i] in after.books;
    assert after.borrowings[k] in after.borrowings && after.borrowings[k].id == loan.id;
    assert LoanVisible(after, after.borrowings[k], caller, role);
    VisibleLoanLocated(after, caller, role, after.borrowings[k]);
  }

  /** A borrowing the caller can see is located by its id. */
  lemma VisibleLoanLocated(lib: Library, caller: int, role: Role, loan: Borrowing)
    requires loan in lib.borrowings && LoanVisible(lib, loan, caller, role) && loan.id != 0
    ensures LocateLoan(lib, caller, role, Some(loan.id), 0).Some?
  {
  }

  // ---------------------------------------------------------------- reading

  /** A row of `getMyBorrowings`: the stored borrowing and the status it reports. */
  datatype LoanView = LoanView(loan: Borrowing, status: string)

  /** The reported status: `overdue` for a borrowed row past its due day, the stored status otherwise. */
  function ReportedStatus(b: Borrowing, today: int): (s: string)
    ensures s == "overdue" <==> b.status == Lent && b.dueDate < today
    ensures s != "overdue" ==> s == b.status.Name()
  {
    if b.status == Lent && b.dueDate < today then "overdue" else b.status.Name()
  }

  /** Whether the `status` parameter of `getMyBorrowings` is applied at all. */
  predicate LoanFilterApplies(status: string) {
    status == "borrowed" || status == "returned" || status == "overdue"
  }

  /** The rows `getMyBorrowings` selects: the caller's, with an existing book, passing the status filter. */
  predicate ListedLoan(lib: Library, b: Borrowing, caller: int, status: string) {
    && b.userId == caller && FindBook(lib, b.bookId).Some?
    && (LoanFilterApplies(status) ==> b.status.Name() == status)
  }

  function Views(rows: seq<Borrowing>, today: int): (r: seq<LoanView>)
    ensures |r| == |rows|
    ensures forall i :: 0 <= i < |rows| ==> r[i] == LoanView(rows[i], ReportedStatus(rows[i], today))
  {
    Map(rows, (b: Borrowing) => LoanView(b, ReportedStatus(b, today)))
  }

  /** `getMyBorrowings`: the caller's borrowings in table order, each with its reported status. */
  function MyBorrowings(lib: Library, caller: int, status: string, now: int): (r: seq<LoanView>)
    ensures forall v :: v in r ==> v.loan in lib.borrowings && ListedLoan(lib, v.loan, caller, status)
    ensures forall b :: b in lib.borrowings && ListedLoan(lib, b, caller, status) ==>
      exists i :: 0 <= i < |r| && r[i].loan == b
    ensures forall v :: v in r ==> v.status == ReportedStatus(v.loan, Day(now))
    ensures |r| == Count(lib.borrowings, (b: Borrowing) => ListedLoan(lib, b, caller, status))
  {
    var rows := Filter(lib.borrowings, (b: Borrowing) => ListedLoan(lib, b, caller, status));
    LoanViewsCover(rows, Day(now));
    Views(rows, Day(now))
  }

  /** Every view shows one of the rows with its reported status, and every row is shown. */
  lemma LoanViewsCover(rows: seq<Borrowing>, today: int)
    ensures forall v :: v in Views(rows, today) ==> v.loan in rows && v.status == ReportedStatus(v.loan, today)
    ensures forall b :: b in rows ==> exists i :: 0 <= i < |rows| && Views(rows, today)[i].loan == b
  {
    var r := Views(rows, today);
    forall v | v in r
      ensures v.loan in rows && v.status == ReportedStatus(v.loan, today)
    {
      var i :| 0 <= i < |r| && r[i] == v;
    }
  }

  /**
   * The status filter compares against the stored status, which is never
   * `overdue`, so asking for overdue borrowings always lists nothing.
   */
  lemma OverdueFilterListsNothing(lib: Library, caller: int, now: int)
    ensures MyBorrowings(lib, caller, "overdue", now) == []
  {
    CountZero(lib.borrowings, (b: Borrowing) => ListedLoan(lib, b, caller, "overdue"));
  }

  /** `getBorrowing`: a borrowing by id, for its owner or an administrator. */
  function GetBorrowing(lib: Library, caller: int, role: Role, id: int): (r: Reply<Borrowing>)
    ensures r.Data? <==> exists b :: b in lib.borrowings && b.id == id && LoanVisible(lib, b, caller, role)
    ensures r.Data? ==> r.value in lib.borrowings && r.value.id == id && LoanVisible(lib, r.value, caller, role)
    ensures r.Refused? ==> r == Refused(NotFound, "Borrowing not found")
  {
    match First(lib.borrowings, (b: Borrowing) => b.id == id && LoanVisible(lib, b, caller, role))
    case Some(b) => Data(b)
    case None => Refused(NotFound, "Borrowing not found")
  }

  /** `getAllBorrowings`: every borrowing whose book and user exist, newest first. */
  function AllBorrowings(lib: Library): (r: seq<Borrowing>)
    ensures forall b :: b in r <==> b in lib.borrowings && FindBook(lib, b.bookId).Some? && FindUser(lib, b.userId).Some?
    ensures |r| == Count(lib.borrowings, (b: Borrowing) => FindBook(lib, b.bookId).Some? && FindUser(lib, b.userId).Some?)
  {
    Reverse(Filter(lib.borrowings, (b: Borrowing) => FindBook(lib, b.bookId).Some? && FindUser(lib, b.userId).Some?))
  }

  /** Every borrowing is read newest first. */
  lemma AllBorrowingsNewestFirst(lib: Library)
    ensures NewestFirst(AllBorrowings(lib), lib.borrowings)
  {
    SelectionNewestFirst(lib.borrowings, (b: Borrowing) => FindBook(lib, b.bookId).Some? && FindUser(lib, b.userId).Some?);
  }
}
