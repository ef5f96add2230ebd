/**
 * api/dashboard.php: the figures shown on the reader's and on the
 * administrator's home page, all of them counts over the tables, plus the
 * administrator's feed of the newest audit rows.
 */
module Dashboard {
  import opened Common
  import opened Seqs
  import opened State
  import Auth
  import Borrowings
  import Bookmarks
  import Logs
  import Reservations

  /** How far back `last_login` counts a user as active: 30 days, in seconds. */
  const ActiveWindow: int := 30 * SecondsPerDay

  /** Rows in the administrator's activity feed. */
  const FeedLength: nat := 10

  /** The roles that may ask for the administrator's dashboard. */
  predicate SeesAdminBoard(role: Role) {
    role == Admin || role == LibraryAdmin
  }

  // ---------------------------------------------------------------- routing

  datatype Route = UserBoard | AdminBoard | Deny(code: nat, message: string)

  /**
   * The gate at the top of the file: a session that is not logged in is
   * refused with 401; `type` defaults to "user", and only the exact value
   * "admin" asks for the administrator's board, which needs an admin role.
   */
  function Dispatch(session: Session, kind: Option<string>): (r: Route)
    ensures !session.loggedIn ==> r == Deny(Unauthorized, "Authentication required")
    ensures r == AdminBoard <==> session.loggedIn && kind == Some("admin") && SeesAdminBoard(SessionRole(session))
    ensures r == UserBoard <==> session.loggedIn && kind != Some("admin")
    ensures session.loggedIn && kind == Some("admin") && !SeesAdminBoard(SessionRole(session)) ==>
      r == Deny(Forbidden, "Admin access required")
  {
    if !session.loggedIn then Deny(Unauthorized, "Authentication required")
    else if kind.GetOr("user") == "admin" then
      if SeesAdminBoard(SessionRole(session)) then AdminBoard else Deny(Forbidden, "Admin access required")
    else UserBoard
  }

  // ---------------------------------------------------------------- the reader's board

  /** Borrowings of `user` still out. */
  function ReadingBy(user: int): Borrowing -> bool {
    (b: Borrowing) => b.userId == user && b.status == Lent
  }

  /** Borrowings of `user` brought back. */
  function CompletedBy(user: int): Borrowing -> bool {
    (b: Borrowing) => b.userId == user && b.status == Returned
  }

  /** Borrowings of `user` still out after their due day. */
  function OverdueBy(user: int, today: int): Borrowing -> bool {
    (b: Borrowing) => b.userId == user && b.status == Lent && b.dueDate < today
  }

  /** Bookmarks of `user`. */
  function WishedBy(user: int): Bookmark -> bool {
    (m: Bookmark) => m.userId == user
  }

  datatype UserStats = UserStats(totalBooks: nat, reading: nat, completed: nat, wishlist: nat, overdue: nat)

  /**
   * `getUserDashboard`: the size of the catalogue, the caller's borrowings
   * still out and brought back, their bookmarks, and those borrowings out
   * past their due day.
   */
  function UserDashboard(lib: Library, caller: int, now: int): (r: UserStats)
    ensures r.totalBooks == |lib.books|
    ensures r.overdue <= r.reading
    ensures r.reading + r.completed <= |lib.borrowings|
    ensures r.reading == 0 <==> forall i :: 0 <= i < |lib.borrowings| ==> !(lib.borrowings[i].userId == caller && lib.borrowings[i].status == Lent)
    ensures r.completed == 0 <==>
      forall i :: 0 <= i < |lib.borrowings| ==> !(lib.borrowings[i].userId == caller && lib.borrowings[i].status == Returned)
    ensures r.wishlist == 0 <==> forall i :: 0 <= i < |lib.bookmarks| ==> lib.bookmarks[i].userId != caller
    ensures r.overdue == 0 <==>
      forall i :: 0 <= i < |lib.borrowings| ==>
        !(lib.borrowings[i].userId == caller && lib.borrowings[i].status == Lent && lib.borrowings[i].dueDate < Day(now))
  {
    var today := Day(now);
    CountMonotone(lib.borrowings, OverdueBy(caller, today), ReadingBy(caller));
    CountDisjoint(lib.borrowings, ReadingBy(caller), CompletedBy(caller));
    CountZero(lib.borrowings, ReadingBy(caller));
    CountZero(lib.borrowings, CompletedBy(caller));
    CountZero(lib.bookmarks, WishedBy(caller));
    CountZero(lib.borrowings, OverdueBy(caller, today));
    UserStats(
      |lib.books|,
      Count(lib.borrowings, ReadingBy(caller)),
      Count(lib.borrowings, CompletedBy(caller)),
      Count(lib.bookmarks, WishedBy(caller)),
      Count(lib.borrowings, OverdueBy(caller, today)))
  }

  // ---------------------------------------------------------------- the administrator's board

  /** Users with the plain `user` role: the only ones the administrator's board counts. */
  function Patron(): User -> bool {
    (u: User) => u.role == RegularUser
  }

  /** Patrons who logged in within the last 30 days; a user who never logged in is not active. */
  function RecentPatron(now: int): User -> bool {
    (u: User) => u.role == RegularUser && u.lastLogin.Some? && u.lastLogin.value >= now - ActiveWindow
  }

  function PendingHold(): Reservation -> bool {
    (h: Reservation) => h.status == Pending
  }

  function OutLoan(): Borrowing -> bool {
    (b: Borrowing) => b.status == Lent
  }

  function LateLoan(today: int): Borrowing -> bool {
    (b: Borrowing) => b.status == Lent && b.dueDate < today
  }

  datatype AdminStats = AdminStats(
    totalUsers: nat,
    activeUsers: nat,
    totalBooks: nat,
    activeBorrowings: nat,
    pendingRequests: nat,
    overdueBooks: nat,
    activity: seq<Logs.LogView>)

  /**
   * The administrator's activity feed: the ten newest audit rows with their
   * users' names, which is the first page of the unfiltered log listing.
   */
  function Feed(lib: Library): (r: seq<Logs.LogView>)
    ensures |r| == Min(FeedLength, |lib.logs|)
    ensures forall i :: 0 <= i < |r| ==> r[i] == Logs.View(lib, lib.logs[|lib.logs| - 1 - i])
    ensures r == Logs.GetLogs(lib, "", "", Some(FeedLength), Some(0))
  {
    Logs.UnfilteredNewestFirst(lib, FeedLength);
    Logs.GetLogs(lib, "", "", Some(FeedLength), Some(0))
  }

  /**
   * `getAdminDashboard`: counts of patrons and of recently active patrons,
   * of books, of open and of overdue borrowings and of pending reservations,
   * and the activity feed.
   */
  function AdminDashboard(lib: Library, now: int): (r: AdminStats)
    ensures r.activeUsers <= r.totalUsers <= |lib.users|
    ensures r.totalBooks == |lib.books|
    ensures r.overdueBooks <= r.activeBorrowings <= |lib.borrowings|
    ensures r.pendingRequests <= |lib.reservations|
    ensures r.activity == Feed(lib)
  {
    var today := Day(now);
    CountMonotone(lib.users, RecentPatron(now), Patron());
    CountMonotone(lib.borrowings, LateLoan(today), OutLoan());

    AdminStats(
      Count(lib.users, Patron()),
      Count(lib.users, RecentPatron(now)),
      |lib.books|,
      Count(lib.borrowings, OutLoan()),
      Count(lib.reservations, PendingHold()),
      Count(lib.borrowings, LateLoan(today)),
      Feed(lib))
  }

  /** A figure of the administrator's board is zero exactly when no row qualifies for it. */
  lemma AdminFiguresZero(lib: Library, now: int)
    ensures AdminDashboard(lib, now).totalUsers == 0 <==> forall i :: 0 <= i < |lib.users| ==> lib.users[i].role != RegularUser
    ensures AdminDashboard(lib, now).activeBorrowings == 0 <==> forall i :: 0 <= i < |lib.borrowings| ==> lib.borrowings[i].status != Lent
    ensures AdminDashboard(lib, now).pendingRequests == 0 <==>
      forall i :: 0 <= i < |lib.reservations| ==> lib.reservations[i].status != Pending
    ensures AdminDashboard(lib, now).activeUsers == 0 <==>
      forall i :: 0 <= i < |lib.users| ==>
        !(lib.users[i].role == RegularUser && lib.users[i].lastLogin.Some? && lib.users[i].lastLogin.value >= now - ActiveWindow)
    ensures AdminDashboard(lib, now).overdueBooks == 0 <==>
      forall i :: 0 <= i < |lib.borrowings| ==> !(lib.borrowings[i].status == Lent && lib.borrowings[i].dueDate < Day(now))
  {
    CountZero(lib.users, Patron());
    CountZero(lib.borrowings, OutLoan());
    CountZero(lib.reservations, PendingHold());
    CountZero(lib.users, RecentPatron(now));
    CountZero(lib.borrowings, LateLoan(Day(now)));
  }

  // ---------------------------------------------------------------- how the handlers move the figures

  /**
   * A successful borrowing puts one more book on the borrower's "reading"
   * figure and one more open borrowing on the administrator's board, and
   * leaves the borrower's other figures and every other reader's reading
   * figure as they were.
   */
  lemma BorrowAddsReading(lib: Library, caller: int, bookId: Option<int>, dueDays: Option<int>, now: int, other: int)
    requires Borrowings.Borrow(lib, caller, bookId, dueDays, now).outcome.Ok?
    requires other != caller
    ensures
      var before, after := UserDashboard(lib, caller, now), UserDashboard(Borrowings.Borrow(lib, caller, bookId, dueDays, now).after, caller, now);
      && after.reading == before.reading + 1
      && after.completed == before.completed
      && after.wishlist == before.wishlist
      && after.totalBooks == before.totalBooks
    ensures UserDashboard(Borrowings.Borrow(lib, caller, bookId, dueDays, now).after, other, now).reading
         == UserDashboard(lib, other, now).reading
    ensures AdminDashboard(Borrowings.Borrow(lib, caller, bookId, dueDays, now).after, now).activeBorrowings
         == AdminDashboard(lib, now).activeBorrowings + 1
  {
    var after := Borrowings.Borrow(lib, caller, bookId, dueDays, now).after;
    var loan := after.borrowings[|lib.borrowings|];
    assert after.borrowings == lib.borrowings + [loan];
    CountAppend(lib.borrowings, loan, ReadingBy(caller));
    CountAppend(lib.borrowings, loan, CompletedBy(caller));
    CountAppend(lib.borrowings, loan, ReadingBy(other));
    CountAppend(lib.borrowings, loan, OutLoan());
  }

  /**
   * A new borrowing is overdue on the day it is made exactly when the
   * requested loan period is negative, which the handler does not refuse:
   * then both the borrower's and the administrator's overdue figures grow by
   * one; otherwise neither moves.
   */
  lemma BorrowMovesOverdue(lib: Library, caller: int, bookId: Option<int>, dueDays: Option<int>, now: int)
    requires Borrowings.Borrow(lib, caller, bookId, dueDays, now).outcome.Ok?
    ensures
      var after := Borrowings.Borrow(lib, caller, bookId, dueDays, now).after;
      var late := if dueDays.GetOr(Borrowings.DefaultDueDays) < 0 then 1 else 0;
      && UserDashboard(after, caller, now).overdue == UserDashboard(lib, caller, now).overdue + late
      && AdminDashboard(after, now).overdueBooks == AdminDashboard(lib, now).overdueBooks + late
  {
    var after := Borrowings.Borrow(lib, caller, bookId, dueDays, now).after;
    var loan := after.borrowings[|lib.borrowings|];
    assert after.borrowings == lib.borrowings + [loan];
    CountAppend(lib.borrowings, loan, OverdueBy(caller, Day(now)));
    CountAppend(lib.borrowings, loan, LateLoan(Day(now)));
  }

  /**
   * A registration adds one patron to the administrator's board; the new
   * account has never logged in, so the active figure stays as it was.
   */
  lemma RegisterAddsPatron(lib: Library, first: string, middle: string, last: string, suffix: string, email: string,
                           password: string, confirm: string, hash: string -> string, validEmail: string -> bool,
                           initialStatus: UserStatus, now: int)
    requires Auth.Register(lib, first, middle, last, suffix, email, password, confirm, hash, validEmail, initialStatus).outcome.Ok?
    ensures
      var after := Auth.Register(lib, first, middle, last, suffix, email, password, confirm, hash, validEmail, initialStatus).after;
      && AdminDashboard(after, now).totalUsers == AdminDashboard(lib, now).totalUsers + 1
      && AdminDashboard(after, now).activeUsers == AdminDashboard(lib, now).activeUsers
  {
    var after := Auth.Register(lib, first, middle, last, suffix, email, password, confirm, hash, validEmail, initialStatus).after;
    var u := after.users[|lib.users|];
    assert after.users == lib.users + [u];
    CountAppend(lib.users, u, Patron());
    CountAppend(lib.users, u, RecentPatron(now));
  }

  /**
   * A reservation adds one pending request to the administrator's board
   * exactly when the book was not on the shelf; one for a book on the shelf
   * is ready at once and is not counted.
   */
  lemma ReserveMovesPending(lib: Library, caller: int, bookId: Option<int>, expiryDays: Option<int>, now: int, at: int)
    requires Reservations.Create(lib, caller, bookId, expiryDays, now).outcome.Ok?
    ensures
      var after := Reservations.Create(lib, caller, bookId, expiryDays, now).after;
      var shelved := FindBook(lib, bookId.value).value.availability == Available;
      && AdminDashboard(after, at).pendingRequests == AdminDashboard(lib, at).pendingRequests + (if shelved then 0 else 1)
      && AdminDashboard(after, at).activeBorrowings == AdminDashboard(lib, at).activeBorrowings
  {
    var after := Reservations.Create(lib, caller, bookId, expiryDays, now).after;
    var hold := after.reservations[|lib.reservations|];
    assert after.reservations == lib.reservations + [hold];
    CountAppend(lib.reservations, hold, PendingHold());
  }

  /** No two reservations share an id. */
  predicate UniqueHoldIds(holds: seq<Reservation>) {
    forall i, j :: 0 <= i < j < |holds| ==> holds[i].id != holds[j].id
  }

  /**
   * Cancelling a reservation takes one request off the administrator's
   * pending figure exactly when it was pending, when reservation ids are
   * unique.
   */
  lemma CancelMovesPending(lib: Library, caller: int, role: Role, id: int, at: int)
    requires UniqueHoldIds(lib.reservations)
    requires Reservations.LocateHold(lib, caller, role, id).Some?
    ensures
      var hold := Reservations.LocateHold(lib, caller, role, id).value;
      var after := Reservations.Cancel(lib, caller, role, id).after;
      AdminDashboard(after, at).pendingRequests + (if hold.status == Pending then 1 else 0) == AdminDashboard(lib, at).pendingRequests
  {
    var hold := Reservations.LocateHold(lib, caller, role, id).value;
    var title := FindBook(lib, hold.bookId).value.title;
    WithdrawMovesPending(lib, caller, hold, title);
    assert Reservations.Cancel(lib, caller, role, id).after == Reservations.Withdraw(lib, caller, hold, title);
  }

  /** Withdrawing one reservation changes the pending count only by that reservation. */
  lemma WithdrawMovesPending(lib: Library, caller: int, hold: Reservation, title: string)
    requires UniqueHoldIds(lib.reservations) && hold in lib.reservations
    ensures
      var after := Reservations.Withdraw(lib, caller, hold, title);
      Count(after.reservations, PendingHold()) + (if hold.status == Pending then 1 else 0) == Count(lib.reservations, PendingHold())
  {
    var after := Reservations.Withdraw(lib, caller, hold, title);
    var k :| 0 <= k < |lib.reservations| && lib.reservations[k] == hold;
    forall i | 0 <= i < |lib.reservations| && i != k
      ensures after.reservations[i] == lib.reservations[i]
    {
      assert lib.reservations[i].id != hold.id;
    }
    CountReplaced(lib.reservations, after.reservations, k, PendingHold());
  }

  /** No two borrowings share an id. */
  predicate UniqueLoanIds(loans: seq<Borrowing>) {
    forall i, j :: 0 <= i < j < |loans| ==> loans[i].id != loans[j].id
  }

  /**
   * Returning one of one's own open borrowings moves one book from the
   * "reading" figure to the "completed" one, and leaves every other
   * reader's figures as they were, when borrowing ids are unique.
   */
  lemma ReturnCompletesReading(lib: Library, caller: int, role: Role, borrowingId: Option<int>, bookId: Option<int>, now: int, other: int)
    requires UniqueLoanIds(lib.borrowings)
    requires GivenId(borrowingId) || GivenId(bookId)
    requires Borrowings.LocateLoan(lib, caller, role, borrowingId, bookId.GetOr(0)).Some?
    requires
      var loan := Borrowings.LocateLoan(lib, caller, role, borrowingId, bookId.GetOr(0)).value;
      loan.userId == caller && loan.status == Lent
    ensures
      var before, after := UserDashboard(lib, caller, now), UserDashboard(Borrowings.Return(lib, caller, role, borrowingId, bookId, now).after, caller, now);
      && after.reading + 1 == before.reading
      && after.completed == before.completed + 1
      && after.wishlist == before.wishlist
    ensures
      var loan := Borrowings.LocateLoan(lib, caller, role, borrowingId, bookId.GetOr(0)).value;
      var before, after := UserDashboard(lib, caller, now), UserDashboard(Borrowings.Return(lib, caller, role, borrowingId, bookId, now).after, caller, now);
      after.overdue + (if loan.dueDate < Day(now) then 1 else 0) == before.overdue
    ensures other != caller ==>
      var before, after := UserDashboard(lib, other, now), UserDashboard(Borrowings.Return(lib, caller, role, borrowingId, bookId, now).after, other, now);
      after.reading == before.reading && after.completed == before.completed && after.overdue == before.overdue
  {
    var loan := Borrowings.LocateLoan(lib, caller, role, borrowingId, bookId.GetOr(0)).value;
    var title := FindBook(lib, loan.bookId).value.title;
    CloseLoanCompletesReading(lib, caller, loan, title, now);
    if other != caller {
      CloseLoanSparesOthers(lib, caller, loan, title, now, other);
    }
    assert Borrowings.Return(lib, caller, role, borrowingId, bookId, now).after == Borrowings.CloseLoan(lib, caller, loan, title, now);
  }

  /** Closing one of the reader's own open borrowings moves one book from "reading" to "completed". */
  lemma CloseLoanCompletesReading(lib: Library, caller: int, loan: Borrowing, title: string, now: int)
    requires UniqueLoanIds(lib.borrowings)
    requires loan in lib.borrowings && loan.userId == caller && loan.status == Lent
    ensures
      var before, after := UserDashboard(lib, caller, now), UserDashboard(Borrowings.CloseLoan(lib, caller, loan, title, now), caller, now);
      && after.reading + 1 == before.reading
      && after.completed == before.completed + 1
      && after.wishlist == before.wishlist
      && after.overdue + (if loan.dueDate < Day(now) then 1 else 0) == before.overdue
  {
    var after := Borrowings.CloseLoan(lib, caller, loan, title, now);
    var k :| 0 <= k < |lib.borrowings| && lib.borrowings[k] == loan;
    forall i | 0 <= i < |lib.borrowings| && i != k
      ensures after.borrowings[i] == lib.borrowings[i]
    {
      assert lib.borrowings[i].id != loan.id;
    }
    CountReplaced(lib.borrowings, after.borrowings, k, ReadingBy(caller));
    CountReplaced(lib.borrowings, after.borrowings, k, CompletedBy(caller));
    CountReplaced(lib.borrowings, after.borrowings, k, OverdueBy(caller, Day(now)));
  }

  /** Closing a borrowing moves none of the figures of a reader who does not hold it. */
  lemma CloseLoanSparesOthers(lib: Library, caller: int, loan: Borrowing, title: string, now: int, other: int)
    requires UniqueLoanIds(lib.borrowings)
    requires loan in lib.borrowings && loan.userId != other
    ensures
      var before, after := UserDashboard(lib, other, now), UserDashboard(Borrowings.CloseLoan(lib, caller, loan, title, now), other, now);
      after.reading == before.reading && after.completed == before.completed && after.overdue == before.overdue
  {
    var after := Borrowings.CloseLoan(lib, caller, loan, title, now);
    var k :| 0 <= k < |lib.borrowings| && lib.borrowings[k] == loan;
    forall i | 0 <= i < |lib.borrowings| && i != k
      ensures after.borrowings[i] == lib.borrowings[i]
    {
      assert lib.borrowings[i].id != loan.id;
    }
    CountReplaced(lib.borrowings, after.borrowings, k, ReadingBy(other));
    CountReplaced(lib.borrowings, after.borrowings, k, CompletedBy(other));
    CountReplaced(lib.borrowings, after.borrowings, k, OverdueBy(other, Day(now)));
  }

  /**
   * Returning an open borrowing takes one off the administrator's figure of
   * borrowings out, when borrowing ids are unique; whoever returns it.
   */
  lemma ReturnClosesBorrowing(lib: Library, caller: int, role: Role, borrowingId: Option<int>, bookId: Option<int>, now: int, at: int)
    requires UniqueLoanIds(lib.borrowings)
    requires GivenId(borrowingId) || GivenId(bookId)
    requires Borrowings.LocateLoan(lib, caller, role, borrowingId, bookId.GetOr(0)).Some?
    requires Borrowings.LocateLoan(lib, caller, role, borrowingId, bookId.GetOr(0)).value.status == Lent
    ensures
      var after := Borrowings.Return(lib, caller, role, borrowingId, bookId, now).after;
      AdminDashboard(after, at).activeBorrowings + 1 == AdminDashboard(lib, at).activeBorrowings
    ensures
      var loan := Borrowings.LocateLoan(lib, caller, role, borrowingId, bookId.GetOr(0)).value;
      var after := Borrowings.Return(lib, caller, role, borrowingId, bookId, now).after;
      AdminDashboard(after, at).overdueBooks + (if loan.dueDate < Day(at) then 1 else 0) == AdminDashboard(lib, at).overdueBooks
  {
    var loan := Borrowings.LocateLoan(lib, caller, role, borrowingId, bookId.GetOr(0)).value;
    var title := FindBook(lib, loan.bookId).value.title;
    CloseLoanLowersOpen(lib, caller, loan, title, now, Day(at));
    assert Borrowings.Return(lib, caller, role, borrowingId, bookId, now).after == Borrowings.CloseLoan(lib, caller, loan, title, now);
  }

  /**
   * Closing one open borrowing lowers the count of borrowings out by one, and
   * the count of those overdue on `today` by one exactly when it was due
   * before `today`.
   */
  lemma CloseLoanLowersOpen(lib: Library, caller: int, loan: Borrowing, title: string, now: int, today: int)
    requires UniqueLoanIds(lib.borrowings)
    requires loan in lib.borrowings && loan.status == Lent
    ensures Count(Borrowings.CloseLoan(lib, caller, loan, title, now).borrowings, OutLoan()) + 1 == Count(lib.borrowings, OutLoan())
    ensures Count(Borrowings.CloseLoan(lib, caller, loan, title, now).borrowings, LateLoan(today)) + (if loan.dueDate < today then 1 else 0)
         == Count(lib.borrowings, LateLoan(today))
  {
    var after := Borrowings.CloseLoan(lib, caller, loan, title, now);
    var k :| 0 <= k < |lib.borrowings| && lib.borrowings[k] == loan;
    forall i | 0 <= i < |lib.borrowings| && i != k
      ensures after.borrowings[i] == lib.borrowings[i]
    {
      assert lib.borrowings[i].id != loan.id;
    }
    CountReplaced(lib.borrowings, after.borrowings, k, OutLoan());
    CountReplaced(lib.borrowings, after.borrowings, k, LateLoan(today));
  }

  /**
   * A successful login stamps the account's last login with the current
   * time, so a patron who was not yet counted as active is counted from
   * then on, and no other account moves; when user ids are unique.
   */
  lemma LoginCountsActive(lib: Library, session: Session, email: string, password: string,
                          verify: (string, string) -> bool, now: int)
    requires Auth.UniqueUserIds(lib.users)
    requires Auth.Login(lib, session, email, password, verify, now).reply.Data?
    ensures
      var u := Auth.FindByEmail(lib, email).value;
      var after := Auth.Login(lib, session, email, password, verify, now).after;
      && AdminDashboard(after, now).activeUsers
         == AdminDashboard(lib, now).activeUsers + (if u.role == RegularUser && !RecentPatron(now)(u) then 1 else 0)
      && AdminDashboard(after, now).totalUsers == AdminDashboard(lib, now).totalUsers
  {
    var u := Auth.FindByEmail(lib, email).value;
    var after := Auth.Login(lib, session, email, password, verify, now).after;
    var k :| 0 <= k < |lib.users| && lib.users[k] == u;
    forall i | 0 <= i < |lib.users| && i != k
      ensures after.users[i] == lib.users[i]
    {
      assert lib.users[i].id != u.id;
    }
    StampedCounts(lib.users, after.users, k, now);
  }

  /** Stamping one account's last login with `now` moves only that account's place in the counts. */
  lemma StampedCounts(users: seq<User>, stamped: seq<User>, k: nat, now: int)
    requires |stamped| == |users| && k < |users|
    requires forall i :: 0 <= i < |users| && i != k ==> stamped[i] == users[i]
    requires stamped[k] == users[k].(lastLogin := Some(now))
    ensures Count(stamped, Patron()) == Count(users, Patron())
    ensures Count(stamped, RecentPatron(now))
         == Count(users, RecentPatron(now)) + (if users[k].role == RegularUser && !RecentPatron(now)(users[k]) then 1 else 0)
  {
    CountReplaced(users, stamped, k, Patron());
    CountReplaced(users, stamped, k, RecentPatron(now));
  }

  /** A new bookmark adds one to the reader's wishlist figure and to nobody else's. */
  lemma BookmarkAddsWish(lib: Library, caller: int, book: int, other: int, now: int)
    requires Bookmarks.Add(lib, caller, book).outcome.Ok?
    requires other != caller
    ensures UserDashboard(Bookmarks.Add(lib, caller, book).after, caller, now).wishlist == UserDashboard(lib, caller, now).wishlist + 1
    ensures UserDashboard(Bookmarks.Add(lib, caller, book).after, other, now).wishlist == UserDashboard(lib, other, now).wishlist
  {
    var mark := Bookmark(lib.nextId, caller, book);
    CountAppend(lib.bookmarks, mark, WishedBy(caller));
    CountAppend(lib.bookmarks, mark, WishedBy(other));
  }
}
