/**
 * The BookTrack database as one immutable value: every table is a sequence
 * of rows in insertion order, and every handler is a pure function from a
 * `Library` (plus the caller, the request and the current time) to an
 * outcome and the next `Library`.
 */
module State {
  import opened Common
  import opened Seqs
  import opened Text

  const SecondsPerDay: int := 86400

  /** The UTC day number of a Unix time, standing for the calendar day of `date('Y-m-d')` and `CURDATE()`. */
  function Day(now: int): int {
    now / SecondsPerDay
  }

  datatype Role = RegularUser | Admin | LibraryAdmin | LibraryModerator {
    function Name(): string {
      match this
      case RegularUser => "user"
      case Admin => "admin"
      case LibraryAdmin => "library_admin"
      case LibraryModerator => "library_moderator"
    }
  }

  datatype UserStatus = Active | Suspended | Inactive {
    function Name(): string {
      match this
      case Active => "active"
      case Suspended => "suspended"
      case Inactive => "inactive"
    }
  }

  /** A book's lending state (`books.availability`). */
  datatype Availability = Available | Borrowed | Reserved {
    function Name(): string {
      match this
      case Available => "available"
      case Borrowed => "borrowed"
      case Reserved => "reserved"
    }
  }

  /** The stored status of a borrowing; `overdue` is only ever derived when reading. */
  datatype LoanStatus = Lent | Returned {
    function Name(): string {
      match this
      case Lent => "borrowed"
      case Returned => "returned"
    }
  }

  /** The stored status of a reservation: `Ready` is the source's `available`; `expired` is only derived. */
  datatype HoldStatus = Pending | Ready | Cancelled {
    function Name(): (n: string)
      ensures n == "cancelled" <==> this == Cancelled
    {
      match this
      case Pending => "pending"
      case Ready => "available"
      case Cancelled => "cancelled"
    }
  }

  datatype NoticeKind = SystemNotice | DueNotice | AvailableNotice

  datatype LogLevel = Info | Warning | ErrorLevel | SuccessLevel {
    function Name(): string {
      match this
      case Info => "info"
      case Warning => "warning"
      case ErrorLevel => "error"
      case SuccessLevel => "success"
    }
  }

  datatype User = User(
    id: int,
    firstName: string,
    middleName: Option<string>,
    lastName: string,
    suffix: Option<string>,
    email: string,
    passwordHash: string,
    role: Role,
    status: UserStatus,
    phone: Option<string>,
    address: Option<string>,
    profileImage: Option<string>,
    lastLogin: Option<int>)

  datatype Book = Book(
    id: int,
    title: string,
    author: string,
    isbn: Option<string>,
    categoryId: Option<int>,
    genre: Option<string>,
    description: Option<string>,
    coverImage: Option<string>,
    publisher: Option<string>,
    publishYear: Option<int>,
    pages: Option<int>,
    language: Option<string>,
    location: Option<string>,
    callNumber: Option<string>,
    availability: Availability,
    totalBorrows: int,
    lastBorrowed: Option<int>)

  /** Dates are day numbers; `fine` is in whole currency units. */
  datatype Borrowing = Borrowing(
    id: int,
    userId: int,
    bookId: int,
    borrowedDate: int,
    dueDate: int,
    returnDate: Option<int>,
    status: LoanStatus,
    fine: int)

  /** Times are Unix seconds. */
  datatype Reservation = Reservation(
    id: int,
    userId: int,
    bookId: int,
    reservedAt: int,
    expiresAt: int,
    status: HoldStatus)

  datatype Bookmark = Bookmark(id: int, userId: int, bookId: int)

  datatype Notification = Notification(
    id: int,
    userId: int,
    kind: NoticeKind,
    title: string,
    bookId: Option<int>,
    isRead: bool,
    priority: string)

  datatype LogEntry = LogEntry(id: int, userId: Option<int>, action: string, level: LogLevel)

  /**
   * The whole database. `categories` maps a category id to its name and is
   * never written by the handlers; `nextId` stands for the AUTO_INCREMENT
   * counters: every inserted row takes it and bumps it.
   */
  datatype Library = Library(
    users: seq<User>,
    categories: map<int, string>,
    books: seq<Book>,
    borrowings: seq<Borrowing>,
    reservations: seq<Reservation>,
    bookmarks: seq<Bookmark>,
    notifications: seq<Notification>,
    logs: seq<LogEntry>,
    nextId: int)

  /** What a state-changing handler produces. */
  datatype Step = Step(outcome: Outcome, after: Library)

  /** The PHP session: `is_logged_in`, `user_id`, `user_email`, `user_role`. */
  datatype Session = Session(loggedIn: bool, userId: Option<int>, email: Option<string>, role: Option<Role>)

  /** The session after `session_destroy()`. */
  const NoSession := Session(false, None, None, None)

  /** `$_SESSION['user_role'] ?? 'user'`. */
  function SessionRole(s: Session): Role {
    s.role.GetOr(RegularUser)
  }

  /** The priority every created notification gets. */
  const Medium := "medium"

  function FindBook(lib: Library, id: int): Option<Book> {
    First(lib.books, (b: Book) => b.id == id)
  }

  function FindUser(lib: Library, id: int): Option<User> {
    First(lib.users, (u: User) => u.id == id)
  }

  /** `b` is an open borrowing of `book` by `user`. */
  predicate OpenLoan(b: Borrowing, user: int, book: int) {
    b.userId == user && b.bookId == book && b.status == Lent
  }

  predicate HasOpenLoan(lib: Library, user: int, book: int) {
    exists i :: 0 <= i < |lib.borrowings| && OpenLoan(lib.borrowings[i], user, book)
  }

  /** The category name the `LEFT JOIN categories` supplies. */
  function CategoryName(lib: Library, book: Book): (r: Option<string>)
    ensures r.Some? <==> book.categoryId.Some? && book.categoryId.value in lib.categories
    ensures r.Some? ==> r.value == lib.categories[book.categoryId.value]
  {
    if book.categoryId.Some? && book.categoryId.value in lib.categories then Some(lib.categories[book.categoryId.value]) else None
  }

  /** The oldest pending reservation of a book, as `ORDER BY reserved_date ASC LIMIT 1` selects it. */
  function FirstPending(lib: Library, bookId: int): Option<Reservation> {
    First(lib.reservations, (r: Reservation) => r.bookId == bookId && r.status == Pending)
  }

  /** `logSystemActivity`: one audit row appended. The client IP address is not modelled. */
  function Log(lib: Library, userId: Option<int>, action: string, level: LogLevel): Library {
    lib.(logs := lib.logs + [LogEntry(lib.nextId, userId, action, level)], nextId := lib.nextId + 1)
  }

  /** `createNotification`: one unread notification of priority `medium` appended. */
  function Notify(lib: Library, userId: int, kind: NoticeKind, title: string, bookId: Option<int>): Library {
    lib.(
      notifications := lib.notifications + [Notification(lib.nextId, userId, kind, title, bookId, false, Medium)],
      nextId := lib.nextId + 1)
  }

  /** Notification `n` is a fresh, unread, medium-priority `kind` notice about `bookId` for `user`. */
  predicate Announces(n: Notification, user: int, kind: NoticeKind, title: string, bookId: int) {
    n.userId == user && n.kind == kind && n.title == title && n.bookId == Some(bookId) && !n.isRead && n.priority == Medium
  }

  /** The tables a handler touching only `logs` and `notifications` leaves alone. */
  predicate SameRecords(a: Library, b: Library) {
    && a.users == b.users && a.categories == b.categories && a.books == b.books
    && a.borrowings == b.borrowings && a.reservations == b.reservations && a.bookmarks == b.bookmarks
  }

  /**
   * The display name built by login, session check and the user listings:
   * first, middle, last name and suffix joined by single spaces, a missing
   * part counting as empty, then trimmed.
   */
  function FullName(first: string, middle: Option<string>, last: string, suffix: Option<string>): string {
    Trim(first + " " + middle.GetOr("") + " " + last + " " + suffix.GetOr(""))
  }

  /**
   * Only the ends of the joined name are trimmed: with a first name that
   * does not start with, and a suffix that does not end with, a trim
   * character, the name is the plain concatenation, so a missing middle
   * name leaves two spaces between first and last name.
   */
  lemma FullNameKeepsInnerSpaces(first: string, middle: Option<string>, last: string, suffix: string)
    requires first != [] && !IsTrimChar(first[0])
    requires suffix != [] && !IsTrimChar(suffix[|suffix| - 1])
    ensures FullName(first, middle, last, Some(suffix)) == first + " " + middle.GetOr("") + " " + last + " " + suffix
  {
    var s := first + " " + middle.GetOr("") + " " + last + " " + suffix;
    assert s[0] == first[0];
    assert s[|s| - 1] == suffix[|suffix| - 1];
    TrimOfTrimmed(s);
  }

  /** With no suffix, the trailing separator is trimmed away. */
  lemma FullNameWithoutSuffix(first: string, middle: Option<string>, last: string)
    requires first != [] && !IsTrimChar(first[0])
    requires last != [] && !IsTrimChar(last[|last| - 1])
    ensures FullName(first, middle, last, None) == first + " " + middle.GetOr("") + " " + last
  {
    var core := first + " " + middle.GetOr("") + " " + last;
    var s := core + " " + "";
    assert s[0] == first[0];
    assert TrimLeft(s) == s;
    assert s[|s| - 1] == ' ' && s[..|s| - 1] == core;
    assert TrimRight(s) == TrimRight(core);
    assert core[|core| - 1] == last[|last| - 1];
    assert TrimRight(core) == core;
  }
}
