/**
 * api/bookmarks.php: a user's bookmarked books. A bookmark pairs the
 * caller with a book; adding refuses a pair already present and removing
 * deletes every row of the pair.
 */
module Bookmarks {
  import opened Common
  import opened Seqs
  import opened State

  /** `m` is a bookmark of `book` by `user`. */
  predicate Marks(m: Bookmark, user: int, book: int) {
    m.userId == user && m.bookId == book
  }

  /** The rows `WHERE user_id = user AND book_id = book` selects. */
  function MarkedBy(user: int, book: int): Bookmark -> bool {
    (m: Bookmark) => Marks(m, user, book)
  }

  predicate HasBookmark(lib: Library, user: int, book: int) {
    exists i :: 0 <= i < |lib.bookmarks| && Marks(lib.bookmarks[i], user, book)
  }

  /** No (user, book) pair is bookmarked twice. */
  predicate UniquePairs(marks: seq<Bookmark>) {
    forall i, j :: 0 <= i < j < |marks| ==> !Marks(marks[j], marks[i].userId, marks[i].bookId)
  }

  // ---------------------------------------------------------------- routing

  datatype Route = ListMarks | AddMark(book: int) | RemoveMark(book: int) | Deny(code: nat, message: string)

  /** The router at the top of the file: login gate, then the method; adding and removing need a book id. */
  function Dispatch(session: Session, verb: Method, bookId: Option<int>): (r: Route)
    ensures !session.loggedIn ==> r == Deny(Unauthorized, "Authentication required")
    ensures r == ListMarks <==> session.loggedIn && verb == HttpGet
    ensures r.AddMark? <==> session.loggedIn && verb == HttpPost && GivenId(bookId)
    ensures r.RemoveMark? <==> session.loggedIn && verb == HttpDelete && GivenId(bookId)
    ensures (r.AddMark? || r.RemoveMark?) ==> r.book == bookId.value
    ensures session.loggedIn && verb in {HttpPost, HttpDelete} && !GivenId(bookId) ==> r == Deny(BadRequest, "Book ID required")
    ensures session.loggedIn && verb !in {HttpGet, HttpPost, HttpDelete} ==> r == Deny(MethodNotAllowed, "Method not allowed")
  {
    if !session.loggedIn then Deny(Unauthorized, "Authentication required")
    else
      match verb
      case HttpGet => ListMarks
      case HttpPost => if GivenId(bookId) then AddMark(bookId.value) else Deny(BadRequest, "Book ID required")
      case HttpDelete => if GivenId(bookId) then RemoveMark(bookId.value) else Deny(BadRequest, "Book ID required")
      case _ => Deny(MethodNotAllowed, "Method not allowed")
  }

  // ---------------------------------------------------------------- reading

  /** A row of `getBookmarks`: the bookmark, its book, and the book's category name if it has one. */
  datatype MarkView = MarkView(mark: Bookmark, book: Book, category: Option<string>)

  predicate ListedMark(lib: Library, m: Bookmark, caller: int) {
    m.userId == caller && FindBook(lib, m.bookId).Some?
  }

  function MarkViews(lib: Library, rows: seq<Bookmark>): (r: seq<MarkView>)
    requires forall i :: 0 <= i < |rows| ==> FindBook(lib, rows[i].bookId).Some?
    ensures |r| == |rows|
    ensures forall i :: 0 <= i < |rows| ==>
      var b := FindBook(lib, rows[i].bookId).value;
      r[i] == MarkView(rows[i], b, CategoryName(lib, b))
  {
    seq(|rows|, i requires 0 <= i < |rows| && FindBook(lib, rows[i].bookId).Some? =>
      var b := FindBook(lib, rows[i].bookId).value;
      MarkView(rows[i], b, CategoryName(lib, b)))
  }

  /** Every view shows one of the rows with its own book and category, and every row is shown. */
  lemma MarkViewsCover(lib: Library, rows: seq<Bookmark>)
    requires forall i :: 0 <= i < |rows| ==> FindBook(lib, rows[i].bookId).Some?
    ensures forall v :: v in MarkViews(lib, rows) ==>
      v.mark in rows && v.book in lib.books && v.book.id == v.mark.bookId && v.category == CategoryName(lib, v.book)
    ensures forall m :: m in rows ==> exists i :: 0 <= i < |rows| && MarkViews(lib, rows)[i].mark == m
  {
    var r := MarkViews(lib, rows);
    forall v | v in r
      ensures v.mark in rows && v.book in lib.books && v.book.id == v.mark.bookId && v.category == CategoryName(lib, v.book)
    {
      var i :| 0 <= i < |r| && r[i] == v;
    }
  }

  /** The caller's bookmarks whose book exists, newest first. */
  function Selection(lib: Library, caller: int): (r: seq<Bookmark>)
    ensures forall m :: m in r <==> m in lib.bookmarks && ListedMark(lib, m, caller)
    ensures |r| == Count(lib.bookmarks, (m: Bookmark) => ListedMark(lib, m, caller))
  {
    Reverse(Filter(lib.bookmarks, (m: Bookmark) => ListedMark(lib, m, caller)))
  }

  /** The bookmark listing reads the caller's bookmarks newest first. */
  lemma MarksNewestFirst(lib: Library, caller: int)
    ensures NewestFirst(Selection(lib, caller), lib.bookmarks)
  {
    SelectionNewestFirst(lib.bookmarks, (m: Bookmark) => ListedMark(lib, m, caller));
  }

  /** `getBookmarks`: the caller's bookmarks whose book exists, newest first, with the book and its category. */
  function List(lib: Library, caller: int): (r: seq<MarkView>)
    ensures |r| == |Selection(lib, caller)|
    ensures forall i :: 0 <= i < |r| ==> r[i].mark == Selection(lib, caller)[i]
    ensures forall v :: v in r ==>
      && v.mark in lib.bookmarks && ListedMark(lib, v.mark, caller)
      && v.book in lib.books && v.book.id == v.mark.bookId && v.category == CategoryName(lib, v.book)
    ensures forall m :: m in lib.bookmarks && ListedMark(lib, m, caller) ==> exists i :: 0 <= i < |r| && r[i].mark == m
  {
    var rows := Selection(lib, caller);
    assert forall i :: 0 <= i < |rows| ==> rows[i] in rows;
    MarkViewsCover(lib, rows);
    MarkViews(lib, rows)
  }

  // ---------------------------------------------------------------- add and remove

  /**
   * `addBookmark`: an unknown book is not found, a pair already bookmarked
   * is a conflict, and a failure changes nothing; otherwise the bookmark is
   * appended and the addition logged under the caller.
   */
  function Add(lib: Library, caller: int, book: int): (r: Step)
    ensures r.outcome.Fail? ==> r.after == lib
    ensures FindBook(lib, book).None? ==> r.outcome == Fail(NotFound, "Book not found")
    ensures FindBook(lib, book).Some? && HasBookmark(lib, caller, book) ==> r.outcome == Fail(Conflict, "Book already bookmarked")
    ensures r.outcome.Ok? <==> FindBook(lib, book).Some? && !HasBookmark(lib, caller, book)
    ensures r.outcome.Ok? ==>
      && r.after.bookmarks == lib.bookmarks + [Bookmark(lib.nextId, caller, book)]
      && r.after.logs == lib.logs + [LogEntry(lib.nextId + 1, Some(caller), "Book bookmarked: " + FindBook(lib, book).value.title, Info)]
      && SameRecords(r.after.(bookmarks := lib.bookmarks), lib) && r.after.notifications == lib.notifications
  {
    match FindBook(lib, book)
    case None => Step(Fail(NotFound, "Book not found"), lib)
    case Some(b) =>
      if HasBookmark(lib, caller, book) then Step(Fail(Conflict, "Book already bookmarked"), lib)
      else
        var lib1 := lib.(bookmarks := lib.bookmarks + [Bookmark(lib.nextId, caller, book)], nextId := lib.nextId + 1);
        Step(Ok, Log(lib1, Some(caller), "Book bookmarked: " + b.title, Info))
  }

  /**
   * `removeBookmark`: a pair not bookmarked, or whose book is gone, is not
   * found and nothing changes; otherwise every bookmark of the pair is
   * deleted and the removal logged under the caller.
   */
  function Remove(lib: Library, caller: int, book: int): (r: Step)
    ensures r.outcome.Fail? ==> r.after == lib
    ensures r.outcome.Fail? ==> r.outcome == Fail(NotFound, "Bookmark not found")
    ensures r.outcome.Ok? <==> HasBookmark(lib, caller, book) && FindBook(lib, book).Some?
    ensures r.outcome.Ok? ==>
      && (forall m :: m in r.after.bookmarks <==> m in lib.bookmarks && !Marks(m, caller, book))
      && r.after.logs == lib.logs + [LogEntry(lib.nextId, Some(caller), "Bookmark removed: " + FindBook(lib, book).value.title, Info)]
      && SameRecords(r.after.(bookmarks := lib.bookmarks), lib) && r.after.notifications == lib.notifications
  {
    if !HasBookmark(lib, caller, book) then Step(Fail(NotFound, "Bookmark not found"), lib)
    else
      match FindBook(lib, book)
      case None => Step(Fail(NotFound, "Bookmark not found"), lib)
      case Some(b) =>
        var lib1 := lib.(bookmarks := DeleteWhere(lib.bookmarks, MarkedBy(caller, book)));
        Step(Ok, Log(lib1, Some(caller), "Bookmark removed: " + b.title, Info))
  }

  /** Bookmarking never creates a duplicate pair. */
  lemma AddKeepsPairsUnique(lib: Library, caller: int, book: int)
    requires UniquePairs(lib.bookmarks)
    ensures UniquePairs(Add(lib, caller, book).after.bookmarks)
  {
    var r := Add(lib, caller, book);
    if r.outcome.Ok? {
      var marks := r.after.bookmarks;
      forall i, j | 0 <= i < j < |marks|
        ensures !Marks(marks[j], marks[i].userId, marks[i].bookId)
      {
        if j == |lib.bookmarks| && Marks(marks[j], marks[i].userId, marks[i].bookId) {
          assert Marks(lib.bookmarks[i], caller, book);
        }
      }
    }
  }

  /** Adding a bookmark and removing it again leaves the bookmarks as they were. */
  lemma AddThenRemove(lib: Library, caller: int, book: int)
    requires Add(lib, caller, book).outcome.Ok?
    ensures Remove(Add(lib, caller, book).after, caller, book).outcome.Ok?
    ensures Remove(Add(lib, caller, book).after, caller, book).after.bookmarks == lib.bookmarks
  {
    var mid := Add(lib, caller, book).after;
    assert FindBook(mid, book) == FindBook(lib, book);
    DeleteWhereAppend(lib.bookmarks, Bookmark(lib.nextId, caller, book), MarkedBy(caller, book));
    DeleteWhereNone(lib.bookmarks, MarkedBy(caller, book));
  }
}
