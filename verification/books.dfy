/**
 * api/books.php: the public catalogue (listing, one book, search) and the
 * staff's create, update and delete. Only the library administrator and
 * the library moderator may change the catalogue.
 */
module Books {
  import opened Common
  import opened Seqs
  import opened Text
  import opened State

  const DefaultLimit: nat := 50

  /** The roles that may change the catalogue. */
  predicate Curates(role: Role) {
    role == LibraryAdmin || role == LibraryModerator
  }

  // ---------------------------------------------------------------- routing

  datatype Route =
    | ShowBook(id: int)
    | SearchBooks
    | ListBooks
    | CreateAction
    | UpdateAction(id: int)
    | DeleteAction(id: int)
    | Deny(code: nat, message: string)

  /** The router: reading needs no login; every change needs a logged-in curator, and updates and deletes a book id. */
  function Dispatch(session: Session, verb: Method, action: string, id: Option<int>): (r: Route)
    ensures r.ShowBook? <==> verb == HttpGet && GivenId(id)
    ensures r == SearchBooks <==> verb == HttpGet && !GivenId(id) && action == "search"
    ensures r == ListBooks <==> verb == HttpGet && !GivenId(id) && action != "search"
    ensures verb in {HttpPost, HttpPut, HttpDelete} && !(session.loggedIn && Curates(SessionRole(session))) ==>
      r == Deny(Forbidden, "Admin access required")
    ensures r == CreateAction <==> verb == HttpPost && session.loggedIn && Curates(SessionRole(session))
    ensures r.UpdateAction? <==> verb == HttpPut && session.loggedIn && Curates(SessionRole(session)) && GivenId(id)
    ensures r.DeleteAction? <==> verb == HttpDelete && session.loggedIn && Curates(SessionRole(session)) && GivenId(id)
    ensures r.ShowBook? || r.UpdateAction? || r.DeleteAction? ==> r.id == id.value
    ensures verb in {HttpPut, HttpDelete} && session.loggedIn && Curates(SessionRole(session)) && !GivenId(id) ==>
      r == Deny(BadRequest, "Book ID required")
    ensures verb == HttpOther ==> r == Deny(MethodNotAllowed, "Method not allowed")
  {
    var curator := session.loggedIn && Curates(SessionRole(session));
    match verb
    case HttpGet => if GivenId(id) then ShowBook(id.value) else if action == "search" then SearchBooks else ListBooks
    case HttpPost => if curator then CreateAction else Deny(Forbidden, "Admin access required")
    case HttpPut =>
      if !curator then Deny(Forbidden, "Admin access required")
      else if GivenId(id) then UpdateAction(id.value) else Deny(BadRequest, "Book ID required")
    case HttpDelete =>
      if !curator then Deny(Forbidden, "Admin access required")
      else if GivenId(id) then DeleteAction(id.value) else Deny(BadRequest, "Book ID required")
    case HttpOther => Deny(MethodNotAllowed, "Method not allowed")
  }

  // ---------------------------------------------------------------- reading

  /** `formatBook`: the book with its category name from the `LEFT JOIN categories`. */
  datatype BookView = BookView(book: Book, category: Option<string>)

  function Format(lib: Library, b: Book): (v: BookView)
    ensures v.book == b
  {
    BookView(b, CategoryName(lib, b))
  }

  function Formats(lib: Library, rows: seq<Book>): (r: seq<BookView>)
    ensures |r| == |rows|
    ensures forall i :: 0 <= i < |rows| ==> r[i] == Format(lib, rows[i])
  {
    Map(rows, (b: Book) => Format(lib, b))
  }

  /** `getBooks`: one page of the catalogue, newest first. */
  function GetBooks(lib: Library, limit: Option<nat>, offset: Option<nat>): (r: seq<BookView>)
    ensures
      var lim, off := limit.GetOr(DefaultLimit), offset.GetOr(0);
      && |r| <= lim
      && (off < |lib.books| ==> |r| == Min(lim, |lib.books| - off))
      && forall i :: 0 <= i < |r| ==> off + i < |lib.books| && r[i] == Format(lib, lib.books[|lib.books| - 1 - (off + i)])
  {
    Formats(lib, Page(Reverse(lib.books), limit.GetOr(DefaultLimit), offset.GetOr(0)))
  }

  /** `getBook`: one book by id. */
  function GetBook(lib: Library, id: int): (r: Reply<BookView>)
    ensures r.Data? <==> exists b :: b in lib.books && b.id == id
    ensures r.Data? ==> r.value.book in lib.books && r.value.book.id == id && r.value.category == CategoryName(lib, r.value.book)
    ensures r.Refused? ==> r == Refused(NotFound, "Book not found")
  {
    match FindBook(lib, id)
    case Some(b) => Data(Format(lib, b))
    case None => Refused(NotFound, "Book not found")
  }

  /** The `LIKE '%q%'` test the search applies to one column. */
  predicate LikeField(q: string, field: string) {
    Like("%" + q + "%", field)
  }

  /** The text search: title, author, ISBN or description matches `%q%`; a missing column never matches. */
  predicate TextMatch(b: Book, q: string) {
    || LikeField(q, b.title) || LikeField(q, b.author)
    || (b.isbn.Some? && LikeField(q, b.isbn.value))
    || (b.description.Some? && LikeField(q, b.description.value))
  }

  /** The search filters; an empty parameter ("" or "0") is not applied. */
  predicate Matches(lib: Library, b: Book, q: string, category: string, availability: string) {
    && (!Empty(q) ==> TextMatch(b, q))
    && (!Empty(category) ==> CategoryName(lib, b) == Some(category))
    && (!Empty(availability) ==> b.availability.Name() == availability)
  }

  /** The books the search filters select, newest first. */
  function Selection(lib: Library, q: string, category: string, availability: string): (r: seq<Book>)
    ensures forall b :: b in r <==> b in lib.books && Matches(lib, b, q, category, availability)
    ensures |r| == Count(lib.books, (b: Book) => Matches(lib, b, q, category, availability))
  {
    Reverse(Filter(lib.books, (b: Book) => Matches(lib, b, q, category, availability)))
  }

  /** The search reads the selected books newest first. */
  lemma SearchNewestFirst(lib: Library, q: string, category: string, availability: string)
    ensures NewestFirst(Selection(lib, q, category, availability), lib.books)
  {
    SelectionNewestFirst(lib.books, (b: Book) => Matches(lib, b, q, category, availability));
  }

  /** `searchBooks`: one page, `limit` books (default 50) from `offset` (default 0) on, of the selection. */
  function Search(lib: Library, q: string, category: string, availability: string,
                  limit: Option<nat>, offset: Option<nat>): (r: seq<BookView>)
    ensures
      var sel, lim, off := Selection(lib, q, category, availability), limit.GetOr(DefaultLimit), offset.GetOr(0);
      && |r| <= lim
      && (off < |sel| ==> |r| == Min(lim, |sel| - off))
      && (off >= |sel| ==> r == [])
      && forall i :: 0 <= i < |r| ==> off + i < |sel| && r[i] == Format(lib, sel[off + i])
    ensures forall v :: v in r ==> v.book in lib.books && Matches(lib, v.book, q, category, availability)
  {
    var sel := Selection(lib, q, category, availability);
    var page := Page(sel, limit.GetOr(DefaultLimit), offset.GetOr(0));
    var r := Formats(lib, page);
    assert forall i :: 0 <= i < |r| ==> r[i].book == page[i] && page[i] in sel;
    r
  }

  /** A search with no filter is the plain catalogue listing. */
  lemma SearchWithoutFilters(lib: Library, limit: Option<nat>, offset: Option<nat>)
    ensures Search(lib, "", "", "", limit, offset) == GetBooks(lib, limit, offset)
  {
    FilterKeepsAll(lib.books, (b: Book) => Matches(lib, b, "", "", ""));
  }

  /**
   * For a search text free of LIKE's special characters, a book matches
   * exactly when the text occurs, ignoring case, in its title, author, ISBN
   * or description.
   */
  lemma TextMatchIsContainment(b: Book, q: string)
    requires Plain(q)
    ensures TextMatch(b, q) <==>
      || ContainsFolded(b.title, q) || ContainsFolded(b.author, q)
      || (b.isbn.Some? && ContainsFolded(b.isbn.value, q))
      || (b.description.Some? && ContainsFolded(b.description.value, q))
  {
    LikeContains(q, b.title);
    LikeContains(q, b.author);
    if b.isbn.Some? {
      LikeContains(q, b.isbn.value);
    }
    if b.description.Some? {
      LikeContains(q, b.description.value);
    }
  }

  // ---------------------------------------------------------------- changes

  /** The columns a create or update request may set; `None` is a column not given. */
  datatype BookPatch = BookPatch(
    title: Option<string>,
    author: Option<string>,
    isbn: Option<string>,
    categoryId: Option<int>,
    genre: Option<string>,
    description: Option<string>,
    coverImage: Option<string>,
    publisher: Option<string>,
    publishYear: Option<int>,
    pages: Option<int>,
    language: Option<string>,
    location: Option<string>,
    callNumber: Option<string>,
    availability: Option<Availability>)

  /** The patch gives at least one column. */
  predicate Writes(p: BookPatch) {
    || p.title.Some? || p.author.Some? || p.isbn.Some? || p.categoryId.Some? || p.genre.Some?
    || p.description.Some? || p.coverImage.Some? || p.publisher.Some? || p.publishYear.Some?
    || p.pages.Some? || p.language.Some? || p.location.Some? || p.callNumber.Some? || p.availability.Some?
  }

  /** The book with every given column written. */
  function Apply(b: Book, p: BookPatch): (r: Book)
    ensures r.id == b.id && r.totalBorrows == b.totalBorrows && r.lastBorrowed == b.lastBorrowed
    ensures Patched(p.title, b.title, r.title) && Patched(p.author, b.author, r.author)
    ensures Patched(p.availability, b.availability, r.availability)
    ensures PatchedNullable(p.isbn, b.isbn, r.isbn) && PatchedNullable(p.categoryId, b.categoryId, r.categoryId)
    ensures PatchedNullable(p.genre, b.genre, r.genre) && PatchedNullable(p.description, b.description, r.description)
    ensures PatchedNullable(p.coverImage, b.coverImage, r.coverImage) && PatchedNullable(p.publisher, b.publisher, r.publisher)
    ensures PatchedNullable(p.publishYear, b.publishYear, r.publishYear) && PatchedNullable(p.pages, b.pages, r.pages)
    ensures PatchedNullable(p.language, b.language, r.language) && PatchedNullable(p.location, b.location, r.location)
    ensures PatchedNullable(p.callNumber, b.callNumber, r.callNumber)
    ensures !Writes(p) ==> r == b
  {
    b.(
      title := p.title.GetOr(b.title),
      author := p.author.GetOr(b.author),
      isbn := Pick(p.isbn, b.isbn),
      categoryId := Pick(p.categoryId, b.categoryId),
      genre := Pick(p.genre, b.genre),
      description := Pick(p.description, b.description),
      coverImage := Pick(p.coverImage, b.coverImage),
      publisher := Pick(p.publisher, b.publisher),
      publishYear := Pick(p.publishYear, b.publishYear),
      pages := Pick(p.pages, b.pages),
      language := Pick(p.language, b.language),
      location := Pick(p.location, b.location),
      callNumber := Pick(p.callNumber, b.callNumber),
      availability := p.availability.GetOr(b.availability))
  }

  /** Applying the same update twice writes nothing more. */
  lemma ApplyIdempotent(b: Book, p: BookPatch)
    ensures Apply(Apply(b, p), p) == Apply(b, p)
  {
  }

  /**
   * `createBook`: a missing or empty title or author is refused and changes
   * nothing; otherwise the book is appended, `available` unless the request
   * says otherwise, never borrowed, and its creation logged under the caller.
   */
  function Create(lib: Library, caller: int, p: BookPatch): (r: Step)
    ensures r.outcome.Fail? <==> Empty(p.title.GetOr("")) || Empty(p.author.GetOr(""))
    ensures r.outcome.Fail? ==> r == Step(Fail(BadRequest, "Title and author are required"), lib)
    ensures r.outcome.Ok? ==>
      && |r.after.books| == |lib.books| + 1
      && r.after.books[..|lib.books|] == lib.books
      && var b := r.after.books[|lib.books|];
         && b.id == lib.nextId && b.title == p.title.value && b.author == p.author.value
         && b.availability == p.availability.GetOr(Available)
         && b.totalBorrows == 0 && b.lastBorrowed.None?
         && b.isbn == p.isbn && b.categoryId == p.categoryId && b.genre == p.genre
         && b.description == p.description && b.coverImage == p.coverImage && b.publisher == p.publisher
         && b.publishYear == p.publishYear && b.pages == p.pages && b.language == p.language
         && b.location == p.location && b.callNumber == p.callNumber
    ensures r.outcome.Ok? ==>
      && r.after.logs == lib.logs + [LogEntry(lib.nextId + 1, Some(caller), "Book created: " + p.title.value, Info)]
    // no other table changes
    ensures r.outcome.Ok? ==> r.after == lib.(books := r.after.books, logs := r.after.logs, nextId := lib.nextId + 2)
  {
    var title, author := p.title.GetOr(""), p.author.GetOr("");
    if Empty(title) || Empty(author) then Step(Fail(BadRequest, "Title and author are required"), lib)
    else
      var b := Book(lib.nextId, title, author, p.isbn, p.categoryId, p.genre, p.description, p.coverImage,
                    p.publisher, p.publishYear, p.pages, p.language, p.location, p.callNumber,
                    p.availability.GetOr(Available), 0, None);
      var lib1 := lib.(books := lib.books + [b], nextId := lib.nextId + 1);
      Step(Ok, Log(lib1, Some(caller), "Book created: " + title, Info))
  }

  /**
   * `updateBook`: a request giving no column is refused and changes
   * nothing; otherwise every row with the id is rewritten, with no check
   * that one exists, and the update logged under the caller.
   */
  function Update(lib: Library, caller: int, id: int, p: BookPatch): (r: Step)
    ensures r.outcome.Fail? <==> !Writes(p)
    ensures r.outcome.Fail? ==> r == Step(Fail(BadRequest, "No fields to update"), lib)
    ensures r.outcome.Ok? ==>
      && |r.after.books| == |lib.books|
      && (forall i :: 0 <= i < |lib.books| ==>
            r.after.books[i] == if lib.books[i].id == id then Apply(lib.books[i], p) else lib.books[i])
      && r.after.logs == lib.logs + [LogEntry(lib.nextId, Some(caller), "Book updated: ID " + IntToString(id), Info)]
    // no other table changes
    ensures r.outcome.Ok? ==> r.after == lib.(books := r.after.books, logs := r.after.logs, nextId := lib.nextId + 1)
  {
    if !Writes(p) then Step(Fail(BadRequest, "No fields to update"), lib)
    else
      var lib1 := lib.(books := UpdateWhere(lib.books, (b: Book) => b.id == id, (b: Book) => Apply(b, p)));
      Step(Ok, Log(lib1, Some(caller), "Book updated: ID " + IntToString(id), Info))
  }

  /** Updating a book that does not exist succeeds and changes only the audit log. */
  lemma UpdateOfMissingBook(lib: Library, caller: int, id: int, p: BookPatch)
    requires Writes(p) && FindBook(lib, id).None?
    ensures Update(lib, caller, id, p).outcome == Ok
    ensures Update(lib, caller, id, p).after.books == lib.books
  {
    var after := Update(lib, caller, id, p).after;
    forall i | 0 <= i < |lib.books|
      ensures after.books[i] == lib.books[i]
    {
      assert lib.books[i] in lib.books;
    }
  }

  /**
   * `deleteBook`: an unknown book is not found and nothing changes;
   * otherwise every row with the id is removed, nothing else in the
   * catalogue or the other tables changes, and the deletion is logged as a
   * warning under the caller.
   */
  function Delete(lib: Library, caller: int, id: int): (r: Step)
    ensures r.outcome.Fail? ==> r == Step(Fail(NotFound, "Book not found"), lib)
    ensures r.outcome.Ok? <==> FindBook(lib, id).Some?
    ensures r.outcome.Ok? ==>
      && (forall b :: b in r.after.books <==> b in lib.books && b.id != id)
      && FindBook(r.after, id).None?
      && r.after.logs == lib.logs + [LogEntry(lib.nextId, Some(caller), "Book deleted: " + FindBook(lib, id).value.title, Warning)]
    // no other table changes
    ensures r.outcome.Ok? ==> r.after == lib.(books := r.after.books, logs := r.after.logs, nextId := lib.nextId + 1)
  {
    match FindBook(lib, id)
    case None => Step(Fail(NotFound, "Book not found"), lib)
    case Some(b) =>
      var lib1 := lib.(books := DeleteWhere(lib.books, (x: Book) => x.id == id));
      Step(Ok, Log(lib1, Some(caller), "Book deleted: " + b.title, Warning))
  }
}
