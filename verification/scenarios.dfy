/**
 * Properties that span the borrowing and the reservation handlers: what
 * one handler leaves behind for the next, and the uniqueness rules the
 * checks in `borrowBook` and `createReservation` keep.
 */
module Scenarios {
  import opened Common
  import opened State
  import Borrowings
  import Reservations

  // ---------------------------------------------------------------- the shelf between handlers

  /**
   * A reservation of a book on the shelf takes it off the shelf for every
   * borrower, the reserving reader included: `borrowBook` lends only books
   * whose availability is `available`.
   */
  lemma ReadyHoldBlocksBorrowing(lib: Library, holder: int, bookId: Option<int>, expiryDays: Option<int>, now: int,
                                 anyone: int, dueDays: Option<int>, later: int)
    requires Reservations.Create(lib, holder, bookId, expiryDays, now).outcome.Ok?
    requires FindBook(lib, bookId.value).value.availability == Available
    ensures Borrowings.Borrow(Reservations.Create(lib, holder, bookId, expiryDays, now).after, anyone, bookId, dueDays, later).outcome
         == Fail(BadRequest, "Book is not available for borrowing")
  {
    var after := Reservations.Create(lib, holder, bookId, expiryDays, now).after;
    ReservedEverywhere(lib, after, bookId.value);
  }

  /**
   * Returning a book puts it back on the shelf whatever reservations are
   * pending for it, so any reader without an open borrowing of it may then
   * borrow it, not only the oldest reserver, who is merely notified.
   */
  lemma ReturnShelvesBook(lib: Library, caller: int, role: Role, borrowingId: Option<int>, bookId: Option<int>, now: int,
                          reader: int, dueDays: Option<int>, later: int)
    requires GivenId(borrowingId) || GivenId(bookId)
    requires Borrowings.LocateLoan(lib, caller, role, borrowingId, bookId.GetOr(0)).Some?
    requires
      var loan := Borrowings.LocateLoan(lib, caller, role, borrowingId, bookId.GetOr(0)).value;
      && loan.bookId != 0
      && forall i :: 0 <= i < |lib.borrowings| && OpenLoan(lib.borrowings[i], reader, loan.bookId) ==> lib.borrowings[i].id == loan.id
    ensures
      var book := Borrowings.LocateLoan(lib, caller, role, borrowingId, bookId.GetOr(0)).value.bookId;
      Borrowings.Borrow(Borrowings.Return(lib, caller, role, borrowingId, bookId, now).after, reader, Some(book), dueDays, later).outcome.Ok?
  {
    var loan := Borrowings.LocateLoan(lib, caller, role, borrowingId, bookId.GetOr(0)).value;
    var title := FindBook(lib, loan.bookId).value.title;
    ClosedLoanFreesBook(lib, caller, loan, title, now, reader);
    assert Borrowings.Return(lib, caller, role, borrowingId, bookId, now).after == Borrowings.CloseLoan(lib, caller, loan, title, now);
  }

  /** Closing a reader's only open borrowing of a book leaves the reader free to borrow that book again. */
  lemma ClosedLoanFreesBook(lib: Library, caller: int, loan: Borrowing, title: string, now: int, reader: int)
    requires FindBook(lib, loan.bookId).Some?
    requires forall i :: 0 <= i < |lib.borrowings| && OpenLoan(lib.borrowings[i], reader, loan.bookId) ==> lib.borrowings[i].id == loan.id
    ensures Borrowings.MayBorrow(Borrowings.CloseLoan(lib, caller, loan, title, now), reader, loan.bookId)
  {
    var after := Borrowings.CloseLoan(lib, caller, loan, title, now);
    forall i | 0 <= i < |after.borrowings|
      ensures !OpenLoan(after.borrowings[i], reader, loan.bookId)
    {
      if lib.borrowings[i].id != loan.id {
        assert after.borrowings[i] == lib.borrowings[i];
      }
    }
    ShelvedEverywhere(lib, after, loan.bookId);
  }

  /**
   * Cancelling the last reservation in force for a book puts it back on the
   * shelf even while it is out on loan: another reader may then borrow it,
   * and the book has two open borrowings at once.
   */
  lemma CancelReleasesLentBook(lib: Library, caller: int, role: Role, id: int,
                               lender: int, reader: int, dueDays: Option<int>, later: int)
    requires Reservations.LocateHold(lib, caller, role, id).Some?
    requires
      var book := Reservations.LocateHold(lib, caller, role, id).value.bookId;
      && book != 0
      && forall i :: 0 <= i < |lib.reservations| && lib.reservations[i].bookId == book && Reservations.Active(lib.reservations[i]) ==>
           lib.reservations[i].id == id
    requires HasOpenLoan(lib, lender, Reservations.LocateHold(lib, caller, role, id).value.bookId)
    requires !HasOpenLoan(lib, reader, Reservations.LocateHold(lib, caller, role, id).value.bookId)
    ensures
      var book := Reservations.LocateHold(lib, caller, role, id).value.bookId;
      var after := Reservations.Cancel(lib, caller, role, id).after;
      var r := Borrowings.Borrow(after, reader, Some(book), dueDays, later);
      && r.outcome.Ok?
      && HasOpenLoan(r.after, lender, book)
      && HasOpenLoan(r.after, reader, book)
  {
    var book := Reservations.LocateHold(lib, caller, role, id).value.bookId;
    var after := Reservations.Cancel(lib, caller, role, id).after;
    CancelLastHoldShelves(lib, caller, role, id);
    LendAgain(after, lender, reader, book, dueDays, later);
  }

  /** Cancelling the last reservation in force for a book puts the book on the shelf and leaves the borrowings alone. */
  lemma CancelLastHoldShelves(lib: Library, caller: int, role: Role, id: int)
    requires Reservations.LocateHold(lib, caller, role, id).Some?
    requires
      var book := Reservations.LocateHold(lib, caller, role, id).value.bookId;
      forall i :: 0 <= i < |lib.reservations| && lib.reservations[i].bookId == book && Reservations.Active(lib.reservations[i]) ==>
        lib.reservations[i].id == id
    ensures
      var after := Reservations.Cancel(lib, caller, role, id).after;
      && Borrowings.OnShelf(after, Reservations.LocateHold(lib, caller, role, id).value.bookId)
      && after.borrowings == lib.borrowings
  {
    var hold := Reservations.LocateHold(lib, caller, role, id).value;
    var title := FindBook(lib, hold.bookId).value.title;
    WithdrawLastShelves(lib, caller, hold, title);
    assert Reservations.Cancel(lib, caller, role, id).after == Reservations.Withdraw(lib, caller, hold, title);
  }

  /** Withdrawing the last reservation in force for a book puts the book on the shelf. */
  lemma WithdrawLastShelves(lib: Library, caller: int, hold: Reservation, title: string)
    requires FindBook(lib, hold.bookId).Some?
    requires forall i :: 0 <= i < |lib.reservations| && lib.reservations[i].bookId == hold.bookId && Reservations.Active(lib.reservations[i]) ==>
      lib.reservations[i].id == hold.id
    ensures Borrowings.OnShelf(Reservations.Withdraw(lib, caller, hold, title), hold.bookId)
  {
    var after := Reservations.Withdraw(lib, caller, hold, title);
    assert !Reservations.BookHeld(after.reservations, hold.bookId) by {
      forall i | 0 <= i < |after.reservations| && after.reservations[i].bookId == hold.bookId
        ensures !Reservations.Active(after.reservations[i])
      {
        if lib.reservations[i].id != hold.id {
          assert after.reservations[i] == lib.reservations[i];
        }
      }
    }
    ShelvedEverywhere(lib, after, hold.bookId);
  }

  /** A book on the shelf is lent to a reader who does not have it, whoever else still has it out. */
  lemma LendAgain(lib: Library, lender: int, reader: int, book: int, dueDays: Option<int>, later: int)
    requires book != 0 && Borrowings.OnShelf(lib, book)
    requires HasOpenLoan(lib, lender, book) && !HasOpenLoan(lib, reader, book)
    ensures
      var r := Borrowings.Borrow(lib, reader, Some(book), dueDays, later);
      r.outcome.Ok? && HasOpenLoan(r.after, lender, book) && HasOpenLoan(r.after, reader, book)
  {
    var r := Borrowings.Borrow(lib, reader, Some(book), dueDays, later);
    var k :| 0 <= k < |lib.borrowings| && OpenLoan(lib.borrowings[k], lender, book);
    assert r.after.borrowings[k] == lib.borrowings[k];
    assert OpenLoan(r.after.borrowings[|lib.borrowings|], reader, book);
  }

  /** When every copy of a book in the catalogue is marked available, the book is on the shelf. */
  lemma ShelvedEverywhere(lib: Library, after: Library, book: int)
    requires FindBook(lib, book).Some?
    requires |after.books| == |lib.books|
    requires forall i :: 0 <= i < |lib.books| ==> after.books[i].id == lib.books[i].id
    requires forall i :: 0 <= i < |lib.books| && lib.books[i].id == book ==> after.books[i].availability == Available
    ensures Borrowings.OnShelf(after, book)
  {
    var i :| 0 <= i < |lib.books| && lib.books[i] == FindBook(lib, book).value;
    assert after.books[i] in after.books;
    var b := FindBook(after, book).value;
    var j :| 0 <= j < |after.books| && after.books[j] == b;
  }

  /** When every copy of a book in the catalogue is marked reserved, the book is not on the shelf. */
  lemma ReservedEverywhere(lib: Library, after: Library, book: int)
    requires FindBook(lib, book).Some?
    requires |after.books| == |lib.books|
    requires forall i :: 0 <= i < |lib.books| ==> after.books[i].id == lib.books[i].id
    requires forall i :: 0 <= i < |lib.books| && lib.books[i].id == book ==> after.books[i].availability == Reserved
    ensures !Borrowings.OnShelf(after, book)
  {
    var i :| 0 <= i < |lib.books| && lib.books[i] == FindBook(lib, book).value;
    assert after.books[i] in after.books;
    var b := FindBook(after, book).value;
    var j :| 0 <= j < |after.books| && after.books[j] == b;
  }

  // ---------------------------------------------------------------- uniqueness the checks keep

  /** No reader holds two reservations in force for the same book. */
  predicate HoldsUnique(holds: seq<Reservation>) {
    forall i, j :: 0 <= i < j < |holds| && Reservations.Active(holds[i]) && Reservations.Active(holds[j]) ==>
      holds[i].userId != holds[j].userId || holds[i].bookId != holds[j].bookId
  }

  /** No reader has two open borrowings of the same book. */
  predicate LoansUnique(loans: seq<Borrowing>) {
    forall i, j :: 0 <= i < j < |loans| && loans[i].status == Lent && loans[j].status == Lent ==>
      loans[i].userId != loans[j].userId || loans[i].bookId != loans[j].bookId
  }

  /** `createReservation` refuses a second reservation in force, so the rule holds after it. */
  lemma CreateKeepsHoldsUnique(lib: Library, caller: int, bookId: Option<int>, expiryDays: Option<int>, now: int)
    requires HoldsUnique(lib.reservations)
    ensures HoldsUnique(Reservations.Create(lib, caller, bookId, expiryDays, now).after.reservations)
  {
    var r := Reservations.Create(lib, caller, bookId, expiryDays, now);
    if r.outcome.Ok? {
      var holds, n := r.after.reservations, |lib.reservations|;
      forall i, j | 0 <= i < j < |holds| && Reservations.Active(holds[i]) && Reservations.Active(holds[j])
        ensures holds[i].userId != holds[j].userId || holds[i].bookId != holds[j].bookId
      {
        if j == n {
          assert !Reservations.ActiveHoldOf(lib.reservations[i], caller, bookId.value);
        }
      }
    }
  }

  /** Cancelling only ever ends reservations, so the rule holds after it. */
  lemma CancelKeepsHoldsUnique(lib: Library, caller: int, role: Role, id: int)
    requires HoldsUnique(lib.reservations)
    ensures HoldsUnique(Reservations.Cancel(lib, caller, role, id).after.reservations)
  {
    var r := Reservations.Cancel(lib, caller, role, id);
    if r.outcome.Ok? {
      var holds := r.after.reservations;
      forall i, j | 0 <= i < j < |holds| && Reservations.Active(holds[i]) && Reservations.Active(holds[j])
        ensures holds[i].userId != holds[j].userId || holds[i].bookId != holds[j].bookId
      {
        assert holds[i] == lib.reservations[i] && holds[j] == lib.reservations[j];
      }
    }
  }

  /** Borrowing only ever cancels reservations, so the rule holds after it. */
  lemma BorrowKeepsHoldsUnique(lib: Library, caller: int, bookId: Option<int>, dueDays: Option<int>, now: int)
    requires HoldsUnique(lib.reservations)
    ensures HoldsUnique(Borrowings.Borrow(lib, caller, bookId, dueDays, now).after.reservations)
  {
    var r := Borrowings.Borrow(lib, caller, bookId, dueDays, now);
    if r.outcome.Ok? {
      var holds := r.after.reservations;
      forall i, j | 0 <= i < j < |holds| && Reservations.Active(holds[i]) && Reservations.Active(holds[j])
        ensures holds[i].userId != holds[j].userId || holds[i].bookId != holds[j].bookId
      {
        assert holds[i] == lib.reservations[i] && holds[j] == lib.reservations[j];
      }
    }
  }

  /** `borrowBook` refuses a reader who already has the book, so the rule holds after it. */
  lemma BorrowKeepsLoansUnique(lib: Library, caller: int, bookId: Option<int>, dueDays: Option<int>, now: int)
    requires LoansUnique(lib.borrowings)
    ensures LoansUnique(Borrowings.Borrow(lib, caller, bookId, dueDays, now).after.borrowings)
  {
    var r := Borrowings.Borrow(lib, caller, bookId, dueDays, now);
    if r.outcome.Ok? {
      var loans, n := r.after.borrowings, |lib.borrowings|;
      forall i, j | 0 <= i < j < |loans| && loans[i].status == Lent && loans[j].status == Lent
        ensures loans[i].userId != loans[j].userId || loans[i].bookId != loans[j].bookId
      {
        assert loans[i] == lib.borrowings[i];
        if j == n {
          assert !OpenLoan(lib.borrowings[i], caller, bookId.value);
        }
      }
    }
  }

  /** Returning only ever closes borrowings, so the rule holds after it. */
  lemma ReturnKeepsLoansUnique(lib: Library, caller: int, role: Role, borrowingId: Option<int>, bookId: Option<int>, now: int)
    requires LoansUnique(lib.borrowings)
    ensures LoansUnique(Borrowings.Return(lib, caller, role, borrowingId, bookId, now).after.borrowings)
  {
    var r := Borrowings.Return(lib, caller, role, borrowingId, bookId, now);
    if r.outcome.Ok? {
      var loans := r.after.borrowings;
      forall i, j | 0 <= i < j < |loans| && loans[i].status == Lent && loans[j].status == Lent
        ensures loans[i].userId != loans[j].userId || loans[i].bookId != loans[j].bookId
      {
        assert loans[i] == lib.borrowings[i] && loans[j] == lib.borrowings[j];
      }
    }
  }
}
