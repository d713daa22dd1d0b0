/**
 * The book and loan handlers: catalogue management (create, update, delete
 * a book) and the borrowing lifecycle (borrow, return, delete a loan), as
 * methods of a Library that owns the two stores. Each request runs to
 * completion before the next starts.
 */
module BookController {
  import opened Wrappers
  import opened Ids
  import opened BookModel
  import opened BorrowingModel

  /** The failures the handlers report, each with its HTTP status. */
  datatype Error =
    | MissingFields          // a required request field is absent
    | BookNotFound
    | UserNotFound
    | NoCopiesLeft           // stock - borrowedCount <= 0
    | BadDateFormat          // the due date does not parse
    | DueDateNotFuture
    | AlreadyBorrowed        // the borrower holds an open loan of this book
    | LoanNotFound           // no open loan with that id (in the caller's scope)
    | LoanBookMissing        // the loan's book is no longer in the catalogue
    | BorrowedCountGiven     // a new book may not start with copies out
    | StockBelowBorrowed
    | BookOnLoan             // a book with copies out cannot be deleted
    | Invalid(fields: set<Field>)  // schema validation failed on these paths
  {
    /** The status the handlers answer with: 404 when a lookup finds nothing, 500 for a validation error, 400 otherwise. */
    function Code(): (c: int)
      ensures c == 404 <==> BookNotFound? || UserNotFound? || LoanNotFound? || LoanBookMissing?
      ensures c == 500 <==> Invalid?
      ensures c == 400 || c == 404 || c == 500
    {
      match this
      case BookNotFound | UserNotFound | LoanNotFound | LoanBookMissing => 404
      case Invalid(_) => 500
      case _ => 400
    }
  }

  datatype Response<T> = Ok(code: int, body: T) | Fail(error: Error)

  /** The `returnDate` request field: absent, or sent with the result of parsing it (`None` is an invalid date). */
  datatype DueDate = Missing | Given(parsed: Option<int>)

  datatype BookEntry = BookEntry(id: BookId, book: Book)

  /** What a successful borrow or return answers: the loan and the copies left on the shelf. */
  datatype Receipt = Receipt(loanId: LoanId, loan: Borrowing, availableStock: int)

  /** The open loans of book `b`. */
  function ActiveLoans(loans: map<LoanId, Borrowing>, b: BookId): set<LoanId> {
    set id | id in loans && loans[id].book == b && loans[id].status == Borrowed
  }

  /** The catalogue after one more copy of `b` goes out: borrowBook sets borrowedCount to the loaded value + 1 and saves. */
  function CheckedOut(books: map<BookId, Book>, b: BookId): map<BookId, Book>
    requires b in books
  {
    books[b := books[b].(borrowedCount := books[b].borrowedCount + 1)]
  }

  /** The catalogue after one copy of `b` comes back: returnBook sets borrowedCount to the loaded value - 1 and saves. */
  function CheckedIn(books: map<BookId, Book>, b: BookId): map<BookId, Book>
    requires b in books
  {
    books[b := books[b].(borrowedCount := books[b].borrowedCount - 1)]
  }

  /** Borrowing.findOne({user, book, status: 'borrowed'}) finds a record. */
  predicate HasActiveLoan(loans: map<LoanId, Borrowing>, user: UserId, book: BookId)
    ensures HasActiveLoan(loans, user, book) <==> exists id :: id in ActiveLoans(loans, book) && loans[id].user == user
  {
    exists id :: id in loans && loans[id].user == user && loans[id].book == book && loans[id].status == Borrowed
  }

  /** No borrower holds two open loans of the same book. */
  predicate OneActivePerPair(loans: map<LoanId, Borrowing>) {
    forall i, j ::
      (i in loans && j in loans && loans[i].status == Borrowed && loans[j].status == Borrowed
       && loans[i].user == loans[j].user && loans[i].book == loans[j].book) ==> i == j
  }

  /** Every book satisfies its schema (so 0 <= borrowedCount <= stock) and has an id already handed out. */
  ghost predicate CatalogueOk(books: map<BookId, Book>, nextBookId: nat, currentYear: int) {
    forall b :: b in books ==> b < nextBookId && ValidBook(books[b], currentYear)
  }

  /** Every book has at least as many copies counted out as it has open loans. */
  ghost predicate CountsCover(books: map<BookId, Book>, loans: map<LoanId, Borrowing>) {
    forall b :: b in books ==> |ActiveLoans(loans, b)| <= books[b].borrowedCount
  }

  /** Every loan is well formed, has an id already handed out, and an open loan's book exists. */
  ghost predicate LoansOk(books: map<BookId, Book>, loans: map<LoanId, Borrowing>, nextLoanId: nat) {
    forall id :: id in loans ==>
      id < nextLoanId && WellFormed(loans[id])
      && (loans[id].status == Borrowed ==> loans[id].book in books)
  }

  /** The consistency of the two stores. */
  ghost predicate StoreInvariant(books: map<BookId, Book>, loans: map<LoanId, Borrowing>,
                                 nextBookId: nat, nextLoanId: nat, currentYear: int)
  {
    && CatalogueOk(books, nextBookId, currentYear)
    && CountsCover(books, loans)
    && LoansOk(books, loans, nextLoanId)
    && OneActivePerPair(loans)
  }

  /** The checks borrowBook and borrowBookAdmin share once the book is found, in source order. */
  function LendCheck(books: map<BookId, Book>, loans: map<LoanId, Borrowing>,
                     b: BookId, borrower: UserId, due: Option<int>, now: int): (e: Option<Error>)
    requires b in books
    ensures e.None? <==>
      books[b].Available() > 0 && due.Some? && due.value > now && !HasActiveLoan(loans, borrower, b)
    ensures e.Some? ==> e.value.Code() == 400
    ensures books[b].Available() <= 0 ==> e == Some(NoCopiesLeft)
    ensures books[b].Available() > 0 && due.None? ==> e == Some(BadDateFormat)
    ensures books[b].Available() > 0 && due.Some? && due.value <= now ==> e == Some(DueDateNotFuture)
    ensures books[b].Available() > 0 && due.Some? && due.value > now && HasActiveLoan(loans, borrower, b) ==>
      e == Some(AlreadyBorrowed)
  {
    if books[b].Available() <= 0 then Some(NoCopiesLeft)
    else if due.None? then Some(BadDateFormat)
    else if due.value <= now then Some(DueDateNotFuture)
    else if HasActiveLoan(loans, borrower, b) then Some(AlreadyBorrowed)
    else None
  }

  /** Borrowing.findOne({_id: id, status: 'borrowed'}), restricted to `scope`'s loans when given. */
  predicate Returnable(loans: map<LoanId, Borrowing>, id: LoanId, scope: Option<UserId>)
    ensures Returnable(loans, id, scope) ==> id in loans && id in ActiveLoans(loans, loans[id].book)
    ensures Returnable(loans, id, scope) && scope.Some? ==> HasActiveLoan(loans, scope.value, loans[id].book)
  {
    id in loans && loans[id].status == Borrowed && (scope.Some? ==> loans[id].user == scope.value)
  }

  // ---------------------------------------------------------------------------
  // How each change to the stores affects the open loans of a book.

  lemma ActiveAfterInsert(loans: map<LoanId, Borrowing>, id: LoanId, l: Borrowing, b: BookId)
    requires id !in loans
    ensures ActiveLoans(loans[id := l], b)
         == ActiveLoans(loans, b) + (if l.book == b && l.status == Borrowed then {id} else {})
  {
  }

  lemma ActiveAfterClose(loans: map<LoanId, Borrowing>, id: LoanId, l: Borrowing, b: BookId)
    requires id in loans && l.status != Borrowed
    ensures ActiveLoans(loans[id := l], b) == ActiveLoans(loans, b) - {id}
  {
  }

  lemma ActiveAfterRemove(loans: map<LoanId, Borrowing>, id: LoanId, b: BookId)
    ensures ActiveLoans(loans - {id}, b) == ActiveLoans(loans, b) - {id}
  {
  }

  /** With no copies counted out, a book has no open loans: the point of deleteBook's guard. */
  lemma NoCopiesOutNoOpenLoans(books: map<BookId, Book>, loans: map<LoanId, Borrowing>, b: BookId)
    requires CountsCover(books, loans)
    requires b in books && books[b].borrowedCount == 0
    ensures forall id :: id in loans && loans[id].book == b ==> loans[id].status != Borrowed
  {
    assert ActiveLoans(loans, b) == {};
    forall id | id in loans && loans[id].book == b ensures loans[id].status != Borrowed {
      assert id !in ActiveLoans(loans, b);
    }
  }

  // ---------------------------------------------------------------------------
  // Each successful operation keeps the store invariant.

  lemma LendKeepsCounts(books: map<BookId, Book>, loans: map<LoanId, Borrowing>,
                        b: BookId, id: LoanId, loan: Borrowing)
    requires CountsCover(books, loans) && b in books && id !in loans && loan.book == b
    ensures CountsCover(CheckedOut(books, b), loans[id := loan])
  {
    var books' := CheckedOut(books, b);
    forall c | c in books'
      ensures |ActiveLoans(loans[id := loan], c)| <= books'[c].borrowedCount
    {
      ActiveAfterInsert(loans, id, loan, c);
    }
  }

  lemma LendKeepsPairs(loans: map<LoanId, Borrowing>, id: LoanId, loan: Borrowing)
    requires OneActivePerPair(loans) && id !in loans
    requires !HasActiveLoan(loans, loan.user, loan.book)
    ensures OneActivePerPair(loans[id := loan])
  {
    var loans' := loans[id := loan];
    forall i, j | (i in loans' && j in loans' && loans'[i].status == Borrowed && loans'[j].status == Borrowed
        && loans'[i].user == loans'[j].user && loans'[i].book == loans'[j].book)
      ensures i == j
    {
      if i != id && j != id {
        assert loans'[i] == loans[i] && loans'[j] == loans[j];
      } else if i != j {
        var other := if i == id then j else i;
        assert other in loans && loans[other].user == loan.user && loans[other].book == loan.book
               && loans[other].status == Borrowed;
        assert HasActiveLoan(loans, loan.user, loan.book);
      }
    }
  }

  /** A successful borrow: one new open loan, one more copy counted out. */
  lemma LendKeepsInvariant(books: map<BookId, Book>, loans: map<LoanId, Borrowing>,
                           nextBookId: nat, nextLoanId: nat, currentYear: int,
                           b: BookId, borrower: UserId, due: int, now: int)
    requires StoreInvariant(books, loans, nextBookId, nextLoanId, currentYear)
    requires b in books && LendCheck(books, loans, b, borrower, Some(due), now).None?
    ensures StoreInvariant(
      CheckedOut(books, b),
      loans[nextLoanId := NewBorrowing(b, borrower, due, now)],
      nextBookId, nextLoanId + 1, currentYear)
  {
    var loan := NewBorrowing(b, borrower, due, now);
    var books' := CheckedOut(books, b);
    var loans' := loans[nextLoanId := loan];
    assert nextLoanId !in loans;
    assert CatalogueOk(books', nextBookId, currentYear) by {
      assert ValidBook(books'[b], currentYear);
    }
    LendKeepsCounts(books, loans, b, nextLoanId, loan);
    assert LoansOk(books', loans', nextLoanId + 1) by {
      LifecycleWellFormed(loan, b, borrower, due, now);
    }
    LendKeepsPairs(loans, nextLoanId, loan);
  }

  /**
   * borrowBook's stock guard and increment as written, over the schema's
   * Number type, whose values need not be whole: a copy may go out while
   * stock - borrowedCount > 0, and the count saved is then one higher,
   * with the borrowedCount <= stock validator switched off for that save.
   */
  function BorrowCountAsWritten(stock: real, borrowedCount: real): (r: Option<real>)
    ensures r.Some? <==> borrowedCount < stock
    ensures r.Some? ==> r.value == borrowedCount + 1.0 && r.value - 1.0 < stock
  {
    if stock - borrowedCount <= 0.0 then None else Some(borrowedCount + 1.0)
  }

  /**
   * As written, a fractional stock is over-borrowed: a new book with stock
   * 1.5 passes create's validators, the guard lets two borrows through, and
   * borrowedCount ends at 2, above the stock.
   */
  lemma FractionalStockOverBorrowedAsWritten() returns (stock: real, first: real, second: real)
    ensures 0.0 <= stock
    ensures BorrowCountAsWritten(stock, 0.0) == Some(first)
    ensures BorrowCountAsWritten(stock, first) == Some(second)
    ensures second > stock
  {
    stock, first, second := 1.5, 1.0, 2.0;
  }

  /**
   * With whole-number counts, as the model's Book has them, the guard as
   * written is exactly the NoCopiesLeft check and the raised count never
   * passes the stock: every borrow it admits keeps the book valid.
   */
  lemma WholeStockBorrowWithinStock(book: Book, currentYear: int)
    requires ValidBook(book, currentYear)
    ensures BorrowCountAsWritten(book.stock as real, book.borrowedCount as real).Some?
            <==> book.Available() > 0
    ensures book.Available() > 0 ==>
      BorrowCountAsWritten(book.stock as real, book.borrowedCount as real)
        == Some((book.borrowedCount + 1) as real)
      && book.borrowedCount + 1 <= book.stock
      && ValidBook(book.(borrowedCount := book.borrowedCount + 1), currentYear)
  {
  }

  lemma CloseKeepsCounts(books: map<BookId, Book>, loans: map<LoanId, Borrowing>, id: LoanId, closed: Borrowing)
    requires CountsCover(books, loans) && id in loans && loans[id].status == Borrowed && loans[id].book in books
    requires closed.status != Borrowed
    ensures books[loans[id].book].borrowedCount >= 1
    ensures var b := loans[id].book;
      CountsCover(CheckedIn(books, b), loans[id := closed])
  {
    var b := loans[id].book;
    assert id in ActiveLoans(loans, b);
    var books' := CheckedIn(books, b);
    var loans' := loans[id := closed];
    forall c | c in books'
      ensures |ActiveLoans(loans', c)| <= books'[c].borrowedCount
    {
      ActiveAfterClose(loans, id, closed, c);
      SubsetCard(ActiveLoans(loans', c), ActiveLoans(loans, c));
    }
  }

  /** A successful return: the loan is closed, one copy fewer counted out. */
  lemma CloseKeepsInvariant(books: map<BookId, Book>, loans: map<LoanId, Borrowing>,
                            nextBookId: nat, nextLoanId: nat, currentYear: int, id: LoanId, now: int)
    requires StoreInvariant(books, loans, nextBookId, nextLoanId, currentYear)
    requires id in loans && loans[id].status == Borrowed
    ensures loans[id].book in books && books[loans[id].book].borrowedCount >= 1
    ensures var b := loans[id].book;
      StoreInvariant(
        CheckedIn(books, b),
        loans[id := Close(loans[id], now)],
        nextBookId, nextLoanId, currentYear)
  {
    var b := loans[id].book;
    var closed := Close(loans[id], now);
    var books' := CheckedIn(books, b);
    var loans' := loans[id := closed];
    LifecycleWellFormed(loans[id], b, loans[id].user, loans[id].returnDate, now);
    CloseKeepsCounts(books, loans, id, closed);
    assert CatalogueOk(books', nextBookId, currentYear) by {
      assert ValidBook(books'[b], currentYear);
    }
    assert LoansOk(books', loans', nextLoanId);
    assert OneActivePerPair(loans');
  }

  /** Deleting a loan record (any status) leaves the invariant intact; no count is corrected. */
  lemma RemoveLoanKeepsInvariant(books: map<BookId, Book>, loans: map<LoanId, Borrowing>,
                                 nextBookId: nat, nextLoanId: nat, currentYear: int, id: LoanId)
    requires StoreInvariant(books, loans, nextBookId, nextLoanId, currentYear)
    ensures StoreInvariant(books, loans - {id}, nextBookId, nextLoanId, currentYear)
  {
    forall c | c in books
      ensures |ActiveLoans(loans - {id}, c)| <= books[c].borrowedCount
    {
      ActiveAfterRemove(loans, id, c);
      SubsetCard(ActiveLoans(loans - {id}, c), ActiveLoans(loans, c));
    }
  }

  /** Adding a valid book under a fresh id: no open loan can name that id yet. */
  lemma AddBookKeepsInvariant(books: map<BookId, Book>, loans: map<LoanId, Borrowing>,
                              nextBookId: nat, nextLoanId: nat, currentYear: int, book: Book)
    requires StoreInvariant(books, loans, nextBookId, nextLoanId, currentYear)
    requires ValidBook(book, currentYear)
    ensures nextBookId !in books
    ensures StoreInvariant(books[nextBookId := book], loans, nextBookId + 1, nextLoanId, currentYear)
  {
    assert ActiveLoans(loans, nextBookId) == {} by {
      forall id | id in loans && loans[id].status == Borrowed ensures loans[id].book != nextBookId {
        assert loans[id].book in books;
      }
    }
  }

  /** Replacing a book by a valid one with the same count of copies out. */
  lemma ReplaceBookKeepsInvariant(books: map<BookId, Book>, loans: map<LoanId, Borrowing>,
                                  nextBookId: nat, nextLoanId: nat, currentYear: int, b: BookId, book: Book)
    requires StoreInvariant(books, loans, nextBookId, nextLoanId, currentYear)
    requires b in books && ValidBook(book, currentYear) && book.borrowedCount == books[b].borrowedCount
    ensures StoreInvariant(books[b := book], loans, nextBookId, nextLoanId, currentYear)
  {
  }

  /** Removing a book with no copies out: no open loan is left pointing at it. */
  lemma RemoveBookKeepsInvariant(books: map<BookId, Book>, loans: map<LoanId, Borrowing>,
                                 nextBookId: nat, nextLoanId: nat, currentYear: int, b: BookId)
    requires StoreInvariant(books, loans, nextBookId, nextLoanId, currentYear)
    requires b in books && books[b].borrowedCount == 0
    ensures StoreInvariant(books - {b}, loans, nextBookId, nextLoanId, currentYear)
  {
    NoCopiesOutNoOpenLoans(books, loans, b);
  }

  /** What an update leaves in the store, and what it answers. */
  datatype UpdateEffect = UpdateEffect(stored: Book, response: Result<Book, set<Field>>)

  /**
   * updateBook past its guards (the book exists and is valid, and a sent
   * stock is not below borrowedCount), as written: findByIdAndUpdate stores the
   * patch, then `book.stock = stock; book.save()` runs. save validates every
   * path of the loaded document. With no stock in the request the assignment
   * writes undefined: the required stock fails, and so does borrowedCount's
   * `value <= this.stock`, which is false against undefined. The request
   * fails although the patch is already stored.
   */
  function UpdateAsWritten(b: Book, req: BookRequest, currentYear: int): (e: UpdateEffect)
    requires ValidBook(b, currentYear)
    requires req.stock.Some? ==> req.stock.value >= b.borrowedCount
    ensures Patch(b, req, currentYear).Failure? ==> e == UpdateEffect(b, Failure(Patch(b, req, currentYear).error))
    ensures Patch(b, req, currentYear).Success? && req.stock.None? ==>
      e == UpdateEffect(Patch(b, req, currentYear).value, Failure({Stock, BorrowedCount}))
    ensures Patch(b, req, currentYear).Success? && req.stock.Some? ==>
      e.response.Success? && e.stored == e.response.value
      && e.stored == Patch(b, req, currentYear).value.(stock := req.stock.value)
  {
    match Patch(b, req, currentYear)
    case Failure(errs) => UpdateEffect(b, Failure(errs))
    case Success(p) =>
      if req.stock.None? then UpdateEffect(p, Failure({Stock, BorrowedCount}))
      else UpdateEffect(p.(stock := req.stock.value), Success(p.(stock := req.stock.value)))
  }

  /**
   * As written, an update that renames a valid book but sends no stock
   * answers with a validation error, yet the new title is stored.
   */
  lemma UpdateWithoutStockAsWritten(b: Book, title: string, currentYear: int)
    requires ValidBook(b, currentYear)
    requires TitleOk(Trim(title)) && Trim(title) != b.title
    ensures var req := BookRequest(Some(title), None, None, None, None, None, None, None, None, None);
      var e := UpdateAsWritten(b, req, currentYear);
      e.response == Failure({Stock, BorrowedCount}) && e.stored != b && e.stored.title == Trim(title)
  {
    var req := BookRequest(Some(title), None, None, None, None, None, None, None, None, None);
    forall f | f in AllFields ensures !FailsOnPatch(f, req, currentYear) {
    }
    assert PatchViolations(req, currentYear) == {};
    assert Patch(b, req, currentYear).value.title == Trim(title);
  }

  // ---------------------------------------------------------------------------

  /** The catalogue and the loan records, with the handlers that change them. */
  class Library {
    /** The year when the Book schema was compiled: the bound of publicationYear is that year + 1. */
    const currentYear: int
    var books: map<BookId, Book>
    var loans: map<LoanId, Borrowing>
    var nextBookId: nat
    var nextLoanId: nat

    ghost predicate Valid()
      reads this
    {
      StoreInvariant(books, loans, nextBookId, nextLoanId, currentYear)
    }

    constructor (currentYear: int)
      ensures Valid()
      ensures this.currentYear == currentYear && books == map[] && loans == map[]
    {
      this.currentYear := currentYear;
      books, loans := map[], map[];
      nextBookId, nextLoanId := 0, 0;
    }

    /**
     * createBook: refuses a request that sets borrowedCount above 0; otherwise
     * stores the book with borrowedCount 0 and addedBy the caller.
     */
    method CreateBook(caller: UserId, req: BookRequest) returns (r: Response<BookEntry>)
      requires Valid()
      modifies this
      ensures Valid()
      ensures loans == old(loans) && nextLoanId == old(nextLoanId)
      ensures r.Fail? ==> books == old(books)
      ensures req.borrowedCount.Some? && req.borrowedCount.value > 0 ==> r == Fail(BorrowedCountGiven)
      ensures !(req.borrowedCount.Some? && req.borrowedCount.value > 0) ==>
        var created := Create(req.(borrowedCount := Some(0), addedBy := Some(caller)), currentYear);
        && (created.Failure? ==> r == Fail(Invalid(created.error)))
        && (created.Success? ==>
              && r == Ok(201, BookEntry(old(nextBookId), created.value))
              && old(nextBookId) !in old(books)
              && books == old(books)[old(nextBookId) := created.value])
      ensures r.Ok? ==> r.body.book.borrowedCount == 0 && r.body.book.addedBy == caller
    {
      if req.borrowedCount.Some? && req.borrowedCount.value > 0 {
        return Fail(BorrowedCountGiven);
      }
      var created := Create(req.(borrowedCount := Some(0), addedBy := Some(caller)), currentYear);
      if created.Failure? {
        return Fail(Invalid(created.error));
      }
      AddBookKeepsInvariant(books, loans, nextBookId, nextLoanId, currentYear, created.value);
      books := books[nextBookId := created.value];
      r := Ok(201, BookEntry(nextBookId, created.value));
      nextBookId := nextBookId + 1;
    }

    /**
     * updateBook: 404 for an unknown id, 400 when a new stock is below the
     * copies out; otherwise writes the other supplied fields (validated) and
     * the new stock, keeping the stored stock when none is sent. A rejected
     * update changes nothing, and borrowedCount is never written.
     */
    method UpdateBook(id: BookId, req: BookRequest) returns (r: Response<BookEntry>)
      requires Valid()
      modifies this
      ensures Valid()
      ensures loans == old(loans) && nextLoanId == old(nextLoanId) && nextBookId == old(nextBookId)
      ensures r.Fail? ==> books == old(books)
      ensures id !in old(books) ==> r == Fail(BookNotFound)
      ensures id in old(books) && req.stock.Some? && req.stock.value < old(books)[id].borrowedCount ==>
        r == Fail(StockBelowBorrowed)
      ensures id in old(books) && !(req.stock.Some? && req.stock.value < old(books)[id].borrowedCount) ==>
        var patched := Patch(old(books)[id], req, currentYear);
        && (patched.Failure? ==> r == Fail(Invalid(patched.error)))
        && (patched.Success? ==>
              && books == old(books)[id := patched.value.(stock := req.stock.GetOr(old(books)[id].stock))]
              && r == Ok(200, BookEntry(id, books[id])))
      ensures r.Ok? ==>
        && books[id].borrowedCount == old(books)[id].borrowedCount
        && books[id].stock == req.stock.GetOr(old(books)[id].stock)
        && books[id].Available() >= 0
      ensures r.Ok? && req.stock.Some? ==>
        && id in old(books) && ValidBook(old(books)[id], currentYear)
        && req.stock.value >= old(books)[id].borrowedCount
        && books[id] == UpdateAsWritten(old(books)[id], req, currentYear).stored
    {
      if id !in books {
        return Fail(BookNotFound);
      }
      if req.stock.Some? && req.stock.value < books[id].borrowedCount {
        return Fail(StockBelowBorrowed);
      }
      var patched := Patch(books[id], req, currentYear);
      if patched.Failure? {
        return Fail(Invalid(patched.error));
      }
      ghost var books0 := books;
      var book := patched.value.(stock := req.stock.GetOr(books[id].stock));
      books := books[id := book];
      r := Ok(200, BookEntry(id, book));
      assert Valid() by {
        PatchKeepsValid(books0[id], req, currentYear);
        ReplaceBookKeepsInvariant(books0, loans, nextBookId, nextLoanId, currentYear, id, book);
      }
    }

    /** deleteBook: 404 for an unknown id, 400 while copies are out; otherwise removes the book. */
    method DeleteBook(id: BookId) returns (r: Response<()>)
      requires Valid()
      modifies this
      ensures Valid()
      ensures loans == old(loans) && nextLoanId == old(nextLoanId) && nextBookId == old(nextBookId)
      ensures id !in old(books) ==> r == Fail(BookNotFound) && books == old(books)
      ensures id in old(books) && old(books)[id].borrowedCount > 0 ==> r == Fail(BookOnLoan) && books == old(books)
      ensures id in old(books) && old(books)[id].borrowedCount <= 0 ==> r == Ok(200, ()) && books == old(books) - {id}
    {
      if id !in books {
        return Fail(BookNotFound);
      }
      if books[id].borrowedCount > 0 {
        return Fail(BookOnLoan);
      }
      RemoveBookKeepsInvariant(books, loans, nextBookId, nextLoanId, currentYear, id);
      books := books - {id};
      r := Ok(200, ());
    }

    /** The step both borrow handlers end with: the remaining checks, then one new loan and one more copy out. */
    method Lend(b: BookId, borrower: UserId, due: Option<int>, now: int) returns (r: Response<Receipt>)
      requires Valid() && b in books
      modifies this
      ensures Valid()
      ensures nextBookId == old(nextBookId)
      ensures LendCheck(old(books), old(loans), b, borrower, due, now).Some? ==>
        r == Fail(LendCheck(old(books), old(loans), b, borrower, due, now).value)
        && books == old(books) && loans == old(loans) && nextLoanId == old(nextLoanId)
      ensures LendCheck(old(books), old(loans), b, borrower, due, now).None? ==>
        var id := old(nextLoanId);
        && id !in old(loans)
        && loans == old(loans)[id := NewBorrowing(b, borrower, due.value, now)]
        && books == CheckedOut(old(books), b)
        && nextLoanId == id + 1
        && r == Ok(200, Receipt(id, loans[id], books[b].Available()))
        && DueDateOk(loans[id], now)
    {
      var check := LendCheck(books, loans, b, borrower, due, now);
      if check.Some? {
        r := Fail(check.value);
      } else {
        ghost var books0, loans0 := books, loans;
        var id, loan := nextLoanId, NewBorrowing(b, borrower, due.value, now);
        loans, books, nextLoanId := loans[id := loan], CheckedOut(books, b), id + 1;
        r := Ok(200, Receipt(id, loan, books[b].Available()));
        assert Valid() by {
          LendKeepsInvariant(books0, loans0, nextBookId, id, currentYear, b, borrower, due.value, now);
        }
      }
    }

    /**
     * borrowBook: the caller borrows `bookId` until `due`. Rejects, in order,
     * a missing field (400), an unknown book (404), then the LendCheck
     * failures (400); on success one open loan for the caller is created and
     * the book's borrowedCount rises by exactly 1.
     */
    method BorrowBook(caller: UserId, bookId: Option<BookId>, due: DueDate, now: int) returns (r: Response<Receipt>)
      requires Valid()
      modifies this
      ensures Valid()
      ensures nextBookId == old(nextBookId)
      ensures r.Fail? ==> books == old(books) && loans == old(loans) && nextLoanId == old(nextLoanId)
      ensures bookId.None? || due.Missing? ==> r == Fail(MissingFields)
      ensures bookId.Some? && due.Given? && bookId.value !in old(books) ==> r == Fail(BookNotFound)
      ensures bookId.Some? && due.Given? && bookId.value in old(books) ==>
        var check := LendCheck(old(books), old(loans), bookId.value, caller, due.parsed, now);
        && (check.Some? ==> r == Fail(check.value))
        && (check.None? ==> r.Ok?)
      ensures r.Ok? ==>
        && bookId.Some? && due.Given? && due.parsed.Some?
        && var id, b := old(nextLoanId), bookId.value;
           && id !in old(loans)
           && loans == old(loans)[id := NewBorrowing(b, caller, due.parsed.value, now)]
           && books == CheckedOut(old(books), b)
           && r == Ok(200, Receipt(id, loans[id], books[b].Available()))
    {
      if bookId.None? || due.Missing? {
        return Fail(MissingFields);
      }
      if bookId.value !in books {
        return Fail(BookNotFound);
      }
      r := Lend(bookId.value, caller, due.parsed, now);
    }

    /**
     * borrowBookAdmin: an administrator lends `bookId` to `userId`. As
     * borrowBook, with userId also required and an unknown user (404) checked
     * after the unknown book.
     */
    method BorrowBookAdmin(bookId: Option<BookId>, due: DueDate, userId: Option<UserId>,
                           users: set<UserId>, now: int) returns (r: Response<Receipt>)
      requires Valid()
      modifies this
      ensures Valid()
      ensures nextBookId == old(nextBookId)
      ensures r.Fail? ==> books == old(books) && loans == old(loans) && nextLoanId == old(nextLoanId)
      ensures bookId.None? || due.Missing? || userId.None? ==> r == Fail(MissingFields)
      ensures bookId.Some? && due.Given? && userId.Some? && bookId.value !in old(books) ==> r == Fail(BookNotFound)
      ensures bookId.Some? && due.Given? && userId.Some? && bookId.value in old(books) && userId.value !in users ==>
        r == Fail(UserNotFound)
      ensures bookId.Some? && due.Given? && userId.Some? && bookId.value in old(books) && userId.value in users ==>
        var check := LendCheck(old(books), old(loans), bookId.value, userId.value, due.parsed, now);
        && (check.Some? ==> r == Fail(check.value))
        && (check.None? ==> r.Ok?)
      ensures r.Ok? ==>
        && bookId.Some? && due.Given? && due.parsed.Some? && userId.Some?
        && var id, b := old(nextLoanId), bookId.value;
           && id !in old(loans)
           && loans == old(loans)[id := NewBorrowing(b, userId.value, due.parsed.value, now)]
           && books == CheckedOut(old(books), b)
           && r == Ok(200, Receipt(id, loans[id], books[b].Available()))
    {
      if bookId.None? || due.Missing? || userId.None? {
        return Fail(MissingFields);
      }
      if bookId.value !in books {
        return Fail(BookNotFound);
      }
      if userId.value !in users {
        return Fail(UserNotFound);
      }
      r := Lend(bookId.value, userId.value, due.parsed, now);
    }

    /** The step both return handlers share: find the open loan in scope, close it, put the copy back. */
    method Settle(loanId: Option<LoanId>, scope: Option<UserId>, now: int) returns (r: Response<Receipt>)
      requires Valid()
      modifies this
      ensures Valid()
      ensures nextBookId == old(nextBookId) && nextLoanId == old(nextLoanId)
      ensures r.Fail? ==> books == old(books) && loans == old(loans)
      ensures loanId.None? ==> r == Fail(MissingFields)
      ensures loanId.Some? && !Returnable(old(loans), loanId.value, scope) ==> r == Fail(LoanNotFound)
      ensures (loanId.Some? && Returnable(old(loans), loanId.value, scope)
               && old(loans)[loanId.value].book !in old(books)) ==> r == Fail(LoanBookMissing)
      ensures r.Ok? <==>
        loanId.Some? && Returnable(old(loans), loanId.value, scope) && old(loans)[loanId.value].book in old(books)
      ensures r.Ok? ==>
        var id := loanId.value;
        var b := old(loans)[id].book;
        && loans == old(loans)[id := Close(old(loans)[id], now)]
        && books == CheckedIn(old(books), b)
        && r == Ok(200, Receipt(id, loans[id], books[b].Available()))
    {
      if loanId.None? {
        return Fail(MissingFields);
      }
      var id := loanId.value;
      if !Returnable(loans, id, scope) {
        return Fail(LoanNotFound);
      }
      var b := loans[id].book;
      if b !in books {
        return Fail(LoanBookMissing);
      }
      ghost var books0, loans0 := books, loans;
      loans := loans[id := Close(loans[id], now)];
      books := CheckedIn(books, b);
      r := Ok(200, Receipt(id, loans[id], books[b].Available()));
      assert Valid() by {
        CloseKeepsInvariant(books0, loans0, nextBookId, nextLoanId, currentYear, id, now);
      }
    }

    /**
     * returnBook: the caller returns one of their own open loans. Anything
     * else is 404 with no change. The loan is closed at `now` (overdue
     * exactly when `now` is after the due date) and the book's borrowedCount
     * falls by exactly 1; the loan is no longer open, so a second return fails.
     */
    method ReturnBook(caller: UserId, loanId: Option<LoanId>, now: int) returns (r: Response<Receipt>)
      requires Valid()
      modifies this
      ensures Valid()
      ensures nextBookId == old(nextBookId) && nextLoanId == old(nextLoanId)
      ensures r.Fail? ==> books == old(books) && loans == old(loans)
      ensures loanId.None? ==> r == Fail(MissingFields)
      ensures loanId.Some? && !Returnable(old(loans), loanId.value, Some(caller)) ==> r == Fail(LoanNotFound)
      ensures r.Ok? <==>
        loanId.Some? && Returnable(old(loans), loanId.value, Some(caller))
        && old(loans)[loanId.value].book in old(books)
      ensures r.Ok? ==>
        var id := loanId.value;
        var b := old(loans)[id].book;
        && loans == old(loans)[id := Close(old(loans)[id], now)]
        && loans[id].actualReturnDate == Some(now)
        && (loans[id].status == Overdue <==> now > old(loans)[id].returnDate)
        && loans[id].fineAmount == old(loans)[id].fineAmount
        && books == CheckedIn(old(books), b)
        && r == Ok(200, Receipt(id, loans[id], books[b].Available()))
        && !Returnable(loans, id, Some(caller))
    {
      r := Settle(loanId, Some(caller), now);
    }

    /** returnBookAdmin: as returnBook, for any open loan whoever holds it. */
    method ReturnBookAdmin(loanId: Option<LoanId>, now: int) returns (r: Response<Receipt>)
      requires Valid()
      modifies this
      ensures Valid()
      ensures nextBookId == old(nextBookId) && nextLoanId == old(nextLoanId)
      ensures r.Fail? ==> books == old(books) && loans == old(loans)
      ensures loanId.None? ==> r == Fail(MissingFields)
      ensures loanId.Some? && !Returnable(old(loans), loanId.value, None) ==> r == Fail(LoanNotFound)
      ensures r.Ok? <==>
        loanId.Some? && Returnable(old(loans), loanId.value, None) && old(loans)[loanId.value].book in old(books)
      ensures r.Ok? ==>
        var id := loanId.value;
        var b := old(loans)[id].book;
        && loans == old(loans)[id := Close(old(loans)[id], now)]
        && (loans[id].status == Overdue <==> now > old(loans)[id].returnDate)
        && books == CheckedIn(old(books), b)
        && r == Ok(200, Receipt(id, loans[id], books[b].Available()))
        && !Returnable(loans, id, None)
    {
      r := Settle(loanId, None, now);
    }

    /** deleteLeon: removes a loan record, whatever its status; no book is touched. */
    method DeleteLoan(id: LoanId) returns (r: Response<()>)
      requires Valid()
      modifies this
      ensures Valid()
      ensures books == old(books) && nextBookId == old(nextBookId) && nextLoanId == old(nextLoanId)
      ensures id !in old(loans) ==> r == Fail(LoanNotFound) && loans == old(loans)
      ensures id in old(loans) ==> r == Ok(200, ()) && loans == old(loans) - {id}
    {
      if id !in loans {
        return Fail(LoanNotFound);
      }
      RemoveLoanKeepsInvariant(books, loans, nextBookId, nextLoanId, currentYear, id);
      loans := loans - {id};
      r := Ok(200, ());
    }
  }
}
