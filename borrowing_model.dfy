/**
 * The Borrowing schema: a loan record, its status enumeration, the defaults
 * a new record receives and the due-date validator. Dates are milliseconds
 * since the epoch.
 */
module BorrowingModel {
  import opened Wrappers
  import opened Ids

  datatype Status = Borrowed | Returned | Overdue

  /** The string stored for each status. */
  function StatusName(s: Status): string {
    match s
    case Borrowed => "borrowed"
    case Returned => "returned"
    case Overdue => "overdue"
  }

  /** The enum validator: only the three names are accepted. */
  function ParseStatus(name: string): (r: Option<Status>)
    ensures r.Some? ==> StatusName(r.value) == name
    ensures r.None? ==> name != "borrowed" && name != "returned" && name != "overdue"
  {
    if name == "borrowed" then Some(Borrowed)
    else if name == "returned" then Some(Returned)
    else if name == "overdue" then Some(Overdue)
    else None
  }

  /** Every status survives the trip to its stored name and back. */
  lemma StatusRoundTrip(s: Status)
    ensures ParseStatus(StatusName(s)) == Some(s)
  {
  }

  /** A loan record; `returnDate` is the due date, `actualReturnDate` the day the copy came back. */
  datatype Borrowing = Borrowing(
    book: BookId,
    user: UserId,
    borrowDate: int,
    returnDate: int,
    actualReturnDate: Option<int>,
    status: Status,
    fineAmount: real)

  /**
   * Borrowing.create({book, user, returnDate, status: 'borrowed'}) at time
   * `now`: the schema fills borrowDate with the creation time, leaves
   * actualReturnDate null and fineAmount 0.
   */
  function NewBorrowing(book: BookId, user: UserId, returnDate: int, now: int): (b: Borrowing)
    ensures b.book == book && b.user == user && b.returnDate == returnDate
    ensures b.borrowDate == now
    ensures b.status == Borrowed && b.actualReturnDate.None? && b.fineAmount == 0.0
  {
    Borrowing(book, user, now, returnDate, None, Borrowed, 0.0)
  }

  /** The due-date validator, evaluated whenever the record is validated at time `now`. */
  predicate DueDateOk(b: Borrowing, now: int)
    ensures DueDateOk(b, now) ==> ClosingStatus(b.returnDate, now) == Returned
  {
    b.returnDate > now
  }

  /** The status a return at time `now` writes: overdue exactly when `now` is strictly after the due date. */
  function ClosingStatus(returnDate: int, now: int): (s: Status)
    ensures s != Borrowed
    ensures s == Overdue <==> now > returnDate
  {
    if now > returnDate then Overdue else Returned
  }

  /** The record after a return at time `now`. */
  function Close(b: Borrowing, now: int): (c: Borrowing)
    ensures c.actualReturnDate == Some(now)
    ensures c.status == Overdue <==> now > b.returnDate
    ensures c.status == Returned <==> now <= b.returnDate
    ensures c == b.(actualReturnDate := c.actualReturnDate, status := c.status)
  {
    b.(status := ClosingStatus(b.returnDate, now), actualReturnDate := Some(now))
  }

  /**
   * borrowing.save() after a return, as written: save validates every path
   * of the loaded document, the due-date check among them, now against the
   * time of the return. None is the validation error, with nothing stored.
   */
  function SaveReturnAsWritten(b: Borrowing, now: int): (r: Option<Borrowing>)
    ensures r.Some? <==> b.returnDate > now
    ensures r.Some? ==> r.value == Close(b, now)
  {
    if DueDateOk(b, now) then Some(Close(b, now)) else None
  }

  /**
   * As written, a loan returned on or after its due date is never saved, so
   * the overdue status is never stored: every return that saves is Returned.
   */
  lemma OverdueNeverSavedAsWritten(b: Borrowing, now: int)
    ensures now >= b.returnDate ==> SaveReturnAsWritten(b, now).None?
    ensures now > b.returnDate ==> Close(b, now).status == Overdue
    ensures SaveReturnAsWritten(b, now).Some? ==> SaveReturnAsWritten(b, now).value.status == Returned
  {
  }

  /**
   * How the fields of a stored record relate: a record is open exactly
   * while it has no actual return date, a closed record's status agrees with
   * the comparison of the two dates, and the due date came after the borrow
   * date.
   */
  predicate WellFormed(b: Borrowing) {
    && (b.status == Borrowed <==> b.actualReturnDate.None?)
    && (b.status == Overdue ==> b.actualReturnDate.value > b.returnDate)
    && (b.status == Returned ==> b.actualReturnDate.value <= b.returnDate)
    && b.borrowDate < b.returnDate
    && b.fineAmount >= 0.0
  }

  /** A record created with a future due date is well formed, and closing an open one keeps it so. */
  lemma LifecycleWellFormed(b: Borrowing, book: BookId, user: UserId, returnDate: int, now: int)
    ensures returnDate > now ==> WellFormed(NewBorrowing(book, user, returnDate, now))
    ensures WellFormed(b) && b.status == Borrowed ==> WellFormed(Close(b, now)) && Close(b, now).status != Borrowed
  {
  }
}
