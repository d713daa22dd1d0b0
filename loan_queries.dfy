/**
 * The read-only loan listings: the caller's loans and all loans, newest
 * borrow date first, and the open loans past their due date, earliest due
 * date first. Each is a filter over the loan store followed by a sort; equal
 * keys keep id order (insertion order).
 */
module LoanQueries {
  import opened Ids
  import opened BorrowingModel

  /** A record as the database returns it, with its id. */
  datatype Entry = Entry(id: LoanId, loan: Borrowing)

  /** `i` sorts no later than `j` under `key`, with ids breaking ties. */
  predicate Precedes(loans: map<LoanId, Borrowing>, key: Borrowing -> int, i: LoanId, j: LoanId)
    requires i in loans && j in loans
  {
    key(loans[i]) < key(loans[j]) || (key(loans[i]) == key(loans[j]) && i <= j)
  }

  /** The first of `ids - {y}`, or `y` when it sorts earlier, is the first of `ids`. */
  lemma FirstOfInsert(ids: set<LoanId>, loans: map<LoanId, Borrowing>, key: Borrowing -> int, y: LoanId, m: LoanId)
    requires ids <= loans.Keys && y in ids && m in ids - {y}
    requires forall j :: j in ids - {y} ==> Precedes(loans, key, m, j)
    ensures var first := if Precedes(loans, key, m, y) then m else y;
      first in ids && forall j :: j in ids ==> Precedes(loans, key, first, j)
  {
    forall j | j in ids ensures Precedes(loans, key, if Precedes(loans, key, m, y) then m else y, j) {
      assert j == y || j in ids - {y};
    }
  }

  /** The loan of `ids` that sorts first, found by setting one id aside at a time. */
  lemma {:induction false} FirstOf(ids: set<LoanId>, loans: map<LoanId, Borrowing>, key: Borrowing -> int)
    returns (m: LoanId)
    requires ids != {} && ids <= loans.Keys
    ensures m in ids && forall j :: j in ids ==> Precedes(loans, key, m, j)
  {
    var y :| y in ids;
    var rest := ids - {y};
    if rest == {} {
      forall j | j in ids ensures Precedes(loans, key, y, j) {
        assert j !in rest;
      }
      m := y;
    } else {
      var k := FirstOf(rest, loans, key);
      FirstOfInsert(ids, loans, key, y, k);
      m := if Precedes(loans, key, k, y) then k else y;
    }
  }

  /** Every non-empty set of loans has one that sorts first. */
  lemma FirstExists(ids: set<LoanId>, loans: map<LoanId, Borrowing>, key: Borrowing -> int)
    requires ids != {} && ids <= loans.Keys
    ensures exists m :: m in ids && forall j :: j in ids ==> Precedes(loans, key, m, j)
  {
    var m := FirstOf(ids, loans, key);
  }

  /** The id that sorts first among `ids`. */
  function First(ids: set<LoanId>, loans: map<LoanId, Borrowing>, key: Borrowing -> int): (m: LoanId)
    requires ids != {} && ids <= loans.Keys
    ensures m in ids
    ensures forall j :: j in ids ==> Precedes(loans, key, m, j)
  {
    FirstExists(ids, loans, key);
    var m :| m in ids && forall j :: j in ids ==> Precedes(loans, key, m, j);
    m
  }

  /** `ids` as a sequence ordered by `key`, ties by id. */
  function SortBy(ids: set<LoanId>, loans: map<LoanId, Borrowing>, key: Borrowing -> int): (r: seq<LoanId>)
    requires ids <= loans.Keys
    ensures |r| == |ids|
    ensures forall k :: 0 <= k < |r| ==> r[k] in ids
    ensures forall i :: i in ids ==> i in r
    ensures forall a, b :: 0 <= a < b < |r| ==> r[a] != r[b] && Precedes(loans, key, r[a], r[b])
    decreases |ids|
  {
    if ids == {} then []
    else
      var m := First(ids, loans, key);
      [m] + SortBy(ids - {m}, loans, key)
  }

  /** The records behind a sequence of ids. */
  function Entries(ids: seq<LoanId>, loans: map<LoanId, Borrowing>): (r: seq<Entry>)
    requires forall k :: 0 <= k < |ids| ==> ids[k] in loans
    ensures |r| == |ids|
    ensures forall k :: 0 <= k < |r| ==> r[k] == Entry(ids[k], loans[ids[k]])
  {
    seq(|ids|, k requires 0 <= k < |ids| => Entry(ids[k], loans[ids[k]]))
  }

  /** Sort key for "newest borrow date first". */
  function NewestFirst(b: Borrowing): int { -b.borrowDate }

  /** Sort key for "earliest due date first". */
  function EarliestDue(b: Borrowing): int { b.returnDate }

  /** The records of a sorted set of ids: each once, in order. */
  lemma SortedEntries(loans: map<LoanId, Borrowing>, kept: set<LoanId>, key: Borrowing -> int)
    requires kept <= loans.Keys
    ensures var r := Entries(SortBy(kept, loans, key), loans);
      && (forall k :: 0 <= k < |r| ==> r[k].id in kept && r[k].loan == loans[r[k].id])
      && (forall id :: id in kept ==> Entry(id, loans[id]) in r)
      && (forall a, b :: 0 <= a < b < |r| ==> r[a].id != r[b].id && key(r[a].loan) <= key(r[b].loan))
  {
    var ids := SortBy(kept, loans, key);
    var r := Entries(ids, loans);
    forall id | id in kept ensures Entry(id, loans[id]) in r {
      var k :| 0 <= k < |ids| && ids[k] == id;
      assert r[k] == Entry(id, loans[id]);
    }
    forall a, b | 0 <= a < b < |r| ensures r[a].id != r[b].id && key(r[a].loan) <= key(r[b].loan) {
      assert Precedes(loans, key, ids[a], ids[b]);
    }
  }

  /** The records kept by `keep`, ordered by `key`, ties by id. */
  function Listing(loans: map<LoanId, Borrowing>, keep: Borrowing -> bool, key: Borrowing -> int): (r: seq<Entry>)
    ensures forall k :: 0 <= k < |r| ==> r[k].id in loans && r[k].loan == loans[r[k].id] && keep(r[k].loan)
    ensures forall id :: id in loans && keep(loans[id]) ==> Entry(id, loans[id]) in r
    ensures forall a, b :: 0 <= a < b < |r| ==> r[a].id != r[b].id && key(r[a].loan) <= key(r[b].loan)
  {
    var kept := set id | id in loans && keep(loans[id]);
    SortedEntries(loans, kept, key);
    Entries(SortBy(kept, loans, key), loans)
  }

  /** getMyBorrowedBooks: every loan of `user`, whatever its status, newest borrow date first. */
  function MyBorrowedBooks(loans: map<LoanId, Borrowing>, user: UserId): (r: seq<Entry>)
    ensures forall k :: 0 <= k < |r| ==> r[k].id in loans && r[k].loan == loans[r[k].id] && r[k].loan.user == user
    ensures forall id :: id in loans && loans[id].user == user ==> Entry(id, loans[id]) in r
    ensures forall a, b :: 0 <= a < b < |r| ==> r[a].id != r[b].id && r[a].loan.borrowDate >= r[b].loan.borrowDate
  {
    Listing(loans, (b: Borrowing) => b.user == user, NewestFirst)
  }

  /** getAllBorrowings: every loan, newest borrow date first. */
  function AllBorrowings(loans: map<LoanId, Borrowing>): (r: seq<Entry>)
    ensures forall k :: 0 <= k < |r| ==> r[k].id in loans && r[k].loan == loans[r[k].id]
    ensures forall id :: id in loans ==> Entry(id, loans[id]) in r
    ensures forall a, b :: 0 <= a < b < |r| ==> r[a].id != r[b].id && r[a].loan.borrowDate >= r[b].loan.borrowDate
  {
    Listing(loans, (b: Borrowing) => true, NewestFirst)
  }

  /** The filter of getOverdueBooks: still open and due strictly before `today`. */
  predicate IsOverdue(b: Borrowing, today: int)
    ensures IsOverdue(b, today) <==> b.status == Borrowed && Close(b, today).status == Overdue
  {
    b.status == Borrowed && b.returnDate < today
  }

  /** getOverdueBooks: exactly the open loans due strictly before `today`, earliest due date first. */
  function OverdueBooks(loans: map<LoanId, Borrowing>, today: int): (r: seq<Entry>)
    ensures forall k :: 0 <= k < |r| ==> r[k].id in loans && r[k].loan == loans[r[k].id] && IsOverdue(r[k].loan, today)
    ensures forall id :: id in loans && IsOverdue(loans[id], today) ==> Entry(id, loans[id]) in r
    ensures forall a, b :: 0 <= a < b < |r| ==> r[a].id != r[b].id && r[a].loan.returnDate <= r[b].loan.returnDate
  {
    Listing(loans, (b: Borrowing) => IsOverdue(b, today), EarliestDue)
  }

  /**
   * The listing and the return agree: an open loan is listed as overdue at
   * `today` exactly when returning it at `today` would mark it overdue.
   */
  lemma OverdueMatchesReturn(loans: map<LoanId, Borrowing>, today: int, id: LoanId)
    requires id in loans && loans[id].status == Borrowed
    ensures Entry(id, loans[id]) in OverdueBooks(loans, today) <==> Close(loans[id], today).status == Overdue
  {
    var r := OverdueBooks(loans, today);
    if Entry(id, loans[id]) in r {
      var k :| 0 <= k < |r| && r[k] == Entry(id, loans[id]);
      assert IsOverdue(r[k].loan, today);
    }
  }
}
