/** Failure-compatible wrappers used across the model. */
module Wrappers {

  datatype Option<+T> = None | Some(value: T) {
    function GetOr(default: T): T {
      match this
      case Some(v) => v
      case None => default
    }
  }

  datatype Result<+T, +E> = Success(value: T) | Failure(error: E)
}

/**
 * Document identities. The database's ObjectIds are modelled as natural
 * numbers handed out in increasing order, so "insertion order" is "id order".
 */
module Ids {

  type BookId = nat
  type UserId = nat
  type LoanId = nat

  /** The least element of `s - {y}`, or `y` when smaller, is the least element of `s`. */
  lemma LeastOfInsert(s: set<nat>, y: nat, m: nat)
    requires y in s && m in s - {y} && forall x :: x in s - {y} ==> m <= x
    ensures var least := if y < m then y else m;
      least in s && forall x :: x in s ==> least <= x
  {
    forall x | x in s ensures (if y < m then y else m) <= x {
      assert x == y || x in s - {y};
    }
  }

  /** The least element of a finite non-empty set, found by setting one element aside at a time. */
  lemma {:induction false} LeastOf(s: set<nat>) returns (m: nat)
    requires s != {}
    ensures m in s && forall x :: x in s ==> m <= x
  {
    var y :| y in s;
    var rest := s - {y};
    if rest == {} {
      forall x | x in s ensures y <= x {
        assert x !in rest;
      }
      m := y;
    } else {
      var k := LeastOf(rest);
      LeastOfInsert(s, y, k);
      m := if y < k then y else k;
    }
  }

  /** A finite non-empty set of naturals has a least element. */
  lemma LeastExists(s: set<nat>)
    requires s != {}
    ensures exists m :: m in s && forall x :: x in s ==> m <= x
  {
    var m := LeastOf(s);
  }

  /** The least id of a non-empty set: the first matching document in natural order. */
  function Least(s: set<nat>): (m: nat)
    requires s != {}
    ensures m in s
    ensures forall x :: x in s ==> m <= x
  {
    LeastExists(s);
    var m :| m in s && forall x :: x in s ==> m <= x;
    m
  }

  /** A subset is never larger than its superset. */
  lemma {:induction false} SubsetCard<T>(a: set<T>, b: set<T>)
    requires a <= b
    ensures |a| <= |b|
  {
    if a != {} {
      var x :| x in a;
      SubsetCard(a - {x}, b - {x});
    }
  }
}
