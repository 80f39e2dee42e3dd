/** Python's `sorted`, by any total order: the same elements, in order, equal ones as they came. */
module Sorting {
  function Insert<T>(x: T, s: seq<T>, leq: (T, T) -> bool): seq<T> {
    if s == [] || leq(x, s[0]) then [x] + s else [s[0]] + Insert(x, s[1..], leq)
  }

  function Sort<T>(s: seq<T>, leq: (T, T) -> bool): (r: seq<T>) {
    if s == [] then [] else Insert(s[0], Sort(s[1..], leq), leq)
  }

  ghost predicate TotalOrder<T(!new)>(leq: (T, T) -> bool) {
    && (forall x, y :: leq(x, y) || leq(y, x))
    && (forall x, y, z :: leq(x, y) && leq(y, z) ==> leq(x, z))
  }

  ghost predicate Ascending<T>(s: seq<T>, leq: (T, T) -> bool) {
    forall i, k :: 0 <= i < k < |s| ==> leq(s[i], s[k])
  }

  // ---- the same elements ------------------------------------------------------------------

  lemma {:induction false} InsertKeeps<T>(x: T, s: seq<T>, leq: (T, T) -> bool)
    ensures multiset(Insert(x, s, leq)) == multiset(s) + multiset{x}
  {
    if s == [] || leq(x, s[0]) {
    } else {
      InsertKeeps(x, s[1..], leq);
      assert s == [s[0]] + s[1..];
    }
  }

  lemma {:induction false} SortKeeps<T>(s: seq<T>, leq: (T, T) -> bool)
    ensures multiset(Sort(s, leq)) == multiset(s) && |Sort(s, leq)| == |s|
  {
    if s == [] {
    } else {
      SortKeeps(s[1..], leq);
      InsertKeeps(s[0], Sort(s[1..], leq), leq);
      assert s == [s[0]] + s[1..];
      assert |multiset(Sort(s, leq))| == |Sort(s, leq)|;
    }
  }

  lemma InsertIn<T>(x: T, s: seq<T>, leq: (T, T) -> bool, y: T)
    ensures y in Insert(x, s, leq) <==> y == x || y in s
  {
    InsertKeeps(x, s, leq);
    assert y in Insert(x, s, leq) <==> y in multiset(Insert(x, s, leq));
    assert y in s <==> y in multiset(s);
  }

  lemma SortIn<T>(s: seq<T>, leq: (T, T) -> bool, y: T)
    ensures y in Sort(s, leq) <==> y in s
  {
    SortKeeps(s, leq);
    assert y in Sort(s, leq) <==> y in multiset(Sort(s, leq));
    assert y in s <==> y in multiset(s);
  }

  // ---- in order, and stable ---------------------------------------------------------------

  /** `fine` orders what `leq` leaves equal. */
  ghost predicate Refines<T(!new)>(fine: (T, T) -> bool, leq: (T, T) -> bool) {
    forall x, y :: !leq(y, x) ==> fine(x, y)
  }

  /** Elements that `leq` leaves equal came in the order of `fine`. */
  ghost predicate CameInOrder<T>(s: seq<T>, leq: (T, T) -> bool, fine: (T, T) -> bool) {
    forall i, k :: 0 <= i < k < |s| && leq(s[i], s[k]) && leq(s[k], s[i]) ==> fine(s[i], s[k])
  }

  lemma {:induction false} InsertIsStable<T(!new)>(x: T, s: seq<T>, leq: (T, T) -> bool, fine: (T, T) -> bool)
    requires TotalOrder(leq) && TotalOrder(fine) && Refines(fine, leq) && Ascending(s, fine)
    requires forall y :: y in s && leq(x, y) && leq(y, x) ==> fine(x, y)
    ensures Ascending(Insert(x, s, leq), fine)
  {
    if s == [] {
    } else if leq(x, s[0]) {
      var r := [x] + s;
      assert s[0] in s && fine(x, s[0]);
      forall k | 1 <= k < |r| ensures fine(x, r[k]) {
        assert k == 1 || fine(s[0], s[k - 1]);
      }
    } else {
      InsertIsStable(x, s[1..], leq, fine);
      var rest := Insert(x, s[1..], leq);
      forall k | 0 <= k < |rest| ensures fine(s[0], rest[k]) {
        InsertIn(x, s[1..], leq, rest[k]);
        assert rest[k] in rest;
      }
    }
  }

  /** A sorted list is in the order of `leq` and, where that leaves elements equal, in the order
      in which they came. */
  lemma {:induction false} SortIsStable<T(!new)>(s: seq<T>, leq: (T, T) -> bool, fine: (T, T) -> bool)
    requires TotalOrder(leq) && TotalOrder(fine) && Refines(fine, leq) && CameInOrder(s, leq, fine)
    ensures Ascending(Sort(s, leq), fine)
  {
    if s == [] {
    } else {
      SortIsStable(s[1..], leq, fine);
      forall y | y in Sort(s[1..], leq) && leq(s[0], y) && leq(y, s[0]) ensures fine(s[0], y) {
        SortIn(s[1..], leq, y);
        var k :| 0 <= k < |s[1..]| && s[1..][k] == y;
        assert s[k + 1] == y;
      }
      InsertIsStable(s[0], Sort(s[1..], leq), leq, fine);
    }
  }

  lemma SortAscends<T(!new)>(s: seq<T>, leq: (T, T) -> bool)
    requires TotalOrder(leq)
    ensures Ascending(Sort(s, leq), leq)
  {
    assert Refines(leq, leq);
    SortIsStable(s, leq, leq);
  }
}
