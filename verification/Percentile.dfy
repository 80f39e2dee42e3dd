/** The interpolated percentile of the partner feedback export, before it is rounded for
    display. Latencies are real numbers. */
module Percentile {
  import opened Sorting
  import opened Wrappers

  // ---- sorted(values) ---------------------------------------------------------------------

  ghost predicate Rising(s: seq<real>) {
    forall i, j :: 0 <= i <= j < |s| ==> s[i] <= s[j]
  }

  function AtMost(): (real, real) -> bool {
    (x, y) => x <= y
  }

  function Sorted(values: seq<real>): (r: seq<real>)
    ensures |r| == |values|
  {
    SortKeeps(values, AtMost());
    Sort(values, AtMost())
  }

  /** Python's `sorted`: the same values, in ascending order. */
  lemma SortedSorts(values: seq<real>)
    ensures Rising(Sorted(values)) && multiset(Sorted(values)) == multiset(values)
  {
    SortKeeps(values, AtMost());
    SortAscends(values, AtMost());
    var r := Sorted(values);
    forall i, j | 0 <= i < j < |r| ensures r[i] <= r[j] {
      assert AtMost()(r[i], r[j]);
    }
  }

  // ---- the percentile ---------------------------------------------------------------------

  function Position(n: nat, p: real): real {
    (n as real - 1.0) * p / 100.0
  }

  lemma Scaling(m: real, p: real, q: real)
    requires m >= 0.0 && p <= q
    ensures m * p / 100.0 <= m * q / 100.0
  {
    assert m * q - m * p == m * (q - p);
    assert m * (q - p) >= 0.0;
  }

  lemma PositionIsInside(n: nat, p: real)
    requires n > 0 && 0.0 <= p <= 100.0
    ensures 0.0 <= Position(n, p) <= n as real - 1.0
  {
    Scaling(n as real - 1.0, 0.0, p);
    Scaling(n as real - 1.0, p, 100.0);
  }

  /** `int(position)`, which truncates: the floor, as a position is not negative. */
  function Lower(n: nat, p: real): (k: nat)
    requires n > 0 && 0.0 <= p <= 100.0
    ensures k < n && k as real <= Position(n, p) < k as real + 1.0
  {
    assert 0.0 <= Position(n, p) <= n as real - 1.0 by {
      PositionIsInside(n, p);
    }
    Position(n, p).Floor
  }

  lemma PositionsRise(n: nat, p: real, q: real)
    requires n > 0 && p <= q
    ensures Position(n, p) <= Position(n, q)
  {
    Scaling(n as real - 1.0, p, q);
  }

  function Upper(n: nat, p: real): (k: nat)
    requires n > 0 && 0.0 <= p <= 100.0
    ensures k < n
  {
    if Lower(n, p) + 1 < n - 1 then Lower(n, p) + 1 else n - 1
  }

  function Interpolated(ordered: seq<real>, p: real): real
    requires ordered != [] && 0.0 <= p <= 100.0
  {
    var n := |ordered|;
    var low, high := ordered[Lower(n, p)], ordered[Upper(n, p)];
    low + (high - low) * (Position(n, p) - Lower(n, p) as real)
  }

  /** `_percentile` without its `round`. */
  function Percentile(values: seq<real>, p: real): (r: Option<real>)
    requires 0.0 <= p <= 100.0
    ensures r.None? <==> values == []
  {
    if values == [] then None else Some(Interpolated(Sorted(values), p))
  }

  // ---- where it lies ----------------------------------------------------------------------

  lemma ProductIsPositive(a: real, b: real)
    requires a >= 0.0 && b >= 0.0
    ensures a * b >= 0.0
  {
  }

  lemma Between(low: real, high: real, f: real)
    requires low <= high && 0.0 <= f <= 1.0
    ensures low <= low + (high - low) * f <= high
  {
    var d := high - low;
    ProductIsPositive(d, f);
    ProductIsPositive(d, 1.0 - f);
    assert d * (1.0 - f) == d - d * f;
  }

  /** The value lies between two adjacent values of the sorted list (or is the last one). */
  lemma BetweenNeighbours(ordered: seq<real>, p: real)
    requires ordered != [] && Rising(ordered) && 0.0 <= p <= 100.0
    ensures var k := Lower(|ordered|, p);
            ordered[k] <= Interpolated(ordered, p)
            && Interpolated(ordered, p) <= ordered[if k + 1 < |ordered| then k + 1 else k]
  {
    var n := |ordered|;
    Between(ordered[Lower(n, p)], ordered[Upper(n, p)], Position(n, p) - Lower(n, p) as real);
  }

  lemma SortedHolds(values: seq<real>, v: real)
    ensures v in values <==> v in Sorted(values)
  {
    SortedSorts(values);
    assert v in values <==> v in multiset(values);
    assert v in Sorted(values) <==> v in multiset(Sorted(values));
  }

  /** Nothing of an ascending list lies strictly between two neighbours. */
  lemma NothingBetween(ordered: seq<real>, k: nat, v: real)
    requires k < |ordered| && Rising(ordered) && v in ordered
    ensures v <= ordered[k] || ordered[if k + 1 < |ordered| then k + 1 else k] <= v
  {
    var i :| 0 <= i < |ordered| && ordered[i] == v;
  }

  /** The values that hold a percentile between them. */
  ghost predicate Hold(values: seq<real>, a: real, r: real, b: real) {
    && a in values && b in values && a <= r <= b
    && forall v :: v in values ==> v <= a || b <= v
  }

  /** So it lies within the values themselves: two of them, next to each other in order, hold it. */
  lemma IsAmongTheValues(values: seq<real>, p: real)
    requires values != [] && 0.0 <= p <= 100.0
    ensures exists a, b :: Hold(values, a, Percentile(values, p).value, b)
  {
    SortedSorts(values);
    var ordered := Sorted(values);
    BetweenNeighbours(ordered, p);
    var k := Lower(|ordered|, p);
    var a, b := ordered[k], ordered[if k + 1 < |ordered| then k + 1 else k];
    SortedHolds(values, a);
    SortedHolds(values, b);
    forall v | v in values ensures v <= a || b <= v {
      SortedHolds(values, v);
      NothingBetween(ordered, k, v);
    }
    assert Hold(values, a, Percentile(values, p).value, b);
  }

  /** At the position of a value the percentile is that value. */
  lemma IsExactAt(ordered: seq<real>, k: nat, p: real)
    requires k < |ordered| && 0.0 <= p <= 100.0 && Position(|ordered|, p) == k as real
    ensures Interpolated(ordered, p) == ordered[k]
  {
    assert Lower(|ordered|, p) == k;
  }

  lemma OnSegment(ordered: seq<real>, k: nat, p: real)
    requires k + 1 < |ordered| && 0.0 <= p <= 100.0 && k as real <= Position(|ordered|, p) <= (k + 1) as real
    ensures Interpolated(ordered, p)
            == ordered[k] + (ordered[k + 1] - ordered[k]) * (Position(|ordered|, p) - k as real)
  {
    var n, x := |ordered|, Position(|ordered|, p);
    if Lower(n, p) == k {
      assert Upper(n, p) == k + 1;
    } else {
      assert Lower(n, p) == k + 1 && x == (k + 1) as real;
      IsExactAt(ordered, k + 1, p);
    }
  }

  /** Between two values of the list equal steps of the percentile are equal steps of the value,
      up to and including both. */
  lemma StepsAreEven(ordered: seq<real>, k: nat, p: real, q: real)
    requires k + 1 < |ordered| && 0.0 <= p <= q <= 100.0
    requires k as real <= Position(|ordered|, p) && Position(|ordered|, q) <= (k + 1) as real
    ensures Interpolated(ordered, q) - Interpolated(ordered, p)
            == (ordered[k + 1] - ordered[k]) * (Position(|ordered|, q) - Position(|ordered|, p))
  {
    PositionsRise(|ordered|, p, q);
    OnSegment(ordered, k, p);
    OnSegment(ordered, k, q);
    var slope := ordered[k + 1] - ordered[k];
    var f, g := Position(|ordered|, p) - k as real, Position(|ordered|, q) - k as real;
    assert slope * g - slope * f == slope * (g - f);
  }

  // ---- monotone in the percentile ---------------------------------------------------------

  lemma SlopeRises(slope: real, f: real, g: real)
    requires slope >= 0.0 && f <= g
    ensures slope * f <= slope * g
  {
    assert slope * g - slope * f == slope * (g - f);
  }

  /** A higher percentile is never a lower value, also when it passes a value of the list. */
  lemma NeverFalls(ordered: seq<real>, p: real, q: real)
    requires ordered != [] && Rising(ordered) && 0.0 <= p <= q <= 100.0
    ensures Interpolated(ordered, p) <= Interpolated(ordered, q)
  {
    var n := |ordered|;
    PositionsRise(n, p, q);
    var i, j := Lower(n, p), Lower(n, q);
    if i == j {
      var slope := ordered[Upper(n, p)] - ordered[i];
      var f, g := Position(n, p) - i as real, Position(n, q) - i as real;
      SlopeRises(slope, f, g);
      assert Interpolated(ordered, p) == ordered[i] + slope * f;
      assert Interpolated(ordered, q) == ordered[i] + slope * g;
    } else {
      BetweenNeighbours(ordered, p);
      BetweenNeighbours(ordered, q);
    }
  }

  lemma PercentilesAreOrdered(values: seq<real>, p: real, q: real)
    requires values != [] && 0.0 <= p <= q <= 100.0
    ensures Percentile(values, p).value <= Percentile(values, q).value
  {
    SortedSorts(values);
    NeverFalls(Sorted(values), p, q);
  }

  lemma Uncons(s: seq<real>)
    requires s != []
    ensures multiset(s[1..]) == multiset(s) - multiset{s[0]}
  {
    assert s == [s[0]] + s[1..];
  }

  lemma HeadsAgree(s: seq<real>, t: seq<real>)
    requires Rising(s) && Rising(t) && multiset(s) == multiset(t) && s != []
    ensures t != [] && s[0] == t[0] && multiset(s[1..]) == multiset(t[1..])
  {
    assert s[0] in multiset(t);
    assert t[0] in multiset(s);
    Uncons(s);
    Uncons(t);
  }

  lemma {:induction false} RisingIsUnique(s: seq<real>, t: seq<real>)
    requires Rising(s) && Rising(t) && multiset(s) == multiset(t)
    ensures s == t
    decreases |s|
  {
    if s == [] {
      assert |multiset(t)| == |t|;
    } else {
      HeadsAgree(s, t);
      RisingIsUnique(s[1..], t[1..]);
      assert s == [s[0]] + s[1..] && t == [t[0]] + t[1..];
    }
  }

  /** The order the values arrive in does not matter. */
  lemma ArrivalOrderIsIrrelevant(values: seq<real>, others: seq<real>, p: real)
    requires multiset(values) == multiset(others) && 0.0 <= p <= 100.0
    ensures Percentile(values, p) == Percentile(others, p)
  {
    SortedSorts(values);
    SortedSorts(others);
    RisingIsUnique(Sorted(values), Sorted(others));
    assert |values| == |multiset(values)| && |others| == |multiset(others)|;
  }

  lemma FirstAndLast(ordered: seq<real>)
    requires ordered != [] && Rising(ordered)
    ensures Interpolated(ordered, 0.0) == ordered[0]
    ensures Interpolated(ordered, 100.0) == ordered[|ordered| - 1]
  {
    var n := |ordered|;
    assert Position(n, 0.0) == 0.0;
    assert Position(n, 100.0) == n as real - 1.0;
    BetweenNeighbours(ordered, 100.0);
    assert Lower(n, 100.0) == n - 1;
  }

  /** The two ends: the least value and the greatest. */
  lemma EndsAreTheExtremes(values: seq<real>)
    requires values != []
    ensures forall v :: v in values ==> Percentile(values, 0.0).value <= v <= Percentile(values, 100.0).value
    ensures Percentile(values, 0.0).value in values && Percentile(values, 100.0).value in values
  {
    SortedSorts(values);
    var ordered := Sorted(values);
    var n := |ordered|;
    FirstAndLast(ordered);
    SortedHolds(values, ordered[0]);
    SortedHolds(values, ordered[n - 1]);
    forall v | v in values ensures ordered[0] <= v <= ordered[n - 1] {
      SortedHolds(values, v);
    }
  }
}
