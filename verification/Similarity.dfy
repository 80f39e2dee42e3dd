/** The ratio `_scan` compares with: `difflib.SequenceMatcher(None, a, b, autojunk=False)`, as
    Python documents it. The longest common run is taken, the earliest in `a` and then in `b`,
    and what lies before it and after it is matched the same way. */
module Similarity {
  import opened WindowScan

  datatype Match = Match(i: nat, j: nat, k: nat)

  /** How far `a` from `i` and `b` from `j` agree. */
  function Run<T(==)>(a: seq<T>, b: seq<T>, i: nat, j: nat): (k: nat)
    requires i <= |a| && j <= |b|
    ensures i + k <= |a| && j + k <= |b|
    decreases |a| - i
  {
    if i < |a| && j < |b| && a[i] == b[j] then 1 + Run(a, b, i + 1, j + 1) else 0
  }

  /** The longest run of `a` from `i`, the earliest in `b` from `j` on. */
  function RowBest<T(==)>(a: seq<T>, b: seq<T>, i: nat, j: nat): (m: Match)
    requires i <= |a| && j <= |b|
    ensures m.i == i && j <= m.j <= |b| && m.k == Run(a, b, i, m.j)
    decreases |b| - j
  {
    if j == |b| then Match(i, j, 0)
    else
      var rest, k := RowBest(a, b, i, j + 1), Run(a, b, i, j);
      if k >= rest.k then Match(i, j, k) else rest
  }

  /** `find_longest_match`, from `i` on. */
  function Best<T(==)>(a: seq<T>, b: seq<T>, i: nat): (m: Match)
    requires i <= |a|
    ensures i <= m.i <= |a| && m.j <= |b| && m.k == Run(a, b, m.i, m.j)
    decreases |a| - i
  {
    if i == |a| then Match(i, |b|, 0)
    else
      var rest, row := Best(a, b, i + 1), RowBest(a, b, i, 0);
      if row.k >= rest.k then row else rest
  }

  /** The size of all matching blocks together. */
  function Matched<T(==)>(a: seq<T>, b: seq<T>): nat
    decreases |a|
  {
    var m := Best(a, b, 0);
    if m.k == 0 then 0 else Matched(a[..m.i], b[..m.j]) + m.k + Matched(a[m.i + m.k..], b[m.j + m.k..])
  }

  /** `2.0 * matches / length`, or 1 for two empty sequences. */
  function Share(matches: nat, length: nat): real {
    if length == 0 then 1.0 else 2.0 * matches as real / length as real
  }

  function InCommon<T(==)>(a: seq<T>, b: seq<T>): nat {
    |multiset(a) * multiset(b)|
  }

  function Least(m: nat, n: nat): nat {
    if m < n then m else n
  }

  /** The shapes of one search are all texts or all lists of lines. */
  function Ratio(a: Shape, b: Shape): real {
    if a.Text? && b.Text? then Share(Matched(a.text, b.text), |a.text| + |b.text|)
    else if a.Stripped? && b.Stripped? then Share(Matched(a.lines, b.lines), |a.lines| + |b.lines|)
    else 0.0
  }

  function QuickRatio(a: Shape, b: Shape): real {
    if a.Text? && b.Text? then Share(InCommon(a.text, b.text), |a.text| + |b.text|)
    else if a.Stripped? && b.Stripped? then Share(InCommon(a.lines, b.lines), |a.lines| + |b.lines|)
    else 0.0
  }

  function RealQuickRatio(a: Shape, b: Shape): real {
    if a.Text? && b.Text? then Share(Least(|a.text|, |b.text|), |a.text| + |b.text|)
    else if a.Stripped? && b.Stripped? then Share(Least(|a.lines|, |b.lines|), |a.lines| + |b.lines|)
    else 0.0
  }

  function SequenceMatcher(): Difflib {
    Difflib(Ratio, QuickRatio, RealQuickRatio)
  }

  // ---- the longest run --------------------------------------------------------------------

  ghost predicate Common<T>(a: seq<T>, b: seq<T>, i: nat, j: nat, k: nat) {
    i + k <= |a| && j + k <= |b| && a[i..i + k] == b[j..j + k]
  }

  lemma CommonStep<T>(a: seq<T>, b: seq<T>, i: nat, j: nat, k: nat)
    requires i < |a| && j < |b|
    ensures Common(a, b, i, j, k + 1) <==> a[i] == b[j] && Common(a, b, i + 1, j + 1, k)
  {
    if i + k + 1 <= |a| && j + k + 1 <= |b| {
      assert a[i..i + (k + 1)] == [a[i]] + a[i + 1..i + 1 + k];
      assert b[j..j + (k + 1)] == [b[j]] + b[j + 1..j + 1 + k];
    }
  }

  lemma {:induction false} RunIsCommon<T>(a: seq<T>, b: seq<T>, i: nat, j: nat)
    requires i <= |a| && j <= |b|
    ensures Common(a, b, i, j, Run(a, b, i, j))
    decreases |a| - i
  {
    if i < |a| && j < |b| && a[i] == b[j] {
      RunIsCommon(a, b, i + 1, j + 1);
      CommonStep(a, b, i, j, Run(a, b, i + 1, j + 1));
    }
  }

  lemma {:induction false} RunIsLongest<T>(a: seq<T>, b: seq<T>, i: nat, j: nat, k: nat)
    requires i <= |a| && j <= |b| && Common(a, b, i, j, k)
    ensures k <= Run(a, b, i, j)
    decreases k
  {
    if k == 0 {
    } else {
      CommonStep(a, b, i, j, k - 1);
      RunIsLongest(a, b, i + 1, j + 1, k - 1);
    }
  }

  lemma {:induction false} RowBestLeads<T>(a: seq<T>, b: seq<T>, i: nat, j: nat, y: nat)
    requires i <= |a| && j <= y < |b|
    ensures var m := RowBest(a, b, i, j); Run(a, b, i, y) < m.k || (Run(a, b, i, y) == m.k && m.j <= y)
    decreases |b| - j
  {
    if j == y {
    } else {
      RowBestLeads(a, b, i, j + 1, y);
    }
  }

  lemma {:induction false} BestLeads<T>(a: seq<T>, b: seq<T>, i: nat, x: nat, y: nat)
    requires i <= x < |a| && y < |b|
    ensures var m := Best(a, b, i);
            Run(a, b, x, y) < m.k || (Run(a, b, x, y) == m.k && (m.i < x || (m.i == x && m.j <= y)))
    decreases |a| - i
  {
    if i == x {
      RowBestLeads(a, b, i, 0, y);
    } else {
      BestLeads(a, b, i + 1, x, y);
    }
  }

  /** The match taken is a common run, no common run is longer, and among the longest none starts
      earlier in `a`, nor at the same place of `a` earlier in `b`. */
  lemma BestIsLongest<T>(a: seq<T>, b: seq<T>, x: nat, y: nat, k: nat)
    requires Common(a, b, x, y, k) && k > 0
    ensures var m := Best(a, b, 0);
            Common(a, b, m.i, m.j, m.k) && (k < m.k || (k == m.k && (m.i < x || (m.i == x && m.j <= y))))
  {
    var m := Best(a, b, 0);
    RunIsCommon(a, b, m.i, m.j);
    RunIsLongest(a, b, x, y, k);
    BestLeads(a, b, 0, x, y);
  }

  // ---- its cheap upper bounds -------------------------------------------------------------

  /** What lies around the match taken. */
  datatype Parts<T> = Parts(run: seq<T>, al: seq<T>, ar: seq<T>, bl: seq<T>, br: seq<T>)
  {
    ghost predicate Of(a: seq<T>, b: seq<T>) {
      run != [] && a == al + run + ar && b == bl + run + br
    }
  }

  function Around<T>(a: seq<T>, b: seq<T>, m: Match): Parts<T>
    requires m.i + m.k <= |a| && m.j + m.k <= |b|
  {
    Parts(a[m.i..m.i + m.k], a[..m.i], a[m.i + m.k..], b[..m.j], b[m.j + m.k..])
  }

  lemma Cut<T>(s: seq<T>, i: nat, k: nat)
    requires i + k <= |s|
    ensures s == s[..i] + s[i..i + k] + s[i + k..]
  {
  }

  lemma AroundIsAll<T>(a: seq<T>, b: seq<T>, m: Match)
    requires Common(a, b, m.i, m.j, m.k) && m.k > 0
    ensures Around(a, b, m).Of(a, b)
  {
    Cut(a, m.i, m.k);
    Cut(b, m.j, m.k);
  }

  lemma MatchedParts<T>(a: seq<T>, b: seq<T>) returns (p: Parts<T>)
    requires Matched(a, b) > 0
    ensures p.Of(a, b) && Matched(a, b) == Matched(p.al, p.bl) + |p.run| + Matched(p.ar, p.br)
  {
    var m := Best(a, b, 0);
    RunIsCommon(a, b, m.i, m.j);
    AroundIsAll(a, b, m);
    p := Around(a, b, m);
  }

  lemma CommonParts<T>(a: multiset<T>, b: multiset<T>, l: multiset<T>, r: multiset<T>, c: multiset<T>, d: multiset<T>,
                       run: multiset<T>)
    requires a == l + run + r && b == c + run + d
    ensures |l * c| + |run| + |r * d| <= |a * b|
  {
    var parts := l * c + run + r * d;
    assert parts <= a * b;
    assert |a * b - parts| + |parts| == |a * b|;
  }

  lemma PartsInCommon<T>(p: Parts<T>, a: seq<T>, b: seq<T>)
    requires p.Of(a, b)
    ensures InCommon(p.al, p.bl) + |p.run| + InCommon(p.ar, p.br) <= InCommon(a, b)
  {
    CommonParts(multiset(a), multiset(b), multiset(p.al), multiset(p.ar), multiset(p.bl), multiset(p.br),
                multiset(p.run));
    assert |multiset(p.run)| == |p.run|;
  }

  lemma {:induction false} MatchedIsInCommon<T>(a: seq<T>, b: seq<T>)
    ensures Matched(a, b) <= InCommon(a, b)
    decreases |a|
  {
    if Matched(a, b) == 0 {
    } else {
      var p := MatchedParts(a, b);
      MatchedIsInCommon(p.al, p.bl);
      MatchedIsInCommon(p.ar, p.br);
      PartsInCommon(p, a, b);
    }
  }

  lemma {:induction false} MatchedIsShort<T>(a: seq<T>, b: seq<T>)
    ensures Matched(a, b) <= Least(|a|, |b|)
    decreases |a|
  {
    if Matched(a, b) == 0 {
    } else {
      var p := MatchedParts(a, b);
      MatchedIsShort(p.al, p.bl);
      MatchedIsShort(p.ar, p.br);
    }
  }

  lemma ShareRises(m: nat, n: nat, length: nat)
    requires m <= n
    ensures Share(m, length) <= Share(n, length)
  {
    if length > 0 {
      assert 2.0 * m as real <= 2.0 * n as real;
    }
  }

  lemma BoundsHold<T>(a: seq<T>, b: seq<T>)
    ensures Share(Matched(a, b), |a| + |b|) <= Share(InCommon(a, b), |a| + |b|)
    ensures Share(Matched(a, b), |a| + |b|) <= Share(Least(|a|, |b|), |a| + |b|)
  {
    MatchedIsInCommon(a, b);
    MatchedIsShort(a, b);
    ShareRises(Matched(a, b), InCommon(a, b), |a| + |b|);
    ShareRises(Matched(a, b), Least(|a|, |b|), |a| + |b|);
  }

  /** difflib's two quick ratios bound its ratio from above, as `_scan` relies on. */
  lemma QuickRatiosBound()
    ensures UpperBounds(SequenceMatcher())
  {
    forall a: Shape, b: Shape ensures Ratio(a, b) <= QuickRatio(a, b) && Ratio(a, b) <= RealQuickRatio(a, b) {
      if a.Text? && b.Text? {
        BoundsHold(a.text, b.text);
      } else if a.Stripped? && b.Stripped? {
        BoundsHold(a.lines, b.lines);
      }
    }
  }

  // ---- a common beginning -----------------------------------------------------------------

  ghost predicate Apart<T>(a: seq<T>, b: seq<T>) {
    forall x :: x in a ==> x !in b
  }

  lemma CommonShares<T>(a: seq<T>, b: seq<T>, i: nat, j: nat, k: nat, x: nat)
    requires Common(a, b, i, j, k) && i <= x < i + k
    ensures a[x] in b
  {
    assert a[x] == a[i..i + k][x - i] == b[j..j + k][x - i] == b[j + x - i];
  }

  lemma NothingInCommon<T>(a: seq<T>, b: seq<T>, i: nat, j: nat, k: nat)
    requires Common(a, b, i, j, k)
    ensures Apart(a, b) ==> k == 0
  {
    if k > 0 {
      CommonShares(a, b, i, j, k, i);
      assert a[i] in a;
    }
  }

  lemma ApartMatchesNothing<T>(a: seq<T>, b: seq<T>)
    requires Apart(a, b)
    ensures Matched(a, b) == 0
  {
    var m := Best(a, b, 0);
    RunIsCommon(a, b, m.i, m.j);
    NothingInCommon(a, b, m.i, m.j, m.k);
  }

  lemma RunStaysBefore<T>(p: seq<T>, x: seq<T>, b: seq<T>, i: nat, j: nat, k: nat)
    requires Common(p + x, b, i, j, k) && k > 0
    ensures Apart(x, b) ==> i + k <= |p|
  {
    if i + k > |p| {
      CommonShares(p + x, b, i, j, k, i + k - 1);
      assert (p + x)[i + k - 1] == x[i + k - 1 - |p|];
      assert x[i + k - 1 - |p|] in x;
    }
  }

  /** A text that begins like another and then goes on in characters of its own matches it there
      and nowhere else. */
  lemma CommonBeginning<T>(p: seq<T>, x: seq<T>, y: seq<T>)
    requires p != [] && Apart(x, p + y)
    ensures Matched(p + x, p + y) == |p|
  {
    var a, b := p + x, p + y;
    assert a[0..0 + |p|] == p == b[0..0 + |p|];
    BestIsLongest(a, b, 0, 0, |p|);
    var m := Best(a, b, 0);
    RunStaysBefore(p, x, b, m.i, m.j, m.k);
    assert m == Match(0, 0, |p|);
    assert a[..0] == [] && b[..0] == [] && a[|p|..] == x && b[|p|..] == y;
    ApartMatchesNothing(x, y);
    ApartMatchesNothing<T>([], []);
  }
}
