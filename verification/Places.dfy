/** From scored windows to places (`_spots`) and to an answer (`_choose`): the greedy choice
    dominates every window it passed over, and the rising floor of `_scan` cannot change it. */
module Places {
  import opened Sorting
  import opened WindowScan

  /** The sort key `(-ratio, n != size, j)`, strictly smaller. */
  predicate Precedes(a: Spot, b: Spot, size: nat) {
    || a.ratio > b.ratio
    || (a.ratio == b.ratio && a.w.n == size && b.w.n != size)
    || (a.ratio == b.ratio && (a.w.n == size <==> b.w.n == size) && a.w.j < b.w.j)
  }

  function Key(size: nat): (Spot, Spot) -> bool {
    (a, b) => !Precedes(b, a, size)
  }

  predicate Clear(w: Window, chosen: seq<Spot>) {
    forall i :: 0 <= i < |chosen| ==> Disjoint(w, chosen[i].w)
  }

  /** The spots the greedy loop adds to `chosen`. */
  function Pick(s: seq<Spot>, chosen: seq<Spot>): seq<Spot> {
    if s == [] then []
    else if Clear(s[0].w, chosen) then [s[0]] + Pick(s[1..], chosen + [s[0]])
    else Pick(s[1..], chosen)
  }

  function Spots(scored: seq<Spot>, size: nat): seq<Spot> {
    Pick(Sort(scored, Key(size)), [])
  }

  function AtLeast(s: seq<Spot>, bar: real): seq<Spot> {
    if s == [] then [] else (if s[0].ratio >= bar then [s[0]] else []) + AtLeast(s[1..], bar)
  }

  /** What `_choose` reports: the best spot, and the others within TIE of it. */
  datatype Choice = Choice(best: Spot, rivals: seq<Spot>)

  lemma SpotsNonEmpty(scored: seq<Spot>, size: nat)
    requires scored != []
    ensures Spots(scored, size) != [] && Spots(scored, size)[0] == Sort(scored, Key(size))[0]
  {
    SortKeeps(scored, Key(size));
  }

  function Choose(scored: seq<Spot>, size: nat): Choice
    requires scored != []
  {
    SpotsNonEmpty(scored, size);
    var spots := Spots(scored, size);
    Choice(spots[0], AtLeast(spots[1..], spots[0].ratio - TIE))
  }

  /** `_spots`: the loop over the sorted windows. */
  method FindSpots(scored: seq<Spot>, size: nat) returns (chosen: seq<Spot>)
    ensures chosen == Spots(scored, size)
  {
    var sorted := Sort(scored, Key(size));
    chosen := [];
    assert sorted[0..] == sorted;
    for i := 0 to |sorted|
      invariant chosen + Pick(sorted[i..], chosen) == Spots(scored, size)
    {
      assert sorted[i..][1..] == sorted[i + 1..];
      if Clear(sorted[i].w, chosen) {
        assert chosen + ([sorted[i]] + Pick(sorted[i + 1..], chosen + [sorted[i]]))
            == chosen + [sorted[i]] + Pick(sorted[i + 1..], chosen + [sorted[i]]);
        chosen := chosen + [sorted[i]];
      }
    }
    assert chosen + [] == chosen;
  }

  // ---- sorting --------------------------------------------------------------------------

  ghost predicate Descending(s: seq<Spot>) {
    forall i, k :: 0 <= i < k < |s| ==> s[i].ratio >= s[k].ratio
  }

  /** A sorted list is free of inversions of the key. */
  ghost predicate InOrder(s: seq<Spot>, size: nat) {
    forall i, k :: 0 <= i < k < |s| ==> !Precedes(s[k], s[i], size)
  }

  lemma KeyIsOrder(size: nat)
    ensures TotalOrder(Key(size))
  {
  }

  lemma SortInOrder(s: seq<Spot>, size: nat)
    ensures InOrder(Sort(s, Key(size)), size) && Descending(Sort(s, Key(size)))
  {
    KeyIsOrder(size);
    SortAscends(s, Key(size));
    var r := Sort(s, Key(size));
    forall i, k | 0 <= i < k < |r| ensures !Precedes(r[k], r[i], size) {
      assert Key(size)(r[i], r[k]);
    }
  }

  /** The whole order of the places: at equal keys the shorter window, which is scanned first. */
  predicate Leads(a: Spot, b: Spot, size: nat) {
    Precedes(a, b, size) || (!Precedes(b, a, size) && a.w.n < b.w.n)
  }

  function FullKey(size: nat): (Spot, Spot) -> bool {
    (a, b) => !Leads(b, a, size)
  }

  /** Windows in the order of a scan: none is shorter than one before it. */
  ghost predicate Lengthening(s: seq<Spot>) {
    forall i, k :: 0 <= i < k < |s| ==> s[i].w.n <= s[k].w.n
  }

  lemma FullKeyIsOrder(size: nat)
    ensures TotalOrder(FullKey(size)) && Refines(FullKey(size), Key(size))
  {
  }

  lemma SortInFullOrder(s: seq<Spot>, size: nat)
    requires Lengthening(s)
    ensures Ascending(Sort(s, Key(size)), FullKey(size))
  {
    KeyIsOrder(size);
    FullKeyIsOrder(size);
    SortIsStable(s, Key(size), FullKey(size));
  }

  // ---- the greedy choice ----------------------------------------------------------------

  ghost predicate PairwiseDisjoint(s: seq<Spot>) {
    forall i, k :: 0 <= i < k < |s| ==> Disjoint(s[i].w, s[k].w)
  }

  lemma {:induction false} PickDisjoint(s: seq<Spot>, chosen: seq<Spot>)
    requires PairwiseDisjoint(chosen)
    ensures PairwiseDisjoint(chosen + Pick(s, chosen))
    ensures forall x :: x in Pick(s, chosen) ==> x in s
  {
    if s == [] {
    } else {
      if Clear(s[0].w, chosen) {
        PickDisjoint(s[1..], chosen + [s[0]]);
        assert chosen + ([s[0]] + Pick(s[1..], chosen + [s[0]])) == chosen + [s[0]] + Pick(s[1..], chosen + [s[0]]);
      } else {
        PickDisjoint(s[1..], chosen);
      }
    }
  }

  /** `c` stands for `x`: it is `x`, or overlaps it and scores at least as much. */
  predicate Covers(c: Spot, x: Spot) {
    c.ratio >= x.ratio && (c == x || !Disjoint(x.w, c.w))
  }

  lemma {:induction false} PickCovers(s: seq<Spot>, chosen: seq<Spot>, x: Spot) returns (c: Spot)
    requires x in s && Descending(s)
    requires forall y, z :: y in chosen && z in s ==> y.ratio >= z.ratio
    ensures (c in chosen || c in Pick(s, chosen)) && Covers(c, x)
  {
    if x == s[0] {
      if Clear(s[0].w, chosen) {
        c := s[0];
      } else {
        var i :| 0 <= i < |chosen| && !Disjoint(x.w, chosen[i].w);
        c := chosen[i];
      }
    } else {
      assert x in s[1..];
      c := PickCovers(s[1..], if Clear(s[0].w, chosen) then chosen + [s[0]] else chosen, x);
    }
  }

  /** `_spots` returns places that do not overlap, best first, and no scored window is
      passed over without overlapping a chosen one that scores at least as much. */
  lemma GreedyDominates(scored: seq<Spot>, size: nat)
    ensures var spots := Spots(scored, size);
            && PairwiseDisjoint(spots)
            && (forall c :: c in spots ==> c in scored)
            && (forall x :: x in scored ==> exists c :: c in spots && Covers(c, x))
  {
    var sorted := Sort(scored, Key(size));
    SortInOrder(scored, size);
    PickDisjoint(sorted, []);
    assert [] + Spots(scored, size) == Spots(scored, size);
    forall x | x in scored ensures exists c :: c in Spots(scored, size) && Covers(c, x) {
      SortIn(scored, Key(size), x);
      var c := PickCovers(sorted, [], x);
    }
    forall c | c in Spots(scored, size) ensures c in scored {
      SortIn(scored, Key(size), c);
    }
  }

  lemma {:induction false} AtLeastIn(s: seq<Spot>, bar: real, x: Spot)
    ensures x in AtLeast(s, bar) <==> x in s && x.ratio >= bar
  {
    if s == [] {
    } else {
      AtLeastIn(s[1..], bar, x);
      assert s == [s[0]] + s[1..];
    }
  }

  /** The answer is a best of all scored windows; at equal ratios one of the cited length,
      then the earliest. */
  lemma ChooseTakesTheBest(scored: seq<Spot>, size: nat)
    requires scored != []
    ensures var best := Choose(scored, size).best;
            best in scored && forall x :: x in scored ==> !Precedes(x, best, size)
  {
    var best := Choose(scored, size).best;
    var sorted := Sort(scored, Key(size));
    SpotsNonEmpty(scored, size);
    SortInOrder(scored, size);
    assert best == sorted[0];
    SortIn(scored, Key(size), best);
    forall x | x in scored ensures !Precedes(x, best, size) {
      SortIn(scored, Key(size), x);
      var k :| 0 <= k < |sorted| && sorted[k] == x;
    }
  }

  /** Of windows in the order of a scan the answer leads all others. */
  lemma ChooseTakesTheLead(scored: seq<Spot>, size: nat)
    requires scored != [] && Lengthening(scored)
    ensures forall x :: x in scored ==> !Leads(x, Choose(scored, size).best, size)
  {
    var best := Choose(scored, size).best;
    var sorted := Sort(scored, Key(size));
    SpotsNonEmpty(scored, size);
    SortInFullOrder(scored, size);
    forall x | x in scored ensures !Leads(x, best, size) {
      SortIn(scored, Key(size), x);
      var k :| 0 <= k < |sorted| && sorted[k] == x;
      assert k == 0 || FullKey(size)(sorted[0], sorted[k]);
    }
  }

  lemma RivalIsAway(scored: seq<Spot>, size: nat) returns (x: Spot)
    requires scored != [] && Choose(scored, size).rivals != []
    ensures var best := Choose(scored, size).best;
            x in scored && Disjoint(x.w, best.w) && x.ratio >= best.ratio - TIE
  {
    var spots, c := Spots(scored, size), Choose(scored, size);
    x := c.rivals[0];
    GreedyDominates(scored, size);
    AtLeastIn(spots[1..], c.best.ratio - TIE, x);
    var k :| 1 <= k < |spots| && spots[k] == x;
    assert Disjoint(spots[0].w, spots[k].w);
  }

  lemma OtherCover(spots: seq<Spot>, x: Spot, y: Spot, bar: real)
    requires y in spots && Covers(y, x) && x.w.n > 0 && Disjoint(x.w, spots[0].w) && x.ratio >= bar
    ensures AtLeast(spots[1..], bar) != []
  {
    var k :| 0 <= k < |spots| && spots[k] == y;
    assert y != spots[0];
    assert y == spots[1..][k - 1];
    AtLeastIn(spots[1..], bar, y);
  }

  lemma CoveredBy(scored: seq<Spot>, size: nat, x: Spot) returns (y: Spot)
    requires x in scored
    ensures y in Spots(scored, size) && Covers(y, x)
  {
    GreedyDominates(scored, size);
    y :| y in Spots(scored, size) && Covers(y, x);
  }

  lemma AwayHasARival(scored: seq<Spot>, size: nat, x: Spot)
    requires x in scored && x.w.n > 0 && Disjoint(x.w, Choose(scored, size).best.w)
    requires x.ratio >= Choose(scored, size).best.ratio - TIE
    ensures Choose(scored, size).rivals != []
  {
    var y := CoveredBy(scored, size, x);
    OtherCover(Spots(scored, size), x, y, Choose(scored, size).best.ratio - TIE);
  }

  /** `_choose` sees no rival exactly when every scored window away from its best falls more
      than TIE short of it. */
  lemma ChooseIsDecisive(scored: seq<Spot>, size: nat)
    requires scored != [] && forall x :: x in scored ==> x.w.n > 0
    ensures var c := Choose(scored, size);
            c.rivals == [] <==>
            forall x :: x in scored && Disjoint(x.w, c.best.w) ==> x.ratio < c.best.ratio - TIE
  {
    var c := Choose(scored, size);
    if c.rivals != [] {
      var x := RivalIsAway(scored, size);
    } else {
      forall x | x in scored && Disjoint(x.w, c.best.w) ensures x.ratio < c.best.ratio - TIE {
        if x.ratio >= c.best.ratio - TIE {
          AwayHasARival(scored, size, x);
        }
      }
    }
  }

  // ---- the rising floor -----------------------------------------------------------------

  lemma HeadSurvives(s: seq<Spot>, size: nat, bar: real)
    requires InOrder(s, size) && AtLeast(s, bar) != []
    ensures s[0].ratio >= bar
  {
    var x := AtLeast(s, bar)[0];
    AtLeastIn(s, bar, x);
    var k :| 0 <= k < |s| && s[k] == x;
    assert k == 0 || !Precedes(s[k], s[0], size);
  }

  lemma AtLeastHead(x: Spot, s: seq<Spot>, bar: real)
    ensures AtLeast([x] + s, bar) == (if x.ratio >= bar then [x] else []) + AtLeast(s, bar)
  {
    assert ([x] + s)[1..] == s;
  }

  lemma {:induction false} InsertAtLeast(x: Spot, s: seq<Spot>, size: nat, bar: real)
    requires InOrder(s, size)
    ensures AtLeast(Insert(x, s, Key(size)), bar) ==
            if x.ratio >= bar then Insert(x, AtLeast(s, bar), Key(size)) else AtLeast(s, bar)
  {
    if s == [] || Key(size)(x, s[0]) {
      AtLeastHead(x, s, bar);
      if x.ratio >= bar && AtLeast(s, bar) != [] {
        HeadSurvives(s, size, bar);
      }
    } else {
      InsertAtLeast(x, s[1..], size, bar);
      AtLeastHead(s[0], Insert(x, s[1..], Key(size)), bar);
    }
  }

  lemma {:induction false} SortAtLeast(s: seq<Spot>, size: nat, bar: real)
    ensures AtLeast(Sort(s, Key(size)), bar) == Sort(AtLeast(s, bar), Key(size))
  {
    if s == [] {
    } else {
      SortAtLeast(s[1..], size, bar);
      SortInOrder(s[1..], size);
      InsertAtLeast(s[0], Sort(s[1..], Key(size)), size, bar);
      if s[0].ratio >= bar {
        assert AtLeast(s, bar)[1..] == AtLeast(s[1..], bar);
      } else {
        assert AtLeast(s, bar) == AtLeast(s[1..], bar);
      }
    }
  }

  lemma {:induction false} NoneAtLeast(s: seq<Spot>, bar: real)
    requires forall x :: x in s ==> x.ratio < bar
    ensures AtLeast(s, bar) == []
  {
    if AtLeast(s, bar) != [] {
      AtLeastIn(s, bar, AtLeast(s, bar)[0]);
    }
  }

  lemma {:induction false} PickIn(s: seq<Spot>, chosen: seq<Spot>, x: Spot)
    requires x in Pick(s, chosen)
    ensures x in s
  {
    if x != s[0] || !Clear(s[0].w, chosen) {
      PickIn(s[1..], if Clear(s[0].w, chosen) then chosen + [s[0]] else chosen, x);
    }
  }

  lemma {:induction false} PickAtLeast(s: seq<Spot>, chosen: seq<Spot>, bar: real)
    requires Descending(s)
    ensures AtLeast(Pick(s, chosen), bar) == Pick(AtLeast(s, bar), chosen)
  {
    if s == [] {
    } else {
      if s[0].ratio < bar {
        forall x | x in Pick(s, chosen) ensures x.ratio < bar {
          PickIn(s, chosen, x);
        }
        NoneAtLeast(Pick(s, chosen), bar);
        NoneAtLeast(s, bar);
      } else {
        assert AtLeast(s, bar)[1..] == AtLeast(s[1..], bar);
        if Clear(s[0].w, chosen) {
          PickAtLeast(s[1..], chosen + [s[0]], bar);
          assert Pick(s, chosen)[1..] == Pick(s[1..], chosen + [s[0]]);
        } else {
          PickAtLeast(s[1..], chosen, bar);
        }
      }
    }
  }

  /** The places that score at least `bar` depend only on the windows that do. */
  lemma SpotsAtLeast(scored: seq<Spot>, size: nat, bar: real)
    ensures AtLeast(Spots(scored, size), bar) == Spots(AtLeast(scored, bar), size)
  {
    SortInOrder(scored, size);
    PickAtLeast(Sort(scored, Key(size)), [], bar);
    SortAtLeast(scored, size, bar);
  }

  lemma Regroup(a: seq<Spot>, b: seq<Spot>, c: seq<Spot>)
    ensures (a + b) + c == a + (b + c)
  {
  }

  lemma {:induction false} AppendAtLeast(a: seq<Spot>, b: seq<Spot>, bar: real)
    ensures AtLeast(a + b, bar) == AtLeast(a, bar) + AtLeast(b, bar)
  {
    if a == [] {
      assert a + b == b;
      assert AtLeast(a, bar) + AtLeast(b, bar) == AtLeast(b, bar);
    } else {
      var x, rest := a[0], a[1..];
      assert a == [x] + rest;
      AppendAtLeast(rest, b, bar);
      Regroup([x], rest, b);
      AtLeastHead(x, rest + b, bar);
      AtLeastHead(x, rest, bar);
      Regroup(if x.ratio >= bar then [x] else [], AtLeast(rest, bar), AtLeast(b, bar));
    }
  }

  lemma HitAtLeast(s: Search, w: Window, floor: real, best: real)
    requires CUTOFF <= floor && (floor == CUTOFF || floor <= best - TIE)
    ensures AtLeast(Hit(s, w, floor), best - TIE) == AtLeast(Hit(s, w, CUTOFF), best - TIE)
  {
    var x := Spot(s.Score(w), w);
    AtLeastHead(x, [], best - TIE);
    assert [x] + [] == [x];
  }

  lemma JoinAtLeast(a: seq<Spot>, b: seq<Spot>, c: seq<Spot>, d: seq<Spot>, bar: real)
    requires AtLeast(a, bar) == AtLeast(c, bar) && AtLeast(b, bar) == AtLeast(d, bar)
    ensures AtLeast(a + b, bar) == AtLeast(c + d, bar)
  {
    AppendAtLeast(a, b, bar);
    AppendAtLeast(c, d, bar);
  }

  /** With `best` the highest ratio that counts, the rising floor drops nothing within TIE of it. */
  lemma {:induction false} PassAtLeast(s: Search, ws: seq<Window>, floor: real, best: real)
    requires CUTOFF <= floor && (floor == CUTOFF || floor <= best - TIE)
    requires forall w :: w in ws && s.Admits(w) && s.Score(w) >= CUTOFF ==> s.Score(w) <= best
    ensures AtLeast(Pass(s, ws, floor, true), best - TIE) == AtLeast(Pass(s, ws, CUTOFF, false), best - TIE)
  {
    if ws == [] {
    } else {
      var w, up := ws[0], Raised(s, ws[0], floor, true);
      PassAtLeast(s, ws[1..], up, best);
      HitAtLeast(s, w, floor, best);
      JoinAtLeast(Hit(s, w, floor), Pass(s, ws[1..], up, true),
                  Hit(s, w, CUTOFF), Pass(s, ws[1..], CUTOFF, false), best - TIE);
    }
  }

  /** Every window tried and admitted that reaches the cutoff is scored, and no other. */
  lemma {:induction false} PassFinds(s: Search, ws: seq<Window>, x: Spot)
    ensures x in Pass(s, ws, CUTOFF, false) <==>
            x.w in ws && s.Admits(x.w) && x.ratio == s.Score(x.w) && x.ratio >= CUTOFF
  {
    if ws == [] {
    } else {
      PassFinds(s, ws[1..], x);
      assert ws == [ws[0]] + ws[1..];
      assert x in Hit(s, ws[0], CUTOFF) <==>
             x.w == ws[0] && s.Admits(x.w) && x.ratio == s.Score(x.w) && x.ratio >= CUTOFF;
    }
  }

  lemma ChooseFromTies(scored: seq<Spot>, size: nat, best: real)
    requires scored != [] && Choose(scored, size).best.ratio == best
    ensures var spots := Spots(AtLeast(scored, best - TIE), size);
            spots != [] && Choose(scored, size) == Choice(spots[0], spots[1..])
  {
    var spots := Spots(scored, size);
    SpotsAtLeast(scored, size, best - TIE);
    assert AtLeast(spots, best - TIE) == [spots[0]] + AtLeast(spots[1..], best - TIE);
  }

  lemma {:induction false} PassNone(s: Search, ws: seq<Window>)
    requires forall w :: w in ws ==> !(s.Admits(w) && s.Score(w) >= CUTOFF)
    ensures Pass(s, ws, CUTOFF, true) == []
  {
    if ws == [] {
    } else {
      PassNone(s, ws[1..]);
    }
  }

  /** What a pruned pass scores, the full pass scores too. */
  lemma {:induction false} PassSound(s: Search, ws: seq<Window>, floor: real, x: Spot)
    requires CUTOFF <= floor && x in Pass(s, ws, floor, true)
    ensures x in Pass(s, ws, CUTOFF, false)
  {
    if x !in Hit(s, ws[0], floor) {
      PassSound(s, ws[1..], Raised(s, ws[0], floor, true), x);
    }
  }

  lemma PrunedBest(s: Search, full: seq<Spot>, pruned: seq<Spot>, best: real)
    requires s.Valid() && full == Scored(s, false) && pruned == Scored(s, true) && full != []
    requires best == Choose(full, |s.block|).best.ratio
    requires AtLeast(pruned, best - TIE) == AtLeast(full, best - TIE)
    ensures pruned != [] && Choose(pruned, |s.block|).best.ratio == best
  {
    var ws, size := s.Windows(), |s.block|;
    forall x | x in pruned ensures x in full { PassSound(s, ws, CUTOFF, x); }
    ChooseTakesTheBest(full, size);
    var top := Choose(full, size).best;
    AtLeastIn(full, best - TIE, top);
    AtLeastIn(pruned, best - TIE, top);
    ChooseTakesTheBest(pruned, size);
  }

  /** The pruned scan is exact: `_choose` cannot tell it from a scan of every window. */
  lemma PrunedScanIsExact(s: Search)
    requires s.Valid()
    ensures Scored(s, true) == [] <==> Scored(s, false) == []
    ensures Scored(s, false) != [] ==> Choose(Scored(s, true), |s.block|) == Choose(Scored(s, false), |s.block|)
  {
    var ws, size := s.Windows(), |s.block|;
    var full, pruned := Scored(s, false), Scored(s, true);
    if full == [] {
      forall w | w in ws ensures !(s.Admits(w) && s.Score(w) >= CUTOFF) {
        PassFinds(s, ws, Spot(s.Score(w), w));
      }
      PassNone(s, ws);
    } else {
      ChooseTakesTheBest(full, size);
      var best := Choose(full, size).best.ratio;
      forall w | w in ws && s.Admits(w) && s.Score(w) >= CUTOFF ensures s.Score(w) <= best {
        PassFinds(s, ws, Spot(s.Score(w), w));
      }
      PassAtLeast(s, ws, CUTOFF, best);
      assert AtLeast(pruned, best - TIE) == AtLeast(full, best - TIE);
      PrunedBest(s, full, pruned, best);
      ChooseFromTies(full, size, best);
      ChooseFromTies(pruned, size, best);
    }
  }

  // ---- in terms of windows --------------------------------------------------------------

  lemma {:induction false} RowIs(s: Search, length: nat, j: nat, w: Window)
    requires s.Valid() && s.lo <= j <= s.LastStart(length) + 1
    ensures w in s.Row(length, j) <==> j <= w.j <= s.LastStart(length) && w == s.At(length, w.j)
    decreases s.LastStart(length) + 1 - j
  {
    if j > s.LastStart(length) {
    } else {
      RowIs(s, length, j + 1, w);
    }
  }

  lemma {:induction false} RowsAre(s: Search, lengths: seq<nat>, w: Window)
    requires s.Valid()
    ensures w in s.Rows(lengths) <==> exists l :: l in lengths && w in s.Row(l, s.lo)
  {
    if lengths == [] {
    } else {
      RowsAre(s, lengths[1..], w);
      assert lengths == [lengths[0]] + lengths[1..];
      assert w in s.Rows(lengths) <==> w in s.Row(lengths[0], s.lo) || w in s.Rows(lengths[1..]);
      if l :| l in lengths && w in s.Row(l, s.lo) {
        assert l == lengths[0] || l in lengths[1..];
      }
    }
  }

  /** The loops try exactly the windows that `Tried` describes. */
  lemma WindowsAreTried(s: Search, w: Window)
    requires s.Valid()
    ensures w in s.Windows() <==> s.Tried(w)
  {
    var lengths := s.Lengths();
    RowsAre(s, lengths, w);
    forall l | l in lengths { RowIs(s, l, s.lo, w); }
    if s.Tried(w) {
      if w.n in lengths {
        assert w in s.Row(w.n, s.lo);
      } else {
        var l :| l in lengths && s.hi - s.lo < l;
        assert w in s.Row(l, s.lo);
      }
    }
  }

  lemma ScoredIs(s: Search, x: Spot)
    requires s.Valid()
    ensures x in Scored(s, false) <==>
            s.Tried(x.w) && s.Admits(x.w) && x.ratio == s.Score(x.w) && x.ratio >= CUTOFF
  {
    PassFinds(s, s.Windows(), x);
    WindowsAreTried(s, x.w);
  }

  /** The pruned answer, said without loops, floors or lists: nothing scores above it, and it
      stands alone exactly when every window elsewhere that reaches the cutoff is more than
      TIE below. */
  lemma AnswerStandsOut(s: Search)
    requires s.Valid() && Scored(s, true) != []
    ensures var c := Choose(Scored(s, true), |s.block|);
            && s.Tried(c.best.w) && s.Admits(c.best.w) && c.best.ratio == s.Score(c.best.w) >= CUTOFF
            && (forall w :: s.Tried(w) && s.Admits(w) ==> s.Score(w) <= c.best.ratio)
            && (c.rivals == [] <==>
                forall w :: s.Tried(w) && s.Admits(w) && Disjoint(w, c.best.w) && s.Score(w) >= CUTOFF
                            ==> s.Score(w) < c.best.ratio - TIE)
  {
    PrunedScanIsExact(s);
    var full := Scored(s, false);
    var c := Choose(full, |s.block|);
    forall x ensures x in full <==> s.Tried(x.w) && s.Admits(x.w) && x.ratio == s.Score(x.w) && x.ratio >= CUTOFF {
      ScoredIs(s, x);
    }
    ChooseTakesTheBest(full, |s.block|);
    ChooseIsDecisive(full, |s.block|);
    forall w | s.Tried(w) && s.Admits(w) && s.Score(w) >= CUTOFF
      ensures s.Score(w) <= c.best.ratio
      ensures c.rivals == [] && Disjoint(w, c.best.w) ==> s.Score(w) < c.best.ratio - TIE
    {
      assert Spot(s.Score(w), w) in full;
    }
  }

  // ---- the window that leads ------------------------------------------------------------

  /** The window resembles the block: it is tried, admitted and reaches the cutoff. */
  predicate Resembles(s: Search, w: Window)
    requires s.Valid()
  {
    s.Tried(w) && s.Admits(w) && s.Score(w) >= CUTOFF
  }

  predicate Anywhere(w: Window) { true }

  function SpotAt(s: Search, w: Window): Spot {
    Spot(s.Score(w), w)
  }

  /** `w` leads the places that resemble the block and fit. */
  ghost predicate IsLead(s: Search, fit: Window -> bool, w: Window)
    requires s.Valid()
  {
    && Resembles(s, w) && fit(w)
    && forall v :: Resembles(s, v) && fit(v) ==> !Leads(SpotAt(s, v), SpotAt(s, w), |s.block|)
  }

  lemma LeadIsUnique(s: Search, fit: Window -> bool, v: Window, w: Window)
    requires s.Valid() && IsLead(s, fit, v) && IsLead(s, fit, w)
    ensures v == w
  {
    assert !Leads(SpotAt(s, v), SpotAt(s, w), |s.block|) && !Leads(SpotAt(s, w), SpotAt(s, v), |s.block|);
  }

  ghost predicate Longer(ws: seq<Window>) {
    forall i, k :: 0 <= i < k < |ws| ==> ws[i].n <= ws[k].n
  }

  /** How long the windows of a row are: the row's length, or the whole stretch. */
  function RowWidth(s: Search, length: nat): nat
    requires s.Valid()
  {
    if s.lo + length <= s.hi then length else s.hi - s.lo
  }

  lemma RowHasWidth(s: Search, length: nat, w: Window)
    requires s.Valid() && w in s.Row(length, s.lo)
    ensures w.n == RowWidth(s, length)
  {
    RowIs(s, length, s.lo, w);
  }

  lemma {:induction false} RowsLengthen(s: Search, lengths: seq<nat>)
    requires s.Valid() && forall i, k :: 0 <= i < k < |lengths| ==> lengths[i] <= lengths[k]
    ensures Longer(s.Rows(lengths))
  {
    if lengths == [] {
    } else {
      var row, rest := s.Row(lengths[0], s.lo), s.Rows(lengths[1..]);
      RowsLengthen(s, lengths[1..]);
      forall k | 0 <= k < |row| ensures row[k].n == RowWidth(s, lengths[0]) {
        RowHasWidth(s, lengths[0], row[k]);
      }
      forall k | 0 <= k < |rest| ensures rest[k].n >= RowWidth(s, lengths[0]) {
        RowsAre(s, lengths[1..], rest[k]);
        var l :| l in lengths[1..] && rest[k] in s.Row(l, s.lo);
        RowHasWidth(s, l, rest[k]);
      }
    }
  }

  lemma {:induction false} PassIsOf(s: Search, ws: seq<Window>, floor: real, rising: bool, x: Spot)
    requires x in Pass(s, ws, floor, rising)
    ensures x.w in ws
  {
    if x in Hit(s, ws[0], floor) {
    } else {
      PassIsOf(s, ws[1..], Raised(s, ws[0], floor, rising), rising, x);
    }
  }

  lemma {:induction false} PassLengthens(s: Search, ws: seq<Window>, floor: real, rising: bool)
    requires Longer(ws)
    ensures Lengthening(Pass(s, ws, floor, rising))
  {
    if ws == [] {
    } else {
      var up := Raised(s, ws[0], floor, rising);
      var rest := Pass(s, ws[1..], up, rising);
      PassLengthens(s, ws[1..], up, rising);
      forall k | 0 <= k < |rest| ensures rest[k].w.n >= ws[0].n {
        PassIsOf(s, ws[1..], up, rising, rest[k]);
        var i :| 0 <= i < |ws[1..]| && ws[1..][i] == rest[k].w;
        assert ws[i + 1] == rest[k].w;
      }
    }
  }

  lemma ScoredLengthens(s: Search, rising: bool)
    requires s.Valid()
    ensures Lengthening(Scored(s, rising))
  {
    RowsLengthen(s, s.Lengths());
    PassLengthens(s, s.Windows(), CUTOFF, rising);
  }

  /** The answer, in terms of the input alone: the one window that leads all that resemble the
      block. */
  lemma AnswerIsLead(s: Search)
    requires s.Valid() && Scored(s, true) != []
    ensures var best := Choose(Scored(s, true), |s.block|).best;
            best == SpotAt(s, best.w) && IsLead(s, Anywhere, best.w)
  {
    PrunedScanIsExact(s);
    var full := Scored(s, false);
    var best := Choose(full, |s.block|).best;
    ChooseTakesTheBest(full, |s.block|);
    ScoredLengthens(s, false);
    ChooseTakesTheLead(full, |s.block|);
    ScoredIs(s, best);
    forall v | Resembles(s, v) ensures !Leads(SpotAt(s, v), best, |s.block|) {
      ScoredIs(s, SpotAt(s, v));
    }
  }
}
