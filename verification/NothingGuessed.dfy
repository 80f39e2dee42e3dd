/** What each answer of `classify` means: exact copies are reported or listed, never lost;
    a place is claimed only without a rival; every reported range lies in the file. */
module NothingGuessed {
  import opened Alignment
  import opened Citation
  import opened Lines
  import opened Places
  import opened Sorting
  import opened WindowScan
  import opened Wrappers

  predicate IsCopyKind(k: Kind) {
    k.Unchanged? || k.Moved?
  }

  predicate Inside(span: Span, current: seq<string>) {
    1 <= span.first <= span.last <= |current|
  }

  ghost predicate Rivals(s: Search, need: nat)
    requires s.Valid()
  {
    (need == 0 && s.hi - s.lo > MAX_REGION) || exists w :: Resembles(s, w)
  }

  /** Another place could be the cited text edited where it was: a window elsewhere that is
      flanked as well as the copy (fully, for a copy at the cited numbers), or, for a copy
      that kept no neighbour, a stretch too wide to search. */
  ghost predicate HasRival(c: Case, copy: nat)
    requires c.Valid()
  {
    Rivals(RivalSearch(c, copy), Need(c, copy))
  }

  ghost predicate FlankedCopy(c: Case, j: nat)
    requires c.Valid()
  {
    c.CopyAt(j) && FullyFlanked(c, j)
  }

  /** The only copy that both pinned neighbours still flank. */
  ghost predicate SoleCopy(c: Case, j: nat)
    requires c.Valid()
  {
    FlankedCopy(c, j) && forall k :: FlankedCopy(c, k) ==> k == j
  }

  /** When a copy may be reported as the place, said without the code's case order. */
  ghost predicate Placeable(c: Case, j: nat)
    requires c.Valid()
  {
    if c.pinned == c.current then j == c.start
    else
      || SoleCopy(c, j)
      || (c.CopyAt(j) && !FlankedCopy(c, j) && (forall k :: c.CopyAt(k) ==> k == j) && !HasRival(c, j))
  }

  // ---- lists -----------------------------------------------------------------------------

  lemma SortSpansIn(s: seq<Span>, y: Span)
    ensures y in SortSpans(s) <==> y in s
  {
    SortIn(s, SpanOrder(), y);
  }

  /** Candidates are listed from the top of the file down. */
  lemma SortSpansAscends(s: seq<Span>)
    ensures forall i, k :: 0 <= i < k < |SortSpans(s)| ==> NotAfter(SortSpans(s)[i], SortSpans(s)[k])
  {
    SortAscends(s, SpanOrder());
    forall i, k | 0 <= i < k < |SortSpans(s)| ensures NotAfter(SortSpans(s)[i], SortSpans(s)[k]) {
      assert SpanOrder()(SortSpans(s)[i], SortSpans(s)[k]);
    }
  }

  lemma {:induction false} KeepIn(s: seq<nat>, p: nat -> bool, j: nat)
    ensures j in Keep(s, p) <==> j in s && p(j)
  {
    if s == [] {
    } else {
      KeepIn(s[1..], p, j);
      assert s == [s[0]] + s[1..];
    }
  }

  ghost predicate AllDistinct(f: seq<nat>) {
    forall x, y :: 0 <= x < y < |f| ==> f[x] != f[y]
  }

  /** Filtering keeps distinct numbers distinct. */
  lemma {:induction false} KeepDistinct(s: seq<nat>, p: nat -> bool)
    requires forall x, y :: 0 <= x < y < |s| ==> s[x] < s[y]
    ensures AllDistinct(Keep(s, p))
  {
    if s == [] {
    } else {
      KeepDistinct(s[1..], p);
      var f := Keep(s[1..], p);
      forall y | 0 <= y < |f| ensures f[y] != s[0] {
        KeepIn(s[1..], p, f[y]);
      }
    }
  }

  lemma {:induction false} VouchedIn(c: Case, s: seq<Spot>, x: Spot)
    requires c.InPinned()
    ensures x in VouchedSpots(c, s) <==> x in s && Vouching(c, x.w) >= VOUCHED
  {
    if s == [] {
    } else {
      VouchedIn(c, s[1..], x);
      assert s == [s[0]] + s[1..];
    }
  }

  lemma {:induction false} CountInNothing(lines: seq<string>)
    ensures CountIn(lines, []) == 0
  {
    if lines == [] {
    } else {
      CountInNothing(lines[1..]);
    }
  }

  // ---- scanning --------------------------------------------------------------------------

  /** `_scan` finds nothing exactly when no window resembles the block. */
  lemma NothingScored(s: Search, rising: bool)
    requires s.Valid()
    ensures Scored(s, rising) == [] <==> forall w :: !Resembles(s, w)
  {
    PrunedScanIsExact(s);
    var full := Scored(s, false);
    if full == [] {
      forall w ensures !Resembles(s, w) {
        ScoredIs(s, Spot(s.Score(w), w));
      }
    } else {
      ScoredIs(s, full[0]);
      assert Resembles(s, full[0].w);
    }
  }

  lemma ScoredResembles(s: Search, rising: bool, x: Spot)
    requires s.Valid() && x in Scored(s, rising)
    ensures Resembles(s, x.w) && x.ratio == s.Score(x.w)
  {
    if rising {
      PassSound(s, s.Windows(), CUTOFF, x);
    }
    ScoredIs(s, x);
  }

  /** Spots within a stretch of the file give ranges inside the file. */
  ghost predicate Within(s: seq<Spot>, current: seq<string>) {
    forall x :: x in s ==> Inside(SpanOf(x.w), current)
  }

  lemma ScoredWithin(s: Search, rising: bool)
    requires s.Valid()
    ensures Within(Scored(s, rising), s.current)
  {
    forall x | x in Scored(s, rising) ensures Inside(SpanOf(x.w), s.current) {
      ScoredResembles(s, rising, x);
    }
  }

  lemma SpotsWithin(scored: seq<Spot>, size: nat, current: seq<string>)
    requires Within(scored, current)
    ensures Within(Spots(scored, size), current)
  {
    GreedyDominates(scored, size);
  }

  lemma AtLeastWithin(s: seq<Spot>, bar: real, current: seq<string>)
    requires Within(s, current)
    ensures Within(AtLeast(s, bar), current)
  {
    forall x | x in AtLeast(s, bar) ensures x in s { AtLeastIn(s, bar, x); }
  }

  ghost predicate AllInside(r: Placement, current: seq<string>) {
    && (r.now.Some? ==> Inside(r.now.value, current))
    && (forall x :: x in r.candidates ==> Inside(x, current))
  }

  lemma SpansInside(s: seq<Spot>, current: seq<string>)
    requires Within(s, current)
    ensures forall x :: x in Spans(s) ==> Inside(x, current)
  {
    forall x | x in Spans(s) ensures Inside(x, current) {
      var i :| 0 <= i < |s| && Spans(s)[i] == x;
      assert s[i] in s;
    }
  }

  lemma SortedInside(head: Span, rest: seq<Span>, current: seq<string>)
    requires Inside(head, current) && forall x :: x in rest ==> Inside(x, current)
    ensures forall x :: x in SortSpans([head] + rest) ==> Inside(x, current)
  {
    forall x | x in SortSpans([head] + rest) ensures Inside(x, current) {
      SortSpansIn([head] + rest, x);
    }
  }

  lemma ChosenInside(scored: seq<Spot>, size: nat, anchored: bool, current: seq<string>)
    requires scored != [] && Within(scored, current)
    ensures AllInside(Chosen(scored, size, anchored), current)
  {
    var choice := Choose(scored, size);
    ChooseTakesTheBest(scored, size);
    SpotsWithin(scored, size, current);
    AtLeastWithin(Spots(scored, size)[1..], choice.best.ratio - TIE, current);
    SpansInside(choice.rivals, current);
    SortedInside(SpanOf(choice.best.w), Spans(choice.rivals), current);
  }

  lemma FarWithin(c: Case)
    requires c.Valid()
    ensures Within(Far(c), c.current)
  {
    ScoredWithin(c.Whole(), false);
    forall x | x in Far(c) ensures x in Scored(c.Whole(), false) {
      VouchedIn(c, Scored(c.Whole(), false), x);
    }
  }

  lemma RewrittenNotEmpty(c: Case)
    requires c.Valid() && Rewritten(c)
    ensures c.Between().lo < c.Between().hi
  {
    var r := c.Between();
    if r.lo == r.hi {
      assert StripAll(c.current[r.lo..r.hi]) == [];
      CountInNothing(NonBlank(StripAll(c.Block())));
    }
  }

  lemma RewrittenInside(r: Region, far: seq<Spot>, size: nat, current: seq<string>)
    requires r.lo < r.hi <= |current| && Within(far, current)
    ensures AllInside(RewrittenAnswer(r, far, size), current)
  {
    SpotsWithin(far, size, current);
    AtLeastWithin(Spots(far, size), MaxRatio(far) - TIE, current);
    SpansInside(AtLeast(Spots(far, size), MaxRatio(far) - TIE), current);
    SortedInside(Span(r.lo + 1, r.hi), Spans(AtLeast(Spots(far, size), MaxRatio(far) - TIE)), current);
  }

  lemma RewrittenFits(c: Case)
    requires c.Valid()
    ensures Rewritten(c) ==> c.Between().lo < c.Between().hi
  {
    if Rewritten(c) {
      RewrittenNotEmpty(c);
    }
  }

  lemma NearWithin(c: Case)
    requires c.Valid()
    ensures Within(Scored(c.Near(), true), c.current)
  {
    ScoredWithin(c.Near(), true);
  }

  ghost predicate Fit(f: Findings, current: seq<string>) {
    && f.region.lo <= f.region.hi <= |current| && (f.rewritten ==> f.region.lo < f.region.hi)
    && Within(f.near, current) && Within(f.far, current)
  }

  lemma DecideInside(f: Findings, current: seq<string>)
    requires Fit(f, current)
    ensures AllInside(Decide(f), current)
  {
    if f.near != [] {
      ChosenInside(f.near, f.size, f.region.anchored, current);
    } else if f.rewritten {
      RewrittenInside(f.region, f.far, f.size, current);
    } else if f.far != [] {
      ChosenInside(f.far, f.size, false, current);
    }
  }

  lemma FindingsFit(c: Case)
    requires c.Valid()
    ensures Fit(FindingsOf(c), c.current)
  {
    NearWithin(c);
    FarWithin(c);
    RewrittenFits(c);
  }

  lemma NearestInside(c: Case)
    requires c.Valid()
    ensures AllInside(Nearest(c), c.current)
  {
    FindingsFit(c);
    DecideInside(FindingsOf(c), c.current);
  }

  // ---- in place --------------------------------------------------------------------------

  lemma SpansFound(s: Search, size: nat)
    requires s.Valid()
    ensures Spans(Spots(Scored(s, false), size)) != [] <==> exists w :: Resembles(s, w)
  {
    NothingScored(s, false);
    var scored := Scored(s, false);
    if scored != [] {
      SpotsNonEmpty(scored, size);
    }
  }

  lemma RivalsFound(s: Search, need: nat, size: nat)
    requires s.Valid()
    ensures InPlaceOf(s, need, size) != [] <==> Rivals(s, need)
  {
    SpansFound(s, size);
  }

  lemma RivalsInside(s: Search, need: nat, size: nat)
    requires s.Valid()
    ensures forall x :: x in InPlaceOf(s, need, size) ==> Inside(x, s.current)
  {
    ScoredWithin(s, false);
    SpotsWithin(Scored(s, false), size, s.current);
    SpansInside(Spots(Scored(s, false), size), s.current);
  }

  /** `_in_place` finds rivals exactly when there are some. */
  lemma InPlaceFindsRivals(c: Case, copy: nat)
    requires c.Valid()
    ensures InPlaceOf(RivalSearch(c, copy), Need(c, copy), c.end - c.start) != [] <==> HasRival(c, copy)
  {
    RivalsFound(RivalSearch(c, copy), Need(c, copy), c.end - c.start);
  }

  // ---- exact copies ----------------------------------------------------------------------

  lemma CopySpansIn(c: Case, hits: seq<nat>, x: Span)
    requires c.InPinned()
    ensures x in CopySpans(c, hits) <==> exists j :: j in hits && x == CopySpan(c, j)
  {
    if j :| j in hits && x == CopySpan(c, j) {
      var i :| 0 <= i < |hits| && hits[i] == j;
      assert CopySpans(c, hits)[i] == x;
    }
  }

  lemma RivalledLists(copy: Span, rivals: seq<Span>, current: seq<string>)
    requires Inside(copy, current) && forall x :: x in rivals ==> Inside(x, current)
    ensures copy in Rivalled(copy, rivals).candidates && AllInside(Rivalled(copy, rivals), current)
  {
    SortedInside(copy, rivals, current);
    SortSpansIn([copy] + rivals, copy);
  }

  lemma SingleOfIs(c: Case, hit: nat, agree: nat, rivals: seq<Span>)
    requires c.InPinned() && c.CopyAt(hit) && forall x :: x in rivals ==> Inside(x, c.current)
    ensures var r := SingleOf(c, hit, agree, rivals);
            if rivals == [] then r == At(c, hit, agree == 2)
            else r.kind.Ambiguous? && CopySpan(c, hit) in r.candidates && AllInside(r, c.current)
  {
    if rivals != [] {
      RivalledLists(CopySpan(c, hit), rivals, c.current);
    }
  }

  lemma RivalsOfInside(c: Case, hit: nat)
    requires c.Valid()
    ensures forall x :: x in RivalsOf(c, hit) ==> Inside(x, c.current)
  {
    if c.FlankedBy(Window(hit, c.end - c.start)) < 2 {
      RivalsInside(RivalSearch(c, hit), Need(c, hit), c.end - c.start);
    }
  }

  lemma FlankedCopyIs(c: Case, hit: nat)
    requires c.Valid() && c.CopyAt(hit)
    ensures FlankedCopy(c, hit) <==> c.FlankedBy(Window(hit, c.end - c.start)) == 2
    ensures c.FlankedBy(Window(hit, c.end - c.start)) <= 2
  {
  }

  lemma RivalsOfAre(c: Case, hit: nat)
    requires c.Valid() && c.CopyAt(hit)
    ensures RivalsOf(c, hit) == [] <==> FlankedCopy(c, hit) || !HasRival(c, hit)
  {
    FlankedCopyIs(c, hit);
    InPlaceFindsRivals(c, hit);
  }

  lemma SingleAnswer(c: Case, hit: nat)
    requires c.Valid() && c.CopyAt(hit)
    ensures var r := Single(c, hit);
            if FlankedCopy(c, hit) || !HasRival(c, hit)
            then r == At(c, hit, FlankedCopy(c, hit))
            else r.kind.Ambiguous? && CopySpan(c, hit) in r.candidates && AllInside(r, c.current)
  {
    RivalsOfAre(c, hit);
    RivalsOfInside(c, hit);
    FlankedCopyIs(c, hit);
    SingleOfIs(c, hit, c.FlankedBy(Window(hit, c.end - c.start)), RivalsOf(c, hit));
  }

  lemma OneCopy(c: Case, hit: nat)
    requires c.Valid() && c.pinned != c.current && Hits(c, 0) == [hit]
    ensures forall k :: c.CopyAt(k) <==> k == hit
    ensures Classify(c) == Single(c, hit)
    ensures Placeable(c, hit) <==> FlankedCopy(c, hit) || !HasRival(c, hit)
  {
    HitsAreCopies(c, 0);
    assert hit in Hits(c, 0);
  }

  ghost predicate Sole(f: seq<nat>, j: nat) {
    j in f && forall k :: k in f ==> k == j
  }

  lemma OneIsSole(f: seq<nat>)
    requires AllDistinct(f)
    ensures |f| == 1 <==> exists j :: Sole(f, j)
    ensures |f| == 1 ==> Sole(f, f[0])
  {
    if |f| == 1 {
      assert Sole(f, f[0]);
    }
    if |f| > 1 {
      assert f[0] in f && f[1] in f;
    }
  }

  lemma FlankedAre(c: Case, hits: seq<nat>, j: nat)
    requires c.Valid() && hits == Hits(c, 0)
    ensures j in Flanked(c, hits) <==> FlankedCopy(c, j)
  {
    KeepIn(hits, FlankTest(c), j);
    HitsAreCopies(c, 0);
  }

  lemma FlankedOnce(c: Case)
    requires c.Valid()
    ensures AllDistinct(Flanked(c, Hits(c, 0)))
  {
    HitsAreCopies(c, 0);
    KeepDistinct(Hits(c, 0), FlankTest(c));
  }

  /** Of several copies, the only one that both neighbours flank is the place. */
  lemma SoleFlanked(c: Case, hits: seq<nat>)
    requires c.Valid() && hits == Hits(c, 0)
    ensures forall j :: j in Flanked(c, hits) <==> FlankedCopy(c, j)
    ensures |Flanked(c, hits)| == 1 <==> exists j :: SoleCopy(c, j)
    ensures |Flanked(c, hits)| == 1 ==> SoleCopy(c, Flanked(c, hits)[0])
  {
    FlankedOnce(c);
    var f := Flanked(c, hits);
    OneIsSole(f);
    forall j ensures j in f <==> FlankedCopy(c, j) { FlankedAre(c, hits, j); }
    forall j ensures Sole(f, j) <==> SoleCopy(c, j) {
    }
  }

  lemma ManyCopies(c: Case, hits: seq<nat>)
    requires c.Valid() && c.pinned != c.current && hits == Hits(c, 0) && |hits| > 1
    ensures forall k :: c.CopyAt(k) <==> k in hits
    ensures var r, f := Classify(c), Flanked(c, hits);
            if |f| == 1 then r == At(c, f[0], true) && Placeable(c, f[0])
            else r == Placement(Ambiguous, None, CopySpans(c, hits), None, None) && forall j :: !Placeable(c, j)
  {
    HitsAreCopies(c, 0);
    SoleFlanked(c, hits);
    var f := Flanked(c, hits);
    assert hits[0] in hits && hits[1] in hits && hits[0] != hits[1];
    if |f| == 1 {
      assert f[0] in f;
    } else {
      forall j ensures !Placeable(c, j) {
      }
    }
  }

  /** The three cases of a changed file. */
  lemma CopyCases(c: Case)
    requires c.Valid()
    ensures var hits := Hits(c, 0); hits == [] || |hits| == 1 || |hits| > 1
    ensures Hits(c, 0) == [] <==> forall j :: !c.CopyAt(j)
  {
    HitsAreCopies(c, 0);
    if Hits(c, 0) != [] {
      assert Hits(c, 0)[0] in Hits(c, 0);
    }
  }

  lemma NoCopies(c: Case)
    requires c.Valid() && forall j :: !c.CopyAt(j)
    ensures c.pinned != c.current && Classify(c) == Nearest(c) && !IsCopyKind(Classify(c).kind)
    ensures forall j :: !Placeable(c, j)
  {
    if c.pinned == c.current {
      assert c.CopyAt(c.start);
    }
    CopyCases(c);
  }

  lemma CopyKindHasHits(c: Case)
    requires c.Valid() && c.pinned != c.current
    ensures IsCopyKind(Classify(c).kind) ==> Hits(c, 0) != []
  {
    CopyCases(c);
    if Hits(c, 0) == [] {
      NoCopies(c);
    }
  }

  // ---- the theorems ----------------------------------------------------------------------

  /** "unchanged" and "moved" always name an exact copy, the one copy that may be named; the
      word says whether it is at the cited lines, `anchored` whether both neighbours stayed. */
  lemma PlacedIsExact(c: Case) returns (j: nat)
    requires c.Valid() && IsCopyKind(Classify(c).kind)
    ensures c.CopyAt(j) && Placeable(c, j)
    ensures Classify(c) == At(c, j, FlankedCopy(c, j))
  {
    if c.pinned == c.current {
      j := c.start;
      assert c.CopyAt(j);
    } else {
      CopyKindHasHits(c);
      var hits := Hits(c, 0);
      if |hits| == 1 {
        j := hits[0];
        OneCopy(c, j);
        SingleAnswer(c, j);
      } else {
        ManyCopies(c, hits);
        j := Flanked(c, hits)[0];
        SoleFlanked(c, hits);
        assert j in Flanked(c, hits);
      }
    }
  }

  /** A copy that may be named is named: the answer is withheld only for a reason. */
  lemma PlaceableIsPlaced(c: Case, j: nat)
    requires c.Valid() && Placeable(c, j)
    ensures Classify(c) == At(c, j, FlankedCopy(c, j))
  {
    if c.pinned != c.current {
      CopyCases(c);
      var hits := Hits(c, 0);
      HitsAreCopies(c, 0);
      assert c.CopyAt(j);
      if |hits| == 1 {
        OneCopy(c, hits[0]);
        SingleAnswer(c, hits[0]);
      } else {
        ManyCopies(c, hits);
        SoleFlanked(c, hits);
        assert Flanked(c, hits) != [] && Flanked(c, hits)[0] in Flanked(c, hits);
      }
    } else {
      assert c.CopyAt(j);
    }
  }

  /** While an exact copy exists the answer is never "edited" or "deleted": it is a copy, or
      an ambiguous list with every copy in it. */
  lemma CopiesAreNeverLost(c: Case, j: nat)
    requires c.Valid() && c.CopyAt(j)
    ensures var r := Classify(c);
            IsCopyKind(r.kind) || (r.kind.Ambiguous? && CopySpan(c, j) in r.candidates)
  {
    if c.pinned != c.current {
      CopyCases(c);
      HitsAreCopies(c, 0);
      var hits := Hits(c, 0);
      if |hits| == 1 {
        OneCopy(c, hits[0]);
        SingleAnswer(c, hits[0]);
      } else {
        ManyCopies(c, hits);
        CopySpansIn(c, hits, CopySpan(c, j));
      }
    }
  }

  /** Every range the answer reports is non-empty and inside the current file. */
  lemma RangesAreInside(c: Case)
    requires c.Valid()
    ensures AllInside(Classify(c), c.current)
  {
    if IsCopyKind(Classify(c).kind) {
      var j := PlacedIsExact(c);
    } else {
      CopyCases(c);
      var hits := Hits(c, 0);
      if hits == [] {
        NoCopies(c);
        NearestInside(c);
      } else if |hits| == 1 {
        OneCopy(c, hits[0]);
        SingleAnswer(c, hits[0]);
      } else {
        ManyCopies(c, hits);
        forall x | x in CopySpans(c, hits) ensures Inside(x, c.current) { CopySpansIn(c, hits, x); }
      }
    }
  }
}
