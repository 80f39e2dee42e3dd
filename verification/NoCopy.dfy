/** What `classify` means when the file holds no exact copy: "edited" names the one place that
    stands out, "deleted" says that there is none, "ambiguous" lists every place that ties. */
module NoCopy {
  import opened Alignment
  import opened Citation
  import opened NothingGuessed
  import opened Places
  import opened WindowScan
  import opened Wrappers

  // ---- places that lead, stand out, or tie ------------------------------------------------

  /** `w` leads the places that resemble the block and fit, and each of them elsewhere falls more
      than TIE short of it. */
  ghost predicate StandsOut(s: Search, w: Window, fit: Window -> bool)
    requires s.Valid()
  {
    && IsLead(s, fit, w)
    && forall v :: Resembles(s, v) && fit(v) && Disjoint(v, w) ==> s.Score(v) < s.Score(w) - TIE
  }

  /** A place that comes within TIE of every other. */
  ghost predicate Ties(s: Search, fit: Window -> bool, v: Window)
    requires s.Valid()
  {
    && Resembles(s, v) && fit(v)
    && forall u :: Resembles(s, u) && fit(u) ==> s.Score(v) >= s.Score(u) - TIE
  }

  /** `u` speaks for `v`: it is `v`, or overlaps it and scores at least as much. */
  ghost predicate SpeaksFor(s: Search, u: Window, v: Window) {
    u == v || (!Disjoint(v, u) && s.Score(u) >= s.Score(v))
  }

  ghost predicate SpokenFor(candidates: seq<Span>, s: Search, fit: Window -> bool, v: Window)
    requires s.Valid()
  {
    exists u :: Ties(s, fit, u) && SpeaksFor(s, u, v) && SpanOf(u) in candidates
  }

  /** The leading place is listed, and so is one for every place that ties. */
  ghost predicate ListsTies(candidates: seq<Span>, s: Search, fit: Window -> bool)
    requires s.Valid()
  {
    && (forall w :: IsLead(s, fit, w) ==> SpanOf(w) in candidates)
    && (forall v :: Ties(s, fit, v) ==> SpokenFor(candidates, s, fit, v))
  }

  ghost predicate IsTie(x: Span, s: Search, fit: Window -> bool)
    requires s.Valid()
  {
    exists u :: Ties(s, fit, u) && SpanOf(u) == x
  }

  /** Nothing else is listed, `rest` aside. */
  ghost predicate ListsOnlyTies(candidates: seq<Span>, s: Search, fit: Window -> bool, rest: set<Span>)
    requires s.Valid()
  {
    forall x :: x in candidates ==> x in rest || IsTie(x, s, fit)
  }

  // ---- of a list of all places ------------------------------------------------------------

  /** `found` holds exactly the places that resemble the block and fit, as a scan lists them. */
  ghost predicate AreAll(found: seq<Spot>, s: Search, fit: Window -> bool)
    requires s.Valid()
  {
    && Lengthening(found)
    && forall x :: x in found <==> Resembles(s, x.w) && fit(x.w) && x.ratio == s.Score(x.w)
  }

  lemma BestIsLead(found: seq<Spot>, s: Search, fit: Window -> bool)
    requires s.Valid() && AreAll(found, s, fit) && found != []
    ensures var best := Choose(found, |s.block|).best;
            best == SpotAt(s, best.w) && best in found && IsLead(s, fit, best.w)
  {
    var best := Choose(found, |s.block|).best;
    ChooseTakesTheBest(found, |s.block|);
    ChooseTakesTheLead(found, |s.block|);
    forall v | Resembles(s, v) && fit(v) ensures !Leads(SpotAt(s, v), best, |s.block|) {
      assert SpotAt(s, v) in found;
    }
  }

  lemma LeadScoresBest(s: Search, fit: Window -> bool, w: Window, v: Window)
    requires s.Valid() && IsLead(s, fit, w) && Resembles(s, v) && fit(v)
    ensures s.Score(v) <= s.Score(w)
  {
    assert !Leads(SpotAt(s, v), SpotAt(s, w), |s.block|);
  }

  lemma TiesIff(s: Search, fit: Window -> bool, w: Window, v: Window)
    requires s.Valid() && IsLead(s, fit, w)
    ensures Ties(s, fit, v) <==> Resembles(s, v) && fit(v) && s.Score(v) >= s.Score(w) - TIE
  {
    forall u | Resembles(s, u) && fit(u) ensures s.Score(u) <= s.Score(w) {
      LeadScoresBest(s, fit, w, u);
    }
  }

  /** `_choose` sees no rival exactly when its best stands out. */
  lemma UnrivalledIff(found: seq<Spot>, s: Search, fit: Window -> bool)
    requires s.Valid() && AreAll(found, s, fit) && found != []
    ensures var c := Choose(found, |s.block|); c.rivals == [] <==> StandsOut(s, c.best.w, fit)
  {
    var c := Choose(found, |s.block|);
    BestIsLead(found, s, fit);
    ChooseIsDecisive(found, |s.block|);
    forall v ensures SpotAt(s, v) in found <==> Resembles(s, v) && fit(v) {
    }
    if StandsOut(s, c.best.w, fit) {
      forall x | x in found && Disjoint(x.w, c.best.w) ensures x.ratio < c.best.ratio - TIE {
        assert Resembles(s, x.w);
      }
    }
  }

  /** What `_choose` lists: its best and the places within TIE of it. */
  function Listed(found: seq<Spot>, size: nat): seq<Spot>
    requires found != []
  {
    AtLeast(Spots(found, size), Choose(found, size).best.ratio - TIE)
  }

  lemma ListedAre(found: seq<Spot>, size: nat)
    requires found != []
    ensures Listed(found, size) == [Choose(found, size).best] + Choose(found, size).rivals
  {
    SpotsNonEmpty(found, size);
    var spots := Spots(found, size);
    assert spots == [spots[0]] + spots[1..];
    AtLeastHead(spots[0], spots[1..], spots[0].ratio - TIE);
  }

  lemma ListedIn(found: seq<Spot>, size: nat, x: Spot)
    requires found != []
    ensures x in Listed(found, size) <==> x in Spots(found, size) && x.ratio >= Choose(found, size).best.ratio - TIE
  {
    AtLeastIn(Spots(found, size), Choose(found, size).best.ratio - TIE, x);
  }

  lemma SpanListed(s: seq<Spot>, x: Spot)
    requires x in s
    ensures SpanOf(x.w) in Spans(s)
  {
    var i :| 0 <= i < |s| && s[i] == x;
    assert Spans(s)[i] == SpanOf(x.w);
  }

  lemma CoverIn(found: seq<Spot>, size: nat, x: Spot) returns (y: Spot)
    requires x in found
    ensures y in Spots(found, size) && y in found && Covers(y, x)
  {
    y := CoveredBy(found, size, x);
    GreedyDominates(found, size);
  }

  lemma CoverIsListed(found: seq<Spot>, s: Search, fit: Window -> bool, v: Window) returns (y: Spot)
    requires s.Valid() && AreAll(found, s, fit) && found != [] && Ties(s, fit, v)
    ensures y in Listed(found, |s.block|) && y in found && SpeaksFor(s, y.w, v) && y.ratio >= s.Score(v)
  {
    var best := Choose(found, |s.block|).best;
    BestIsLead(found, s, fit);
    TiesIff(s, fit, best.w, v);
    y := CoverIn(found, |s.block|, SpotAt(s, v));
    ListedIn(found, |s.block|, y);
  }

  lemma CoverTies(s: Search, fit: Window -> bool, v: Window, u: Window)
    requires s.Valid() && Ties(s, fit, v) && Resembles(s, u) && fit(u) && s.Score(u) >= s.Score(v)
    ensures Ties(s, fit, u)
  {
  }

  lemma TieIsSpokenFor(found: seq<Spot>, s: Search, fit: Window -> bool, candidates: seq<Span>, v: Window)
    requires s.Valid() && AreAll(found, s, fit) && found != [] && Ties(s, fit, v)
    requires forall x :: x in Listed(found, |s.block|) ==> SpanOf(x.w) in candidates
    ensures SpokenFor(candidates, s, fit, v)
  {
    var y := CoverIsListed(found, s, fit, v);
    CoverTies(s, fit, v, y.w);
    assert Ties(s, fit, y.w) && SpeaksFor(s, y.w, v) && SpanOf(y.w) in candidates;
  }

  lemma ListedIsTie(found: seq<Spot>, s: Search, fit: Window -> bool, x: Spot)
    requires s.Valid() && AreAll(found, s, fit) && found != [] && x in Listed(found, |s.block|)
    ensures Ties(s, fit, x.w)
  {
    var best := Choose(found, |s.block|).best;
    BestIsLead(found, s, fit);
    ListedIn(found, |s.block|, x);
    GreedyDominates(found, |s.block|);
    TiesIff(s, fit, best.w, x.w);
  }

  /** A list of those spans, and of others. */
  lemma SpansListTies(found: seq<Spot>, s: Search, fit: Window -> bool, candidates: seq<Span>, rest: set<Span>)
    requires s.Valid() && AreAll(found, s, fit) && found != []
    requires forall x :: x in candidates <==> x in rest || x in Spans(Listed(found, |s.block|))
    ensures ListsTies(candidates, s, fit) && ListsOnlyTies(candidates, s, fit, rest)
  {
    var listed, best := Listed(found, |s.block|), Choose(found, |s.block|).best;
    BestIsLead(found, s, fit);
    ListedAre(found, |s.block|);
    forall x | x in listed ensures SpanOf(x.w) in candidates {
      SpanListed(listed, x);
    }
    forall w | IsLead(s, fit, w) ensures SpanOf(w) in candidates {
      LeadIsUnique(s, fit, w, best.w);
      assert listed[0] == best;
    }
    forall v | Ties(s, fit, v) ensures SpokenFor(candidates, s, fit, v) {
      TieIsSpokenFor(found, s, fit, candidates, v);
    }
    forall x | x in candidates ensures x in rest || IsTie(x, s, fit) {
      if x !in rest {
        var i :| 0 <= i < |Spans(listed)| && Spans(listed)[i] == x;
        ListedIsTie(found, s, fit, listed[i]);
        assert Ties(s, fit, listed[i].w) && SpanOf(listed[i].w) == x;
      }
    }
  }

  // ---- `_choose` --------------------------------------------------------------------------

  lemma ChosenCandidates(found: seq<Spot>, size: nat, anchored: bool)
    requires found != [] && Choose(found, size).rivals != []
    ensures Chosen(found, size, anchored).candidates == SortSpans(Spans(Listed(found, size)))
  {
    var c := Choose(found, size);
    ListedAre(found, size);
    assert Spans([c.best] + c.rivals) == [SpanOf(c.best.w)] + Spans(c.rivals);
  }

  lemma ChosenListsTies(found: seq<Spot>, s: Search, fit: Window -> bool, anchored: bool)
    requires s.Valid() && AreAll(found, s, fit) && found != [] && Choose(found, |s.block|).rivals != []
    ensures var r := Chosen(found, |s.block|, anchored);
            ListsTies(r.candidates, s, fit) && ListsOnlyTies(r.candidates, s, fit, {})
  {
    var spans := Spans(Listed(found, |s.block|));
    ChosenCandidates(found, |s.block|, anchored);
    forall x ensures x in SortSpans(spans) <==> x in spans {
      SortSpansIn(spans, x);
    }
    SpansListTies(found, s, fit, SortSpans(spans), {});
  }

  /** "edited" exactly when some place stands out, and then it is that one; otherwise every place
      that ties is listed, and nothing else. */
  lemma ChosenIs(found: seq<Spot>, s: Search, fit: Window -> bool, anchored: bool)
    requires s.Valid() && AreAll(found, s, fit) && found != []
    ensures var r := Chosen(found, |s.block|, anchored);
            && (r.kind.Edited? <==> exists w :: StandsOut(s, w, fit))
            && (forall w :: StandsOut(s, w, fit) ==>
                  r == Placement(Edited, Some(SpanOf(w)), [], Some(anchored), Some(s.Score(w))))
            && (r.kind.Ambiguous? ==> ListsTies(r.candidates, s, fit) && ListsOnlyTies(r.candidates, s, fit, {}))
  {
    var c := Choose(found, |s.block|);
    BestIsLead(found, s, fit);
    UnrivalledIff(found, s, fit);
    forall w | StandsOut(s, w, fit) ensures w == c.best.w {
      LeadIsUnique(s, fit, w, c.best.w);
    }
    if c.rivals != [] {
      ChosenListsTies(found, s, fit, anchored);
    }
  }

  lemma {:induction false} MaxRatioIs(found: seq<Spot>, best: Spot)
    requires best.ratio >= 0.0 && forall x :: x in found ==> x.ratio <= best.ratio
    ensures MaxRatio(found) <= best.ratio && (best in found ==> MaxRatio(found) == best.ratio)
  {
    if found == [] {
    } else {
      MaxRatioIs(found[1..], best);
    }
  }

  lemma NothingFound(s: Search, fit: Window -> bool, candidates: seq<Span>, stretch: Span)
    requires s.Valid() && AreAll([], s, fit) && forall x :: x in candidates <==> x == stretch
    ensures ListsTies(candidates, s, fit) && ListsOnlyTies(candidates, s, fit, {stretch})
  {
    forall v ensures !(Resembles(s, v) && fit(v)) {
      assert SpotAt(s, v) !in [];
    }
  }

  function Stretch(r: Region): Span {
    Span(r.lo + 1, r.hi)
  }

  /** The answer for a block rewritten in place lists its stretch and every place that ties. */
  lemma RewrittenLists(r: Region, found: seq<Spot>, s: Search, fit: Window -> bool)
    requires s.Valid() && AreAll(found, s, fit)
    ensures var a := RewrittenAnswer(r, found, |s.block|);
            && Stretch(r) in a.candidates && ListsTies(a.candidates, s, fit)
            && ListsOnlyTies(a.candidates, s, fit, {Stretch(r)})
  {
    var spots := AtLeast(Spots(found, |s.block|), MaxRatio(found) - TIE);
    var spans := [Stretch(r)] + Spans(spots);
    forall x ensures x in SortSpans(spans) <==> x == Stretch(r) || x in Spans(spots) {
      SortSpansIn(spans, x);
    }
    if found == [] {
      NothingFound(s, fit, SortSpans(spans), Stretch(r));
    } else {
      BestIsLead(found, s, fit);
      var best := Choose(found, |s.block|).best;
      forall x | x in found ensures x.ratio <= best.ratio {
        LeadScoresBest(s, fit, best.w, x.w);
      }
      MaxRatioIs(found, best);
      SpansListTies(found, s, fit, SortSpans(spans), {Stretch(r)});
    }
  }

  // ---- the two scans of `_nearest` --------------------------------------------------------

  /** The anchored stretch was all of the file. */
  predicate SearchedAll(c: Case)
    requires c.Valid()
  {
    c.Between().lo == 0 && c.Between().hi == |c.current|
  }

  /** Vouched for by distinct unchanged lines, in a file not yet searched. */
  function VouchedAway(c: Case): Window -> bool
    requires c.Valid()
  {
    w => !SearchedAll(c) && Vouching(c, w) >= VOUCHED
  }

  lemma NearAreAll(s: Search)
    requires s.Valid()
    ensures AreAll(Scored(s, false), s, Anywhere)
  {
    ScoredLengthens(s, false);
    forall x ensures x in Scored(s, false) <==> Resembles(s, x.w) && Anywhere(x.w) && x.ratio == s.Score(x.w) {
      ScoredIs(s, x);
    }
  }

  lemma LengthensFrom(x: Spot, rest: seq<Spot>)
    requires Lengthening(rest) && forall y :: y in rest ==> y.w.n >= x.w.n
    ensures Lengthening([x] + rest)
  {
  }

  lemma HeadIsShortest(s: seq<Spot>, y: Spot)
    requires Lengthening(s) && s != [] && y in s[1..]
    ensures y.w.n >= s[0].w.n
  {
    var i :| 0 <= i < |s[1..]| && s[1..][i] == y;
    assert s[i + 1] == y;
  }

  lemma {:induction false} VouchedLengthen(c: Case, s: seq<Spot>)
    requires c.InPinned() && Lengthening(s)
    ensures Lengthening(VouchedSpots(c, s))
  {
    if s == [] {
    } else {
      VouchedLengthen(c, s[1..]);
      var rest := VouchedSpots(c, s[1..]);
      forall y | y in rest ensures y.w.n >= s[0].w.n {
        VouchedIn(c, s[1..], y);
        HeadIsShortest(s, y);
      }
      LengthensFrom(s[0], rest);
    }
  }

  lemma FarIs(c: Case, x: Spot)
    requires c.Valid()
    ensures x in Far(c) <==> Resembles(c.Whole(), x.w) && VouchedAway(c)(x.w) && x.ratio == c.Whole().Score(x.w)
  {
    VouchedIn(c, Scored(c.Whole(), false), x);
    ScoredIs(c.Whole(), x);
  }

  lemma FarLengthen(c: Case)
    requires c.Valid()
    ensures Lengthening(Far(c))
  {
    ScoredLengthens(c.Whole(), false);
    VouchedLengthen(c, Scored(c.Whole(), false));
  }

  lemma FarAreAll(c: Case)
    requires c.Valid()
    ensures AreAll(Far(c), c.Whole(), VouchedAway(c))
  {
    FarLengthen(c);
    forall x
      ensures x in Far(c) <==> Resembles(c.Whole(), x.w) && VouchedAway(c)(x.w) && x.ratio == c.Whole().Score(x.w)
    {
      FarIs(c, x);
    }
  }

  // ---- `_nearest`, from what it found -----------------------------------------------------

  /** The same findings, the scan between the anchors unpruned. */
  ghost function Unpruned(f: Findings, s: Search): Findings
    requires s.Valid()
  {
    f.(near := Scored(s, false))
  }

  /** What `_nearest` answers from the pruned scan, it answers from the full one. */
  lemma DecidePruned(f: Findings, s: Search)
    requires s.Valid() && f.near == Scored(s, true) && f.size == |s.block|
    ensures Decide(f) == Decide(Unpruned(f, s))
  {
    PrunedScanIsExact(s);
  }

  ghost predicate Complete(f: Findings, s: Search, t: Search, fit: Window -> bool)
    requires s.Valid() && t.Valid()
  {
    AreAll(f.near, s, Anywhere) && AreAll(f.far, t, fit) && f.size == |s.block| == |t.block|
  }

  predicate TooWide(r: Region) {
    r.hi - r.lo > MAX_REGION
  }

  ghost predicate AnyPlace(s: Search, fit: Window -> bool)
    requires s.Valid()
  {
    exists w :: Resembles(s, w) && fit(w)
  }

  ghost predicate OneStandsOut(s: Search, fit: Window -> bool)
    requires s.Valid()
  {
    exists w :: StandsOut(s, w, fit)
  }

  ghost predicate IsEdit(r: Placement, s: Search, fit: Window -> bool, anchored: bool, w: Window)
    requires s.Valid()
  {
    StandsOut(s, w, fit) && r == Placement(Edited, Some(SpanOf(w)), [], Some(anchored), Some(s.Score(w)))
  }

  /** An answer chosen among the places: the one that stands out, or all that tie. */
  ghost predicate Chooses(r: Placement, s: Search, fit: Window -> bool, anchored: bool)
    requires s.Valid()
  {
    if OneStandsOut(s, fit) then exists w :: IsEdit(r, s, fit, anchored, w)
    else r.kind.Ambiguous? && ListsTies(r.candidates, s, fit) && ListsOnlyTies(r.candidates, s, fit, {})
  }

  /** What the answer must be: `s` scans between the anchors, `t` the whole file. */
  ghost predicate Means(a: Placement, r: Region, rewritten: bool, s: Search, t: Search, fit: Window -> bool)
    requires s.Valid() && t.Valid()
  {
    if TooWide(r) then a == Placement(Ambiguous, None, [Stretch(r)], Some(r.anchored), None)
    else if AnyPlace(s, Anywhere) then Chooses(a, s, Anywhere, r.anchored)
    else if rewritten then
      && a.kind.Ambiguous? && Stretch(r) in a.candidates
      && ListsTies(a.candidates, t, fit) && ListsOnlyTies(a.candidates, t, fit, {Stretch(r)})
    else if AnyPlace(t, fit) then Chooses(a, t, fit, false)
    else a == Placement(Deleted, None, [], Some(r.anchored), None)
  }

  lemma AnyIsFound(found: seq<Spot>, s: Search, fit: Window -> bool)
    requires s.Valid() && AreAll(found, s, fit)
    ensures AnyPlace(s, fit) <==> found != []
  {
    if found != [] {
      assert found[0] in found;
      assert Resembles(s, found[0].w) && fit(found[0].w);
    }
    if w :| Resembles(s, w) && fit(w) {
      assert SpotAt(s, w) in found;
    }
  }

  lemma ChosenChooses(found: seq<Spot>, s: Search, fit: Window -> bool, anchored: bool)
    requires s.Valid() && AreAll(found, s, fit) && found != []
    ensures Chooses(Chosen(found, |s.block|, anchored), s, fit, anchored)
  {
    var r := Chosen(found, |s.block|, anchored);
    ChosenIs(found, s, fit, anchored);
    if w :| StandsOut(s, w, fit) {
      assert IsEdit(r, s, fit, anchored, w);
    }
  }

  lemma DecideMeans(f: Findings, s: Search, t: Search, fit: Window -> bool)
    requires s.Valid() && t.Valid() && Complete(f, s, t, fit)
    ensures Means(Decide(f), f.region, f.rewritten, s, t, fit)
  {
    AnyIsFound(f.near, s, Anywhere);
    AnyIsFound(f.far, t, fit);
    if TooWide(f.region) {
    } else if f.near != [] {
      ChosenChooses(f.near, s, Anywhere, f.region.anchored);
    } else if f.rewritten {
      RewrittenLists(f.region, f.far, t, fit);
    } else if f.far != [] {
      ChosenChooses(f.far, t, fit, false);
    }
  }

  lemma FindingsAre(c: Case)
    requires c.Valid()
    ensures var f := FindingsOf(c);
            && f.near == Scored(c.Near(), true) && f.far == Far(c) && f.size == |c.Near().block| == |c.Whole().block|
            && f.region == c.Between() && f.rewritten == Rewritten(c)
  {
  }

  /** What `_nearest` answers, said without its scans: too wide a stretch is listed as it is; the
      places between the anchors decide, when there are any; failing them a rewrite lists its
      stretch and the vouched places; then the vouched places decide; then the text is gone. */
  lemma NearestMeans(c: Case)
    requires c.Valid()
    ensures Means(Nearest(c), c.Between(), Rewritten(c), c.Near(), c.Whole(), VouchedAway(c))
  {
    var f := FindingsOf(c);
    FindingsAre(c);
    DecidePruned(f, c.Near());
    NearAreAll(c.Near());
    FarAreAll(c);
    DecideMeans(Unpruned(f, c.Near()), c.Near(), c.Whole(), VouchedAway(c));
  }

  // ---- the theorems -----------------------------------------------------------------------

  ghost predicate NoCopyLeft(c: Case)
    requires c.Valid()
  {
    forall j :: !c.CopyAt(j)
  }

  lemma WithCopy(c: Case)
    requires c.Valid() && !NoCopyLeft(c)
    ensures !Classify(c).kind.Edited? && !Classify(c).kind.Deleted?
  {
    var j :| c.CopyAt(j);
    CopiesAreNeverLost(c, j);
  }

  lemma WithoutCopy(c: Case)
    requires c.Valid() && NoCopyLeft(c)
    ensures Classify(c) == Nearest(c)
  {
    NoCopies(c);
  }

  lemma StandingOutIsAPlace(s: Search, fit: Window -> bool)
    requires s.Valid()
    ensures OneStandsOut(s, fit) ==> AnyPlace(s, fit)
  {
    if w :| StandsOut(s, w, fit) {
      assert Resembles(s, w) && fit(w);
    }
  }

  lemma EditMeans(a: Placement, r: Region, rewritten: bool, s: Search, t: Search, fit: Window -> bool)
    requires s.Valid() && t.Valid() && Means(a, r, rewritten, s, t, fit)
    ensures a.kind.Edited? <==>
            && !TooWide(r)
            && if AnyPlace(s, Anywhere) then OneStandsOut(s, Anywhere) else !rewritten && OneStandsOut(t, fit)
    ensures a.kind.Edited? ==>
            if AnyPlace(s, Anywhere) then exists w :: IsEdit(a, s, Anywhere, r.anchored, w)
            else exists w :: IsEdit(a, t, fit, false, w)
  {
    StandingOutIsAPlace(t, fit);
  }

  /** "edited" exactly when no exact copy exists, the stretch between the anchors is narrow enough
      to search, and one place stands out: among those of the stretch, or, when nothing there
      resembles the block and it was not rewritten there, among those of the whole file that two
      unchanged lines vouch for. The answer is that place. */
  lemma EditedIff(c: Case)
    requires c.Valid()
    ensures Classify(c).kind.Edited? <==>
            && NoCopyLeft(c) && !TooWide(c.Between())
            && if AnyPlace(c.Near(), Anywhere) then OneStandsOut(c.Near(), Anywhere)
               else !Rewritten(c) && OneStandsOut(c.Whole(), VouchedAway(c))
    ensures Classify(c).kind.Edited? ==>
            if AnyPlace(c.Near(), Anywhere)
            then exists w :: IsEdit(Classify(c), c.Near(), Anywhere, c.Between().anchored, w)
            else exists w :: IsEdit(Classify(c), c.Whole(), VouchedAway(c), false, w)
  {
    if NoCopyLeft(c) {
      WithoutCopy(c);
      NearestMeans(c);
      EditMeans(Classify(c), c.Between(), Rewritten(c), c.Near(), c.Whole(), VouchedAway(c));
    } else {
      WithCopy(c);
    }
  }

  lemma DeletionMeans(a: Placement, r: Region, rewritten: bool, s: Search, t: Search, fit: Window -> bool)
    requires s.Valid() && t.Valid() && Means(a, r, rewritten, s, t, fit)
    ensures a.kind.Deleted? <==> !TooWide(r) && !AnyPlace(s, Anywhere) && !rewritten && !AnyPlace(t, fit)
  {
  }

  /** "deleted" exactly when the text is nowhere: no copy, nothing like it between anchors narrow
      enough to search, too little of it left there to be a rewrite, and no vouched place in the
      rest of the file. */
  lemma DeletedIff(c: Case)
    requires c.Valid()
    ensures Classify(c).kind.Deleted? <==>
            && NoCopyLeft(c) && !TooWide(c.Between()) && !AnyPlace(c.Near(), Anywhere)
            && !Rewritten(c) && !AnyPlace(c.Whole(), VouchedAway(c))
  {
    if NoCopyLeft(c) {
      WithoutCopy(c);
      NearestMeans(c);
      DeletionMeans(Classify(c), c.Between(), Rewritten(c), c.Near(), c.Whole(), VouchedAway(c));
    } else {
      WithCopy(c);
    }
  }

  /** The lists of an ambiguous answer: every place that ties with the best is listed or overlaps
      a listed one of at least its score, and nothing else is listed but a rewritten stretch, or
      one too wide to search, which is listed alone. */
  ghost predicate ListsWhatTies(a: Placement, r: Region, s: Search, t: Search, fit: Window -> bool)
    requires s.Valid() && t.Valid()
  {
    if TooWide(r) then a.candidates == [Stretch(r)]
    else if AnyPlace(s, Anywhere) then
      ListsTies(a.candidates, s, Anywhere) && ListsOnlyTies(a.candidates, s, Anywhere, {})
    else ListsTies(a.candidates, t, fit) && ListsOnlyTies(a.candidates, t, fit, {Stretch(r)})
  }

  lemma AmbiguityMeans(a: Placement, r: Region, rewritten: bool, s: Search, t: Search, fit: Window -> bool)
    requires s.Valid() && t.Valid() && Means(a, r, rewritten, s, t, fit)
    ensures a.kind.Ambiguous? <==>
            || TooWide(r)
            || if AnyPlace(s, Anywhere) then !OneStandsOut(s, Anywhere)
               else rewritten || (AnyPlace(t, fit) && !OneStandsOut(t, fit))
    ensures a.kind.Ambiguous? ==> ListsWhatTies(a, r, s, t, fit)
    ensures a.kind.Ambiguous? && rewritten && !AnyPlace(s, Anywhere) ==> Stretch(r) in a.candidates
  {
  }

  /** With no exact copy, "ambiguous" exactly when the stretch is too wide to search, no place of
      it stands out, it was rewritten, or no vouched place elsewhere stands out; what it lists. */
  lemma AmbiguousIff(c: Case)
    requires c.Valid() && NoCopyLeft(c)
    ensures Classify(c).kind.Ambiguous? <==>
            || TooWide(c.Between())
            || if AnyPlace(c.Near(), Anywhere) then !OneStandsOut(c.Near(), Anywhere)
               else Rewritten(c) || (AnyPlace(c.Whole(), VouchedAway(c)) && !OneStandsOut(c.Whole(), VouchedAway(c)))
    ensures Classify(c).kind.Ambiguous? ==>
            ListsWhatTies(Classify(c), c.Between(), c.Near(), c.Whole(), VouchedAway(c))
    ensures Classify(c).kind.Ambiguous? && Rewritten(c) && !AnyPlace(c.Near(), Anywhere) ==>
            Stretch(c.Between()) in Classify(c).candidates
  {
    WithoutCopy(c);
    NearestMeans(c);
    AmbiguityMeans(Classify(c), c.Between(), Rewritten(c), c.Near(), c.Whole(), VouchedAway(c));
  }
}
