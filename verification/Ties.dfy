/** Exactly when "edited" stands alone. `_choose` calls a place ambiguous "when another place
    scores within TIE of it", but sees only the places that reach CUTOFF. */
module Ties {
  import opened Places
  import opened Similarity
  import opened Sorting
  import opened WindowScan
  import opened Wrappers

  /** `_choose` answers, and sees no rival. */
  predicate Unrivalled(s: Search)
    requires s.Valid()
  {
    Scored(s, true) != [] && Choose(Scored(s, true), |s.block|).rivals == []
  }

  /** No window tried and admitted away from `w` comes within TIE of it, scored or not. */
  ghost predicate StandsAlone(s: Search, w: Window)
    requires s.Valid()
  {
    forall v :: s.Tried(v) && s.Admits(v) && Disjoint(v, w) ==> s.Score(v) < s.Score(w) - TIE
  }

  /** A window under the cutoff, away from `w`, within TIE of it. */
  ghost predicate Hidden(s: Search, w: Window, v: Window)
    requires s.Valid()
  {
    s.Tried(v) && s.Admits(v) && Disjoint(v, w) && s.Score(w) - TIE <= s.Score(v) < CUTOFF
  }

  /** For every search with an answer, `w` being the window that leads: it is the answer, and it
      stands alone exactly when `_choose` sees no rival and no window under the cutoff is within
      TIE of it. */
  lemma StandsAloneIff(s: Search, w: Window)
    requires s.Valid() && IsLead(s, Anywhere, w)
    ensures Scored(s, true) != [] && Choose(Scored(s, true), |s.block|).best == SpotAt(s, w)
    ensures StandsAlone(s, w) <==> Unrivalled(s) && forall v :: !Hidden(s, w, v)
  {
    ScoredIs(s, SpotAt(s, w));
    PrunedScanIsExact(s);
    AnswerIsLead(s);
    LeadIsUnique(s, Anywhere, w, Choose(Scored(s, true), |s.block|).best.w);
    AnswerStandsOut(s);
    if StandsAlone(s, w) {
      forall v ensures !Hidden(s, w, v) {
        assert !Hidden(s, w, v) || s.Score(v) < s.Score(w) - TIE;
      }
    }
    if Unrivalled(s) && forall v :: !Hidden(s, w, v) {
      forall v | s.Tried(v) && s.Admits(v) && Disjoint(v, w) ensures s.Score(v) < s.Score(w) - TIE {
        assert !Hidden(s, w, v);
      }
    }
  }

  /** Nothing is hidden once some place reaches CUTOFF + TIE: an answer without a rival then
      stands alone. */
  lemma StrongMatchHidesNothing(s: Search, u: Window)
    requires s.Valid() && s.Tried(u) && s.Admits(u) && s.Score(u) >= CUTOFF + TIE && Unrivalled(s)
    ensures StandsAlone(s, Choose(Scored(s, true), |s.block|).best.w)
  {
    AnswerStandsOut(s);
  }

  // ---- lines that fail --------------------------------------------------------------------

  /** A cited line and two others that begin like it: five characters of eight and of nine. */
  ghost predicate NearFarLines(cited: string, near: string, far: string, p: string, x: string, y: string, z: string) {
    && |p| == 5 && |x| == 3 && |y| == 3 && |z| == 4
    && cited == p + x && near == p + y && far == p + z
    && Apart(x, near) && Apart(x, far) && '\n' !in x
  }

  /** Such lines. */
  lemma SomeLines()
    ensures NearFarLines("abcdefgh", "abcdexyz", "abcdeuvwx", "abcde", "fgh", "xyz", "uvwx")
  {
  }

  /** One cited line, and a stretch of two. */
  function NearFar(cited: string, near: string, far: string): (s: Search)
    ensures s.Valid()
  {
    Search(SequenceMatcher(), [cited], [near, far], 0, 2, None, w => true)
  }

  lemma TwoLines(near: string, far: string)
    ensures Join([near]) == near && Join([far]) == far && Join([near, far]) == near + "\n" + far
  {
    assert [near, far][1..] == [far];
  }

  /** difflib's ratio of the cited line and a text that begins with the same five characters. */
  lemma BeginningScores(cited: string, text: string, p: string, x: string, y: string)
    requires |p| == 5 && |x| == 3 && cited == p + x && text == p + y && Apart(x, text)
    ensures Ratio(Text(cited), Text(text)) == 10.0 / (|cited| + |text|) as real
  {
    CommonBeginning(p, x, y);
  }

  lemma NearFarShapes(cited: string, near: string, far: string)
    ensures var s := NearFar(cited, near, far);
            && s.Target() == Text(cited) && s.ShapeAt(Window(0, 1)) == Text(near)
            && s.ShapeAt(Window(1, 1)) == Text(far) && s.ShapeAt(Window(0, 2)) == Text(near + "\n" + far)
  {
    var s := NearFar(cited, near, far);
    TwoLines(near, far);
    assert s.current[0..1] == [near] && s.current[1..2] == [far] && s.current[0..2] == [near, far];
  }

  lemma ApartScore(cited: string, near: string, far: string, p: string, x: string, y: string, z: string)
    requires NearFarLines(cited, near, far, p, x, y, z)
    ensures Ratio(Text(cited), Text(near)) == 5.0 / 8.0 && Ratio(Text(cited), Text(far)) == 10.0 / 17.0
  {
    BeginningScores(cited, near, p, x, y);
    BeginningScores(cited, far, p, x, z);
  }

  lemma TogetherScore(cited: string, near: string, far: string, p: string, x: string, y: string, z: string)
    requires NearFarLines(cited, near, far, p, x, y, z)
    ensures Ratio(Text(cited), Text(near + "\n" + far)) == 5.0 / 13.0
  {
    var rest := y + "\n" + far;
    var both := p + rest;
    assert near + "\n" + far == both;
    BeginningScores(cited, both, p, x, rest);
  }

  /** The nearer line scores 5/8; the farther one 10/17, which is under the cutoff and within
      TIE of it; the two together 5/13. */
  lemma NearFarScores(cited: string, near: string, far: string, p: string, x: string, y: string, z: string)
    requires NearFarLines(cited, near, far, p, x, y, z)
    ensures var s := NearFar(cited, near, far);
            && s.Score(Window(0, 1)) == 5.0 / 8.0 && s.Score(Window(1, 1)) == 10.0 / 17.0
            && s.Score(Window(0, 2)) == 5.0 / 13.0
  {
    NearFarShapes(cited, near, far);
    ApartScore(cited, near, far, p, x, y, z);
    TogetherScore(cited, near, far, p, x, y, z);
  }

  lemma NearFarWindows(cited: string, near: string, far: string)
    ensures NearFar(cited, near, far).Windows() == [Window(0, 1), Window(1, 1), Window(0, 2)]
  {
    var s := NearFar(cited, near, far);
    assert s.Row(1, 2) == [] && s.Row(1, 1) == [Window(1, 1)];
    assert s.Row(1, 0) == [Window(0, 1), Window(1, 1)];
    assert s.Row(2, 1) == [];
    assert s.Row(2, 0) == [Window(0, 2)];
    assert s.Rows([2]) == s.Row(2, 0) + s.Rows([]);
    assert s.Rows([1, 2]) == s.Row(1, 0) + s.Rows([2]) by { assert [1, 2][1..] == [2]; }
  }

  /** Of the three windows only the first reaches the cutoff. */
  lemma OneReachesTheCutoff(s: Search, a: Window, b: Window, c: Window)
    requires s.Valid() && s.Windows() == [a, b, c] && s.Admits(a)
    requires s.Score(a) >= CUTOFF && s.Score(b) < CUTOFF && s.Score(c) < CUTOFF
    ensures Scored(s, true) == [SpotAt(s, a)]
  {
    var up := Raised(s, a, CUTOFF, true);
    assert [a, b, c][1..] == [b, c] && [b, c][1..] == [c] && [c][1..] == [];
    assert Pass(s, [c], up, true) == Hit(s, c, up) + Pass(s, [], Raised(s, c, up, true), true) == [];
    assert Pass(s, [b, c], up, true) == Hit(s, b, up) + Pass(s, [c], up, true) == [];
    assert Pass(s, [a, b, c], CUTOFF, true) == Hit(s, a, CUTOFF) + Pass(s, [b, c], up, true);
  }

  lemma OneSpot(spot: Spot)
    ensures Choose([spot], 1) == Choice(spot, [])
  {
    assert Sort([spot], Key(1)) == [spot];
    assert [spot][1..] == [] && Clear(spot.w, []);
    assert Spots([spot], 1) == [spot] + Pick([], [] + [spot]);
  }

  /** Of such lines the nearer is the "edited" answer although the farther is within TIE of it. */
  lemma CutoffHidesATie(cited: string, near: string, far: string, p: string, x: string, y: string, z: string)
    requires NearFarLines(cited, near, far, p, x, y, z)
    ensures var s := NearFar(cited, near, far);
            && Unrivalled(s) && Choose(Scored(s, true), 1).best.w == Window(0, 1)
            && Hidden(s, Window(0, 1), Window(1, 1)) && !StandsAlone(s, Window(0, 1))
  {
    var s := NearFar(cited, near, far);
    NearFarScores(cited, near, far, p, x, y, z);
    NearFarWindows(cited, near, far);
    OneReachesTheCutoff(s, Window(0, 1), Window(1, 1), Window(0, 2));
    OneSpot(SpotAt(s, Window(0, 1)));
    assert Hidden(s, Window(0, 1), Window(1, 1));
  }
}
