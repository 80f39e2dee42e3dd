/** What vouches for a new place of a moved and edited block (`_distinct`, `_vouched`): lines of
    the pinned file whose text occurs there once, still in the place or still flanking it. */
module Vouchers {
  import opened Citation
  import opened Lines
  import opened WindowScan
  import opened Wrappers

  /** The line is not blank and no other pinned line reads like it, whitespace aside. */
  ghost predicate OneOfItsKind(pinned: seq<string>, i: nat) {
    && i < |pinned| && Strip(pinned[i]) != ""
    && forall k :: 0 <= k < |pinned| && Strip(pinned[k]) == Strip(pinned[i]) ==> k == i
  }

  /** The stripped line occurs in the window. */
  ghost predicate InWindow(c: Case, w: Window, text: string)
    requires w.j + w.n <= |c.current|
  {
    exists k :: w.j <= k < w.j + w.n && Strip(c.current[k]) == text
  }

  /** Pinned line `i` vouches for the window: a cited line found in it, or the pinned
      neighbour above or below, still its neighbour there. */
  ghost predicate Vouches(c: Case, w: Window, i: nat)
    requires c.InPinned() && w.j + w.n <= |c.current|
  {
    && OneOfItsKind(c.pinned, i)
    && if i < c.start then Above(c.pinned, c.start) == Some(c.pinned[i]) && Above(c.current, w.j) == Some(c.pinned[i])
       else if i < c.end then InWindow(c, w, Strip(c.pinned[i]))
       else Below(c.pinned, c.end) == Some(c.pinned[i]) && Below(c.current, w.j + w.n) == Some(c.pinned[i])
  }

  // ---- distinct texts ---------------------------------------------------------------------

  lemma CountSplit(s: seq<string>, i: nat)
    requires i < |s|
    ensures multiset(s)[s[i]] == 1 + multiset(s[..i])[s[i]] + multiset(s[i + 1..])[s[i]]
  {
    assert s == (s[..i] + [s[i]]) + s[i + 1..];
  }

  lemma CountedAgain(s: seq<string>, i: nat, k: nat)
    requires i < |s| && k < |s| && k != i && s[k] == s[i]
    ensures multiset(s)[s[i]] >= 2
  {
    CountSplit(s, i);
    if k < i {
      assert s[..i][k] in multiset(s[..i]);
    } else {
      assert s[i + 1..][k - i - 1] in multiset(s[i + 1..]);
    }
  }

  lemma {:induction false} CountedOnce(s: seq<string>, i: nat)
    requires i < |s|
    ensures multiset(s)[s[i]] == 1 <==> forall k :: 0 <= k < |s| && s[k] == s[i] ==> k == i
  {
    CountSplit(s, i);
    forall k | 0 <= k < |s| && k != i && s[k] == s[i] ensures multiset(s)[s[i]] >= 2 {
      CountedAgain(s, i, k);
    }
    if s[i] in multiset(s[..i]) {
      var k :| 0 <= k < i && s[..i][k] == s[i];
      assert s[k] == s[i];
    } else if s[i] in multiset(s[i + 1..]) {
      var k :| 0 <= k < |s| - i - 1 && s[i + 1..][k] == s[i];
      assert s[i + 1 + k] == s[i];
    }
  }

  lemma DistinctIsOneOfItsKind(pinned: seq<string>, i: nat)
    requires i < |pinned|
    ensures Strip(pinned[i]) in Distinct(pinned) <==> OneOfItsKind(pinned, i)
  {
    var texts := StripAll(pinned);
    CountedOnce(texts, i);
    assert texts[i] == Strip(pinned[i]);
    assert Strip(pinned[i]) in Distinct(pinned) <==> texts[i] != "" && multiset(texts)[texts[i]] == 1;
    if OneOfItsKind(pinned, i) {
      forall k | 0 <= k < |texts| && texts[k] == texts[i] ensures k == i {
        assert Strip(pinned[k]) == Strip(pinned[i]);
      }
    }
    if texts[i] != "" && multiset(texts)[texts[i]] == 1 {
      forall k | 0 <= k < |pinned| && Strip(pinned[k]) == Strip(pinned[i]) ensures k == i {
        assert texts[k] == texts[i];
      }
    }
  }

  // ---- the three summands of `_vouched` ---------------------------------------------------

  function Own(c: Case, w: Window): set<string>
    requires c.InPinned() && w.j + w.n <= |c.current|
  {
    TextsOf(StripAll(c.Block())) * Distinct(c.pinned) * TextsOf(StripAll(c.current[w.j..w.j + w.n]))
  }

  lemma TextIn(lines: seq<string>, a: nat, b: nat, text: string)
    requires a <= b <= |lines|
    ensures text in TextsOf(StripAll(lines[a..b])) <==> exists k :: a <= k < b && Strip(lines[k]) == text
  {
    var s := StripAll(lines[a..b]);
    if text in s {
      var k :| 0 <= k < |s| && s[k] == text;
      assert lines[a + k] == lines[a..b][k];
    }
    if k :| a <= k < b && Strip(lines[k]) == text {
      assert s[k - a] == text;
    }
  }

  lemma OwnIs(c: Case, w: Window, i: nat)
    requires c.InPinned() && w.j + w.n <= |c.current| && c.start <= i < c.end
    ensures Strip(c.pinned[i]) in Own(c, w) <==> Vouches(c, w, i)
  {
    var text := Strip(c.pinned[i]);
    TextIn(c.pinned, c.start, c.end, text);
    TextIn(c.current, w.j, w.j + w.n, text);
    DistinctIsOneOfItsKind(c.pinned, i);
  }

  lemma OwnHasALine(c: Case, w: Window, text: string) returns (i: nat)
    requires c.InPinned() && w.j + w.n <= |c.current| && text in Own(c, w)
    ensures c.start <= i < c.end && Strip(c.pinned[i]) == text && Vouches(c, w, i)
  {
    TextIn(c.pinned, c.start, c.end, text);
    i :| c.start <= i < c.end && Strip(c.pinned[i]) == text;
    OwnIs(c, w, i);
  }

  lemma {:induction false} AboveIsALine(lines: seq<string>, start: nat) returns (i: nat)
    requires start <= |lines| && Above(lines, start).Some?
    ensures i < start && Above(lines, start) == Some(lines[i])
    decreases start
  {
    if !Blank(lines[start - 1]) {
      i := start - 1;
    } else {
      i := AboveIsALine(lines, start - 1);
    }
  }

  lemma {:induction false} BelowIsALine(lines: seq<string>, end: nat) returns (i: nat)
    requires end <= |lines| && Below(lines, end).Some?
    ensures end <= i < |lines| && Below(lines, end) == Some(lines[i])
    decreases |lines| - end
  {
    if !Blank(lines[end]) {
      i := end;
    } else {
      i := BelowIsALine(lines, end + 1);
    }
  }

  predicate AboveVouches(c: Case, w: Window)
    requires c.InPinned() && w.j + w.n <= |c.current|
  {
    VouchesFlank(c.Context().above, Above(c.current, w.j), Distinct(c.pinned))
  }

  predicate BelowVouches(c: Case, w: Window)
    requires c.InPinned() && w.j + w.n <= |c.current|
  {
    VouchesFlank(c.Context().below, Below(c.current, w.j + w.n), Distinct(c.pinned))
  }

  lemma AboveIs(c: Case, w: Window)
    requires c.InPinned() && w.j + w.n <= |c.current|
    ensures AboveVouches(c, w) <==> exists i :: 0 <= i < c.start && Vouches(c, w, i)
  {
    if AboveVouches(c, w) {
      var i := AboveIsALine(c.pinned, c.start);
      DistinctIsOneOfItsKind(c.pinned, i);
      assert Vouches(c, w, i);
    }
    if i :| 0 <= i < c.start && Vouches(c, w, i) {
      DistinctIsOneOfItsKind(c.pinned, i);
    }
  }

  lemma BelowIs(c: Case, w: Window)
    requires c.InPinned() && w.j + w.n <= |c.current|
    ensures BelowVouches(c, w) <==> exists i :: c.end <= i < |c.pinned| && Vouches(c, w, i)
  {
    if BelowVouches(c, w) {
      var i := BelowIsALine(c.pinned, c.end);
      DistinctIsOneOfItsKind(c.pinned, i);
      assert Vouches(c, w, i);
    }
    if i :| c.end <= i < |c.pinned| && Vouches(c, w, i) {
      DistinctIsOneOfItsKind(c.pinned, i);
    }
  }

  lemma VouchingIs(c: Case, w: Window)
    requires c.InPinned() && w.j + w.n <= |c.current|
    ensures Vouching(c, w)
            == |Own(c, w)| + (if AboveVouches(c, w) then 1 else 0) + (if BelowVouches(c, w) then 1 else 0)
  {
  }

  // ---- two lines --------------------------------------------------------------------------

  lemma TwoInASet(s: set<string>) returns (a: string, b: string)
    requires |s| >= 2
    ensures a in s && b in s && a != b
  {
    a :| a in s;
    assert |s - {a}| >= 1;
    b :| b in s - {a};
  }

  lemma AtLeastTwo(s: set<string>, a: string, b: string)
    requires a in s && b in s && a != b
    ensures |s| >= 2
  {
    assert {a, b} <= s;
    assert |s - {a, b}| == |s| - |{a, b}|;
  }

  /** Two lines above the block cannot both vouch, nor two below: they would be one line. */
  lemma OneOnEachSide(c: Case, w: Window, i: nat, k: nat)
    requires c.InPinned() && w.j + w.n <= |c.current| && Vouches(c, w, i) && Vouches(c, w, k) && i != k
    ensures !(i < c.start && k < c.start) && !(i >= c.end && k >= c.end)
  {
  }

  lemma TwoLines(c: Case, w: Window) returns (i: nat, k: nat)
    requires c.InPinned() && w.j + w.n <= |c.current| && Vouching(c, w) >= VOUCHED
    ensures i != k && Vouches(c, w, i) && Vouches(c, w, k)
  {
    VouchingIs(c, w);
    AboveIs(c, w);
    BelowIs(c, w);
    var own := Own(c, w);
    if |own| >= 2 {
      var a, b := TwoInASet(own);
      i := OwnHasALine(c, w, a);
      k := OwnHasALine(c, w, b);
    } else if |own| == 1 {
      var a :| a in own;
      i := OwnHasALine(c, w, a);
      if AboveVouches(c, w) {
        k :| 0 <= k < c.start && Vouches(c, w, k);
      } else {
        k :| c.end <= k < |c.pinned| && Vouches(c, w, k);
      }
    } else {
      i :| 0 <= i < c.start && Vouches(c, w, i);
      k :| c.end <= k < |c.pinned| && Vouches(c, w, k);
    }
  }

  lemma TwoLinesAreEnough(c: Case, w: Window, i: nat, k: nat)
    requires c.InPinned() && w.j + w.n <= |c.current| && i < k && Vouches(c, w, i) && Vouches(c, w, k)
    ensures Vouching(c, w) >= VOUCHED
  {
    VouchingIs(c, w);
    AboveIs(c, w);
    BelowIs(c, w);
    OneOnEachSide(c, w, i, k);
    var own := Own(c, w);
    if c.start <= i < c.end {
      OwnIs(c, w, i);
    }
    if c.start <= k < c.end {
      OwnIs(c, w, k);
    }
    if c.start <= i && k < c.end {
      AtLeastTwo(own, Strip(c.pinned[i]), Strip(c.pinned[k]));
    } else {
      assert own == {} ==> i < c.start && k >= c.end;
    }
  }

  /** A place away from the anchors is vouched for exactly when two different lines of the pinned
      file vouch for it, each the only one of its text there. */
  lemma VouchedIff(c: Case, w: Window)
    requires c.InPinned() && w.j + w.n <= |c.current|
    ensures Vouching(c, w) >= VOUCHED <==> exists i, k :: i < k && Vouches(c, w, i) && Vouches(c, w, k)
  {
    if Vouching(c, w) >= VOUCHED {
      var i, k := TwoLines(c, w);
      if k < i {
        i, k := k, i;
      }
      assert i < k && Vouches(c, w, i) && Vouches(c, w, k);
    }
    if i, k :| i < k && Vouches(c, w, i) && Vouches(c, w, k) {
      TwoLinesAreEnough(c, w, i, k);
    }
  }
}
