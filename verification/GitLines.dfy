/** Two ways of numbering a text's lines: `str.splitlines` breaks at many characters, git at a
    newline only. `_git_lines` translates one into the other, `_overlaps` then picks the diff
    hunks that touch a cited range. */
module GitLines {

  /** A character at which `splitlines` ends a line. */
  predicate IsBreak(c: char) {
    || '\n' <= c <= '\r' || '\U{1C}' <= c <= '\U{1E}' || c == '\U{85}'
    || c == '\U{2028}' || c == '\U{2029}'
  }

  /** How long the line end at the head of `s` is; a CR and the LF after it are one end. */
  function EndLength(s: string): (n: nat)
    requires s != "" && IsBreak(s[0])
    ensures 1 <= n <= |s|
  {
    if s[0] == '\r' && |s| > 1 && s[1] == '\n' then 2 else 1
  }

  /** The length of the first line of `s` without its end. */
  function Width(s: string): (n: nat)
    ensures n <= |s|
    ensures forall i :: 0 <= i < n ==> !IsBreak(s[i])
    ensures n < |s| ==> IsBreak(s[n])
  {
    if s == "" || IsBreak(s[0]) then 0 else 1 + Width(s[1..])
  }

  /** The length of the first line of `s` with its end. */
  function Span(s: string): (n: nat)
    requires s != ""
    ensures 0 < n <= |s|
  {
    Width(s) + if Width(s) < |s| then EndLength(s[Width(s)..]) else 0
  }

  /** `splitlines(keepends=True)`. */
  function Pieces(s: string): seq<string> {
    if s == "" then [] else [s[..Span(s)]] + Pieces(s[Span(s)..])
  }

  /** `splitlines()`. */
  function SplitLines(s: string): seq<string> {
    if s == "" then [] else [s[..Width(s)]] + SplitLines(s[Span(s)..])
  }

  // ---- universal newlines -----------------------------------------------------------------

  /** Reading in text mode: CRLF and a lone CR become LF. */
  function Translate(s: string): string {
    if s == "" then ""
    else if s[0] == '\r' then
      "\n" + Translate(s[EndLength(s)..])
    else [s[0]] + Translate(s[1..])
  }

  lemma {:induction false} TranslateKeepsLine(s: string)
    ensures Width(Translate(s)) == Width(s)
    ensures Translate(s)[..Width(s)] == s[..Width(s)]
    ensures Translate(s)[Width(s)..] == Translate(s[Width(s)..])
  {
    if s == "" || IsBreak(s[0]) {
      assert s[0..] == s;
    } else {
      TranslateKeepsLine(s[1..]);
      var t := Translate(s);
      assert t[1..] == Translate(s[1..]);
      assert s[1..][..Width(s) - 1] == s[1..Width(s)];
      assert t[1..][Width(s) - 1..] == t[Width(s)..];
      assert s[1..][Width(s) - 1..] == s[Width(s)..];
      assert t[..Width(s)] == [t[0]] + t[1..][..Width(s) - 1];
      assert s[..Width(s)] == [s[0]] + s[1..][..Width(s) - 1];
    }
  }

  lemma {:induction false} TranslateKeepsRest(s: string)
    requires s != ""
    ensures Translate(s) != "" && Translate(s)[Span(Translate(s))..] == Translate(s[Span(s)..])
  {
    TranslateKeepsLine(s);
    var w := Width(s);
    var t := Translate(s);
    if w < |s| {
      var tail := s[w..];
      var after := Translate(tail);
      assert t[w..] == after;
      assert after != "" && IsBreak(after[0]) && EndLength(after) == 1;
      assert after[1..] == Translate(tail[EndLength(tail)..]);
      assert tail[EndLength(tail)..] == s[Span(s)..];
      assert t[w..][1..] == t[w + 1..];
    } else {
      assert s[w..] == "";
    }
  }

  /** The lines of a text are the same whether its newlines were translated or not, so what the
      citation counts in the one are the lines of the other. */
  lemma {:induction false} TranslationKeepsLines(s: string)
    ensures SplitLines(Translate(s)) == SplitLines(s)
    decreases |s|
  {
    if s == "" {
    } else {
      TranslateKeepsLine(s);
      TranslateKeepsRest(s);
      TranslationKeepsLines(s[Span(s)..]);
    }
  }

  // ---- where a piece lies -----------------------------------------------------------------

  function Newlines(s: string): nat {
    if s == "" then 0 else Newlines(s[..|s| - 1]) + if s[|s| - 1] == '\n' then 1 else 0
  }

  /** Git's number of the line on which the character at `offset` stands. */
  function GitLine(s: string, offset: nat): nat
    requires offset <= |s|
  {
    1 + Newlines(s[..offset])
  }

  function Start(pieces: seq<string>, i: nat): nat
    requires i <= |pieces|
  {
    if i == 0 then 0 else Start(pieces, i - 1) + |pieces[i - 1]|
  }

  function Joined(pieces: seq<string>): string {
    if pieces == [] then "" else pieces[0] + Joined(pieces[1..])
  }

  /** A line end closes its piece: no newline stands before a piece's last character. */
  ghost predicate EndsOnly(piece: string) {
    piece != "" && forall i :: 0 <= i < |piece| - 1 ==> piece[i] != '\n'
  }

  lemma FirstPiece(s: string)
    requires s != ""
    ensures EndsOnly(s[..Span(s)]) && s[..Width(s)] <= s[..Span(s)]
  {
    var piece := s[..Span(s)];
    var w := Width(s);
    if w < |s| {
      assert s[w..][0] == s[w];
      assert Span(s) <= w + 1 || s[w] == '\r';
    }
    forall i | 0 <= i < |piece| - 1 ensures piece[i] != '\n' {
      assert piece[i] == s[i];
    }
  }

  lemma JoinedHead(piece: string, pieces: seq<string>, all: seq<string>)
    requires all == [piece] + pieces
    ensures Joined(all) == piece + Joined(pieces)
  {
    assert all[1..] == pieces;
  }

  lemma Cut(s: string, n: nat)
    requires n <= |s|
    ensures s == s[..n] + s[n..]
  {
  }

  lemma FirstPieces(s: string)
    requires s != ""
    ensures Pieces(s) == [s[..Span(s)]] + Pieces(s[Span(s)..])
    ensures SplitLines(s) == [s[..Width(s)]] + SplitLines(s[Span(s)..])
  {
  }

  lemma {:induction false} PiecesRebuild(s: string)
    ensures Joined(Pieces(s)) == s && |Pieces(s)| == |SplitLines(s)|
    decreases |s|
  {
    if s == "" {
    } else {
      FirstPieces(s);
      PiecesRebuild(s[Span(s)..]);
      JoinedHead(s[..Span(s)], Pieces(s[Span(s)..]), Pieces(s));
      Cut(s, Span(s));
    }
  }

  lemma {:induction false} PieceShape(s: string, i: nat)
    requires i < |Pieces(s)| == |SplitLines(s)|
    ensures EndsOnly(Pieces(s)[i]) && SplitLines(s)[i] <= Pieces(s)[i]
    decreases |s|
  {
    if i == 0 {
      FirstPiece(s);
    } else {
      PieceShape(s[Span(s)..], i - 1);
    }
  }

  lemma {:induction false} StartOfRest(pieces: seq<string>, i: nat)
    requires 0 < i <= |pieces|
    ensures Start(pieces, i) == |pieces[0]| + Start(pieces[1..], i - 1)
  {
    if i <= 1 {
    } else {
      StartOfRest(pieces, i - 1);
    }
  }

  lemma {:induction false} PieceIsAt(pieces: seq<string>, i: nat)
    requires i < |pieces|
    ensures Start(pieces, i) + |pieces[i]| <= |Joined(pieces)|
    ensures Joined(pieces)[Start(pieces, i)..Start(pieces, i) + |pieces[i]|] == pieces[i]
    decreases i
  {
    var all := Joined(pieces);
    if i == 0 {
    } else {
      PieceIsAt(pieces[1..], i - 1);
      StartOfRest(pieces, i);
      var a := Start(pieces[1..], i - 1);
      assert all[Start(pieces, i)..Start(pieces, i) + |pieces[i]|] == Joined(pieces[1..])[a..a + |pieces[i]|];
    }
  }

  lemma NewlinesStep(s: string, o: nat)
    requires o < |s|
    ensures Newlines(s[..o + 1]) == Newlines(s[..o]) + if s[o] == '\n' then 1 else 0
  {
    assert s[..o + 1][..o] == s[..o];
  }

  lemma {:induction false} NoNewlineBetween(s: string, a: nat, b: nat)
    requires a <= b <= |s| && forall i :: a <= i < b ==> s[i] != '\n'
    ensures GitLine(s, a) == GitLine(s, b)
    decreases b
  {
    if a == b {
    } else {
      NoNewlineBetween(s, a, b - 1);
      NewlinesStep(s, b - 1);
    }
  }

  /** A stretch ended by its only newline, if it has one, stands on one line of git's. */
  ghost predicate OneGitLine(s: string, a: nat, b: nat) {
    && a < b <= |s|
    && (forall o :: a <= o < b ==> GitLine(s, o) == GitLine(s, a))
    && GitLine(s, b) == GitLine(s, a) + if s[b - 1] == '\n' then 1 else 0
  }

  lemma StretchIsOnOneGitLine(s: string, a: nat, b: nat)
    requires a < b <= |s| && forall k :: a <= k < b - 1 ==> s[k] != '\n'
    ensures OneGitLine(s, a, b)
  {
    forall o | a <= o < b ensures GitLine(s, o) == GitLine(s, a) {
      NoNewlineBetween(s, a, o);
    }
    assert GitLine(s, b - 1) == GitLine(s, a);
    NewlinesStep(s, b - 1);
    assert s[..b - 1 + 1] == s[..b];
  }

  ghost predicate Closed(pieces: seq<string>) {
    forall i :: 0 <= i < |pieces| ==> EndsOnly(pieces[i])
  }

  lemma PiecesAreClosed(s: string)
    ensures Closed(Pieces(s)) && Joined(Pieces(s)) == s
  {
    PiecesRebuild(s);
    forall i | 0 <= i < |Pieces(s)| ensures EndsOnly(Pieces(s)[i]) {
      PieceShape(s, i);
    }
  }

  lemma PieceOnOneGitLine(s: string, a: nat, piece: string)
    requires EndsOnly(piece) && a + |piece| <= |s| && s[a..a + |piece|] == piece
    ensures OneGitLine(s, a, a + |piece|)
  {
    forall k | a <= k < a + |piece| - 1 ensures s[k] != '\n' {
      assert s[a..a + |piece|][k - a] == s[k];
    }
    StretchIsOnOneGitLine(s, a, a + |piece|);
  }

  lemma JoinedOnOneGitLine(pieces: seq<string>, i: nat, s: string, a: nat)
    requires i < |pieces| && Closed(pieces) && s == Joined(pieces) && a == Start(pieces, i)
    ensures OneGitLine(s, a, a + |pieces[i]|) && s[a..a + |pieces[i]|] == pieces[i]
  {
    PieceIsAt(pieces, i);
    PieceOnOneGitLine(s, a, pieces[i]);
  }

  lemma PieceNewlines(piece: string)
    requires EndsOnly(piece)
    ensures Newlines(piece) == if piece[|piece| - 1] == '\n' then 1 else 0
  {
    var o := |piece| - 1;
    assert piece[..0] == "" && piece[..|piece|] == piece;
    NoNewlineBetween(piece, 0, o);
    NewlinesStep(piece, o);
  }

  lemma NextGitLine(pieces: seq<string>, i: nat)
    requires i < |pieces| && Closed(pieces)
    ensures Start(pieces, i) <= Start(pieces, i + 1) <= |Joined(pieces)|
    ensures GitLine(Joined(pieces), Start(pieces, i + 1))
            == GitLine(Joined(pieces), Start(pieces, i)) + Newlines(pieces[i])
    ensures Newlines(pieces[i]) <= 1
  {
    JoinedOnOneGitLine(pieces, i, Joined(pieces), Start(pieces, i));
    PieceNewlines(pieces[i]);
    var a := Start(pieces, i);
    assert Joined(pieces)[a..a + |pieces[i]|][|pieces[i]| - 1] == Joined(pieces)[a + |pieces[i]| - 1];
  }

  // ---- _git_lines -------------------------------------------------------------------------

  /** Git's line for each line of `splitlines`. */
  ghost predicate StartsOn(raw: string, pieces: seq<string>, i: nat, line: nat)
    requires i < |pieces|
  {
    Start(pieces, i) <= |raw| && line == GitLine(raw, Start(pieces, i))
  }

  ghost predicate NumberedBy(raw: string, pieces: seq<string>, numbers: seq<nat>) {
    |numbers| <= |pieces| && forall i :: 0 <= i < |numbers| ==> StartsOn(raw, pieces, i, numbers[i])
  }

  ghost predicate Numbered(raw: string, numbers: seq<nat>) {
    |numbers| == |Pieces(raw)| && NumberedBy(raw, Pieces(raw), numbers)
  }

  lemma NumberedNext(raw: string, pieces: seq<string>, numbers: seq<nat>, line: nat)
    requires NumberedBy(raw, pieces, numbers) && |numbers| < |pieces| && StartsOn(raw, pieces, |numbers|, line)
    ensures NumberedBy(raw, pieces, numbers + [line])
  {
    var next := numbers + [line];
    forall i | 0 <= i < |next| ensures StartsOn(raw, pieces, i, next[i]) {
      if i < |numbers| {
        assert StartsOn(raw, pieces, i, numbers[i]);
      }
    }
  }

  lemma Advance(raw: string, pieces: seq<string>, numbers: seq<nat>, line: nat)
    requires Closed(pieces) && Joined(pieces) == raw
    requires NumberedBy(raw, pieces, numbers) && |numbers| < |pieces| && StartsOn(raw, pieces, |numbers|, line)
    ensures NumberedBy(raw, pieces, numbers + [line])
    ensures |numbers| + 1 < |pieces| ==> StartsOn(raw, pieces, |numbers| + 1, line + Newlines(pieces[|numbers|]))
  {
    NumberedNext(raw, pieces, numbers, line);
    NextGitLine(pieces, |numbers|);
  }

  method GitNumbers(raw: string) returns (numbers: seq<nat>)
    ensures Numbered(raw, numbers)
  {
    numbers := [];
    var line: nat := 1;
    var pieces := Pieces(raw);
    var k := 0;
    PiecesAreClosed(raw);
    while k < |pieces|
      invariant k == |numbers| <= |pieces|
      invariant k < |pieces| ==> StartsOn(raw, pieces, k, line)
      invariant NumberedBy(raw, pieces, numbers)
    {
      Advance(raw, pieces, numbers, line);
      numbers := numbers + [line];
      line := line + Newlines(pieces[k]);
      k := k + 1;
    }
  }

  /** Every character of a line stands on the one line of git's that the line is given. */
  lemma EveryCharacterIsThere(raw: string, numbers: seq<nat>, i: nat, o: nat)
    requires Numbered(raw, numbers) && i < |numbers|
    requires Start(Pieces(raw), i) <= o < Start(Pieces(raw), i) + |Pieces(raw)[i]|
    ensures o < |raw| && GitLine(raw, o) == numbers[i]
  {
    PiecesAreClosed(raw);
    JoinedOnOneGitLine(Pieces(raw), i, raw, Start(Pieces(raw), i));
  }

  // ---- _overlaps --------------------------------------------------------------------------

  predicate Overlaps(start: nat, count: nat, first: nat, last: nat) {
    if count == 0 then first <= start < last
    else start <= last && start + count - 1 >= first
  }

  lemma StepIsAtMostOne(raw: string, numbers: seq<nat>, i: nat)
    requires Numbered(raw, numbers) && i + 1 < |numbers|
    ensures numbers[i] <= numbers[i + 1] <= numbers[i] + 1
  {
    PiecesAreClosed(raw);
    NextGitLine(Pieces(raw), i);
  }

  lemma {:induction false} NumbersHaveNoGaps(raw: string, numbers: seq<nat>, i: nat, j: nat, line: nat)
    returns (k: nat)
    requires Numbered(raw, numbers) && i <= j < |numbers| && numbers[i] <= line <= numbers[j]
    ensures i <= k <= j && numbers[k] == line
    decreases j
  {
    if line == numbers[j] {
      k := j;
    } else {
      StepIsAtMostOne(raw, numbers, j - 1);
      k := NumbersHaveNoGaps(raw, numbers, i, j - 1, line);
    }
  }

  lemma {:induction false} NumbersRise(raw: string, numbers: seq<nat>, i: nat, j: nat)
    requires Numbered(raw, numbers) && i <= j < |numbers|
    ensures numbers[i] <= numbers[j]
    decreases j
  {
    if i == j {
    } else {
      StepIsAtMostOne(raw, numbers, j - 1);
      NumbersRise(raw, numbers, i, j - 1);
    }
  }

  /** A cited line, counted from 1 as the citation counts, stands on this line of git's. */
  ghost predicate Cites(numbers: seq<nat>, first: nat, last: nat, line: nat)
    requires 1 <= first <= last <= |numbers|
  {
    exists k :: first - 1 <= k <= last - 1 && numbers[k] == line
  }

  lemma CitedIsTheSpan(raw: string, numbers: seq<nat>, first: nat, last: nat, line: nat)
    requires Numbered(raw, numbers) && 1 <= first <= last <= |numbers|
    ensures Cites(numbers, first, last, line) <==> numbers[first - 1] <= line <= numbers[last - 1]
  {
    if Cites(numbers, first, last, line) {
      var k :| first - 1 <= k <= last - 1 && numbers[k] == line;
      NumbersRise(raw, numbers, first - 1, k);
      NumbersRise(raw, numbers, k, last - 1);
    }
    if numbers[first - 1] <= line <= numbers[last - 1] {
      var k := NumbersHaveNoGaps(raw, numbers, first - 1, last - 1, line);
    }
  }

  /** A hunk is kept exactly when it holds a git line on which a cited line stands; one that
      only inserts, exactly when it opens up between two cited git lines. */
  lemma HunkIsKeptIff(raw: string, numbers: seq<nat>, first: nat, last: nat, start: nat, count: nat)
    requires Numbered(raw, numbers) && 1 <= first <= last <= |numbers|
    ensures Overlaps(start, count, numbers[first - 1], numbers[last - 1])
            <==> if count > 0
                 then exists line: nat :: start <= line < start + count && Cites(numbers, first, last, line)
                 else Cites(numbers, first, last, start) && Cites(numbers, first, last, start + 1)
  {
    var low, high := numbers[first - 1], numbers[last - 1];
    NumbersRise(raw, numbers, first - 1, last - 1);
    CitedIsTheSpan(raw, numbers, first, last, start);
    CitedIsTheSpan(raw, numbers, first, last, start + 1);
    if count > 0 {
      forall line: nat ensures Cites(numbers, first, last, line) <==> low <= line <= high {
        CitedIsTheSpan(raw, numbers, first, last, line);
      }
      if Overlaps(start, count, low, high) {
        var line := if start < low then low else start;
        assert Cites(numbers, first, last, line);
      }
    }
  }
}
