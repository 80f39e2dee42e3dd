/** Where cited lines sit now (`classify`): copies, rivals, edits, deletions. The theorems say
    what each answer means, so that none of them is a guess. */
module Citation {
  import opened Alignment
  import opened Lines
  import opened Places
  import opened Sorting
  import opened WindowScan
  import opened Wrappers

  const MAX_REGION: nat := 400
  const VOUCHED: nat := 2

  datatype Kind = Unchanged | Moved | Edited | Deleted | Ambiguous

  /** A 1-based inclusive line range. */
  datatype Span = Span(first: nat, last: nat)

  datatype Placement = Placement(kind: Kind, now: Option<Span>, candidates: seq<Span>,
                           anchored: Option<bool>, similarity: Option<real>)

  /** A citation of `pinned[start..end]`, to be found in `current`. `kept` is what the
      whole-file alignment kept; `d` is difflib's ratio. */
  datatype Case = Case(pinned: seq<string>, start: nat, end: nat, current: seq<string>,
                       kept: map<nat, nat>, d: Difflib)
  {
    ghost predicate Valid() {
      start < end <= |pinned| && Matching(kept, pinned, current)
    }

    predicate InPinned() {
      start < end <= |pinned|
    }

    function Block(): seq<string>
      requires InPinned()
    {
      pinned[start..end]
    }

    function Context(): Context
      requires InPinned()
    {
      Neighbours(pinned, start, end)
    }

    /** `_region`, which lies in the current file. */
    function Between(): (r: Region)
      requires Valid()
      ensures r.lo <= r.hi <= |current|
    {
      RegionBounds(kept, pinned, start, end, current);
      RegionOf(kept, pinned, start, end, current)
    }

    predicate CopyAt(j: nat)
      requires InPinned()
    {
      j + (end - start) <= |current| && current[j..j + (end - start)] == Block()
    }

    /** How many pinned neighbours flank the window; 0 outside the file. */
    function FlankedBy(w: Window): nat
      requires InPinned()
    {
      if w.j + w.n <= |current| then Agreement(Context(), current, w.j, w.n) else 0
    }

    /** The scan between the anchors, or of the whole file. */
    function Near(): (s: Search)
      requires Valid()
      ensures s.Valid() && s.current == current
    {
      Search(d, Block(), current, Between().lo, Between().hi, None, w => true)
    }

    function Whole(): (s: Search)
      requires Valid()
      ensures s.Valid() && s.current == current
    {
      Search(d, Block(), current, 0, |current|, None, w => true)
    }

    /** The scan for edits in place: not over the copy, flanked by `need` neighbours at least. */
    function InPlaceSearch(copy: Window, need: nat): (s: Search)
      requires Valid()
      ensures s.Valid() && s.current == current
    {
      Search(d, Block(), current,
             if need == 2 then 0 else Between().lo, if need == 2 then |current| else Between().hi,
             Some(copy), w => FlankedBy(w) >= need)
    }
  }

  function SpanOf(w: Window): Span {
    Span(w.j + 1, w.j + w.n)
  }

  function Spans(s: seq<Spot>): seq<Span> {
    seq(|s|, i requires 0 <= i < |s| => SpanOf(s[i].w))
  }

  predicate NotAfter(x: Span, y: Span) {
    x.first < y.first || (x.first == y.first && x.last <= y.last)
  }

  function SpanOrder(): (Span, Span) -> bool {
    (x, y) => NotAfter(x, y)
  }

  /** `sorted` over `[first, last]` lists. */
  function SortSpans(s: seq<Span>): seq<Span> {
    Sort(s, SpanOrder())
  }

  /** The 0-based places of the exact copies, from `j` on. */
  function Hits(c: Case, j: nat): seq<nat>
    requires c.InPinned() && j <= |c.current| + 1
    decreases |c.current| + 1 - j
  {
    if j > |c.current| then [] else (if c.CopyAt(j) then [j] else []) + Hits(c, j + 1)
  }

  predicate FullyFlanked(c: Case, j: nat)
    requires c.InPinned()
  {
    c.FlankedBy(Window(j, c.end - c.start)) == 2
  }

  function FlankTest(c: Case): nat -> bool
    requires c.InPinned()
  {
    (j: nat) => FullyFlanked(c, j)
  }

  function Keep(s: seq<nat>, p: nat -> bool): seq<nat> {
    if s == [] then [] else (if p(s[0]) then [s[0]] else []) + Keep(s[1..], p)
  }

  /** The copies that both pinned neighbours still flank. */
  function Flanked(c: Case, hits: seq<nat>): seq<nat>
    requires c.InPinned()
  {
    Keep(hits, FlankTest(c))
  }

  function CopySpan(c: Case, j: nat): Span
    requires c.InPinned()
  {
    Span(j + 1, j + (c.end - c.start))
  }

  function CopySpans(c: Case, hits: seq<nat>): seq<Span>
    requires c.InPinned()
  {
    seq(|hits|, i requires 0 <= i < |hits| => CopySpan(c, hits[i]))
  }

  /** The exact copy is reported `at` its place. */
  function At(c: Case, j: nat, anchored: bool): Placement
    requires c.InPinned()
  {
    Placement(if j == c.start then Unchanged else Moved, Some(CopySpan(c, j)), [], Some(anchored), None)
  }

  /** `_in_place`, of its search: the whole stretch when it is too wide, or the places found. */
  function InPlaceOf(s: Search, need: nat, size: nat): seq<Span>
    requires s.Valid()
  {
    if need == 0 && s.hi - s.lo > MAX_REGION then [Span(s.lo + 1, s.hi)] else Spans(Spots(Scored(s, false), size))
  }

  /** `_choose`, as a result. */
  function Chosen(scored: seq<Spot>, size: nat, anchored: bool): (r: Placement)
    requires scored != []
    ensures r.kind.Edited? || r.kind.Ambiguous?
  {
    var choice := Choose(scored, size);
    if choice.rivals != [] then
      Placement(Ambiguous, None, SortSpans([SpanOf(choice.best.w)] + Spans(choice.rivals)), Some(anchored), None)
    else
      Placement(Edited, Some(SpanOf(choice.best.w)), [], Some(anchored), Some(choice.best.ratio))
  }

  function TextsOf(lines: seq<string>): set<string> {
    set t | t in lines
  }

  /** The non-blank stripped texts that occur exactly once in the file. */
  function Distinct(lines: seq<string>): set<string> {
    set t | t in StripAll(lines) && t != "" && multiset(StripAll(lines))[t] == 1
  }

  predicate VouchesFlank(a: Option<string>, b: Option<string>, distinct: set<string>) {
    a.Some? && a == b && Strip(a.value) in distinct
  }

  /** `_vouched`: unchanged distinct lines that vouch for a window as the block's new place. */
  function Vouching(c: Case, w: Window): nat
    requires c.InPinned()
  {
    if w.j + w.n > |c.current| then 0 else
      var distinct := Distinct(c.pinned);
      |TextsOf(StripAll(c.Block())) * distinct * TextsOf(StripAll(c.current[w.j..w.j + w.n]))|
      + (if VouchesFlank(c.Context().above, Above(c.current, w.j), distinct) then 1 else 0)
      + (if VouchesFlank(c.Context().below, Below(c.current, w.j + w.n), distinct) then 1 else 0)
  }

  function VouchedSpots(c: Case, s: seq<Spot>): seq<Spot>
    requires c.InPinned()
  {
    if s == [] then [] else (if Vouching(c, s[0].w) >= VOUCHED then [s[0]] else []) + VouchedSpots(c, s[1..])
  }

  /** The vouched windows of the whole file; none when the anchored stretch was all of it. */
  function Far(c: Case): seq<Spot>
    requires c.Valid()
  {
    if c.Between().lo == 0 && c.Between().hi == |c.current| then []
    else VouchedSpots(c, Scored(c.Whole(), false))
  }

  function CountIn(lines: seq<string>, region: seq<string>): nat {
    if lines == [] then 0 else (if lines[0] in region then 1 else 0) + CountIn(lines[1..], region)
  }

  function NonBlank(lines: seq<string>): seq<string> {
    if lines == [] then [] else (if lines[0] != "" then [lines[0]] else []) + NonBlank(lines[1..])
  }

  /** At least a third of the block's non-blank lines still sit between the anchors. */
  predicate Rewritten(c: Case)
    requires c.Valid()
  {
    var r := c.Between();
    var lines := NonBlank(StripAll(c.Block()));
    lines != [] && 3 * CountIn(lines, StripAll(c.current[r.lo..r.hi])) >= |lines|
  }

  function MaxRatio(s: seq<Spot>): real {
    if s == [] then 0.0 else var m := MaxRatio(s[1..]); if s[0].ratio > m then s[0].ratio else m
  }

  /** Rewritten between the anchors, and perhaps also copied elsewhere. */
  function RewrittenAnswer(r: Region, far: seq<Spot>, size: nat): Placement {
    var spots := AtLeast(Spots(far, size), MaxRatio(far) - TIE);
    Placement(Ambiguous, None, SortSpans([Span(r.lo + 1, r.hi)] + Spans(spots)), Some(r.anchored), None)
  }

  /** The rest of `_nearest`, once nothing between the anchors resembles the block. */
  function Elsewhere(r: Region, rewritten: bool, far: seq<Spot>, size: nat): Placement {
    if rewritten then RewrittenAnswer(r, far, size)
    else if far != [] then Chosen(far, size, false)
    else Placement(Deleted, None, [], Some(r.anchored), None)
  }

  /** What `_nearest` finds out before it decides. */
  datatype Findings = Findings(region: Region, near: seq<Spot>, rewritten: bool, far: seq<Spot>, size: nat)

  /** `_nearest`, from what its scans found. */
  function Decide(f: Findings): (result: Placement)
    ensures !result.kind.Unchanged? && !result.kind.Moved?
  {
    if f.region.hi - f.region.lo > MAX_REGION
    then Placement(Ambiguous, None, [Span(f.region.lo + 1, f.region.hi)], Some(f.region.anchored), None)
    else if f.near != [] then Chosen(f.near, f.size, f.region.anchored)
    else Elsewhere(f.region, f.rewritten, f.far, f.size)
  }

  function FindingsOf(c: Case): Findings
    requires c.Valid()
  {
    Findings(c.Between(), Scored(c.Near(), true), Rewritten(c), Far(c), c.end - c.start)
  }

  /** `_nearest`: no exact copy exists. */
  function Nearest(c: Case): (r: Placement)
    requires c.Valid()
    ensures !r.kind.Unchanged? && !r.kind.Moved?
  {
    Decide(FindingsOf(c))
  }

  /** How well a rival of the copy at `hit` must be flanked. */
  function Need(c: Case, hit: nat): nat
    requires c.InPinned()
  {
    if hit != c.start then c.FlankedBy(Window(hit, c.end - c.start)) else 2
  }

  function Rivalled(copy: Span, rivals: seq<Span>): Placement {
    Placement(Ambiguous, None, SortSpans([copy] + rivals), None, None)
  }

  /** Where `_in_place` looks for rivals of the copy. */
  function RivalSearch(c: Case, hit: nat): (s: Search)
    requires c.Valid()
    ensures s.Valid() && s.current == c.current
  {
    c.InPlaceSearch(Window(hit, c.end - c.start), Need(c, hit))
  }

  /** The rivals looked for, once the copy lacks a neighbour. */
  function RivalsOf(c: Case, hit: nat): seq<Span>
    requires c.Valid()
  {
    if c.FlankedBy(Window(hit, c.end - c.start)) < 2 then InPlaceOf(RivalSearch(c, hit), Need(c, hit), c.end - c.start)
    else []
  }

  /** The one exact copy, flanked by `agree` neighbours, and its rivals. */
  function SingleOf(c: Case, hit: nat, agree: nat, rivals: seq<Span>): Placement
    requires c.InPinned()
  {
    if rivals != [] then Rivalled(CopySpan(c, hit), rivals) else At(c, hit, agree == 2)
  }

  /** `classify`, the one exact copy being at `hit`. */
  function Single(c: Case, hit: nat): Placement
    requires c.Valid()
  {
    SingleOf(c, hit, c.FlankedBy(Window(hit, c.end - c.start)), RivalsOf(c, hit))
  }

  /** `classify`, with several exact copies. */
  function Several(c: Case, hits: seq<nat>): Placement
    requires c.Valid()
  {
    var agreed := Flanked(c, hits);
    if |agreed| == 1 then At(c, agreed[0], true) else Placement(Ambiguous, None, CopySpans(c, hits), None, None)
  }

  /** `classify`. */
  function Classify(c: Case): Placement
    requires c.Valid()
  {
    if c.pinned == c.current then Placement(Unchanged, Some(Span(c.start + 1, c.end)), [], Some(true), None)
    else
      var hits := Hits(c, 0);
      if |hits| == 1 then Single(c, hits[0]) else if hits != [] then Several(c, hits) else Nearest(c)
  }

  lemma {:induction false} HitsAreCopies(c: Case, j: nat)
    requires c.InPinned() && j <= |c.current| + 1
    ensures forall k :: k in Hits(c, j) <==> k >= j && c.CopyAt(k)
    ensures forall x, y :: 0 <= x < y < |Hits(c, j)| ==> Hits(c, j)[x] < Hits(c, j)[y]
    decreases |c.current| + 1 - j
  {
    if j > |c.current| {
    } else {
      HitsAreCopies(c, j + 1);
      var rest := Hits(c, j + 1);
      forall y | 0 <= y < |rest| ensures j < rest[y] {
        assert rest[y] in rest;
      }
    }
  }
}
