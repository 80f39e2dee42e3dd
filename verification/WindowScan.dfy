/** Scoring windows of the current file against a cited block (`_scan`), picking the
    non-overlapping places (`_spots`) and answering with the best or with a tie (`_choose`).
    difflib's ratio is an arbitrary function; its two cheap forms only bound it from above. */
module WindowScan {
  import opened Lines
  import opened Wrappers

  const CUTOFF: real := 0.6
  const TIE: real := 0.05
  const SHORT: nat := 3

  /** What difflib compares: characters for a few lines, stripped lines for a longer block. */
  datatype Shape = Text(text: string) | Stripped(lines: seq<string>)

  datatype Difflib = Difflib(ratio: (Shape, Shape) -> real,
                             quick: (Shape, Shape) -> real,
                             realQuick: (Shape, Shape) -> real)

  ghost predicate UpperBounds(d: Difflib) {
    forall a, b :: d.ratio(a, b) <= d.quick(a, b) && d.ratio(a, b) <= d.realQuick(a, b)
  }

  function Join(lines: seq<string>): string {
    if lines == [] then "" else if |lines| == 1 then lines[0] else lines[0] + "\n" + Join(lines[1..])
  }

  function ShapeOf(short: bool, lines: seq<string>): Shape {
    if short then Text(Join(lines)) else Stripped(StripAll(lines))
  }

  /** `current[j..j + n]`, the `(j, n)` of the source's tuples. */
  datatype Window = Window(j: nat, n: nat)

  predicate Disjoint(a: Window, b: Window) {
    a.j >= b.j + b.n || a.j + a.n <= b.j
  }

  /** One call of `_scan`, its arguments but `rising`. `allow` is the `keep` callback. */
  datatype Search = Search(d: Difflib, block: seq<string>, current: seq<string>, lo: nat, hi: nat,
                           skip: Option<Window>, allow: Window -> bool)
  {
    predicate Valid() {
      block != [] && lo <= hi <= |current|
    }

    function Target(): Shape {
      ShapeOf(|block| <= SHORT, block)
    }

    function ShapeAt(w: Window): Shape
      requires w.j + w.n <= |current|
    {
      ShapeOf(|block| <= SHORT, current[w.j..w.j + w.n])
    }

    /** The window's difflib ratio (0 outside the file, where no window lies). */
    function Score(w: Window): real {
      if w.j + w.n <= |current| then d.ratio(Target(), ShapeAt(w)) else 0.0
    }

    /** Scored at all: not empty, not over the skipped copy, not refused by `keep`. */
    predicate Admits(w: Window) {
      w.n > 0 && (skip.Some? ==> Disjoint(w, skip.value)) && allow(w)
    }

    /** The window lengths tried, ascending. */
    function Lengths(): (r: seq<nat>)
      requires Valid()
    {
      if |block| == 1 then [1, 2] else [|block| - 1, |block|, |block| + 1]
    }

    /** `current[j:min(j + length, hi)]`. */
    function At(length: nat, j: nat): Window
      requires Valid() && lo <= j <= hi
    {
      Window(j, if j + length <= hi then length else hi - j)
    }

    function LastStart(length: nat): (r: nat)
      requires Valid()
      ensures lo <= r <= hi
    {
      if lo + length <= hi then hi - length else lo
    }

    /** The windows of one length from `j` on, in the order they are tried. */
    function Row(length: nat, j: nat): seq<Window>
      requires Valid() && lo <= j <= LastStart(length) + 1
      decreases LastStart(length) + 1 - j
    {
      if j > LastStart(length) then [] else [At(length, j)] + Row(length, j + 1)
    }

    function Rows(lengths: seq<nat>): seq<Window>
      requires Valid()
    {
      if lengths == [] then [] else Row(lengths[0], lo) + Rows(lengths[1..])
    }

    /** Every window, in the order `_scan` tries them. */
    function Windows(): seq<Window>
      requires Valid()
    {
      Rows(Lengths())
    }

    /** The windows `_scan` looks at, without the loops: inside the stretch, and of one of the
        three lengths unless the stretch itself is shorter. */
    predicate Tried(w: Window)
      requires Valid()
    {
      && lo <= w.j && w.j + w.n <= hi
      && (w.n in Lengths() || (w.j == lo && w.n == hi - lo && exists l :: l in Lengths() && hi - lo < l))
    }
  }

  datatype Spot = Spot(ratio: real, w: Window)

  /** The window, when it is scored at this floor. */
  function Hit(s: Search, w: Window, floor: real): seq<Spot> {
    if s.Admits(w) && s.Score(w) >= floor then [Spot(s.Score(w), w)] else []
  }

  /** The floor once the window was tried. */
  function Raised(s: Search, w: Window, floor: real, rising: bool): real {
    if rising && Hit(s, w, floor) != [] && s.Score(w) - TIE > floor then s.Score(w) - TIE else floor
  }

  /** `_scan` over the windows still to try, from the floor reached so far. */
  function Pass(s: Search, ws: seq<Window>, floor: real, rising: bool): seq<Spot> {
    if ws == [] then [] else Hit(s, ws[0], floor) + Pass(s, ws[1..], Raised(s, ws[0], floor, rising), rising)
  }

  function Scored(s: Search, rising: bool): seq<Spot>
    requires s.Valid()
  {
    Pass(s, s.Windows(), CUTOFF, rising)
  }

  /** One window: the cheap upper bounds only skip work. */
  method Try(s: Search, w: Window, floor: real, rising: bool) returns (hit: seq<Spot>, raised: real)
    requires w.j + w.n <= |s.current| && UpperBounds(s.d)
    ensures hit == Hit(s, w, floor) && raised == Raised(s, w, floor, rising)
  {
    hit, raised := [], floor;
    if s.Admits(w) {
      var target, shape := s.Target(), s.ShapeAt(w);
      if s.d.realQuick(target, shape) >= floor && s.d.quick(target, shape) >= floor {
        var ratio := s.d.ratio(target, shape);
        if ratio >= floor {
          hit := [Spot(ratio, w)];
          if rising && ratio - TIE > floor {
            raised := ratio - TIE;
          }
        }
      }
    }
  }

  /** `all` is what was scored plus what the windows still to try will add. */
  ghost predicate Remains(all: seq<Spot>, scored: seq<Spot>, s: Search, ws: seq<Window>, floor: real, rising: bool) {
    all == scored + Pass(s, ws, floor, rising)
  }

  lemma RemainsStep(all: seq<Spot>, scored: seq<Spot>, s: Search, w: Window, ws: seq<Window>, floor: real, rising: bool)
    requires Remains(all, scored, s, [w] + ws, floor, rising)
    ensures Remains(all, scored + Hit(s, w, floor), s, ws, Raised(s, w, floor, rising), rising)
  {
    assert ([w] + ws)[1..] == ws;
    assert scored + (Hit(s, w, floor) + Pass(s, ws, Raised(s, w, floor, rising), rising))
        == scored + Hit(s, w, floor) + Pass(s, ws, Raised(s, w, floor, rising), rising);
  }

  method ScanRow(s: Search, length: nat, rising: bool, before: seq<Spot>, start: real,
                 ghost all: seq<Spot>, ghost rest: seq<Window>)
    returns (scored: seq<Spot>, floor: real)
    requires s.Valid() && UpperBounds(s.d)
    requires Remains(all, before, s, s.Row(length, s.lo) + rest, start, rising)
    ensures Remains(all, scored, s, rest, floor, rising)
  {
    scored, floor := before, start;
    var j := s.lo;
    while j <= s.LastStart(length)
      invariant s.lo <= j <= s.LastStart(length) + 1
      invariant Remains(all, scored, s, s.Row(length, j) + rest, floor, rising)
    {
      var w := s.At(length, j);
      var hit, raised := Try(s, w, floor, rising);
      assert s.Row(length, j) + rest == [w] + (s.Row(length, j + 1) + rest);
      RemainsStep(all, scored, s, w, s.Row(length, j + 1) + rest, floor, rising);
      scored, floor, j := scored + hit, raised, j + 1;
    }
    assert s.Row(length, j) + rest == rest;
  }

  /** `_scan`: row by row, the floor rising (or not) with the best ratio seen. */
  method Scan(s: Search, rising: bool) returns (scored: seq<Spot>)
    requires s.Valid() && UpperBounds(s.d)
    ensures scored == Scored(s, rising)
  {
    scored := [];
    var floor := CUTOFF;
    var lengths := s.Lengths();
    ghost var all := Scored(s, rising);
    assert lengths[0..] == lengths;
    for k := 0 to |lengths|
      invariant Remains(all, scored, s, s.Rows(lengths[k..]), floor, rising)
    {
      assert lengths[k..][1..] == lengths[k + 1..];
      scored, floor := ScanRow(s, lengths[k], rising, scored, floor, all, s.Rows(lengths[k + 1..]));
    }
  }
}
