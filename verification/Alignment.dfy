/** The stretch of the current file between the nearest lines, around a cited block, that
    the whole-file alignment kept (`_region`). difflib's algorithm is not modelled: its
    equal blocks come in as any ordered matching of equal lines. */
module Alignment {
  import opened Wrappers

  /** One "equal" opcode: `pinned[i..i + n]` matched with `current[j..j + n]`. */
  datatype EqualBlock = EqualBlock(i: nat, j: nat, n: nat)

  predicate KeepsText(b: EqualBlock, pinned: seq<string>, current: seq<string>) {
    && b.i + b.n <= |pinned| && b.j + b.n <= |current|
    && pinned[b.i..b.i + b.n] == current[b.j..b.j + b.n]
  }

  predicate EndsBefore(b: EqualBlock, c: EqualBlock) {
    b.i + b.n <= c.i && b.j + b.n <= c.j
  }

  /** What difflib promises of its equal blocks: in file order on both sides, equal text. */
  ghost predicate Aligned(blocks: seq<EqualBlock>, pinned: seq<string>, current: seq<string>) {
    && (forall x :: 0 <= x < |blocks| ==> KeepsText(blocks[x], pinned, current))
    && (forall x, y :: 0 <= x < y < |blocks| ==> EndsBefore(blocks[x], blocks[y]))
  }

  /** `kept.update((i + k, j + k) for k in range(n))`. */
  function Update(kept: map<nat, nat>, i: nat, j: nat, n: nat): (r: map<nat, nat>)
    ensures forall k :: k in r <==> k in kept || i <= k < i + n
    ensures forall k :: k in r ==> r[k] == if i <= k < i + n then j + (k - i) else kept[k]
  {
    if n == 0 then kept else Update(kept, i, j, n - 1)[i + n - 1 := j + n - 1]
  }

  /** Pinned line -> current line, for the lines the blocks keep. */
  function Kept(blocks: seq<EqualBlock>): map<nat, nat> {
    if blocks == [] then map[] else
      var b := blocks[|blocks| - 1];
      Update(Kept(blocks[..|blocks| - 1]), b.i, b.j, b.n)
  }

  /** A strictly monotone matching of equal lines. */
  ghost predicate Matching(kept: map<nat, nat>, pinned: seq<string>, current: seq<string>) {
    && (forall i :: i in kept ==> i < |pinned| && kept[i] < |current| && pinned[i] == current[kept[i]])
    && (forall i, k :: i in kept && k in kept && i < k ==> kept[i] < kept[k])
  }

  lemma {:induction false} KeptIn(blocks: seq<EqualBlock>, i: nat) returns (x: nat)
    requires i in Kept(blocks)
    ensures x < |blocks| && blocks[x].i <= i < blocks[x].i + blocks[x].n
    ensures Kept(blocks)[i] == blocks[x].j + (i - blocks[x].i)
  {
    var b := blocks[|blocks| - 1];
    if b.i <= i < b.i + b.n {
      x := |blocks| - 1;
    } else {
      x := KeptIn(blocks[..|blocks| - 1], i);
    }
  }

  lemma {:induction false} KeptSameText(blocks: seq<EqualBlock>, pinned: seq<string>, current: seq<string>, i: nat)
    requires Aligned(blocks, pinned, current) && i in Kept(blocks)
    ensures i < |pinned| && Kept(blocks)[i] < |current| && pinned[i] == current[Kept(blocks)[i]]
  {
    var x := KeptIn(blocks, i);
    var b := blocks[x];
    assert KeepsText(b, pinned, current);
    assert pinned[b.i..b.i + b.n][i - b.i] == current[b.j..b.j + b.n][i - b.i];
  }

  lemma KeptInOrder(blocks: seq<EqualBlock>, pinned: seq<string>, current: seq<string>, i: nat, k: nat)
    requires Aligned(blocks, pinned, current) && i in Kept(blocks) && k in Kept(blocks) && i < k
    ensures Kept(blocks)[i] < Kept(blocks)[k]
  {
    var x := KeptIn(blocks, i);
    var y := KeptIn(blocks, k);
    if x < y {
      assert EndsBefore(blocks[x], blocks[y]);
    }
  }

  /** Ordered equal blocks make a strictly monotone matching of equal lines. */
  lemma AlignedMatches(blocks: seq<EqualBlock>, pinned: seq<string>, current: seq<string>)
    requires Aligned(blocks, pinned, current)
    ensures Matching(Kept(blocks), pinned, current)
  {
    var kept := Kept(blocks);
    forall i | i in kept ensures i < |pinned| && kept[i] < |current| && pinned[i] == current[kept[i]] {
      KeptSameText(blocks, pinned, current, i);
    }
    forall i, k | i in kept && k in kept && i < k ensures kept[i] < kept[k] {
      KeptInOrder(blocks, pinned, current, i, k);
    }
  }

  /** The last kept line before `start`. */
  function LastBefore(kept: map<nat, nat>, start: nat): (r: Option<nat>)
    ensures r.Some? ==> r.value in kept && r.value < start
    ensures forall i :: i in kept && i < start ==> r.Some? && i <= r.value
  {
    if start == 0 then None else if start - 1 in kept then Some(start - 1) else LastBefore(kept, start - 1)
  }

  /** The first kept line in `[end, size)`. */
  function FirstFrom(kept: map<nat, nat>, end: nat, size: nat): (r: Option<nat>)
    requires end <= size
    ensures r.Some? ==> r.value in kept && end <= r.value < size
    ensures forall i :: i in kept && end <= i < size ==> r.Some? && r.value <= i
    decreases size - end
  {
    if end == size then None else if end in kept then Some(end) else FirstFrom(kept, end + 1, size)
  }

  datatype Region = Region(lo: nat, hi: nat, anchored: bool)

  function RegionOf(kept: map<nat, nat>, pinned: seq<string>, start: nat, end: nat, current: seq<string>): Region
    requires start <= end <= |pinned|
  {
    var above, below := LastBefore(kept, start), FirstFrom(kept, end, |pinned|);
    Region(if above.Some? then kept[above.value] + 1 else 0,
           if below.Some? then kept[below.value] else |current|,
           above.Some? || below.Some?)
  }

  /** Where the text can be: the region lies in the file, its bounds never cross, and a
      kept line sits inside it only if it was itself cited. It is as wide as that allows. */
  lemma RegionBounds(kept: map<nat, nat>, pinned: seq<string>, start: nat, end: nat, current: seq<string>)
    requires start <= end <= |pinned| && Matching(kept, pinned, current)
    ensures var r := RegionOf(kept, pinned, start, end, current);
            && r.lo <= r.hi <= |current|
            && (forall i :: i in kept ==> (r.lo <= kept[i] < r.hi <==> start <= i < end))
            && (r.lo > 0 ==> exists i :: i in kept && i < start && kept[i] == r.lo - 1)
            && (r.hi < |current| ==> exists i :: i in kept && end <= i && kept[i] == r.hi)
            && (r.anchored <==> exists i :: i in kept && !(start <= i < end))
  {
  }

  /** `_region`: fill `kept` from the equal blocks, then look for the nearest anchors. */
  method FindRegion(blocks: seq<EqualBlock>, pinned: seq<string>, start: nat, end: nat, current: seq<string>)
    returns (lo: nat, hi: nat, anchored: bool)
    requires start <= end <= |pinned| && Aligned(blocks, pinned, current)
    ensures Region(lo, hi, anchored) == RegionOf(Kept(blocks), pinned, start, end, current)
    ensures lo <= hi <= |current|
  {
    var kept: map<nat, nat> := map[];
    for x := 0 to |blocks|
      invariant kept == Kept(blocks[..x])
    {
      var b := blocks[x];
      assert blocks[..x + 1][..x] == blocks[..x];
      kept := Update(kept, b.i, b.j, b.n);
    }
    assert blocks[..|blocks|] == blocks;
    AlignedMatches(blocks, pinned, current);
    RegionBounds(kept, pinned, start, end, current);
    var above, below := LastBefore(kept, start), FirstFrom(kept, end, |pinned|);
    lo := if above.Some? then kept[above.value] + 1 else 0;
    hi := if below.Some? then kept[below.value] else |current|;
    anchored := above.Some? || below.Some?;
  }
}
