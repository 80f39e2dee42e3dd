/** The review merge of `stamp`: patched reviews replace the recorded ones in place, new ones
    are inserted before the first greater id. */
module ReviewMerge {
  import opened Sorting

  /** `content` stands for every field but the id. */
  datatype Review = Review(id: string, content: string)

  /** Python's `<` on strings: by code point. */
  predicate Less(a: string, b: string) {
    b != "" && (a == "" || a[0] < b[0] || (a[0] == b[0] && Less(a[1..], b[1..])))
  }

  lemma {:induction false} LessIsTotal(a: string, b: string)
    ensures !(Less(a, b) && Less(b, a))
    ensures Less(a, b) || Less(b, a) || a == b
    ensures Less(a, b) ==> a != b
  {
    if a != "" && b != "" && a[0] == b[0] {
      LessIsTotal(a[1..], b[1..]);
      assert a == [a[0]] + a[1..] && b == [b[0]] + b[1..];
    }
  }

  lemma {:induction false} LessIsTransitive(a: string, b: string, c: string)
    requires !Less(b, a) && !Less(c, b)
    ensures !Less(c, a)
  {
    if a != "" && b != "" && c != "" && a[0] == b[0] == c[0] {
      LessIsTransitive(a[1..], b[1..], c[1..]);
    }
  }

  function Ids(rows: seq<Review>): seq<string> {
    seq(|rows|, i requires 0 <= i < |rows| => rows[i].id)
  }

  /** The patch's review of that id, if any. */
  function Lookup(patch: seq<Review>, id: string): seq<Review> {
    if patch == [] then [] else if patch[0].id == id then [patch[0]] else Lookup(patch[1..], id)
  }

  predicate Patches(patch: seq<Review>, id: string) {
    Lookup(patch, id) != []
  }

  lemma {:induction false} LookupFinds(patch: seq<Review>, id: string)
    ensures Patches(patch, id) <==> id in Ids(patch)
    ensures Patches(patch, id) ==> Lookup(patch, id)[0] in patch && Lookup(patch, id)[0].id == id
  {
    if patch == [] {
    } else {
      LookupFinds(patch[1..], id);
      assert Ids(patch) == [patch[0].id] + Ids(patch[1..]);
    }
  }

  function Replaced(patch: seq<Review>, row: Review): (r: Review)
    ensures r.id == row.id
  {
    LookupFinds(patch, row.id);
    if Patches(patch, row.id) then Lookup(patch, row.id)[0] else row
  }

  function Replace(patch: seq<Review>, rows: seq<Review>): seq<Review> {
    seq(|rows|, i requires 0 <= i < |rows| => Replaced(patch, rows[i]))
  }

  function ById(): (Review, Review) -> bool {
    (x: Review, y: Review) => !Less(y.id, x.id)
  }

  /** `sorted(reviews.values(), key=id)`. */
  function SortById(s: seq<Review>): seq<Review> {
    Sort(s, ById())
  }

  /** The first place whose row has a greater id, from `i` on; the end when there is none. */
  function Position(rows: seq<Review>, id: string, i: nat): (p: nat)
    requires i <= |rows|
    ensures i <= p <= |rows|
    ensures forall k :: i <= k < p ==> !Less(id, rows[k].id)
    ensures p < |rows| ==> Less(id, rows[p].id)
    decreases |rows| - i
  {
    if i == |rows| || Less(id, rows[i].id) then i else Position(rows, id, i + 1)
  }

  function Inserted(rows: seq<Review>, x: Review): seq<Review> {
    var p := Position(rows, x.id, 0);
    rows[..p] + [x] + rows[p..]
  }

  /** Insert those of `added` whose id was not recorded. */
  function InsertNew(rows: seq<Review>, added: seq<Review>, recorded: seq<string>): seq<Review>
    decreases |added|
  {
    if added == [] then rows
    else InsertNew(if added[0].id in recorded then rows else Inserted(rows, added[0]), added[1..], recorded)
  }

  function Merged(rows: seq<Review>, patch: seq<Review>): seq<Review> {
    InsertNew(Replace(patch, rows), SortById(patch), Ids(rows))
  }

  method FirstGreater(rows: seq<Review>, id: string) returns (p: nat)
    ensures p == Position(rows, id, 0)
  {
    p := 0;
    while p < |rows| && !Less(id, rows[p].id)
      invariant p <= |rows| && Position(rows, id, 0) == Position(rows, id, p)
    {
      p := p + 1;
    }
  }

  /** The merge loop of `stamp`. */
  method Merge(rows: seq<Review>, patch: seq<Review>) returns (result: seq<Review>)
    ensures result == Merged(rows, patch)
  {
    var recorded, added := Ids(rows), SortById(patch);
    result := Replace(patch, rows);
    assert added[0..] == added;
    for k := 0 to |added|
      invariant InsertNew(result, added[k..], recorded) == Merged(rows, patch)
    {
      assert added[k..][1..] == added[k + 1..];
      if added[k].id !in recorded {
        var position := FirstGreater(result, added[k].id);
        result := result[..position] + [added[k]] + result[position..];
      }
    }
  }

  // ---- the untouched reviews -------------------------------------------------------------

  function UntouchedRow(patch: seq<Review>, row: Review): seq<Review> {
    if Patches(patch, row.id) then [] else [row]
  }

  /** The reviews the patch does not name. */
  function Untouched(patch: seq<Review>, rows: seq<Review>): seq<Review> {
    if rows == [] then [] else UntouchedRow(patch, rows[0]) + Untouched(patch, rows[1..])
  }

  lemma Regroup(a: seq<Review>, b: seq<Review>, c: seq<Review>)
    ensures (a + b) + c == a + (b + c)
  {
  }

  lemma UntouchedHead(patch: seq<Review>, x: Review, rows: seq<Review>)
    ensures Untouched(patch, [x] + rows) == UntouchedRow(patch, x) + Untouched(patch, rows)
  {
    assert ([x] + rows)[1..] == rows;
  }

  lemma {:induction false} UntouchedSplit(patch: seq<Review>, a: seq<Review>, b: seq<Review>)
    ensures Untouched(patch, a + b) == Untouched(patch, a) + Untouched(patch, b)
  {
    if a == [] {
      assert a + b == b;
    } else {
      var x, rest := a[0], a[1..];
      assert a == [x] + rest;
      UntouchedSplit(patch, rest, b);
      Regroup([x], rest, b);
      UntouchedHead(patch, x, rest + b);
      UntouchedHead(patch, x, rest);
      Regroup(UntouchedRow(patch, x), Untouched(patch, rest), Untouched(patch, b));
    }
  }

  lemma {:induction false} ReplaceUntouched(patch: seq<Review>, rows: seq<Review>)
    ensures Untouched(patch, Replace(patch, rows)) == Untouched(patch, rows)
  {
    if rows == [] {
    } else {
      ReplaceUntouched(patch, rows[1..]);
      assert Replace(patch, rows)[1..] == Replace(patch, rows[1..]);
    }
  }

  lemma {:induction false} AppendPatched(patch: seq<Review>, a: seq<Review>, x: Review)
    requires UntouchedRow(patch, x) == []
    ensures Untouched(patch, a + [x]) == Untouched(patch, a)
  {
    if a == [] {
      assert (a + [x])[1..] == [];
    } else {
      AppendPatched(patch, a[1..], x);
      assert (a + [x])[1..] == a[1..] + [x];
    }
  }

  lemma BetweenUntouched(patch: seq<Review>, a: seq<Review>, x: Review, b: seq<Review>)
    requires UntouchedRow(patch, x) == []
    ensures Untouched(patch, a + [x] + b) == Untouched(patch, a + b)
  {
    AppendPatched(patch, a, x);
    UntouchedSplit(patch, a + [x], b);
    UntouchedSplit(patch, a, b);
  }

  lemma InsertedUntouched(patch: seq<Review>, rows: seq<Review>, x: Review)
    requires Patches(patch, x.id)
    ensures Untouched(patch, Inserted(rows, x)) == Untouched(patch, rows)
  {
    var p := Position(rows, x.id, 0);
    var left, right := rows[..p], rows[p..];
    assert left + right == rows;
    BetweenUntouched(patch, left, x, right);
  }

  lemma {:induction false} InsertNewUntouched(patch: seq<Review>, rows: seq<Review>, added: seq<Review>,
          recorded: seq<string>)
    requires forall x :: x in added ==> Patches(patch, x.id)
    ensures Untouched(patch, InsertNew(rows, added, recorded)) == Untouched(patch, rows)
    decreases |added|
  {
    if added == [] {
    } else {
      assert added[0] in added;
      InsertedUntouched(patch, rows, added[0]);
      InsertNewUntouched(patch, if added[0].id in recorded then rows else Inserted(rows, added[0]),
                         added[1..], recorded);
    }
  }

  lemma PatchPatches(patch: seq<Review>, x: Review)
    requires x in SortById(patch)
    ensures x in patch && Patches(patch, x.id)
  {
    SortKeeps(patch, ById());
    assert x in multiset(SortById(patch));
    LookupFinds(patch, x.id);
    var i :| 0 <= i < |patch| && patch[i] == x;
    assert Ids(patch)[i] == x.id;
  }

  /** The stamp's own check cannot fire: the reviews it was not given come out identical and
      in the order they were recorded in, sorted or not. */
  lemma UntouchedAreKept(rows: seq<Review>, patch: seq<Review>)
    ensures Untouched(patch, Merged(rows, patch)) == Untouched(patch, rows)
  {
    forall x | x in SortById(patch) ensures Patches(patch, x.id) { PatchPatches(patch, x); }
    InsertNewUntouched(patch, Replace(patch, rows), SortById(patch), Ids(rows));
    ReplaceUntouched(patch, rows);
  }

  // ---- what is added ---------------------------------------------------------------------

  /** The patched reviews that are new. */
  function Fresh(patch: seq<Review>, recorded: seq<string>): seq<Review> {
    if patch == [] then []
    else (if patch[0].id in recorded then [] else [patch[0]]) + Fresh(patch[1..], recorded)
  }

  lemma {:induction false} InsertNewAdds(rows: seq<Review>, added: seq<Review>, recorded: seq<string>)
    ensures multiset(InsertNew(rows, added, recorded)) == multiset(rows) + multiset(Fresh(added, recorded))
    decreases |added|
  {
    if added == [] {
    } else {
      var x := added[0];
      var p := Position(rows, x.id, 0);
      assert rows == rows[..p] + rows[p..];
      InsertNewAdds(if x.id in recorded then rows else Inserted(rows, x), added[1..], recorded);
    }
  }

  lemma {:induction false} FreshCounts(s: seq<Review>, recorded: seq<string>, x: Review)
    ensures multiset(Fresh(s, recorded))[x] == if x.id in recorded then 0 else multiset(s)[x]
  {
    if s == [] {
    } else {
      FreshCounts(s[1..], recorded, x);
      assert s == [s[0]] + s[1..];
    }
  }

  /** Nothing is lost and nothing is added but the new reviews, once each: the result is the
      recorded list with the patched rows replaced, plus the reviews of unrecorded ids. */
  lemma MergeAdds(rows: seq<Review>, patch: seq<Review>)
    ensures multiset(Merged(rows, patch)) == multiset(Replace(patch, rows)) + multiset(Fresh(patch, Ids(rows)))
  {
    InsertNewAdds(Replace(patch, rows), SortById(patch), Ids(rows));
    SortKeeps(patch, ById());
    forall x ensures multiset(Fresh(SortById(patch), Ids(rows)))[x] == multiset(Fresh(patch, Ids(rows)))[x] {
      FreshCounts(SortById(patch), Ids(rows), x);
      FreshCounts(patch, Ids(rows), x);
    }
  }

  ghost predicate DistinctIds(rows: seq<Review>) {
    forall i, k :: 0 <= i < k < |rows| ==> rows[i].id != rows[k].id
  }

  lemma {:induction false} LookupOwn(patch: seq<Review>, i: nat)
    requires DistinctIds(patch) && i < |patch|
    ensures Lookup(patch, patch[i].id) == [patch[i]]
  {
    if i == 0 {
    } else {
      assert patch[0].id != patch[i].id;
      LookupOwn(patch[1..], i - 1);
    }
  }

  lemma StampedIsThere(rows: seq<Review>, patch: seq<Review>, x: Review)
    requires DistinctIds(patch) && x in patch
    ensures x in Merged(rows, patch)
  {
    MergeAdds(rows, patch);
    var i :| 0 <= i < |patch| && patch[i] == x;
    LookupOwn(patch, i);
    FreshCounts(patch, Ids(rows), x);
    if x.id in Ids(rows) {
      var k :| 0 <= k < |rows| && Ids(rows)[k] == x.id;
      assert Replace(patch, rows)[k] == x;
      assert x in multiset(Replace(patch, rows));
    } else {
      assert x in multiset(patch);
    }
    assert x in multiset(Merged(rows, patch));
  }

  lemma StampedIsAlone(rows: seq<Review>, patch: seq<Review>, i: nat, y: Review)
    requires DistinctIds(patch) && i < |patch| && y in Merged(rows, patch) && y.id == patch[i].id
    ensures y == patch[i]
  {
    MergeAdds(rows, patch);
    LookupOwn(patch, i);
    assert y in multiset(Merged(rows, patch));
    FreshCounts(patch, Ids(rows), y);
    if y in Replace(patch, rows) {
      var k :| 0 <= k < |rows| && Replace(patch, rows)[k] == y;
    } else {
      assert y in multiset(patch);
      var k :| 0 <= k < |patch| && patch[k] == y;
    }
  }

  /** Every patched review is in the result, and a recorded id carries no other content there. */
  lemma PatchIsStamped(rows: seq<Review>, patch: seq<Review>, x: Review)
    requires DistinctIds(patch) && x in patch
    ensures x in Merged(rows, patch)
    ensures forall y :: y in Merged(rows, patch) && y.id == x.id ==> y == x
  {
    StampedIsThere(rows, patch, x);
    var i :| 0 <= i < |patch| && patch[i] == x;
    forall y | y in Merged(rows, patch) && y.id == x.id ensures y == x {
      StampedIsAlone(rows, patch, i, y);
    }
  }

  // ---- order -----------------------------------------------------------------------------

  ghost predicate InOrder(rows: seq<Review>) {
    forall i, k :: 0 <= i < k < |rows| ==> !Less(rows[k].id, rows[i].id)
  }

  lemma InsertedInOrder(rows: seq<Review>, x: Review)
    requires InOrder(rows)
    ensures InOrder(Inserted(rows, x))
  {
    var p := Position(rows, x.id, 0);
    var r := Inserted(rows, x);
    forall k | p <= k < |rows| ensures !Less(rows[k].id, x.id) {
      LessIsTotal(x.id, rows[p].id);
      if k > p {
        LessIsTransitive(x.id, rows[p].id, rows[k].id);
      }
    }
    forall i, k | 0 <= i < k < |r| ensures !Less(r[k].id, r[i].id) {
      if i < p < k {
        assert r[k] == rows[k - 1] && r[i] == rows[i];
      }
    }
  }

  lemma {:induction false} InsertNewInOrder(rows: seq<Review>, added: seq<Review>, recorded: seq<string>)
    requires InOrder(rows)
    ensures InOrder(InsertNew(rows, added, recorded))
    decreases |added|
  {
    if added == [] {
    } else {
      InsertedInOrder(rows, added[0]);
      InsertNewInOrder(if added[0].id in recorded then rows else Inserted(rows, added[0]), added[1..], recorded);
    }
  }

  lemma ByIdIsOrder()
    ensures TotalOrder(ById())
  {
    forall x: Review, y: Review ensures ById()(x, y) || ById()(y, x) {
      LessIsTotal(x.id, y.id);
    }
    forall x: Review, y: Review, z: Review | ById()(x, y) && ById()(y, z) ensures ById()(x, z) {
      LessIsTransitive(x.id, y.id, z.id);
    }
  }

  /** The new reviews are put in by ascending id. */
  lemma SortByIdInOrder(s: seq<Review>)
    ensures InOrder(SortById(s)) && multiset(SortById(s)) == multiset(s)
  {
    ByIdIsOrder();
    SortKeeps(s, ById());
    SortAscends(s, ById());
    var r := SortById(s);
    forall i, k | 0 <= i < k < |r| ensures !Less(r[k].id, r[i].id) {
      assert ById()(r[i], r[k]);
    }
  }

  /** Records sorted by id stay sorted by id. */
  lemma OrderIsKept(rows: seq<Review>, patch: seq<Review>)
    requires InOrder(rows)
    ensures InOrder(Merged(rows, patch))
  {
    assert InOrder(Replace(patch, rows)) by {
      forall i, k | 0 <= i < k < |rows| ensures !Less(Replace(patch, rows)[k].id, Replace(patch, rows)[i].id) {
        assert !Less(rows[k].id, rows[i].id);
      }
    }
    InsertNewInOrder(Replace(patch, rows), SortById(patch), Ids(rows));
  }
}
