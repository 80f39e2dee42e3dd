/** Version tags and `is_behind`. `int()` is a parameter: any function from a dotted part to a
    number, or to None where `int` raises. */
module Versions {
  import opened Lines
  import opened Wrappers

  type Version = seq<int>
  type ToInt = string -> Option<int>

  // ---- _parse -----------------------------------------------------------------------------

  /** `lstrip("vV")`. */
  function DropV(s: string): string {
    if s != "" && (s[0] == 'v' || s[0] == 'V') then DropV(s[1..]) else s
  }

  /** `split(c)[0]`. */
  function UpTo(s: string, c: char): string {
    if s == "" || s[0] == c then "" else [s[0]] + UpTo(s[1..], c)
  }

  /** `split(".")`. */
  function Dotted(s: string): (r: seq<string>)
    ensures r != []
  {
    if s == "" then [""]
    else
      var rest := Dotted(s[1..]);
      if s[0] == '.' then [""] + rest else [[s[0]] + rest[0]] + rest[1..]
  }

  function Numbers(number: ToInt, parts: seq<string>): (r: Option<Version>)
    ensures r.Some? ==> |r.value| == |parts|
  {
    if parts == [] then Some([])
    else
      match number(parts[0])
      case None => None
      case Some(n) =>
        match Numbers(number, parts[1..])
        case None => None
        case Some(rest) => Some([n] + rest)
  }

  function Parse(number: ToInt, v: Option<string>): Option<Version> {
    if v == None || v.value == "" then None
    else Numbers(number, Dotted(UpTo(UpTo(DropV(Strip(v.value)), '-'), '+')))
  }

  // ---- how a tag is written ---------------------------------------------------------------

  ghost predicate Without(s: string, cs: set<char>) {
    forall i :: 0 <= i < |s| ==> s[i] !in cs
  }

  /** `".".join(parts)`. */
  function JoinDots(parts: seq<string>): string
    requires parts != []
  {
    if |parts| == 1 then parts[0] else parts[0] + "." + JoinDots(parts[1..])
  }

  /** Parts that hold no separator, the first neither empty nor starting with a v. */
  ghost predicate Plain(parts: seq<string>) {
    && parts != [] && parts[0] != "" && parts[0][0] !in {'v', 'V'}
    && forall i :: 0 <= i < |parts| ==> Without(parts[i], {'.', '-', '+'})
  }

  lemma {:induction false} UpToSplit(a: string, b: string, c: char)
    requires Without(a, {c})
    ensures UpTo(a + b, c) == a + UpTo(b, c)
  {
    if a == "" {
      assert a + b == b;
      assert a + UpTo(b, c) == UpTo(b, c);
    } else {
      assert (a + b)[1..] == a[1..] + b;
      UpToSplit(a[1..], b, c);
      assert [a[0]] + (a[1..] + UpTo(b, c)) == a + UpTo(b, c);
    }
  }

  lemma {:induction false} DropVSplit(vs: string, s: string)
    requires (forall i :: 0 <= i < |vs| ==> vs[i] in {'v', 'V'}) && s != "" && s[0] !in {'v', 'V'}
    ensures DropV(vs + s) == s
  {
    if vs == "" {
      assert vs + s == s;
    } else {
      assert (vs + s)[1..] == vs[1..] + s;
      DropVSplit(vs[1..], s);
    }
  }

  lemma {:induction false} DottedPart(part: string, rest: string)
    requires Without(part, {'.'})
    ensures Dotted(part) == [part] && Dotted(part + "." + rest) == [part] + Dotted(rest)
  {
    if part == "" {
      assert part + "." + rest == "." + rest && ("." + rest)[1..] == rest;
    } else {
      DottedPart(part[1..], rest);
      assert (part + "." + rest)[1..] == part[1..] + "." + rest;
      assert [part[0]] + part[1..] == part;
      assert ([part[1..]] + Dotted(rest))[1..] == Dotted(rest);
    }
  }

  lemma {:induction false} DottedJoins(parts: seq<string>)
    requires parts != [] && forall i :: 0 <= i < |parts| ==> Without(parts[i], {'.'})
    ensures Dotted(JoinDots(parts)) == parts
  {
    if |parts| == 1 {
      DottedPart(parts[0], "");
    } else {
      DottedJoins(parts[1..]);
      DottedPart(parts[0], JoinDots(parts[1..]));
      assert [parts[0]] + parts[1..] == parts;
    }
  }

  lemma {:induction false} JoinIsWithout(parts: seq<string>, c: char)
    requires c != '.' && parts != [] && forall i :: 0 <= i < |parts| ==> Without(parts[i], {c})
    ensures Without(JoinDots(parts), {c})
  {
    if |parts| <= 1 {
    } else {
      JoinIsWithout(parts[1..], c);
    }
  }

  /** A suffix that starts a pre-release or a build is cut off, whatever it holds. */
  lemma SuffixIsCut(core: string, suffix: string)
    requires Without(core, {'-'}) && Without(core, {'+'})
    requires suffix == "" || suffix[0] in {'-', '+'}
    ensures UpTo(UpTo(core + suffix, '-'), '+') == core
  {
    UpToSplit(core, suffix, '-');
    UpToSplit(core, UpTo(suffix, '-'), '+');
    assert UpTo(UpTo(suffix, '-'), '+') == "";
  }

  lemma TrimmedStays(s: string)
    requires s != "" && !IsSpace(s[0]) && !IsSpace(s[|s| - 1])
    ensures Strip(s) == s
  {
  }

  lemma CoreReads(parts: seq<string>, suffix: string)
    requires Plain(parts) && (suffix == "" || suffix[0] in {'-', '+'})
    ensures Dotted(UpTo(UpTo(JoinDots(parts) + suffix, '-'), '+')) == parts
  {
    JoinIsWithout(parts, '-');
    JoinIsWithout(parts, '+');
    SuffixIsCut(JoinDots(parts), suffix);
    DottedJoins(parts);
  }

  /** A tag of dotted parts reads as the numbers of its parts, any v's before it and any
      pre-release or build after it left aside. */
  lemma ParseReads(number: ToInt, vs: string, parts: seq<string>, suffix: string)
    requires Plain(parts) && (suffix == "" || suffix[0] in {'-', '+'})
    requires forall i :: 0 <= i < |vs| ==> vs[i] in {'v', 'V'}
    requires var tag := vs + (JoinDots(parts) + suffix); !IsSpace(tag[0]) && !IsSpace(tag[|tag| - 1])
    ensures Parse(number, Some(vs + (JoinDots(parts) + suffix))) == Numbers(number, parts)
  {
    var core := JoinDots(parts);
    var tag := vs + (core + suffix);
    assert core[0] == parts[0][0] && (core + suffix)[0] == core[0];
    TrimmedStays(tag);
    DropVSplit(vs, core + suffix);
    CoreReads(parts, suffix);
  }

  // ---- is_behind --------------------------------------------------------------------------

  /** Python's `<` on tuples. */
  predicate TupleLess(a: Version, b: Version)
    decreases |b|
  {
    if b == [] then false
    else if a == [] then true
    else a[0] < b[0] || (a[0] == b[0] && TupleLess(a[1..], b[1..]))
  }

  /** A version names a number at every place: zero past its last part. */
  function At(p: Version, i: nat): int {
    if i < |p| then p[i] else 0
  }

  /** `p + (0,) * (n - len(p))`, which leaves a longer tuple alone. */
  function Pad(p: Version, n: nat): (r: Version)
    ensures |r| == if n > |p| then n else |p|
    ensures forall i :: 0 <= i < |r| ==> r[i] == At(p, i)
  {
    p + seq(if n > |p| then n - |p| else 0, _ => 0)
  }

  predicate Behind(p: Version, l: Version) {
    var n := if |p| > |l| then |p| else |l|;
    TupleLess(Pad(p, n), Pad(l, n))
  }

  /** The tag as the fallback compares it; a missing one reads as empty. */
  function Tag(v: Option<string>): string {
    if v == None then "" else DropV(v.value)
  }

  predicate Given(v: Option<string>) {
    v != None && v.value != ""
  }

  predicate IsBehind(number: ToInt, pinned: Option<string>, latest: Option<string>) {
    var p, l := Parse(number, pinned), Parse(number, latest);
    if p == None || l == None then Given(latest) && Tag(pinned) != Tag(latest)
    else Behind(p.value, l.value)
  }

  // ---- the order, without any padding -----------------------------------------------------

  ghost predicate FirstDifference(p: Version, l: Version, k: nat) {
    && At(p, k) != At(l, k)
    && forall i: nat :: i < k ==> At(p, i) == At(l, i)
  }

  /** At the first place where the two differ, `p` has the smaller number. */
  ghost predicate Older(p: Version, l: Version) {
    exists k: nat :: FirstDifference(p, l, k) && At(p, k) < At(l, k)
  }

  ghost predicate SameNumbers(p: Version, l: Version) {
    forall i: nat :: At(p, i) == At(l, i)
  }

  lemma {:induction false} LessAtFirst(a: Version, b: Version) returns (k: nat)
    requires |a| == |b| && TupleLess(a, b)
    ensures k < |a| && a[k] < b[k] && forall i :: 0 <= i < k ==> a[i] == b[i]
    decreases |b|
  {
    if a[0] < b[0] {
      k := 0;
    } else {
      var j := LessAtFirst(a[1..], b[1..]);
      k := j + 1;
      forall i | 0 <= i < k ensures a[i] == b[i] {
        if i > 0 {
          assert a[1..][i - 1] == b[1..][i - 1];
        }
      }
    }
  }

  lemma {:induction false} FirstIsLess(a: Version, b: Version, k: nat)
    requires |a| == |b| && k < |a| && a[k] < b[k]
    requires forall i :: 0 <= i < k ==> a[i] == b[i]
    ensures TupleLess(a, b)
    decreases k
  {
    if k == 0 {
    } else {
      FirstIsLess(a[1..], b[1..], k - 1);
    }
  }

  /** Each comparison pads to its own length, yet all decide by the same order: any padding
      long enough gives `Older`. */
  lemma PaddingIsIrrelevant(p: Version, l: Version, n: nat)
    requires n >= |p| && n >= |l|
    ensures TupleLess(Pad(p, n), Pad(l, n)) <==> Older(p, l)
  {
    var a, b := Pad(p, n), Pad(l, n);
    if TupleLess(a, b) {
      var k := LessAtFirst(a, b);
      forall i: nat | i < k ensures At(p, i) == At(l, i) {
        assert a[i] == b[i];
      }
      assert FirstDifference(p, l, k);
    }
    if Older(p, l) {
      var k: nat :| FirstDifference(p, l, k) && At(p, k) < At(l, k);
      FirstIsLess(a, b, k);
    }
  }

  /** On two tags that parse, `is_behind` is that order. */
  lemma BehindIsOlder(number: ToInt, pinned: Option<string>, latest: Option<string>)
    requires Parse(number, pinned).Some? && Parse(number, latest).Some?
    ensures IsBehind(number, pinned, latest)
            <==> Older(Parse(number, pinned).value, Parse(number, latest).value)
  {
    var p, l := Parse(number, pinned).value, Parse(number, latest).value;
    PaddingIsIrrelevant(p, l, if |p| > |l| then |p| else |l|);
  }

  // ---- a strict weak order on versions of any lengths -------------------------------------

  lemma OlderIsTransitive(p: Version, q: Version, r: Version)
    requires Older(p, q) && Older(q, r)
    ensures Older(p, r)
  {
    var j: nat :| FirstDifference(p, q, j) && At(p, j) < At(q, j);
    var k: nat :| FirstDifference(q, r, k) && At(q, k) < At(r, k);
    var m := if j < k then j else k;
    assert FirstDifference(p, r, m) && At(p, m) < At(r, m);
  }

  lemma OlderIsAsymmetric(p: Version, q: Version)
    requires Older(p, q)
    ensures !Older(q, p)
  {
    if Older(q, p) {
      OlderIsTransitive(p, q, p);
    }
  }

  /** The first of the places below `n` where the two differ, if they do differ there. */
  lemma {:induction false} FindDifference(p: Version, q: Version, n: nat) returns (k: Option<nat>)
    ensures k.None? ==> forall i: nat :: i < n ==> At(p, i) == At(q, i)
    ensures k.Some? ==> FirstDifference(p, q, k.value)
  {
    if n == 0 {
      k := None;
    } else {
      k := FindDifference(p, q, n - 1);
      if k == None && At(p, n - 1) != At(q, n - 1) {
        k := Some(n - 1);
      }
    }
  }

  /** Neither is older exactly when they name the same number at every place. */
  lemma NeitherIsOlder(p: Version, q: Version)
    ensures !Older(p, q) && !Older(q, p) <==> SameNumbers(p, q)
  {
    var k := FindDifference(p, q, |p| + |q|);
    match k
    case None =>
      forall i: nat ensures At(p, i) == At(q, i) {
      }
    case Some(i) =>
      assert FirstDifference(p, q, i) && FirstDifference(q, p, i);
  }

  function Trim(p: Version): Version {
    if p != [] && p[|p| - 1] == 0 then Trim(p[..|p| - 1]) else p
  }

  lemma {:induction false} TrimKeepsNumbers(p: Version)
    ensures SameNumbers(Trim(p), p)
    ensures Trim(p) == [] || Trim(p)[|Trim(p)| - 1] != 0
    decreases |p|
  {
    if p != [] && p[|p| - 1] == 0 {
      TrimKeepsNumbers(p[..|p| - 1]);
      forall i: nat ensures At(Trim(p), i) == At(p, i) {
        assert At(p[..|p| - 1], i) == At(p, i);
      }
    }
  }

  lemma NoLonger(a: Version, b: Version)
    requires SameNumbers(a, b) && (a == [] || a[|a| - 1] != 0)
    ensures |a| <= |b|
  {
    if a != [] {
      assert At(a, |a| - 1) == At(b, |a| - 1);
    }
  }

  /** The same numbers everywhere means the same version once trailing zeros are dropped. */
  lemma SameNumbersAreSameTrimmed(p: Version, q: Version)
    ensures SameNumbers(p, q) <==> Trim(p) == Trim(q)
  {
    TrimKeepsNumbers(p);
    TrimKeepsNumbers(q);
    var a, b := Trim(p), Trim(q);
    if SameNumbers(p, q) {
      forall i: nat ensures At(a, i) == At(b, i) {
        assert At(a, i) == At(p, i) && At(b, i) == At(q, i);
      }
      NoLonger(a, b);
      NoLonger(b, a);
      forall i | 0 <= i < |a| ensures a[i] == b[i] {
        assert At(a, i) == At(b, i);
      }
    }
    if a == b {
      forall i: nat ensures At(p, i) == At(q, i) {
        assert At(a, i) == At(p, i) && At(b, i) == At(q, i);
      }
    }
  }

  predicate Level(number: ToInt, a: Option<string>, b: Option<string>) {
    !IsBehind(number, a, b) && !IsBehind(number, b, a)
  }

  /** On tags that parse: transitive, and level exactly when the numbers agree up to trailing
      zeros, which is an equivalence. With `NeverBehindItself`, a strict weak order. */
  lemma StrictWeakOrder(number: ToInt, a: Option<string>, b: Option<string>, c: Option<string>)
    requires Parse(number, a).Some? && Parse(number, b).Some? && Parse(number, c).Some?
    ensures IsBehind(number, a, b) && IsBehind(number, b, c) ==> IsBehind(number, a, c)
    ensures !(IsBehind(number, a, b) && IsBehind(number, b, a))
    ensures Level(number, a, b) <==> Trim(Parse(number, a).value) == Trim(Parse(number, b).value)
    ensures Level(number, a, b) && IsBehind(number, b, c) ==> IsBehind(number, a, c)
  {
    var p, q, r := Parse(number, a).value, Parse(number, b).value, Parse(number, c).value;
    BehindIsOlder(number, a, b);
    BehindIsOlder(number, b, a);
    BehindIsOlder(number, b, c);
    BehindIsOlder(number, a, c);
    if Older(p, q) {
      OlderIsAsymmetric(p, q);
      if Older(q, r) {
        OlderIsTransitive(p, q, r);
      }
    }
    NeitherIsOlder(p, q);
    SameNumbersAreSameTrimmed(p, q);
    if SameNumbers(p, q) && Older(q, r) {
      var k: nat :| FirstDifference(q, r, k) && At(q, k) < At(r, k);
      assert FirstDifference(p, r, k);
    }
  }

  // ---- the fallback -----------------------------------------------------------------------

  lemma NeverBehindItself(number: ToInt, v: Option<string>)
    ensures !IsBehind(number, v, v)
  {
    if Parse(number, v).Some? {
      BehindIsOlder(number, v, v);
    }
  }

  /** Two tags are each behind the other exactly when one of them does not parse, both are
      given and they differ past their leading v's: then the answer says drift, not order. */
  lemma BothBehindIff(number: ToInt, a: Option<string>, b: Option<string>)
    ensures IsBehind(number, a, b) && IsBehind(number, b, a)
            <==> (Parse(number, a).None? || Parse(number, b).None?)
                 && Given(a) && Given(b) && Tag(a) != Tag(b)
  {
    if Parse(number, a).Some? && Parse(number, b).Some? {
      StrictWeakOrder(number, a, b, a);
    }
  }

  /** Such tags: two that no `int` reads, each behind the other. */
  lemma FallbackIsNoOrder(number: ToInt)
    requires number("x").None?
    ensures IsBehind(number, Some("x"), Some("y")) && IsBehind(number, Some("y"), Some("x"))
  {
    assert UpTo("x", '-') == "x" && UpTo("x", '+') == "x";
    assert Dotted("x") == ["x"];
    BothBehindIff(number, Some("x"), Some("y"));
  }
}
