/** The nesting bound on a manifest's JSON: a loop over an explicit stack, proved to accept
    exactly the values whose longest path of containers is short enough. */
module Worklist {
  import opened Json

  const LIMIT := 64

  datatype Node = Node(value: Json, depth: nat)

  /** What the loop pushes for a value: an object's values or a list's items, in order. */
  function Children(v: Json): (r: seq<Json>)
    ensures forall i :: 0 <= i < |r| ==> r[i] < v
  {
    match v
    case Arr(items) => items
    case Obj(members) => seq(|members|, i requires 0 <= i < |members| => members[i].value)
    case _ => []
  }

  // ---- nesting, defined without the stack ------------------------------------------------

  /** A path picks one child after another, from `v` down. */
  predicate IsPath(v: Json, path: seq<nat>)
    decreases |path|
  {
    path != [] ==> path[0] < |Children(v)| && IsPath(Children(v)[path[0]], path[1..])
  }

  /** How far the first `k` children of `v` reach below it. */
  function Reach(v: Json, k: nat): (r: nat)
    requires k <= |Children(v)|
    decreases v, k
  {
    if k == 0 then 0
    else
      var below := 1 + Height(Children(v)[k - 1]);
      var others := Reach(v, k - 1);
      if below > others then below else others
  }

  function Height(v: Json): nat
    decreases v, |Children(v)| + 1
  {
    Reach(v, |Children(v)|)
  }

  lemma {:induction false} ReachCovers(v: Json, k: nat, i: nat)
    requires i < k <= |Children(v)|
    ensures 1 + Height(Children(v)[i]) <= Reach(v, k)
  {
    if i == k - 1 {
    } else {
      ReachCovers(v, k - 1, i);
    }
  }

  lemma {:induction false} ReachWithin(v: Json, k: nat, bound: nat)
    requires k <= |Children(v)|
    requires forall i :: 0 <= i < k ==> 1 + Height(Children(v)[i]) <= bound
    ensures Reach(v, k) <= bound
  {
    if k == 0 {
    } else {
      ReachWithin(v, k - 1, bound);
    }
  }

  lemma {:induction false} ReachIsTaken(v: Json, k: nat) returns (i: nat)
    requires k <= |Children(v)| && Reach(v, k) > 0
    ensures i < k && Reach(v, k) == 1 + Height(Children(v)[i])
  {
    if Reach(v, k) == 1 + Height(Children(v)[k - 1]) {
      i := k - 1;
    } else {
      i := ReachIsTaken(v, k - 1);
    }
  }

  /** No path is longer than the height. */
  lemma {:induction false} PathsAreShort(v: Json, path: seq<nat>)
    requires IsPath(v, path)
    ensures |path| <= Height(v)
    decreases |path|
  {
    if path == [] {
    } else {
      PathsAreShort(Children(v)[path[0]], path[1..]);
      ReachCovers(v, |Children(v)|, path[0]);
    }
  }

  /** Some path is as long as the height. */
  lemma {:induction false} HeightIsReached(v: Json) returns (path: seq<nat>)
    ensures IsPath(v, path) && |path| == Height(v)
    decreases v
  {
    if Height(v) == 0 {
      path := [];
    } else {
      var i := ReachIsTaken(v, |Children(v)|);
      var rest := HeightIsReached(Children(v)[i]);
      path := [i] + rest;
      assert path[1..] == rest;
    }
  }

  // ---- the measure: values still to be looked at ------------------------------------------

  function Size(v: Json): nat
    decreases v, |Children(v)| + 1
  {
    1 + Sizes(v, |Children(v)|)
  }

  /** The values in the first `k` children of `v`. */
  function Sizes(v: Json, k: nat): nat
    requires k <= |Children(v)|
    decreases v, k
  {
    if k == 0 then 0 else Sizes(v, k - 1) + Size(Children(v)[k - 1])
  }

  function Weight(stack: seq<Node>): nat {
    if stack == [] then 0 else Weight(stack[..|stack| - 1]) + Size(stack[|stack| - 1].value)
  }

  /** The children of a popped value, one level deeper. */
  function Pushed(v: Json, depth: nat, k: nat): (r: seq<Node>)
    requires k <= |Children(v)|
    ensures |r| == k && forall i :: 0 <= i < k ==> r[i] == Node(Children(v)[i], depth + 1)
  {
    seq(k, i requires 0 <= i < k => Node(Children(v)[i], depth + 1))
  }

  lemma WeightOfOneMore(stack: seq<Node>, node: Node)
    ensures Weight(stack + [node]) == Weight(stack) + Size(node.value)
  {
    assert (stack + [node])[..|stack|] == stack;
  }

  lemma PushedStep(stack: seq<Node>, v: Json, depth: nat, k: nat)
    requires 0 < k <= |Children(v)|
    ensures stack + Pushed(v, depth, k) == (stack + Pushed(v, depth, k - 1)) + [Node(Children(v)[k - 1], depth + 1)]
  {
  }

  lemma {:induction false} WeightOfPushed(stack: seq<Node>, v: Json, depth: nat, k: nat)
    requires k <= |Children(v)|
    ensures Weight(stack + Pushed(v, depth, k)) == Weight(stack) + Sizes(v, k)
  {
    if k == 0 {
      assert stack + Pushed(v, depth, k) == stack;
    } else {
      PushedStep(stack, v, depth, k);
      WeightOfPushed(stack, v, depth, k - 1);
      WeightOfOneMore(stack + Pushed(v, depth, k - 1), Node(Children(v)[k - 1], depth + 1));
    }
  }

  // ---- the loop ---------------------------------------------------------------------------

  /** Every entry's value ends within the bound when counted from its own depth. */
  predicate Fits(stack: seq<Node>) {
    forall i :: 0 <= i < |stack| ==> stack[i].depth + Height(stack[i].value) <= LIMIT
  }

  /** A value fits exactly when it is not too deep itself and its children fit one level down. */
  lemma ValueFits(v: Json, depth: nat)
    ensures depth + Height(v) <= LIMIT <==>
            depth <= LIMIT && forall i :: 0 <= i < |Children(v)| ==> depth + 1 + Height(Children(v)[i]) <= LIMIT
  {
    var kids := Children(v);
    if depth + Height(v) <= LIMIT {
      forall i | 0 <= i < |kids| ensures depth + 1 + Height(kids[i]) <= LIMIT {
        ReachCovers(v, |kids|, i);
      }
    } else if depth <= LIMIT && forall i :: 0 <= i < |kids| ==> depth + 1 + Height(kids[i]) <= LIMIT {
      ReachWithin(v, |kids|, LIMIT - depth);
    }
  }

  lemma FitsSplit(a: seq<Node>, b: seq<Node>)
    ensures Fits(a + b) <==> Fits(a) && Fits(b)
  {
    if Fits(a + b) {
      forall i | 0 <= i < |a| ensures a[i].depth + Height(a[i].value) <= LIMIT { assert (a + b)[i] == a[i]; }
      forall i | 0 <= i < |b| ensures b[i].depth + Height(b[i].value) <= LIMIT { assert (a + b)[|a| + i] == b[i]; }
    }
  }

  lemma PushedFits(v: Json, depth: nat)
    ensures Fits(Pushed(v, depth, |Children(v)|)) <==>
            forall i :: 0 <= i < |Children(v)| ==> depth + 1 + Height(Children(v)[i]) <= LIMIT
  {
    var pushed := Pushed(v, depth, |Children(v)|);
    if Fits(pushed) {
      forall i | 0 <= i < |Children(v)| ensures depth + 1 + Height(Children(v)[i]) <= LIMIT {
        assert pushed[i] == Node(Children(v)[i], depth + 1);
      }
    }
  }

  /** Looking at the last entry and pushing its children decides as much as the entry itself. */
  lemma PopDecides(stack: seq<Node>)
    requires stack != []
    ensures var last := stack[|stack| - 1];
            Fits(stack) <==>
            last.depth <= LIMIT
            && Fits(stack[..|stack| - 1] + Pushed(last.value, last.depth, |Children(last.value)|))
  {
    var n := |stack| - 1;
    var last := stack[n];
    assert stack == stack[..n] + [last];
    FitsSplit(stack[..n], [last]);
    FitsSplit(stack[..n], Pushed(last.value, last.depth, |Children(last.value)|));
    PushedFits(last.value, last.depth);
    ValueFits(last.value, last.depth);
    assert Fits([last]) <==> last.depth + Height(last.value) <= LIMIT by {
      assert [last][0] == last;
    }
  }

  /** `_strict_json_data`'s loop: true when no `ValueError` is raised. */
  method WithinBound(data: Json) returns (ok: bool)
    ensures ok <==> forall path :: IsPath(data, path) ==> |path| <= LIMIT
  {
    var stack := [Node(data, 0)];
    ok := true;
    while stack != []
      invariant Fits(stack) <==> Height(data) <= LIMIT
      decreases Weight(stack)
    {
      PopDecides(stack);
      ghost var before := stack;
      var n := |stack| - 1;
      var value, depth := stack[n].value, stack[n].depth;
      stack := stack[..n];
      if depth > LIMIT {
        ghost var deep := HeightIsReached(data);
        return false;
      }
      WeightOfPushed(stack, value, depth, |Children(value)|);
      stack := stack + Pushed(value, depth, |Children(value)|);
    }
    forall path | IsPath(data, path) ensures |path| <= LIMIT {
      PathsAreShort(data, path);
    }
  }
}
