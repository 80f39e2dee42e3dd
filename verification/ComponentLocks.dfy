/** The component locks of `lock.py`: an insertion-ordered table of path locks in one file,
    exclusive by string prefix between entities, released when stale. Each operation loads,
    changes and saves the table as one step; the clock is read anew for every lock examined,
    and may show anything. Paths are already normalised. */
module ComponentLocks {
  import opened Wrappers

  const STALE_TIMEOUT: real := 1800.0

  datatype Lock = Lock(path: string, entity: string, task: string, ts: real)

  /** What `time.time()` shows when the lock on a path is examined. */
  type Clock = string -> real

  predicate Stale(l: Lock, clock: Clock) {
    clock(l.path) - l.ts > STALE_TIMEOUT
  }

  /** One path is a string prefix of the other. */
  predicate Overlap(p: string, q: string) {
    p <= q || q <= p
  }

  function Unexpired(locks: seq<Lock>, clock: Clock): seq<Lock> {
    if locks == [] then [] else (if Stale(locks[0], clock) then [] else [locks[0]]) + Unexpired(locks[1..], clock)
  }

  /** The first lock that overlaps the path, other than those of `entity`. */
  function Blocker(locks: seq<Lock>, path: string, entity: Option<string>): Option<Lock> {
    if locks == [] then None
    else if Overlap(path, locks[0].path) && entity != Some(locks[0].entity) then Some(locks[0])
    else Blocker(locks[1..], path, entity)
  }

  /** `state[path] = lock`: in place when the path is there, at the end otherwise. */
  function Put(locks: seq<Lock>, l: Lock): seq<Lock> {
    if locks == [] then [l] else if locks[0].path == l.path then [l] + locks[1..] else [locks[0]] + Put(locks[1..], l)
  }

  function Find(locks: seq<Lock>, path: string): Option<Lock> {
    if locks == [] then None else if locks[0].path == path then Some(locks[0]) else Find(locks[1..], path)
  }

  function Without(locks: seq<Lock>, path: string): seq<Lock> {
    if locks == [] then [] else if locks[0].path == path then locks[1..] else [locks[0]] + Without(locks[1..], path)
  }

  datatype Op =
    | Acquire(lock: Lock, clock: Clock)
    | Release(entity: string, path: string, force: bool)
    | Check(path: string, clock: Clock)
    | ReleaseStale(clock: Clock)

  predicate Acquires(locks: seq<Lock>, l: Lock, clock: Clock) {
    Blocker(Unexpired(locks, clock), l.path, Some(l.entity)).None?
  }

  predicate Releases(locks: seq<Lock>, entity: string, path: string, force: bool) {
    Find(locks, path).Some? && (Find(locks, path).value.entity == entity || force)
  }

  /** The table an operation leaves. */
  function Apply(locks: seq<Lock>, op: Op): seq<Lock> {
    match op
    case Acquire(l, clock) => if Acquires(locks, l, clock) then Put(Unexpired(locks, clock), l)
        else Unexpired(locks, clock)
    case Release(entity, path, force) => if Releases(locks, entity, path, force) then Without(locks, path) else locks
    case Check(path, clock) => Unexpired(locks, clock)
    case ReleaseStale(clock) => Unexpired(locks, clock)
  }

  function Run(locks: seq<Lock>, ops: seq<Op>): seq<Lock>
    decreases |ops|
  {
    if ops == [] then locks else Run(Apply(locks, ops[0]), ops[1..])
  }

  lemma UnexpiredFrom(locks: seq<Lock>, clock: Clock, i: nat)
    requires i < |locks|
    ensures Unexpired(locks[i..], clock)
            == (if Stale(locks[i], clock) then [] else [locks[i]]) + Unexpired(locks[i + 1..], clock)
  {
    assert locks[i..][1..] == locks[i + 1..];
  }

  lemma KeptSoFar(locks: seq<Lock>, clock: Clock, kept: seq<Lock>, i: nat)
    requires i < |locks|
    ensures kept + Unexpired(locks[i..], clock)
            == (if Stale(locks[i], clock) then kept else kept + [locks[i]]) + Unexpired(locks[i + 1..], clock)
  {
    UnexpiredFrom(locks, clock, i);
  }

  lemma {:induction false} UnexpiredShrinks(locks: seq<Lock>, clock: Clock)
    ensures |Unexpired(locks, clock)| <= |locks|
  {
    if locks == [] {
    } else {
      UnexpiredShrinks(locks[1..], clock);
    }
  }

  class LockFile {
    var locks: seq<Lock>

    constructor ()
      ensures locks == []
    {
      locks := [];
    }

    /** `_auto_release_stale`. */
    method AutoReleaseStale(clock: Clock)
      modifies this
      ensures locks == Unexpired(old(locks), clock)
    {
      var kept: seq<Lock> := [];
      assert locks[0..] == locks;
      for i := 0 to |locks|
        invariant locks == old(locks)
        invariant kept + Unexpired(locks[i..], clock) == Unexpired(locks, clock)
      {
        KeptSoFar(locks, clock, kept, i);
        if !Stale(locks[i], clock) {
          kept := kept + [locks[i]];
        }
      }
      assert kept + [] == kept;
      locks := kept;
    }

    method FindBlocker(path: string, entity: Option<string>) returns (blocker: Option<Lock>)
      ensures blocker == Blocker(locks, path, entity)
    {
      assert locks[0..] == locks;
      for i := 0 to |locks|
        invariant Blocker(locks[i..], path, entity) == Blocker(locks, path, entity)
      {
        assert locks[i..][1..] == locks[i + 1..];
        if Overlap(path, locks[i].path) && entity != Some(locks[i].entity) {
          return Some(locks[i]);
        }
      }
      return None;
    }

    /** `acquire_component`. */
    method AcquireComponent(l: Lock, clock: Clock) returns (ok: bool)
      modifies this
      ensures ok == Acquires(old(locks), l, clock) && locks == Apply(old(locks), Acquire(l, clock))
    {
      AutoReleaseStale(clock);
      var blocker := FindBlocker(l.path, Some(l.entity));
      if blocker.Some? {
        return false;
      }
      locks := Put(locks, l);
      return true;
    }

    /** `release_component`. */
    method ReleaseComponent(entity: string, path: string, force: bool) returns (ok: bool)
      modifies this
      ensures ok == Releases(old(locks), entity, path, force)
          && locks == Apply(old(locks), Release(entity, path, force))
    {
      var l := Find(locks, path);
      if l.None? || (l.value.entity != entity && !force) {
        return false;
      }
      locks := Without(locks, path);
      return true;
    }

    /** `check_component`. */
    method CheckComponent(path: string, clock: Clock) returns (info: Option<Lock>)
      modifies this
      ensures info == Blocker(Unexpired(old(locks), clock), path, None)
          && locks == Apply(old(locks), Check(path, clock))
    {
      AutoReleaseStale(clock);
      info := FindBlocker(path, None);
    }

    /** The component part of `release_stale`: how many locks went. */
    method ReleaseStaleLocks(clock: Clock) returns (count: nat)
      modifies this
      ensures locks == Apply(old(locks), ReleaseStale(clock)) && count == |old(locks)| - |locks|
    {
      UnexpiredShrinks(locks, clock);
      var before := |locks|;
      AutoReleaseStale(clock);
      count := before - |locks|;
    }
  }

  // ---- tables ----------------------------------------------------------------------------

  lemma {:induction false} UnexpiredIn(locks: seq<Lock>, clock: Clock, l: Lock)
    ensures l in Unexpired(locks, clock) <==> l in locks && !Stale(l, clock)
  {
    if locks == [] {
    } else {
      UnexpiredIn(locks[1..], clock, l);
      assert locks == [locks[0]] + locks[1..];
    }
  }

  lemma {:induction false} NoBlocker(locks: seq<Lock>, path: string, entity: Option<string>)
    ensures var b := Blocker(locks, path, entity);
            && (b.None? <==> forall l :: l in locks && Overlap(path, l.path) ==> entity == Some(l.entity))
            && (b.Some? ==> b.value in locks && Overlap(path, b.value.path) && entity != Some(b.value.entity))
  {
    if locks == [] {
    } else {
      NoBlocker(locks[1..], path, entity);
      assert locks == [locks[0]] + locks[1..];
    }
  }

  /** No path is locked twice, as in a dict. */
  predicate OnePerPath(locks: seq<Lock>) {
    forall i, k :: 0 <= i < k < |locks| ==> locks[i].path != locks[k].path
  }

  lemma {:induction false} PutIn(locks: seq<Lock>, l: Lock, x: Lock)
    requires OnePerPath(locks)
    ensures x in Put(locks, l) <==> x == l || (x in locks && x.path != l.path)
  {
    if locks == [] {
    } else {
      assert locks == [locks[0]] + locks[1..];
      if locks[0].path != l.path {
        PutIn(locks[1..], l, x);
      } else if x in locks[1..] {
        var k :| 0 <= k < |locks[1..]| && locks[1..][k] == x;
        assert locks[0].path != locks[k + 1].path;
      }
    }
  }

  lemma {:induction false} WithoutIn(locks: seq<Lock>, path: string, x: Lock)
    requires OnePerPath(locks)
    ensures x in Without(locks, path) <==> x in locks && x.path != path
  {
    if locks == [] {
    } else {
      assert locks == [locks[0]] + locks[1..];
      if locks[0].path != path {
        WithoutIn(locks[1..], path, x);
      } else if x in locks[1..] {
        var k :| 0 <= k < |locks[1..]| && locks[1..][k] == x;
        assert locks[0].path != locks[k + 1].path;
      }
    }
  }

  lemma {:induction false} FindIn(locks: seq<Lock>, path: string, x: Lock)
    requires OnePerPath(locks)
    ensures Find(locks, path) == Some(x) <==> x in locks && x.path == path
  {
    if locks == [] {
    } else {
      assert locks == [locks[0]] + locks[1..];
      if locks[0].path != path {
        FindIn(locks[1..], path, x);
      } else if x in locks[1..] {
        var k :| 0 <= k < |locks[1..]| && locks[1..][k] == x;
        assert locks[0].path != locks[k + 1].path;
      }
    }
  }

  lemma OneMore(x: Lock, rest: seq<Lock>)
    requires OnePerPath(rest) && forall y :: y in rest ==> y.path != x.path
    ensures OnePerPath([x] + rest)
  {
  }

  lemma HeadIsAlone(locks: seq<Lock>, y: Lock)
    requires OnePerPath(locks) && locks != [] && y in locks[1..]
    ensures y.path != locks[0].path
  {
    var k :| 0 <= k < |locks[1..]| && locks[1..][k] == y;
    assert locks[k + 1] == y;
  }

  lemma {:induction false} UnexpiredStaysOne(locks: seq<Lock>, clock: Clock)
    requires OnePerPath(locks)
    ensures OnePerPath(Unexpired(locks, clock))
  {
    if locks == [] {
    } else {
      var rest := locks[1..];
      UnexpiredStaysOne(rest, clock);
      forall y | y in Unexpired(rest, clock) ensures y.path != locks[0].path {
        UnexpiredIn(rest, clock, y);
        HeadIsAlone(locks, y);
      }
      OneMore(locks[0], Unexpired(rest, clock));
    }
  }

  lemma {:induction false} PutStaysOne(locks: seq<Lock>, l: Lock)
    requires OnePerPath(locks)
    ensures OnePerPath(Put(locks, l))
  {
    if locks == [] {
    } else {
      var rest := locks[1..];
      forall y | y in rest ensures y.path != locks[0].path {
        HeadIsAlone(locks, y);
      }
      if locks[0].path == l.path {
        OneMore(l, rest);
      } else {
        PutStaysOne(rest, l);
        forall y | y in Put(rest, l) ensures y.path != locks[0].path {
          PutIn(rest, l, y);
        }
        OneMore(locks[0], Put(rest, l));
      }
    }
  }

  lemma {:induction false} WithoutStaysOne(locks: seq<Lock>, path: string)
    requires OnePerPath(locks)
    ensures OnePerPath(Without(locks, path))
  {
    if locks == [] || locks[0].path == path {
    } else {
      var rest := locks[1..];
      WithoutStaysOne(rest, path);
      forall y | y in Without(rest, path) ensures y.path != locks[0].path {
        WithoutIn(rest, path, y);
        HeadIsAlone(locks, y);
      }
      OneMore(locks[0], Without(rest, path));
    }
  }

  // ---- exclusion -------------------------------------------------------------------------

  /** No two entities hold overlapping paths. */
  predicate Exclusive(locks: seq<Lock>) {
    OnePerPath(locks) && forall x, y :: x in locks && y in locks && x.entity != y.entity ==> !Overlap(x.path, y.path)
  }

  lemma StepKeepsExclusion(locks: seq<Lock>, op: Op)
    requires Exclusive(locks)
    ensures Exclusive(Apply(locks, op))
  {
    var after := Apply(locks, op);
    match op
    case Acquire(l, clock) =>
      UnexpiredStaysOne(locks, clock);
      forall x { UnexpiredIn(locks, clock, x); }
      var kept := Unexpired(locks, clock);
      if Acquires(locks, l, clock) {
        PutStaysOne(kept, l);
        NoBlocker(kept, l.path, Some(l.entity));
        forall x { PutIn(kept, l, x); }
      }
    case Release(entity, path, force) =>
      if Releases(locks, entity, path, force) {
        WithoutStaysOne(locks, path);
        forall x { WithoutIn(locks, path, x); }
      }
    case Check(_, clock) =>
      UnexpiredStaysOne(locks, clock);
      forall x { UnexpiredIn(locks, clock, x); }
    case ReleaseStale(clock) =>
      UnexpiredStaysOne(locks, clock);
      forall x { UnexpiredIn(locks, clock, x); }
  }

  /** After any operations by anyone, whatever the clock showed. */
  lemma {:induction false} ExclusionOverRuns(locks: seq<Lock>, ops: seq<Op>)
    requires Exclusive(locks)
    ensures Exclusive(Run(locks, ops))
    decreases |ops|
  {
    if ops == [] {
    } else {
      StepKeepsExclusion(locks, ops[0]);
      ExclusionOverRuns(Apply(locks, ops[0]), ops[1..]);
    }
  }

  predicate ReadsClock(op: Op) {
    !op.Release?
  }

  /** What an operation may do to a lock: a stale one goes, an unexpired one goes only when it
      is released by its owner or by force, and is rewritten only by its owner's own acquire. */
  lemma LockFate(locks: seq<Lock>, op: Op, x: Lock)
    requires Exclusive(locks) && x in locks
    ensures var after := Apply(locks, op);
            && (ReadsClock(op) && Stale(x, op.clock) ==>
                  forall y :: y in after && y.path == x.path ==> op.Acquire? && y == op.lock)
            && (x !in after && !(ReadsClock(op) && Stale(x, op.clock)) ==>
                  || (op.Release? && op.path == x.path && (op.entity == x.entity || op.force))
                  || (op.Acquire? && op.lock.path == x.path && op.lock.entity == x.entity && op.lock in after))
  {
    match op
    case Acquire(l, clock) =>
      UnexpiredStaysOne(locks, clock);
      var kept := Unexpired(locks, clock);
      forall y ensures y in kept <==> y in locks && !Stale(y, clock) { UnexpiredIn(locks, clock, y); }
      forall y | y in locks && y.path == x.path ensures y == x { FindIn(locks, x.path, x); FindIn(locks, x.path, y); }
      if Acquires(locks, l, clock) {
        NoBlocker(kept, l.path, Some(l.entity));
        forall y ensures y in Put(kept, l) <==> y == l || (y in kept && y.path != l.path) { PutIn(kept, l, y); }
      }
    case Release(entity, path, force) =>
      FindIn(locks, path, x);
      WithoutIn(locks, path, x);
    case Check(_, clock) =>
      forall y | y in locks && y.path == x.path ensures y == x { FindIn(locks, x.path, x); FindIn(locks, x.path, y); }
      forall y { UnexpiredIn(locks, clock, y); }
    case ReleaseStale(clock) =>
      forall y | y in locks && y.path == x.path ensures y == x { FindIn(locks, x.path, x); FindIn(locks, x.path, y); }
      forall y { UnexpiredIn(locks, clock, y); }
  }

  // ---- check and acquire -----------------------------------------------------------------

  /** An acquire succeeds exactly when every unexpired lock it overlaps is the entity's own. */
  lemma AcquireIff(locks: seq<Lock>, l: Lock, clock: Clock)
    ensures Acquires(locks, l, clock) <==>
            forall x :: x in locks && !Stale(x, clock) && Overlap(l.path, x.path) ==> x.entity == l.entity
  {
    NoBlocker(Unexpired(locks, clock), l.path, Some(l.entity));
    forall x ensures x in Unexpired(locks, clock) <==> x in locks && !Stale(x, clock) { UnexpiredIn(locks, clock, x); }
  }

  lemma {:induction false} UnexpiredTwice(locks: seq<Lock>, clock: Clock)
    ensures Unexpired(Unexpired(locks, clock), clock) == Unexpired(locks, clock)
  {
    if locks == [] {
    } else {
      UnexpiredTwice(locks[1..], clock);
      var rest := Unexpired(locks[1..], clock);
      if Stale(locks[0], clock) {
        assert Unexpired(locks, clock) == rest;
      } else {
        var all := Unexpired(locks, clock);
        assert all[0] == locks[0] && all[1..] == rest;
        assert Unexpired(all, clock) == [all[0]] + Unexpired(all[1..], clock);
      }
    }
  }

  /** `check_component` answers None exactly when, at that instant, anyone can acquire; and
      the lock it names refuses everyone but its owner. */
  lemma CheckAgreesWithAcquire(locks: seq<Lock>, path: string, clock: Clock)
    ensures var info := Blocker(Unexpired(locks, clock), path, None);
            var after := Apply(locks, Check(path, clock));
            && (info.None? <==> forall entity, task, ts :: Acquires(after, Lock(path, entity, task, ts), clock))
            && (info.Some? ==> forall entity, task, ts :: entity != info.value.entity ==>
                                 !Acquires(after, Lock(path, entity, task, ts), clock))
  {
    var kept := Unexpired(locks, clock);
    UnexpiredTwice(locks, clock);
    NoBlocker(kept, path, None);
    forall entity, task, ts
      ensures Acquires(kept, Lock(path, entity, task, ts), clock) <==>
              forall x :: x in kept && Overlap(path, x.path) ==> x.entity == entity
    {
      NoBlocker(kept, path, Some(entity));
    }
    var info := Blocker(kept, path, None);
    if info.Some? {
      assert !Acquires(kept, Lock(path, info.value.entity + "x", "", 0.0), clock);
    }
  }
}
