/** The respawn loop of the runtime supervisor: exponential backoff with resets, and an exit
    status that is respawned without any. */
module Supervisor {
  const MAX_BACKOFF_SECONDS: real := 60.0
  const BACKOFF_RESET_SECONDS: real := 30.0
  const RESTORE_YIELD_EXIT: int := 75
  const YIELD_MIN_UPTIME_SECONDS: real := 1.0

  /** One return of `child.wait()`; `stopping` is the flag the signal handler sets. */
  datatype Exit = Exit(code: int, uptime: real, stopping: bool)

  function Min(a: real, b: real): real {
    if a <= b then a else b
  }

  /** Left for a restore, after having run an orchestrator: respawned at once. */
  predicate Yielded(e: Exit) {
    e.code == RESTORE_YIELD_EXIT && e.uptime >= YIELD_MIN_UPTIME_SECONDS
  }

  predicate LongRun(e: Exit) {
    e.uptime >= BACKOFF_RESET_SECONDS
  }

  /** The delay before the child of exit `e` is respawned. */
  function SleepFor(d: real, backoff: real, e: Exit): real {
    if Yielded(e) then 0.0 else if LongRun(e) then d else backoff
  }

  function NextBackoff(d: real, backoff: real, e: Exit): real {
    if Yielded(e) then d else Min(MAX_BACKOFF_SECONDS, SleepFor(d, backoff, e) * 2.0)
  }

  /** `backoff` when the i-th exit is handled. */
  function BackoffAt(d: real, exits: seq<Exit>, i: nat): real
    requires i <= |exits|
  {
    if i == 0 then d else NextBackoff(d, BackoffAt(d, exits, i - 1), exits[i - 1])
  }

  function Slept(d: real, exits: seq<Exit>, i: nat): real
    requires i < |exits|
  {
    SleepFor(d, BackoffAt(d, exits, i), exits[i])
  }

  /** Seconds from the start to the i-th respawn. */
  function Elapsed(d: real, exits: seq<Exit>, i: nat): real
    requires i <= |exits|
  {
    if i == 0 then 0.0 else Elapsed(d, exits, i - 1) + exits[i - 1].uptime + Slept(d, exits, i - 1)
  }

  datatype Outcome = Stopped | SleepRefused | Respawned

  /** The loop of `main`, over the exits seen so far: stopped by a signal, ended by a negative
      delay (`time.sleep` refuses it), or still respawning. */
  method Supervise(d: real, exits: seq<Exit>) returns (outcome: Outcome, sleeps: seq<real>, elapsed: real)
    ensures |sleeps| <= |exits| && forall i :: 0 <= i < |sleeps| ==> sleeps[i] == Slept(d, exits, i) >= 0.0
    ensures elapsed == Elapsed(d, exits, |sleeps|)
    ensures forall i :: 0 <= i < |sleeps| ==> !exits[i].stopping
    ensures match outcome
            case Stopped => |sleeps| < |exits| && exits[|sleeps|].stopping
            case SleepRefused => |sleeps| < |exits| && !exits[|sleeps|].stopping && Slept(d, exits, |sleeps|) < 0.0
            case Respawned => |sleeps| == |exits|
  {
    var backoff := d;
    sleeps, elapsed := [], 0.0;
    for i := 0 to |exits|
      invariant |sleeps| == i && backoff == BackoffAt(d, exits, i) && elapsed == Elapsed(d, exits, i)
      invariant forall k :: 0 <= k < i ==> sleeps[k] == Slept(d, exits, k) >= 0.0 && !exits[k].stopping
    {
      var e := exits[i];
      if e.stopping {
        return Stopped, sleeps, elapsed;
      }
      elapsed := elapsed + e.uptime;
      if e.code == RESTORE_YIELD_EXIT && e.uptime >= YIELD_MIN_UPTIME_SECONDS {
        backoff := d;
        sleeps := sleeps + [0.0];
      } else {
        if e.uptime >= BACKOFF_RESET_SECONDS {
          backoff := d;
        }
        if backoff < 0.0 {
          return SleepRefused, sleeps, elapsed - e.uptime;
        }
        elapsed := elapsed + backoff;
        sleeps := sleeps + [backoff];
        backoff := Min(MAX_BACKOFF_SECONDS, backoff * 2.0);
      }
    }
    outcome := Respawned;
  }

  // ---- it cannot spin --------------------------------------------------------------------

  /** Uptimes are differences of a monotonic clock. */
  ghost predicate Clocked(exits: seq<Exit>) {
    forall i :: 0 <= i < |exits| ==> exits[i].uptime >= 0.0
  }

  lemma {:induction false} BackoffStays(d: real, exits: seq<Exit>, i: nat)
    requires d > 0.0 && i <= |exits|
    ensures BackoffAt(d, exits, i) >= Min(1.0, d)
  {
    if i == 0 {
    } else {
      BackoffStays(d, exits, i - 1);
    }
  }

  lemma {:induction false} TakesTime(d: real, exits: seq<Exit>, i: nat)
    requires d > 0.0 && Clocked(exits) && i <= |exits|
    ensures Elapsed(d, exits, i) >= i as real * Min(1.0, d)
  {
    if i == 0 {
    } else {
      TakesTime(d, exits, i - 1);
      BackoffStays(d, exits, i - 1);
      var m := Min(1.0, d);
      assert exits[i - 1].uptime + Slept(d, exits, i - 1) >= m;
      assert i as real * m == (i - 1) as real * m + m;
    }
  }

  /** Respawns come at least `rate` seconds apart on average, whatever the children do. */
  ghost predicate NeverSpins(d: real, rate: real) {
    rate > 0.0 && forall exits :: Clocked(exits) ==> Elapsed(d, exits, |exits|) >= |exits| as real * rate
  }

  /** `n` children that die at once. */
  function DeadAtOnce(n: nat): seq<Exit> {
    seq(n, i => Exit(1, 0.0, false))
  }

  lemma {:induction false} ZeroDelaySpins(n: nat, i: nat)
    requires i <= n
    ensures BackoffAt(0.0, DeadAtOnce(n), i) == 0.0 && Elapsed(0.0, DeadAtOnce(n), i) == 0.0
  {
    if i == 0 {
    } else {
      ZeroDelaySpins(n, i - 1);
    }
  }

  /** No sequence of exit statuses and uptimes makes the loop spin, exactly when the starting
      delay is positive: N respawns then take N * min(1, d) seconds at least. At a delay of
      zero N children that die at once are respawned in no time. */
  lemma SpinsOnlyWithoutDelay(d: real)
    requires d >= 0.0
    ensures d > 0.0 ==> NeverSpins(d, Min(1.0, d))
    ensures d == 0.0 ==> forall rate :: !NeverSpins(d, rate)
  {
    if d > 0.0 {
      forall exits | Clocked(exits) ensures Elapsed(d, exits, |exits|) >= |exits| as real * Min(1.0, d) {
        TakesTime(d, exits, |exits|);
      }
    } else {
      ZeroDelaySpins(1, 1);
      forall rate ensures !NeverSpins(d, rate) {
        var one := DeadAtOnce(1);
        assert Clocked(one) && Elapsed(d, one, |one|) == 0.0;
        assert |one| as real * rate == rate;
      }
    }
  }

  // ---- the backoff -----------------------------------------------------------------------

  /** d * 2^k. */
  function Doubled(d: real, k: nat): real {
    if k == 0 then d else 2.0 * Doubled(d, k - 1)
  }

  /** A crash from which the backoff counts anew: the first one, the first after a yield, or
      one after a long run (which is its own first). */
  predicate CountsAnew(exits: seq<Exit>, m: nat)
    requires m < |exits|
  {
    !Yielded(exits[m]) && (m == 0 || Yielded(exits[m - 1]) || LongRun(exits[m]))
  }

  /** The k-th short crash in a row sleeps exactly min(60, d * 2^k), k counted from 0. */
  lemma {:induction false} BackoffDoubles(d: real, exits: seq<Exit>, m: nat, k: nat)
    requires 0.0 < d <= MAX_BACKOFF_SECONDS && m + k < |exits| && CountsAnew(exits, m)
    requires forall i :: m < i <= m + k ==> !Yielded(exits[i]) && !LongRun(exits[i])
    ensures Slept(d, exits, m + k) == Min(MAX_BACKOFF_SECONDS, Doubled(d, k))
  {
    if k == 0 {
    } else {
      BackoffDoubles(d, exits, m, k - 1);
      assert m + k - 1 == m + (k - 1) && !Yielded(exits[m + k - 1]);
      assert BackoffAt(d, exits, m + k) == Min(MAX_BACKOFF_SECONDS, Slept(d, exits, m + k - 1) * 2.0);
    }
  }

  /** Above the ceiling the starting delay is slept once, and each later crash of the run
      sleeps the ceiling. */
  lemma {:induction false} CeilingFromTheSecond(d: real, exits: seq<Exit>, m: nat, k: nat)
    requires d > MAX_BACKOFF_SECONDS && m + k < |exits| && CountsAnew(exits, m)
    requires forall i :: m < i <= m + k ==> !Yielded(exits[i]) && !LongRun(exits[i])
    ensures Slept(d, exits, m + k) == if k == 0 then d else MAX_BACKOFF_SECONDS
  {
    if k == 0 {
    } else {
      CeilingFromTheSecond(d, exits, m, k - 1);
      assert m + k - 1 == m + (k - 1) && !Yielded(exits[m + k - 1]);
      assert BackoffAt(d, exits, m + k) == Min(MAX_BACKOFF_SECONDS, Slept(d, exits, m + k - 1) * 2.0);
    }
  }
}
