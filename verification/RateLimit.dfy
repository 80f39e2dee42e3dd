/** The per-IP rate limit of the hub: a table of recent hits, pruned as it is used and cleared
    when it grows past a cap, against the full history of calls. The caller passes the wall
    clock, so nothing here assumes that it only moves forward. */
module RateLimit {
  const RATE_WINDOW: real := 60.0
  const RATE_MAX_IPS: nat := 4096

  type Table = map<string, seq<real>>

  datatype Call = Call(ip: string, now: real)

  function Since(hits: seq<real>, cutoff: real): seq<real> {
    if hits == [] then [] else (if hits[0] >= cutoff then [hits[0]] else []) + Since(hits[1..], cutoff)
  }

  predicate Clears(table: Table, ip: string) {
    ip !in table && |table| >= RATE_MAX_IPS
  }

  function Before(table: Table, ip: string): seq<real> {
    if ip in table then table[ip] else []
  }

  /** The table after a call. */
  function After(table: Table, c: Call): Table {
    (if Clears(table, c.ip) then map[] else table)
    [c.ip := Since(Before(table, c.ip), c.now - RATE_WINDOW) + [c.now]]
  }

  class RateHits {
    var hits: Table

    constructor ()
      ensures hits == map[]
    {
      hits := map[];
    }

    /** `_rate_limited`: record a hit; true once the address exceeds the limit. */
    method RateLimited(ip: string, now: real, limit: int) returns (limited: bool)
      modifies this
      ensures hits == After(old(hits), Call(ip, now))
      ensures limited <==> |hits[ip]| > limit
    {
      if ip !in hits {
        if |hits| >= RATE_MAX_IPS {
          hits := map[];
        }
        hits := hits[ip := []];
      }
      hits := hits[ip := Since(hits[ip], now - RATE_WINDOW)];
      hits := hits[ip := hits[ip] + [now]];
      limited := |hits[ip]| > limit;
    }
  }

  /** The table after the first `n` calls. */
  function TableAt(calls: seq<Call>, n: nat): Table
    requires n <= |calls|
  {
    if n == 0 then map[] else After(TableAt(calls, n - 1), calls[n - 1])
  }

  predicate ClearsAt(calls: seq<Call>, i: nat)
    requires i < |calls|
  {
    Clears(TableAt(calls, i), calls[i].ip)
  }

  predicate LimitedAt(calls: seq<Call>, limit: int, i: nat)
    requires i < |calls|
  {
    |Before(TableAt(calls, i + 1), calls[i].ip)| > limit
  }

  // ---- the table and the history ---------------------------------------------------------

  lemma {:induction false} TableIsCapped(calls: seq<Call>, n: nat)
    requires n <= |calls|
    ensures |TableAt(calls, n)| <= RATE_MAX_IPS
  {
    if n == 0 {
    } else {
      TableIsCapped(calls, n - 1);
      var t, ip := TableAt(calls, n - 1), calls[n - 1].ip;
      if ip in t {
        assert After(t, calls[n - 1]).Keys == t.Keys;
        assert |t.Keys| == |t|;
      }
    }
  }

  /** At which calls the table is cleared. */
  function Wipes(calls: seq<Call>): (r: seq<bool>)
    ensures |r| == |calls| && forall i :: 0 <= i < |r| ==> r[i] == ClearsAt(calls, i)
  {
    seq(|calls|, i requires 0 <= i < |calls| => ClearsAt(calls, i))
  }

  /** Hit `i` still counts before call `n`: the table was not cleared since, and no later call
      of the same address read a time more than the window ahead of it. */
  predicate Counts(calls: seq<Call>, wipes: seq<bool>, n: nat, i: nat)
    requires i < n <= |calls| == |wipes|
  {
    && (forall j :: i < j < n ==> !wipes[j])
    && (forall j :: i < j < n && calls[j].ip == calls[i].ip ==> calls[i].now >= calls[j].now - RATE_WINDOW)
  }

  function Remembered(calls: seq<Call>, wipes: seq<bool>, n: nat, ip: string, i: nat): seq<real>
    requires i < n <= |calls| == |wipes|
  {
    if calls[i].ip == ip && Counts(calls, wipes, n, i) then [calls[i].now] else []
  }

  /** The address's hits that still count, oldest first, from hit `i` on. */
  function History(calls: seq<Call>, wipes: seq<bool>, n: nat, ip: string, i: nat): seq<real>
    requires i <= n <= |calls| == |wipes|
    decreases n - i
  {
    if i == n then [] else Remembered(calls, wipes, n, ip, i) + History(calls, wipes, n, ip, i + 1)
  }

  lemma CountsStep(calls: seq<Call>, wipes: seq<bool>, n: nat, i: nat)
    requires i < n < |calls| == |wipes|
    ensures Counts(calls, wipes, n + 1, i) <==>
            && Counts(calls, wipes, n, i) && !wipes[n]
            && (calls[n].ip == calls[i].ip ==> calls[i].now >= calls[n].now - RATE_WINDOW)
  {
  }

  lemma SinceHead(x: real, s: seq<real>, cutoff: real)
    ensures Since([x] + s, cutoff) == (if x >= cutoff then [x] else []) + Since(s, cutoff)
  {
    assert ([x] + s)[1..] == s;
  }

  lemma Regroup(a: seq<real>, b: seq<real>, c: seq<real>)
    ensures (a + b) + c == a + (b + c)
  {
  }

  lemma {:induction false} SinceSplit(a: seq<real>, b: seq<real>, cutoff: real)
    ensures Since(a + b, cutoff) == Since(a, cutoff) + Since(b, cutoff)
  {
    if a == [] {
      assert a + b == b;
      assert Since(a, cutoff) + Since(b, cutoff) == Since(b, cutoff);
    } else {
      var x, rest := a[0], a[1..];
      assert a == [x] + rest;
      Regroup([x], rest, b);
      SinceSplit(rest, b, cutoff);
      SinceHead(x, rest + b, cutoff);
      SinceHead(x, rest, cutoff);
      Regroup(if x >= cutoff then [x] else [], Since(rest, cutoff), Since(b, cutoff));
    }
  }

  /** Pruning a list and appending a hit, part by part. */
  lemma PrunedParts(head: seq<real>, rest: seq<real>, all: seq<real>, after: seq<real>, cutoff: real, now: real)
    requires all == head + rest && after == Since(head, cutoff) + (Since(rest, cutoff) + [now])
    ensures after == Since(all, cutoff) + [now]
  {
    SinceSplit(head, rest, cutoff);
    Regroup(Since(head, cutoff), Since(rest, cutoff), [now]);
  }

  lemma RememberedOwn(calls: seq<Call>, wipes: seq<bool>, n: nat, ip: string, i: nat)
    requires i < n < |calls| == |wipes| && !wipes[n] && calls[n].ip == ip
    ensures Remembered(calls, wipes, n + 1, ip, i)
            == Since(Remembered(calls, wipes, n, ip, i), calls[n].now - RATE_WINDOW)
  {
    CountsStep(calls, wipes, n, i);
    var kept := Remembered(calls, wipes, n, ip, i);
    if kept != [] {
      assert kept[1..] == [];
    }
  }

  lemma HistoryHead(calls: seq<Call>, wipes: seq<bool>, n: nat, ip: string, i: nat)
    requires i < n <= |calls| == |wipes|
    ensures History(calls, wipes, n, ip, i) == Remembered(calls, wipes, n, ip, i) + History(calls, wipes, n, ip, i + 1)
  {
  }

  /** One hit more, on both sides of an own call. */
  lemma OwnParts(calls: seq<Call>, wipes: seq<bool>, n: nat, ip: string, i: nat, cutoff: real)
    requires i < n < |calls| == |wipes| && !wipes[n] && calls[n].ip == ip && cutoff == calls[n].now - RATE_WINDOW
    requires History(calls, wipes, n + 1, ip, i + 1)
             == Since(History(calls, wipes, n, ip, i + 1), cutoff) + [calls[n].now]
    ensures History(calls, wipes, n + 1, ip, i)
            == Since(Remembered(calls, wipes, n, ip, i), cutoff)
               + (Since(History(calls, wipes, n, ip, i + 1), cutoff) + [calls[n].now])
  {
    HistoryHead(calls, wipes, n + 1, ip, i);
    RememberedOwn(calls, wipes, n, ip, i);
  }

  lemma LastRemembered(calls: seq<Call>, wipes: seq<bool>, n: nat, ip: string)
    requires n < |calls| == |wipes|
    ensures History(calls, wipes, n + 1, ip, n) == if calls[n].ip == ip then [calls[n].now] else []
  {
    assert History(calls, wipes, n + 1, ip, n + 1) == [];
    assert Counts(calls, wipes, n + 1, n);
  }

  lemma ForgottenAtClear(calls: seq<Call>, wipes: seq<bool>, n: nat, ip: string, i: nat)
    requires i < n < |calls| == |wipes| && wipes[n]
    ensures History(calls, wipes, n + 1, ip, i) == History(calls, wipes, n + 1, ip, i + 1)
  {
    HistoryHead(calls, wipes, n + 1, ip, i);
    CountsStep(calls, wipes, n, i);
    assert Remembered(calls, wipes, n + 1, ip, i) == [];
  }

  /** A clear forgets everything before the call. */
  lemma {:induction false} HistoryCleared(calls: seq<Call>, wipes: seq<bool>, n: nat, ip: string, i: nat)
    requires i <= n < |calls| == |wipes| && wipes[n]
    ensures History(calls, wipes, n + 1, ip, i) == History(calls, wipes, n + 1, ip, n)
    decreases n - i
  {
    if i == n {
    } else {
      HistoryCleared(calls, wipes, n, ip, i + 1);
      ForgottenAtClear(calls, wipes, n, ip, i);
    }
  }

  lemma RememberedOther(calls: seq<Call>, wipes: seq<bool>, n: nat, ip: string, i: nat)
    requires i < n < |calls| == |wipes| && !wipes[n] && calls[n].ip != ip
    requires History(calls, wipes, n + 1, ip, i + 1) == History(calls, wipes, n, ip, i + 1)
    ensures History(calls, wipes, n + 1, ip, i) == History(calls, wipes, n, ip, i)
  {
    CountsStep(calls, wipes, n, i);
    HistoryHead(calls, wipes, n + 1, ip, i);
    HistoryHead(calls, wipes, n, ip, i);
    assert Remembered(calls, wipes, n + 1, ip, i) == Remembered(calls, wipes, n, ip, i);
  }

  /** A call of another address changes nothing. */
  lemma {:induction false} HistoryOther(calls: seq<Call>, wipes: seq<bool>, n: nat, ip: string, i: nat)
    requires i <= n < |calls| == |wipes| && !wipes[n] && calls[n].ip != ip
    ensures History(calls, wipes, n + 1, ip, i) == History(calls, wipes, n, ip, i)
    decreases n - i
  {
    if i == n {
      LastRemembered(calls, wipes, n, ip);
    } else {
      HistoryOther(calls, wipes, n, ip, i + 1);
      RememberedOther(calls, wipes, n, ip, i);
    }
  }

  lemma OwnStep(calls: seq<Call>, wipes: seq<bool>, n: nat, ip: string, i: nat, cutoff: real, rest: seq<real>,
                all: seq<real>)
    requires i < n < |calls| == |wipes| && !wipes[n] && calls[n].ip == ip && cutoff == calls[n].now - RATE_WINDOW
    requires rest == History(calls, wipes, n, ip, i + 1) && all == History(calls, wipes, n, ip, i)
    requires History(calls, wipes, n + 1, ip, i + 1) == Since(rest, cutoff) + [calls[n].now]
    ensures History(calls, wipes, n + 1, ip, i) == Since(all, cutoff) + [calls[n].now]
  {
    var head := Remembered(calls, wipes, n, ip, i);
    HistoryHead(calls, wipes, n, ip, i);
    OwnParts(calls, wipes, n, ip, i, cutoff);
    PrunedParts(head, rest, all, History(calls, wipes, n + 1, ip, i), cutoff, calls[n].now);
  }

  /** A call of the address prunes and appends. */
  lemma {:induction false} HistoryOwn(calls: seq<Call>, wipes: seq<bool>, n: nat, ip: string, i: nat, all: seq<real>)
    requires i <= n < |calls| == |wipes| && !wipes[n] && calls[n].ip == ip
    requires all == History(calls, wipes, n, ip, i)
    ensures History(calls, wipes, n + 1, ip, i) == Since(all, calls[n].now - RATE_WINDOW) + [calls[n].now]
    decreases n - i
  {
    if i == n {
      LastRemembered(calls, wipes, n, ip);
      assert all == [];
    } else {
      var rest := History(calls, wipes, n, ip, i + 1);
      HistoryOwn(calls, wipes, n, ip, i + 1, rest);
      OwnStep(calls, wipes, n, ip, i, calls[n].now - RATE_WINDOW, rest, all);
    }
  }

  /** What a call leaves of an address's list. */
  function Next(before: seq<real>, c: Call, wiped: bool, ip: string): seq<real> {
    var left := if wiped then [] else before;
    if c.ip == ip then Since(left, c.now - RATE_WINDOW) + [c.now] else left
  }

  lemma HistoryStep(calls: seq<Call>, wipes: seq<bool>, n: nat, ip: string)
    requires n < |calls| == |wipes|
    ensures History(calls, wipes, n + 1, ip, 0) == Next(History(calls, wipes, n, ip, 0), calls[n], wipes[n], ip)
  {
    if wipes[n] {
      HistoryCleared(calls, wipes, n, ip, 0);
      LastRemembered(calls, wipes, n, ip);
    } else if calls[n].ip == ip {
      HistoryOwn(calls, wipes, n, ip, 0, History(calls, wipes, n, ip, 0));
    } else {
      HistoryOther(calls, wipes, n, ip, 0);
    }
  }

  lemma TableStep(calls: seq<Call>, n: nat, ip: string)
    requires n < |calls|
    ensures Before(TableAt(calls, n + 1), ip) == Next(Before(TableAt(calls, n), ip), calls[n], Wipes(calls)[n], ip)
  {
  }

  lemma CallKeepsHistory(calls: seq<Call>, wipes: seq<bool>, m: nat, n: nat, ip: string)
    requires n == m + 1 <= |calls| && wipes == Wipes(calls)
    requires Before(TableAt(calls, m), ip) == History(calls, wipes, m, ip, 0)
    ensures Before(TableAt(calls, n), ip) == History(calls, wipes, n, ip, 0)
  {
    TableStep(calls, m, ip);
    HistoryStep(calls, wipes, m, ip);
  }

  lemma {:induction false} HistoryUpTo(calls: seq<Call>, wipes: seq<bool>, n: nat, ip: string)
    requires n <= |calls| && wipes == Wipes(calls)
    ensures Before(TableAt(calls, n), ip) == History(calls, wipes, n, ip, 0)
  {
    if n == 0 {
    } else {
      HistoryUpTo(calls, wipes, n - 1, ip);
      CallKeepsHistory(calls, wipes, n - 1, n, ip);
    }
  }

  /** The pruned list of every address is exactly its hits that still count; an address not in
      the table has none. */
  lemma TableIsHistory(calls: seq<Call>, n: nat, ip: string)
    requires n <= |calls|
    ensures Before(TableAt(calls, n), ip) == History(calls, Wipes(calls), n, ip, 0)
  {
    HistoryUpTo(calls, Wipes(calls), n, ip);
  }

  ghost predicate ClockRuns(calls: seq<Call>) {
    forall i, j :: 0 <= i < j < |calls| ==> calls[i].now <= calls[j].now
  }

  /** Under a clock that never runs back, a hit counts at the latest call of its address
      exactly when it is at most 60 s older and the table was not cleared since. */
  lemma CountsIsRecent(calls: seq<Call>, n: nat, i: nat)
    requires i < n <= |calls| && ClockRuns(calls) && calls[i].ip == calls[n - 1].ip
    ensures Counts(calls, Wipes(calls), n, i) <==>
            && (forall j :: i < j < n ==> !ClearsAt(calls, j))
            && calls[i].now >= calls[n - 1].now - RATE_WINDOW
  {
  }

  // ---- the limit -------------------------------------------------------------------------

  /** Calls of the address in `[a, b)`, all of them or those let through. */
  function CallsOf(calls: seq<Call>, ip: string, a: nat, b: nat): nat
    requires a <= b <= |calls|
  {
    if a == b then 0 else CallsOf(calls, ip, a, b - 1) + if calls[b - 1].ip == ip then 1 else 0
  }

  function LetThrough(calls: seq<Call>, limit: int, ip: string, a: nat, b: nat): nat
    requires a <= b <= |calls|
  {
    if a == b then 0
    else LetThrough(calls, limit, ip, a, b - 1)
         + if calls[b - 1].ip == ip && !LimitedAt(calls, limit, b - 1) then 1 else 0
  }

  /** The readings of the address in `[a, b)` fit in one closed window, and no clear comes
      after the first call. */
  ghost predicate InOneWindow(calls: seq<Call>, ip: string, a: nat, b: nat)
    requires a <= b <= |calls|
  {
    && (forall i, j :: a <= i < b && a <= j < b && calls[i].ip == ip && calls[j].ip == ip ==>
                       calls[i].now >= calls[j].now - RATE_WINDOW)
    && (forall j :: a < j < b ==> !ClearsAt(calls, j))
  }

  lemma {:induction false} LetThroughAtMostCalls(calls: seq<Call>, limit: int, ip: string, a: nat, b: nat)
    requires a <= b <= |calls|
    ensures LetThrough(calls, limit, ip, a, b) <= CallsOf(calls, ip, a, b)
  {
    if a == b {
    } else {
      LetThroughAtMostCalls(calls, limit, ip, a, b - 1);
    }
  }

  lemma {:induction false} CallsFromFront(calls: seq<Call>, ip: string, a: nat, b: nat)
    requires a < b <= |calls|
    ensures CallsOf(calls, ip, a, b) == (if calls[a].ip == ip then 1 else 0) + CallsOf(calls, ip, a + 1, b)
  {
    if a + 1 == b {
    } else {
      CallsFromFront(calls, ip, a, b - 1);
    }
  }

  /** All calls of the window are in the history list, when none of them is pruned. */
  lemma {:induction false} HistoryHolds(calls: seq<Call>, wipes: seq<bool>, n: nat, ip: string, i: nat)
    requires i <= n <= |calls| == |wipes|
    requires forall k :: i <= k < n && calls[k].ip == ip ==> Counts(calls, wipes, n, k)
    ensures |History(calls, wipes, n, ip, i)| == CallsOf(calls, ip, i, n)
    decreases n - i
  {
    if i == n {
    } else {
      HistoryHolds(calls, wipes, n, ip, i + 1);
      CallsFromFront(calls, ip, i, n);
    }
  }

  lemma {:induction false} HistorySuffix(calls: seq<Call>, wipes: seq<bool>, n: nat, ip: string, i: nat, k: nat)
    requires i <= k <= n <= |calls| == |wipes|
    ensures |History(calls, wipes, n, ip, k)| <= |History(calls, wipes, n, ip, i)|
    decreases k - i
  {
    if i == k {
    } else {
      HistorySuffix(calls, wipes, n, ip, i + 1, k);
    }
  }

  lemma WindowIsCounted(calls: seq<Call>, ip: string, a: nat, b: nat)
    requires a < b <= |calls| && InOneWindow(calls, ip, a, b)
    ensures CallsOf(calls, ip, a, b) <= |Before(TableAt(calls, b), ip)|
  {
    TableIsHistory(calls, b, ip);
    HistoryHolds(calls, Wipes(calls), b, ip, a);
    HistorySuffix(calls, Wipes(calls), b, ip, 0, a);
  }

  /** Between clears no stretch of calls whose readings fit in one closed 60 s window lets
      more than the limit through, whatever the clock did before and after. */
  lemma {:induction false} WindowLetsLimitThrough(calls: seq<Call>, limit: nat, ip: string, a: nat, b: nat)
    requires a <= b <= |calls| && InOneWindow(calls, ip, a, b)
    ensures LetThrough(calls, limit, ip, a, b) <= limit
  {
    if a == b {
    } else {
      if calls[b - 1].ip == ip && !LimitedAt(calls, limit, b - 1) {
        WindowIsCounted(calls, ip, a, b);
        LetThroughAtMostCalls(calls, limit, ip, a, b);
      } else {
        WindowLetsLimitThrough(calls, limit, ip, a, b - 1);
      }
    }
  }

  /** Of the calls of one address that read a time in `[t, t + 60]`, those let through. */
  function LetThroughIn(calls: seq<Call>, limit: int, ip: string, t: real, n: nat): nat
    requires n <= |calls|
  {
    if n == 0 then 0
    else LetThroughIn(calls, limit, ip, t, n - 1)
         + if calls[n - 1].ip == ip && t <= calls[n - 1].now <= t + RATE_WINDOW && !LimitedAt(calls, limit, n - 1)
           then 1 else 0
  }

  /** Where the window of times starts and ends among the calls, under a clock that runs. */
  function FirstFrom(calls: seq<Call>, t: real, i: nat): (r: nat)
    requires i <= |calls|
    ensures i <= r <= |calls|
    ensures forall k :: i <= k < r ==> calls[k].now < t
    ensures r < |calls| ==> calls[r].now >= t
    decreases |calls| - i
  {
    if i == |calls| || calls[i].now >= t then i else FirstFrom(calls, t, i + 1)
  }

  lemma {:induction false} WindowIsAStretch(calls: seq<Call>, limit: int, ip: string, t: real, a: nat, n: nat)
    requires ClockRuns(calls) && a == FirstFrom(calls, t, 0) && n <= |calls|
    requires n > 0 ==> calls[n - 1].now <= t + RATE_WINDOW
    ensures LetThroughIn(calls, limit, ip, t, n) == if n <= a then 0 else LetThrough(calls, limit, ip, a, n)
  {
    if n == 0 {
    } else {
      WindowIsAStretch(calls, limit, ip, t, a, n - 1);
    }
  }

  lemma {:induction false} PastTheWindow(calls: seq<Call>, limit: int, ip: string, t: real, m: nat, n: nat)
    requires m <= n <= |calls| && forall i :: m <= i < n ==> calls[i].now > t + RATE_WINDOW
    ensures LetThroughIn(calls, limit, ip, t, n) == LetThroughIn(calls, limit, ip, t, m)
  {
    if m == n {
    } else {
      PastTheWindow(calls, limit, ip, t, m, n - 1);
    }
  }

  /** With a clock that never runs back and no clear among them, the calls of one address in
      any closed 60 s of time let at most the limit through. */
  lemma NoWindowExceedsTheLimit(calls: seq<Call>, limit: nat, ip: string, t: real, m: nat)
    requires ClockRuns(calls) && m <= |calls|
    requires m > 0 ==> calls[m - 1].now <= t + RATE_WINDOW
    requires forall i :: m <= i < |calls| ==> calls[i].now > t + RATE_WINDOW
    requires forall j :: FirstFrom(calls, t, 0) < j < m ==> !ClearsAt(calls, j)
    ensures LetThroughIn(calls, limit, ip, t, |calls|) <= limit
  {
    var a := FirstFrom(calls, t, 0);
    PastTheWindow(calls, limit, ip, t, m, |calls|);
    WindowIsAStretch(calls, limit, ip, t, a, m);
    if a < m {
      assert calls[a].now >= t;
      WindowLetsLimitThrough(calls, limit, ip, a, m);
    }
  }

  // ---- which clocks keep the limit --------------------------------------------------------

  /** No reading is more than `slack` ahead of a later one. */
  ghost predicate RunsBackAtMost(calls: seq<Call>, slack: real) {
    forall i, j :: 0 <= i < j < |calls| ==> calls[i].now <= calls[j].now + slack
  }

  ghost predicate NeverClears(calls: seq<Call>) {
    forall j :: 0 <= j < |calls| ==> !ClearsAt(calls, j)
  }

  /** No closed 60 s of time lets more than the limit of one address through. */
  ghost predicate KeepsTheLimit(calls: seq<Call>, limit: nat) {
    forall ip, t :: LetThroughIn(calls, limit, ip, t, |calls|) <= limit
  }

  /** The calls up to the last one that read at most `t + 60`. */
  function LastWithin(calls: seq<Call>, t: real, n: nat): (m: nat)
    requires n <= |calls|
    ensures m <= n && (m > 0 ==> calls[m - 1].now <= t + RATE_WINDOW)
    ensures forall i :: m <= i < n ==> calls[i].now > t + RATE_WINDOW
  {
    if n == 0 || calls[n - 1].now <= t + RATE_WINDOW then n else LastWithin(calls, t, n - 1)
  }

  lemma RunningClockKeepsTheLimit(calls: seq<Call>, limit: nat)
    requires ClockRuns(calls) && NeverClears(calls)
    ensures KeepsTheLimit(calls, limit)
  {
    forall ip, t ensures LetThroughIn(calls, limit, ip, t, |calls|) <= limit {
      NoWindowExceedsTheLimit(calls, limit, ip, t, LastWithin(calls, t, |calls|));
    }
  }

  /** A limit of zero lets nothing through. */
  lemma {:induction false} NothingAtLimitZero(calls: seq<Call>, ip: string, t: real, n: nat)
    requires n <= |calls|
    ensures LetThroughIn(calls, 0, ip, t, n) == 0
  {
    if n == 0 {
    } else {
      NothingAtLimitZero(calls, ip, t, n - 1);
    }
  }

  // ---- a limit of one ---------------------------------------------------------------------

  lemma {:induction false} SinceIn(s: seq<real>, cutoff: real, x: real)
    ensures x in Since(s, cutoff) <==> x in s && x >= cutoff
  {
    if s == [] {
    } else {
      SinceIn(s[1..], cutoff, x);
      assert s == [s[0]] + s[1..];
    }
  }

  /** Some hit of the list is no earlier than `x`. */
  ghost predicate Reaches(hits: seq<real>, x: real) {
    exists h :: h in hits && h >= x
  }

  lemma AppendReaches(kept: seq<real>, now: real, x: real)
    requires Reaches(kept, x) || now >= x
    ensures Reaches(kept + [now], x)
  {
    if now >= x {
      assert now in kept + [now];
    } else {
      var h :| h in kept && h >= x;
      assert h in kept + [now];
    }
  }

  /** Pruning keeps a hit no earlier than `x`, or the new one is later itself. */
  lemma PruningReaches(hits: seq<real>, now: real, x: real)
    requires Reaches(hits, x)
    ensures Reaches(Since(hits, now - RATE_WINDOW) + [now], x)
  {
    var h :| h in hits && h >= x;
    SinceIn(hits, now - RATE_WINDOW, h);
    if h >= now - RATE_WINDOW {
      assert Reaches(Since(hits, now - RATE_WINDOW), x);
    }
    AppendReaches(Since(hits, now - RATE_WINDOW), now, x);
  }

  lemma CallReaches(t: Table, c: Call, ip: string, x: real)
    requires !Clears(t, c.ip) && (Reaches(Before(t, ip), x) || (c.ip == ip && c.now >= x))
    ensures Reaches(Before(After(t, c), ip), x)
  {
    if c.ip == ip {
      if c.now >= x {
        AppendReaches(Since(Before(t, ip), c.now - RATE_WINDOW), c.now, x);
      } else {
        PruningReaches(Before(t, ip), c.now, x);
      }
    }
  }

  /** Without clears an address's list always holds a hit no earlier than any of its readings,
      whatever the clock did. */
  lemma {:induction false} ListReaches(calls: seq<Call>, n: nat, i: nat)
    requires i < n <= |calls| && NeverClears(calls)
    ensures Reaches(Before(TableAt(calls, n), calls[i].ip), calls[i].now)
    decreases n
  {
    if n == i + 1 {
    } else {
      ListReaches(calls, n - 1, i);
    }
    assert !ClearsAt(calls, n - 1);
    CallReaches(TableAt(calls, n - 1), calls[n - 1], calls[i].ip, calls[i].now);
  }

  /** At limit one a call passes only when it is more than 60 s later than every earlier one. */
  lemma PassesLater(calls: seq<Call>, i: nat, j: nat)
    requires i < j < |calls| && NeverClears(calls) && calls[i].ip == calls[j].ip && !LimitedAt(calls, 1, j)
    ensures calls[j].now - RATE_WINDOW > calls[i].now
  {
    ListReaches(calls, j, i);
    var hits, cutoff := Before(TableAt(calls, j), calls[j].ip), calls[j].now - RATE_WINDOW;
    var h :| h in hits && h >= calls[i].now;
    SinceIn(hits, cutoff, h);
    assert |Since(hits, cutoff)| == 0;
  }

  lemma {:induction false} SomePassed(calls: seq<Call>, limit: nat, ip: string, t: real, n: nat) returns (i: nat)
    requires n <= |calls| && LetThroughIn(calls, limit, ip, t, n) > 0
    ensures i < n && calls[i].ip == ip && t <= calls[i].now <= t + RATE_WINDOW
  {
    if LetThroughIn(calls, limit, ip, t, n - 1) == 0 {
      i := n - 1;
    } else {
      i := SomePassed(calls, limit, ip, t, n - 1);
    }
  }

  lemma {:induction false} OneAtLimitOne(calls: seq<Call>, ip: string, t: real, n: nat)
    requires n <= |calls| && NeverClears(calls)
    ensures LetThroughIn(calls, 1, ip, t, n) <= 1
  {
    if n == 0 {
    } else {
      OneAtLimitOne(calls, ip, t, n - 1);
      if LetThroughIn(calls, 1, ip, t, n - 1) == 1 {
        var i := SomePassed(calls, 1, ip, t, n - 1);
        if calls[n - 1].ip == ip && !LimitedAt(calls, 1, n - 1) {
          PassesLater(calls, i, n - 1);
        }
      }
    }
  }

  /** A limit of at most one is kept under every clock. */
  lemma SmallLimitsAreKept(calls: seq<Call>, limit: nat)
    requires NeverClears(calls) && limit <= 1
    ensures KeepsTheLimit(calls, limit)
  {
    forall ip, t ensures LetThroughIn(calls, limit, ip, t, |calls|) <= limit {
      if limit == 0 {
        NothingAtLimitZero(calls, ip, t, |calls|);
      } else {
        OneAtLimitOne(calls, ip, t, |calls|);
      }
    }
  }

  // ---- when the table is cleared ----------------------------------------------------------

  function Addresses(calls: seq<Call>): set<string> {
    set c | c in calls :: c.ip
  }

  lemma OneMoreAddress(calls: seq<Call>, n: nat)
    requires n < |calls|
    ensures Addresses(calls[..n + 1]) == Addresses(calls[..n]) + {calls[n].ip}
  {
    assert calls[..n + 1] == calls[..n] + [calls[n]];
  }

  lemma AddressesGrow(calls: seq<Call>, n: nat)
    requires n <= |calls|
    ensures Addresses(calls[..n]) <= Addresses(calls) && |Addresses(calls[..n])| <= |Addresses(calls)|
  {
    assert Addresses(calls[..n]) <= Addresses(calls);
    Fewer(Addresses(calls[..n]), Addresses(calls));
  }

  lemma Fewer(a: set<string>, b: set<string>)
    requires a <= b
    ensures |a| <= |b|
  {
    assert b == a + (b - a);
  }

  lemma KeysAfter(t: Table, c: Call)
    requires !Clears(t, c.ip)
    ensures After(t, c).Keys == t.Keys + {c.ip}
  {
  }

  lemma TableHoldsOneMore(calls: seq<Call>, m: nat, n: nat)
    requires n == m + 1 <= |calls| && !ClearsAt(calls, m) && TableAt(calls, m).Keys == Addresses(calls[..m])
    ensures TableAt(calls, n).Keys == Addresses(calls[..n])
  {
    KeysAfter(TableAt(calls, m), calls[m]);
    OneMoreAddress(calls, m);
  }

  /** Until a clear the table holds every address that called. */
  lemma {:induction false} TableHoldsAll(calls: seq<Call>, n: nat)
    requires n <= |calls| && forall j :: 0 <= j < n ==> !ClearsAt(calls, j)
    ensures TableAt(calls, n).Keys == Addresses(calls[..n])
  {
    if n == 0 {
    } else {
      TableHoldsAll(calls, n - 1);
      TableHoldsOneMore(calls, n - 1, n);
    }
  }

  lemma FirstClearNeedsACrowd(calls: seq<Call>, n: nat)
    requires n < |calls| && (forall j :: 0 <= j < n ==> !ClearsAt(calls, j)) && ClearsAt(calls, n)
    ensures |Addresses(calls)| > RATE_MAX_IPS
  {
    TableHoldsAll(calls, n);
    OneMoreAddress(calls, n);
    AddressesGrow(calls, n + 1);
    assert |TableAt(calls, n).Keys| == |TableAt(calls, n)|;
  }

  lemma {:induction false} FewAddressesNeverClear(calls: seq<Call>, n: nat)
    requires n <= |calls| && |Addresses(calls)| <= RATE_MAX_IPS
    ensures forall j :: 0 <= j < n ==> !ClearsAt(calls, j)
  {
    if n == 0 {
    } else {
      FewAddressesNeverClear(calls, n - 1);
      if ClearsAt(calls, n - 1) {
        FirstClearNeedsACrowd(calls, n - 1);
      }
    }
  }

  /** The table is never cleared exactly when at most 4096 addresses call. */
  lemma NeverClearsIff(calls: seq<Call>)
    ensures NeverClears(calls) <==> |Addresses(calls)| <= RATE_MAX_IPS
  {
    if NeverClears(calls) {
      TableHoldsAll(calls, |calls|);
      assert calls[..|calls|] == calls;
      TableIsCapped(calls, |calls|);
      assert |TableAt(calls, |calls|).Keys| == |TableAt(calls, |calls|)|;
    }
    if |Addresses(calls)| <= RATE_MAX_IPS {
      FewAddressesNeverClear(calls, |calls|);
    }
  }

  // ---- as many calls at once as the limit allows ------------------------------------------

  /** The first `limit` calls are of "a", all at time zero. */
  ghost predicate Opens(calls: seq<Call>, limit: nat) {
    limit <= |calls| && forall i :: 0 <= i < limit ==> calls[i] == Call("a", 0.0)
  }

  ghost predicate Zeros(hits: seq<real>) {
    forall i :: 0 <= i < |hits| ==> hits[i] == 0.0
  }

  lemma {:induction false} ZerosStay(hits: seq<real>, cutoff: real)
    requires Zeros(hits)
    ensures Since(hits, cutoff) == if cutoff <= 0.0 then hits else []
  {
    if hits == [] {
    } else {
      ZerosStay(hits[1..], cutoff);
      assert hits == [hits[0]] + hits[1..];
    }
  }

  /** After `n` calls the table holds "a" alone, with `n` hits at zero. */
  ghost predicate OnlyZeros(t: Table, n: nat) {
    && t.Keys == (if n == 0 then {} else {"a"})
    && |Before(t, "a")| == n && Zeros(Before(t, "a"))
  }

  lemma ZeroCall(t: Table, c: Call, n: nat, after: Table)
    requires OnlyZeros(t, n) && c == Call("a", 0.0) && after == After(t, c)
    ensures OnlyZeros(after, n + 1)
  {
    ZerosStay(Before(t, "a"), -RATE_WINDOW);
    assert 0.0 - RATE_WINDOW == -RATE_WINDOW;
    assert |t| == |t.Keys| <= 1;
  }

  lemma {:induction false} OpeningFills(calls: seq<Call>, limit: nat, n: nat)
    requires Opens(calls, limit) && n <= limit
    ensures OnlyZeros(TableAt(calls, n), n)
  {
    if n == 0 {
    } else {
      OpeningFills(calls, limit, n - 1);
      ZeroCall(TableAt(calls, n - 1), calls[n - 1], n - 1, TableAt(calls, n));
    }
  }

  /** All of them pass. */
  lemma {:induction false} OpeningPasses(calls: seq<Call>, limit: nat, n: nat)
    requires Opens(calls, limit) && n <= limit
    ensures LetThroughIn(calls, limit, "a", 0.0, n) == n
  {
    if n == 0 {
    } else {
      OpeningPasses(calls, limit, n - 1);
      OpeningFills(calls, limit, n);
      assert calls[n - 1] == Call("a", 0.0);
      assert !LimitedAt(calls, limit, n - 1);
    }
  }

  // ---- a clock that runs back -------------------------------------------------------------

  /** After the opening, one call whose reading jumped ahead by `e`, and one at the end of the
      opening's window. */
  ghost predicate Jumping(calls: seq<Call>, limit: nat, e: real) {
    && |calls| == limit + 2 && Opens(calls, limit)
    && calls[limit] == Call("a", RATE_WINDOW + e) && calls[limit + 1] == Call("a", RATE_WINDOW)
  }

  function JumpingCalls(limit: nat, e: real): (calls: seq<Call>)
    ensures Jumping(calls, limit, e)
  {
    seq(limit, _ => Call("a", 0.0)) + [Call("a", RATE_WINDOW + e), Call("a", RATE_WINDOW)]
  }

  lemma OneAddress(calls: seq<Call>, limit: nat, e: real)
    requires Jumping(calls, limit, e)
    ensures Addresses(calls) == {"a"} && |Addresses(calls)| == 1
  {
    assert calls[limit] in calls;
    assert Addresses(calls) == {"a"};
  }

  /** The jump prunes the whole opening, and what it leaves is one hit. */
  lemma JumpPrunes(t: Table, n: nat, e: real)
    requires OnlyZeros(t, n) && e > 0.0
    ensures Before(After(t, Call("a", RATE_WINDOW + e)), "a") == [RATE_WINDOW + e]
    ensures "a" in After(t, Call("a", RATE_WINDOW + e))
  {
    assert |t| == |t.Keys| <= 1;
    ZerosStay(Before(t, "a"), RATE_WINDOW + e - RATE_WINDOW);
  }

  lemma SecondAfterTheJump(t: Table, e: real)
    requires "a" in t && Before(t, "a") == [RATE_WINDOW + e] && e > 0.0
    ensures |Before(After(t, Call("a", RATE_WINDOW)), "a")| == 2
  {
    assert [RATE_WINDOW + e][1..] == [];
    assert Since([RATE_WINDOW + e], RATE_WINDOW - RATE_WINDOW) == [RATE_WINDOW + e];
  }

  lemma LastOfJumpPasses(calls: seq<Call>, limit: nat, e: real)
    requires Jumping(calls, limit, e) && e > 0.0 && limit >= 2
    ensures !LimitedAt(calls, limit, limit + 1)
  {
    OpeningFills(calls, limit, limit);
    JumpPrunes(TableAt(calls, limit), limit, e);
    assert TableAt(calls, limit + 1) == After(TableAt(calls, limit), calls[limit]);
    SecondAfterTheJump(TableAt(calls, limit + 1), e);
    assert TableAt(calls, limit + 2) == After(TableAt(calls, limit + 1), calls[limit + 1]);
  }

  /** A clock that jumps ahead by however little and comes back breaks every limit of two or
      more: the jump prunes hits that a later call's window still holds. */
  lemma ClockJumpExceedsTheLimit(limit: nat, e: real)
    requires limit >= 2 && e > 0.0
    ensures var calls := JumpingCalls(limit, e);
            && RunsBackAtMost(calls, e) && |Addresses(calls)| == 1 && NeverClears(calls)
            && LetThroughIn(calls, limit, "a", 0.0, |calls|) == limit + 1
  {
    var calls := JumpingCalls(limit, e);
    OneAddress(calls, limit, e);
    NeverClearsIff(calls);
    OpeningPasses(calls, limit, limit);
    LastOfJumpPasses(calls, limit, e);
    assert LetThroughIn(calls, limit, "a", 0.0, limit + 1) == limit;
  }

  /** Of all clocks whose readings run back by at most `slack`, every one keeps the limit (while
      the table is not cleared) exactly when `slack` is zero or the limit is at most one. */
  lemma LimitNeedsARunningClock(limit: nat, slack: real)
    requires slack >= 0.0
    ensures (forall calls :: RunsBackAtMost(calls, slack) && NeverClears(calls) ==> KeepsTheLimit(calls, limit))
        <==> slack == 0.0 || limit <= 1
  {
    forall calls | RunsBackAtMost(calls, slack) && NeverClears(calls) && (slack == 0.0 || limit <= 1)
      ensures KeepsTheLimit(calls, limit)
    {
      if limit <= 1 {
        SmallLimitsAreKept(calls, limit);
      } else {
        RunningClockKeepsTheLimit(calls, limit);
      }
    }
    if slack > 0.0 && limit >= 2 {
      ClockJumpExceedsTheLimit(limit, slack);
      assert !KeepsTheLimit(JumpingCalls(limit, slack), limit);
    }
  }

  // ---- a clear forgets what it should count ----------------------------------------------

  function Address(i: nat): (s: string)
    ensures |s| == i + 2
  {
    seq(i + 2, _ => 'b')
  }

  /** At one moment: the opening, a call each of 4096 other addresses, and another call of "a". */
  ghost predicate Crowd(calls: seq<Call>, limit: nat) {
    && |calls| == limit + RATE_MAX_IPS + 1 && Opens(calls, limit)
    && (forall k :: 0 <= k < RATE_MAX_IPS ==> calls[limit + k] == Call(Address(k), 0.0))
    && calls[limit + RATE_MAX_IPS] == Call("a", 0.0)
  }

  function CrowdCalls(limit: nat): (calls: seq<Call>)
    ensures Crowd(calls, limit)
  {
    seq(limit, _ => Call("a", 0.0)) + seq(RATE_MAX_IPS, k => Call(if k >= 0 then Address(k) else "", 0.0))
      + [Call("a", 0.0)]
  }

  /** `n` addresses of at most `n` characters. */
  ghost predicate Among(t: Table, n: nat) {
    |t| == n && forall ip :: ip in t ==> |ip| <= n
  }

  /** While the table fills up, each call is of an address not in it. */
  lemma NewAddressFills(t: Table, c: Call, n: nat)
    requires n < RATE_MAX_IPS && Among(t, n) && |c.ip| == n + 1
    ensures Among(After(t, c), n + 1)
  {
    KeysAfter(t, c);
    assert |After(t, c).Keys| == |t.Keys| + 1;
    forall ip | ip in After(t, c) ensures |ip| <= n + 1 {
      assert ip in t.Keys + {c.ip};
    }
  }

  lemma {:induction false} TableFills(calls: seq<Call>, limit: nat, k: nat)
    requires Crowd(calls, limit) && limit > 0 && k < RATE_MAX_IPS
    ensures Among(TableAt(calls, limit + k), k + 1)
  {
    if k == 0 {
      OpeningFills(calls, limit, limit);
      assert |TableAt(calls, limit)| == |TableAt(calls, limit).Keys|;
    } else {
      TableFills(calls, limit, k - 1);
      assert calls[limit + (k - 1)] == Call(Address(k - 1), 0.0);
      NewAddressFills(TableAt(calls, limit + k - 1), calls[limit + k - 1], k);
    }
  }

  lemma ClearForgets(t: Table, c: Call, ip: string)
    requires Clears(t, c.ip) && c.ip != ip
    ensures Before(After(t, c), ip) == []
  {
  }

  lemma FirstOfItsAddress(t: Table, c: Call)
    requires Before(t, c.ip) == []
    ensures |Before(After(t, c), c.ip)| == 1
  {
    assert Since([], c.now - RATE_WINDOW) == [];
  }

  /** The last of the crowd clears the table, so the last call is counted as a first. */
  lemma LastOfCrowdPasses(calls: seq<Call>, limit: nat)
    requires Crowd(calls, limit) && limit > 0
    ensures ClearsAt(calls, limit + RATE_MAX_IPS - 1) && !LimitedAt(calls, limit, limit + RATE_MAX_IPS)
  {
    var last := limit + (RATE_MAX_IPS - 1);
    TableFills(calls, limit, RATE_MAX_IPS - 1);
    assert calls[last] == Call(Address(RATE_MAX_IPS - 1), 0.0);
    assert |"a"| == 1;
    ClearForgets(TableAt(calls, last), calls[last], "a");
    assert TableAt(calls, last + 1) == After(TableAt(calls, last), calls[last]);
    FirstOfItsAddress(TableAt(calls, last + 1), calls[last + 1]);
    assert TableAt(calls, last + 2) == After(TableAt(calls, last + 1), calls[last + 1]);
  }

  lemma {:induction false} OthersDoNotCount(calls: seq<Call>, limit: nat, ip: string, t: real, m: nat, n: nat)
    requires m <= n <= |calls| && forall i :: m <= i < n ==> calls[i].ip != ip
    ensures LetThroughIn(calls, limit, ip, t, n) == LetThroughIn(calls, limit, ip, t, m)
  {
    if m == n {
    } else {
      OthersDoNotCount(calls, limit, ip, t, m, n - 1);
    }
  }

  lemma CrowdIsOfOthers(calls: seq<Call>, limit: nat, i: nat)
    requires Crowd(calls, limit) && limit <= i < limit + RATE_MAX_IPS
    ensures calls[i].ip != "a"
  {
    assert calls[limit + (i - limit)] == Call(Address(i - limit), 0.0);
    assert |"a"| == 1;
  }

  /** Up to its `k`-th other address. */
  lemma {:induction false} CrowdIsSmall(calls: seq<Call>, limit: nat, k: nat)
    requires Crowd(calls, limit) && k <= RATE_MAX_IPS
    ensures |Addresses(calls[..limit + k])| <= k + 1
  {
    if k == 0 {
      assert Addresses(calls[..limit]) <= {"a"};
      Fewer(Addresses(calls[..limit]), {"a"});
    } else {
      CrowdIsSmall(calls, limit, k - 1);
      OneMoreAddress(calls, limit + k - 1);
    }
  }

  lemma CrowdAddresses(calls: seq<Call>, limit: nat)
    requires Crowd(calls, limit) && limit > 0
    ensures |Addresses(calls)| <= RATE_MAX_IPS + 1
  {
    var n := limit + RATE_MAX_IPS;
    CrowdIsSmall(calls, limit, RATE_MAX_IPS);
    OneMoreAddress(calls, n);
    assert calls[..n + 1] == calls;
    assert calls[0] in calls[..n];
    assert Addresses(calls) == Addresses(calls[..n]);
  }

  /** Under a clock that stands still, 4097 addresses are enough to break every limit but zero:
      the last of them clears the table. */
  lemma ClearExceedsTheLimit(limit: nat)
    requires limit > 0
    ensures var calls := CrowdCalls(limit);
            && ClockRuns(calls) && |Addresses(calls)| <= RATE_MAX_IPS + 1
            && ClearsAt(calls, limit + RATE_MAX_IPS - 1)
            && LetThroughIn(calls, limit, "a", 0.0, |calls|) == limit + 1
  {
    var calls := CrowdCalls(limit);
    CrowdAddresses(calls, limit);
    OpeningPasses(calls, limit, limit);
    forall i | limit <= i < limit + RATE_MAX_IPS ensures calls[i].ip != "a" {
      CrowdIsOfOthers(calls, limit, i);
    }
    OthersDoNotCount(calls, limit, "a", 0.0, limit, limit + RATE_MAX_IPS);
    LastOfCrowdPasses(calls, limit);
  }

  // ---- exactly when the limit holds -------------------------------------------------------

  /** Runs of at most `n` addresses under a clock that runs back by at most `slack`. */
  ghost predicate Within(calls: seq<Call>, slack: real, n: nat) {
    RunsBackAtMost(calls, slack) && |Addresses(calls)| <= n
  }

  lemma SomebodyCalled(calls: seq<Call>)
    ensures calls != [] ==> |Addresses(calls)| > 0
  {
    if calls != [] {
      assert calls[0].ip in Addresses(calls);
    }
  }

  lemma LimitHolds(calls: seq<Call>, limit: nat, slack: real, n: nat)
    requires Within(calls, slack, n)
    requires limit == 0 || n == 0 || (n <= RATE_MAX_IPS && (slack == 0.0 || limit == 1))
    ensures KeepsTheLimit(calls, limit)
  {
    if n == 0 {
      SomebodyCalled(calls);
    } else if limit == 0 {
      forall ip, t ensures LetThroughIn(calls, limit, ip, t, |calls|) <= limit {
        NothingAtLimitZero(calls, ip, t, |calls|);
      }
    } else {
      NeverClearsIff(calls);
      if limit == 1 {
        SmallLimitsAreKept(calls, limit);
      } else {
        RunningClockKeepsTheLimit(calls, limit);
      }
    }
  }

  lemma LimitFails(limit: nat, slack: real, n: nat) returns (calls: seq<Call>)
    requires slack >= 0.0 && limit > 0 && n > 0 && (n > RATE_MAX_IPS || (slack > 0.0 && limit > 1))
    ensures Within(calls, slack, n) && !KeepsTheLimit(calls, limit)
  {
    if n > RATE_MAX_IPS {
      calls := CrowdCalls(limit);
      ClearExceedsTheLimit(limit);
    } else {
      calls := JumpingCalls(limit, slack);
      ClockJumpExceedsTheLimit(limit, slack);
    }
    assert LetThroughIn(calls, limit, "a", 0.0, |calls|) > limit;
  }

  /** At a given limit, all runs of at most `n` addresses under clocks that run back by at most
      `slack` keep it exactly when nobody calls or nothing may pass, or the addresses fit in the
      table and the clock never runs back (which a limit of one does not need). */
  lemma LimitHoldsIff(limit: nat, slack: real, n: nat)
    requires slack >= 0.0
    ensures (forall calls :: Within(calls, slack, n) ==> KeepsTheLimit(calls, limit))
        <==> limit == 0 || n == 0 || (n <= RATE_MAX_IPS && (slack == 0.0 || limit == 1))
  {
    if limit == 0 || n == 0 || (n <= RATE_MAX_IPS && (slack == 0.0 || limit == 1)) {
      forall calls | Within(calls, slack, n) ensures KeepsTheLimit(calls, limit) {
        LimitHolds(calls, limit, slack, n);
      }
    } else {
      var calls := LimitFails(limit, slack, n);
    }
  }
}
