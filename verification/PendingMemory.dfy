/** Imported facts waiting for the owner: the fingerprint-keyed store with its transition
    table, the reading of memory files, and the import that mediates each fact. */
module PendingMemory {
  import opened Wrappers

  datatype Fact = Fact(subject: string, predicate_: string, object_: string, source: string, origin: string)

  datatype Status = Pending | Approved | Rejected

  /** `fingerprint` is the key; `decided` is the owner's decision time. */
  datatype Row = Row(fact: Fact, status: Status, created: real, decided: Option<real>)

  type Rows = map<string, Row>

  /** The transition table: a decided row has no exit. */
  function Exits(s: Status): set<Status> {
    if s.Pending? then {Approved, Rejected} else {}
  }

  datatype Op =
    | Enqueue(key: string, fact: Fact, now: real)
    | Decide(key: string, to: Status, now: real)

  predicate Queues(rows: Rows, key: string) {
    key !in rows
  }

  predicate Decides(rows: Rows, key: string, to: Status) {
    key in rows && to in Exits(rows[key].status)
  }

  function After(rows: Rows, op: Op): Rows {
    match op
    case Enqueue(key, fact, now) => if Queues(rows, key) then rows[key := Row(fact, Pending, now, None)] else rows
    case Decide(key, to, now) =>
      if Decides(rows, key, to) then rows[key := rows[key].(status := to, decided := Some(now))] else rows
  }

  function Run(rows: Rows, ops: seq<Op>): Rows
    decreases |ops|
  {
    if ops == [] then rows else Run(After(rows, ops[0]), ops[1..])
  }

  datatype Verdict = Grant | Queue | Deny
  datatype Outcome = Denied | Written | Queued | AlreadyPending | Skipped | WouldQueue

  /** What one import runs with: the contract's refusals, the authorizer's verdicts, whether a
      graph writer and a pending store are bound, and the digest that names a fact. */
  datatype Import = Import(fingerprint: Fact -> string, refuses: Fact -> bool, authorize: Fact -> Verdict,
                           writer: bool, store: bool)
  {
    /** Whether the fact is for the owner: queued, or granted with nobody to write it. */
    predicate Offers(f: Fact) {
      !refuses(f) && (authorize(f).Queue? || (authorize(f).Grant? && !writer))
    }

    /** Whether it reaches the pending store. */
    predicate Proposes(f: Fact) {
      store && Offers(f)
    }
  }

  /** The store after an import of the facts. */
  function Imported(rows: Rows, i: Import, facts: seq<Fact>, now: real): Rows
    decreases |facts|
  {
    if facts == [] then rows
    else Imported(if i.Proposes(facts[0]) then After(rows, Enqueue(i.fingerprint(facts[0]), facts[0], now)) else rows,
                  i, facts[1..], now)
  }

  /** What becomes of one fact, the store being `rows` when its turn comes. */
  function Fate(rows: Rows, i: Import, f: Fact): Outcome {
    if i.Offers(f) then
      if !i.store then Skipped else if Queues(rows, i.fingerprint(f)) then Queued else AlreadyPending
    else if i.refuses(f) || !i.authorize(f).Grant? then Denied
    else Written
  }

  /** What the dry run says of it. */
  function Planned(rows: Rows, i: Import, f: Fact): Outcome {
    if i.refuses(f) then Denied else if i.store && i.fingerprint(f) in rows then AlreadyPending else WouldQueue
  }

  /** The facts that reach the graph writer, in their order. */
  function WrittenOf(i: Import, facts: seq<Fact>): seq<Fact> {
    if facts == [] then []
    else
      var f := facts[|facts| - 1];
      WrittenOf(i, facts[..|facts| - 1]) + if Fate(map[], i, f).Written? then [f] else []
  }

  lemma {:induction false} ImportedSplit(rows: Rows, i: Import, a: seq<Fact>, b: seq<Fact>, now: real)
    ensures Imported(rows, i, a + b, now) == Imported(Imported(rows, i, a, now), i, b, now)
    decreases |a|
  {
    if a == [] {
      assert a + b == b;
    } else {
      var next := if i.Proposes(a[0]) then After(rows, Enqueue(i.fingerprint(a[0]), a[0], now)) else rows;
      ImportedSplit(next, i, a[1..], b, now);
      assert (a + b)[0] == a[0] && (a + b)[1..] == a[1..] + b;
    }
  }

  /** One fact more. */
  lemma ImportedNext(rows: Rows, i: Import, facts: seq<Fact>, k: nat, now: real)
    requires k < |facts|
    ensures Imported(rows, i, facts[..k + 1], now) == Imported(Imported(rows, i, facts[..k], now), i, [facts[k]], now)
  {
    assert facts[..k + 1] == facts[..k] + [facts[k]];
    ImportedSplit(rows, i, facts[..k], [facts[k]], now);
  }

  lemma RefusedIsNotImported(rows: Rows, i: Import, f: Fact, now: real)
    requires i.refuses(f)
    ensures Imported(rows, i, [f], now) == rows
  {
    assert [f][1..] == [];
  }

  lemma WrittenNext(i: Import, facts: seq<Fact>, k: nat)
    requires k < |facts|
    ensures WrittenOf(i, facts[..k + 1])
            == WrittenOf(i, facts[..k]) + if Fate(map[], i, facts[k]).Written? then [facts[k]] else []
  {
    assert facts[..k + 1][..k] == facts[..k];
  }

  class PendingStore {
    var rows: Rows

    constructor ()
      ensures rows == map[]
    {
      rows := map[];
    }

    /** `enqueue`: INSERT OR IGNORE. */
    method EnqueueFact(key: string, fact: Fact, now: real) returns (queued: bool)
      modifies this
      ensures queued == Queues(old(rows), key) && rows == After(old(rows), Enqueue(key, fact, now))
    {
      queued := key !in rows;
      if queued {
        rows := rows[key := Row(fact, Pending, now, None)];
      }
    }

    /** `transition`. */
    method Transition(key: string, to: Status, now: real) returns (done: bool)
      modifies this
      ensures done == Decides(old(rows), key, to) && rows == After(old(rows), Decide(key, to, now))
    {
      if key !in rows || to !in Exits(rows[key].status) {
        return false;
      }
      rows := rows[key := rows[key].(status := to, decided := Some(now))];
      return true;
    }

    /** `_memory` in a dry run. */
    method PlanMemory(i: Import, facts: seq<Fact>) returns (outcomes: seq<Outcome>)
      ensures |outcomes| == |facts| && forall k :: 0 <= k < |facts| ==> outcomes[k] == Planned(rows, i, facts[k])
    {
      outcomes := [];
      for k := 0 to |facts|
        invariant |outcomes| == k && forall j :: 0 <= j < k ==> outcomes[j] == Planned(rows, i, facts[j])
      {
        var f := facts[k];
        if i.refuses(f) {
          outcomes := outcomes + [Denied];
        } else {
          var pending := i.store && i.fingerprint(f) in rows;
          outcomes := outcomes + [if pending then AlreadyPending else WouldQueue];
        }
      }
    }

    /** `_mediate`, of a fact the contract does not refuse. */
    method Mediate(i: Import, f: Fact, now: real) returns (outcome: Outcome, written: bool)
      requires !i.refuses(f)
      modifies this
      ensures rows == Imported(old(rows), i, [f], now)
      ensures outcome == Fate(old(rows), i, f) && written == outcome.Written?
    {
      written := false;
      var verdict := i.authorize(f);
      if verdict.Grant? && i.writer {
        return Written, true;
      }
      if (verdict.Grant? || verdict.Queue?) && !i.store {
        outcome := Skipped;
      } else if verdict.Grant? || verdict.Queue? {
        var queued := EnqueueFact(i.fingerprint(f), f, now);
        outcome := if queued then Queued else AlreadyPending;
      } else {
        outcome := Denied;
      }
    }

    /** `_memory` applied. */
    method Memory(i: Import, facts: seq<Fact>, now: real) returns (outcomes: seq<Outcome>, written: seq<Fact>)
      modifies this
      ensures rows == Imported(old(rows), i, facts, now)
      ensures |outcomes| == |facts|
      ensures forall k :: 0 <= k < |facts| ==> outcomes[k] == Fate(Imported(old(rows), i, facts[..k], now), i, facts[k])
      ensures written == WrittenOf(i, facts)
    {
      outcomes, written := [], [];
      ghost var before := rows;
      for k := 0 to |facts|
        invariant |outcomes| == k
        invariant rows == Imported(before, i, facts[..k], now)
        invariant forall j :: 0 <= j < k ==> outcomes[j] == Fate(Imported(before, i, facts[..j], now), i, facts[j])
        invariant written == WrittenOf(i, facts[..k])
      {
        var f := facts[k];
        ImportedNext(before, i, facts, k, now);
        WrittenNext(i, facts, k);
        var outcome := Denied;
        if i.refuses(f) {
          RefusedIsNotImported(rows, i, f, now);
        } else {
          var handed;
          outcome, handed := Mediate(i, f, now);
          if handed {
            written := written + [f];
          }
        }
        outcomes := outcomes + [outcome];
      }
      assert facts[..|facts|] == facts;
    }
  }

  // ---- reading the files -----------------------------------------------------------------

  predicate Known(fingerprint: Fact -> string, facts: seq<Fact>, f: Fact) {
    exists k :: 0 <= k < |facts| && fingerprint(facts[k]) == fingerprint(f)
  }

  /** The facts of all readable files, each fingerprint at its first place. */
  function Fresh(fingerprint: Fact -> string, seen: seq<Fact>, all: seq<Fact>): seq<Fact>
    decreases |all|
  {
    if all == [] then seen
    else Fresh(fingerprint, if Known(fingerprint, seen, all[0]) then seen else seen + [all[0]], all[1..])
  }

  /** An unreadable file is None. */
  function AllFacts(parse: string -> seq<Fact>, files: seq<Option<string>>): seq<Fact> {
    if files == [] then []
    else (if files[0].Some? then parse(files[0].value) else []) + AllFacts(parse, files[1..])
  }

  lemma {:induction false} FreshSplit(fingerprint: Fact -> string, seen: seq<Fact>, a: seq<Fact>, b: seq<Fact>)
    ensures Fresh(fingerprint, seen, a + b) == Fresh(fingerprint, Fresh(fingerprint, seen, a), b)
    decreases |a|
  {
    if a == [] {
      assert a + b == b;
    } else {
      assert (a + b)[0] == a[0] && (a + b)[1..] == a[1..] + b;
      FreshSplit(fingerprint, if Known(fingerprint, seen, a[0]) then seen else seen + [a[0]], a[1..], b);
    }
  }

  method AddFacts(fingerprint: Fact -> string, seen: seq<Fact>, parsed: seq<Fact>) returns (facts: seq<Fact>)
    ensures facts == Fresh(fingerprint, seen, parsed)
  {
    facts := seen;
    assert parsed[0..] == parsed;
    for k := 0 to |parsed|
      invariant Fresh(fingerprint, facts, parsed[k..]) == Fresh(fingerprint, seen, parsed)
    {
      assert parsed[k..][1..] == parsed[k + 1..];
      if !Known(fingerprint, facts, parsed[k]) {
        facts := facts + [parsed[k]];
      }
    }
  }

  /** `memory_facts`. */
  method MemoryFacts(fingerprint: Fact -> string, parse: string -> seq<Fact>, files: seq<Option<string>>)
    returns (facts: seq<Fact>)
    ensures facts == Fresh(fingerprint, [], AllFacts(parse, files))
  {
    facts := [];
    assert files[0..] == files;
    for i := 0 to |files|
      invariant Fresh(fingerprint, facts, AllFacts(parse, files[i..])) == Fresh(fingerprint, [], AllFacts(parse, files))
    {
      assert files[i..][1..] == files[i + 1..];
      if files[i].Some? {
        FreshSplit(fingerprint, facts, parse(files[i].value), AllFacts(parse, files[i + 1..]));
        facts := AddFacts(fingerprint, facts, parse(files[i].value));
      } else {
        assert AllFacts(parse, files[i..]) == AllFacts(parse, files[i + 1..]);
      }
    }
  }

  lemma KnownStep(fingerprint: Fact -> string, seen: seq<Fact>, all: seq<Fact>, next: seq<Fact>, f: Fact)
    requires all != [] && next == if Known(fingerprint, seen, all[0]) then seen else seen + [all[0]]
    ensures Known(fingerprint, next, f) || Known(fingerprint, all[1..], f)
            <==> Known(fingerprint, seen, f) || Known(fingerprint, all, f)
  {
    if k :| 0 <= k < |seen| && fingerprint(seen[k]) == fingerprint(f) {
      assert next[k] == seen[k];
    }
    if k :| 0 <= k < |all| && fingerprint(all[k]) == fingerprint(f) {
      if k > 0 {
        assert all[1..][k - 1] == all[k];
      } else if next != seen {
        assert next[|seen|] == all[0];
      } else {
        var j :| 0 <= j < |seen| && fingerprint(seen[j]) == fingerprint(all[0]);
      }
    }
    if k :| 0 <= k < |all[1..]| && fingerprint(all[1..][k]) == fingerprint(f) {
      assert all[k + 1] == all[1..][k];
    }
    if k :| 0 <= k < |next| && fingerprint(next[k]) == fingerprint(f) {
      if k < |seen| {
        assert seen[k] == next[k];
      } else {
        assert all[0] == next[k];
      }
    }
  }

  /** No fingerprint is read twice and none is missed. */
  lemma {:induction false} FreshIsOnePerFingerprint(fingerprint: Fact -> string, seen: seq<Fact>, all: seq<Fact>)
    requires forall i, k :: 0 <= i < k < |seen| ==> fingerprint(seen[i]) != fingerprint(seen[k])
    ensures var facts := Fresh(fingerprint, seen, all);
            && (forall i, k :: 0 <= i < k < |facts| ==> fingerprint(facts[i]) != fingerprint(facts[k]))
            && (forall f :: Known(fingerprint, facts, f) <==> Known(fingerprint, seen, f) || Known(fingerprint, all, f))
    decreases |all|
  {
    if all == [] {
    } else {
      var next := if Known(fingerprint, seen, all[0]) then seen else seen + [all[0]];
      FreshIsOnePerFingerprint(fingerprint, next, all[1..]);
      forall f
        ensures Known(fingerprint, next, f) || Known(fingerprint, all[1..], f)
                <==> Known(fingerprint, seen, f) || Known(fingerprint, all, f)
      {
        KnownStep(fingerprint, seen, all, next, f);
      }
    }
  }

  // ---- over all runs ---------------------------------------------------------------------

  /** What may become of a row: it stays, with its fact; once decided it never changes. */
  predicate Continues(old_: Row, new_: Row) {
    && new_.fact == old_.fact && new_.created == old_.created
    && (!old_.status.Pending? ==> new_ == old_)
  }

  /** Rows are never lost, their facts never change, and a decision is final, whatever is
      enqueued and decided afterwards. */
  lemma {:induction false} RowsContinue(rows: Rows, ops: seq<Op>, key: string)
    requires key in rows
    ensures key in Run(rows, ops) && Continues(rows[key], Run(rows, ops)[key])
    decreases |ops|
  {
    if ops == [] {
    } else {
      RowsContinue(After(rows, ops[0]), ops[1..], key);
    }
  }

  lemma {:induction false} ImportKeeps(rows: Rows, i: Import, facts: seq<Fact>, now: real)
    ensures rows.Keys <= Imported(rows, i, facts, now).Keys
    ensures forall f :: f in facts && i.Proposes(f) ==> i.fingerprint(f) in Imported(rows, i, facts, now)
    decreases |facts|
  {
    if facts == [] {
    } else {
      ImportKeeps(if i.Proposes(facts[0]) then After(rows, Enqueue(i.fingerprint(facts[0]), facts[0], now)) else rows,
                  i, facts[1..], now);
      assert facts == [facts[0]] + facts[1..];
    }
  }

  lemma {:induction false} ImportOfKnown(rows: Rows, i: Import, facts: seq<Fact>, now: real)
    requires forall f :: f in facts && i.Proposes(f) ==> i.fingerprint(f) in rows
    ensures Imported(rows, i, facts, now) == rows
    decreases |facts|
  {
    if facts == [] {
    } else {
      assert facts[0] in facts;
      ImportOfKnown(rows, i, facts[1..], now);
    }
  }

  /** Importing the same facts again changes nothing, whatever was enqueued, approved or
      rejected in between, and whatever the (unchanged) authorizer says of each fact. */
  lemma ReimportChangesNothing(rows: Rows, i: Import, facts: seq<Fact>, first: real, between: seq<Op>, second: real)
    ensures var later := Run(Imported(rows, i, facts, first), between);
            Imported(later, i, facts, second) == later
  {
    var once := Imported(rows, i, facts, first);
    ImportKeeps(rows, i, facts, first);
    forall f | f in facts && i.Proposes(f) ensures i.fingerprint(f) in Run(once, between) {
      RowsContinue(once, between, i.fingerprint(f));
    }
    ImportOfKnown(Run(once, between), i, facts, second);
  }

  /** An import touches no row but those of the facts it proposes. */
  lemma {:induction false} ImportTouches(rows: Rows, i: Import, facts: seq<Fact>, now: real, key: string)
    requires forall f :: f in facts && i.Proposes(f) ==> i.fingerprint(f) != key
    ensures key in Imported(rows, i, facts, now) <==> key in rows
    decreases |facts|
  {
    if facts == [] {
    } else {
      assert facts[0] in facts;
      ImportTouches(if i.Proposes(facts[0]) then After(rows, Enqueue(i.fingerprint(facts[0]), facts[0], now)) else rows,
                    i, facts[1..], now, key);
    }
  }

  /** The dry run foretells the import: of facts read once each, a fact's plan comes true
      exactly when the contract refuses the fact or the import proposes it to the owner. Under
      queue-only with a pending store, then, every plan does. */
  lemma PlanComesTrueIff(rows: Rows, i: Import, facts: seq<Fact>, now: real, k: nat)
    requires k < |facts|
    requires forall x, y :: 0 <= x < y < |facts| ==> i.fingerprint(facts[x]) != i.fingerprint(facts[y])
    ensures var planned, fate := Planned(rows, i, facts[k]), Fate(Imported(rows, i, facts[..k], now), i, facts[k]);
            (fate == if planned.WouldQueue? then Queued else planned) <==> i.refuses(facts[k]) || i.Proposes(facts[k])
  {
    forall f | f in facts[..k] ensures i.fingerprint(f) != i.fingerprint(facts[k]) {
      var x :| 0 <= x < k && facts[..k][x] == f;
    }
    ImportTouches(rows, i, facts[..k], now, i.fingerprint(facts[k]));
  }

  /** Queue-only never lets a fact past the owner: what the contract does not refuse is in the
      store, when there is one, after the import. */
  lemma QueueOnlyProposesAll(rows: Rows, i: Import, facts: seq<Fact>, now: real, f: Fact)
    requires i.store && (forall g :: i.authorize(g).Queue?) && f in facts && !i.refuses(f)
    ensures i.fingerprint(f) in Imported(rows, i, facts, now)
  {
    ImportKeeps(rows, i, facts, now);
  }
}
