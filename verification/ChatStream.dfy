/** The producer and consumer of /chat/stream as atomic steps in any order: the runner task
    feeds a queue; the generator takes from it, yields, acknowledges, and on any exit cancels
    the runner and waits for it. */
module ChatStream {
  import opened Wrappers

  /** A clarify item carries the number of the future its runner waits on: its place among
      all items put. `Failed` is the runner's "error" item, sent to the client as an end. */
  datatype Item = Token(text: string) | Progress | Clarify(id: nat) | End | Failed

  predicate Terminal(x: Item) {
    x.End? || x.Failed?
  }

  datatype Runner =
    | Setup                   // before the try whose handlers queue an end or an error
    | Turn                    // inside it
    | AwaitAck(id: nat)       // in on_clarify, on its future
    | Closing                 // the end is queued; scopes are being left
    | Ending                  // the error is queued
    | Done(announced: bool)   // over; whether it queued an end or an error

  datatype Consumer =
    | Starting             // the start event is being yielded
    | Getting              // in `await queue.get()`
    | Hand(item: Item)     // taken, about to be yielded
    | Yielded(item: Item)  // suspended at the yield of it
    | Reaping              // in the finally block, awaiting the runner
    | Closed

  /** What the generator does when it is left: cancel the runner and wait for it; only wait; or,
      as before the fix its docstring tells of, cancel after the loop, which a disconnect or an
      exception skips. */
  datatype Exit = CancelsAndWaits | OnlyWaits | CancelsAfterLoop

  /** `put` and `emitted` are the histories of the queue and of the client; `cancelled` says that
      the generator cancelled the runner. */
  datatype State = State(exit: Exit, put: seq<Item>, queue: seq<Item>, emitted: seq<Item>, acks: set<nat>,
                         runner: Runner, cancelled: bool, consumer: Consumer)

  function Init(exit: Exit): State {
    State(exit, [], [], [], {}, Setup, false, Starting)
  }

  datatype Step =
    // the runner's turn; `Raises` queues an error, `RaisesAgain` one after the end was queued
    | Begins | PutToken(text: string) | Asks | HearsAck | GivesUpAsking | PutEnd | Raises | RaisesAgain | Finishes
    // a CancelledError reaches the runner: the generator's cancellation, which may end in an
    // error raised on the way out, or one from elsewhere
    | Unwinds | UnwindsRaising | CancelledElsewhere
    // progress, from other threads too, even after the turn
    | PutProgress
    // the generator; `Disconnect` is GeneratorExit or cancellation at a point it waits at,
    // `RenderFails` an exception while it renders the item it took
    | Get | Emit | RenderFails | Resume | Disconnect | Reap

  function Put(s: State, x: Item): State {
    s.(put := s.put + [x], queue := s.queue + [x])
  }

  /** Inside the turn, and not told to stop: a cancelled task runs no further than the await it
      is at. */
  predicate InTurn(s: State) {
    s.runner.Turn? && !s.cancelled
  }

  /** Before an end or an error was queued. */
  predicate Silent(r: Runner) {
    r.Setup? || r.Turn? || r.AwaitAck?
  }

  /** Leaves the generator: after its loop, or from inside it, by an exception or a disconnect. */
  function Leave(s: State, inside: bool): State {
    match s.exit
    case CancelsAndWaits => s.(consumer := Reaping, cancelled := !s.runner.Done?)
    case OnlyWaits => s.(consumer := Reaping)
    case CancelsAfterLoop => s.(consumer := Closed, cancelled := !inside && !s.runner.Done?)
  }

  /** One atomic step; None when it is not possible in this state. */
  function Do(s: State, step: Step): Option<State> {
    match step
    case Begins => if s.runner.Setup? && !s.cancelled then Some(s.(runner := Turn)) else None
    case PutToken(text) => if InTurn(s) then Some(Put(s, Token(text))) else None
    case Asks => if InTurn(s) then Some(Put(s, Clarify(|s.put|)).(runner := AwaitAck(|s.put|))) else None
    case HearsAck =>
      if s.runner.AwaitAck? && s.runner.id in s.acks && !s.cancelled then Some(s.(runner := Turn)) else None
    case GivesUpAsking => if s.runner.AwaitAck? && !s.cancelled then Some(s.(runner := Turn)) else None
    case PutEnd => if InTurn(s) then Some(Put(s, End).(runner := Closing)) else None
    case Raises => if InTurn(s) then Some(Put(s, Failed).(runner := Ending)) else None
    case RaisesAgain => if s.runner.Closing? then Some(Put(s, Failed).(runner := Ending)) else None
    case Finishes => if s.runner.Closing? || s.runner.Ending? then Some(s.(runner := Done(true))) else None
    case Unwinds => if s.cancelled && !s.runner.Done? then Some(s.(runner := Done(!Silent(s.runner)))) else None
    case UnwindsRaising =>
      if s.cancelled && (s.runner.Turn? || s.runner.AwaitAck?) then Some(Put(s, Failed).(runner := Ending)) else None
    case CancelledElsewhere => if !s.runner.Done? then Some(s.(runner := Done(!Silent(s.runner)))) else None
    case PutProgress => Some(Put(s, Progress))
    case Get =>
      if s.consumer.Getting? && s.queue != [] then Some(s.(consumer := Hand(s.queue[0]), queue := s.queue[1..]))
      else None
    case Emit =>
      if s.consumer.Hand? then Some(s.(emitted := s.emitted + [s.consumer.item], consumer := Yielded(s.consumer.item)))
      else None
    case RenderFails => if s.consumer.Hand? then Some(Leave(s, true)) else None
    case Resume =>
      if s.consumer.Starting? then Some(s.(consumer := Getting))
      else if !s.consumer.Yielded? then None
      else if Terminal(s.consumer.item) then Some(Leave(s, false))
      else Some(s.(consumer := Getting, acks := s.acks + if s.consumer.item.Clarify? then {s.consumer.item.id} else {}))
    case Disconnect =>
      if s.consumer.Starting? || s.consumer.Getting? || s.consumer.Yielded? then Some(Leave(s, true)) else None
    case Reap => if s.consumer.Reaping? && s.runner.Done? then Some(s.(consumer := Closed)) else None
  }

  function Run(s: State, steps: seq<Step>): Option<State>
    decreases |steps|
  {
    if steps == [] then Some(s)
    else
      var t := Do(s, steps[0]);
      if t.None? then None else Run(t.value, steps[1..])
  }

  ghost predicate Reachable(s: State) {
    exists steps :: Run(Init(s.exit), steps) == Some(s)
  }

  predicate Serving(c: Consumer) {
    !c.Reaping? && !c.Closed?
  }

  function InHand(c: Consumer): seq<Item> {
    if c.Hand? then [c.item] else []
  }

  // ---- what every step keeps -------------------------------------------------------------

  /** Nothing is reordered on the way through the queue, and while the client is served nothing
      is lost. */
  predicate Fifo(s: State) {
    s.emitted <= s.put && (Serving(s.consumer) ==> s.put == s.emitted + InHand(s.consumer) + s.queue)
  }

  /** No end is passed: the consumer stops at the first one. */
  predicate EndsOnce(s: State) {
    && (s.consumer.Starting? ==> s.emitted == [])
    && (s.consumer.Yielded? ==> s.emitted != [] && s.emitted[|s.emitted| - 1] == s.consumer.item)
    && (forall i :: 0 <= i < |s.emitted| && Terminal(s.emitted[i]) ==>
          i == |s.emitted| - 1 && !s.consumer.Starting? && !s.consumer.Getting? && !s.consumer.Hand?)
  }

  /** The consumer went on after yielding item `i`. */
  predicate MovedOn(s: State, i: nat) {
    Serving(s.consumer) && !(s.consumer.Yielded? && i == |s.emitted| - 1)
  }

  /** An emitted question the consumer moved on from was acknowledged. */
  predicate Acked(s: State) {
    && (forall i :: 0 <= i < |s.put| && s.put[i].Clarify? ==> s.put[i].id == i)
    && (forall i :: 0 <= i < |s.emitted| && s.emitted[i].Clarify? && MovedOn(s, i) ==> i in s.acks)
    && (s.runner.AwaitAck? ==> s.runner.id < |s.put| && s.put[s.runner.id].Clarify?)
  }

  /** While the client is served the runner is left alone; once the generator waits for it, it is
      cancelled or over; and the generator closes only after it. */
  predicate Reaped(s: State) {
    && (Serving(s.consumer) ==> !s.cancelled)
    && (s.consumer.Reaping? && s.exit.CancelsAndWaits? ==> s.cancelled || s.runner.Done?)
    && (s.consumer.Closed? && !s.exit.CancelsAfterLoop? ==> s.runner.Done?)
  }

  predicate Announced(r: Runner) {
    !Silent(r) && r != Done(false)
  }

  /** An end or an error was queued exactly when the runner is past queueing one. */
  predicate Announces(s: State) {
    Announced(s.runner) <==> exists i :: 0 <= i < |s.put| && Terminal(s.put[i])
  }

  predicate Inv(s: State) {
    Fifo(s) && EndsOnce(s) && Acked(s) && Reaped(s) && Announces(s)
  }

  lemma Regroup<T>(a: seq<T>, b: seq<T>, c: seq<T>)
    ensures (a + b) + c == a + (b + c)
  {
  }

  predicate Puts(step: Step) {
    step.PutToken? || step.PutProgress? || step.Asks? || step.PutEnd? || step.Raises? || step.RaisesAgain?
    || step.UnwindsRaising?
  }

  lemma PutKeepsFifo(s: State, x: Item)
    requires Fifo(s)
    ensures Fifo(Put(s, x))
  {
    Regroup(s.emitted + InHand(s.consumer), s.queue, [x]);
  }

  lemma PutStepKeepsFifo(s: State, step: Step)
    requires Fifo(s) && Puts(step) && Do(s, step).Some?
    ensures Fifo(Do(s, step).value)
  {
    var x := match step
      case PutToken(text) => Token(text)
      case PutProgress => Progress
      case Asks => Clarify(|s.put|)
      case PutEnd => End
      case _ => Failed;
    PutKeepsFifo(s, x);
  }

  lemma GetKeepsFifo(s: State)
    requires Fifo(s) && s.consumer.Getting? && s.queue != []
    ensures Fifo(Do(s, Get).value)
  {
    assert s.queue == [s.queue[0]] + s.queue[1..];
    Regroup(s.emitted, [s.queue[0]], s.queue[1..]);
  }

  lemma EmitKeepsFifo(s: State)
    requires Fifo(s) && s.consumer.Hand?
    ensures Fifo(Do(s, Emit).value)
  {
  }

  lemma LeaveKeepsFifo(s: State, inside: bool)
    requires Fifo(s)
    ensures Fifo(Leave(s, inside))
  {
  }

  lemma StepKeepsFifo(s: State, step: Step)
    requires Fifo(s) && Do(s, step).Some?
    ensures Fifo(Do(s, step).value)
  {
    if Puts(step) {
      PutStepKeepsFifo(s, step);
    } else if step.Get? {
      GetKeepsFifo(s);
    } else if step.Emit? {
      EmitKeepsFifo(s);
    } else {
      LeaveKeepsFifo(s, true);
      LeaveKeepsFifo(s, false);
    }
  }

  lemma StepKeepsEndsOnce(s: State, step: Step)
    requires EndsOnce(s) && Do(s, step).Some?
    ensures EndsOnce(Do(s, step).value)
  {
  }

  lemma EmittedIsPut(s: State, i: nat)
    requires Fifo(s) && i < |s.emitted|
    ensures i < |s.put| && s.put[i] == s.emitted[i]
  {
  }

  lemma ResumeKeepsAcked(s: State)
    requires Fifo(s) && EndsOnce(s) && Acked(s) && s.consumer.Yielded?
    ensures Acked(Do(s, Resume).value)
  {
    var last := |s.emitted| - 1;
    EmittedIsPut(s, last);
  }

  lemma PutKeepsAcked(s: State, step: Step)
    requires Fifo(s) && Acked(s) && Puts(step) && Do(s, step).Some?
    ensures Acked(Do(s, step).value)
  {
  }

  lemma EmitKeepsAcked(s: State)
    requires Fifo(s) && Acked(s) && s.consumer.Hand?
    ensures Acked(Do(s, Emit).value)
  {
  }

  lemma LeaveKeepsAcked(s: State, inside: bool)
    requires Acked(s)
    ensures Acked(Leave(s, inside))
  {
  }

  lemma StepKeepsAcked(s: State, step: Step)
    requires Fifo(s) && EndsOnce(s) && Acked(s) && Do(s, step).Some?
    ensures Acked(Do(s, step).value)
  {
    if Puts(step) {
      PutKeepsAcked(s, step);
    } else if step.Resume? && s.consumer.Yielded? {
      ResumeKeepsAcked(s);
    } else if step.Emit? {
      EmitKeepsAcked(s);
    } else {
      LeaveKeepsAcked(s, true);
    }
  }

  lemma StepKeepsReaped(s: State, step: Step)
    requires Reaped(s) && Do(s, step).Some?
    ensures Reaped(Do(s, step).value)
  {
  }

  lemma PutAnnounces(put: seq<Item>, x: Item)
    ensures (exists i :: 0 <= i < |put + [x]| && Terminal((put + [x])[i])) <==>
            Terminal(x) || exists i :: 0 <= i < |put| && Terminal(put[i])
  {
    var after := put + [x];
    assert after[|put|] == x;
    if i :| 0 <= i < |put| && Terminal(put[i]) {
      assert after[i] == put[i];
    }
  }

  /** What a step puts, if anything. */
  function PutBy(s: State, step: Step): seq<Item> {
    match step
    case PutToken(text) => [Token(text)]
    case Asks => [Clarify(|s.put|)]
    case PutEnd => [End]
    case Raises => [Failed]
    case RaisesAgain => [Failed]
    case UnwindsRaising => [Failed]
    case PutProgress => [Progress]
    case _ => []
  }

  /** Only queueing an end or an error makes the runner one that did. */
  lemma StepAnnounces(s: State, step: Step)
    requires Do(s, step).Some?
    ensures var t := Do(s, step).value;
            && t.put == s.put + PutBy(s, step)
            && (Announced(t.runner) <==> Announced(s.runner) || (PutBy(s, step) != [] && Terminal(PutBy(s, step)[0])))
  {
  }

  lemma StepKeepsAnnounces(s: State, step: Step)
    requires Announces(s) && Do(s, step).Some?
    ensures Announces(Do(s, step).value)
  {
    var t := Do(s, step).value;
    StepAnnounces(s, step);
    if PutBy(s, step) == [] {
      assert t.put == s.put;
    } else {
      PutAnnounces(s.put, PutBy(s, step)[0]);
    }
  }

  lemma StepKeepsInv(s: State, step: Step)
    requires Inv(s) && Do(s, step).Some?
    ensures Inv(Do(s, step).value) && Do(s, step).value.exit == s.exit
  {
    StepKeepsFifo(s, step);
    StepKeepsEndsOnce(s, step);
    StepKeepsAcked(s, step);
    StepKeepsReaped(s, step);
    StepKeepsAnnounces(s, step);
  }

  lemma {:induction false} RunKeepsInv(s: State, steps: seq<Step>)
    requires Inv(s) && Run(s, steps).Some?
    ensures Inv(Run(s, steps).value) && Run(s, steps).value.exit == s.exit
    decreases |steps|
  {
    if steps == [] {
    } else {
      StepKeepsInv(s, steps[0]);
      RunKeepsInv(Do(s, steps[0]).value, steps[1..]);
    }
  }

  lemma ReachableKeepsInv(s: State)
    requires Reachable(s)
    ensures Inv(s)
  {
    var steps :| Run(Init(s.exit), steps) == Some(s);
    RunKeepsInv(Init(s.exit), steps);
  }

  // ---- runs put together ------------------------------------------------------------------

  lemma {:induction false} StepRuns(s: State, steps: seq<Step>, step: Step)
    requires Run(s, steps).Some?
    ensures Run(s, steps + [step]) == Do(Run(s, steps).value, step)
    decreases |steps|
  {
    if steps == [] {
      assert (steps + [step])[1..] == [];
    } else {
      StepRuns(Do(s, steps[0]).value, steps[1..], step);
      assert (steps + [step])[1..] == steps[1..] + [step];
    }
  }

  lemma Then(s: State, steps: seq<Step>, t: State, step: Step) returns (longer: seq<Step>, u: State)
    requires Run(s, steps) == Some(t) && Do(t, step).Some?
    ensures longer == steps + [step] && Do(t, step) == Some(u) && Run(s, longer) == Some(u)
  {
    StepRuns(s, steps, step);
    longer, u := steps + [step], Do(t, step).value;
  }

  lemma {:induction false} RunsJoin(s: State, a: seq<Step>, b: seq<Step>)
    requires Run(s, a).Some?
    ensures Run(s, a + b) == Run(Run(s, a).value, b)
    decreases |a|
  {
    if a == [] {
      assert a + b == b;
    } else {
      RunsJoin(Do(s, a[0]).value, a[1..], b);
      assert (a + b)[0] == a[0] && (a + b)[1..] == a[1..] + b;
    }
  }

  lemma ReachesOn(s: State, steps: seq<Step>)
    requires Reachable(s) && Run(s, steps).Some?
    ensures Reachable(Run(s, steps).value)
  {
    var before :| Run(Init(s.exit), before) == Some(s);
    RunsJoin(Init(s.exit), before, steps);
    RunKeepsInv(Init(s.exit), before + steps);
  }

  // ---- the theorems ----------------------------------------------------------------------

  function Tokens(items: seq<Item>): seq<string> {
    if items == [] then [] else (if items[0].Token? then [items[0].text] else []) + Tokens(items[1..])
  }

  lemma TokensHead(x: Item, s: seq<Item>)
    ensures Tokens([x] + s) == (if x.Token? then [x.text] else []) + Tokens(s)
  {
    assert ([x] + s)[1..] == s;
  }

  lemma {:induction false} TokensSplit(a: seq<Item>, b: seq<Item>)
    ensures Tokens(a + b) == Tokens(a) + Tokens(b)
  {
    if a == [] {
      assert a + b == b;
    } else {
      var x, rest := a[0], a[1..];
      assert a == [x] + rest;
      TokensSplit(rest, b);
      Regroup([x], rest, b);
      TokensHead(x, rest);
      TokensHead(x, rest + b);
      Regroup(if x.Token? then [x.text] else [], Tokens(rest), Tokens(b));
    }
  }

  /** The client sees the tokens in the order they were produced, none skipped or repeated. */
  lemma TokensInOrder(s: State)
    requires Reachable(s)
    ensures s.emitted <= s.put && Tokens(s.emitted) <= Tokens(s.put)
  {
    ReachableKeepsInv(s);
    var rest := s.put[|s.emitted|..];
    assert s.put == s.emitted + rest;
    TokensSplit(s.emitted, rest);
  }

  /** An end event is the last one, the only one, and comes after everything queued before it. */
  lemma EndIsLast(s: State, i: nat)
    requires Reachable(s) && i < |s.emitted| && Terminal(s.emitted[i])
    ensures i == |s.emitted| - 1
    ensures i < |s.put| && s.emitted == s.put[..i + 1] && forall k :: 0 <= k < i ==> !Terminal(s.put[k])
    ensures forall step: Step :: Do(s, step).Some? ==> Do(s, step).value.emitted == s.emitted
  {
    ReachableKeepsInv(s);
    forall k | 0 <= k < i ensures !Terminal(s.put[k]) {
      EmittedIsPut(s, k);
    }
    assert s.emitted == s.put[..i + 1];
  }

  /** While the client is served, a runner that waits for an acknowledgement not yet given has
      its question still queued, in the consumer's hand, or at the yield that will give it. */
  lemma QuestionIsOnItsWay(s: State)
    requires Reachable(s) && s.runner.AwaitAck? && s.runner.id !in s.acks && Serving(s.consumer)
    ensures var question := Clarify(s.runner.id);
            question in s.queue || s.consumer == Hand(question) || s.consumer == Yielded(question)
  {
    ReachableKeepsInv(s);
    var id, question := s.runner.id, Clarify(s.runner.id);
    assert s.put[id] == question;
    if id < |s.emitted| {
      EmittedIsPut(s, id);
    } else {
      var at := id - |s.emitted| - |InHand(s.consumer)|;
      if at >= 0 {
        assert s.queue[at] == question;
      }
    }
  }

  // ---- the turn is not left running -------------------------------------------------------

  /** How many steps are left, progress from elsewhere not counted, once the generator was left. */
  function Remaining(s: State): nat {
    (if Silent(s.runner) then 3 else if s.runner.Closing? then 2 else if s.runner.Ending? then 1 else 0)
    + if s.consumer.Reaping? then 1 else 0
  }

  lemma StepLowers(s: State, step: Step)
    requires Reaped(s) && s.exit.CancelsAndWaits? && !Serving(s.consumer) && Do(s, step).Some?
    ensures var t := Do(s, step).value;
            && !Serving(t.consumer)
            && if step.PutProgress? then Remaining(t) == Remaining(s) else Remaining(t) < Remaining(s)
  {
  }

  lemma SomethingLeft(s: State)
    requires Reaped(s) && s.exit.CancelsAndWaits? && s.consumer.Reaping?
    ensures exists step: Step :: !step.PutProgress? && Do(s, step).Some?
  {
    if s.runner.Done? {
      assert Do(s, Reap).Some?;
    } else {
      assert Do(s, Unwinds).Some?;
    }
  }

  /** The steps of a run that are not progress from elsewhere. */
  function Own(steps: seq<Step>): nat {
    if steps == [] then 0 else (if steps[0].PutProgress? then 0 else 1) + Own(steps[1..])
  }

  lemma {:induction false} LeftRunsShort(s: State, steps: seq<Step>)
    requires Inv(s) && s.exit.CancelsAndWaits? && !Serving(s.consumer) && Run(s, steps).Some?
    ensures var t := Run(s, steps).value;
            Inv(t) && t.exit == s.exit && !Serving(t.consumer) && Own(steps) + Remaining(t) <= Remaining(s)
    decreases |steps|
  {
    if steps == [] {
    } else {
      StepLowers(s, steps[0]);
      StepKeepsInv(s, steps[0]);
      LeftRunsShort(Do(s, steps[0]).value, steps[1..]);
    }
  }

  /** However the generator is left (after an end, by a client that goes away at any point, or by
      an exception while an item is rendered), at most four steps remain, whatever they are; and
      where none remains the generator is closed and the runner is over: the turn is not left
      running. */
  lemma LeavingEndsTheTurn(s: State, steps: seq<Step>)
    requires Reachable(s) && s.exit.CancelsAndWaits? && !Serving(s.consumer) && Run(s, steps).Some?
    ensures var t := Run(s, steps).value;
            && Own(steps) <= 4 && !Serving(t.consumer)
            && ((forall step :: Do(t, step).Some? ==> step.PutProgress?) ==> t.consumer.Closed? && t.runner.Done?)
  {
    ReachableKeepsInv(s);
    LeftRunsShort(s, steps);
    var t := Run(s, steps).value;
    if t.consumer.Reaping? {
      SomethingLeft(t);
    }
  }

  /** When the generator is closed, the runner has ended, and nothing but progress happens after. */
  lemma ClosedMeansEnded(s: State)
    requires Reachable(s) && s.exit.CancelsAndWaits? && s.consumer.Closed?
    ensures s.runner.Done? && forall step :: Do(s, step).Some? ==> step.PutProgress?
  {
    ReachableKeepsInv(s);
  }

  /** Every run from a left generator is over after `n` steps. */
  ghost predicate OverWithin(s: State, n: nat) {
    forall steps :: Run(s, steps).Some? ==> Own(steps) <= n
  }

  ghost predicate AllOverWithin(exit: Exit, n: nat) {
    forall s :: Reachable(s) && s.exit == exit && !Serving(s.consumer) ==> OverWithin(s, n)
  }

  /** With this exit a generator that was left leaves no turn running. */
  ghost predicate LeavesNothingRunning(exit: Exit) {
    exists n :: AllOverWithin(exit, n)
  }

  function MoreTokens(n: nat): seq<Step> {
    if n == 0 then [] else [PutToken("more")] + MoreTokens(n - 1)
  }

  lemma {:induction false} TurnGoesOn(s: State, n: nat)
    requires InTurn(s)
    ensures Run(s, MoreTokens(n)).Some? && Own(MoreTokens(n)) == n
    decreases n
  {
    if n == 0 {
    } else {
      TurnGoesOn(Put(s, Token("more")), n - 1);
      assert MoreTokens(n)[1..] == MoreTokens(n - 1);
    }
  }

  /** A client that leaves in the middle of a turn. */
  lemma LeftInTurn(exit: Exit) returns (s: State)
    requires !exit.CancelsAndWaits?
    ensures Reachable(s) && s.exit == exit && !Serving(s.consumer) && InTurn(s)
  {
    var steps;
    steps, s := Then(Init(exit), [], Init(exit), Begins);
    steps, s := Then(Init(exit), steps, s, Disconnect);
  }

  /** Of the three ways to leave only cancelling and waiting ends the turn: without the
      cancellation, or with one that a disconnect skips, a turn goes on for as long as it likes. */
  lemma OnlyCancellingEndsTheTurn(exit: Exit)
    ensures LeavesNothingRunning(exit) <==> exit.CancelsAndWaits?
  {
    if exit.CancelsAndWaits? {
      forall s | Reachable(s) && s.exit == exit && !Serving(s.consumer) ensures OverWithin(s, 4) {
        forall steps | Run(s, steps).Some? ensures Own(steps) <= 4 {
          LeavingEndsTheTurn(s, steps);
        }
      }
      assert AllOverWithin(exit, 4);
    } else {
      var s := LeftInTurn(exit);
      forall n: nat ensures !AllOverWithin(exit, n) {
        TurnGoesOn(s, n + 1);
        assert !OverWithin(s, n);
      }
    }
  }

  // ---- does the stream end ----------------------------------------------------------------

  /** The generator waits on an empty queue that only stray progress could still fill. */
  predicate Hangs(s: State) {
    s.consumer.Getting? && s.queue == [] && s.runner.Done?
  }

  /** It hangs only behind a runner that ended without queueing an end or an error. */
  lemma HangMeansNoEnd(s: State)
    requires Reachable(s) && Hangs(s)
    ensures s.runner == Done(false) && forall i :: 0 <= i < |s.put| ==> !Terminal(s.put[i])
  {
    ReachableKeepsInv(s);
    assert s.put == s.emitted;
  }

  predicate OfGenerator(step: Step) {
    step.Get? || step.Emit? || step.Resume?
  }

  /** Left to itself, the generator comes to hang. */
  ghost predicate ComesToHang(s: State) {
    exists steps ::
      (forall step :: step in steps ==> OfGenerator(step)) && Run(s, steps).Some? && Hangs(Run(s, steps).value)
  }

  lemma PrependRound(s: State, taken: State, shown: State, next: State, rest: seq<Step>) returns (steps: seq<Step>)
    requires Do(s, Get) == Some(taken) && Do(taken, Emit) == Some(shown) && Do(shown, Resume) == Some(next)
    ensures steps == [Get, Emit, Resume] + rest && Run(s, steps) == Run(next, rest)
  {
    steps := [Get, Emit, Resume] + rest;
    assert steps[1..] == [Emit, Resume] + rest;
    assert ([Emit, Resume] + rest)[1..] == [Resume] + rest;
    assert ([Resume] + rest)[1..] == rest;
    assert Run(shown, [Resume] + rest) == Run(next, rest);
    assert Run(taken, [Emit, Resume] + rest) == Run(shown, [Resume] + rest);
  }

  lemma {:induction false} EmptiesAndHangs(s: State) returns (steps: seq<Step>)
    requires s.consumer.Getting? && s.runner.Done? && forall i :: 0 <= i < |s.queue| ==> !Terminal(s.queue[i])
    ensures (forall step :: step in steps ==> OfGenerator(step)) && Run(s, steps).Some? && Hangs(Run(s, steps).value)
    decreases |s.queue|
  {
    if s.queue == [] {
      steps := [];
    } else {
      var taken := Do(s, Get).value;
      var shown := Do(taken, Emit).value;
      var next := Do(shown, Resume).value;
      var rest := EmptiesAndHangs(next);
      steps := PrependRound(s, taken, shown, next, rest);
    }
  }

  lemma PrependStep(s: State, step: Step, rest: seq<Step>)
    requires Do(s, step).Some? && OfGenerator(step) && forall x :: x in rest ==> OfGenerator(x)
    requires Run(Do(s, step).value, rest).Some? && Hangs(Run(Do(s, step).value, rest).value)
    ensures ComesToHang(s)
  {
    var steps := [step] + rest;
    assert steps[1..] == rest;
    assert Run(s, steps) == Run(Do(s, step).value, rest);
  }

  lemma NothingTerminal(s: State)
    requires Inv(s) && Serving(s.consumer) && s.runner == Done(false)
    ensures forall i :: 0 <= i < |s.queue| ==> !Terminal(s.queue[i])
    ensures s.consumer.Hand? || s.consumer.Yielded? ==> !Terminal(s.consumer.item)
  {
    forall i | 0 <= i < |s.queue| ensures !Terminal(s.queue[i]) {
      assert s.put[|s.emitted| + |InHand(s.consumer)| + i] == s.queue[i];
    }
    if s.consumer.Hand? {
      assert s.put[|s.emitted|] == s.consumer.item;
    } else if s.consumer.Yielded? {
      EmittedIsPut(s, |s.emitted| - 1);
    }
  }

  lemma SilentEndHangs(s: State)
    requires Inv(s) && Serving(s.consumer) && s.runner == Done(false)
    ensures ComesToHang(s)
  {
    NothingTerminal(s);
    if s.consumer.Getting? {
      var steps := EmptiesAndHangs(s);
    } else if s.consumer.Hand? {
      var shown := Do(s, Emit).value;
      var next := Do(shown, Resume).value;
      var steps := EmptiesAndHangs(next);
      assert ([Resume] + steps)[1..] == steps;
      assert Run(shown, [Resume] + steps) == Run(next, steps);
      PrependStep(s, Emit, [Resume] + steps);
    } else {
      var next := Do(s, Resume).value;
      var steps := EmptiesAndHangs(next);
      PrependStep(s, Resume, steps);
    }
  }

  lemma {:induction false} GeneratorKeepsRunner(s: State, steps: seq<Step>)
    requires Run(s, steps).Some? && forall step :: step in steps ==> OfGenerator(step)
    ensures Run(s, steps).value.runner == s.runner
    decreases |steps|
  {
    if steps == [] {
    } else {
      assert steps[0] in steps;
      forall step | step in steps[1..] ensures OfGenerator(step) {
        assert step in steps;
      }
      GeneratorKeepsRunner(Do(s, steps[0]).value, steps[1..]);
    }
  }

  /** A stream whose runner is over comes to hang, its client still there, exactly when the runner
      ended without queueing an end or an error. */
  lemma HangsIff(s: State)
    requires Reachable(s) && Serving(s.consumer) && s.runner.Done?
    ensures ComesToHang(s) <==> !s.runner.announced
  {
    ReachableKeepsInv(s);
    if s.runner == Done(false) {
      SilentEndHangs(s);
    }
    if ComesToHang(s) {
      var steps :| (forall step :: step in steps ==> OfGenerator(step)) && Run(s, steps).Some?
                   && Hangs(Run(s, steps).value);
      ReachesOn(s, steps);
      HangMeansNoEnd(Run(s, steps).value);
      GeneratorKeepsRunner(s, steps);
    }
  }

  lemma {:induction false} ServedBefore(s: State, steps: seq<Step>)
    requires Run(s, steps).Some? && Serving(Run(s, steps).value.consumer)
    ensures Serving(s.consumer)
    decreases |steps|
  {
    if steps == [] {
    } else {
      ServedBefore(Do(s, steps[0]).value, steps[1..]);
    }
  }

  lemma {:induction false} SilentEndHasCause(s: State, steps: seq<Step>)
    requires Inv(s) && s.runner != Done(false) && Run(s, steps).Some?
    requires Serving(Run(s, steps).value.consumer) && Run(s, steps).value.runner == Done(false)
    ensures exists i :: 0 <= i < |steps| && steps[i].CancelledElsewhere?
                        && Run(s, steps[..i]).Some? && Silent(Run(s, steps[..i]).value.runner)
    decreases |steps|
  {
    ServedBefore(s, steps);
    var next := Do(s, steps[0]).value;
    if next.runner == Done(false) {
      assert steps[..0] == [];
      assert Run(s, steps[..0]) == Some(s);
      assert steps[0].CancelledElsewhere? && Silent(s.runner);
    } else {
      StepKeepsInv(s, steps[0]);
      SilentEndHasCause(next, steps[1..]);
      var i :| 0 <= i < |steps[1..]| && steps[1..][i].CancelledElsewhere?
               && Run(next, steps[1..][..i]).Some? && Silent(Run(next, steps[1..][..i]).value.runner);
      assert steps[..i + 1][0] == steps[0] && steps[..i + 1][1..] == steps[1..][..i];
      assert Run(s, steps[..i + 1]) == Run(next, steps[1..][..i]);
      assert steps[i + 1] == steps[1..][i];
    }
  }

  /** And that has one cause: a CancelledError from elsewhere, which the handler passes on, before
      the turn queued an end or an error. No failure of the turn does it. */
  lemma HangHasOneCause(exit: Exit, steps: seq<Step>)
    requires Run(Init(exit), steps).Some?
    requires Serving(Run(Init(exit), steps).value.consumer) && Run(Init(exit), steps).value.runner == Done(false)
    ensures exists i :: 0 <= i < |steps| && steps[i].CancelledElsewhere?
                        && Run(Init(exit), steps[..i]).Some? && Silent(Run(Init(exit), steps[..i]).value.runner)
  {
    SilentEndHasCause(Init(exit), steps);
  }

  /** The client is given a turn's first token. */
  lemma FirstToken(start: State, text: string) returns (steps: seq<Step>, s: State)
    requires start == Init(CancelsAndWaits)
    ensures Run(start, steps) == Some(s) && s.emitted == [Token(text)] && s.queue == []
    ensures s.runner == Turn && s.consumer == Getting && s.exit == start.exit
  {
    steps, s := Then(start, [], start, Resume);
    steps, s := Then(start, steps, s, Begins);
    steps, s := Then(start, steps, s, PutToken(text));
    steps, s := Then(start, steps, s, Get);
    steps, s := Then(start, steps, s, Emit);
    steps, s := Then(start, steps, s, Resume);
  }

  /** Such a run: the turn puts a token and is cancelled from elsewhere; the client waits. */
  lemma CancelledTurnHangs() returns (s: State)
    ensures Reachable(s) && s.exit.CancelsAndWaits? && Hangs(s) && s.emitted == [Token("hello")]
  {
    var start := Init(CancelsAndWaits);
    var steps;
    steps, s := FirstToken(start, "hello");
    steps, s := Then(start, steps, s, CancelledElsewhere);
  }

  lemma DeliveredRound(emitted: seq<Item>, queue: seq<Item>, k: nat)
    requires 0 < k < |queue|
    ensures (emitted + [queue[0]]) + queue[1..][..k] == emitted + queue[..k + 1]
  {
  }

  /** Once an end is queued the generator delivers it by its own steps, whatever the runner
      does: it takes and yields what is before it, then the end itself. */
  lemma {:induction false} EndIsDelivered(s: State, k: nat) returns (steps: seq<Step>, t: State)
    requires s.consumer.Getting? && k < |s.queue| && Terminal(s.queue[k])
    requires forall i :: 0 <= i < k ==> !Terminal(s.queue[i])
    ensures forall step :: step in steps ==> OfGenerator(step)
    ensures Run(s, steps) == Some(t)
    ensures t.emitted == s.emitted + s.queue[..k + 1] && t.consumer == Yielded(s.queue[k])
    decreases k
  {
    var taken := Do(s, Get).value;
    var shown := Do(taken, Emit).value;
    if k == 0 {
      steps, t := [Get, Emit], shown;
      assert steps[1..] == [Emit] && [Emit][1..] == [];
      assert Run(taken, [Emit]) == Run(shown, []);
      assert s.queue[..1] == [s.queue[0]];
    } else {
      var next := Do(shown, Resume).value;
      steps, t := EndIsDelivered(next, k - 1);
      steps := PrependRound(s, taken, shown, next, steps);
      DeliveredRound(s.emitted, s.queue, k);
    }
  }
}
