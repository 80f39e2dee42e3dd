/** The hand-over of the data root between the runtime coordinator and a staged restore, as
    atomic steps of the two processes in any order, kills included. The coordinator marks the
    root and then looks for a restore; the restore journals and then looks for a mark. */
module HandOver {
  import opened Wrappers

  /** Where a coordinator process is. `Built` is every point from `built = True` on: it may
      hold stores open, and nothing but its death closes them all. */
  datatype CoordPc =
    | Top         // about to mark (or, in the other order, to look)
    | Truncated   // the mark file is open for writing, still empty
    | Marked      // the mark holds this pid; about to look
    | Checked     // looked before marking (the other order only)
    | Passed      // marked and looked: no restore wants the root
    | Yielding    // looked: a restore wants the root
    | Waiting     // mark dropped, no store open, polling
    | Built
    | Leaving     // stopped without having built: the mark is dropped

  datatype Coord = NoCoord | Coord(pid: nat, pc: CoordPc)

  /** Where the process that applies a restore is, from the moment it holds the apply lock. */
  datatype RestorePc =
    | Locked      // leftovers of an earlier attempt may still be there
    | Looked      // saw no live mark before journaling (the other order only)
    | Journaled   // the journal holds this pid; about to look for a live mark
    | Free        // no live coordinator holds the mark
    | Claimed     // the stage is claimed, the rollback snapshot is being taken
    | Restoring   // the root is being overwritten

  datatype Restorer = NoRestorer | Restorer(pid: nat, pc: RestorePc)

  datatype State = State(nextPid: nat, coord: Coord, restorer: Restorer, mark: Option<nat>, journal: Option<nat>)

  /** The three rules of the protocol, to show what each is for. */
  datatype Design = Design(marksFirst: bool, keepsMark: bool, journalsFirst: bool)

  const SOURCE := Design(true, true, true)

  function Init(): State {
    State(0, NoCoord, NoRestorer, None, None)
  }

  /** `runtime_running_elsewhere`: the marked process is alive. */
  predicate MarkLive(s: State) {
    s.coord.Coord? && s.mark == Some(s.coord.pid)
  }

  /** `restore_in_progress`: the process that journaled is alive. */
  predicate JournalLive(s: State) {
    s.restorer.Restorer? && s.journal == Some(s.restorer.pid)
  }

  datatype Step =
    // the coordinator; its looks may also see a stage within its grace period, hence `wanted`
    | Spawn | Truncate | WriteMark | Check(wanted: bool) | Drop | ExitHolding | Poll(wanted: bool)
    | Build | ExitBuilt | ClearBuilt | Stop | KillCoord
    // the restore
    | Start | Journal | Look | Defer | Claim | Apply | Finish | KillRestorer

  predicate CoordAt(s: State, pc: CoordPc) {
    s.coord.Coord? && s.coord.pc == pc
  }

  predicate RestorerAt(s: State, pc: RestorePc) {
    s.restorer.Restorer? && s.restorer.pc == pc
  }

  function Goes(s: State, pc: CoordPc): State
    requires s.coord.Coord?
  {
    s.(coord := s.coord.(pc := pc))
  }

  function Turns(s: State, pc: RestorePc): State
    requires s.restorer.Restorer?
  {
    s.(restorer := s.restorer.(pc := pc))
  }

  /** `clear_runtime_mark`: only a mark that holds this process's own pid. */
  function Unmarked(s: State): State
    requires s.coord.Coord?
  {
    if s.mark == Some(s.coord.pid) then s.(mark := None) else s
  }

  /** One atomic step; None when the step is not possible in this state. */
  function Do(d: Design, s: State, step: Step): Option<State> {
    match step
    case Spawn =>
      if s.coord.NoCoord? then Some(s.(coord := Coord(s.nextPid, Top), nextPid := s.nextPid + 1)) else None
    case Truncate =>
      if CoordAt(s, if d.marksFirst then Top else Checked) then Some(Goes(s, Truncated).(mark := None)) else None
    case WriteMark =>
      if CoordAt(s, Truncated)
      then Some(Goes(s, if d.marksFirst then Marked else Passed).(mark := Some(s.coord.pid))) else None
    case Check(wanted) =>
      if CoordAt(s, if d.marksFirst then Marked else Top) && (JournalLive(s) ==> wanted)
      then Some(Goes(s, if wanted then Yielding else if d.marksFirst then Passed else Checked)) else None
    case Drop =>
      if CoordAt(s, Yielding) then Some(Goes(Unmarked(s), Waiting)) else None
    case ExitHolding =>
      if CoordAt(s, Yielding) then Some(s.(coord := NoCoord)) else None
    case Poll(wanted) =>
      if CoordAt(s, Waiting) && (JournalLive(s) ==> wanted) then Some(if wanted then s else Goes(s, Top)) else None
    case Build =>
      if CoordAt(s, Passed) then Some(Goes(s, Built)) else None
    case ExitBuilt =>
      if CoordAt(s, Built) then Some(s.(coord := NoCoord)) else None
    case ClearBuilt =>
      if CoordAt(s, Built) && !d.keepsMark then Some(Unmarked(s)) else None
    case Stop =>
      if s.coord.Coord? && s.coord.pc != Built && s.coord.pc != Leaving then Some(Goes(Unmarked(s), Leaving)) else None
    case KillCoord =>
      if s.coord.Coord? then Some(s.(coord := NoCoord)) else None
    case Start =>
      if s.restorer.NoRestorer?
      then Some(s.(restorer := Restorer(s.nextPid, Locked), nextPid := s.nextPid + 1, journal := None))
      else None
    case Journal =>
      if RestorerAt(s, if d.journalsFirst then Locked else Looked)
      then Some(Turns(s, if d.journalsFirst then Journaled else Free).(journal := Some(s.restorer.pid))) else None
    case Look =>
      if RestorerAt(s, if d.journalsFirst then Journaled else Locked) && !MarkLive(s)
      then Some(Turns(s, if d.journalsFirst then Free else Looked)) else None
    case Defer =>
      if s.restorer.Restorer? && s.restorer.pc != Restoring
      then Some(s.(restorer := NoRestorer, journal := None)) else None
    case Claim =>
      if RestorerAt(s, Free) then Some(Turns(s, Claimed).(journal := Some(s.restorer.pid))) else None
    case Apply =>
      if RestorerAt(s, Claimed) then Some(Turns(s, Restoring).(journal := Some(s.restorer.pid))) else None
    case Finish =>
      if RestorerAt(s, Restoring) then Some(s.(restorer := NoRestorer, journal := None)) else None
    case KillRestorer =>
      if s.restorer.Restorer? then Some(s.(restorer := NoRestorer)) else None
  }

  /** The state after the steps, when each is possible in turn. */
  function Run(d: Design, s: State, steps: seq<Step>): Option<State>
    decreases |steps|
  {
    if steps == [] then Some(s)
    else
      var t := Do(d, s, steps[0]);
      if t.None? then None else Run(d, t.value, steps[1..])
  }

  /** A restore overwrites the root while a live coordinator may hold stores open. */
  predicate Clash(s: State) {
    RestorerAt(s, Restoring) && CoordAt(s, Built)
  }

  ghost predicate Safe(d: Design) {
    forall steps :: Run(d, Init(), steps).Some? ==> !Clash(Run(d, Init(), steps).value)
  }

  // ---- the source's design is safe -------------------------------------------------------

  predicate PidsAreOld(s: State) {
    && (s.coord.Coord? ==> s.coord.pid < s.nextPid)
    && (s.restorer.Restorer? ==> s.restorer.pid < s.nextPid)
    && (s.mark.Some? ==> s.mark.value < s.nextPid)
    && (s.journal.Some? ==> s.journal.value < s.nextPid)
  }

  /** A live coordinator's mark stands exactly while it may need it; past journaling a live restorer's
      journal is; and once the restore saw no live mark, no coordinator gets past its look. */
  predicate Inv(s: State) {
    && PidsAreOld(s)
    && !CoordAt(s, Checked) && !RestorerAt(s, Looked)
    && (s.coord.Coord? && s.coord.pc in {Marked, Passed, Built} ==> MarkLive(s))
    && (s.coord.Coord? && s.coord.pc in {Top, Truncated, Waiting, Leaving} ==> !MarkLive(s))
    && (s.restorer.Restorer? && s.restorer.pc != Locked ==> JournalLive(s))
    && (s.restorer.Restorer? && s.restorer.pc in {Free, Claimed, Restoring} ==>
          !CoordAt(s, Passed) && !CoordAt(s, Built))
  }

  predicate OfCoordinator(step: Step) {
    step.Spawn? || step.Truncate? || step.WriteMark? || step.Check? || step.Drop? || step.ExitHolding? || step.Poll?
    || step.Build? || step.ExitBuilt? || step.ClearBuilt? || step.Stop? || step.KillCoord?
  }

  lemma CoordinatorKeepsInv(s: State, step: Step)
    requires Inv(s) && OfCoordinator(step) && Do(SOURCE, s, step).Some?
    ensures Inv(Do(SOURCE, s, step).value)
  {
  }

  lemma RestorerKeepsInv(s: State, step: Step)
    requires Inv(s) && !OfCoordinator(step) && Do(SOURCE, s, step).Some?
    ensures Inv(Do(SOURCE, s, step).value)
  {
  }

  lemma StepKeepsInv(s: State, step: Step)
    requires Inv(s) && Do(SOURCE, s, step).Some?
    ensures Inv(Do(SOURCE, s, step).value)
  {
    if OfCoordinator(step) {
      CoordinatorKeepsInv(s, step);
    } else {
      RestorerKeepsInv(s, step);
    }
  }

  lemma {:induction false} RunKeepsInv(s: State, steps: seq<Step>)
    requires Inv(s) && Run(SOURCE, s, steps).Some?
    ensures Inv(Run(SOURCE, s, steps).value)
    decreases |steps|
  {
    if steps == [] {
    } else {
      StepKeepsInv(s, steps[0]);
      RunKeepsInv(Do(SOURCE, s, steps[0]).value, steps[1..]);
    }
  }

  /** In no interleaving, kills and respawns included, does a restore overwrite the root, or
      even claim the stage, under a live coordinator that began building its stores. */
  lemma RestoreExcludesCoordinator(steps: seq<Step>)
    requires Run(SOURCE, Init(), steps).Some?
    ensures var s := Run(SOURCE, Init(), steps).value;
            s.restorer.Restorer? && s.restorer.pc in {Free, Claimed, Restoring} ==> !CoordAt(s, Built)
  {
    RunKeepsInv(Init(), steps);
  }

  // ---- each rule is needed ---------------------------------------------------------------

  lemma {:induction false} RunLonger(d: Design, s: State, steps: seq<Step>, step: Step)
    requires Run(d, s, steps).Some?
    ensures Run(d, s, steps + [step]) == Do(d, Run(d, s, steps).value, step)
    decreases |steps|
  {
    if steps == [] {
      assert (steps + [step])[1..] == [];
    } else {
      RunLonger(d, Do(d, s, steps[0]).value, steps[1..], step);
      assert (steps + [step])[1..] == steps[1..] + [step];
    }
  }

  lemma Then(d: Design, from: State, steps: seq<Step>, s: State, step: Step) returns (longer: seq<Step>, t: State)
    requires Run(d, from, steps) == Some(s) && Do(d, s, step).Some?
    ensures longer == steps + [step] && Do(d, s, step) == Some(t) && Run(d, from, longer) == Some(t)
  {
    RunLonger(d, from, steps, step);
    longer, t := steps + [step], Do(d, s, step).value;
  }

  lemma ClaimAndApply(d: Design, from: State, before: seq<Step>, s: State) returns (steps: seq<Step>, t: State)
    requires Run(d, from, before) == Some(s) && RestorerAt(s, Free)
    ensures steps == before + [Claim] + [Apply]
    ensures Run(d, from, steps) == Some(t) && RestorerAt(t, Restoring) && t.coord == s.coord
  {
    steps, t := Then(d, from, before, s, Claim);
    steps, t := Then(d, from, steps, t, Apply);
  }

  lemma JournalAndLook(d: Design, from: State, before: seq<Step>, s: State) returns (steps: seq<Step>, t: State)
    requires Run(d, from, before) == Some(s) && RestorerAt(s, Locked) && !MarkLive(s)
    ensures Run(d, from, steps) == Some(t) && RestorerAt(t, Free) && t.coord == s.coord
  {
    steps, t := Then(d, from, before, s, if d.journalsFirst then Journal else Look);
    steps, t := Then(d, from, steps, t, if d.journalsFirst then Look else Journal);
  }

  /** A restore from its start to the overwriting, no live mark in its way. */
  lemma RestoreAlone(d: Design, from: State, before: seq<Step>, s: State) returns (steps: seq<Step>, t: State)
    requires Run(d, from, before) == Some(s) && s.restorer.NoRestorer? && !MarkLive(s)
    ensures Run(d, from, steps) == Some(t) && RestorerAt(t, Restoring) && t.coord == s.coord
  {
    steps, t := Then(d, from, before, s, Start);
    steps, t := JournalAndLook(d, from, steps, t);
    steps, t := ClaimAndApply(d, from, steps, t);
  }

  /** Looking before marking: a restore can journal, see no mark and begin in between. */
  lemma LookThenMarkClashes(d: Design) returns (steps: seq<Step>)
    requires !d.marksFirst
    ensures Run(d, Init(), steps).Some? && Clash(Run(d, Init(), steps).value)
  {
    var t := Init();
    steps := [];
    steps, t := Then(d, Init(), steps, t, Spawn);
    steps, t := Then(d, Init(), steps, t, Check(false));
    steps, t := RestoreAlone(d, Init(), steps, t);
    steps, t := Then(d, Init(), steps, t, Truncate);
    steps, t := Then(d, Init(), steps, t, WriteMark);
    steps, t := Then(d, Init(), steps, t, Build);
  }

  lemma BuildAlone(d: Design, from: State, before: seq<Step>, s: State) returns (steps: seq<Step>, t: State)
    requires Run(d, from, before) == Some(s) && s.coord.NoCoord? && !JournalLive(s)
    ensures Run(d, from, steps) == Some(t) && CoordAt(t, Built) && t.restorer == s.restorer && t.journal == s.journal
  {
    steps, t := Then(d, from, before, s, Spawn);
    if d.marksFirst {
      steps, t := Then(d, from, steps, t, Truncate);
      steps, t := Then(d, from, steps, t, WriteMark);
      steps, t := Then(d, from, steps, t, Check(false));
    } else {
      steps, t := Then(d, from, steps, t, Check(false));
      steps, t := Then(d, from, steps, t, Truncate);
      steps, t := Then(d, from, steps, t, WriteMark);
    }
    steps, t := Then(d, from, steps, t, Build);
  }

  /** A built coordinator that drops its mark on the way out lets a restore begin under it. */
  lemma DroppedMarkClashes(d: Design) returns (steps: seq<Step>)
    requires !d.keepsMark
    ensures Run(d, Init(), steps).Some? && Clash(Run(d, Init(), steps).value)
  {
    var t;
    steps, t := BuildAlone(d, Init(), [], Init());
    steps, t := Then(d, Init(), steps, t, ClearBuilt);
    steps, t := RestoreAlone(d, Init(), steps, t);
  }

  /** Looking before journaling: a coordinator can mark, see no restore and build in between. */
  lemma LookThenJournalClashes(d: Design) returns (steps: seq<Step>)
    requires !d.journalsFirst
    ensures Run(d, Init(), steps).Some? && Clash(Run(d, Init(), steps).value)
  {
    var t := Init();
    steps := [];
    steps, t := Then(d, Init(), steps, t, Start);
    steps, t := Then(d, Init(), steps, t, Look);
    steps, t := BuildAlone(d, Init(), steps, t);
    steps, t := Then(d, Init(), steps, t, Journal);
    steps, t := ClaimAndApply(d, Init(), steps, t);
  }

  /** Of the eight designs the source's is the only safe one. */
  lemma OnlyTheSourceIsSafe(d: Design)
    ensures Safe(d) <==> d == SOURCE
  {
    if d == SOURCE {
      forall steps | Run(d, Init(), steps).Some? ensures !Clash(Run(d, Init(), steps).value) {
        RestoreExcludesCoordinator(steps);
      }
    } else {
      var steps;
      if !d.marksFirst {
        steps := LookThenMarkClashes(d);
      } else if !d.keepsMark {
        steps := DroppedMarkClashes(d);
      } else {
        steps := LookThenJournalClashes(d);
      }
      assert Run(d, Init(), steps).Some? && Clash(Run(d, Init(), steps).value);
    }
  }

  // ---- neither side waits for ever -------------------------------------------------------

  /** The steps by which a coordinator, told to by its own look at the journal, lets go of the
      root; none of them is a kill. */
  function LetsGo(s: State): seq<Step> {
    if s.coord.NoCoord? then [] else
      match s.coord.pc
      case Marked => [Check(true), Drop]
      case Passed => [Build, ExitBuilt]
      case Yielding => [Drop]
      case Built => [ExitBuilt]
      case _ => []
  }

  lemma CoordinatorLetsGo(s: State) returns (t: State)
    requires Inv(s) && RestorerAt(s, Journaled)
    ensures Run(SOURCE, s, LetsGo(s)) == Some(t) && RestorerAt(t, Journaled) && !MarkLive(t)
  {
    var go, more := LetsGo(s), [];
    t := s;
    if |go| >= 1 {
      more, t := Then(SOURCE, s, more, t, go[0]);
      if |go| >= 2 {
        more, t := Then(SOURCE, s, more, t, go[1]);
      }
    }
    assert more == go;
  }

  /** A restore that journaled can get the root from any reachable state by a short schedule: at
      most two steps of the coordinator, none of them a kill, and its own next look. */
  lemma RestoreIsNotStarved(steps: seq<Step>) returns (s: State, more: seq<Step>, t: State)
    requires Run(SOURCE, Init(), steps).Some? && RestorerAt(Run(SOURCE, Init(), steps).value, Journaled)
    ensures s == Run(SOURCE, Init(), steps).value && |LetsGo(s)| <= 2
    ensures more == LetsGo(s) + [Look] + [Claim] + [Apply]
    ensures Run(SOURCE, s, more) == Some(t) && RestorerAt(t, Restoring)
  {
    RunKeepsInv(Init(), steps);
    s := Run(SOURCE, Init(), steps).value;
    t := CoordinatorLetsGo(s);
    more, t := Then(SOURCE, s, LetsGo(s), t, Look);
    more, t := ClaimAndApply(SOURCE, s, more, t);
  }

  /** How many steps a coordinator can still take while a restore is journaled, polls that only
      find it still wanted not counted. */
  function Left(s: State): nat {
    if s.coord.NoCoord? then 0 else
      match s.coord.pc
      case Top => 6
      case Truncated => 5
      case Marked => 4
      case Yielding => 3
      case Checked => 3
      case Passed => 2
      case Waiting => 2
      case Built => 1
      case Leaving => 1
  }

  /** A step of the running coordinator process, its stop and its death included. */
  predicate Moves(step: Step) {
    OfCoordinator(step) && !step.Spawn? && step != Poll(true)
  }

  lemma MoveLowers(s: State, step: Step)
    requires Inv(s) && RestorerAt(s, Journaled) && Moves(step) && Do(SOURCE, s, step).Some?
    ensures var t := Do(SOURCE, s, step).value;
            Left(t) < Left(s) && t.restorer == s.restorer && JournalLive(t)
  {
    CoordinatorKeepsInv(s, step);
  }

  /** The coordinator can take a step by itself, without being stopped or killed. */
  ghost predicate CanMove(s: State) {
    exists step :: Moves(step) && !step.Stop? && !step.KillCoord? && Do(SOURCE, s, step).Some?
  }

  lemma MarkLiveMoves(s: State)
    requires Inv(s) && RestorerAt(s, Journaled) && MarkLive(s)
    ensures CanMove(s)
  {
    var step := match s.coord.pc
      case Marked => Check(true)
      case Passed => Build
      case Yielding => Drop
      case _ => ExitBuilt;
    assert Moves(step) && Do(SOURCE, s, step).Some?;
  }

  lemma {:induction false} MovesAreBounded(s: State, steps: seq<Step>)
    requires Inv(s) && RestorerAt(s, Journaled) && Run(SOURCE, s, steps).Some?
    requires forall step :: step in steps ==> Moves(step)
    ensures var t := Run(SOURCE, s, steps).value;
            Inv(t) && t.restorer == s.restorer && JournalLive(t) && |steps| + Left(t) <= Left(s)
    decreases |steps|
  {
    if steps == [] {
    } else {
      assert steps[0] in steps;
      var next := Do(SOURCE, s, steps[0]).value;
      CoordinatorKeepsInv(s, steps[0]);
      MoveLowers(s, steps[0]);
      forall step | step in steps[1..] ensures Moves(step) {
        assert step in steps;
      }
      MovesAreBounded(next, steps[1..]);
    }
  }

  /** However a coordinator goes on, it gives way to a restore that journaled: from any reachable
      state it takes at most six steps of its own, and where it can go no further by itself it
      holds no live mark, so the restore's look succeeds. */
  lemma CoordinatorGivesWay(before: seq<Step>, steps: seq<Step>)
    requires Run(SOURCE, Init(), before).Some? && RestorerAt(Run(SOURCE, Init(), before).value, Journaled)
    requires Run(SOURCE, Run(SOURCE, Init(), before).value, steps).Some? && forall step :: step in steps ==> Moves(step)
    ensures var s := Run(SOURCE, Init(), before).value;
            var t := Run(SOURCE, s, steps).value;
            && |steps| <= 6 && t.restorer == s.restorer
            && (!CanMove(t) ==> !MarkLive(t) && Do(SOURCE, t, Look).Some?)
  {
    var s := Run(SOURCE, Init(), before).value;
    RunKeepsInv(Init(), before);
    MovesAreBounded(s, steps);
    var t := Run(SOURCE, s, steps).value;
    if MarkLive(t) {
      MarkLiveMoves(t);
    }
  }

  // ---- respawns included ------------------------------------------------------------------

  /** The same count across the processes a supervisor starts one after another: a coordinator
      that ends is followed by another. */
  function LeftInAll(s: State): nat {
    if s.coord.NoCoord? then 7 else
      match s.coord.pc
      case Top => 6
      case Truncated => 5
      case Marked => 4
      case Yielding => 3
      case Checked => 3
      case Passed => 9
      case Waiting => 2
      case Built => 8
      case Leaving => 1
  }

  /** A step of whichever coordinator runs, or of the supervisor that starts one. */
  predicate MovesOn(step: Step) {
    OfCoordinator(step) && step != Poll(true)
  }

  /** The ends that can come again and again: a kill, and the exit of a coordinator that finds
      itself holding files of the root. */
  predicate CutsShort(step: Step) {
    step.KillCoord? || step.ExitHolding?
  }

  function CutShort(steps: seq<Step>): nat {
    if steps == [] then 0 else (if CutsShort(steps[0]) then 1 else 0) + CutShort(steps[1..])
  }

  lemma MoveOnLowers(s: State, step: Step)
    requires Inv(s) && RestorerAt(s, Journaled) && MovesOn(step) && Do(SOURCE, s, step).Some?
    ensures var t := Do(SOURCE, s, step).value;
            && t.restorer == s.restorer && JournalLive(t)
            && LeftInAll(t) + 1 <= LeftInAll(s) + if CutsShort(step) then 7 else 0
  {
    CoordinatorKeepsInv(s, step);
  }

  lemma {:induction false} MovesOnAreBounded(s: State, steps: seq<Step>)
    requires Inv(s) && RestorerAt(s, Journaled) && Run(SOURCE, s, steps).Some?
    requires forall step :: step in steps ==> MovesOn(step)
    ensures var t := Run(SOURCE, s, steps).value;
            && Inv(t) && t.restorer == s.restorer && JournalLive(t)
            && |steps| + LeftInAll(t) <= LeftInAll(s) + 7 * CutShort(steps)
    decreases |steps|
  {
    if steps == [] {
    } else {
      assert steps[0] in steps;
      CoordinatorKeepsInv(s, steps[0]);
      MoveOnLowers(s, steps[0]);
      forall step | step in steps[1..] ensures MovesOn(step) {
        assert step in steps;
      }
      MovesOnAreBounded(Do(SOURCE, s, steps[0]).value, steps[1..]);
    }
  }

  /** However coordinators go on and are started again, they give way to a restore that journaled:
      only being killed, or exiting because of open files, lets them go on for more than eight
      steps, seven more each time; and one that can go no further by itself holds no live mark, so the
      restore's look succeeds. */
  lemma RespawnsGiveWay(before: seq<Step>, steps: seq<Step>)
    requires Run(SOURCE, Init(), before).Some? && RestorerAt(Run(SOURCE, Init(), before).value, Journaled)
    requires Run(SOURCE, Run(SOURCE, Init(), before).value, steps).Some?
    requires forall step :: step in steps ==> MovesOn(step)
    ensures var s := Run(SOURCE, Init(), before).value;
            var t := Run(SOURCE, s, steps).value;
            && |steps| <= 8 + 7 * CutShort(steps) && t.restorer == s.restorer
            && (!CanMove(t) ==> !MarkLive(t) && Do(SOURCE, t, Look).Some?)
  {
    var s := Run(SOURCE, Init(), before).value;
    RunKeepsInv(Init(), before);
    MovesOnAreBounded(s, steps);
    var t := Run(SOURCE, s, steps).value;
    assert LeftInAll(s) <= 9 && LeftInAll(t) >= 1;
    if MarkLive(t) {
      MarkLiveMoves(t);
    }
  }

  // ---- a waiting coordinator resumes ------------------------------------------------------

  lemma MarkAgain(s: State) returns (t: State)
    requires CoordAt(s, Waiting) && !JournalLive(s)
    ensures Run(SOURCE, s, [Poll(false)] + [Truncate] + [WriteMark]) == Some(t)
    ensures CoordAt(t, Marked) && !JournalLive(t) && t.coord.pid == s.coord.pid
  {
    var more;
    more, t := Then(SOURCE, s, [], s, Poll(false));
    more, t := Then(SOURCE, s, more, t, Truncate);
    more, t := Then(SOURCE, s, more, t, WriteMark);
    assert [] + [Poll(false)] == [Poll(false)];
  }

  lemma ResumeAndBuild(s: State) returns (t: State)
    requires CoordAt(s, Waiting) && !JournalLive(s)
    ensures Run(SOURCE, s, [Poll(false), Truncate, WriteMark, Check(false), Build]) == Some(t)
    ensures CoordAt(t, Built) && t.coord.pid == s.coord.pid
  {
    t := MarkAgain(s);
    var more;
    more, t := Then(SOURCE, s, [Poll(false)] + [Truncate] + [WriteMark], t, Check(false));
    more, t := Then(SOURCE, s, more, t, Build);
    assert more == [Poll(false), Truncate, WriteMark, Check(false), Build];
  }

  /** A waiting coordinator holds no mark. A poll lets it go on only when no restore is
      journaled alive, and then it can build, in the same process; a poll that finds the root
      still wanted, by a journal or by a stage within its grace period, changes nothing. */
  lemma WaitingResumes(steps: seq<Step>)
    requires Run(SOURCE, Init(), steps).Some? && CoordAt(Run(SOURCE, Init(), steps).value, Waiting)
    ensures var s := Run(SOURCE, Init(), steps).value;
            && !MarkLive(s)
            && Do(SOURCE, s, Poll(true)) == Some(s)
            && (JournalLive(s) <==> Do(SOURCE, s, Poll(false)).None?)
            && var build := [Poll(false), Truncate, WriteMark, Check(false), Build];
               !JournalLive(s) ==>
                 && Run(SOURCE, s, build).Some? && CoordAt(Run(SOURCE, s, build).value, Built)
                 && Run(SOURCE, s, build).value.coord.pid == s.coord.pid
  {
    RunKeepsInv(Init(), steps);
    var s := Run(SOURCE, Init(), steps).value;
    if !JournalLive(s) {
      var t := ResumeAndBuild(s);
    }
  }
}
