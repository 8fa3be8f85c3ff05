/** The start/stop protocol of the flush loop: goroutines running the loop, concurrent callers of
    Stop, the two channels and the context. The housekeeping loop follows the same protocol
    without a final flush.

The section of Stop under the mutex is one step. As in `Pipeline`, a label whose step is not
possible leaves the state alone, so every sequence of labels is a run.
 */
module Shutdown {

  datatype LoopPc = Selecting | LoopFlushing | Exiting | Exited

  /** `won` tells the caller that found the loop not yet stopped from the others. */
  datatype StopPc = Called | Waiting | FinalFlush | Returned(won: bool)

  datatype State = State(
    loops: seq<LoopPc>,      // one per Start
    stops: seq<StopPc>,      // one per call of Stop
    stopped: bool,
    stopCloses: nat,         // how often `close(stopCh)` was executed
    stoppedCloses: nat,      // how often `close(stoppedCh)` was executed
    cancelled: bool)         // the loop's context

  const FRESH := State([], [], false, 0, 0, false)

  datatype Step =
    | Start
    | Cancel
    | Tick(loop: nat)
    | FlushDone(loop: nat)
    | SeeStop(loop: nat)
    | SeeCancel(loop: nat)
    | Exit(loop: nat)
    | CallStop
    | Gate(stop: nat)        // the section under the mutex
    | Join(stop: nat)        // receive from stoppedCh
    | GiveUp(stop: nat)      // the caller's context is done first
    | FinalDone(stop: nat)

  function MoveLoop(s: State, i: nat, from: LoopPc, guard: bool, to: LoopPc): State {
    if i < |s.loops| && s.loops[i] == from && guard then s.(loops := s.loops[i := to]) else s
  }

  function MoveStop(s: State, j: nat, from: StopPc, guard: bool, to: StopPc): State {
    if j < |s.stops| && s.stops[j] == from && guard then s.(stops := s.stops[j := to]) else s
  }

  function Next(s: State, step: Step): State {
    match step
    case Start => s.(loops := s.loops + [Selecting])
    case Cancel => s.(cancelled := true)
    case Tick(i) => MoveLoop(s, i, Selecting, true, LoopFlushing)
    case FlushDone(i) => MoveLoop(s, i, LoopFlushing, true, Selecting)
    case SeeStop(i) => MoveLoop(s, i, Selecting, s.stopCloses > 0, Exiting)
    case SeeCancel(i) => MoveLoop(s, i, Selecting, s.cancelled, Exiting)
    case Exit(i) =>
      if i < |s.loops| && s.loops[i].Exiting?
      then s.(loops := s.loops[i := Exited], stoppedCloses := s.stoppedCloses + 1)
      else s
    case CallStop => s.(stops := s.stops + [Called])
    case Gate(j) =>
      if j < |s.stops| && s.stops[j].Called? then
        if s.stopped then s.(stops := s.stops[j := Returned(false)])
        else s.(stops := s.stops[j := Waiting], stopped := true, stopCloses := s.stopCloses + 1)
      else s
    case Join(j) => MoveStop(s, j, Waiting, s.stoppedCloses > 0, FinalFlush)
    case GiveUp(j) => MoveStop(s, j, Waiting, true, Returned(true))
    case FinalDone(j) => MoveStop(s, j, FinalFlush, true, Returned(true))
  }

  function Exec(s: State, steps: seq<Step>): State {
    if steps == [] then s else Next(Exec(s, steps[..|steps| - 1]), steps[|steps| - 1])
  }

  /** An execution of Flush in progress. */
  datatype Flusher = ByLoop(i: nat) | ByStop(j: nat)

  predicate Flushing(s: State, who: Flusher) {
    match who
    case ByLoop(i) => i < |s.loops| && s.loops[i].LoopFlushing?
    case ByStop(j) => j < |s.stops| && s.stops[j].FinalFlush?
  }

  /** The caller of Stop that set `stopped`. */
  predicate Won(pc: StopPc) {
    pc.Waiting? || pc.FinalFlush? || pc == Returned(true)
  }

  /** One caller at most gets beyond the mutex, and into the final flush only after a loop exited. */
  ghost predicate StopsInOrder(stops: seq<StopPc>, stopped: bool, someExited: bool) {
    && (forall j :: 0 <= j < |stops| && Won(stops[j]) ==> stopped)
    && (forall i, j :: 0 <= i < |stops| && 0 <= j < |stops| && Won(stops[i]) && Won(stops[j]) ==> i == j)
    && (forall j :: 0 <= j < |stops| && stops[j].FinalFlush? ==> someExited)
  }

  ghost predicate Inv(s: State) {
    && s.stopCloses == (if s.stopped then 1 else 0)
    && s.stoppedCloses == ExitedCount(s.loops)
    && StopsInOrder(s.stops, s.stopped, s.stoppedCloses > 0)
    && LoopsInOrder(s.loops, s.stopped || s.cancelled)
  }

  /** A loop leaves its select only when stopped or cancelled. */
  ghost predicate LoopsInOrder(loops: seq<LoopPc>, told: bool) {
    forall i :: 0 <= i < |loops| && (loops[i].Exiting? || loops[i].Exited?) ==> told
  }

  /** Every loop closes `stoppedCh` when it exits. */
  function ExitedCount(loops: seq<LoopPc>): nat {
    if loops == [] then 0
    else ExitedCount(loops[..|loops| - 1]) + if loops[|loops| - 1].Exited? then 1 else 0
  }

  lemma {:induction false} ExitedUpdate(loops: seq<LoopPc>, i: nat, pc: LoopPc)
    requires i < |loops|
    ensures ExitedCount(loops[i := pc]) + (if loops[i].Exited? then 1 else 0)
            == ExitedCount(loops) + (if pc.Exited? then 1 else 0)
  {
    var n := |loops| - 1;
    if i == n {
      assert loops[i := pc][..n] == loops[..n];
    } else {
      assert loops[i := pc][..n] == loops[..n][i := pc];
      ExitedUpdate(loops[..n], i, pc);
    }
  }

  /** The exited loops among the first `n` count. */
  lemma {:induction false} ExitedPrefix(loops: seq<LoopPc>, n: nat)
    requires n <= |loops|
    ensures ExitedCount(loops[..n]) <= ExitedCount(loops)
  {
    if n < |loops| {
      var front := loops[..|loops| - 1];
      assert front[..n] == loops[..n];
      ExitedPrefix(front, n);
    } else {
      assert loops[..n] == loops;
    }
  }

  lemma OneLoopExited(loops: seq<LoopPc>)
    requires |loops| <= 1
    ensures ExitedCount(loops) == if |loops| == 1 && loops[0].Exited? then 1 else 0
  {
    assert |loops| == 1 ==> loops[..0] == [];
  }

  lemma ExitedStep(s: State, step: Step)
    requires s.stoppedCloses == ExitedCount(s.loops)
    ensures Next(s, step).stoppedCloses == ExitedCount(Next(s, step).loops)
    ensures s.stoppedCloses <= Next(s, step).stoppedCloses
  {
    match step
    case Start =>
      assert (s.loops + [Selecting])[..|s.loops|] == s.loops;
    case Tick(i) => MoveExited(s, i, LoopFlushing);
    case FlushDone(i) => MoveExited(s, i, Selecting);
    case SeeStop(i) => MoveExited(s, i, Exiting);
    case SeeCancel(i) => MoveExited(s, i, Exiting);
    case Exit(i) => MoveExited(s, i, Exited);
    case _ =>
  }

  lemma MoveExited(s: State, i: nat, pc: LoopPc)
    ensures i < |s.loops| && !s.loops[i].Exited? ==>
              ExitedCount(s.loops[i := pc]) == ExitedCount(s.loops) + (if pc.Exited? then 1 else 0)
  {
    if i < |s.loops| {
      ExitedUpdate(s.loops, i, pc);
    }
  }

  /** A caller of Stop moves on. */
  lemma StopMoves(s: State, j: nat, to: StopPc)
    requires Inv(s) && j < |s.stops|
    requires Won(to) ==> !s.stopped || Won(s.stops[j])
    requires to.FinalFlush? ==> s.stoppedCloses > 0
    ensures StopsInOrder(s.stops[j := to], s.stopped || Won(to), s.stoppedCloses > 0)
  {
  }

  lemma StopsStep(s: State, step: Step)
    requires Inv(s)
    ensures var t := Next(s, step);
            StopsInOrder(t.stops, t.stopped, t.stoppedCloses > 0) && t.stopCloses == (if t.stopped then 1 else 0)
  {
    match step
    case Gate(j) =>
      if j < |s.stops| && s.stops[j].Called? {
        StopMoves(s, j, if s.stopped then Returned(false) else Waiting);
      }
    case Join(j) => StopMovesOn(s, j, Waiting, s.stoppedCloses > 0, FinalFlush);
    case GiveUp(j) => StopMovesOn(s, j, Waiting, true, Returned(true));
    case FinalDone(j) => StopMovesOn(s, j, FinalFlush, true, Returned(true));
    case CallStop => StopCalled(s);
    case _ =>
      assert Next(s, step).stops == s.stops && Next(s, step).stopped == s.stopped;
  }

  lemma StopMovesOn(s: State, j: nat, from: StopPc, guard: bool, to: StopPc)
    requires Inv(s) && Won(from) && Won(to) && (to.FinalFlush? && guard ==> s.stoppedCloses > 0)
    ensures StopsInOrder(MoveStop(s, j, from, guard, to).stops, s.stopped, s.stoppedCloses > 0)
  {
    if j < |s.stops| && s.stops[j] == from && guard {
      StopMoves(s, j, to);
    }
  }

  lemma StopCalled(s: State)
    requires Inv(s)
    ensures StopsInOrder(s.stops + [Called], s.stopped, s.stoppedCloses > 0)
  {
  }

  lemma LoopsStep(s: State, step: Step)
    requires LoopsInOrder(s.loops, s.stopped || s.cancelled) && s.stopCloses == (if s.stopped then 1 else 0)
    ensures var t := Next(s, step); LoopsInOrder(t.loops, t.stopped || t.cancelled)
  {
  }

  lemma NextInv(s: State, step: Step)
    requires Inv(s)
    ensures Inv(Next(s, step))
  {
    ExitedStep(s, step);
    StopsStep(s, step);
    LoopsStep(s, step);
  }

  lemma {:induction false} ReachableInv(steps: seq<Step>)
    ensures Inv(Exec(FRESH, steps))
  {
    if steps != [] {
      ReachableInv(steps[..|steps| - 1]);
      NextInv(Exec(FRESH, steps[..|steps| - 1]), steps[|steps| - 1]);
    }
  }

  /** With one Start and any number of concurrent Stops, ticks and cancellations: each channel is
      closed at most once, two flushes never overlap, only one Stop goes beyond the mutex, and its
      final flush runs only after the loop has exited, which it does only when stopped or cancelled.
      Without a Start there is no final flush. */
  lemma ShutdownIsSafe(steps: seq<Step>, a: Flusher, b: Flusher)
    requires |Exec(FRESH, steps).loops| <= 1
    ensures var s := Exec(FRESH, steps);
            && s.stopCloses <= 1 && s.stoppedCloses <= 1
            && (Flushing(s, a) && Flushing(s, b) ==> a == b)
            && (Flushing(s, a) && a.ByStop? ==> |s.loops| == 1 && s.loops[0].Exited?)
            && (forall i :: 0 <= i < |s.loops| && s.loops[i].Exited? ==> s.stopped || s.cancelled)
            && (forall i, j :: 0 <= i < |s.stops| && 0 <= j < |s.stops| && Won(s.stops[i]) && Won(s.stops[j]) ==>
                  i == j)
  {
    ReachableInv(steps);
    OneLoopExited(Exec(FRESH, steps).loops);
  }

  /** How far a caller of Stop is. */
  function Rank(pc: StopPc): nat {
    match pc case Called => 0 case Waiting => 1 case FinalFlush => 2 case Returned(_) => 3
  }

  /** A caller of Stop only moves forward, so it performs at most one final flush; and a loop that
      has left its select never flushes again. */
  lemma {:induction false} OnlyForward(s: State, steps: seq<Step>)
    ensures var t := Exec(s, steps);
            && |s.stops| <= |t.stops| && |s.loops| <= |t.loops|
            && (forall j :: 0 <= j < |s.stops| ==>
                  t.stops[j] == s.stops[j] || Rank(s.stops[j]) < Rank(t.stops[j]))
            && (forall i :: 0 <= i < |s.loops| && (s.loops[i].Exiting? || s.loops[i].Exited?) ==>
                  t.loops[i] == s.loops[i] || t.loops[i].Exited?)
  {
    if steps != [] {
      OnlyForward(s, steps[..|steps| - 1]);
      StepForward(Exec(s, steps[..|steps| - 1]), steps[|steps| - 1]);
    }
  }

  lemma StepForward(s: State, step: Step)
    ensures var t := Next(s, step);
            && |s.stops| <= |t.stops| && |s.loops| <= |t.loops|
            && (forall j :: 0 <= j < |s.stops| ==>
                  t.stops[j] == s.stops[j] || Rank(s.stops[j]) < Rank(t.stops[j]))
            && (forall i :: 0 <= i < |s.loops| && (s.loops[i].Exiting? || s.loops[i].Exited?) ==>
                  t.loops[i] == s.loops[i] || t.loops[i].Exited?)
  {
  }

  // ---------------------------------------------------------------- more than one Start

  function Starts(steps: seq<Step>): nat {
    if steps == [] then 0 else Starts(steps[..|steps| - 1]) + if steps[|steps| - 1].Start? then 1 else 0
  }

  lemma {:induction false} LoopsAreStarts(steps: seq<Step>)
    ensures |Exec(FRESH, steps).loops| == Starts(steps)
  {
    if steps != [] {
      LoopsAreStarts(steps[..|steps| - 1]);
      LoopCount(Exec(FRESH, steps[..|steps| - 1]), steps[|steps| - 1]);
    }
  }

  lemma LoopCount(s: State, step: Step)
    ensures |Next(s, step).loops| == |s.loops| + if step.Start? then 1 else 0
  {
  }

  ghost predicate NoStart(steps: seq<Step>) {
    forall i :: 0 <= i < |steps| ==> !steps[i].Start?
  }

  lemma {:induction false} ExecConcat(s: State, a: seq<Step>, b: seq<Step>)
    ensures Exec(s, a + b) == Exec(Exec(s, a), b)
  {
    if b == [] {
      assert a + b == a;
    } else {
      assert (a + b)[..|a + b| - 1] == a + b[..|b| - 1];
      ExecConcat(s, a, b[..|b| - 1]);
    }
  }

  lemma ExecSnoc(s: State, steps: seq<Step>, step: Step)
    ensures Exec(s, steps + [step]) == Next(Exec(s, steps), step)
  {
    assert (steps + [step])[..|steps|] == steps;
  }

  lemma {:induction false} StartsConcat(a: seq<Step>, b: seq<Step>)
    requires NoStart(b)
    ensures Starts(a + b) == Starts(a)
  {
    if b == [] {
      assert a + b == a;
    } else {
      assert (a + b)[..|a + b| - 1] == a + b[..|b| - 1];
      StartsConcat(a, b[..|b| - 1]);
    }
  }

  /** Steps that end loop `i`, wherever it is. */
  function Finish(i: nat): seq<Step> {
    [] + [FlushDone(i)] + [Cancel] + [SeeCancel(i)] + [Exit(i)]
  }

  lemma FinishExits(s: State, i: nat)
    requires i < |s.loops|
    ensures var t := Exec(s, Finish(i));
            && |t.loops| == |s.loops| && t.loops[i].Exited?
            && forall j :: 0 <= j < |s.loops| && j != i ==> t.loops[j] == s.loops[j]
  {
    ExecSnoc(s, [], FlushDone(i));
    ExecSnoc(s, [] + [FlushDone(i)], Cancel);
    ExecSnoc(s, [] + [FlushDone(i)] + [Cancel], SeeCancel(i));
    ExecSnoc(s, [] + [FlushDone(i)] + [Cancel] + [SeeCancel(i)], Exit(i));
  }

  /** A channel has been closed twice, which panics. */
  predicate ClosedTwice(s: State) {
    s.stopCloses > 1 || s.stoppedCloses > 1
  }

  lemma TwoLoopsCloseTwice(steps: seq<Step>)
    requires |Exec(FRESH, steps).loops| > 1
    ensures NoStart(Finish(0) + Finish(1)) && ClosedTwice(Exec(FRESH, steps + (Finish(0) + Finish(1))))
  {
    ExecConcat(FRESH, steps, Finish(0) + Finish(1));
    BothFinish(Exec(FRESH, steps));
    ReachableCount(steps + (Finish(0) + Finish(1)));
  }

  lemma ReachableCount(steps: seq<Step>)
    ensures Exec(FRESH, steps).stoppedCloses == ExitedCount(Exec(FRESH, steps).loops)
  {
    ReachableInv(steps);
  }

  lemma BothFinish(s: State)
    requires |s.loops| > 1
    ensures ExitedCount(Exec(s, Finish(0) + Finish(1)).loops) > 1
  {
    ExecConcat(s, Finish(0), Finish(1));
    FinishExits(s, 0);
    FinishExits(Exec(s, Finish(0)), 1);
    TwoExited(Exec(s, Finish(0) + Finish(1)).loops);
  }

  lemma TwoExited(loops: seq<LoopPc>)
    requires |loops| > 1 && loops[0].Exited? && loops[1].Exited?
    ensures ExitedCount(loops) > 1
  {
    ExitedPrefix(loops, 2);
    assert loops[..2][..1] == [Exited] && [Exited][..0] == [];
  }

  /** The exact condition: a run can go on, without a further Start, to close a channel twice if
      and only if it contains more than one Start, wherever the loops are by then. */
  lemma ClosesTwiceIffStartedTwice(steps: seq<Step>)
    ensures (exists more :: NoStart(more) && ClosedTwice(Exec(FRESH, steps + more))) <==> Starts(steps) > 1
  {
    LoopsAreStarts(steps);
    if Starts(steps) > 1 {
      TwoLoopsCloseTwice(steps);
    } else {
      forall more | NoStart(more)
        ensures !ClosedTwice(Exec(FRESH, steps + more))
      {
        StartsConcat(steps, more);
        LoopsAreStarts(steps + more);
        ShutdownIsSafe(steps + more, ByLoop(0), ByLoop(0));
      }
    }
  }

  // ---------------------------------------------------------------- overlapping flushes

  /** A loop that may flush again, or does. */
  predicate Live(s: State, i: nat) {
    i < |s.loops| && (s.loops[i].Selecting? || s.loops[i].LoopFlushing?)
  }

  /** A Stop may still get to its final flush, or is in it. */
  ghost predicate FinalFlushAhead(s: State) {
    !s.stopped || exists j :: 0 <= j < |s.stops| && (s.stops[j].Waiting? || s.stops[j].FinalFlush?)
  }

  /** Two live loops, or a live loop beside another one while the final flush is still ahead. */
  ghost predicate MayOverlap(s: State) {
    || (exists i, j :: i != j && Live(s, i) && Live(s, j))
    || (|s.loops| > 1 && FinalFlushAhead(s) && exists i :: Live(s, i))
  }

  ghost predicate Overlap(s: State) {
    exists a, b :: a != b && Flushing(s, a) && Flushing(s, b)
  }

  lemma OverlapMay(s: State)
    requires Inv(s) && Overlap(s)
    ensures MayOverlap(s)
  {
    var a, b :| a != b && Flushing(s, a) && Flushing(s, b);
    if a.ByLoop? && b.ByLoop? {
      assert Live(s, a.i) && Live(s, b.i);
    } else if a.ByLoop? {
      LoopBesideFinalFlush(s, a.i, b.j);
    } else if b.ByLoop? {
      LoopBesideFinalFlush(s, b.i, a.j);
    } else {
      OneFinalFlush(s, a.j, b.j);
    }
  }

  lemma OneFinalFlush(s: State, i: nat, j: nat)
    requires Inv(s) && Flushing(s, ByStop(i)) && Flushing(s, ByStop(j))
    ensures i == j
  {
    assert Won(s.stops[i]) && Won(s.stops[j]);
  }

  lemma LoopBesideFinalFlush(s: State, i: nat, j: nat)
    requires Inv(s) && Flushing(s, ByLoop(i)) && Flushing(s, ByStop(j))
    ensures MayOverlap(s)
  {
    assert Live(s, i);
    if |s.loops| <= 1 {
      OneLoopExited(s.loops);
    }
  }

  /** Without a Start, what cannot overlap now never will. */
  lemma NoOverlapStep(s: State, step: Step)
    requires !step.Start? && MayOverlap(Next(s, step))
    ensures MayOverlap(s)
  {
    var t := Next(s, step);
    LoopCount(s, step);
    assert forall i :: Live(t, i) ==> Live(s, i);
    if FinalFlushAhead(t) {
      FinalFlushWasAhead(s, step);
    }
  }

  lemma FinalFlushWasAhead(s: State, step: Step)
    requires FinalFlushAhead(Next(s, step))
    ensures FinalFlushAhead(s)
  {
    var t := Next(s, step);
    if s.stopped {
      var j :| 0 <= j < |t.stops| && (t.stops[j].Waiting? || t.stops[j].FinalFlush?);
      assert j < |s.stops| && (s.stops[j].Waiting? || s.stops[j].FinalFlush?);
    }
  }

  lemma {:induction false} NoOverlapAhead(s: State, more: seq<Step>)
    requires NoStart(more) && MayOverlap(Exec(s, more))
    ensures MayOverlap(s)
  {
    if more != [] {
      var n := |more| - 1;
      NoOverlapStep(Exec(s, more[..n]), more[n]);
      NoOverlapAhead(s, more[..n]);
    }
  }

  lemma TwoLoopsOverlap(s: State, i: nat, j: nat) returns (more: seq<Step>)
    requires i != j && Live(s, i) && Live(s, j)
    ensures NoStart(more) && Overlap(Exec(s, more))
  {
    more := [Tick(i), Tick(j)];
    ExecTwo(s, Tick(i), Tick(j));
    assert Flushing(Exec(s, more), ByLoop(i)) && Flushing(Exec(s, more), ByLoop(j));
  }

  /** A live loop flushes beside the final flush of a Stop that another loop has let through. */
  lemma FinalFlushOverlaps(s: State, i: nat, j: nat) returns (more: seq<Step>)
    requires Inv(s) && Live(s, i) && j < |s.stops|
    requires s.stops[j].Waiting? || s.stops[j].FinalFlush?
    requires s.stoppedCloses > 0
    ensures NoStart(more) && Overlap(Exec(s, more))
  {
    more := [Tick(i), Join(j)];
    ExecTwo(s, Tick(i), Join(j));
    assert Flushing(Exec(s, more), ByLoop(i)) && Flushing(Exec(s, more), ByStop(j));
  }

  /** If the final flush is ahead, some Stop waits for it already, or a new one can. */
  lemma StopWaits(s: State) returns (call: seq<Step>, j: nat)
    requires Inv(s) && FinalFlushAhead(s)
    ensures var t := Exec(s, call);
            && NoStart(call) && Inv(t) && t.loops == s.loops && t.stoppedCloses == s.stoppedCloses
            && j < |t.stops| && (t.stops[j].Waiting? || t.stops[j].FinalFlush?)
  {
    if !s.stopped {
      call, j := NewStopWaits(s);
    } else {
      call := [];
      j :| 0 <= j < |s.stops| && (s.stops[j].Waiting? || s.stops[j].FinalFlush?);
    }
  }

  lemma NewStopWaits(s: State) returns (call: seq<Step>, j: nat)
    requires Inv(s) && !s.stopped
    ensures var t := Exec(s, call);
            && NoStart(call) && Inv(t) && t.loops == s.loops && t.stoppedCloses == s.stoppedCloses
            && j < |t.stops| && t.stops[j].Waiting?
  {
    j := |s.stops|;
    call := [CallStop, Gate(j)];
    ExecTwo(s, CallStop, Gate(j));
    GateOpens(s);
    NextInv(s, CallStop);
    NextInv(Next(s, CallStop), Gate(j));
  }

  lemma GateOpens(s: State)
    requires !s.stopped
    ensures var t := Next(Next(s, CallStop), Gate(|s.stops|));
            && t.loops == s.loops && t.stoppedCloses == s.stoppedCloses
            && |s.stops| < |t.stops| && t.stops[|s.stops|].Waiting?
  {
  }

  lemma ExecTwo(s: State, a: Step, b: Step)
    ensures Exec(s, [a, b]) == Next(Next(s, a), b)
  {
    ExecSnoc(s, [], a);
    ExecSnoc(s, [] + [a], b);
    assert [a, b] == [] + [a] + [b];
  }

  /** Ends another loop, lets a Stop through and ticks the live one. */
  lemma StopBesideLoop(s: State, i: nat) returns (more: seq<Step>)
    requires Inv(s) && Live(s, i) && |s.loops| > 1 && FinalFlushAhead(s)
    ensures NoStart(more) && Overlap(Exec(s, more))
  {
    var other := if i == 0 then 1 else 0;
    var t := Exec(s, Finish(other));
    FinishExits(s, other);
    FinishKeepsStops(s, other);
    SomeExited(t.loops, other);
    var call, j := StopWaits(t);
    var rest := FinalFlushOverlaps(Exec(t, call), i, j);
    ExecConcat(s, Finish(other), call);
    ExecConcat(s, Finish(other) + call, rest);
    more := Finish(other) + call + rest;
  }

  lemma FinishKeepsStops(s: State, i: nat)
    requires Inv(s)
    ensures var t := Exec(s, Finish(i)); Inv(t) && t.stops == s.stops && t.stopped == s.stopped
  {
    var s1 := Next(s, FlushDone(i));
    var s2 := Next(s1, Cancel);
    var s3 := Next(s2, SeeCancel(i));
    ExecSnoc(s, [], FlushDone(i));
    ExecSnoc(s, [] + [FlushDone(i)], Cancel);
    ExecSnoc(s, [] + [FlushDone(i)] + [Cancel], SeeCancel(i));
    ExecSnoc(s, [] + [FlushDone(i)] + [Cancel] + [SeeCancel(i)], Exit(i));
    NextInv(s, FlushDone(i));
    NextInv(s1, Cancel);
    NextInv(s2, SeeCancel(i));
    NextInv(s3, Exit(i));
  }

  lemma SomeExited(loops: seq<LoopPc>, i: nat)
    requires i < |loops| && loops[i].Exited?
    ensures ExitedCount(loops) > 0
  {
    ExitedPrefix(loops, i + 1);
    assert loops[..i + 1][..i] == loops[..i];
  }

  /** The exact condition: a run can go on, without a further Start, to overlapping flushes if and
      only if two loops are live, or one is beside another loop while the final flush is ahead. */
  lemma FlushesOverlapIff(steps: seq<Step>)
    ensures (exists more :: NoStart(more) && Overlap(Exec(FRESH, steps + more))) <==> MayOverlap(Exec(FRESH, steps))
  {
    var s := Exec(FRESH, steps);
    ReachableInv(steps);
    if MayOverlap(s) {
      var more: seq<Step>;
      if i, j :| i != j && Live(s, i) && Live(s, j) {
        more := TwoLoopsOverlap(s, i, j);
      } else {
        var i :| Live(s, i);
        more := StopBesideLoop(s, i);
      }
      ExecConcat(FRESH, steps, more);
    } else {
      forall more | NoStart(more)
        ensures !Overlap(Exec(FRESH, steps + more))
      {
        ExecConcat(FRESH, steps, more);
        ReachableInv(steps + more);
        if Overlap(Exec(s, more)) {
          OverlapMay(Exec(s, more));
          NoOverlapAhead(s, more);
        }
      }
    }
  }

  /** Two runs: a loop that was cancelled, a second Start, and either the second loop exits, which
      closes `stoppedCh` again, or it flushes beside the final flush of a Stop. */
  lemma SecondStartRuns() returns (closing: seq<Step>, overlapping: seq<Step>)
    ensures Starts(closing) == 2 && ClosedTwice(Exec(FRESH, closing))
    ensures Starts(overlapping) == 2 && Overlap(Exec(FRESH, overlapping))
  {
    var begin := [] + [Start];
    ExecSnoc(FRESH, [], Start);
    StartsConcat(begin, Finish(0));
    ExecConcat(FRESH, begin, Finish(0));
    FinishExits(Exec(FRESH, begin), 0);
    var twice := begin + Finish(0) + [Start];
    ExecSnoc(FRESH, begin + Finish(0), Start);
    assert twice[..|twice| - 1] == begin + Finish(0);
    TwoLoopsCloseTwice(twice);
    closing := twice + (Finish(0) + Finish(1));
    StartsConcat(twice, Finish(0) + Finish(1));
    var s := Exec(FRESH, twice);
    ReachableInv(twice);
    ReachableInv(begin + Finish(0));
    FinishKeepsStops(Exec(FRESH, begin), 0);
    assert Live(s, 1);
    var more := StopBesideLoop(s, 1);
    overlapping := twice + more;
    StartsConcat(twice, more);
    ExecConcat(FRESH, twice, more);
  }

  /** Once the winning Stop is waiting, a loop that is not stuck in a flush lets it proceed:
      whatever else happened, three steps of its own lead to the final flush. */
  lemma StopReachesFinalFlush(steps: seq<Step>, j: nat)
    requires var s := Exec(FRESH, steps);
             && |s.loops| == 1 && s.loops[0].Selecting?
             && j < |s.stops| && s.stops[j].Waiting?
    ensures var s := Exec(FRESH, steps);
            Flushing(Next(Next(Next(s, SeeStop(0)), Exit(0)), Join(j)), ByStop(j))
  {
    ReachableInv(steps);
  }
}
