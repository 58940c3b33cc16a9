/**
 The whole row of a stop operation, column by column, from the history of passes alone, with
 the deadlines and thresholds of the request written out.
*/
module StopVerdicts {
  import opened Wrappers
  import opened StopTelemetry
  import opened StopHistory
  import opened StopOperations
  import opened StopRuns

  // --- what a pass reads about the commands ------------------------------------------------

  predicate SaidYes(row: Option<CommandRow>) { row.Some? && row.value.ack == ACCEPTED }

  /** The stop command is known to be lost, or 5 s have passed without a yes. */
  predicate NoAnswer(t0: int, p: Pass) {
    || (p.facts.stop.Some? && p.facts.stop.value.lifecycle in {PUBLISHED_UNCONFIRMED, COMMAND_FAILED, EXPIRED})
    || (p.now >= t0 + 5_000_000 && !SaidYes(p.facts.stop))
  }

  ghost predicate CancelHeard(passes: seq<Pass>) {
    exists j :: 0 <= j < |passes| && SaidYes(passes[j].facts.cancel)
  }

  // --- one pass ----------------------------------------------------------------------------

  /** An open row has a reason only if its mission cancel has timed out. */
  predicate OpenReason(op: Op) {
    op.failure == if op.cancel == CANCEL_UNCONFIRMED then Some(TASK_CANCEL_TIMEOUT) else None
  }

  lemma {:induction false} StepReason(op: Op, now: int, facts: Facts)
    requires Consistent(op) && !Terminal(op.state) && OpenReason(op)
    ensures var next, recent := Step(op, now, facts), Observe(op, now, facts).recent;
      next.failure ==
        if next.state == UNCONFIRMED then Some(if recent then VELOCITY_NOT_ZERO else TELEMETRY_STALE)
        else if next.cancel == CANCEL_UNCONFIRMED then Some(TASK_CANCEL_TIMEOUT)
        else if next.state != PARTIAL_UNCONFIRMED then None
        else Some(if next.cancel == UNAVAILABLE then TASK_CANCEL_UNCONFIRMED else STOP_ACK_UNCONFIRMED)
  {
  }

  lemma {:induction false} StepMotion(op: Op, now: int, facts: Facts)
    requires Consistent(op) && !Terminal(op.state)
    ensures var next := Step(op, now, facts);
      && (next.motion == StationaryConfirmed || next.state == UNCONFIRMED ||
          next.motion == (if SaidYes(facts.stop) then Verifying
                          else if Lost(facts.stop) || now >= op.stopAckDeadline then Unconfirmed else WaitingAck))
      && next.terminalAt == (if Terminal(next.state) then Some(now) else None)
  {
  }

  // --- whole runs --------------------------------------------------------------------------

  lemma {:induction false} OpenRowsReason(op: Op, mission: Mission, passes: seq<Pass>)
    requires Fresh0(op, mission) && Live(op, passes) && !Terminal(Run(op, passes).state)
    ensures OpenReason(Run(op, passes))
  {
    if passes != [] {
      var n := |passes| - 1;
      LivePrefix(op, passes, n);
      assert !Terminal(Run(op, passes[..n]).state);
      OpenRowsReason(op, mission, passes[..n]);
      RunKeepsConsistent(op, mission, passes[..n]);
      StepReason(Run(op, passes[..n]), passes[n].now, passes[n].facts);
    }
  }

  lemma {:induction false} CancelHeardMore(passes: seq<Pass>)
    requires passes != []
    ensures var n := |passes| - 1;
      CancelHeard(passes) <==> CancelHeard(passes[..n]) || SaidYes(passes[n].facts.cancel)
  {
    var n := |passes| - 1;
    if CancelHeard(passes) && !SaidYes(passes[n].facts.cancel) {
      var j :| 0 <= j < |passes| && SaidYes(passes[j].facts.cancel);
      assert passes[..n][j] == passes[j];
    }
  }

  /** One pass over a cancel that stays open: a yes is remembered. */
  lemma {:induction false} StepHears(op: Op, now: int, facts: Facts)
    requires !Terminal(op.state) && op.cancel in {WAITING_ACK, ACK_ACCEPTED}
    requires Step(op, now, facts).cancel in {WAITING_ACK, ACK_ACCEPTED}
    ensures Step(op, now, facts).cancel ==
      if op.cancel == ACK_ACCEPTED || SaidYes(facts.cancel) then ACK_ACCEPTED else WAITING_ACK
  {
    StepCancels(op, now, facts);
  }

  /** A cancel that is still open was accepted exactly if some pass read a yes to it. */
  lemma {:induction false} CancelHeardExactly(op: Op, passes: seq<Pass>)
    requires Fresh0(op, Cancellable) && Live(op, passes) && CancelFold(op.cancelDeadline.value, passes) == Open
    ensures Run(op, passes).cancel == if CancelHeard(passes) then ACK_ACCEPTED else WAITING_ACK
    decreases |passes|
  {
    if passes != [] {
      var n := |passes| - 1;
      LivePrefix(op, passes, n);
      CancelHeardExactly(op, passes[..n]);
      CancelTracksFold(op, passes);
      assert !Terminal(Run(op, passes[..n]).state);
      StepHears(Run(op, passes[..n]), passes[n].now, passes[n].facts);
      CancelHeardMore(passes);
    }
  }

  /** The five frames of the history, at the thresholds of the request: 1 s, 2 cm/s, 0.03 rad/s. */
  ghost predicate Stood(passes: seq<Pass>) {
    exists e :: FiveFrames(Looks(Thresholds(1000, 0.02, 0.03), passes), e)
  }

  ghost predicate Closed(mission: Mission, t1: int, passes: seq<Pass>) {
    mission == NoTask || (mission == Cancellable && CancelledInTime(t1 + 10_000_000, passes))
  }

  ghost predicate TimedOut(mission: Mission, t1: int, passes: seq<Pass>) {
    mission == Cancellable && CancelTimedOut(t1 + 10_000_000, passes)
  }

  predicate StaleLook(p: Pass) { !LookOf(Thresholds(1000, 0.02, 0.03), p).o.recent }

  /** Out of time at 15 s, or already when nothing fresh is read and the stop has no answer. */
  predicate OutOfTime(t0: int, t2: int, p: Pass) {
    p.now >= t2 + 15_000_000 || (StaleLook(p) && NoAnswer(t0, p))
  }

  ghost function StateOf(mission: Mission, t0: int, t1: int, t2: int, passes: seq<Pass>): State
    requires passes != []
  {
    var last := passes[|passes| - 1];
    var closed, lost := Closed(mission, t1, passes), mission == NotCancellable || TimedOut(mission, t1, passes);
    if Stood(passes) then
      if closed && SaidYes(last.facts.stop) then VEHICLE_STATIONARY_CONFIRMED
      else if closed || lost then PARTIAL_UNCONFIRMED
      else STATIONARY_CONFIRMED_CANCEL_PENDING
    else if OutOfTime(t0, t2, last) then UNCONFIRMED
    else VERIFYING_STATIONARY
  }

  ghost function MotionOf(t0: int, t2: int, passes: seq<Pass>): Motion
    requires passes != []
  {
    var last := passes[|passes| - 1];
    if Stood(passes) then StationaryConfirmed
    else if OutOfTime(t0, t2, last) then Unconfirmed
    else if SaidYes(last.facts.stop) then Verifying
    else if NoAnswer(t0, last) then Unconfirmed
    else WaitingAck
  }

  ghost function CancelOf(mission: Mission, t1: int, passes: seq<Pass>): MissionCancel {
    match mission
    case NoTask => NOT_REQUIRED
    case NotCancellable => UNAVAILABLE
    case Cancellable =>
      if Closed(mission, t1, passes) then CANCELLED_CONFIRMED
      else if TimedOut(mission, t1, passes) then CANCEL_UNCONFIRMED
      else if CancelHeard(passes) then ACK_ACCEPTED
      else WAITING_ACK
  }

  ghost function ReasonOf(mission: Mission, t0: int, t1: int, t2: int, passes: seq<Pass>): Option<Reason>
    requires passes != []
  {
    var last := passes[|passes| - 1];
    if !Stood(passes) && OutOfTime(t0, t2, last) then
      if StaleLook(last) then Some(TELEMETRY_STALE) else Some(VELOCITY_NOT_ZERO)
    else if TimedOut(mission, t1, passes) then Some(TASK_CANCEL_TIMEOUT)
    else if !Stood(passes) then None
    else if mission == NotCancellable then Some(TASK_CANCEL_UNCONFIRMED)
    else if Closed(mission, t1, passes) && !SaidYes(last.facts.stop) then Some(STOP_ACK_UNCONFIRMED)
    else None
  }

  /**
   Every column of the row after the last pass of an operation that was open before it:
   the state, the motion, the mission cancel, the reason and the time of the end.
  */
  lemma {:induction false} RowFromHistory(
    mission: Mission, boot: Option<string>, t0: int, t1: int, t2: int, passes: seq<Pass>)
    requires passes != [] && Live(Requested(mission, boot, t0, t1, t2), passes)
    ensures var r := Run(Requested(mission, boot, t0, t1, t2), passes);
      && r.state == StateOf(mission, t0, t1, t2, passes)
      && r.motion == MotionOf(t0, t2, passes)
      && r.cancel == CancelOf(mission, t1, passes)
      && r.failure == ReasonOf(mission, t0, t1, t2, passes)
      && r.terminalAt == (if Terminal(r.state) then Some(passes[|passes| - 1].now) else None)
      && r.bootSnapshot == boot
  {
    var op, n := Requested(mission, boot, t0, t1, t2), |passes| - 1;
    var before := Run(op, passes[..n]);
    LivePrefix(op, passes, n);
    assert !Terminal(before.state);
    OutcomeTable(op, mission, passes);
    RunKeepsConsistent(op, mission, passes[..n]);
    RunKeepsConsistent(op, mission, passes);
    OpenRowsReason(op, mission, passes[..n]);
    StopDeadlineFixed(op, passes[..n]);
    StepReason(before, passes[n].now, passes[n].facts);
    StepMotion(before, passes[n].now, passes[n].facts);
    CancelColumn(mission, boot, t0, t1, t2, passes);
    ConfirmedExactly(op, mission, passes);
  }

  lemma {:induction false} CancelColumn(
    mission: Mission, boot: Option<string>, t0: int, t1: int, t2: int, passes: seq<Pass>)
    requires Live(Requested(mission, boot, t0, t1, t2), passes)
    ensures Run(Requested(mission, boot, t0, t1, t2), passes).cancel == CancelOf(mission, t1, passes)
  {
    var op := Requested(mission, boot, t0, t1, t2);
    if mission == Cancellable {
      CancelHistory(t1 + 10_000_000, passes);
      CancelTracksFold(op, passes);
      if CancelFold(t1 + 10_000_000, passes) == Open {
        CancelHeardExactly(op, passes);
      }
    } else {
      SettledStays(op, passes);
    }
  }

  /** Requested by t2, the operation is over by 15 s later, and what it says then it says for good. */
  lemma {:induction false} OverIn15Seconds(
    mission: Mission, boot: Option<string>, t0: int, t1: int, t2: int, passes: seq<Pass>, i: nat)
    requires t0 <= t1 <= t2 && i < |passes| && passes[i].now >= t2 + 15_000_000
    ensures var op := Requested(mission, boot, t0, t1, t2);
      Terminal(Run(op, passes[..i + 1]).state) && Run(op, passes) == Run(op, passes[..i + 1])
  {
    StopAlwaysEnds(Requested(mission, boot, t0, t1, t2), mission, passes, i);
  }
}
