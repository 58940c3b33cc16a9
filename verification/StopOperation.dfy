/**
 One stop operation and the worker's reconcile pass over it. Step says what a pass
 does to the row as a value; the class updates the row field by field.
*/
module StopOperations {
  import opened Wrappers
  import opened StopTelemetry

  datatype State =
    | STOP_REQUESTED | VERIFYING_STATIONARY | STATIONARY_CONFIRMED_CANCEL_PENDING
    | VEHICLE_STATIONARY_CONFIRMED | PARTIAL_UNCONFIRMED | FAILED | UNCONFIRMED

  datatype Motion = WaitingAck | Verifying | Unconfirmed | StationaryConfirmed

  datatype MissionCancel =
    NOT_REQUIRED | WAITING_ACK | ACK_ACCEPTED | CANCELLED_CONFIRMED | CANCEL_UNCONFIRMED | UNAVAILABLE

  datatype Reason =
    | TASK_CANCEL_TIMEOUT | TASK_CANCEL_UNCONFIRMED | STOP_ACK_UNCONFIRMED
    | TELEMETRY_STALE | VELOCITY_NOT_ZERO

  datatype Ack = NO_ACK | ACCEPTED | REJECTED | UNSUPPORTED

  /** Command lifecycle, as far as a stop operation tells values apart. */
  datatype Lifecycle = PUBLISHED_UNCONFIRMED | COMMAND_FAILED | EXPIRED | OTHER_LIFECYCLE

  datatype CommandRow = CommandRow(ack: Ack, lifecycle: Lifecycle)

  datatype Op = Op(
    state: State, motion: Motion, cancel: MissionCancel, frames: Frames,
    stopAckDeadline: int, cancelDeadline: Option<int>, verifyDeadline: int,
    limits: Thresholds, bootSnapshot: Option<string>,
    terminalAt: Option<int>, failure: Option<Reason>)

  /** What one pass reads besides the row: the two commands, the task and the telemetry. */
  datatype Facts = Facts(
    stop: Option<CommandRow>, cancel: Option<CommandRow>, taskCancelled: bool, latest: Latest)

  predicate Terminal(s: State) {
    s in {VEHICLE_STATIONARY_CONFIRMED, PARTIAL_UNCONFIRMED, FAILED, UNCONFIRMED}
  }

  predicate CancelSettled(c: MissionCancel) {
    c in {NOT_REQUIRED, CANCELLED_CONFIRMED, CANCEL_UNCONFIRMED, UNAVAILABLE}
  }

  predicate CancelFulfilled(c: MissionCancel) { c in {NOT_REQUIRED, CANCELLED_CONFIRMED} }

  predicate Accepted(row: Option<CommandRow>) { row.Some? && row.value.ack == ACCEPTED }

  predicate Lost(row: Option<CommandRow>) {
    row.Some? && row.value.lifecycle in {PUBLISHED_UNCONFIRMED, COMMAND_FAILED, EXPIRED}
  }

  /** The mission-cancel fact after a pass. */
  function CancelAfter(op: Op, now: int, facts: Facts): MissionCancel {
    if CancelSettled(op.cancel) then op.cancel
    else if facts.taskCancelled then CANCELLED_CONFIRMED
    else if op.cancelDeadline.Some? && now >= op.cancelDeadline.value then CANCEL_UNCONFIRMED
    else if Accepted(facts.cancel) then ACK_ACCEPTED
    else op.cancel
  }

  function WithCancel(op: Op, now: int, facts: Facts): Op {
    var c := CancelAfter(op, now, facts);
    op.(cancel := c,
        failure := if !CancelSettled(op.cancel) && c == CANCEL_UNCONFIRMED then Some(TASK_CANCEL_TIMEOUT)
                   else op.failure)
  }

  function Observe(op: Op, now: int, facts: Facts): Observation {
    StationaryObservation(facts.latest, now, op.limits)
  }

  /** Once confirmed the frames are never touched again. */
  function WithFrames(op: Op, now: int, facts: Facts): Op {
    if op.motion == StationaryConfirmed then op
    else op.(frames := AdvanceStationaryFrames(Observe(op, now, facts), ObservationToken(facts.latest), op.frames))
  }

  function Ended(op: Op, now: int, state: State, motion: Motion, reason: Option<Reason>): Op {
    op.(state := state, motion := motion, terminalAt := Some(now),
        failure := if reason.Some? then reason else op.failure)
  }

  /** The vehicle stands still: what is left is the mission cancel and the stop ACK. */
  function Standing(op: Op, now: int, acked: bool): Op {
    if CancelFulfilled(op.cancel) then
      if acked then Ended(op, now, VEHICLE_STATIONARY_CONFIRMED, StationaryConfirmed, None)
      else Ended(op, now, PARTIAL_UNCONFIRMED, StationaryConfirmed, Some(STOP_ACK_UNCONFIRMED))
    else if CancelSettled(op.cancel) then
      Ended(op, now, PARTIAL_UNCONFIRMED, StationaryConfirmed,
        if op.failure.Some? then op.failure else Some(TASK_CANCEL_UNCONFIRMED))
    else op.(state := STATIONARY_CONFIRMED_CANCEL_PENDING, motion := StationaryConfirmed)
  }

  /** Not standing still yet: give up, or keep verifying. */
  function Moving(op: Op, now: int, recent: bool, acked: bool, lost: bool): Op {
    if !recent && (lost || now >= op.verifyDeadline) then
      Ended(op, now, UNCONFIRMED, Unconfirmed, Some(TELEMETRY_STALE))
    else if now >= op.verifyDeadline then Ended(op, now, UNCONFIRMED, Unconfirmed, Some(VELOCITY_NOT_ZERO))
    else op.(state := VERIFYING_STATIONARY,
             motion := if acked then Verifying else if lost then Unconfirmed else WaitingAck)
  }

  /** One reconcile pass over one row; terminal rows are not selected. */
  function Step(op: Op, now: int, facts: Facts): Op {
    if Terminal(op.state) then op
    else
      var acked := Accepted(facts.stop);
      var lost := Lost(facts.stop) || (now >= op.stopAckDeadline && !acked);
      var next := WithFrames(WithCancel(op, now, facts), now, facts);
      if next.motion == StationaryConfirmed || next.frames.count >= 5 then Standing(next, now, acked)
      else Moving(next, now, Observe(op, now, facts).recent, acked, lost)
  }

  /** What the operator's request finds: no task, a task it can cancel, or one it cannot. */
  datatype Mission = NoTask | Cancellable | NotCancellable

  const LIMITS := Thresholds(1000, 0.02, 0.03)

  function Requested(mission: Mission, boot: Option<string>, t0: int, t1: int, t2: int): Op {
    Op(STOP_REQUESTED, WaitingAck,
      match mission { case NoTask => NOT_REQUIRED case Cancellable => WAITING_ACK case NotCancellable => UNAVAILABLE },
      Frames(0, None), t0 + 5_000_000,
      if mission == Cancellable then Some(t1 + 10_000_000) else None,
      t2 + 15_000_000, LIMITS, boot, None, None)
  }

  class StopOperation {
    var state: State
    var motion: Motion
    var cancel: MissionCancel
    var stationaryFrames: int
    var lastObservation: Option<int>
    const stopAckDeadline: int
    const cancelDeadline: Option<int>
    const verifyDeadline: int
    const limits: Thresholds
    const bootSnapshot: Option<string>
    var terminalAt: Option<int>
    var failure: Option<Reason>

    function Row(): Op
      reads this
    {
      Op(state, motion, cancel, Frames(stationaryFrames, lastObservation),
        stopAckDeadline, cancelDeadline, verifyDeadline, limits, bootSnapshot, terminalAt, failure)
    }

    /** stop_current_operation; the clock is read once per deadline. */
    constructor (mission: Mission, boot: Option<string>, t0: int, t1: int, t2: int)
      ensures Row() == Requested(mission, boot, t0, t1, t2)
    {
      state, motion := STOP_REQUESTED, WaitingAck;
      cancel := match mission
        case NoTask => NOT_REQUIRED
        case Cancellable => WAITING_ACK
        case NotCancellable => UNAVAILABLE;
      stationaryFrames, lastObservation := 0, None;
      stopAckDeadline := t0 + 5_000_000;
      cancelDeadline := if mission == Cancellable then Some(t1 + 10_000_000) else None;
      verifyDeadline := t2 + 15_000_000;
      limits, bootSnapshot, terminalAt, failure := LIMITS, boot, None, None;
    }

    /** _terminate_stop_operation, without the audit event. */
    method Terminate(now: int, newState: State, newMotion: Motion, reason: Option<Reason>)
      modifies this
      ensures Row() == Ended(old(Row()), now, newState, newMotion, reason)
    {
      state := newState;
      motion := newMotion;
      terminalAt := Some(now);
      if reason.Some? {
        failure := reason;
      }
    }

    /** The mission-cancel fact, independent of motion. */
    method UpdateCancel(now: int, facts: Facts)
      modifies this
      ensures Row() == WithCancel(old(Row()), now, facts)
    {
      if !CancelSettled(cancel) {
        if facts.taskCancelled {
          cancel := CANCELLED_CONFIRMED;
        } else if Accepted(facts.cancel) {
          cancel := ACK_ACCEPTED;
        }
        if cancel !in {CANCELLED_CONFIRMED, CANCEL_UNCONFIRMED, UNAVAILABLE}
           && cancelDeadline.Some? && now >= cancelDeadline.value
        {
          cancel := CANCEL_UNCONFIRMED;
          failure := Some(TASK_CANCEL_TIMEOUT);
        }
      }
    }

    /** The physical fact: count this read's observation unless already confirmed. */
    method UpdateFrames(now: int, facts: Facts) returns (recent: bool, standing: bool)
      modifies this
      ensures Row() == WithFrames(old(Row()), now, facts)
      ensures standing <==> Row().motion == StationaryConfirmed || Row().frames.count >= 5
      ensures motion != StationaryConfirmed ==> recent == Observe(old(Row()), now, facts).recent
    {
      if motion == StationaryConfirmed {
        return true, true;
      }
      var seen := StationaryObservation(facts.latest, now, limits);
      var frames := AdvanceStationaryFrames(
        seen, ObservationToken(facts.latest), Frames(stationaryFrames, lastObservation));
      stationaryFrames, lastObservation := frames.count, frames.last;
      return seen.recent, stationaryFrames >= 5;
    }

    method SettleStanding(now: int, acked: bool)
      modifies this
      ensures Row() == Standing(old(Row()), now, acked)
    {
      if cancel in {NOT_REQUIRED, CANCELLED_CONFIRMED} {
        if acked {
          Terminate(now, VEHICLE_STATIONARY_CONFIRMED, StationaryConfirmed, None);
        } else {
          Terminate(now, PARTIAL_UNCONFIRMED, StationaryConfirmed, Some(STOP_ACK_UNCONFIRMED));
        }
      } else if cancel in {UNAVAILABLE, CANCEL_UNCONFIRMED} {
        var reason := if failure.Some? then failure else Some(TASK_CANCEL_UNCONFIRMED);
        Terminate(now, PARTIAL_UNCONFIRMED, StationaryConfirmed, reason);
      } else {
        motion := StationaryConfirmed;
        state := STATIONARY_CONFIRMED_CANCEL_PENDING;
      }
    }

    method SettleMoving(now: int, recent: bool, acked: bool, lost: bool)
      modifies this
      ensures Row() == Moving(old(Row()), now, recent, acked, lost)
    {
      if !recent && (lost || now >= verifyDeadline) {
        Terminate(now, UNCONFIRMED, Unconfirmed, Some(TELEMETRY_STALE));
        return;
      }
      if now >= verifyDeadline {
        Terminate(now, UNCONFIRMED, Unconfirmed, Some(VELOCITY_NOT_ZERO));
        return;
      }
      if acked {
        motion := Verifying;
      } else if lost {
        motion := Unconfirmed;
      } else {
        motion := WaitingAck;
      }
      state := VERIFYING_STATIONARY;
    }

    /** The loop body of reconcile_stop_operations. */
    method Reconcile(now: int, facts: Facts)
      requires !Terminal(state)
      modifies this
      ensures Row() == Step(old(Row()), now, facts)
    {
      UpdateCancel(now, facts);
      var stopAckConfirmed := Accepted(facts.stop);
      var stopAckUnconfirmed := Lost(facts.stop) || (now >= stopAckDeadline && !stopAckConfirmed);
      var recent, physicallyStationary := UpdateFrames(now, facts);
      if physicallyStationary {
        SettleStanding(now, stopAckConfirmed);
      } else {
        SettleMoving(now, recent, stopAckConfirmed, stopAckUnconfirmed);
      }
    }
  }

  /** reconcile_stop_operations: every row not yet terminal takes one step, the others stay as they are. */
  method ReconcileStopOperations(rows: seq<StopOperation>, now: int, facts: seq<Facts>)
    requires |facts| == |rows|
    requires forall i, j :: 0 <= i < j < |rows| ==> rows[i] != rows[j]
    modifies rows
    ensures forall i :: 0 <= i < |rows| ==> rows[i].Row() == Step(old(rows[i].Row()), now, facts[i])
  {
    for i := 0 to |rows|
      invariant forall j :: 0 <= j < i ==> rows[j].Row() == Step(old(rows[j].Row()), now, facts[j])
      invariant forall j :: i <= j < |rows| ==> rows[j].Row() == old(rows[j].Row())
    {
      if !Terminal(rows[i].state) {
        rows[i].Reconcile(now, facts[i]);
      }
    }
  }
}
