/**
 Whole runs of a stop operation under any telemetry, ACK and task history.

 The verdicts are compared with definitions that mention only the history of
 passes, never the row: five new fresh stationary observations, a mission
 cancelled in time, and so on.
*/
module StopRuns {
  import opened Wrappers
  import opened StopTelemetry
  import opened StopHistory
  import opened StopOperations

  datatype Pass = Pass(now: int, facts: Facts)

  function Run(op: Op, passes: seq<Pass>): Op {
    if passes == [] then op
    else
      var n := |passes| - 1;
      Step(Run(op, passes[..n]), passes[n].now, passes[n].facts)
  }

  function LookOf(limits: Thresholds, p: Pass): Look {
    Look(StationaryObservation(p.facts.latest, p.now, limits), ObservationToken(p.facts.latest))
  }

  /** What the passes saw, judged with the thresholds of the operation. */
  function Looks(limits: Thresholds, passes: seq<Pass>): (s: seq<Look>)
    ensures |s| == |passes| && forall i :: 0 <= i < |s| ==> s[i] == LookOf(limits, passes[i])
  {
    seq(|passes|, i requires 0 <= i < |passes| => LookOf(limits, passes[i]))
  }

  lemma LooksPrefix(limits: Thresholds, passes: seq<Pass>, m: nat)
    requires m <= |passes|
    ensures Looks(limits, passes[..m]) == Looks(limits, passes)[..m]
  {
  }

  /** Five frames are on record. */
  ghost predicate StoodStill(op: Op, passes: seq<Pass>) {
    exists e :: FiveFrames(Looks(op.limits, passes), e)
  }

  // --- rows along a run --------------------------------------------------------------------

  /** As created by the operator's request, for the given mission. */
  ghost predicate Fresh0(op: Op, mission: Mission) {
    && op.state == STOP_REQUESTED && op.motion == WaitingAck && op.frames == StopTelemetry.Frames(0, None)
    && op.failure.None? && op.terminalAt.None?
    && match mission
       case NoTask => op.cancel == NOT_REQUIRED && op.cancelDeadline.None?
       case Cancellable => op.cancel == WAITING_ACK && op.cancelDeadline.Some?
       case NotCancellable => op.cancel == UNAVAILABLE && op.cancelDeadline.None?
  }

  lemma RequestsAreFresh(mission: Mission, boot: Option<string>, t0: int, t1: int, t2: int)
    ensures Fresh0(Requested(mission, boot, t0, t1, t2), mission)
  {
  }

  /** What every row of every run satisfies. */
  ghost predicate Consistent(op: Op) {
    && 0 <= op.frames.count <= 5
    && (op.frames.count == 5 <==> op.motion == StationaryConfirmed)
    && (op.state == VEHICLE_STATIONARY_CONFIRMED ==> op.motion == StationaryConfirmed && CancelFulfilled(op.cancel))
    && (op.state == PARTIAL_UNCONFIRMED ==> op.motion == StationaryConfirmed)
    && (op.state == STATIONARY_CONFIRMED_CANCEL_PENDING ==>
         op.motion == StationaryConfirmed && !CancelSettled(op.cancel))
    && (op.state == UNCONFIRMED ==> op.motion == Unconfirmed)
    && op.state != FAILED
    && (Terminal(op.state) <==> op.terminalAt.Some?)
    && (op.cancel == CANCEL_UNCONFIRMED ==> op.failure.Some?)
    && (!CancelSettled(op.cancel) ==> op.cancelDeadline.Some?)
  }

  lemma StepKeepsConsistent(op: Op, now: int, facts: Facts)
    requires Consistent(op)
    ensures Consistent(Step(op, now, facts))
    ensures op.motion == StationaryConfirmed ==> Step(op, now, facts).motion == StationaryConfirmed
    ensures Terminal(op.state) ==> Step(op, now, facts) == op
    ensures var next := Step(op, now, facts);
      && next.limits == op.limits && next.bootSnapshot == op.bootSnapshot
      && next.verifyDeadline == op.verifyDeadline && next.cancelDeadline == op.cancelDeadline
  {
  }

  /** Every row of a run is consistent, and the parameters fixed at the request never change. */
  lemma {:induction false} RunKeepsConsistent(op: Op, mission: Mission, passes: seq<Pass>)
    requires Fresh0(op, mission)
    ensures var r := Run(op, passes);
      && Consistent(r) && r.limits == op.limits && r.bootSnapshot == op.bootSnapshot
      && r.verifyDeadline == op.verifyDeadline && r.cancelDeadline == op.cancelDeadline
  {
    if passes != [] {
      var n := |passes| - 1;
      RunKeepsConsistent(op, mission, passes[..n]);
      StepKeepsConsistent(Run(op, passes[..n]), passes[n].now, passes[n].facts);
    }
  }

  /**
   Confirmation is never taken back, and a terminal row never changes again,
   whatever is read later.
  */
  lemma {:induction false} RunsAreMonotone(op: Op, mission: Mission, passes: seq<Pass>, k: nat)
    requires Fresh0(op, mission) && k <= |passes|
    ensures Run(op, passes[..k]).motion == StationaryConfirmed ==> Run(op, passes).motion == StationaryConfirmed
    ensures Terminal(Run(op, passes[..k]).state) ==> Run(op, passes) == Run(op, passes[..k])
    decreases |passes|
  {
    var n := |passes| - 1;
    if k == |passes| {
      assert passes[..k] == passes;
    } else {
      assert passes[..n][..k] == passes[..k];
      RunsAreMonotone(op, mission, passes[..n], k);
      RunKeepsConsistent(op, mission, passes[..n]);
      StepKeepsConsistent(Run(op, passes[..n]), passes[n].now, passes[n].facts);
    }
  }

  /** No pass before the last one ended the operation. */
  ghost predicate Live(op: Op, passes: seq<Pass>) {
    forall k :: 0 <= k < |passes| ==> !Terminal(Run(op, passes[..k]).state)
  }

  lemma LivePrefix(op: Op, passes: seq<Pass>, m: nat)
    requires Live(op, passes) && m <= |passes|
    ensures Live(op, passes[..m])
  {
    forall k | 0 <= k < m
      ensures !Terminal(Run(op, passes[..m][..k]).state)
    {
      assert passes[..m][..k] == passes[..k];
    }
  }

  ghost predicate ConfirmedBefore(op: Op, passes: seq<Pass>) {
    exists m :: 0 <= m < |passes| && Run(op, passes[..m]).motion == StationaryConfirmed
  }

  /** The counters of the row are those of the history. */
  ghost predicate Tracks(op: Op, passes: seq<Pass>) {
    var looks := Looks(op.limits, passes);
    Run(op, passes).frames == StopTelemetry.Frames(|Streak(looks)|, Newest(looks))
  }

  /** Until confirmation, the row keeps track of its history. */
  lemma {:induction false} FramesTrackHistory(op: Op, mission: Mission, passes: seq<Pass>)
    requires Fresh0(op, mission) && Live(op, passes)
    ensures Tracks(op, passes) || ConfirmedBefore(op, passes)
  {
    if passes != [] {
      var n := |passes| - 1;
      LivePrefix(op, passes, n);
      FramesTrackHistory(op, mission, passes[..n]);
      if Run(op, passes[..n]).motion == StationaryConfirmed {
        assert ConfirmedBefore(op, passes);
      } else if ConfirmedBefore(op, passes[..n]) {
        var m :| 0 <= m < n && Run(op, passes[..n][..m]).motion == StationaryConfirmed;
        assert passes[..n][..m] == passes[..m];
      } else {
        OnePassTracks(op, mission, passes);
      }
    }
  }

  lemma OnePassTracks(op: Op, mission: Mission, passes: seq<Pass>)
    requires Fresh0(op, mission) && Live(op, passes) && passes != []
    requires Tracks(op, passes[..|passes| - 1])
    requires Run(op, passes[..|passes| - 1]).motion != StationaryConfirmed
    ensures Tracks(op, passes)
  {
    var n := |passes| - 1;
    var before := Run(op, passes[..n]);
    RunKeepsConsistent(op, mission, passes[..n]);
    assert !Terminal(before.state);
    LooksPrefix(op.limits, passes, n);
    CountOneLook(Looks(op.limits, passes));
    StepCounts(before, passes[n].now, passes[n].facts);
  }

  lemma StepCounts(op: Op, now: int, facts: Facts)
    requires !Terminal(op.state) && op.motion != StationaryConfirmed
    ensures Step(op, now, facts).frames
         == AdvanceStationaryFrames(Observe(op, now, facts), ObservationToken(facts.latest), op.frames)
  {
  }

  /** The row's counting rule, applied to the counters of a history, gives those of the longer one. */
  lemma CountOneLook(looks: seq<Look>)
    requires looks != []
    ensures var n := |looks| - 1;
      AdvanceStationaryFrames(looks[n].o, looks[n].token,
        StopTelemetry.Frames(|Streak(looks[..n])|, Newest(looks[..n])))
      == StopTelemetry.Frames(|Streak(looks)|, Newest(looks))
  {
    var n := |looks| - 1;
    if Telling(looks[n]) {
      NewestIsGreatest(looks[..n], looks[n].token);
      assert NewAt(looks, n) <==> Newer(looks[n].token, Newest(looks[..n]));
    }
  }

  /**
   The frame rule, both ways. While the operation was open, it is confirmed
   stationary exactly when the history holds five frames. Reading one observation
   again, in any number of passes, changes neither side.
  */
  lemma ConfirmedExactly(op: Op, mission: Mission, passes: seq<Pass>)
    requires Fresh0(op, mission) && Live(op, passes)
    ensures Run(op, passes).motion == StationaryConfirmed <==> StoodStill(op, passes)
  {
    if Run(op, passes).motion == StationaryConfirmed {
      ConfirmedHasFrames(op, mission, passes);
    }
    if StoodStill(op, passes) {
      var e :| FiveFrames(Looks(op.limits, passes), e);
      FramesConfirm(op, mission, passes, e);
    }
  }

  lemma FramesConfirm(op: Op, mission: Mission, passes: seq<Pass>, e: seq<nat>)
    requires Fresh0(op, mission) && Live(op, passes) && FiveFrames(Looks(op.limits, passes), e)
    ensures Run(op, passes).motion == StationaryConfirmed
  {
    var m := e[4] + 1;
    FifthFrameConfirms(op, mission, passes, e);
    assert Run(op, passes[..m]).motion == StationaryConfirmed;
    RunsAreMonotone(op, mission, passes, m);
  }

  lemma FifthFrameConfirms(op: Op, mission: Mission, passes: seq<Pass>, e: seq<nat>)
    requires Fresh0(op, mission) && Live(op, passes) && FiveFrames(Looks(op.limits, passes), e)
    ensures Run(op, passes[..e[4] + 1]).motion == StationaryConfirmed
  {
    var m := e[4] + 1;
    StreakReaches(Looks(op.limits, passes), e, 4);
    LooksPrefix(op.limits, passes, m);
    LivePrefix(op, passes, m);
    var first := passes[..m];
    FramesTrackHistory(op, mission, first);
    RunKeepsConsistent(op, mission, first);
    if ConfirmedBefore(op, first) {
      var k :| 0 <= k < m && Run(op, first[..k]).motion == StationaryConfirmed;
      RunsAreMonotone(op, mission, first, k);
    }
  }

  /** In any run at all, a confirmed operation has its five frames on record. */
  lemma {:induction false} ConfirmedHasFrames(op: Op, mission: Mission, passes: seq<Pass>)
    requires Fresh0(op, mission) && Run(op, passes).motion == StationaryConfirmed
    ensures StoodStill(op, passes)
  {
    var n := |passes| - 1;
    if Run(op, passes[..n]).motion == StationaryConfirmed {
      ConfirmedHasFrames(op, mission, passes[..n]);
      var e :| FiveFrames(Looks(op.limits, passes[..n]), e);
      LooksPrefix(op.limits, passes, n);
      FiveFramesPrefix(Looks(op.limits, passes), n, e);
    } else {
      JustConfirmed(op, mission, passes);
    }
  }

  lemma {:induction false} JustConfirmed(op: Op, mission: Mission, passes: seq<Pass>)
    requires Fresh0(op, mission) && passes != []
    requires Run(op, passes[..|passes| - 1]).motion != StationaryConfirmed
    requires Run(op, passes).motion == StationaryConfirmed
    ensures StoodStill(op, passes)
  {
    var n := |passes| - 1;
    RunKeepsConsistent(op, mission, passes);
    UnconfirmedWasLive(op, mission, passes);
    FramesTrackHistory(op, mission, passes);
    if ConfirmedBefore(op, passes) {
      var m :| 0 <= m < |passes| && Run(op, passes[..m]).motion == StationaryConfirmed;
      assert passes[..n][..m] == passes[..m];
      RunsAreMonotone(op, mission, passes[..n], m);
    }
    var looks := Looks(op.limits, passes);
    var s := Streak(looks);
    StreakIsFrames(looks);
    forall j: nat | s[0] < j < s[4]
      ensures QuietAt(looks, s, j)
    {
      StreakIsQuiet(looks, j);
    }
    assert FiveFrames(looks, s);
  }

  /** A run that becomes confirmed in its last pass was open before it. */
  lemma {:induction false} UnconfirmedWasLive(op: Op, mission: Mission, passes: seq<Pass>)
    requires Fresh0(op, mission) && passes != []
    requires Run(op, passes[..|passes| - 1]).motion != StationaryConfirmed
    requires Run(op, passes).motion == StationaryConfirmed
    ensures Live(op, passes)
  {
    var n := |passes| - 1;
    RunKeepsConsistent(op, mission, passes[..n]);
    forall k | 0 <= k < |passes|
      ensures !Terminal(Run(op, passes[..k]).state)
    {
      assert passes[..n][..k] == passes[..k];
      RunsAreMonotone(op, mission, passes[..n], k);
    }
  }

  // --- the mission cancel ------------------------------------------------------------------

  /** The task was read CANCELLED, and no earlier pass was already past the cancel deadline. */
  ghost predicate CancelledInTime(deadline: int, passes: seq<Pass>) {
    exists j :: 0 <= j < |passes| && passes[j].facts.taskCancelled
      && forall i :: 0 <= i < j ==> passes[i].now < deadline
  }

  /** Some pass reached the cancel deadline without the task having been read CANCELLED. */
  ghost predicate CancelTimedOut(deadline: int, passes: seq<Pass>) {
    exists j :: 0 <= j < |passes| && passes[j].now >= deadline
      && forall i :: 0 <= i <= j ==> !passes[i].facts.taskCancelled
  }

  ghost predicate MissionClosed(op: Op, mission: Mission, passes: seq<Pass>) {
    || mission == NoTask
    || (mission == Cancellable && op.cancelDeadline.Some? && CancelledInTime(op.cancelDeadline.value, passes))
  }

  ghost predicate MissionLost(op: Op, mission: Mission, passes: seq<Pass>) {
    mission == NotCancellable
    || (mission == Cancellable && op.cancelDeadline.Some? && CancelTimedOut(op.cancelDeadline.value, passes))
  }

  datatype CancelVerdict = Open | InTime | TooLate

  /** The same history folded pass by pass. */
  function CancelFold(deadline: int, passes: seq<Pass>): CancelVerdict {
    if passes == [] then Open
    else
      var n := |passes| - 1;
      var before := CancelFold(deadline, passes[..n]);
      if before != Open then before
      else if passes[n].facts.taskCancelled then InTime
      else if passes[n].now >= deadline then TooLate
      else Open
  }

  /** The fold decides at its first decisive pass. */
  lemma {:induction false} FoldDecides(deadline: int, passes: seq<Pass>)
    ensures CancelFold(deadline, passes) == Open ==>
      forall i :: 0 <= i < |passes| ==> !passes[i].facts.taskCancelled && passes[i].now < deadline
    ensures CancelFold(deadline, passes) == InTime ==> CancelledInTime(deadline, passes)
    ensures CancelFold(deadline, passes) == TooLate ==> CancelTimedOut(deadline, passes)
  {
    if passes != [] {
      var n := |passes| - 1;
      FoldDecides(deadline, passes[..n]);
      if CancelledInTime(deadline, passes[..n]) {
        var j :| 0 <= j < n && passes[..n][j].facts.taskCancelled
          && forall i :: 0 <= i < j ==> passes[..n][i].now < deadline;
        assert forall i :: 0 <= i < j ==> passes[i] == passes[..n][i];
        assert passes[j].facts.taskCancelled;
      }
      if CancelTimedOut(deadline, passes[..n]) {
        var j :| 0 <= j < n && passes[..n][j].now >= deadline
          && forall i :: 0 <= i <= j ==> !passes[..n][i].facts.taskCancelled;
        assert forall i :: 0 <= i <= j ==> passes[i] == passes[..n][i];
        assert passes[j].now >= deadline;
      }
    }
  }

  /** Exactly one of three: cancelled in time, timed out, or neither so far. */
  lemma CancelHistory(deadline: int, passes: seq<Pass>)
    ensures CancelledInTime(deadline, passes) <==> CancelFold(deadline, passes) == InTime
    ensures CancelTimedOut(deadline, passes) <==> CancelFold(deadline, passes) == TooLate
  {
    FoldDecides(deadline, passes);
    assert !(CancelledInTime(deadline, passes) && CancelTimedOut(deadline, passes));
  }

  /** The cancel column of a run over a cancellable mission follows the fold. */
  lemma {:induction false} CancelTracksFold(op: Op, passes: seq<Pass>)
    requires Fresh0(op, Cancellable) && Live(op, passes)
    ensures var c := Run(op, passes).cancel;
      var v := CancelFold(op.cancelDeadline.value, passes);
      && (c == CANCELLED_CONFIRMED <==> v == InTime)
      && (c == CANCEL_UNCONFIRMED <==> v == TooLate)
      && (c in {WAITING_ACK, ACK_ACCEPTED} <==> v == Open)
  {
    if passes != [] {
      var n := |passes| - 1;
      LivePrefix(op, passes, n);
      CancelTracksFold(op, passes[..n]);
      RunKeepsConsistent(op, Cancellable, passes[..n]);
      var before := Run(op, passes[..n]);
      assert !Terminal(before.state);
      StepCancels(before, passes[n].now, passes[n].facts);
    }
  }

  lemma StepCancels(op: Op, now: int, facts: Facts)
    requires !Terminal(op.state)
    ensures Step(op, now, facts).cancel == CancelAfter(op, now, facts)
  {
  }

  /** The cancel column of an open row is the verdict of the history. */
  lemma CancelTracksHistory(op: Op, mission: Mission, passes: seq<Pass>)
    requires Fresh0(op, mission) && Live(op, passes)
    ensures CancelFulfilled(Run(op, passes).cancel) <==> MissionClosed(op, mission, passes)
    ensures Run(op, passes).cancel in {CANCEL_UNCONFIRMED, UNAVAILABLE} <==> MissionLost(op, mission, passes)
  {
    if mission == Cancellable {
      CancelHistory(op.cancelDeadline.value, passes);
      CancelTracksFold(op, passes);
    } else {
      SettledStays(op, passes);
    }
  }

  lemma {:induction false} SettledStays(op: Op, passes: seq<Pass>)
    requires CancelSettled(op.cancel)
    ensures Run(op, passes).cancel == op.cancel
  {
    if passes != [] {
      SettledStays(op, passes[..|passes| - 1]);
    }
  }

  // --- verdicts ----------------------------------------------------------------------------

  /** The stop ACK counts as lost: reported so, or overdue without acceptance. */
  predicate AckLost(op: Op, p: Pass) {
    Lost(p.facts.stop) || (p.now >= op.stopAckDeadline && !Accepted(p.facts.stop))
  }

  /** The state one pass leaves, from the facts the pass leaves. */
  lemma VerdictOfStep(op: Op, now: int, facts: Facts)
    requires Consistent(op) && !Terminal(op.state)
    ensures var next := Step(op, now, facts);
      var still, closed := next.motion == StationaryConfirmed, CancelFulfilled(next.cancel);
      var lost := next.cancel in {CANCEL_UNCONFIRMED, UNAVAILABLE};
      var late := now >= op.verifyDeadline || (!Observe(op, now, facts).recent && AckLost(op, Pass(now, facts)));
      next.state ==
        if still && closed && Accepted(facts.stop) then VEHICLE_STATIONARY_CONFIRMED
        else if still && (closed || lost) then PARTIAL_UNCONFIRMED
        else if still then STATIONARY_CONFIRMED_CANCEL_PENDING
        else if late then UNCONFIRMED
        else VERIFYING_STATIONARY
  {
  }

  /**
   The verdict table. For an operation still open before its last pass, the state
   after that pass is decided by the history alone.
  */
  lemma OutcomeTable(op: Op, mission: Mission, passes: seq<Pass>)
    requires Fresh0(op, mission) && Live(op, passes) && passes != []
    ensures var last := passes[|passes| - 1];
      var still, closed := StoodStill(op, passes), MissionClosed(op, mission, passes);
      var lost := MissionLost(op, mission, passes);
      var late := last.now >= op.verifyDeadline || (!LookOf(op.limits, last).o.recent && AckLost(op, last));
      Run(op, passes).state ==
        if still && closed && Accepted(last.facts.stop) then VEHICLE_STATIONARY_CONFIRMED
        else if still && (closed || lost) then PARTIAL_UNCONFIRMED
        else if still then STATIONARY_CONFIRMED_CANCEL_PENDING
        else if late then UNCONFIRMED
        else VERIFYING_STATIONARY
  {
    var n := |passes| - 1;
    var before := Run(op, passes[..n]);
    assert !Terminal(before.state);
    ConfirmedExactly(op, mission, passes);
    CancelTracksHistory(op, mission, passes);
    RunKeepsConsistent(op, mission, passes[..n]);
    StopDeadlineFixed(op, passes[..n]);
    VerdictOfStep(before, passes[n].now, passes[n].facts);
  }

  lemma {:induction false} StopDeadlineFixed(op: Op, passes: seq<Pass>)
    ensures Run(op, passes).stopAckDeadline == op.stopAckDeadline
  {
    if passes != [] {
      StopDeadlineFixed(op, passes[..|passes| - 1]);
    }
  }

  /** The later of the two deadlines that can keep an operation open. */
  function LastDeadline(op: Op): int {
    if op.cancelDeadline.Some? && op.cancelDeadline.value > op.verifyDeadline
    then op.cancelDeadline.value else op.verifyDeadline
  }

  /** A stop operation always ends: any pass at or past its last deadline leaves it terminal. */
  lemma StopAlwaysEnds(op: Op, mission: Mission, passes: seq<Pass>, i: nat)
    requires Fresh0(op, mission) && i < |passes| && passes[i].now >= LastDeadline(op)
    ensures Terminal(Run(op, passes[..i + 1]).state)
    ensures Run(op, passes) == Run(op, passes[..i + 1])
  {
    var upto := passes[..i + 1];
    assert upto[..i] == passes[..i];
    RunKeepsConsistent(op, mission, passes[..i]);
    assert Run(op, upto) == Step(Run(op, passes[..i]), passes[i].now, passes[i].facts);
    RunsAreMonotone(op, mission, passes, i + 1);
  }

  /**
   A vehicle-stationary verdict is truthful in any run: some pass read the stop
   command accepted, five frames are on record, and a cancelled mission was read
   as cancelled.
  */
  lemma {:induction false} VerdictIsTruthful(op: Op, mission: Mission, passes: seq<Pass>)
    requires Fresh0(op, mission) && Run(op, passes).state == VEHICLE_STATIONARY_CONFIRMED
    ensures StoodStill(op, passes)
    ensures exists i :: 0 <= i < |passes| && Accepted(passes[i].facts.stop)
    ensures mission != NotCancellable
    ensures mission == Cancellable ==> exists i :: 0 <= i < |passes| && passes[i].facts.taskCancelled
  {
    var n := |passes| - 1;
    RunKeepsConsistent(op, mission, passes);
    ConfirmedHasFrames(op, mission, passes);
    if Terminal(Run(op, passes[..n]).state) {
      VerdictIsTruthful(op, mission, passes[..n]);
      var i :| 0 <= i < n && Accepted(passes[..n][i].facts.stop);
      assert Accepted(passes[i].facts.stop);
      if mission == Cancellable {
        var j :| 0 <= j < n && passes[..n][j].facts.taskCancelled;
        assert passes[j].facts.taskCancelled;
      }
    } else {
      OpenBeforeMeansLive(op, mission, passes);
      OutcomeTable(op, mission, passes);
    }
  }

  lemma {:induction false} OpenBeforeMeansLive(op: Op, mission: Mission, passes: seq<Pass>)
    requires Fresh0(op, mission) && passes != [] && !Terminal(Run(op, passes[..|passes| - 1]).state)
    ensures Live(op, passes)
  {
    var n := |passes| - 1;
    forall k | 0 <= k < |passes|
      ensures !Terminal(Run(op, passes[..k]).state)
    {
      assert passes[..n][..k] == passes[..k];
      RunsAreMonotone(op, mission, passes[..n], k);
    }
  }
}
