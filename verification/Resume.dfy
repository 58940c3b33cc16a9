/**
 Cancelling and resuming a cruise, any number of times. The cursor counts waypoints of
 the leg that was interrupted, and is then applied to the stored trajectory.
*/
module Resumes {
  import opened Wrappers
  import opened Corridor
  import opened Routes
  import opened MockRobots

  // --- the cursor on the task row ----------------------------------------------------------

  /** live_route_cursor */
  datatype Cursor = Cursor(waypointIndex: Option<nat>, target: Option<nat>)

  /** A status with either index replaces the whole cursor. */
  function Capture(cursor: Option<Cursor>, s: Status): Option<Cursor> {
    if s.waypointIndex.Some? || s.target.Some? then Some(Cursor(s.waypointIndex, s.target)) else cursor
  }

  function CursorAfter(heard: seq<Status>): Option<Cursor> {
    if heard == [] then None else Capture(CursorAfter(heard[..|heard| - 1]), heard[|heard| - 1])
  }

  /** The index a resume starts from: the target if there is one, else the last waypoint. */
  function ResumeIndex(cursor: Option<Cursor>): Option<nat> {
    if cursor.None? then None
    else if cursor.value.target.Some? then cursor.value.target
    else cursor.value.waypointIndex
  }

  class TaskRow {
    var cursor: Option<Cursor>
    ghost var heard: seq<Status>

    ghost predicate Valid()
      reads this
    {
      cursor == CursorAfter(heard)
    }

    constructor ()
      ensures Valid() && heard == []
    {
      cursor, heard := None, [];
    }

    method HandleTaskStatus(s: Status)
      requires Valid()
      modifies this
      ensures Valid() && heard == old(heard) + [s]
    {
      if s.waypointIndex.Some? || s.target.Some? {
        cursor := Some(Cursor(s.waypointIndex, s.target));
      }
      heard := heard + [s];
    }
  }

  /** What a drive that was halted and cancelled has said in all. */
  function SaidInAll(route: seq<Waypoint>, halt: Halt): seq<Status>
    requires Reached(halt) <= |route|
  {
    Said(route, Reached(halt)) + [CancelStatus(ExecutionAt(route, Reached(halt), Some(halt.at)))]
  }

  /** A robot that drives a leg, is halted, and is then told to cancel, publishes exactly that. */
  method DriveAndCancel(robot: MockRobot, route: seq<Waypoint>, halt: Halt)
    requires CanHalt(route, halt)
    modifies robot
    ensures robot.published == old(robot.published) + SaidInAll(route, halt)
    ensures !robot.active && robot.execution.None?
  {
    robot.SimulateTask(route, false, Some(halt));
    robot.CancelTask();
  }

  /**
   Whatever part of it the platform hears, in whatever order and how often, the recorded
   index is never beyond the waypoint the robot was heading for; if the cancelled status
   comes last, it is exactly that one.
  */
  lemma {:induction false} RecordedWithinTarget(route: seq<Waypoint>, halt: Halt, heard: seq<Status>)
    requires CanHalt(route, halt)
    requires forall j :: 0 <= j < |heard| ==> heard[j] in SaidInAll(route, halt)
    ensures var r := ResumeIndex(CursorAfter(heard)); r.Some? ==> r.value <= halt.at
    ensures heard != [] && heard[|heard| - 1].state == Cancelled ==> ResumeIndex(CursorAfter(heard)) == Some(halt.at)
  {
    if heard != [] {
      var n := |heard| - 1;
      RecordedWithinTarget(route, halt, heard[..n]);
      CursorsWithin(route, Reached(halt), halt.at);
      SaidStates(route, Reached(halt));
      var j :| 0 <= j < |SaidInAll(route, halt)| && SaidInAll(route, halt)[j] == heard[n];
      if j < |Said(route, Reached(halt))| {
        assert heard[n] == Said(route, Reached(halt))[j];
      }
    }
  }

  lemma {:induction false} SaidStates(route: seq<Waypoint>, n: nat)
    requires n <= |route|
    ensures forall j :: 0 <= j < |Said(route, n)| ==> Said(route, n)[j].state != Cancelled
  {
    forall j | 0 < j < |Said(route, n)|
      ensures Said(route, n)[j].state == Inspecting
    {
      ReportsCount(route, n, j - 1);
    }
  }

  // --- the resumed leg ---------------------------------------------------------------------

  function Min(a: int, b: int): int { if a < b then a else b }

  /** build_resumed_cruise_waypoints, with the cursor given */
  function Resumed(pose: Point, full: seq<Waypoint>, cursor: nat): seq<Waypoint> {
    if full == [] then [Transit(pose), WaitingArea()]
    else
      var remaining := full[Min(cursor, |full| - 1)..];
      if remaining[0].pos == pose then remaining else [Transit(pose)] + remaining
  }

  /**
   A resumed leg starts where the vehicle stands, passing through, and then is the trajectory
   from the recorded waypoint on, or from its last one if the record is beyond it.
  */
  lemma {:induction false} ResumedLegIs(pose: Point, full: seq<Waypoint>, cursor: nat)
    ensures var leg := Resumed(pose, full, cursor);
      && leg != [] && leg[0].pos == pose
      && (full == [] ==> |leg| == 2 && PassesThrough(leg[0], pose) && Waits(leg[1]))
      && (full != [] ==>
           var from := if cursor < |full| then cursor else |full| - 1;
           if full[from].pos == pose then leg == full[from..]
           else PassesThrough(leg[0], pose) && leg[1..] == full[from..])
  {
  }

  /** One interruption: where the leg was halted, the index on record, where the vehicle stands when it resumes. */
  datatype Stop = Stop(halt: Halt, recorded: nat, pose: Point)

  /** The drives of one mission: the whole trajectory, then one resumed leg after each stop. */
  function LegRoute(full: seq<Waypoint>, stops: seq<Stop>, k: nat): seq<Waypoint>
    requires k <= |stops|
  {
    if k == 0 then full else Resumed(stops[k - 1].pose, full, stops[k - 1].recorded)
  }

  /** Every halt lies on its leg, and the index on record is not beyond it. */
  ghost predicate Feasible(full: seq<Waypoint>, stops: seq<Stop>) {
    forall k :: 0 <= k < |stops| ==> FeasibleAt(full, stops, k)
  }

  ghost predicate FeasibleAt(full: seq<Waypoint>, stops: seq<Stop>, k: nat)
    requires k < |stops|
  {
    CanHalt(LegRoute(full, stops, k), stops[k].halt) && stops[k].recorded <= stops[k].halt.at
  }

  /** How much of leg k was driven: up to its halt, or all of the last one. */
  function DrivenIn(full: seq<Waypoint>, stops: seq<Stop>, k: nat): nat
    requires k <= |stops|
  {
    if k < |stops| then Reached(stops[k].halt) else |LegRoute(full, stops, k)|
  }

  /** Where in the trajectory leg k begins. */
  function LegStart(full: seq<Waypoint>, stops: seq<Stop>, k: nat): int
    requires k <= |stops|
  {
    if k == 0 || full == [] then 0 else Min(stops[k - 1].recorded, |full| - 1)
  }

  /** 1 if leg k has the vehicle's own place in front. */
  function HeadSize(full: seq<Waypoint>, stops: seq<Stop>, k: nat): nat
    requires k <= |stops|
  {
    if k == 0 || (full != [] && full[LegStart(full, stops, k)].pos == stops[k - 1].pose) then 0 else 1
  }

  /** Leg k reached waypoint i of the trajectory. */
  predicate VisitedIn(full: seq<Waypoint>, stops: seq<Stop>, k: nat, i: nat) {
    && k <= |stops| && i < |full| && LegStart(full, stops, k) <= i
    && i - LegStart(full, stops, k) + HeadSize(full, stops, k) < DrivenIn(full, stops, k)
  }

  /** A leg is its head, if any, and the trajectory from its start on. */
  lemma LegShape(full: seq<Waypoint>, stops: seq<Stop>, k: nat)
    requires k <= |stops| && full != []
    ensures 0 <= LegStart(full, stops, k) < |full|
    ensures var leg, head := LegRoute(full, stops, k), HeadSize(full, stops, k);
      head <= |leg| && leg[head..] == full[LegStart(full, stops, k)..]
  {
  }

  lemma DrivenOnLeg(full: seq<Waypoint>, stops: seq<Stop>, k: nat)
    requires Feasible(full, stops) && k <= |stops|
    ensures DrivenIn(full, stops, k) <= |LegRoute(full, stops, k)|
  {
    if k < |stops| {
      assert FeasibleAt(full, stops, k);
    }
  }

  /** VisitedIn means what it says: that waypoint stands on the leg, in the part that was driven. */
  lemma VisitedIsOnLeg(full: seq<Waypoint>, stops: seq<Stop>, k: nat, i: nat)
    requires Feasible(full, stops) && VisitedIn(full, stops, k, i)
    ensures var p := i - LegStart(full, stops, k) + HeadSize(full, stops, k);
      0 <= p < DrivenIn(full, stops, k) <= |LegRoute(full, stops, k)| && LegRoute(full, stops, k)[p] == full[i]
  {
    LegShape(full, stops, k);
    DrivenOnLeg(full, stops, k);
    var leg, head, start := LegRoute(full, stops, k), HeadSize(full, stops, k), LegStart(full, stops, k);
    assert leg[head..][i - start] == full[start..][i - start];
  }

  ghost predicate Visited(full: seq<Waypoint>, stops: seq<Stop>, i: nat) {
    exists k: nat :: VisitedIn(full, stops, k, i)
  }

  ghost predicate Covered(full: seq<Waypoint>, stops: seq<Stop>) {
    forall i: nat :: i < |full| ==> Visited(full, stops, i)
  }

  /** The guard: some progress is on record, or the vehicle stands on the first waypoint. */
  predicate SafeToResume(full: seq<Waypoint>, s: Stop) {
    s.recorded >= 1 || (full != [] && full[0].pos == s.pose)
  }

  /** What lies between the starts of two consecutive legs was visited in the first of them. */
  lemma VisitedOnTheWay(full: seq<Waypoint>, stops: seq<Stop>, k: nat, i: nat)
    requires full != [] && k < |stops| && Feasible(full, stops)
    requires k > 0 ==> SafeToResume(full, stops[k - 1])
    requires LegStart(full, stops, k) <= i < LegStart(full, stops, k + 1)
    ensures Visited(full, stops, i)
  {
    assert FeasibleAt(full, stops, k);
    assert VisitedIn(full, stops, k, i);
  }

  /** Before leg k begins, everything before its start has been visited; the stop just before it may be unsafe. */
  lemma {:induction false} NothingBehind(full: seq<Waypoint>, stops: seq<Stop>, k: nat, i: nat)
    requires Feasible(full, stops) && k <= |stops| && full != []
    requires forall m :: 0 <= m < k - 1 ==> SafeToResume(full, stops[m])
    requires i < LegStart(full, stops, k)
    ensures Visited(full, stops, i)
  {
    if i < LegStart(full, stops, k - 1) {
      NothingBehind(full, stops, k - 1, i);
    } else {
      VisitedOnTheWay(full, stops, k - 1, i);
    }
  }

  /** Repeated cancel and resume never skips a waypoint, when every resume but the last is safe. */
  lemma NeverSkips(full: seq<Waypoint>, stops: seq<Stop>)
    requires Feasible(full, stops)
    requires forall m :: 0 <= m < |stops| - 1 ==> SafeToResume(full, stops[m])
    ensures Covered(full, stops)
  {
    var last := |stops|;
    forall i: nat | i < |full|
      ensures Visited(full, stops, i)
    {
      LegShape(full, stops, last);
      if i < LegStart(full, stops, last) {
        NothingBehind(full, stops, last, i);
      } else {
        assert VisitedIn(full, stops, last, i);
      }
    }
  }

  /** Whatever came before, the leg after the last stop ends at the last waypoint. */
  lemma LastIsVisited(full: seq<Waypoint>, stops: seq<Stop>)
    requires full != []
    ensures Visited(full, stops, |full| - 1)
  {
    LegShape(full, stops, |stops|);
    assert VisitedIn(full, stops, |stops|, |full| - 1);
  }

  // --- where it does skip ------------------------------------------------------------------

  /** Some leg that has ended reached waypoint i. */
  ghost predicate VisitedSoFar(full: seq<Waypoint>, stops: seq<Stop>, i: nat) {
    exists k: nat :: k < |stops| && VisitedIn(full, stops, k, i)
  }

  /** What a leg reached does not depend on the stops after it. */
  lemma LegIsPast(full: seq<Waypoint>, stops: seq<Stop>, later: seq<Stop>, k: nat, i: nat)
    requires k < |stops|
    ensures VisitedIn(full, stops + later, k, i) == VisitedIn(full, stops, k, i)
  {
    assert (stops + later)[k] == stops[k];
    assert k > 0 ==> (stops + later)[k - 1] == stops[k - 1];
  }

  /** A next stop that was recorded on the way to waypoint i, counting the leg's own head as the first. */
  function Miscounted(i: nat, pose: Point): Stop { Stop(Halt(i + 1, false), i + 1, pose) }

  /**
   After an unsafe resume the leg counts from its own head. Interrupted once more on the way
   to waypoint i, it records i + 1; if waypoint i was not visited before, it never is.
   So any waypoint but the last can be lost.
  */
  lemma WaypointLost(full: seq<Waypoint>, done: seq<Stop>, s: Stop, i: nat, pose: Point)
    requires Feasible(full, done + [s]) && !SafeToResume(full, s)
    requires i < |full| - 1 && !VisitedSoFar(full, done + [s], i)
    ensures Feasible(full, done + [s] + [Miscounted(i, pose)])
    ensures !Visited(full, done + [s] + [Miscounted(i, pose)], i)
  {
    var before, n := done + [s], |done| + 1;
    var stops := before + [Miscounted(i, pose)];
    assert stops[n - 1] == s && stops[n] == Miscounted(i, pose);
    assert LegRoute(full, stops, n) == [Transit(s.pose)] + full[0..];
    forall k | 0 <= k < |stops|
      ensures FeasibleAt(full, stops, k)
    {
      if k < n {
        assert FeasibleAt(full, before, k);
        assert stops[k] == before[k] && (k > 0 ==> stops[k - 1] == before[k - 1]);
      }
    }
    forall k: nat
      ensures !VisitedIn(full, stops, k, i)
    {
      if k < n {
        LegIsPast(full, before, [Miscounted(i, pose)], k, i);
      } else if k == n {
        assert HeadSize(full, stops, n) == 1 && DrivenIn(full, stops, n) == i + 1;
      }
    }
  }

  /** Two stops lose any waypoint but the last: one before the first waypoint, resumed elsewhere, and one miscounted. */
  lemma AnyWaypointLost(full: seq<Waypoint>, i: nat, pose: Point, later: Point)
    requires i < |full| - 1 && full[0].pos != pose
    ensures var stops := [Stop(Halt(0, false), 0, pose), Miscounted(i, later)];
      Feasible(full, stops) && !Visited(full, stops, i)
  {
    var s := Stop(Halt(0, false), 0, pose);
    assert [] + [s] == [s];
    assert FeasibleAt(full, [s], 0);
    WaypointLost(full, [], s, i, later);
    assert [] + [s] + [Miscounted(i, later)] == [s, Miscounted(i, later)];
  }

  /** Nothing can be lost any more: whatever stops follow, as long as they are safe, every waypoint gets visited. */
  ghost predicate NeverLoses(full: seq<Waypoint>, stops: seq<Stop>) {
    forall later: seq<Stop> ::
      Feasible(full, stops + later) && (forall m :: 0 <= m < |later| - 1 ==> SafeToResume(full, later[m]))
      ==> Covered(full, stops + later)
  }

  /**
   Exactly when a stop, after any number of safe ones, can never lead to a skipped waypoint,
   however often the mission is interrupted and resumed later: when it is safe itself, or the
   legs up to it have visited every waypoint but the last.
  */
  lemma ResumeExactly(full: seq<Waypoint>, done: seq<Stop>, s: Stop)
    requires Feasible(full, done + [s])
    requires forall m :: 0 <= m < |done| ==> SafeToResume(full, done[m])
    ensures NeverLoses(full, done + [s])
      <==> (SafeToResume(full, s) || forall i: nat :: i < |full| - 1 ==> VisitedSoFar(full, done + [s], i))
  {
    if SafeToResume(full, s) {
      forall later: seq<Stop> | Feasible(full, done + [s] + later)
                                && forall m :: 0 <= m < |later| - 1 ==> SafeToResume(full, later[m])
        ensures Covered(full, done + [s] + later)
      {
        SafeThroughout(full, done, s, later);
        NeverSkips(full, done + [s] + later);
      }
    } else if i: nat :| i < |full| - 1 && !VisitedSoFar(full, done + [s], i) {
      WaypointLost(full, done, s, i, s.pose);
      assert !Covered(full, done + [s] + [Miscounted(i, s.pose)]);
    } else {
      forall later: seq<Stop>
        ensures Covered(full, done + [s] + later)
      {
        NothingLeft(full, done + [s], later);
      }
    }
  }

  lemma SafeThroughout(full: seq<Waypoint>, done: seq<Stop>, s: Stop, later: seq<Stop>)
    requires SafeToResume(full, s)
    requires forall m :: 0 <= m < |done| ==> SafeToResume(full, done[m])
    requires forall m :: 0 <= m < |later| - 1 ==> SafeToResume(full, later[m])
    ensures var stops := done + [s] + later; forall m :: 0 <= m < |stops| - 1 ==> SafeToResume(full, stops[m])
  {
  }

  lemma NothingLeft(full: seq<Waypoint>, stops: seq<Stop>, later: seq<Stop>)
    requires forall i: nat :: i < |full| - 1 ==> VisitedSoFar(full, stops, i)
    ensures Covered(full, stops + later)
  {
    forall i: nat | i < |full|
      ensures Visited(full, stops + later, i)
    {
      if i == |full| - 1 {
        LastIsVisited(full, stops + later);
      } else {
        assert VisitedSoFar(full, stops, i);
        var k: nat :| k < |stops| && VisitedIn(full, stops, k, i);
        LegIsPast(full, stops, later, k, i);
      }
    }
  }
}
