/**
 The simulated robot's drive along a route: which waypoints it reaches, what it reports
 on the way, and the cursor it leaves behind when it is cancelled.
*/
module MockRobots {
  import opened Wrappers
  import opened Corridor
  import opened Routes
  import opened CruiseRoutes

  datatype TaskState = Accepted | Inspecting | Extinguishing | Completed | Cancelled

  datatype Status = Status(
    state: TaskState, progress: int, checkpoint: Option<nat>, total: Option<nat>,
    slot: Option<string>, nextSlot: Option<string>,
    waypointIndex: Option<nat>, target: Option<nat>)

  /** active_execution */
  datatype Execution = Execution(
    lastCompleted: Option<nat>, target: Option<nat>, checkpoint: Option<nat>, total: Option<nat>,
    slot: Option<string>, nextSlot: Option<string>, progress: int)

  const IDLE_EXECUTION := Execution(None, None, None, None, None, None, 0)

  /** The drive ends early, while heading for a waypoint or after arriving there, before the next target is taken. */
  datatype Halt = Halt(at: nat, arrived: bool)

  predicate Truthy(sequence: Option<nat>) { sequence.Some? && sequence.value != 0 }

  /** inspection_total */
  function Total(route: seq<Waypoint>): (total: nat)
    ensures total >= 1
  {
    var inspections := Inspections(route);
    if inspections == [] then 1
    else
      var sequence := inspections[|inspections| - 1].sequence;
      if Truthy(sequence) then sequence.value else |inspections|
  }

  /** inspection_base: how many checkpoints came before this leg */
  function Base(route: seq<Waypoint>): nat {
    var inspections := Inspections(route);
    if inspections != [] && Truthy(inspections[0].sequence) then inspections[0].sequence.value - 1 else 0
  }

  /** Python's round of a real: to the nearest integer, ties to even. */
  function Round(v: real): int {
    var down := v.Floor;
    var rest := v - down as real;
    if rest < 0.5 || (rest == 0.5 && down % 2 == 0) then down else down + 1
  }

  function Progress(checkpoint: nat, total: nat): int
    requires total >= 1
  {
    var rounded := Round(checkpoint as real / total as real * 100.0);
    if rounded < 99 then rounded else 99
  }

  function Report(route: seq<Waypoint>, checkpoint: nat, here: Waypoint, next: Option<string>, index: nat): Status {
    Status(Inspecting, Progress(checkpoint, Total(route)), Some(checkpoint), Some(Total(route)),
      here.slotCode, next, Some(index), Some(index))
  }

  /** The slot of the inspection that comes after the first `done` ones. */
  function NextSlot(route: seq<Waypoint>, done: nat): Option<string> {
    if done < |Inspections(route)| then Inspections(route)[done].slotCode else None
  }

  /** The reports from the first n waypoints. */
  function Reports(route: seq<Waypoint>, n: nat): seq<Status>
    requires n <= |route|
  {
    if n == 0 then []
    else if route[n - 1].kind != INSPECTION then Reports(route, n - 1)
    else
      var done := |Inspections(route[..n])|;
      Reports(route, n - 1) + [Report(route, Base(route) + done, route[n - 1], NextSlot(route, done), n - 1)]
  }

  /** The execution record with n waypoints reached and the given target. */
  function ExecutionAt(route: seq<Waypoint>, n: nat, target: Option<nat>): Execution
    requires n <= |route|
  {
    var last := if n == 0 then None else Some(n - 1);
    var said := Reports(route, n);
    if said == [] then Execution(last, target, None, None, None, None, 0)
    else
      var s := said[|said| - 1];
      Execution(last, target, s.checkpoint, s.total, s.slot, s.nextSlot, s.progress)
  }

  const ACCEPTED_STATUS := Status(Accepted, 0, None, None, None, None, None, None)
  const EXTINGUISHING_STATUS := Status(Extinguishing, 95, None, None, None, None, None, None)
  const COMPLETED_STATUS := Status(Completed, 100, None, None, None, None, None, None)

  /** How many waypoints are reached before the halt. */
  function Reached(halt: Halt): nat { if halt.arrived then halt.at + 1 else halt.at }

  /** After the last arrival only the dwell at an inspection still looks for an interruption. */
  ghost predicate CanHalt(route: seq<Waypoint>, halt: Halt) {
    halt.at < |route| && (halt.arrived && halt.at + 1 == |route| ==> route[halt.at].kind == INSPECTION)
  }

  /** What follows the last waypoint. */
  function Finale(extinguish: bool): seq<Status> {
    (if extinguish then [EXTINGUISHING_STATUS] else []) + [COMPLETED_STATUS]
  }

  /** Everything one drive says, up to n waypoints in. */
  function Said(route: seq<Waypoint>, n: nat): seq<Status>
    requires n <= |route|
  {
    [ACCEPTED_STATUS] + Reports(route, n)
  }

  lemma {:induction false} SaidGrows(route: seq<Waypoint>, i: nat, before: seq<Status>)
    requires i < |route|
    ensures |Reports(route, i)| <= |Reports(route, i + 1)|
    ensures before + Said(route, i) + Reports(route, i + 1)[|Reports(route, i)|..] == before + Said(route, i + 1)
  {
    var more := Reports(route, i + 1)[|Reports(route, i)|..];
    assert Said(route, i + 1) == Said(route, i) + more;
    assert before + Said(route, i) + more == before + (Said(route, i) + more);
  }

  /** Everything a drive says that is not halted. */
  function SaidInFull(route: seq<Waypoint>, extinguish: bool): seq<Status> {
    Said(route, |route|) + Finale(extinguish)
  }

  function CancelStatus(e: Execution): Status {
    Status(Cancelled, e.progress, e.checkpoint, e.total, e.slot, e.nextSlot, e.lastCompleted, e.target)
  }

  class MockRobot {
    var position: Point
    var active: bool
    var execution: Option<Execution>
    var published: seq<Status>

    constructor (position: Point)
      ensures this.position == position && !active && execution.None? && published == []
    {
      this.position, active, execution, published := position, false, None, [];
    }

    /** The vehicle is within reach of waypoint i: it snaps onto it and reports if it is an inspection. */
    method Arrive(route: seq<Waypoint>, i: nat, done: nat) returns (doneNow: nat)
      requires i < |route| && done == |Inspections(route[..i])|
      requires execution == Some(ExecutionAt(route, i, Some(i)))
      modifies this
      ensures doneNow == |Inspections(route[..i + 1])|
      ensures execution == Some(ExecutionAt(route, i + 1, Some(i)))
      ensures published == old(published) + Reports(route, i + 1)[|Reports(route, i)|..]
      ensures position == route[i].pos && active == old(active)
    {
      assert route[..i + 1][..i] == route[..i];
      position := route[i].pos;
      execution := Some(execution.value.(lastCompleted := Some(i)));
      doneNow := done;
      if route[i].kind == INSPECTION {
        doneNow := done + 1;
        var s := Report(route, Base(route) + doneNow, route[i], NextSlot(route, doneNow), i);
        execution := Some(execution.value.(
          checkpoint := s.checkpoint, total := s.total, slot := s.slot, nextSlot := s.nextSlot,
          progress := s.progress));
        published := published + [s];
      }
    }

    /** The thread that drives; it ends by reaching the last waypoint, or at the given halt. */
    method SimulateTask(route: seq<Waypoint>, extinguish: bool, halt: Option<Halt>)
      requires halt.Some? ==> CanHalt(route, halt.value)
      modifies this
      ensures halt.None? ==> published == old(published) + SaidInFull(route, extinguish)
      ensures halt.None? ==> !active && execution.None?
      ensures halt.None? && route != [] ==> position == route[|route| - 1].pos
      ensures halt.Some? ==> published == old(published) + Said(route, Reached(halt.value))
      ensures halt.Some? ==> active && execution == Some(ExecutionAt(route, Reached(halt.value), Some(halt.value.at)))
    {
      active, execution := true, Some(IDLE_EXECUTION);
      published := published + [ACCEPTED_STATUS];
      var done := 0;
      assert Said(route, 0) == [ACCEPTED_STATUS];
      for i := 0 to |route|
        invariant done == |Inspections(route[..i])|
        invariant halt.Some? ==> i <= halt.value.at
        invariant active && execution == Some(ExecutionAt(route, i, if i == 0 then None else Some(i - 1)))
        invariant published == old(published) + Said(route, i)
        invariant i > 0 ==> position == route[i - 1].pos
      {
        execution := Some(execution.value.(target := Some(i)));
        if halt == Some(Halt(i, false)) {
          return;
        }
        done := Arrive(route, i, done);
        SaidGrows(route, i, old(published));
        if halt == Some(Halt(i, true)) {
          return;
        }
      }
      Finish(extinguish);
    }

    /** After the last waypoint. */
    method Finish(extinguish: bool)
      modifies `published, `active, `execution
      ensures published == old(published) + Finale(extinguish)
      ensures !active && execution.None?
    {
      if extinguish {
        published := published + [EXTINGUISHING_STATUS];
      }
      published := published + [COMPLETED_STATUS];
      active, execution := false, None;
    }

    /** cancel_task: the cursor goes out with the cancelled status, and the drive is over. */
    method CancelTask()
      modifies this
      ensures !active && execution.None? && position == old(position)
      ensures published == old(published)
        + [CancelStatus(old(if execution.Some? then execution.value else IDLE_EXECUTION))]
    {
      var last := if execution.Some? then execution.value else IDLE_EXECUTION;
      active, execution := false, None;
      published := published + [CancelStatus(last)];
    }
  }

  // --- what the reports say ----------------------------------------------------------------

  /** On any route, the j-th report counts one checkpoint more than the one before it. */
  lemma {:induction false} ReportsCount(route: seq<Waypoint>, n: nat, j: nat)
    requires n <= |route| && j < |Reports(route, n)|
    ensures |Reports(route, n)| == |Inspections(route[..n])|
    ensures Reports(route, n)[j].state == Inspecting
    ensures Reports(route, n)[j].checkpoint == Some(Base(route) + j + 1)
    ensures Reports(route, n)[j].progress == Progress(Base(route) + j + 1, Total(route))
  {
    assert route[..n][..n - 1] == route[..n - 1];
    if j < |Reports(route, n - 1)| {
      ReportsCount(route, n - 1, j);
    } else {
      ReportsMatchInspections(route, n - 1);
    }
  }

  lemma {:induction false} ReportsMatchInspections(route: seq<Waypoint>, n: nat)
    requires n <= |route|
    ensures |Reports(route, n)| == |Inspections(route[..n])|
  {
    if n > 0 {
      assert route[..n][..n - 1] == route[..n - 1];
      ReportsMatchInspections(route, n - 1);
    }
  }

  /** Where the counting starts: after the number of the first inspection, if it has one, else at none. */
  predicate CountsFrom(inspections: seq<Waypoint>, before: int) {
    if inspections != [] && inspections[0].sequence.Some? && inspections[0].sequence.value != 0
    then before + 1 == inspections[0].sequence.value else before == 0
  }

  /** And where it ends: at the number of the last inspection, if it has one, else at how many there are. */
  predicate CountsTo(inspections: seq<Waypoint>, total: int) {
    if inspections == [] then total == 1
    else
      var last := inspections[|inspections| - 1].sequence;
      total == if last.Some? && last.value != 0 then last.value else |inspections|
  }

  /** The report from an inspection: its own slot and place on the route, the next inspection's slot, the count. */
  ghost predicate Tells(route: seq<Waypoint>, s: Status, j: nat) {
    var inspections := Inspections(route);
    && s.state == Inspecting && j < |inspections|
    && s.slot == inspections[j].slotCode
    && s.nextSlot == (if j + 1 < |inspections| then inspections[j + 1].slotCode else None)
    && s.waypointIndex.Some? && s.target == s.waypointIndex
    && s.waypointIndex.value < |route| && route[s.waypointIndex.value] == inspections[j]
    && s.checkpoint.Some? && s.total.Some? && s.total.value >= 1
    && CountsFrom(inspections, s.checkpoint.value - (j + 1)) && CountsTo(inspections, s.total.value)
    && s.progress == Progress(s.checkpoint.value, s.total.value)
  }

  lemma {:induction false} InspectionsReached(route: seq<Waypoint>, n: nat)
    requires 0 < n <= |route| && route[n - 1].kind == INSPECTION
    ensures var before := Inspections(route[..n - 1]);
      && Inspections(route[..n]) == before + [route[n - 1]]
      && |before| < |Inspections(route)| && Inspections(route)[|before|] == route[n - 1]
  {
    assert route[..n][..n - 1] == route[..n - 1];
    InspectionsAppend(route[..n], route[n..]);
    assert route[..n] + route[n..] == route;
  }

  /** What the j-th report of a drive says. */
  lemma {:induction false} ReportsTell(route: seq<Waypoint>, n: nat, j: nat)
    requires n <= |route| && j < |Reports(route, n)|
    ensures Tells(route, Reports(route, n)[j], j)
    decreases n
  {
    if route[n - 1].kind == INSPECTION && j == |Reports(route, n - 1)| {
      ReportsMatchInspections(route, n - 1);
      InspectionsReached(route, n);
    } else {
      ReportsTell(route, n - 1, j);
    }
  }

  lemma RoundGrows(v: real, w: real)
    requires v <= w
    ensures Round(v) <= Round(w)
  {
    assert v.Floor <= w.Floor;
  }

  lemma ProgressGrows(a: nat, b: nat, total: nat)
    requires a <= b && total >= 1
    ensures 0 <= Progress(a, total) <= Progress(b, total) <= 99
  {
    var t := total as real;
    assert 0.0 <= a as real / t <= b as real / t;
    RoundGrows(0.0, a as real / t * 100.0);
    RoundGrows(a as real / t * 100.0, b as real / t * 100.0);
  }

  /** Progress never goes back, and stays below 100 until the completed status. */
  lemma ProgressIsMonotone(route: seq<Waypoint>, n: nat, i: nat, j: nat)
    requires n <= |route| && i <= j < |Said(route, n)|
    ensures 0 <= Said(route, n)[i].progress <= Said(route, n)[j].progress <= 99 < COMPLETED_STATUS.progress
  {
    if j > 0 {
      ReportsCount(route, n, j - 1);
      ProgressGrows(0, Base(route) + j, Total(route));
      if i > 0 {
        ReportsCount(route, n, i - 1);
        ProgressGrows(Base(route) + i, Base(route) + j, Total(route));
      }
    }
  }

  /** The progress is the nearest whole per cent, halves to even; beyond 98.5 % it is 99. */
  lemma {:induction false} ProgressIsNearest(checkpoint: nat, total: nat)
    requires total >= 1
    ensures var p := Progress(checkpoint, total);
      && p <= 99
      && (p == 99 <==> 200 * checkpoint > 197 * total)
      && (p < 99 ==> Distance(p * total, 100 * checkpoint) * 2 <= total)
      && (p < 99 && Distance(p * total, 100 * checkpoint) * 2 == total ==> p % 2 == 0)
  {
    var v := checkpoint as real / total as real * 100.0;
    assert v * total as real == (100 * checkpoint) as real;
    RoundsToNearest(v);
    RoundedRatio(v, Round(v), total, 100 * checkpoint);
  }

  lemma {:induction false} RoundedRatio(v: real, r: int, t: nat, c: nat)
    requires t >= 1 && v * t as real == c as real && -0.5 <= r as real - v <= 0.5
    requires r as real - v == 0.5 || r as real - v == -0.5 ==> r % 2 == 0
    ensures Distance(r * t, c) * 2 <= t
    ensures Distance(r * t, c) * 2 == t ==> r % 2 == 0
    ensures r >= 99 <==> 2 * c > 197 * t
  {
    var x, e := Spread(r, v, t, c);
    Scaled(e, t as real, x as real - c as real);
    InWholes(x, c, t);
    BeyondHalf(v, r);
    Beyond985(v, t, c);
  }

  lemma {:induction false} Spread(r: int, v: real, t: nat, c: nat) returns (x: int, e: real)
    requires v * t as real == c as real
    ensures x == r * t && e == r as real - v && e * t as real == x as real - c as real
  {
    x, e := r * t, r as real - v;
    assert x as real == r as real * t as real;
  }

  lemma {:induction false} Beyond985(v: real, t: nat, c: nat)
    requires t >= 1 && v * t as real == c as real
    ensures 98.5 < v <==> 2 * c > 197 * t
  {
    Compare(98.5, v, t as real);
  }

  lemma {:induction false} InWholes(x: int, c: int, t: int)
    requires -0.5 * t as real <= x as real - c as real <= 0.5 * t as real
    ensures Distance(x, c) * 2 <= t
    ensures Distance(x, c) * 2 == t ==>
      x as real - c as real == 0.5 * t as real || x as real - c as real == -0.5 * t as real
  {
  }

  lemma {:induction false} BeyondHalf(v: real, r: int)
    requires -0.5 <= r as real - v <= 0.5 && (r as real - v == 0.5 || r as real - v == -0.5 ==> r % 2 == 0)
    ensures r >= 99 <==> 98.5 < v
  {
  }

  function Distance(u: int, v: int): int { if u < v then v - u else u - v }

  lemma {:induction false} RoundsToNearest(v: real)
    ensures var r := Round(v);
      && -0.5 <= r as real - v <= 0.5
      && (r as real - v == 0.5 || r as real - v == -0.5 ==> r % 2 == 0)
  {
  }

  lemma {:induction false} Scaled(e: real, t: real, d: real)
    requires t > 0.0 && e * t == d && -0.5 <= e <= 0.5
    ensures -0.5 * t <= d <= 0.5 * t
    ensures d == 0.5 * t ==> e == 0.5
    ensures d == -0.5 * t ==> e == -0.5
  {
    Compare(e, 0.5, t);
    Compare(e, -0.5, t);
    Compare(0.5, e, t);
  }

  lemma {:induction false} Compare(u: real, v: real, t: real)
    requires t > 0.0
    ensures u < v <==> u * t < v * t
    ensures u == v <==> u * t == v * t
  {
  }

  /** The progress a drive has reported once all its inspections are behind it. */
  function LastProgress(route: seq<Waypoint>): int {
    if Inspections(route) == [] then 0 else Progress(Base(route) + |Inspections(route)|, Total(route))
  }

  ghost predicate NeverBack(said: seq<Status>) {
    forall i, j :: 0 <= i <= j < |said| ==> said[i].progress <= said[j].progress
  }

  lemma LastReported(route: seq<Waypoint>)
    ensures var said := Said(route, |route|); said[|said| - 1].progress == LastProgress(route)
  {
    assert route[..|route|] == route;
    ReportsMatchInspections(route, |route|);
    if Inspections(route) != [] {
      ReportsCount(route, |route|, |Inspections(route)| - 1);
    }
  }

  /**
   Over a whole drive, progress never goes back exactly if the drive does not end by
   extinguishing, or its inspections end at no more than the 95 which that reports.
  */
  lemma MonotoneExactly(route: seq<Waypoint>, extinguish: bool)
    ensures NeverBack(SaidInFull(route, extinguish)) <==> (!extinguish || LastProgress(route) <= 95)
  {
    var said, full := Said(route, |route|), SaidInFull(route, extinguish);
    LastReported(route);
    assert full[|said| - 1] == said[|said| - 1];
    if extinguish {
      assert full[|said|] == EXTINGUISHING_STATUS;
    }
    if !extinguish || LastProgress(route) <= 95 {
      forall i, j | 0 <= i <= j < |full|
        ensures full[i].progress <= full[j].progress
      {
        if i < |said| {
          ProgressIsMonotone(route, |route|, i, |said| - 1);
          if j < |said| {
            ProgressIsMonotone(route, |route|, i, j);
          }
        }
      }
    }
  }

  /** Where the inspections are numbered through to the last one, any of them breaks an extinguish drive's progress. */
  lemma NumberedDriveEndsAt(route: seq<Waypoint>, first: nat)
    requires NumberedFrom(route, first) && first >= 1
    ensures LastProgress(route) == if Inspections(route) == [] then 0 else 99
  {
    if Inspections(route) != [] {
      var n := |Inspections(route)|;
      assert Inspections(route)[n - 1].sequence == Some(first + n - 1);
      assert Inspections(route)[0].sequence == Some(first + 0);
      assert Base(route) + n == Total(route);
      FullProgress(Total(route));
    }
  }

  lemma FullProgress(total: nat)
    requires total >= 1
    ensures Progress(total, total) == 99
  {
    assert total as real / total as real * 100.0 == 100.0;
  }

  // --- on suffixes of a cruise -------------------------------------------------------------

  /** The inspections of a route carry consecutive numbers. */
  ghost predicate NumberedFrom(route: seq<Waypoint>, first: nat) {
    var inspections := Inspections(route);
    forall j :: 0 <= j < |inspections| ==> inspections[j].sequence == Some(first + j)
  }

  /** Where a route is numbered, every checkpoint index is the waypoint's own sequence number. */
  lemma {:induction false} CheckpointsAreSequences(route: seq<Waypoint>, first: nat, n: nat)
    requires NumberedFrom(route, first) && first >= 1 && n <= |route|
    ensures forall j :: 0 <= j < |Reports(route, n)| ==>
      (var s := Reports(route, n)[j];
       s.waypointIndex.Some? && s.waypointIndex.value < n
       && s.checkpoint == route[s.waypointIndex.value].sequence
       && s.slot == route[s.waypointIndex.value].slotCode)
  {
    if n > 0 {
      CheckpointsAreSequences(route, first, n - 1);
      if route[n - 1].kind == INSPECTION {
        assert route[..n][..n - 1] == route[..n - 1];
        InspectionsAppend(route[..n], route[n..]);
        assert route[..n] + route[n..] == route;
        var done := |Inspections(route[..n])|;
        assert Inspections(route)[done - 1] == Inspections(route[..n])[done - 1] == route[n - 1];
        assert Base(route) == first - 1;
      }
    }
  }

  /** A resumed leg may begin with one waypoint at the vehicle's own place. */
  ghost predicate IsHead(head: seq<Waypoint>) { head == [] || exists p :: head == [Transit(p)] }

  lemma LegInspections(route: seq<Waypoint>, from: nat, head: seq<Waypoint>)
    requires from <= |route| && IsHead(head)
    ensures |Inspections(route[..from])| <= |Inspections(route)|
    ensures Inspections(head + route[from..]) == Inspections(route)[|Inspections(route[..from])|..]
  {
    InspectionsAppend(route[..from], route[from..]);
    assert route[..from] + route[from..] == route;
    InspectionsAppend(head, route[from..]);
    NoInspections(head);
  }

  lemma LegIsNumbered(route: seq<Waypoint>, ordered: seq<Slot>, from: nat, head: seq<Waypoint>)
    requires Inspections(route) == Inspected(ordered, 0)
    requires from <= |route| && IsHead(head)
    ensures NumberedFrom(head + route[from..], |Inspections(route[..from])| + 1)
    ensures Inspections(head + route[from..]) != [] ==> Total(head + route[from..]) == |ordered|
  {
    LegInspections(route, from, head);
  }

  lemma SameSize(a: seq<Slot>, b: seq<Slot>)
    requires multiset(a) == multiset(b)
    ensures |a| == |b|
  {
    assert |multiset(a)| == |a| && |multiset(b)| == |b|;
  }

  /** Resumed or not, the robot's checkpoint numbers on a cruise are the slots' own, out of all of them. */
  lemma {:induction false} CruiseCheckpoints(slots: seq<Slot>, from: nat, head: seq<Waypoint>, n: nat)
    requires AllGroupsFilled(slots) && from <= |CruiseRoute(slots)| && IsHead(head)
    requires n <= |head + CruiseRoute(slots)[from..]|
    ensures var leg := head + CruiseRoute(slots)[from..];
      forall j :: 0 <= j < |Reports(leg, n)| ==>
        (var s := Reports(leg, n)[j];
         s.waypointIndex.Some? && s.waypointIndex.value < n && s.total == Some(|slots|)
         && s.checkpoint == leg[s.waypointIndex.value].sequence)
  {
    CruiseCovers(slots);
    SameSize(OrderedSlots(slots), slots);
    LegCheckpoints(CruiseRoute(slots), OrderedSlots(slots), from, head, n);
  }

  lemma LegCheckpoints(route: seq<Waypoint>, ordered: seq<Slot>, from: nat, head: seq<Waypoint>, n: nat)
    requires Inspections(route) == Inspected(ordered, 0)
    requires from <= |route| && IsHead(head) && n <= |head + route[from..]|
    ensures var leg := head + route[from..];
      forall j :: 0 <= j < |Reports(leg, n)| ==>
        (var s := Reports(leg, n)[j];
         s.waypointIndex.Some? && s.waypointIndex.value < n && s.total == Some(|ordered|)
         && s.checkpoint == leg[s.waypointIndex.value].sequence)
  {
    var leg := head + route[from..];
    LegIsNumbered(route, ordered, from, head);
    CheckpointsAreSequences(leg, |Inspections(route[..from])| + 1, n);
    ReportsTotal(leg, n);
    if Reports(leg, n) != [] {
      ReportsMatchInspections(leg, n);
      InspectionsAppend(leg[..n], leg[n..]);
      assert leg[..n] + leg[n..] == leg;
    }
  }

  lemma {:induction false} ReportsTotal(route: seq<Waypoint>, n: nat)
    requires n <= |route|
    ensures forall j :: 0 <= j < |Reports(route, n)| ==> Reports(route, n)[j].total == Some(Total(route))
  {
    if n > 0 {
      ReportsTotal(route, n - 1);
    }
  }

  // --- the cursor --------------------------------------------------------------------------

  predicate CursorWithin(s: Status, target: nat) {
    (s.waypointIndex.Some? ==> s.target.Some?) && (s.target.Some? ==> s.target.value <= target)
  }

  /** No status of a drive names a target beyond the one it was halted at; the cancelled status names that one. */
  lemma {:induction false} CursorsWithin(route: seq<Waypoint>, n: nat, target: nat)
    requires n <= |route| && n <= target + 1
    ensures forall j :: 0 <= j < |Said(route, n)| ==> CursorWithin(Said(route, n)[j], target)
    ensures CursorWithin(CancelStatus(ExecutionAt(route, n, Some(target))), target)
    ensures CancelStatus(ExecutionAt(route, n, Some(target))).target == Some(target)
  {
    if n > 0 {
      CursorsWithin(route, n - 1, target);
      forall j | 0 <= j < |Said(route, n)|
        ensures CursorWithin(Said(route, n)[j], target)
      {
        if j < |Said(route, n - 1)| {
          assert Said(route, n)[j] == Said(route, n - 1)[j];
        }
      }
    }
  }

  // --- what the last word says -------------------------------------------------------------

  /** A drive that is not halted begins by accepting and ends completed, at a hundred. */
  lemma {:induction false} DriveBeginsAndEnds(route: seq<Waypoint>, extinguish: bool)
    ensures var said := SaidInFull(route, extinguish);
      && said[0].state == Accepted && said[0].progress == 0
      && said[|said| - 1].state == Completed && said[|said| - 1].progress == 100
      && (forall i :: 0 <= i < |said| - 1 ==> said[i].state != Completed)
      && (said[|said| - 2].state == Extinguishing <==> extinguish)
      && (extinguish ==> said[|said| - 2].progress == 95)
  {
    var said, driven := SaidInFull(route, extinguish), Said(route, |route|);
    forall i | 0 < i < |driven|
      ensures driven[i].state == Inspecting
    {
      ReportsCount(route, |route|, i - 1);
    }
    assert forall i :: 0 <= i < |driven| ==> said[i] == driven[i];
    if extinguish {
      assert said[|driven|] == EXTINGUISHING_STATUS;
    }
  }

  /** The cancelled status repeats what was reported last; only the cursor is its own. */
  lemma {:induction false} CancelRepeatsLast(route: seq<Waypoint>, n: nat, target: Option<nat>)
    requires n <= |route|
    ensures var c, said := CancelStatus(ExecutionAt(route, n, target)), Reports(route, n);
      && c.state == Cancelled && c.target == target && c.waypointIndex == (if n == 0 then None else Some(n - 1))
      && (if said == [] then c.progress == 0 && c.checkpoint.None? && c.total.None? && c.slot.None? && c.nextSlot.None?
          else
            var last := said[|said| - 1];
            && c.progress == last.progress && c.checkpoint == last.checkpoint && c.total == last.total
            && c.slot == last.slot && c.nextSlot == last.nextSlot)
  {
  }
}
