/**
 The cruise over the seeded car park: 18 slots along the north edge and four columns of nine.
 Every leg is on a lane (or one of the two crossings south of the columns) and clear of every slot.
*/
module DemoCruises {
  import opened Wrappers
  import opened Corridor
  import opened Routes
  import opened CruiseRoutes
  import SlotClearance

  // --- the car park ------------------------------------------------------------------------

  /** Where the slot of each number stands. */
  function SeededPos(n: nat): Point {
    if n <= 9 then Point(2.5 + (n - 1) as real * 2.15, 31.5)
    else if n <= 18 then Point(27.0 + (n - 10) as real * 2.15, 31.5)
    else if n <= 27 then Point(5.0, 3.0 + (n - 19) as real * 2.8)
    else if n <= 36 then Point(17.0, 3.0 + (n - 28) as real * 2.8)
    else if n <= 45 then Point(29.0, 3.0 + (n - 37) as real * 2.8)
    else Point(43.0, 3.0 + (n - 46) as real * 2.8)
  }

  /** Half the extents: slots of the top row stand upright, those of the columns lie across. */
  function SeededHalf(n: nat): Point { if n <= 18 then Point(0.975, 2.0) else Point(2.0, 1.225) }

  predicate Seeded(s: Slot) { 1 <= s.number <= 54 && s.pos == SeededPos(s.number) }

  /** Slots of the seeded car park, at least one in each group. */
  ghost predicate SeededField(slots: seq<Slot>) {
    AllGroupsFilled(slots) && forall s :: s in slots ==> Seeded(s)
  }

  // --- where it inspects -------------------------------------------------------------------

  /** The lane each group is inspected from, and the way the vehicle faces there. */
  predicate InspectedFrom(k: nat, n: int, p: Point, h: Heading) {
    match k
    case 0 => 19 <= n <= 27 && p.x == 8.0 && 1.0 <= p.y <= 27.0 && h == South
    case 1 => 28 <= n <= 36 && p.x == 14.0 && 1.0 <= p.y <= 27.0 && h == North
    case 2 => 37 <= n <= 45 && p.x == 32.0 && 1.0 <= p.y <= 27.0 && h == South
    case 3 => 46 <= n <= 54 && p.x == 40.0 && 1.0 <= p.y <= 27.0 && h == North
    case _ => 1 <= n <= 18 && p.y == 28.7 && 1.2 <= p.x <= 44.2 && h == West
  }

  /** Every seeded slot is inspected from its group's lane. */
  lemma {:induction false} InspectionIsOnLane(s: Slot)
    requires Seeded(s)
    ensures InspectedFrom(Rank(GroupOf(s)), s.number, InspectionPos(s), InspectionHeading(GroupOf(s)))
  {
  }

  lemma {:induction false} GroupMember(slots: seq<Slot>, k: nat, i: nat)
    requires k < 5 && SeededField(slots) && i < |OrderedGroup(slots, k)|
    ensures var s := OrderedGroup(slots, k)[i];
      && Seeded(s) && GroupOf(s) == GroupAt(k)
      && InspectedFrom(k, s.number, InspectionPos(s), InspectionHeading(GroupAt(k)))
  {
    OrderedGroupComesFrom(slots, k);
    assert OrderedGroup(slots, k)[i] in OrderedGroup(slots, k);
    InspectionIsOnLane(OrderedGroup(slots, k)[i]);
    RankOfGroupAt(k);
  }

  // --- the whole route, corner by corner ---------------------------------------------------

  function Corner(x: real, y: real): Waypoint { Waypoint(Point(x, y), TURN, None, None, None) }

  function Passing(x: real, y: real): Waypoint { Waypoint(Point(x, y), TRANSIT, None, None, None) }

  const PARKED := Waypoint(Point(1.2, 1.2), WAITING, Some(North), None, None)

  /** The waypoints from which group k is inspected, numbered on. */
  function Stops(slots: seq<Slot>, k: nat): seq<Waypoint> { Inspected(OrderedGroup(slots, k), |Ordered(slots, k)|) }

  lemma {:induction false} Corners(slots: seq<Slot>)
    requires SeededField(slots)
    ensures WayIn(FirstPos(slots, 0)) == [PARKED, Passing(1.2, 27.0), Passing(8.0, 27.0)]
    ensures Onwards(slots, 0) == [Corner(8.0, 1.5), Corner(14.0, 1.5)]
    ensures Onwards(slots, 1) == [Corner(14.0, 27.0), Corner(32.0, 27.0)]
    ensures Onwards(slots, 2) == [Corner(32.0, 1.5), Corner(40.0, 1.5)]
    ensures Onwards(slots, 3) == [Corner(40.0, 28.7)]
    ensures WayOut(LastPos(slots, 4)) == [Passing(1.2, 28.7), PARKED]
  {
    forall k | 0 <= k < 5
      ensures FirstPos(slots, k) == InspectionPos(OrderedGroup(slots, k)[0])
      ensures InspectedFrom(k, OrderedGroup(slots, k)[0].number, FirstPos(slots, k), InspectionHeading(GroupAt(k)))
      ensures var last := OrderedGroup(slots, k)[|OrderedGroup(slots, k)| - 1];
        InspectedFrom(k, last.number, LastPos(slots, k), InspectionHeading(GroupAt(k)))
    {
      GroupMember(slots, k, 0);
      GroupMember(slots, k, |OrderedGroup(slots, k)| - 1);
    }
  }

  /** The route up to group k. */
  function Upto(slots: seq<Slot>, k: nat): seq<Waypoint>
    requires k <= 5 && AllGroupsFilled(slots)
  {
    WayIn(FirstPos(slots, 0)) + Serve(slots, k)
  }

  lemma {:induction false} UptoGrows(slots: seq<Slot>, k: nat)
    requires k < 5 && AllGroupsFilled(slots)
    ensures Upto(slots, k + 1) == Upto(slots, k) + Stops(slots, k) + Onwards(slots, k)
  {
    RouteGrows(slots, k);
  }

  lemma {:induction false} Pieces(slots: seq<Slot>)
    requires AllGroupsFilled(slots)
    ensures CruiseRoute(slots) ==
      WayIn(FirstPos(slots, 0))
      + Stops(slots, 0) + Onwards(slots, 0) + Stops(slots, 1) + Onwards(slots, 1)
      + Stops(slots, 2) + Onwards(slots, 2) + Stops(slots, 3) + Onwards(slots, 3)
      + Stops(slots, 4) + WayOut(LastPos(slots, 4))
  {
    assert Upto(slots, 0) == WayIn(FirstPos(slots, 0));
    UptoGrows(slots, 0);
    UptoGrows(slots, 1);
    UptoGrows(slots, 2);
    UptoGrows(slots, 3);
    UptoGrows(slots, 4);
    var last := Upto(slots, 4) + Stops(slots, 4);
    assert Onwards(slots, 4) == [] && last + [] == last;
    assert CruiseRoute(slots) == Upto(slots, 5) + WayOut(LastPos(slots, 4));
  }

  /** The whole cruise over any part of the seeded car park that has slots in every group. */
  lemma {:induction false} WholeCruise(slots: seq<Slot>)
    requires SeededField(slots)
    ensures CruiseRoute(slots) ==
      [PARKED, Passing(1.2, 27.0), Passing(8.0, 27.0)]
      + Stops(slots, 0) + [Corner(8.0, 1.5), Corner(14.0, 1.5)]
      + Stops(slots, 1) + [Corner(14.0, 27.0), Corner(32.0, 27.0)]
      + Stops(slots, 2) + [Corner(32.0, 1.5), Corner(40.0, 1.5)]
      + Stops(slots, 3) + [Corner(40.0, 28.7)]
      + Stops(slots, 4) + [Passing(1.2, 28.7), PARKED]
  {
    Corners(slots);
    Pieces(slots);
  }

  // --- every leg is on a lane --------------------------------------------------------------

  /** On one lane of the corridor, or south of the columns from the first to the second or the third to the fourth. */
  ghost predicate KnownLeg(p: Point, q: Point) {
    || SameLane(p, q)
    || (p == Point(8.0, 1.5) && q == Point(14.0, 1.5))
    || (p == Point(32.0, 1.5) && q == Point(40.0, 1.5))
  }

  ghost predicate KnownLegs(route: seq<Waypoint>) {
    forall i :: 0 <= i < |route| - 1 ==> KnownLeg(route[i].pos, route[i + 1].pos)
  }

  lemma {:induction false} LegsJoin(a: seq<Waypoint>, b: seq<Waypoint>)
    requires a != [] && b != [] && KnownLegs(a) && KnownLegs(b) && KnownLeg(a[|a| - 1].pos, b[0].pos)
    ensures KnownLegs(a + b) && (a + b)[|a + b| - 1] == b[|b| - 1]
  {
  }

  lemma {:induction false} UpAndDown(j: nat, p: Point, q: Point)
    requires j < |CORRIDOR_VERTICALS| && p.x == q.x == CORRIDOR_VERTICALS[j].at
    requires CORRIDOR_VERTICALS[j].lo <= p.y <= CORRIDOR_VERTICALS[j].hi
    requires CORRIDOR_VERTICALS[j].lo <= q.y <= CORRIDOR_VERTICALS[j].hi
    ensures KnownLeg(p, q)
  {
    assert OnVertical(CORRIDOR_VERTICALS[j], p) && OnVertical(CORRIDOR_VERTICALS[j], q);
  }

  lemma {:induction false} AcrossLane(j: nat, p: Point, q: Point)
    requires j < |CORRIDOR_HORIZONTALS| && p.y == q.y == CORRIDOR_HORIZONTALS[j].at
    requires CORRIDOR_HORIZONTALS[j].lo <= p.x <= CORRIDOR_HORIZONTALS[j].hi
    requires CORRIDOR_HORIZONTALS[j].lo <= q.x <= CORRIDOR_HORIZONTALS[j].hi
    ensures KnownLeg(p, q)
  {
    assert OnHorizontal(CORRIDOR_HORIZONTALS[j], p) && OnHorizontal(CORRIDOR_HORIZONTALS[j], q);
  }

  /** On the lane group k is inspected from. */
  predicate OnLaneOf(k: nat, p: Point) {
    match k
    case 0 => p.x == 8.0 && 1.0 <= p.y <= 27.0
    case 1 => p.x == 14.0 && 1.0 <= p.y <= 27.0
    case 2 => p.x == 32.0 && 1.0 <= p.y <= 27.0
    case 3 => p.x == 40.0 && 1.0 <= p.y <= 28.7
    case _ => p.y == 28.7 && 1.2 <= p.x <= 44.2
  }

  lemma {:induction false} GroupLegIsKnown(k: nat, p: Point, q: Point)
    requires k < 5 && OnLaneOf(k, p) && OnLaneOf(k, q)
    ensures KnownLeg(p, q)
  {
    if k < 4 {
      UpAndDown(k + 1, p, q);
    } else {
      AcrossLane(2, p, q);
    }
  }

  lemma {:induction false} StopsAreKnown(slots: seq<Slot>, k: nat)
    requires k < 5 && SeededField(slots)
    ensures var stops := Stops(slots, k);
      && stops != [] && KnownLegs(stops)
      && OnLaneOf(k, stops[0].pos) && OnLaneOf(k, stops[|stops| - 1].pos)
  {
    var stops := Stops(slots, k);
    forall i | 0 <= i < |stops|
      ensures OnLaneOf(k, stops[i].pos)
    {
      GroupMember(slots, k, i);
    }
    forall i | 0 <= i < |stops| - 1
      ensures KnownLeg(stops[i].pos, stops[i + 1].pos)
    {
      GroupLegIsKnown(k, stops[i].pos, stops[i + 1].pos);
    }
  }

  /** Before a group, through it and beyond it, as long as that is on the group's lane. */
  lemma {:induction false} GroupIsKnown(
    k: nat, before: seq<Waypoint>, stops: seq<Waypoint>, after: seq<Waypoint>)
    requires k < 5 && before != [] && after != []
    requires KnownLegs(before) && OnLaneOf(k, before[|before| - 1].pos)
    requires stops != [] && KnownLegs(stops) && OnLaneOf(k, stops[0].pos) && OnLaneOf(k, stops[|stops| - 1].pos)
    requires KnownLegs(after) && OnLaneOf(k, after[0].pos)
    ensures var route := before + stops + after; KnownLegs(route) && route[|route| - 1] == after[|after| - 1]
  {
    GroupLegIsKnown(k, before[|before| - 1].pos, stops[0].pos);
    GroupLegIsKnown(k, stops[|stops| - 1].pos, after[0].pos);
    LegsJoin(before, stops);
    LegsJoin(before + stops, after);
  }

  lemma {:induction false} CornersAreKnown()
    ensures KnownLegs([PARKED, Passing(1.2, 27.0), Passing(8.0, 27.0)])
    ensures KnownLegs([Corner(8.0, 1.5), Corner(14.0, 1.5)])
    ensures KnownLegs([Corner(14.0, 27.0), Corner(32.0, 27.0)])
    ensures KnownLegs([Corner(32.0, 1.5), Corner(40.0, 1.5)])
    ensures KnownLegs([Passing(1.2, 28.7), PARKED])
  {
    UpAndDown(0, Point(1.2, 1.2), Point(1.2, 27.0));
    AcrossLane(1, Point(1.2, 27.0), Point(8.0, 27.0));
    AcrossLane(1, Point(14.0, 27.0), Point(32.0, 27.0));
    UpAndDown(0, Point(1.2, 28.7), Point(1.2, 1.2));
  }

  lemma {:induction false} OnwardsIsKnown(slots: seq<Slot>, k: nat)
    requires k < 4 && SeededField(slots)
    ensures var on := Onwards(slots, k);
      on != [] && KnownLegs(on) && OnLaneOf(k, on[0].pos) && OnLaneOf(k + 1, on[|on| - 1].pos)
  {
    Corners(slots);
    CornersAreKnown();
  }

  lemma {:induction false} UptoIsKnown(slots: seq<Slot>, k: nat)
    requires k < 5 && SeededField(slots)
    ensures var route := Upto(slots, k); route != [] && KnownLegs(route) && OnLaneOf(k, route[|route| - 1].pos)
  {
    if k == 0 {
      Corners(slots);
      CornersAreKnown();
      assert Upto(slots, 0) == WayIn(FirstPos(slots, 0));
    } else {
      UptoIsKnown(slots, k - 1);
      StopsAreKnown(slots, k - 1);
      OnwardsIsKnown(slots, k - 1);
      GroupIsKnown(k - 1, Upto(slots, k - 1), Stops(slots, k - 1), Onwards(slots, k - 1));
      UptoGrows(slots, k - 1);
    }
  }

  /** Every leg of the cruise is on one lane, but for the two crossings south of the columns. */
  lemma {:induction false} CruiseKeepsLanes(slots: seq<Slot>)
    requires SeededField(slots)
    ensures KnownLegs(CruiseRoute(slots))
  {
    UptoIsKnown(slots, 4);
    StopsAreKnown(slots, 4);
    UptoGrows(slots, 4);
    Corners(slots);
    CornersAreKnown();
    GroupIsKnown(4, Upto(slots, 4), Stops(slots, 4), WayOut(LastPos(slots, 4)));
    var last := Upto(slots, 4) + Stops(slots, 4);
    assert Onwards(slots, 4) == [] && last + [] == last;
  }

  // --- and clear of every slot -------------------------------------------------------------

  /** What must stay free around slot n: its own ground and 0.3 m. */
  predicate Blocks(n: nat, p: Point, q: Point) {
    SlotClearance.SegmentIntersectsSlot(p, q, SeededPos(n), SeededHalf(n).x, SeededHalf(n).y, 0.3)
  }

  function Ground(n: nat): SlotClearance.Box {
    SlotClearance.Expanded(SeededPos(n), SeededHalf(n).x, SeededHalf(n).y, 0.3)
  }

  lemma {:induction false} UprightIsBeyond(l: Lane, p: Point, q: Point, n: nat)
    requires l in CORRIDOR_VERTICALS && OnVertical(l, p) && OnVertical(l, q) && 1 <= n <= 54
    ensures SlotClearance.Beyond(p, q, Ground(n))
  {
    assert l.at in {1.2, 8.0, 14.0, 32.0, 40.0} && 1.0 == l.lo && l.hi <= 28.7;
    assert l.at in {8.0, 14.0, 32.0} ==> l.hi == 27.0;
  }

  lemma {:induction false} LevelIsBeyond(l: Lane, p: Point, q: Point, n: nat)
    requires l in CORRIDOR_HORIZONTALS && OnHorizontal(l, p) && OnHorizontal(l, q) && 1 <= n <= 54
    ensures SlotClearance.Beyond(p, q, Ground(n))
  {
    assert l.at in {1.0, 27.0, 28.7};
  }

  /** No lane of the corridor comes within 0.3 m of a seeded slot. */
  lemma {:induction false} LanesAreClear(p: Point, q: Point, n: nat)
    requires SameLane(p, q) && 1 <= n <= 54
    ensures !Blocks(n, p, q) && SlotClearance.Beyond(p, q, Ground(n))
  {
    if l :| l in CORRIDOR_VERTICALS && OnVertical(l, p) && OnVertical(l, q) {
      UprightIsBeyond(l, p, q, n);
    } else {
      var l :| l in CORRIDOR_HORIZONTALS && OnHorizontal(l, p) && OnHorizontal(l, q);
      LevelIsBeyond(l, p, q, n);
    }
    SlotClearance.BeyondIsClear(p, q, SeededPos(n), SeededHalf(n).x, SeededHalf(n).y, 0.3);
  }

  lemma {:induction false} KnownLegIsClear(p: Point, q: Point, n: nat)
    requires KnownLeg(p, q) && 1 <= n <= 54
    ensures !Blocks(n, p, q)
  {
    if SameLane(p, q) {
      LanesAreClear(p, q, n);
    } else {
      assert SlotClearance.Beyond(p, q, Ground(n));
      SlotClearance.BeyondIsClear(p, q, SeededPos(n), SeededHalf(n).x, SeededHalf(n).y, 0.3);
    }
  }

  /** The cruise never comes within 0.3 m of any slot, inspected or not. */
  lemma {:induction false} CruiseIsClear(slots: seq<Slot>, i: nat, n: nat)
    requires SeededField(slots) && i < |CruiseRoute(slots)| - 1 && 1 <= n <= 54
    ensures !Blocks(n, CruiseRoute(slots)[i].pos, CruiseRoute(slots)[i + 1].pos)
  {
    CruiseKeepsLanes(slots);
    KnownLegIsClear(CruiseRoute(slots)[i].pos, CruiseRoute(slots)[i + 1].pos, n);
  }
}
