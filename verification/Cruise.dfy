/**
 The inspection cruise over the parking slots: down column 1, up 2, down 3, up 4, and
 west along the top row, with every slot on the vehicle's right.
*/
module CruiseRoutes {
  import opened Wrappers
  import opened Corridor
  import opened Routes

  /** A slot with the number its code ends in. */
  datatype Slot = Slot(number: int, code: string, pos: Point)

  datatype Group = Col1 | Col2 | Col3 | Col4 | Top

  const NORTH_TRANSFER_Y := 27.0
  const SOUTH_TRANSFER_Y := 1.5

  function GroupOf(s: Slot): Group {
    if s.number <= 18 then Top
    else if s.number <= 27 then Col1
    else if s.number <= 36 then Col2
    else if s.number <= 45 then Col3
    else Col4
  }

  /** (sin, -cos) of the heading */
  function VehicleRight(h: Heading): Point {
    match h
    case West => Point(0.0, 1.0)
    case South => Point(-1.0, 0.0)
    case North => Point(1.0, 0.0)
  }

  function InspectionPos(s: Slot): Point {
    match GroupOf(s)
    case Top => Point(s.pos.x, s.pos.y - 2.8)
    case Col1 => Point(s.pos.x + 3.0, s.pos.y)
    case Col3 => Point(s.pos.x + 3.0, s.pos.y)
    case _ => Point(s.pos.x - 3.0, s.pos.y)
  }

  function InspectionHeading(g: Group): Heading {
    match g
    case Top => West
    case Col1 => South
    case Col3 => South
    case _ => North
  }

  /** slot_is_on_vehicle_right: the slot's offset has a positive component to the vehicle's right. */
  predicate OnVehicleRight(robot: Point, h: Heading, slot: Point) {
    (slot.x - robot.x) * VehicleRight(h).x + (slot.y - robot.y) * VehicleRight(h).y > 0.0
  }

  /** North is towards larger y: the right hand is where it should be. */
  lemma {:induction false} RightExactly(robot: Point, h: Heading, slot: Point)
    ensures OnVehicleRight(robot, h, slot) <==>
      match h
      case West => slot.y > robot.y
      case South => slot.x < robot.x
      case North => slot.x > robot.x
  {
  }

  /** Right beside the vehicle, 3 m from it (2.8 m in the top row): nothing ahead, all of it to the right. */
  lemma {:induction false} SlotIsOnRight(s: Slot)
    ensures OnVehicleRight(InspectionPos(s), InspectionHeading(GroupOf(s)), s.pos)
    ensures var right, p := VehicleRight(InspectionHeading(GroupOf(s))), InspectionPos(s);
      && (s.pos.x - p.x) * right.x + (s.pos.y - p.y) * right.y == (if s.number <= 18 then 2.8 else 3.0)
      && (s.pos.x - p.x) * right.y - (s.pos.y - p.y) * right.x == 0.0
      && right.x * right.x + right.y * right.y == 1.0
  {
  }

  // --- order within and between groups -----------------------------------------------------

  /** What each group is sorted by, ascending. */
  function Key(s: Slot): real {
    match GroupOf(s)
    case Top => -s.pos.x
    case Col1 => -s.pos.y
    case Col3 => -s.pos.y
    case _ => s.pos.y
  }

  ghost predicate InOrder(slots: seq<Slot>) {
    forall i, j :: 0 <= i < j < |slots| ==> Key(slots[i]) <= Key(slots[j])
  }

  function IfKey(s: Slot, key: real): seq<Slot> { if Key(s) == key then [s] else [] }

  function WithKey(slots: seq<Slot>, key: real): seq<Slot> {
    if slots == [] then []
    else
      var n := |slots| - 1;
      WithKey(slots[..n], key) + IfKey(slots[n], key)
  }

  /** Put s after everything whose key is no larger. */
  function Place(sorted: seq<Slot>, s: Slot): (r: seq<Slot>)
    ensures multiset(r) == multiset(sorted) + multiset{s}
  {
    if sorted == [] then [s]
    else
      var n := |sorted| - 1;
      assert sorted == sorted[..n] + [sorted[n]];
      if Key(sorted[n]) <= Key(s) then sorted + [s] else Place(sorted[..n], s) + [sorted[n]]
  }

  /** sorted(): stable, ascending by key. */
  function Sorted(slots: seq<Slot>): (r: seq<Slot>)
    ensures multiset(r) == multiset(slots)
  {
    if slots == [] then []
    else
      var n := |slots| - 1;
      assert slots == slots[..n] + [slots[n]];
      Place(Sorted(slots[..n]), slots[n])
  }

  lemma {:induction false} PlaceKeepsOrder(sorted: seq<Slot>, s: Slot)
    requires InOrder(sorted)
    ensures InOrder(Place(sorted, s))
  {
    if sorted != [] {
      var n := |sorted| - 1;
      if Key(sorted[n]) > Key(s) {
        PlaceKeepsOrder(sorted[..n], s);
        var r := Place(sorted[..n], s);
        forall i | 0 <= i < |r|
          ensures Key(r[i]) <= Key(sorted[n])
        {
          assert r[i] in multiset(r);
          assert r[i] in sorted[..n] || r[i] == s;
        }
      }
    }
  }

  lemma WithKeyAppend(slots: seq<Slot>, s: Slot, key: real)
    ensures WithKey(slots + [s], key) == WithKey(slots, key) + IfKey(s, key)
  {
    assert (slots + [s])[..|slots|] == slots;
  }

  /** Slots with different keys do not both have the same key. */
  lemma KeysApart(rest: seq<Slot>, s: Slot, t: Slot, key: real)
    requires Key(s) != Key(t)
    ensures rest + IfKey(s, key) + IfKey(t, key) == rest + IfKey(t, key) + IfKey(s, key)
  {
  }

  lemma {:induction false} PlaceIsStable(sorted: seq<Slot>, s: Slot, key: real)
    ensures WithKey(Place(sorted, s), key) == WithKey(sorted, key) + IfKey(s, key)
  {
    var n := |sorted| - 1;
    if sorted == [] || Key(sorted[n]) <= Key(s) {
      WithKeyAppend(sorted, s, key);
      assert Place(sorted, s) == sorted + [s];
    } else {
      PlaceIsStable(sorted[..n], s, key);
      WithKeyAppend(Place(sorted[..n], s), sorted[n], key);
      KeysApart(WithKey(sorted[..n], key), s, sorted[n], key);
    }
  }

  /** Ascending, and slots with equal keys stay in the order they came in. */
  lemma {:induction false} SortIsStable(slots: seq<Slot>, key: real)
    ensures InOrder(Sorted(slots)) && WithKey(Sorted(slots), key) == WithKey(slots, key)
  {
    if slots != [] {
      var n := |slots| - 1;
      SortIsStable(slots[..n], key);
      PlaceKeepsOrder(Sorted(slots[..n]), slots[n]);
      PlaceIsStable(Sorted(slots[..n]), slots[n], key);
    }
  }

  function InGroup(slots: seq<Slot>, g: Group): (r: seq<Slot>)
    ensures forall i :: 0 <= i < |r| ==> GroupOf(r[i]) == g
  {
    if slots == [] then []
    else
      var n := |slots| - 1;
      InGroup(slots[..n], g) + if GroupOf(slots[n]) == g then [slots[n]] else []
  }

  /** The k-th group the cruise serves. */
  function GroupAt(k: nat): Group {
    if k == 0 then Col1 else if k == 1 then Col2 else if k == 2 then Col3 else if k == 3 then Col4 else Top
  }

  /** ordered_groups, one of the five at a time */
  function OrderedGroup(slots: seq<Slot>, k: nat): seq<Slot> { Sorted(InGroup(slots, GroupAt(k))) }

  /** The slots of the first k groups, in cruise order. */
  function Ordered(slots: seq<Slot>, k: nat): seq<Slot> {
    if k == 0 then [] else Ordered(slots, k - 1) + OrderedGroup(slots, k - 1)
  }

  /** ordered_codes, with the slots the codes belong to */
  function OrderedSlots(slots: seq<Slot>): seq<Slot> { Ordered(slots, 5) }

  lemma CountAppend(slots: seq<Slot>, t: Slot, s: Slot)
    ensures multiset(slots + [t])[s] == multiset(slots)[s] + if t == s then 1 else 0
  {
  }

  lemma {:induction false} GroupHoldsItsOwn(slots: seq<Slot>, g: Group, s: Slot)
    ensures multiset(InGroup(slots, g))[s] == if GroupOf(s) == g then multiset(slots)[s] else 0
  {
    if slots != [] {
      var n := |slots| - 1;
      GroupHoldsItsOwn(slots[..n], g, s);
      CountAppend(slots[..n], slots[n], s);
      CountAppend(InGroup(slots[..n], g), slots[n], s);
      assert slots[..n] + [slots[n]] == slots;
    }
  }

  /** The position of a group in cruise order. */
  function Rank(g: Group): (k: nat)
    ensures k < 5 && GroupAt(k) == g
  {
    match g
    case Col1 => 0
    case Col2 => 1
    case Col3 => 2
    case Col4 => 3
    case Top => 4
  }

  lemma RankOfGroupAt(k: nat)
    requires k < 5
    ensures Rank(GroupAt(k)) == k
  {
  }

  lemma {:induction false} OrderedHolds(slots: seq<Slot>, k: nat, s: Slot)
    requires k <= 5
    ensures multiset(Ordered(slots, k))[s] == if Rank(GroupOf(s)) < k then multiset(slots)[s] else 0
  {
    if k > 0 {
      OrderedHolds(slots, k - 1, s);
      RankOfGroupAt(k - 1);
      assert multiset(OrderedGroup(slots, k - 1)) == multiset(InGroup(slots, GroupAt(k - 1)));
      GroupHoldsItsOwn(slots, GroupAt(k - 1), s);
      assert multiset(Ordered(slots, k)) == multiset(Ordered(slots, k - 1)) + multiset(OrderedGroup(slots, k - 1));
    }
  }

  lemma OrderedIsPermutation(slots: seq<Slot>)
    ensures multiset(OrderedSlots(slots)) == multiset(slots)
  {
    forall s: Slot
      ensures multiset(OrderedSlots(slots))[s] == multiset(slots)[s]
    {
      OrderedHolds(slots, 5, s);
    }
  }

  // --- the route ---------------------------------------------------------------------------

  function Inspection(s: Slot, sequence: nat): Waypoint {
    Waypoint(InspectionPos(s), INSPECTION, Some(InspectionHeading(GroupOf(s))), Some(s.code), Some(sequence))
  }

  function Inspected(slots: seq<Slot>, done: nat): seq<Waypoint> {
    seq(|slots|, i requires 0 <= i < |slots| => Inspection(slots[i], done + i + 1))
  }

  predicate AllGroupsFilled(slots: seq<Slot>) { forall k :: 0 <= k < 5 ==> OrderedGroup(slots, k) != [] }

  /** Between the last slot of one group and the first of the next: bottom, north, bottom, then the top row. */
  function Transfer(k: nat, end: Point, next: Point): seq<Waypoint> {
    if k == 0 || k == 2 then [Turn(Point(end.x, SOUTH_TRANSFER_Y)), Turn(Point(next.x, SOUTH_TRANSFER_Y))]
    else if k == 1 then [Turn(Point(end.x, NORTH_TRANSFER_Y)), Turn(Point(next.x, NORTH_TRANSFER_Y))]
    else [Turn(Point(end.x, next.y))]
  }

  function FirstPos(slots: seq<Slot>, k: nat): Point
    requires OrderedGroup(slots, k) != []
  {
    InspectionPos(OrderedGroup(slots, k)[0])
  }

  function LastPos(slots: seq<Slot>, k: nat): Point
    requires OrderedGroup(slots, k) != []
  {
    var group := OrderedGroup(slots, k);
    InspectionPos(group[|group| - 1])
  }

  /** The way in: north along the west side, then east to above the first column. */
  function WayIn(first: Point): seq<Waypoint> {
    [WaitingArea(), Transit(Point(REMOTE_WAITING.x, NORTH_TRANSFER_Y)), Transit(Point(first.x, NORTH_TRANSFER_Y))]
  }

  function WayOut(last: Point): seq<Waypoint> { [Transit(Point(REMOTE_WAITING.x, last.y)), WaitingArea()] }

  /** What follows the k-th group: the transfer to the next, if there is one. */
  function Onwards(slots: seq<Slot>, k: nat): seq<Waypoint>
    requires k < 5 && AllGroupsFilled(slots)
  {
    if k == 4 then [] else Transfer(k, LastPos(slots, k), FirstPos(slots, k + 1))
  }

  /** One group's inspections and the way onwards. */
  function GroupLeg(slots: seq<Slot>, k: nat): seq<Waypoint>
    requires k < 5 && AllGroupsFilled(slots)
  {
    Inspected(OrderedGroup(slots, k), |Ordered(slots, k)|) + Onwards(slots, k)
  }

  function Serve(slots: seq<Slot>, n: nat): seq<Waypoint>
    requires n <= 5 && AllGroupsFilled(slots)
  {
    if n == 0 then [] else Serve(slots, n - 1) + GroupLeg(slots, n - 1)
  }

  function CruiseRoute(slots: seq<Slot>): seq<Waypoint>
    requires AllGroupsFilled(slots)
  {
    WayIn(FirstPos(slots, 0)) + Serve(slots, 5) + WayOut(LastPos(slots, 4))
  }

  /** The slots of one group, appended one by one. */
  method InspectGroup(group: seq<Slot>, waypoints: seq<Waypoint>, done: nat)
    returns (more: seq<Waypoint>, sequence: nat)
    ensures more == waypoints + Inspected(group, done)
    ensures sequence == done + |group|
  {
    more, sequence := waypoints, done;
    for i := 0 to |group|
      invariant sequence == done + i
      invariant more == waypoints + Inspected(group[..i], done)
    {
      sequence := sequence + 1;
      more := more + [Inspection(group[i], sequence)];
    }
    assert group[..|group|] == group;
  }

  lemma Joined(a: seq<Waypoint>, b: seq<Waypoint>, c: seq<Waypoint>, d: seq<Waypoint>)
    ensures a + b + c + d == a + (b + (c + d))
  {
  }

  lemma RouteGrows(slots: seq<Slot>, k: nat)
    requires k < 5 && AllGroupsFilled(slots)
    ensures var first := WayIn(FirstPos(slots, 0));
      first + Serve(slots, k) + Inspected(OrderedGroup(slots, k), |Ordered(slots, k)|) + Onwards(slots, k)
      == first + Serve(slots, k + 1)
  {
    Joined(WayIn(FirstPos(slots, 0)), Serve(slots, k),
      Inspected(OrderedGroup(slots, k), |Ordered(slots, k)|), Onwards(slots, k));
  }

  /** None where the source's indexing of an empty group fails. */
  method BuildCruiseWaypoints(slots: seq<Slot>) returns (route: Option<seq<Waypoint>>)
    ensures route.Some? <==> AllGroupsFilled(slots)
    ensures route.Some? ==> route.value == CruiseRoute(slots)
  {
    if !AllGroupsFilled(slots) {
      return None;
    }
    var waypoints := WayIn(FirstPos(slots, 0));
    var sequence := 0;
    for k := 0 to 5
      invariant waypoints == WayIn(FirstPos(slots, 0)) + Serve(slots, k)
      invariant sequence == |Ordered(slots, k)|
    {
      RouteGrows(slots, k);
      waypoints, sequence := InspectGroup(OrderedGroup(slots, k), waypoints, sequence);
      waypoints := waypoints + Onwards(slots, k);
    }
    route := Some(waypoints + WayOut(LastPos(slots, 4)));
  }

  // --- what the route inspects -------------------------------------------------------------

  function Inspections(route: seq<Waypoint>): seq<Waypoint> {
    if route == [] then []
    else
      var n := |route| - 1;
      Inspections(route[..n]) + if route[n].kind == INSPECTION then [route[n]] else []
  }

  lemma {:induction false} InspectionsAppend(a: seq<Waypoint>, b: seq<Waypoint>)
    ensures Inspections(a + b) == Inspections(a) + Inspections(b)
  {
    if b == [] {
      assert a + b == a;
    } else {
      var n := |b| - 1;
      InspectionsAppend(a, b[..n]);
      assert (a + b)[..|a + b| - 1] == a + b[..n];
    }
  }

  lemma {:induction false} AllInspections(route: seq<Waypoint>)
    requires forall i :: 0 <= i < |route| ==> route[i].kind == INSPECTION
    ensures Inspections(route) == route
  {
    if route != [] {
      AllInspections(route[..|route| - 1]);
      assert route == route[..|route| - 1] + [route[|route| - 1]];
    }
  }

  lemma {:induction false} NoInspections(route: seq<Waypoint>)
    requires forall i :: 0 <= i < |route| ==> route[i].kind != INSPECTION
    ensures Inspections(route) == []
  {
    if route != [] {
      NoInspections(route[..|route| - 1]);
    }
  }

  lemma GroupInspects(group: seq<Slot>, done: nat)
    ensures Inspections(Inspected(group, done)) == Inspected(group, done)
  {
    AllInspections(Inspected(group, done));
  }

  lemma TransferInspectsNothing(k: nat, end: Point, next: Point)
    ensures Inspections(Transfer(k, end, next)) == []
  {
    NoInspections(Transfer(k, end, next));
  }

  lemma OnwardsInspectsNothing(slots: seq<Slot>, k: nat)
    requires k < 5 && AllGroupsFilled(slots)
    ensures Inspections(Onwards(slots, k)) == []
  {
    if k < 4 {
      TransferInspectsNothing(k, LastPos(slots, k), FirstPos(slots, k + 1));
    }
  }

  lemma WayInAndOut(first: Point, served: seq<Waypoint>, last: Point)
    ensures Inspections(WayIn(first) + served + WayOut(last)) == Inspections(served)
  {
    NoInspections(WayIn(first));
    NoInspections(WayOut(last));
    InspectionsAppend(WayIn(first), served);
    InspectionsAppend(WayIn(first) + served, WayOut(last));
  }

  lemma InspectedJoin(a: seq<Slot>, b: seq<Slot>)
    ensures Inspected(a + b, 0) == Inspected(a, 0) + Inspected(b, |a|)
  {
  }

  lemma LegInspects(slots: seq<Slot>, k: nat)
    requires k < 5 && AllGroupsFilled(slots)
    ensures Inspections(GroupLeg(slots, k)) == Inspected(OrderedGroup(slots, k), |Ordered(slots, k)|)
  {
    var group, done := OrderedGroup(slots, k), |Ordered(slots, k)|;
    InspectionsAppend(Inspected(group, done), Onwards(slots, k));
    GroupInspects(group, done);
    OnwardsInspectsNothing(slots, k);
  }

  lemma {:induction false} ServeInspects(slots: seq<Slot>, n: nat)
    requires n <= 5 && AllGroupsFilled(slots)
    ensures Inspections(Serve(slots, n)) == Inspected(Ordered(slots, n), 0)
  {
    if n > 0 {
      ServeInspects(slots, n - 1);
      LegInspects(slots, n - 1);
      InspectionsAppend(Serve(slots, n - 1), GroupLeg(slots, n - 1));
      InspectedJoin(Ordered(slots, n - 1), OrderedGroup(slots, n - 1));
    }
  }

  /** Coverage: the inspections are the slots in cruise order, numbered from 1, none missing and none twice. */
  lemma CruiseCovers(slots: seq<Slot>)
    requires AllGroupsFilled(slots)
    ensures Inspections(CruiseRoute(slots)) == Inspected(OrderedSlots(slots), 0)
    ensures multiset(OrderedSlots(slots)) == multiset(slots)
  {
    OrderedIsPermutation(slots);
    ServeInspects(slots, 5);
    WayInAndOut(FirstPos(slots, 0), Serve(slots, 5), LastPos(slots, 4));
  }

  // --- how the route turns -----------------------------------------------------------------

  predicate Rectilinear(route: seq<Waypoint>) {
    forall i :: 0 <= i < |route| - 1 ==> Straight(route[i].pos, route[i + 1].pos)
  }

  /** Slots of one column share an x, slots of the top row share a y. */
  ghost predicate Aligned(slots: seq<Slot>, lane: Group -> real) {
    forall s :: s in slots ==> (if GroupOf(s) == Top then s.pos.y else s.pos.x) == lane(GroupOf(s))
  }

  lemma {:induction false} InGroupComesFrom(slots: seq<Slot>, g: Group)
    ensures forall s :: s in InGroup(slots, g) ==> s in slots && GroupOf(s) == g
  {
    if slots != [] {
      InGroupComesFrom(slots[..|slots| - 1], g);
    }
  }

  lemma OrderedGroupComesFrom(slots: seq<Slot>, k: nat)
    ensures forall s :: s in OrderedGroup(slots, k) ==> s in slots && GroupOf(s) == GroupAt(k)
  {
    InGroupComesFrom(slots, GroupAt(k));
    forall s | s in OrderedGroup(slots, k)
      ensures s in InGroup(slots, GroupAt(k))
    {
      assert s in multiset(OrderedGroup(slots, k));
    }
  }

  /** A rectilinear stretch that starts at `first` and can go straight on to `next`. */
  ghost predicate Stretch(route: seq<Waypoint>, first: Point, next: Point) {
    && route != [] && Rectilinear(route)
    && route[0].pos == first && Straight(route[|route| - 1].pos, next)
  }

  lemma StretchJoin(a: seq<Waypoint>, b: seq<Waypoint>, first: Point, mid: Point, next: Point)
    requires Stretch(a, first, mid) && Stretch(b, mid, next)
    ensures Stretch(a + b, first, next)
  {
  }

  lemma TransferIsStretch(k: nat, end: Point, next: Point)
    ensures Straight(end, Transfer(k, end, next)[0].pos)
    ensures Stretch(Transfer(k, end, next), Transfer(k, end, next)[0].pos, next)
  {
  }

  lemma InspectedIsStretch(group: seq<Slot>, done: nat, next: Point)
    requires group != [] && Straight(InspectionPos(group[|group| - 1]), next)
    requires forall i :: 0 <= i < |group| - 1 ==> Straight(InspectionPos(group[i]), InspectionPos(group[i + 1]))
    ensures Stretch(Inspected(group, done), InspectionPos(group[0]), next)
  {
  }

  lemma OnOneLine(slots: seq<Slot>, lane: Group -> real, a: Slot, b: Slot)
    requires Aligned(slots, lane) && a in slots && b in slots && GroupOf(a) == GroupOf(b)
    ensures Straight(InspectionPos(a), InspectionPos(b))
  {
  }

  /** Within a group the vehicle stays on one line. */
  lemma GroupIsStretch(slots: seq<Slot>, k: nat, done: nat, lane: Group -> real, next: Point)
    requires k < 5 && Aligned(slots, lane) && OrderedGroup(slots, k) != []
    requires Straight(LastPos(slots, k), next)
    ensures Stretch(Inspected(OrderedGroup(slots, k), done), FirstPos(slots, k), next)
  {
    var group := OrderedGroup(slots, k);
    OrderedGroupComesFrom(slots, k);
    forall i | 0 <= i < |group| - 1
      ensures Straight(InspectionPos(group[i]), InspectionPos(group[i + 1]))
    {
      assert group[i] in group && group[i + 1] in group;
      OnOneLine(slots, lane, group[i], group[i + 1]);
    }
    InspectedIsStretch(group, done, next);
  }

  /** Where the vehicle goes from the k-th group. */
  function NextPos(slots: seq<Slot>, k: nat): Point
    requires k < 5 && AllGroupsFilled(slots)
  {
    if k == 4 then Point(REMOTE_WAITING.x, LastPos(slots, 4).y) else FirstPos(slots, k + 1)
  }

  lemma GroupLegIsStretch(slots: seq<Slot>, k: nat, lane: Group -> real)
    requires k < 5 && AllGroupsFilled(slots) && Aligned(slots, lane)
    ensures Stretch(GroupLeg(slots, k), FirstPos(slots, k), NextPos(slots, k))
  {
    var done := |Ordered(slots, k)|;
    var here, out := Inspected(OrderedGroup(slots, k), done), Onwards(slots, k);
    if k < 4 {
      TransferIsStretch(k, LastPos(slots, k), FirstPos(slots, k + 1));
      GroupIsStretch(slots, k, done, lane, out[0].pos);
      StretchJoin(here, out, FirstPos(slots, k), out[0].pos, NextPos(slots, k));
    } else {
      GroupIsStretch(slots, k, done, lane, NextPos(slots, k));
      assert here + out == here;
    }
  }

  lemma {:induction false} ServeIsStretch(slots: seq<Slot>, n: nat, lane: Group -> real)
    requires n < 5 && AllGroupsFilled(slots) && Aligned(slots, lane)
    ensures Stretch(Serve(slots, n + 1), FirstPos(slots, 0), NextPos(slots, n))
  {
    GroupLegIsStretch(slots, n, lane);
    if n == 0 {
      assert Serve(slots, 0) + GroupLeg(slots, n) == GroupLeg(slots, n);
    } else {
      ServeIsStretch(slots, n - 1, lane);
      StretchJoin(Serve(slots, n), GroupLeg(slots, n), FirstPos(slots, 0), FirstPos(slots, n), NextPos(slots, n));
    }
  }

  lemma WayInAndOutAreStretches(first: Point, served: seq<Waypoint>, last: Point)
    requires Stretch(served, first, Point(REMOTE_WAITING.x, last.y))
    ensures Rectilinear(WayIn(first) + served + WayOut(last))
  {
    StretchJoin(WayIn(first), served, REMOTE_WAITING, first, Point(REMOTE_WAITING.x, last.y));
    StretchJoin(WayIn(first) + served, WayOut(last), REMOTE_WAITING, Point(REMOTE_WAITING.x, last.y), REMOTE_WAITING);
  }

  /** Over aligned slots, every leg of the cruise runs north-south or east-west. */
  lemma CruiseIsRectilinear(slots: seq<Slot>, lane: Group -> real)
    requires AllGroupsFilled(slots) && Aligned(slots, lane)
    ensures Rectilinear(CruiseRoute(slots))
  {
    ServeIsStretch(slots, 4, lane);
    WayInAndOutAreStretches(FirstPos(slots, 0), Serve(slots, 5), LastPos(slots, 4));
  }

  // --- how the columns are swept -----------------------------------------------------------

  ghost predicate Falling(v: seq<real>) { forall i, j :: 0 <= i < j < |v| ==> v[i] >= v[j] }

  ghost predicate Rising(v: seq<real>) { forall i, j :: 0 <= i < j < |v| ==> v[i] <= v[j] }

  /**
   Column slots lie between the two transfer lanes, and the lane below the top row is no further
   south than the north one.
  */
  ghost predicate InField(slots: seq<Slot>) {
    forall s :: s in slots ==>
      if GroupOf(s) == Top then InspectionPos(s).y >= NORTH_TRANSFER_Y && s.pos.x >= REMOTE_WAITING.x
      else SOUTH_TRANSFER_Y <= s.pos.y <= NORTH_TRANSFER_Y
  }

  /** The waypoint from which the vehicle enters a column. */
  function EntryTo(slots: seq<Slot>, k: nat): Point
    requires k < 4 && AllGroupsFilled(slots)
  {
    if k == 0 then WayIn(FirstPos(slots, 0))[2].pos
    else
      var t := Transfer(k - 1, LastPos(slots, k - 1), FirstPos(slots, k));
      t[|t| - 1].pos
  }

  /** The first waypoint after a column. */
  function ExitFrom(slots: seq<Slot>, k: nat): Point
    requires k < 4 && AllGroupsFilled(slots)
  {
    Onwards(slots, k)[0].pos
  }

  function Heights(group: seq<Slot>): seq<real> {
    seq(|group|, i requires 0 <= i < |group| => InspectionPos(group[i]).y)
  }

  lemma GroupInField(slots: seq<Slot>, k: nat, i: nat)
    requires InField(slots) && i < |OrderedGroup(slots, k)|
    ensures var s := OrderedGroup(slots, k)[i];
      && GroupOf(s) == GroupAt(k)
      && (GroupAt(k) != Top ==> InspectionPos(s).y == s.pos.y && SOUTH_TRANSFER_Y <= s.pos.y <= NORTH_TRANSFER_Y)
      && (GroupAt(k) == Top ==>
           InspectionPos(s).x == s.pos.x >= REMOTE_WAITING.x && InspectionPos(s).y >= NORTH_TRANSFER_Y)
  {
    OrderedGroupComesFrom(slots, k);
    assert OrderedGroup(slots, k)[i] in OrderedGroup(slots, k);
  }

  lemma HeightOfColumnSlot(slots: seq<Slot>, k: nat, i: nat, j: nat)
    requires k < 4 && InField(slots) && i < j < |OrderedGroup(slots, k)|
    ensures var y, z := InspectionPos(OrderedGroup(slots, k)[i]).y, InspectionPos(OrderedGroup(slots, k)[j]).y;
      if k == 0 || k == 2 then y >= z else y <= z
  {
    SortIsStable(InGroup(slots, GroupAt(k)), 0.0);
    GroupInField(slots, k, i);
    GroupInField(slots, k, j);
  }

  lemma HeightsInOrder(slots: seq<Slot>, k: nat)
    requires k < 4 && InField(slots)
    ensures var heights := Heights(OrderedGroup(slots, k));
      if k == 0 || k == 2 then Falling(heights) else Rising(heights)
  {
    forall i, j | 0 <= i < j < |OrderedGroup(slots, k)|
      ensures var v := Heights(OrderedGroup(slots, k)); if k == 0 || k == 2 then v[i] >= v[j] else v[i] <= v[j]
    {
      HeightOfColumnSlot(slots, k, i, j);
    }
  }

  /** Where the transfers meet the columns: north, south, south, north, north, south, south, and the top row. */
  lemma EntriesAndExits(slots: seq<Slot>, k: nat)
    requires k < 4 && AllGroupsFilled(slots) && InField(slots)
    ensures if k == 0 || k == 2 then EntryTo(slots, k).y == NORTH_TRANSFER_Y && ExitFrom(slots, k).y == SOUTH_TRANSFER_Y
            else EntryTo(slots, k).y == SOUTH_TRANSFER_Y && ExitFrom(slots, k).y >= NORTH_TRANSFER_Y
  {
    GroupInField(slots, 4, 0);
  }

  lemma EndsFallToo(v: seq<real>, hi: real, lo: real)
    requires Falling(v) && lo <= hi && forall i :: 0 <= i < |v| ==> lo <= v[i] <= hi
    ensures Falling([hi] + v + [lo])
  {
  }

  lemma EndsRiseToo(v: seq<real>, lo: real, hi: real)
    requires Rising(v) && lo <= hi && forall i :: 0 <= i < |v| ==> lo <= v[i] <= hi
    ensures Rising([lo] + v + [hi])
  {
  }

  /**
   No column is driven back and forth: from the waypoint before it to the waypoint after it,
   columns 1 and 3 are swept southwards all the way, columns 2 and 4 northwards.
  */
  lemma ColumnsAreSwept(slots: seq<Slot>, k: nat)
    requires k < 4 && AllGroupsFilled(slots) && InField(slots)
    ensures var sweep := [EntryTo(slots, k).y] + Heights(OrderedGroup(slots, k)) + [ExitFrom(slots, k).y];
      if k == 0 || k == 2 then Falling(sweep) else Rising(sweep)
  {
    var heights := Heights(OrderedGroup(slots, k));
    forall i | 0 <= i < |heights|
      ensures SOUTH_TRANSFER_Y <= heights[i] <= NORTH_TRANSFER_Y
    {
      GroupInField(slots, k, i);
    }
    HeightsInOrder(slots, k);
    EntriesAndExits(slots, k);
    if k == 0 || k == 2 {
      EndsFallToo(heights, EntryTo(slots, k).y, ExitFrom(slots, k).y);
    } else {
      EndsRiseToo(heights, EntryTo(slots, k).y, ExitFrom(slots, k).y);
    }
  }

  lemma KeysInOrder(slots: seq<Slot>, k: nat, i: nat, j: nat)
    requires i <= j < |OrderedGroup(slots, k)|
    ensures Key(OrderedGroup(slots, k)[i]) <= Key(OrderedGroup(slots, k)[j])
  {
    SortIsStable(InGroup(slots, GroupAt(k)), 0.0);
    assert i == j || InOrder(OrderedGroup(slots, k));
  }

  lemma TopKey(slots: seq<Slot>, k: nat, i: nat)
    requires GroupAt(k) == Top && InField(slots) && i < |OrderedGroup(slots, k)|
    ensures var s := OrderedGroup(slots, k)[i];
      InspectionPos(s).x >= REMOTE_WAITING.x && Key(s) == -InspectionPos(s).x
  {
    GroupInField(slots, k, i);
  }

  lemma RowOrder(slots: seq<Slot>, k: nat, i: nat, j: nat)
    requires GroupAt(k) == Top && InField(slots) && i <= j < |OrderedGroup(slots, k)|
    ensures var row := OrderedGroup(slots, k);
      InspectionPos(row[i]).x >= InspectionPos(row[j]).x >= REMOTE_WAITING.x
  {
    KeysInOrder(slots, k, i, j);
    TopKey(slots, k, i);
    TopKey(slots, k, j);
  }

  /** The top row is driven westwards, from its first slot to the waypoint over the waiting area. */
  lemma TopRowIsSwept(slots: seq<Slot>, i: nat, j: nat)
    requires AllGroupsFilled(slots) && InField(slots) && i <= j < |OrderedGroup(slots, 4)|
    ensures var row := OrderedGroup(slots, 4);
      InspectionPos(row[i]).x >= InspectionPos(row[j]).x >= WayOut(LastPos(slots, 4))[0].pos.x
  {
    RowOrder(slots, 4, i, j);
  }
}
