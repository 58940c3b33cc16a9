/** The return route from far off every lane: across to the nearest north-south lane, and round by the south. */
module FallbackRoutes {
  import opened Wrappers
  import opened Corridor
  import opened Routes

  /** The nearest north-south lane, the first listed of equally near ones. */
  ghost predicate FirstNearest(x: real, vx: real) {
    exists j: nat :: j < |CORRIDOR_VERTICALS| && CORRIDOR_VERTICALS[j].at == vx && IsFirstNearest(x, j)
  }

  ghost predicate IsFirstNearest(x: real, j: nat)
    requires j < |CORRIDOR_VERTICALS|
  {
    var d := Abs(CORRIDOR_VERTICALS[j].at - x);
    && (forall i :: 0 <= i < j ==> d < Abs(CORRIDOR_VERTICALS[i].at - x))
    && (forall i :: j < i < |CORRIDOR_VERTICALS| ==> d <= Abs(CORRIDOR_VERTICALS[i].at - x))
  }

  /** Across to the lane; down it (or beside it, by no more than a micrometre) to y = 1; west; up the spur. */
  predicate FallbackLeg(pose: Point, vx: real, p: Point, q: Point) {
    || (p == pose && q == Point(vx, pose.y))
    || (p.y == pose.y && Abs(p.x - vx) <= 0.000001 && q == Point(vx, 1.0))
    || (p == Point(vx, 1.0) && q == Point(1.2, 1.0))
    || (p == Point(1.2, 1.0) && q == Point(1.2, 1.2))
  }

  /**
   From the pose over the lane at vx to the waiting area: legs of the four kinds only, no leg
   of no length, and together as long as the way across, down, west and up.
  */
  ghost predicate GoesRound(pose: Point, vx: real, route: seq<Waypoint>) {
    && |route| >= 2 && PassesThrough(route[0], pose) && Waits(route[|route| - 1])
    && (forall i :: 0 <= i < |route| - 1 ==> PassesThrough(route[i], route[i].pos))
    && (forall i :: 0 <= i < |route| - 1 ==>
         route[i].pos != route[i + 1].pos && FallbackLeg(pose, vx, route[i].pos, route[i + 1].pos))
    && PathLength(Positions(route)) == Abs(vx - pose.x) + Abs(pose.y - 1.0) + (vx - 1.2) + 0.2
  }

  ghost predicate FallsBack(pose: Point, route: seq<Waypoint>) {
    exists vx :: FirstNearest(pose.x, vx) && GoesRound(pose, vx, route)
  }

  method FallbackReturn(pose: Point) returns (route: seq<Waypoint>)
    ensures FallsBack(pose, route)
  {
    var vx := CORRIDOR_VERTICALS[0].at;
    ghost var j := 0;
    for i := 1 to |CORRIDOR_VERTICALS|
      invariant 0 <= j < i && CORRIDOR_VERTICALS[j].at == vx
      invariant forall k :: 0 <= k < j ==> Abs(vx - pose.x) < Abs(CORRIDOR_VERTICALS[k].at - pose.x)
      invariant forall k :: j < k < i ==> Abs(vx - pose.x) <= Abs(CORRIDOR_VERTICALS[k].at - pose.x)
    {
      if Abs(CORRIDOR_VERTICALS[i].at - pose.x) < Abs(vx - pose.x) {
        vx, j := CORRIDOR_VERTICALS[i].at, i;
      }
    }
    assert IsFirstNearest(pose.x, j);
    route := [Transit(pose)];
    if Abs(vx - pose.x) > 0.000001 {
      route := route + [Transit(Point(vx, pose.y))];
    }
    route := route + [Transit(Point(vx, 1.0)), Transit(WEST_SOUTH), WaitingArea()];
    StopsGoRound(pose, vx, route);
    route := DedupeWaypoints(route);
  }

  lemma {:induction false} StopsGoRound(pose: Point, vx: real, stops: seq<Waypoint>)
    requires vx >= 1.2
    requires stops == [Transit(pose)] + (if Abs(vx - pose.x) > 0.000001 then [Transit(Point(vx, pose.y))] else [])
                      + [Transit(Point(vx, 1.0)), Transit(WEST_SOUTH), WaitingArea()]
    ensures GoesRound(pose, vx, Deduped(stops))
  {
    var d := Deduped(stops);
    DedupedLegs(stops);
    StopsLength(pose, vx, stops);
    forall i | 0 <= i < |d| - 1
      ensures FallbackLeg(pose, vx, d[i].pos, d[i + 1].pos)
    {
      LegOfStops(pose, vx, stops, d[i].pos, d[i + 1].pos);
    }
    FallbackEnds(pose, vx, stops);
  }

  lemma {:induction false} LegOfStops(pose: Point, vx: real, stops: seq<Waypoint>, p: Point, q: Point)
    requires stops == [Transit(pose)] + (if Abs(vx - pose.x) > 0.000001 then [Transit(Point(vx, pose.y))] else [])
                      + [Transit(Point(vx, 1.0)), Transit(WEST_SOUTH), WaitingArea()]
    requires IsLeg(stops, p, q)
    ensures FallbackLeg(pose, vx, p, q)
  {
    var k :| 0 <= k < |stops| - 1 && stops[k].pos == p && stops[k + 1].pos == q;
  }

  lemma {:induction false} StopsLength(pose: Point, vx: real, stops: seq<Waypoint>)
    requires vx >= 1.2
    requires stops == [Transit(pose)] + (if Abs(vx - pose.x) > 0.000001 then [Transit(Point(vx, pose.y))] else [])
                      + [Transit(Point(vx, 1.0)), Transit(WEST_SOUTH), WaitingArea()]
    ensures PathLength(Positions(stops)) == Abs(vx - pose.x) + Abs(pose.y - 1.0) + (vx - 1.2) + 0.2
  {
    var one := [Transit(pose)] + if Abs(vx - pose.x) > 0.000001 then [Transit(Point(vx, pose.y))] else [];
    var two := one + [Transit(Point(vx, 1.0))];
    var three := two + [Transit(WEST_SOUTH)];
    assert stops == three + [WaitingArea()];
    LengthWithOneMore(three, WaitingArea());
    LengthWithOneMore(two, Transit(WEST_SOUTH));
    LengthWithOneMore(one, Transit(Point(vx, 1.0)));
  }

  lemma {:induction false} FallbackEnds(pose: Point, vx: real, stops: seq<Waypoint>)
    requires |stops| >= 4 && stops[0] == Transit(pose)
    requires stops[|stops| - 2..] == [Transit(WEST_SOUTH), WaitingArea()]
    requires forall i :: 0 <= i < |stops| - 1 ==> stops[i] == Transit(stops[i].pos)
    ensures var d := Deduped(stops);
      && |d| >= 2 && PassesThrough(d[0], pose) && Waits(d[|d| - 1])
      && forall i :: 0 <= i < |d| - 1 ==> PassesThrough(d[i], d[i].pos)
  {
    var n := |stops| - 1;
    var front := Deduped(stops[..n]);
    assert stops[n - 1..][0] == stops[n - 1] && stops[n - 1..][1] == stops[n];
    assert stops[..n][n - 1].pos == WEST_SOUTH;
    assert front[|front| - 1].pos == WEST_SOUTH;
    forall i | 0 <= i < |front|
      ensures PassesThrough(front[i], front[i].pos)
    {
      assert front[i] in stops[..n];
    }
    assert Deduped(stops) == front + [WaitingArea()];
    assert stops[..n][0] == stops[0];
  }

  lemma {:induction false} LanesOfFallback(j: nat, y: real)
    requires j < |CORRIDOR_VERTICALS| && 1.0 <= y <= 27.0
    ensures var vx := CORRIDOR_VERTICALS[j].at;
      SameLane(Point(vx, y), Point(vx, 1.0)) && SameLane(Point(vx, 1.0), Point(1.2, 1.0))
    ensures SameLane(Point(1.2, 1.0), Point(1.2, 1.2))
  {
    var l := CORRIDOR_VERTICALS[j];
    assert l in CORRIDOR_VERTICALS && OnVertical(l, Point(l.at, y)) && OnVertical(l, Point(l.at, 1.0));
    var south := CORRIDOR_HORIZONTALS[0];
    assert south in CORRIDOR_HORIZONTALS;
    assert OnHorizontal(south, Point(l.at, 1.0)) && OnHorizontal(south, Point(1.2, 1.0));
    var west := CORRIDOR_VERTICALS[0];
    assert west in CORRIDOR_VERTICALS && OnVertical(west, Point(1.2, 1.0)) && OnVertical(west, Point(1.2, 1.2));
  }

  /** From a height the lanes span, everything after the way across is driven on lanes. */
  lemma {:induction false} FallbackKeepsLanes(pose: Point, vx: real, route: seq<Waypoint>, i: nat)
    requires FirstNearest(pose.x, vx) && GoesRound(pose, vx, route) && 1.0 <= pose.y <= 27.0
    requires i < |route| - 1 && (route[i].pos.x == vx || route[i].pos == Point(1.2, 1.0))
    ensures SameLane(route[i].pos, route[i + 1].pos)
  {
    var j: nat :| j < |CORRIDOR_VERTICALS| && CORRIDOR_VERTICALS[j].at == vx && IsFirstNearest(pose.x, j);
    LanesOfFallback(j, pose.y);
    assert FallbackLeg(pose, vx, route[i].pos, route[i + 1].pos) && route[i].pos != route[i + 1].pos;
  }
}
