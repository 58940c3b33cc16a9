/** The return planner: join the nearest corridor lane, then the cheapest way to the waiting area. */
module ReturnRoute {
  import opened Wrappers
  import opened Graphs
  import Dijkstra
  import opened Corridor
  import opened CorridorGraphs
  import opened Projection
  import opened Routes
  import opened FallbackRoutes

  // --- lengths -----------------------------------------------------------------------------

  /** The closed form: straight down to WEST_SOUTH by city-block distance, then the 0.2 m spur. */
  function ReturnLength(join: Point): real {
    if join == REMOTE_WAITING then 0.0 else L1(join, WEST_SOUTH) + 0.2
  }

  /** From join to the waiting area, every leg on one lane, no point twice, closed-form length. */
  ghost predicate IsReturnPath(s: seq<Point>, join: Point) {
    && |s| > 0 && s[0] == join && s[|s| - 1] == REMOTE_WAITING
    && LegsOnLanes(s) && Distinct(s)
    && PathLength(s) == ReturnLength(join)
  }

  function Places(xy: seq<Point>, nodes: seq<Node>): (s: seq<Point>)
    requires forall n :: n in nodes ==> 0 <= n < |xy|
    ensures |s| == |nodes|
    ensures forall i :: 0 <= i < |s| ==> nodes[i] in nodes && s[i] == xy[nodes[i]]
  {
    seq(|nodes|, i requires 0 <= i < |nodes| => assert nodes[i] in nodes; xy[nodes[i]])
  }

  lemma {:induction false} WalkStaysInRange(g: Adjacency, xy: seq<Point>, w: Walk)
    requires InRange(g, xy) && w.In(g) && 0 <= w.Origin() < |xy|
    ensures forall n :: n in w.Nodes() ==> 0 <= n < |xy|
    ensures 0 <= w.Last() < |xy|
  {
    match w
    case Start(_) =>
    case Hop(v, n, c) =>
      WalkStaysInRange(g, xy, v);
      assert Arc(n, c) in Arcs(g, v.Last());
  }

  /** No corridor arc undercuts the closed form. */
  lemma ArcKeepsClosedForm(p: Point, q: Point, w: real)
    requires CorridorArc(p, q, w)
    ensures ReturnLength(p) <= w + ReturnLength(q)
  {
  }

  // --- attaching the join point ------------------------------------------------------------

  predicate OnSomeLane(p: Point) {
    || (exists l :: l in CORRIDOR_VERTICALS && OnVertical(l, p))
    || (exists l :: l in CORRIDOR_HORIZONTALS && OnHorizontal(l, p))
  }

  ghost predicate AllLanesLinked(keys: map<Point, int>, g: Adjacency) {
    && (forall l :: l in Lanes(true) ==> LaneLinked(keys, g, true, l, Crossing(true)))
    && (forall l :: l in Lanes(false) ==> LaneLinked(keys, g, false, l, Crossing(false)))
    && WEST_SOUTH in keys && REMOTE_WAITING in keys
    && HasWalk(g, keys[WEST_SOUTH], keys[REMOTE_WAITING], 0.2)
  }

  /** From the low end of any lane it is L1 to WEST_SOUTH, along the boundary lane there. */
  lemma LowEndReaches(keys: map<Point, int>, g: Adjacency, vertical: bool, l: Lane)
    requires AllLanesLinked(keys, g) && l in Lanes(vertical)
    ensures At(vertical, l, l.lo) in keys && At(vertical, l, l.hi) in keys
    ensures HasWalk(g, keys[At(vertical, l, l.lo)], keys[REMOTE_WAITING], l.at - 1.2 + 0.2)
         || !vertical
    ensures vertical || HasWalk(g, keys[At(vertical, l, l.lo)], keys[REMOTE_WAITING], l.at - 1.0 + 0.2)
  {
    assert CutLinked(keys, g, vertical, l, l.hi) by { assert IsCut(l, Crossing(vertical), l.hi); }
    var boundary := Lanes(!vertical)[0];
    assert boundary in Lanes(!vertical) && Crosses(boundary, l);
    assert IsCut(boundary, Crossing(!vertical), l.at);
    assert CutLinked(keys, g, !vertical, boundary, l.at);
    assert At(!vertical, boundary, l.at) == At(vertical, l, l.lo);
    assert At(!vertical, boundary, boundary.lo) == WEST_SOUTH;
    HasWalkJoin(g, keys[At(vertical, l, l.lo)], keys[WEST_SOUTH], keys[REMOTE_WAITING], l.at - boundary.lo, 0.2);
  }

  /** How far along a lane a point is. */
  function Coordinate(vertical: bool, p: Point): real { if vertical then p.y else p.x }

  function Offset(vertical: bool, p: Point): real { if vertical then p.x else p.y }

  /** The planner's lane test: within a micrometre of the lane's axis and between its ends. */
  predicate Touches(vertical: bool, l: Lane, p: Point) {
    Abs(Offset(vertical, p) - l.at) < 0.000001 && l.lo <= Coordinate(vertical, p) <= l.hi
  }

  /** Rounded, a point that touches a lane is on it, at most half a tick further along. */
  lemma JoinOnLane(vertical: bool, l: Lane, p: Point)
    requires l in Lanes(vertical) && Touches(vertical, l, p)
    ensures var r := RoundPoint(p);
      && Offset(vertical, r) == l.at && l.lo <= Coordinate(vertical, r) <= l.hi
      && -0.00005 <= Coordinate(vertical, r) - Coordinate(vertical, p) <= 0.00005
  {
    LanesOnGrid();
    assert l in CORRIDOR_VERTICALS + CORRIDOR_HORIZONTALS;
    RoundStays(Offset(vertical, p), l.at);
    RoundStays(Coordinate(vertical, p), l.lo);
    RoundStays(Coordinate(vertical, p), l.hi);
    RoundError(Coordinate(vertical, p));
  }

  datatype LaneRef = LaneRef(vertical: bool, lane: Lane)

  /** The first lane the point touches, verticals before horizontals. */
  method FindLane(p: Point) returns (found: Option<LaneRef>)
    ensures found.Some? ==>
      var LaneRef(vertical, l) := found.value; l in Lanes(vertical) && Touches(vertical, l, p)
    ensures OnSomeLane(p) ==> found.Some?
    ensures found.Some? ==>
      var LaneRef(vertical, l) := found.value;
      var across, along := if vertical then p.x else p.y, if vertical then p.y else p.x;
      -0.000001 < across - l.at < 0.000001 && l.lo <= along <= l.hi
  {
    for i := 0 to |CORRIDOR_VERTICALS|
      invariant forall j :: 0 <= j < i ==> !Touches(true, CORRIDOR_VERTICALS[j], p)
    {
      if Touches(true, CORRIDOR_VERTICALS[i], p) {
        return Some(LaneRef(true, CORRIDOR_VERTICALS[i]));
      }
    }
    for i := 0 to |CORRIDOR_HORIZONTALS|
      invariant forall j :: 0 <= j < i ==> !Touches(false, CORRIDOR_HORIZONTALS[j], p)
    {
      if Touches(false, CORRIDOR_HORIZONTALS[i], p) {
        return Some(LaneRef(false, CORRIDOR_HORIZONTALS[i]));
      }
    }
    return None;
  }

  /** Arcs added at the join point lead to the two ends of its lane. */
  ghost predicate JoinArcs(
    g: Adjacency, g': Adjacency, at: Node, low: Node, high: Node, toLow: real, toHigh: real)
  {
    forall u, x :: x in Arcs(g', u) ==>
      || x in Arcs(g, u)
      || (u == at && x == Arc(low, toLow)) || (u == low && x == Arc(at, toLow))
      || (u == at && x == Arc(high, toHigh)) || (u == high && x == Arc(at, toHigh))
  }

  /** The node at stands at p, rounded, and is linked to the ends of a lane p touches, as long as p is from them. */
  ghost predicate Attached(
    g: Adjacency, g': Adjacency, xy: seq<Point>, vertical: bool, l: Lane, p: Point, at: Node, low: Node, high: Node)
  {
    && l in Lanes(vertical) && Touches(vertical, l, p) && AllCorridorArcs(g, xy)
    && 0 <= at < |xy| && 0 <= low < |xy| && 0 <= high < |xy|
    && xy[at] == RoundPoint(p) && xy[low] == At(vertical, l, l.lo) && xy[high] == At(vertical, l, l.hi)
    && JoinArcs(g, g', at, low, high, Coordinate(vertical, p) - l.lo, l.hi - Coordinate(vertical, p))
  }

  /** Some corridor graph became this one by attaching p, which can go by the low end of its lane. */
  ghost predicate IsAttached(g': Adjacency, xy: seq<Point>, p: Point, at: Node, remote: Node) {
    exists g, vertical, l, low, high ::
      Attached(g, g', xy, vertical, l, p, at, low, high) && HasWalk(g', at, remote, ByLowEnd(vertical, l, p))
  }

  method AppendEnds(graph: CorridorGraph, at: Node, low: Node, high: Node, toLow: real, toHigh: real)
    modifies graph`adjacency
    ensures JoinArcs(old(graph.adjacency), graph.adjacency, at, low, high, toLow, toHigh)
    ensures Extends(old(graph.adjacency), graph.adjacency) && Arc(low, toLow) in Arcs(graph.adjacency, at)
  {
    graph.Append(at, low, toLow);
    graph.Append(low, at, toLow);
    graph.Append(at, high, toHigh);
    graph.Append(high, at, toHigh);
  }

  /** Connect the node at p to both ends of the lane it touches. */
  method ConnectToLane(graph: CorridorGraph, p: Point, at: Node)
    requires graph.Valid() && AllLanesLinked(graph.keyToIdx, graph.adjacency) && OnSomeLane(p)
    requires 0 <= at < |graph.nodeXy| && graph.nodeXy[at] == RoundPoint(p)
    modifies graph`adjacency
    ensures InRange(graph.adjacency, graph.nodeXy) && NonNegative(graph.adjacency)
    ensures Reachable(graph.adjacency, at, graph.keyToIdx[REMOTE_WAITING])
    ensures IsAttached(graph.adjacency, graph.nodeXy, p, at, graph.keyToIdx[REMOTE_WAITING])
  {
    ghost var g0 := graph.adjacency;
    var found := FindLane(p);
    if found.None? {
      assert false;
    }
    var LaneRef(vertical, l) := found.value;
    LowEndReaches(graph.keyToIdx, g0, vertical, l);
    var low, high := graph.keyToIdx[At(vertical, l, l.lo)], graph.keyToIdx[At(vertical, l, l.hi)];
    var toLow, toHigh := Abs(Coordinate(vertical, p) - l.lo), Abs(l.hi - Coordinate(vertical, p));
    AppendEnds(graph, at, low, high, toLow, toHigh);
    AttachedWalk(graph.keyToIdx, g0, graph.adjacency, vertical, l, p, at, toLow);
    ArcsInRange(graph.nodeXy, g0, graph.adjacency, at, low, high, toLow, toHigh);
    ArcsNonNegative(graph.nodeXy, g0, graph.adjacency, at, low, high, toLow, toHigh);
    assert Attached(g0, graph.adjacency, graph.nodeXy, vertical, l, p, at, low, high);
  }

  /** The join point becomes a node of the graph, on its lane. */
  method Attach(graph: CorridorGraph, p: Point) returns (at: Node, remote: Node)
    requires graph.Valid() && AllLanesLinked(graph.keyToIdx, graph.adjacency) && OnSomeLane(p)
    modifies graph
    ensures Indexed(graph.keyToIdx, graph.nodeXy) && InRange(graph.adjacency, graph.nodeXy)
    ensures NonNegative(graph.adjacency)
    ensures 0 <= at < |graph.nodeXy| && graph.nodeXy[at] == RoundPoint(p)
    ensures 0 <= remote < |graph.nodeXy| && graph.nodeXy[remote] == REMOTE_WAITING
    ensures Reachable(graph.adjacency, at, remote)
    ensures IsAttached(graph.adjacency, graph.nodeXy, p, at, remote)
  {
    at := graph.Idx(p);
    remote := graph.keyToIdx[REMOTE_WAITING];
    GrownArcs(graph.adjacency, old(graph.nodeXy), graph.nodeXy);
    AllLinksKept(old(graph.keyToIdx), graph.adjacency, graph.keyToIdx, graph.adjacency);
    ConnectToLane(graph, p, at);
  }

  lemma AllLinksKept(keys: map<Point, int>, g: Adjacency, keys': map<Point, int>, g': Adjacency)
    requires AllLanesLinked(keys, g) && KeysExtend(keys, keys') && Extends(g, g')
    ensures AllLanesLinked(keys', g')
  {
    AllLanesKept(keys, g, keys', g');
    HasWalkExtends(g, g', keys[WEST_SOUTH], keys[REMOTE_WAITING], 0.2);
  }

  /** How far a point on a lane is from the waiting area, going by its low end. */
  function ByLowEnd(vertical: bool, l: Lane, p: Point): real {
    Abs(Coordinate(vertical, p) - l.lo) + (l.at - (if vertical then 1.2 else 1.0) + 0.2)
  }

  lemma AttachedWalk(
    keys: map<Point, int>, g: Adjacency, g': Adjacency, vertical: bool, l: Lane, p: Point, at: Node, toLow: real)
    requires AllLanesLinked(keys, g) && Extends(g, g')
    requires l in Lanes(vertical) && Touches(vertical, l, p)
    requires toLow == Abs(Coordinate(vertical, p) - l.lo)
    requires At(vertical, l, l.lo) in keys && Arc(keys[At(vertical, l, l.lo)], toLow) in Arcs(g', at)
    ensures HasWalk(g', at, keys[REMOTE_WAITING], ByLowEnd(vertical, l, p))
  {
    LowEndReaches(keys, g, vertical, l);
    var low := keys[At(vertical, l, l.lo)];
    var rest := l.at - (if vertical then 1.2 else 1.0) + 0.2;
    HasWalkExtends(g, g', low, keys[REMOTE_WAITING], rest);
    ArcIsWalk(g', at, Arc(low, toLow));
    HasWalkJoin(g', at, low, keys[REMOTE_WAITING], toLow, rest);
  }

  lemma ArcsInRange(
    xy: seq<Point>, g: Adjacency, g': Adjacency, at: Node, low: Node, high: Node, toLow: real, toHigh: real)
    requires AllCorridorArcs(g, xy) && JoinArcs(g, g', at, low, high, toLow, toHigh)
    requires 0 <= at < |xy| && 0 <= low < |xy| && 0 <= high < |xy|
    ensures InRange(g', xy)
  {
    forall u, x | x in Arcs(g', u)
      ensures JoinsNodes(xy, u, x)
    {
      if x in Arcs(g, u) {
        ArcOnMap(g, xy, u, x);
      }
    }
  }

  lemma ArcsNonNegative(
    xy: seq<Point>, g: Adjacency, g': Adjacency, at: Node, low: Node, high: Node, toLow: real, toHigh: real)
    requires AllCorridorArcs(g, xy) && JoinArcs(g, g', at, low, high, toLow, toHigh)
    requires toLow >= 0.0 && toHigh >= 0.0
    ensures NonNegative(g')
  {
    forall u, x | x in Arcs(g', u)
      ensures x.weight >= 0.0
    {
      if x in Arcs(g, u) {
        ArcOnMap(g, xy, u, x);
      }
    }
  }

  // --- the planner -------------------------------------------------------------------------

  function LaneSegment(vertical: bool, l: Lane): Segment {
    Segment(At(vertical, l, l.lo), At(vertical, l, l.hi))
  }

  function CorridorSegments(): (s: seq<Segment>)
    ensures |s| == |CORRIDOR_VERTICALS| + |CORRIDOR_HORIZONTALS|
    ensures forall i :: 0 <= i < |s| ==>
      s[i] == if i < |CORRIDOR_VERTICALS| then LaneSegment(true, CORRIDOR_VERTICALS[i])
              else LaneSegment(false, CORRIDOR_HORIZONTALS[i - |CORRIDOR_VERTICALS|])
  {
    seq(|CORRIDOR_VERTICALS|, i requires 0 <= i < |CORRIDOR_VERTICALS| => LaneSegment(true, CORRIDOR_VERTICALS[i]))
    + seq(|CORRIDOR_HORIZONTALS|,
        i requires 0 <= i < |CORRIDOR_HORIZONTALS| => LaneSegment(false, CORRIDOR_HORIZONTALS[i]))
  }

  /** join is a corridor point nearest to the pose, over all points of all lanes. */
  ghost predicate IsJoin(pose: Point, join: Point) {
    OnSomeLane(join) && forall q :: OnSomeLane(q) ==> Dist2(pose, join) <= Dist2(pose, q)
  }

  /** The point at parameter t of a lane, in lane coordinates. */
  lemma {:induction false} AlongLaneIs(vertical: bool, l: Lane, t: real)
    ensures Along(LaneSegment(vertical, l), t) == At(vertical, l, l.lo + t * (l.hi - l.lo))
  {
    assert t * (l.at - l.at) == 0.0;
  }

  lemma {:induction false} LanePoints(vertical: bool, l: Lane, t: real)
    requires l in Lanes(vertical) && 0.0 <= t <= 1.0
    ensures OnSomeLane(Along(LaneSegment(vertical, l), t))
  {
    LanesOnGrid();
    assert l in CORRIDOR_VERTICALS + CORRIDOR_HORIZONTALS;
    AlongLaneIs(vertical, l, t);
    Between(l.lo, l.hi, t);
    OnItsLane(vertical, l, l.lo + t * (l.hi - l.lo));
  }

  lemma {:induction false} OnItsLane(vertical: bool, l: Lane, c: real)
    requires l in Lanes(vertical) && l.lo <= c <= l.hi
    ensures OnSomeLane(At(vertical, l, c))
  {
    assert if vertical then OnVertical(l, At(vertical, l, c)) else OnHorizontal(l, At(vertical, l, c));
  }

  lemma Between(lo: real, hi: real, t: real)
    requires lo <= hi && 0.0 <= t <= 1.0
    ensures lo <= lo + t * (hi - lo) <= hi
  {
    ProductNonNegative(t, hi - lo);
    ProductNonNegative(1.0 - t, hi - lo);
    assert (1.0 - t) * (hi - lo) == (hi - lo) - t * (hi - lo);
  }

  lemma {:induction false} PointsOfLanes(vertical: bool, l: Lane, q: Point) returns (t: real)
    requires l in Lanes(vertical) && (if vertical then OnVertical(l, q) else OnHorizontal(l, q))
    ensures 0.0 <= t <= 1.0 && q == Along(LaneSegment(vertical, l), t)
  {
    LanesOnGrid();
    assert l in CORRIDOR_VERTICALS + CORRIDOR_HORIZONTALS;
    t := Fraction(l.lo, l.hi, Coordinate(vertical, q));
    AlongLaneIs(vertical, l, t);
  }

  lemma Fraction(lo: real, hi: real, v: real) returns (t: real)
    requires lo < hi && lo <= v <= hi
    ensures 0.0 <= t <= 1.0 && v == lo + t * (hi - lo)
  {
    var d, n := hi - lo, v - lo;
    t := n / d;
    assert t * d == n;
    assert (t - 1.0) * d == n - d;
    if t < 0.0 {
      StrictProduct(-t, d);
    }
    if t > 1.0 {
      StrictProduct(t - 1.0, d);
    }
  }

  lemma SegmentsResolved()
    ensures forall s :: s in CorridorSegments() ==> Resolved(s)
  {
    LanesOnGrid();
    forall i | 0 <= i < |CorridorSegments()|
      ensures Resolved(CorridorSegments()[i])
    {
    }
  }

  /** The projection onto the lane segments is a join point. */
  lemma NearestIsJoin(pose: Point, join: Point)
    requires NearestPoint(pose, CorridorSegments(), join)
    ensures IsJoin(pose, join)
  {
    var segments, n := CorridorSegments(), |CORRIDOR_VERTICALS|;
    var i, t :| 0 <= i < |segments| && 0.0 <= t <= 1.0 && join == Along(segments[i], t);
    LanePoints(i < n, if i < n then Lanes(true)[i] else Lanes(false)[i - n], t);
    forall q | OnSomeLane(q)
      ensures Dist2(pose, join) <= Dist2(pose, q)
    {
      if l :| l in CORRIDOR_VERTICALS && OnVertical(l, q) {
        var j :| 0 <= j < n && CORRIDOR_VERTICALS[j] == l;
        var u := PointsOfLanes(true, l, q);
        assert segments[j] == LaneSegment(true, l);
      } else {
        var l :| l in CORRIDOR_HORIZONTALS && OnHorizontal(l, q);
        var j :| 0 <= j < |CORRIDOR_HORIZONTALS| && CORRIDOR_HORIZONTALS[j] == l;
        var u := PointsOfLanes(false, l, q);
        assert segments[n + j] == LaneSegment(false, l);
      }
    }
  }

  /** The route the planner makes of a node path: TRANSIT everywhere but at the waiting area. */
  function Stop(p: Point): Waypoint { if p == REMOTE_WAITING then WaitingArea() else Transit(p) }

  function StopsOf(s: seq<Point>): (r: seq<Waypoint>)
    ensures |r| == |s| && forall i :: 0 <= i < |r| ==> r[i] == Stop(s[i])
  {
    seq(|s|, i requires 0 <= i < |s| => Stop(s[i]))
  }

  /**
   The walk, standing at s, begins with a hop to n at cost c; from there on it is on the
   map what it costs, leg by leg on lanes, and no cheaper than the closed form.
  */
  ghost predicate BeginsWith(g': Adjacency, xy: seq<Point>, at: Node, v: Walk, s: seq<Point>, n: Node, c: real) {
    && |s| >= 2 && n != at && 0 <= n < |xy| && s[1] == xy[n] && Arc(n, c) in Arcs(g', at)
    && LegsOnLanes(s[1..])
    && PathLength(s) == L1(s[0], s[1]) + (v.Cost() - c)
    && ReturnLength(s[1]) <= v.Cost() - c + ReturnLength(s[|s| - 1])
  }

  lemma OneHop(g': Adjacency, xy: seq<Point>, at: Node, v: Walk, s: seq<Point>)
    requires v.Hop? && v.before == Start(at) && v.In(g') && Distinct(v.Nodes()) && OnMap(xy, v, s)
    ensures BeginsWith(g', xy, at, v, s, v.to, v.weight)
  {
    assert v.Nodes() == [at] + [v.to];
    assert s[..1] == [s[0]];
  }

  lemma MoreHops(g': Adjacency, xy: seq<Point>, at: Node, v: Walk, s: seq<Point>, n: Node, c: real)
    requires v.Hop? && |s| >= 3 && BeginsWith(g', xy, at, v.before, s[..|s| - 1], n, c)
    requires CorridorArc(s[|s| - 2], s[|s| - 1], v.weight)
    ensures BeginsWith(g', xy, at, v, s, n, c)
  {
    var k := |s| - 1;
    ArcKeepsClosedForm(s[k - 1], s[k], v.weight);
    assert s[..k][1..] == s[1..k];
    LegsGrow(s, k);
    LengthGrows(s);
  }

  /**
   A walk that leaves the join node and does not come back: only its first hop may differ from
   the distance it covers.
  */
  lemma {:induction false} AfterFirstHop(
    g: Adjacency, g': Adjacency, xy: seq<Point>, vertical: bool, l: Lane, p: Point,
    at: Node, low: Node, high: Node, v: Walk, s: seq<Point>)
    returns (n: Node, c: real)
    requires Attached(g, g', xy, vertical, l, p, at, low, high)
    requires v.Hop? && v.In(g') && v.Origin() == at && Distinct(v.Nodes()) && OnMap(xy, v, s)
    ensures BeginsWith(g', xy, at, v, s, n, c)
  {
    if v.before.Start? {
      n, c := v.to, v.weight;
      OneHop(g', xy, at, v, s);
    } else {
      LaterHop(g, g', xy, vertical, l, p, at, low, high, v, s);
      n, c := AfterFirstHop(g, g', xy, vertical, l, p, at, low, high, v.before, s[..|s| - 1]);
      MoreHops(g', xy, at, v, s, n, c);
    }
  }

  /** s is where the nodes of the walk stand. */
  ghost predicate OnMap(xy: seq<Point>, v: Walk, s: seq<Point>) {
    |s| == |v.Nodes()| && forall i :: 0 <= i < |s| ==> 0 <= v.Nodes()[i] < |xy| && s[i] == xy[v.Nodes()[i]]
  }

  lemma HopOnMap(xy: seq<Point>, v: Walk, s: seq<Point>)
    requires v.Hop? && OnMap(xy, v, s) && Distinct(v.Nodes())
    ensures |s| >= 2 && OnMap(xy, v.before, s[..|s| - 1]) && Distinct(v.before.Nodes())
    ensures s[|s| - 2] == xy[v.before.Last()] && s[|s| - 1] == xy[v.Last()]
  {
    assert v.Nodes() == v.before.Nodes() + [v.Last()];
    forall i | 0 <= i < |v.before.Nodes()|
      ensures v.before.Nodes()[i] == v.Nodes()[i]
    {
    }
  }

  /** Between nodes other than the join node there are only corridor arcs. */
  lemma LaterArc(
    g: Adjacency, g': Adjacency, xy: seq<Point>, at: Node, low: Node, high: Node, toLow: real, toHigh: real, v: Walk)
    requires JoinArcs(g, g', at, low, high, toLow, toHigh) && AllCorridorArcs(g, xy)
    requires v.Hop? && v.before.Hop? && v.In(g') && v.Origin() == at && Distinct(v.Nodes())
    ensures 0 <= v.before.Last() < |xy| && 0 <= v.to < |xy| && CorridorArc(xy[v.before.Last()], xy[v.to], v.weight)
  {
    var u := v.before;
    WalkStartsAtOrigin(u);
    assert v.Nodes() == u.Nodes() + [v.to];
    assert v.Nodes()[0] == at && v.Nodes()[|u.Nodes()| - 1] == u.Last() && v.Nodes()[|u.Nodes()|] == v.to;
    assert |u.Nodes()| >= 2;
    assert Arc(v.to, v.weight) in Arcs(g', u.Last());
    ArcOnMap(g, xy, u.Last(), Arc(v.to, v.weight));
  }

  /** The last hop of a longer walk is along a corridor arc, and the walk before it is of the same kind. */
  lemma LaterHop(
    g: Adjacency, g': Adjacency, xy: seq<Point>, vertical: bool, l: Lane, p: Point,
    at: Node, low: Node, high: Node, v: Walk, s: seq<Point>)
    requires Attached(g, g', xy, vertical, l, p, at, low, high)
    requires v.Hop? && v.before.Hop? && v.In(g') && v.Origin() == at && Distinct(v.Nodes()) && OnMap(xy, v, s)
    ensures v.before.In(g') && v.before.Origin() == at && Distinct(v.before.Nodes())
    ensures |s| >= 3 && OnMap(xy, v.before, s[..|s| - 1]) && CorridorArc(s[|s| - 2], s[|s| - 1], v.weight)
  {
    HopOnMap(xy, v, s);
    HopOnMap(xy, v.before, s[..|s| - 1]);
    LaterArc(g, g', xy, at, low, high, Coordinate(vertical, p) - l.lo, l.hi - Coordinate(vertical, p), v);
  }

  lemma LegsGrow(s: seq<Point>, k: nat)
    requires 2 <= k == |s| - 1 && LegsOnLanes(s[1..k]) && SameLane(s[k - 1], s[k])
    ensures LegsOnLanes(s[1..])
  {
    forall i | 0 <= i < |s[1..]| - 1
      ensures SameLane(s[1..][i], s[1..][i + 1])
    {
      if i + 2 < k {
        assert SameLane(s[1..k][i], s[1..k][i + 1]);
      }
    }
  }

  lemma LengthGrows(s: seq<Point>)
    requires |s| >= 2
    ensures PathLength(s) == PathLength(s[..|s| - 1]) + L1(s[|s| - 2], s[|s| - 1])
  {
  }

  /** By the low end, p is as far as the closed form says for its rounded place, up to the rounding. */
  lemma ByLowEndIs(vertical: bool, l: Lane, p: Point)
    requires l in Lanes(vertical) && Touches(vertical, l, p) && RoundPoint(p) != REMOTE_WAITING
    ensures ByLowEnd(vertical, l, p)
      == ReturnLength(RoundPoint(p)) + Coordinate(vertical, p) - Coordinate(vertical, RoundPoint(p))
    ensures At(vertical, l, l.hi) != REMOTE_WAITING && At(vertical, l, l.lo) != REMOTE_WAITING
    ensures ReturnLength(At(vertical, l, l.hi))
      == ReturnLength(RoundPoint(p)) + l.hi - Coordinate(vertical, RoundPoint(p))
  {
    JoinOnLane(vertical, l, p);
    LanesOnGrid();
    assert l in CORRIDOR_VERTICALS + CORRIDOR_HORIZONTALS;
  }

  lemma EndsOnSameLane(vertical: bool, l: Lane, p: Point)
    requires l in Lanes(vertical) && Touches(vertical, l, p)
    ensures SameLane(RoundPoint(p), At(vertical, l, l.lo)) && SameLane(RoundPoint(p), At(vertical, l, l.hi))
  {
    JoinOnLane(vertical, l, p);
    LanesOnGrid();
    assert l in CORRIDOR_VERTICALS + CORRIDOR_HORIZONTALS;
  }

  /** The map length of a first hop to q and of the rest is the closed form, up to the rounding. */
  ghost predicate HopFits(p: Point, q: Point, rest: real) {
    var r := RoundPoint(p);
    && SameLane(r, q) && ReturnLength(r) <= L1(r, q) + rest <= ReturnLength(r) + 0.00005
  }

  lemma ArcHopFits(vertical: bool, l: Lane, p: Point, q: Point, c: real, rest: real)
    requires l in Lanes(vertical) && Touches(vertical, l, p) && RoundPoint(p) != REMOTE_WAITING
    requires CorridorArc(RoundPoint(p), q, c)
    requires ReturnLength(q) <= rest && c + rest <= ByLowEnd(vertical, l, p)
    ensures HopFits(p, q, rest)
  {
    JoinOnLane(vertical, l, p);
    ByLowEndIs(vertical, l, p);
    ArcKeepsClosedForm(RoundPoint(p), q, c);
  }

  lemma LowHopFits(vertical: bool, l: Lane, p: Point, rest: real)
    requires l in Lanes(vertical) && Touches(vertical, l, p) && RoundPoint(p) != REMOTE_WAITING
    requires At(vertical, l, l.lo) != RoundPoint(p)
    requires ReturnLength(At(vertical, l, l.lo)) <= rest
    requires Coordinate(vertical, p) - l.lo + rest <= ByLowEnd(vertical, l, p)
    ensures HopFits(p, At(vertical, l, l.lo), rest)
  {
    var r, q := RoundPoint(p), At(vertical, l, l.lo);
    JoinOnLane(vertical, l, p);
    ByLowEndIs(vertical, l, p);
    EndsOnSameLane(vertical, l, p);
    ArcKeepsClosedForm(r, q, L1(r, q));
    AlongLane(vertical, l, r, l.lo);
  }

  lemma HighEndRounds(vertical: bool, l: Lane, p: Point)
    requires l in Lanes(vertical) && Touches(vertical, l, p) && Coordinate(vertical, p) == l.hi
    ensures RoundPoint(p) == At(vertical, l, l.hi)
  {
    JoinOnLane(vertical, l, p);
    LanesOnGrid();
    assert l in CORRIDOR_VERTICALS + CORRIDOR_HORIZONTALS;
    RoundStays(Coordinate(vertical, p), l.hi);
  }

  /** Only a point at the high end itself can start there, and be no dearer. */
  lemma HighHopFits(vertical: bool, l: Lane, p: Point, rest: real)
    requires l in Lanes(vertical) && Touches(vertical, l, p) && RoundPoint(p) != REMOTE_WAITING
    requires ReturnLength(At(vertical, l, l.hi)) <= rest
    requires l.hi - Coordinate(vertical, p) + rest <= ByLowEnd(vertical, l, p)
    ensures HopFits(p, At(vertical, l, l.hi), rest)
  {
    ByLowEndIs(vertical, l, p);
    assert Coordinate(vertical, p) >= l.hi;
    HighEndRounds(vertical, l, p);
    EndsOnSameLane(vertical, l, p);
  }

  /** A first hop to q at cost c that starts a walk no dearer than going by the low end fits. */
  lemma FirstHopFits(vertical: bool, l: Lane, p: Point, q: Point, c: real, rest: real)
    requires l in Lanes(vertical) && Touches(vertical, l, p) && RoundPoint(p) != REMOTE_WAITING && q != RoundPoint(p)
    requires || CorridorArc(RoundPoint(p), q, c)
             || (q == At(vertical, l, l.lo) && c == Coordinate(vertical, p) - l.lo)
             || (q == At(vertical, l, l.hi) && c == l.hi - Coordinate(vertical, p))
    requires ReturnLength(q) <= rest && c + rest <= ByLowEnd(vertical, l, p)
    ensures HopFits(p, q, rest)
  {
    if CorridorArc(RoundPoint(p), q, c) {
      ArcHopFits(vertical, l, p, q, c, rest);
    } else if q == At(vertical, l, l.lo) && c == Coordinate(vertical, p) - l.lo {
      LowHopFits(vertical, l, p, rest);
    } else {
      HighHopFits(vertical, l, p, rest);
    }
  }

  /** Distance along a lane. */
  lemma AlongLane(vertical: bool, l: Lane, r: Point, c: real)
    requires Offset(vertical, r) == l.at
    ensures L1(r, At(vertical, l, c)) == Abs(Coordinate(vertical, r) - c)
    ensures Coordinate(vertical, r) == c ==> r == At(vertical, l, c)
  {
  }

  /** Distances between grid points are whole ticks. */
  lemma {:induction false} PathOnGrid(s: seq<Point>) returns (k: int)
    requires forall i :: 0 <= i < |s| ==> PointOnGrid(s[i])
    ensures PathLength(s) == k as real / 10000.0
  {
    if |s| < 2 {
      k := 0;
    } else {
      var j := PathOnGrid(s[..|s| - 1]);
      k := j + TicksApart(s[|s| - 2], s[|s| - 1]);
    }
  }

  function TicksApart(p: Point, q: Point): (k: int)
    ensures PointOnGrid(p) && PointOnGrid(q) ==> L1(p, q) == k as real / 10000.0
  {
    var dx, dy := Ticks(p.x) - Ticks(q.x), Ticks(p.y) - Ticks(q.y);
    (if dx < 0 then -dx else dx) + (if dy < 0 then -dy else dy)
  }

  lemma ClosedFormOnGrid(r: Point) returns (m: int)
    requires PointOnGrid(r)
    ensures ReturnLength(r) == m as real / 10000.0
  {
    m := 0;
    if r != REMOTE_WAITING {
      assert PointOnGrid(WEST_SOUTH);
      m := TicksApart(r, WEST_SOUTH) + 2000;
    }
  }

  /** On the grid, less than a tick above the closed form is the closed form. */
  lemma NoRoomBetweenTicks(s: seq<Point>, r: Point)
    requires forall i :: 0 <= i < |s| ==> PointOnGrid(s[i])
    requires PointOnGrid(r) && ReturnLength(r) <= PathLength(s) <= ReturnLength(r) + 0.00005
    ensures PathLength(s) == ReturnLength(r)
  {
    var k := PathOnGrid(s);
    var m := ClosedFormOnGrid(r);
    SameTick(PathLength(s), k, ReturnLength(r), m);
  }

  lemma SameTick(x: real, k: int, y: real, m: int)
    requires x == k as real / 10000.0 && y == m as real / 10000.0 && y <= x <= y + 0.00005
    ensures x == y
  {
  }

  /** A cheapest walk over the attached graph, read off the map, is a return path from the rounded join point. */
  lemma {:induction false} ShortestIsReturnPath(
    g': Adjacency, keys: map<Point, int>, xy: seq<Point>, at: Node, remote: Node, path: seq<Node>, p: Point)
    requires Indexed(keys, xy) && InRange(g', xy) && IsAttached(g', xy, p, at, remote)
    requires 0 <= at < |xy| && xy[at] == RoundPoint(p) && 0 <= remote < |xy| && xy[remote] == REMOTE_WAITING
    requires IsShortestPath(g', path, at, remote) && forall n :: n in path ==> 0 <= n < |xy|
    ensures IsReturnPath(Places(xy, path), RoundPoint(p))
  {
    var w: Walk :| Cheapest(g', w, at, remote) && w.Nodes() == path;
    PlacesAreDistinct(keys, xy, path);
    PlacesOnMap(xy, w);
    CheapestIsReturnPath(g', keys, xy, at, remote, w, Places(xy, path), p);
  }

  lemma PlacesOnMap(xy: seq<Point>, w: Walk)
    requires forall n :: n in w.Nodes() ==> 0 <= n < |xy|
    ensures OnMap(xy, w, Places(xy, w.Nodes()))
  {
    var s := Places(xy, w.Nodes());
    forall i | 0 <= i < |s|
      ensures 0 <= w.Nodes()[i] < |xy| && s[i] == xy[w.Nodes()[i]]
    {
      assert w.Nodes()[i] in w.Nodes();
    }
  }

  lemma {:induction false} CheapestIsReturnPath(
    g': Adjacency, keys: map<Point, int>, xy: seq<Point>, at: Node, remote: Node, w: Walk, s: seq<Point>, p: Point)
    requires Indexed(keys, xy) && IsAttached(g', xy, p, at, remote)
    requires 0 <= at < |xy| && xy[at] == RoundPoint(p) && 0 <= remote < |xy| && xy[remote] == REMOTE_WAITING
    requires Cheapest(g', w, at, remote) && Distinct(w.Nodes()) && OnMap(xy, w, s) && Distinct(s)
    ensures IsReturnPath(s, RoundPoint(p))
  {
    WalkEnds(xy, w, s);
    if RoundPoint(p) == REMOTE_WAITING {
      OnlyOne(s);
    } else {
      CheapestFits(g', keys, xy, at, remote, w, s, p);
    }
  }

  lemma WalkEnds(xy: seq<Point>, w: Walk, s: seq<Point>)
    requires OnMap(xy, w, s)
    ensures |s| > 0
    ensures 0 <= w.Origin() < |xy| && 0 <= w.Last() < |xy| && s[0] == xy[w.Origin()] && s[|s| - 1] == xy[w.Last()]
  {
    WalkStartsAtOrigin(w);
  }

  lemma OnlyOne(s: seq<Point>)
    requires |s| > 0 && Distinct(s) && s[0] == s[|s| - 1]
    ensures |s| == 1
  {
  }

  lemma {:induction false} CheapestFits(
    g': Adjacency, keys: map<Point, int>, xy: seq<Point>, at: Node, remote: Node, w: Walk, s: seq<Point>, p: Point)
    requires Indexed(keys, xy) && IsAttached(g', xy, p, at, remote) && RoundPoint(p) != REMOTE_WAITING
    requires 0 <= at < |xy| && xy[at] == RoundPoint(p) && 0 <= remote < |xy| && xy[remote] == REMOTE_WAITING
    requires Cheapest(g', w, at, remote) && Distinct(w.Nodes()) && OnMap(xy, w, s)
    ensures LegsOnLanes(s) && PathLength(s) == ReturnLength(RoundPoint(p))
  {
    var g, vertical, l, low, high :|
      Attached(g, g', xy, vertical, l, p, at, low, high) && HasWalk(g', at, remote, ByLowEnd(vertical, l, p));
    var byLow: Walk :| Connects(g', byLow, at, remote) && byLow.Cost() == ByLowEnd(vertical, l, p);
    WalkStartsAtOrigin(w);
    assert w.Hop?;
    var n, c := AfterFirstHop(g, g', xy, vertical, l, p, at, low, high, w, s);
    FirstHopKinds(g, g', xy, vertical, l, p, at, low, high, n, c);
    assert keys[xy[n]] == n && keys[xy[at]] == at;
    BegunWalkFits(vertical, l, p, s, c, w.Cost() - c);
  }

  /** A walk at s whose first hop costs c and whose rest is on the map what it costs. */
  lemma {:induction false} BegunWalkFits(vertical: bool, l: Lane, p: Point, s: seq<Point>, c: real, rest: real)
    requires l in Lanes(vertical) && Touches(vertical, l, p) && RoundPoint(p) != REMOTE_WAITING
    requires |s| >= 2 && s[0] == RoundPoint(p) != s[1] && s[|s| - 1] == REMOTE_WAITING
    requires forall i :: 0 <= i < |s| ==> PointOnGrid(s[i])
    requires || CorridorArc(RoundPoint(p), s[1], c)
             || (s[1] == At(vertical, l, l.lo) && c == Coordinate(vertical, p) - l.lo)
             || (s[1] == At(vertical, l, l.hi) && c == l.hi - Coordinate(vertical, p))
    requires LegsOnLanes(s[1..]) && PathLength(s) == L1(s[0], s[1]) + rest
    requires ReturnLength(s[1]) <= rest && c + rest <= ByLowEnd(vertical, l, p)
    ensures LegsOnLanes(s) && PathLength(s) == ReturnLength(RoundPoint(p))
  {
    FirstHopFits(vertical, l, p, s[1], c, rest);
    AllLegs(s);
    NoRoomBetweenTicks(s, RoundPoint(p));
  }

  lemma FirstHopKinds(
    g: Adjacency, g': Adjacency, xy: seq<Point>, vertical: bool, l: Lane, p: Point,
    at: Node, low: Node, high: Node, n: Node, c: real)
    requires Attached(g, g', xy, vertical, l, p, at, low, high) && n != at && 0 <= n < |xy| && Arc(n, c) in Arcs(g', at)
    ensures || CorridorArc(RoundPoint(p), xy[n], c)
            || (xy[n] == At(vertical, l, l.lo) && c == Coordinate(vertical, p) - l.lo)
            || (xy[n] == At(vertical, l, l.hi) && c == l.hi - Coordinate(vertical, p))
  {
    if Arc(n, c) in Arcs(g, at) {
      ArcOnMap(g, xy, at, Arc(n, c));
    }
  }

  lemma AllLegs(s: seq<Point>)
    requires |s| >= 2 && SameLane(s[0], s[1]) && LegsOnLanes(s[1..])
    ensures LegsOnLanes(s)
  {
    forall i | 0 <= i < |s| - 1
      ensures SameLane(s[i], s[i + 1])
    {
      if i > 0 {
        assert SameLane(s[1..][i - 1], s[1..][i]);
      }
    }
  }

  /** Distinct nodes stand at distinct places. */
  lemma PlacesAreDistinct(keys: map<Point, int>, xy: seq<Point>, path: seq<Node>)
    requires Indexed(keys, xy) && Distinct(path) && forall n :: n in path ==> 0 <= n < |xy|
    ensures Distinct(Places(xy, path))
  {
    var s := Places(xy, path);
    forall i, j | 0 <= i < j < |s|
      ensures s[i] != s[j]
    {
      assert path[i] in path && path[j] in path;
      assert keys[xy[path[i]]] == path[i] && keys[xy[path[j]]] == path[j];
    }
  }

  lemma {:induction false} WalkStartsAtOrigin(w: Walk)
    ensures w.Nodes()[0] == w.Origin()
  {
    match w
    case Start(_) =>
    case Hop(v, _, _) => WalkStartsAtOrigin(v);
  }

  /** Prefixing the pose and removing duplicates: the pose stands in for a join point it equals. */
  lemma PrefixPose(pose: Point, s: seq<Point>)
    requires |s| > 0 && Distinct(s)
    ensures Deduped([Transit(pose)] + StopsOf(s))
         == [Transit(pose)] + StopsOf(if pose == s[0] then s[1..] else s)
  {
    var points := [Transit(pose)] + StopsOf(s);
    if pose == s[0] {
      DedupedHead(points);
      assert points[2..] == StopsOf(s[1..]);
    } else {
      DedupedKeeps(points);
    }
  }

  /** At the waiting area the vehicle waits, anywhere else it passes through. */
  predicate StopsRight(w: Waypoint) { if w.pos == Point(1.2, 1.2) then Waits(w) else PassesThrough(w, w.pos) }

  /** The pose, then a return path from the join point (the pose itself if it is on a lane). */
  ghost predicate FollowsReturnPath(route: seq<Waypoint>, pose: Point, join: Point) {
    exists s :: IsReturnPath(s, join) && route == [Transit(pose)] + StopsOf(if pose == join then s[1..] else s)
  }

  /**
   build_return_waypoints. The join point is returned for the specification; as a node of
   the graph it is rounded to tenths of a millimetre.
  */
  method BuildReturnWaypoints(pose: Point) returns (route: seq<Waypoint>, ghost join: Point)
    ensures IsJoin(pose, join)
    ensures route != [] && PassesThrough(route[0], pose) && route[|route| - 1].pos == Point(1.2, 1.2)
    ensures Dist2(pose, join) > 4.0 ==> FallsBack(pose, route)
    ensures Dist2(pose, join) <= 4.0 ==> forall i :: 1 <= i < |route| ==> StopsRight(route[i])
    ensures Dist2(pose, join) <= 4.0 ==> FollowsReturnPath(route, pose, RoundPoint(join))
  {
    var graph := new CorridorGraph();
    SegmentsResolved();
    var d2, proj, seg := ProjectOntoSegments(pose, CorridorSegments());
    join := proj;
    NearestIsJoin(pose, proj);
    if d2 > 4.0 {
      route := FallbackReturn(pose);
      return;
    }
    route := ReturnOverGraph(graph, pose, proj);
  }

  /** The graph part of the planner, once the join point is known to be near. */
  method ReturnOverGraph(graph: CorridorGraph, pose: Point, join: Point) returns (route: seq<Waypoint>)
    requires graph.Valid() && AllLanesLinked(graph.keyToIdx, graph.adjacency) && OnSomeLane(join)
    modifies graph
    ensures route != [] && PassesThrough(route[0], pose) && route[|route| - 1].pos == Point(1.2, 1.2)
    ensures forall i :: 1 <= i < |route| ==> StopsRight(route[i])
    ensures FollowsReturnPath(route, pose, RoundPoint(join))
  {
    var at, remote := Attach(graph, join);
    var path := Dijkstra.Search(graph.adjacency, at, remote);
    PathInRange(graph.adjacency, graph.nodeXy, path.value, at, remote);
    var s := Places(graph.nodeXy, path.value);
    ShortestIsReturnPath(graph.adjacency, graph.keyToIdx, graph.nodeXy, at, remote, path.value, join);
    PrefixPose(pose, s);
    route := [Transit(pose)] + StopsOf(s);
    StopKinds(pose, s);
    route := DedupeWaypoints(route);
  }

  lemma StopKinds(pose: Point, s: seq<Point>)
    requires |s| > 0
    ensures var d := Deduped([Transit(pose)] + StopsOf(s));
      && PassesThrough(d[0], pose) && d[|d| - 1].pos == s[|s| - 1]
      && forall i :: 1 <= i < |d| ==> StopsRight(d[i])
  {
    DedupedTail([Transit(pose)] + StopsOf(s));
    assert ([Transit(pose)] + StopsOf(s))[1..] == StopsOf(s);
  }

  lemma PathInRange(g: Adjacency, xy: seq<Point>, path: seq<Node>, at: Node, remote: Node)
    requires InRange(g, xy) && 0 <= at < |xy| && IsShortestPath(g, path, at, remote)
    ensures path != [] && path[|path| - 1] == remote
    ensures forall n :: n in path ==> 0 <= n < |xy|
  {
    var w: Walk :| Cheapest(g, w, at, remote) && w.Nodes() == path;
    WalkStaysInRange(g, xy, w);
  }
}
