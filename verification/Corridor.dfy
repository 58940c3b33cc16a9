/**
 The corridor graph of the return planner: axis-aligned lanes, cut where lanes
 cross, plus the spur from the south-west corner to the waiting area.
*/
module Corridor {
  import opened Graphs

  datatype Point = Point(x: real, y: real)

  /** A lane at a fixed x (vertical) or y (horizontal), spanning lo..hi on the other axis. */
  datatype Lane = Lane(at: real, lo: real, hi: real)

  const REMOTE_WAITING := Point(1.2, 1.2)
  const WEST_SOUTH := Point(1.2, 1.0)

  const CORRIDOR_VERTICALS: seq<Lane> := [
    Lane(1.2, 1.0, 28.7), Lane(8.0, 1.0, 27.0), Lane(14.0, 1.0, 27.0),
    Lane(32.0, 1.0, 27.0), Lane(40.0, 1.0, 28.7)]
  const CORRIDOR_HORIZONTALS: seq<Lane> := [
    Lane(1.0, 1.2, 40.0), Lane(27.0, 1.2, 40.0), Lane(28.7, 1.2, 44.2)]

  function Abs(v: real): real { if v < 0.0 then -v else v }

  function L1(p: Point, q: Point): real { Abs(p.x - q.x) + Abs(p.y - q.y) }

  /** v in whole tenths of a millimetre: nearest, ties to even. */
  function Ticks(v: real): int {
    var scaled := v * 10000.0;
    var down := scaled.Floor;
    var rest := scaled - down as real;
    if rest < 0.5 || (rest == 0.5 && down % 2 == 0) then down else down + 1
  }

  /** round(v, 4) */
  function Round4(v: real): real { Ticks(v) as real / 10000.0 }

  predicate OnGrid(v: real) { Round4(v) == v }

  predicate PointOnGrid(p: Point) { OnGrid(p.x) && OnGrid(p.y) }

  function RoundPoint(p: Point): Point { Point(Round4(p.x), Round4(p.y)) }

  predicate OnVertical(l: Lane, p: Point) { p.x == l.at && l.lo <= p.y <= l.hi }

  predicate OnHorizontal(l: Lane, p: Point) { p.y == l.at && l.lo <= p.x <= l.hi }

  /** p and q lie on one lane, so the straight leg between them does too. */
  ghost predicate SameLane(p: Point, q: Point) {
    || (exists l :: l in CORRIDOR_VERTICALS && OnVertical(l, p) && OnVertical(l, q))
    || (exists l :: l in CORRIDOR_HORIZONTALS && OnHorizontal(l, p) && OnHorizontal(l, q))
  }

  ghost predicate LegsOnLanes(s: seq<Point>) {
    forall i :: 0 <= i < |s| - 1 ==> SameLane(s[i], s[i + 1])
  }

  /** Length of a chain of axis-aligned legs. */
  function PathLength(s: seq<Point>): real {
    if |s| < 2 then 0.0 else PathLength(s[..|s| - 1]) + L1(s[|s| - 2], s[|s| - 1])
  }

  /** An arc as long as its leg, on one lane; the waiting area hangs off WEST_SOUTH only. */
  ghost predicate CorridorArc(p: Point, q: Point, w: real) {
    && SameLane(p, q) && w == L1(p, q)
    && (p == REMOTE_WAITING ==> q == WEST_SOUTH)
    && (q == REMOTE_WAITING ==> p == WEST_SOUTH)
  }

  ghost predicate Indexed(keys: map<Point, int>, xy: seq<Point>) {
    && (forall i :: 0 <= i < |xy| ==> xy[i] in keys && keys[xy[i]] == i && PointOnGrid(xy[i]))
    && (forall k :: k in keys ==> 0 <= keys[k] < |xy| && xy[keys[k]] == k)
  }

  /** An arc from u leads from a node on the map to one. */
  predicate JoinsNodes(xy: seq<Point>, u: Node, a: Arc) { 0 <= u < |xy| && 0 <= a.to < |xy| }

  ghost predicate InRange(g: Adjacency, xy: seq<Point>) {
    forall u, a :: a in Arcs(g, u) ==> JoinsNodes(xy, u, a)
  }

  ghost predicate AllCorridorArcs(g: Adjacency, xy: seq<Point>) {
    && InRange(g, xy)
    && forall u, a :: a in Arcs(g, u) ==> CorridorArc(xy[u], xy[a.to], a.weight)
  }

  lemma ArcOnMap(g: Adjacency, xy: seq<Point>, u: Node, a: Arc)
    requires AllCorridorArcs(g, xy) && a in Arcs(g, u)
    ensures 0 <= u < |xy| && 0 <= a.to < |xy| && CorridorArc(xy[u], xy[a.to], a.weight)
  {
  }

  ghost predicate HasWalk(g: Adjacency, u: Node, v: Node, cost: real) {
    exists w: Walk :: Connects(g, w, u, v) && w.Cost() == cost
  }

  ghost predicate Extends(g: Adjacency, g': Adjacency) {
    forall u, a :: a in Arcs(g, u) ==> a in Arcs(g', u)
  }

  lemma {:induction false} WalkExtends(g: Adjacency, g': Adjacency, w: Walk)
    requires Extends(g, g') && w.In(g)
    ensures w.In(g')
  {
    match w
    case Start(_) =>
    case Hop(v, n, c) =>
      WalkExtends(g, g', v);
      assert Arc(n, c) in Arcs(g, v.Last());
  }

  lemma HasWalkExtends(g: Adjacency, g': Adjacency, u: Node, v: Node, cost: real)
    requires Extends(g, g') && HasWalk(g, u, v, cost)
    ensures HasWalk(g', u, v, cost)
  {
    var w: Walk :| Connects(g, w, u, v) && w.Cost() == cost;
    WalkExtends(g, g', w);
  }

  lemma HasWalkJoin(g: Adjacency, u: Node, v: Node, t: Node, c1: real, c2: real)
    requires HasWalk(g, u, v, c1) && HasWalk(g, v, t, c2)
    ensures HasWalk(g, u, t, c1 + c2)
  {
    var a: Walk :| Connects(g, a, u, v) && a.Cost() == c1;
    var b: Walk :| Connects(g, b, v, t) && b.Cost() == c2;
    assert Connects(g, Join(a, b), u, t);
  }

  lemma ArcIsWalk(g: Adjacency, u: Node, a: Arc)
    requires a in Arcs(g, u)
    ensures HasWalk(g, u, a.to, a.weight)
  {
    var stay := Start(u);
    assert Connects(g, stay, u, u) && stay.Cost() == 0.0;
    var w := Hop(stay, a.to, a.weight);
    assert a == Arc(a.to, a.weight);
    assert Connects(g, w, u, a.to);
  }

  lemma LanesOnGrid()
    ensures forall l :: l in CORRIDOR_VERTICALS + CORRIDOR_HORIZONTALS ==>
      OnGrid(l.at) && OnGrid(l.lo) && OnGrid(l.hi) && l.lo < l.hi
    ensures PointOnGrid(REMOTE_WAITING) && PointOnGrid(WEST_SOUTH)
  {
  }

  lemma TicksNear(v: real)
    ensures -0.5 <= Ticks(v) as real - v * 10000.0 <= 0.5
  {
  }

  lemma TicksOfTicks(i: int)
    ensures Ticks(i as real / 10000.0) == i
  {
    assert i as real / 10000.0 * 10000.0 == i as real;
  }

  /** Rounding moves a value by at most half a tick, onto the grid. */
  lemma RoundError(v: real)
    ensures OnGrid(Round4(v)) && -0.00005 <= Round4(v) - v <= 0.00005
  {
    TicksNear(v);
    TicksOfTicks(Ticks(v));
  }

  /** It never passes a grid value, and finds one that is less than half a tick away. */
  lemma RoundStays(v: real, a: real)
    requires OnGrid(a)
    ensures a <= v ==> a <= Round4(v)
    ensures v <= a ==> Round4(v) <= a
    ensures -0.00005 < v - a < 0.00005 ==> Round4(v) == a
  {
    var i, j := Ticks(v), Ticks(a);
    TicksNear(v);
    assert a == j as real / 10000.0;
    assert a <= v ==> j <= i;
    assert v <= a ==> i <= j;
    assert -0.00005 < v - a < 0.00005 ==> i == j;
  }

  lemma GridGap(a: real, b: real)
    requires OnGrid(a) && OnGrid(b) && a < b
    ensures b - a >= 0.0001
  {
    var i, j := Ticks(a), Ticks(b);
    assert i < j;
    assert b - a == (j - i) as real / 10000.0;
  }

  /** The cuts of a lane: its two ends and every crossing lane it meets. */
  ghost predicate IsCut(l: Lane, crossing: seq<Lane>, c: real) {
    c == l.lo || c == l.hi || (exists m :: m in crossing && Crosses(l, m) && m.at == c)
  }

  /** round(v, 4): the nearest ten-thousandth, and of two equally near ones the even one. */
  lemma {:induction false} RoundsToNearest(v: real)
    ensures var t, scaled := Ticks(v), v * 10000.0;
      && Round4(v) == t as real / 10000.0
      && t as real - 0.5 <= scaled <= t as real + 0.5
      && (scaled == t as real - 0.5 || scaled == t as real + 0.5 ==> t % 2 == 0)
  {
  }

  /** The corridor, lane by lane. */
  lemma {:induction false} CorridorExactly(p: Point)
    ensures SameLane(p, p) <==>
      || (p.x == 1.2 && 1.0 <= p.y <= 28.7) || (p.x == 8.0 && 1.0 <= p.y <= 27.0)
      || (p.x == 14.0 && 1.0 <= p.y <= 27.0) || (p.x == 32.0 && 1.0 <= p.y <= 27.0)
      || (p.x == 40.0 && 1.0 <= p.y <= 28.7)
      || (p.y == 1.0 && 1.2 <= p.x <= 40.0) || (p.y == 27.0 && 1.2 <= p.x <= 40.0)
      || (p.y == 28.7 && 1.2 <= p.x <= 44.2)
  {
    var v, h := CORRIDOR_VERTICALS, CORRIDOR_HORIZONTALS;
    assert v[0] in v && v[1] in v && v[2] in v && v[3] in v && v[4] in v && h[0] in h && h[1] in h && h[2] in h;
    assert OnVertical(v[0], p) ==> SameLane(p, p);
    assert OnVertical(v[1], p) ==> SameLane(p, p);
    assert OnVertical(v[2], p) ==> SameLane(p, p);
    assert OnVertical(v[3], p) ==> SameLane(p, p);
    assert OnVertical(v[4], p) ==> SameLane(p, p);
    assert OnHorizontal(h[0], p) ==> SameLane(p, p);
    assert OnHorizontal(h[1], p) ==> SameLane(p, p);
    assert OnHorizontal(h[2], p) ==> SameLane(p, p);
  }

  predicate Crosses(l: Lane, m: Lane) { l.lo <= m.at <= l.hi && m.lo <= l.at <= m.hi }

  /** Lanes cross exactly if they have a point in common. */
  lemma {:induction false} CrossesExactly(l: Lane, m: Lane)
    ensures Crosses(l, m) <==> exists p :: OnVertical(l, p) && OnHorizontal(m, p)
    ensures Crosses(l, m) <==> exists p :: OnHorizontal(l, p) && OnVertical(m, p)
  {
    if Crosses(l, m) {
      assert OnVertical(l, Point(l.at, m.at)) && OnHorizontal(m, Point(l.at, m.at));
      assert OnHorizontal(l, Point(m.at, l.at)) && OnVertical(m, Point(m.at, l.at));
    }
  }

  predicate StrictlySorted(s: seq<real>) {
    forall i, j :: 0 <= i < j < |s| ==> s[i] < s[j]
  }

  lemma TailAbove(s: seq<real>)
    requires StrictlySorted(s) && s != []
    ensures StrictlySorted(s[1..]) && forall c :: c in s[1..] ==> s[0] < c
  {
  }

  lemma PrependSorts(first: real, rest: seq<real>)
    requires StrictlySorted(rest) && forall c :: c in rest ==> first < c
    ensures StrictlySorted([first] + rest)
  {
    forall j | 0 <= j < |rest|
      ensures first < rest[j]
    {
      assert rest[j] in rest;
    }
  }

  /** Insert v into a strictly sorted list unless it is there already. */
  function Insert(s: seq<real>, v: real): (r: seq<real>)
    requires StrictlySorted(s)
    ensures StrictlySorted(r) && forall c :: c in r <==> c == v || c in s
  {
    if s == [] then [v]
    else if v < s[0] then [v] + s
    else if v == s[0] then s
    else
      TailAbove(s);
      PrependSorts(s[0], Insert(s[1..], v));
      [s[0]] + Insert(s[1..], v)
  }

  /** sorted({lo, hi} | {crossings}) */
  method Cuts(l: Lane, crossing: seq<Lane>) returns (cuts: seq<real>)
    requires l.lo < l.hi
    ensures StrictlySorted(cuts) && |cuts| >= 2 && cuts[0] == l.lo && cuts[|cuts| - 1] == l.hi
    ensures forall c :: c in cuts <==> IsCut(l, crossing, c)
  {
    cuts := [l.lo, l.hi];
    for i := 0 to |crossing|
      invariant StrictlySorted(cuts) && l.lo in cuts && l.hi in cuts
      invariant forall c :: c in cuts ==> IsCut(l, crossing, c)
      invariant forall j :: 0 <= j < i && Crosses(l, crossing[j]) ==> crossing[j].at in cuts
    {
      if Crosses(l, crossing[i]) {
        cuts := Insert(cuts, crossing[i].at);
      }
    }
    assert cuts[0] in cuts && cuts[|cuts| - 1] in cuts;
  }
}
