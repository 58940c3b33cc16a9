/** _corridor_graph: nodes numbered on first use, arcs appended lane by lane. */
module CorridorGraphs {
  import opened Graphs
  import opened Corridor

  function Lanes(vertical: bool): seq<Lane> {
    if vertical then CORRIDOR_VERTICALS else CORRIDOR_HORIZONTALS
  }

  function Crossing(vertical: bool): seq<Lane> { Lanes(!vertical) }

  /** The point at coordinate c of a lane. */
  function At(vertical: bool, l: Lane, c: real): Point {
    if vertical then Point(l.at, c) else Point(c, l.at)
  }

  /** From every cut of the lane the graph leads to its low end, at the cost of the distance. */
  ghost predicate LaneLinked(
    keys: map<Point, int>, g: Adjacency, vertical: bool, l: Lane, crossing: seq<Lane>)
  {
    At(vertical, l, l.lo) in keys &&
    forall c :: IsCut(l, crossing, c) ==> CutLinked(keys, g, vertical, l, c)
  }

  ghost predicate CutLinked(keys: map<Point, int>, g: Adjacency, vertical: bool, l: Lane, c: real) {
    && At(vertical, l, l.lo) in keys && At(vertical, l, c) in keys
    && HasWalk(g, keys[At(vertical, l, c)], keys[At(vertical, l, l.lo)], c - l.lo)
  }

  ghost predicate KeysExtend(keys: map<Point, int>, keys': map<Point, int>) {
    forall k :: k in keys ==> k in keys' && keys'[k] == keys[k]
  }

  lemma CutStaysLinked(
    keys: map<Point, int>, g: Adjacency, keys': map<Point, int>, g': Adjacency, vertical: bool, l: Lane, c: real)
    requires CutLinked(keys, g, vertical, l, c) && KeysExtend(keys, keys') && Extends(g, g')
    ensures CutLinked(keys', g', vertical, l, c)
  {
    HasWalkExtends(g, g', keys[At(vertical, l, c)], keys[At(vertical, l, l.lo)], c - l.lo);
  }

  lemma LaneStaysLinked(
    keys: map<Point, int>, g: Adjacency, keys': map<Point, int>, g': Adjacency,
    vertical: bool, l: Lane, crossing: seq<Lane>)
    requires LaneLinked(keys, g, vertical, l, crossing) && KeysExtend(keys, keys') && Extends(g, g')
    ensures LaneLinked(keys', g', vertical, l, crossing)
  {
    forall c | IsCut(l, crossing, c)
      ensures CutLinked(keys', g', vertical, l, c)
    {
      CutStaysLinked(keys, g, keys', g', vertical, l, c);
    }
  }

  /** A new arc from the next cut down to one already linked. */
  lemma NextCutLinked(keys: map<Point, int>, g: Adjacency, vertical: bool, l: Lane, c: real, next: real)
    requires CutLinked(keys, g, vertical, l, c) && At(vertical, l, next) in keys
    requires Arc(keys[At(vertical, l, c)], next - c) in Arcs(g, keys[At(vertical, l, next)])
    ensures CutLinked(keys, g, vertical, l, next)
  {
    var a, b := keys[At(vertical, l, c)], keys[At(vertical, l, next)];
    ArcIsWalk(g, b, Arc(a, next - c));
    HasWalkJoin(g, b, a, keys[At(vertical, l, l.lo)], next - c, c - l.lo);
  }

  /** The first n cuts of a lane lead to its low end. */
  ghost predicate CutsLinked(
    keys: map<Point, int>, g: Adjacency, vertical: bool, l: Lane, cuts: seq<real>, n: int)
  {
    n <= |cuts| && forall j :: 0 <= j < n ==> CutLinked(keys, g, vertical, l, cuts[j])
  }

  lemma NextCutsLinked(
    keys: map<Point, int>, g: Adjacency, keys': map<Point, int>, g': Adjacency,
    vertical: bool, l: Lane, cuts: seq<real>, i: nat, c: real, next: real)
    requires CutsLinked(keys, g, vertical, l, cuts, i + 1)
    requires i + 1 < |cuts| && cuts[i] == c && cuts[i + 1] == next
    requires KeysExtend(keys, keys') && Extends(g, g')
    requires At(vertical, l, c) in keys' && At(vertical, l, next) in keys'
    requires Arc(keys'[At(vertical, l, c)], next - c) in Arcs(g', keys'[At(vertical, l, next)])
    ensures CutsLinked(keys', g', vertical, l, cuts, i + 2)
  {
    forall j | 0 <= j <= i
      ensures CutLinked(keys', g', vertical, l, cuts[j])
    {
      CutStaysLinked(keys, g, keys', g', vertical, l, cuts[j]);
    }
    NextCutLinked(keys', g', vertical, l, cuts[i], cuts[i + 1]);
  }

  /** Cuts of the fixed lanes are grid values, and none of them is the waiting area. */
  lemma CutsAreOrdinary(vertical: bool, l: Lane, c: real)
    requires l in Lanes(vertical)
    requires IsCut(l, Crossing(vertical), c)
    ensures OnGrid(c) && PointOnGrid(At(vertical, l, c)) && At(vertical, l, c) != REMOTE_WAITING
    ensures l.lo <= c <= l.hi
  {
    LanesOnGrid();
    assert forall m :: m in CORRIDOR_VERTICALS ==> m in CORRIDOR_VERTICALS + CORRIDOR_HORIZONTALS;
    assert forall m :: m in CORRIDOR_HORIZONTALS ==> m in CORRIDOR_VERTICALS + CORRIDOR_HORIZONTALS;
  }

  class CorridorGraph {
    var keyToIdx: map<Point, int>
    var nodeXy: seq<Point>
    var adjacency: Adjacency

    ghost predicate Valid()
      reads this
    {
      Indexed(keyToIdx, nodeXy) && AllCorridorArcs(adjacency, nodeXy)
    }

    /** The number of the node at p, rounded; a new node if there is none yet. */
    method Idx(p: Point) returns (i: int)
      requires Indexed(keyToIdx, nodeXy)
      modifies this`keyToIdx, this`nodeXy
      ensures Indexed(keyToIdx, nodeXy) && RoundPoint(p) in keyToIdx && i == keyToIdx[RoundPoint(p)]
      ensures old(nodeXy) <= nodeXy && KeysExtend(old(keyToIdx), keyToIdx)
    {
      var key := RoundPoint(p);
      RoundError(p.x);
      RoundError(p.y);
      if key !in keyToIdx {
        keyToIdx := keyToIdx[key := |nodeXy|];
        nodeXy := nodeXy + [key];
      }
      i := keyToIdx[key];
    }

    /** Append one directed arc: adjacency.setdefault(a, []).append((b, w)). */
    method Append(a: Node, b: Node, w: real)
      modifies this`adjacency
      ensures Extends(old(adjacency), adjacency) && Arc(b, w) in Arcs(adjacency, a)
      ensures forall u, x :: x in Arcs(adjacency, u) ==> x in Arcs(old(adjacency), u) || (u == a && x == Arc(b, w))
    {
      adjacency := adjacency[a := Arcs(adjacency, a) + [Arc(b, w)]];
    }

    /** Both directions of one corridor leg; legs shorter than a micrometre are skipped. */
    method Link(a: Node, b: Node, w: real)
      requires Valid()
      requires 0 <= a < |nodeXy| && 0 <= b < |nodeXy|
      requires w >= 0.000001 ==> CorridorArc(nodeXy[a], nodeXy[b], w) && CorridorArc(nodeXy[b], nodeXy[a], w)
      modifies this`adjacency
      ensures Valid() && Extends(old(adjacency), adjacency)
      ensures w >= 0.000001 ==> Arc(b, w) in Arcs(adjacency, a) && Arc(a, w) in Arcs(adjacency, b)
      ensures w < 0.000001 ==> adjacency == old(adjacency)
    {
      if w < 0.000001 {
        return;
      }
      Append(a, b, w);
      Append(b, a, w);
    }

    /** Link consecutive cuts of one lane. */
    method LinkLane(vertical: bool, l: Lane, cuts: seq<real>)
      requires Valid()
      requires l in Lanes(vertical)
      requires StrictlySorted(cuts) && |cuts| >= 2 && cuts[0] == l.lo
      requires forall j :: 0 <= j < |cuts| ==> IsCut(l, Crossing(vertical), cuts[j])
      modifies this
      ensures Valid() && Extends(old(adjacency), adjacency) && KeysExtend(old(keyToIdx), keyToIdx)
      ensures CutsLinked(keyToIdx, adjacency, vertical, l, cuts, |cuts|)
    {
      CutsAreOrdinary(vertical, l, l.lo);
      var low := Idx(At(vertical, l, cuts[0]));
      GrownArcs(adjacency, old(nodeXy), nodeXy);
      assert Connects(adjacency, Start(low), low, low) && Start(low).Cost() == 0.0;
      assert CutLinked(keyToIdx, adjacency, vertical, l, l.lo);
      for i := 0 to |cuts| - 1
        invariant Valid() && Extends(old(adjacency), adjacency) && KeysExtend(old(keyToIdx), keyToIdx)
        invariant CutsLinked(keyToIdx, adjacency, vertical, l, cuts, i + 1)
      {
        var c, next := cuts[i], cuts[i + 1];
        ghost var keys, g := keyToIdx, adjacency;
        LinkNext(vertical, l, c, next);
        NextCutsLinked(keys, g, keyToIdx, adjacency, vertical, l, cuts, i, c, next);
      }
    }

    method LinkNext(vertical: bool, l: Lane, c: real, next: real)
      requires Valid() && c < next
      requires l in Lanes(vertical)
      requires IsCut(l, Crossing(vertical), c)
      requires IsCut(l, Crossing(vertical), next)
      modifies this
      ensures Valid() && Extends(old(adjacency), adjacency) && KeysExtend(old(keyToIdx), keyToIdx)
      ensures At(vertical, l, next) in keyToIdx && At(vertical, l, c) in keyToIdx
      ensures Arc(keyToIdx[At(vertical, l, c)], next - c) in Arcs(adjacency, keyToIdx[At(vertical, l, next)])
    {
      var p, q := At(vertical, l, c), At(vertical, l, next);
      CutLeg(vertical, l, c, next);
      var a := Idx(p);
      var b := Idx(q);
      GrownArcs(adjacency, old(nodeXy), nodeXy);
      assert keyToIdx[p] == a && keyToIdx[q] == b;
      assert nodeXy[a] == p && nodeXy[b] == q;
      Link(a, b, next - c);
      assert Arc(a, next - c) in Arcs(adjacency, b);
    }

    constructor ()
      ensures Valid()
      ensures forall l :: l in Lanes(true) ==> LaneLinked(keyToIdx, adjacency, true, l, Crossing(true))
      ensures forall l :: l in Lanes(false) ==> LaneLinked(keyToIdx, adjacency, false, l, Crossing(false))
      ensures WEST_SOUTH in keyToIdx && REMOTE_WAITING in keyToIdx
      ensures HasWalk(adjacency, keyToIdx[WEST_SOUTH], keyToIdx[REMOTE_WAITING], 0.2)
    {
      keyToIdx, nodeXy, adjacency := map[], [], map[];
      new;
      assert forall u :: Arcs(adjacency, u) == [];
      LanesOnGrid();
      for i := 0 to |Lanes(true)|
        invariant Valid()
        invariant forall j :: 0 <= j < i ==>
          LaneLinked(keyToIdx, adjacency, true, Lanes(true)[j], Crossing(true))
      {
        AddLane(true, i);
      }
      for i := 0 to |Lanes(false)|
        invariant Valid()
        invariant forall l :: l in Lanes(true) ==> LaneLinked(keyToIdx, adjacency, true, l, Crossing(true))
        invariant forall j :: 0 <= j < i ==>
          LaneLinked(keyToIdx, adjacency, false, Lanes(false)[j], Crossing(false))
      {
        AddLane(false, i);
      }
      assert Lanes(true)[0] in Lanes(true);
      LinkRemote();
    }

    /** One round of either lane loop. */
    method AddLane(vertical: bool, i: nat)
      requires Valid()
      requires i < |Lanes(vertical)|
      modifies this
      ensures Valid()
      ensures LaneLinked(keyToIdx, adjacency, vertical, Lanes(vertical)[i], Crossing(vertical))
      ensures KeepsLanes(old(keyToIdx), old(adjacency), keyToIdx, adjacency)
    {
      LanesOnGrid();
      var lanes := CORRIDOR_VERTICALS + CORRIDOR_HORIZONTALS;
      var l := Lanes(vertical)[i];
      assert l in lanes;
      var crossing := Crossing(vertical);
      var cuts := Cuts(l, crossing);
      LinkLane(vertical, l, cuts);
      forall c | IsCut(l, crossing, c)
        ensures CutLinked(keyToIdx, adjacency, vertical, l, c)
      {
        var j :| 0 <= j < |cuts| && cuts[j] == c;
      }
      assert IsCut(l, crossing, l.lo);
      AllLanesKept(old(keyToIdx), old(adjacency), keyToIdx, adjacency);
    }

    /** The spur to the waiting area. */
    method LinkRemote()
      requires Valid() && WEST_SOUTH in keyToIdx
      modifies this
      ensures Valid() && KeepsLanes(old(keyToIdx), old(adjacency), keyToIdx, adjacency)
      ensures WEST_SOUTH in keyToIdx && REMOTE_WAITING in keyToIdx
      ensures HasWalk(adjacency, keyToIdx[WEST_SOUTH], keyToIdx[REMOTE_WAITING], 0.2)
    {
      LanesOnGrid();
      var remote := Idx(REMOTE_WAITING);
      var west := Idx(WEST_SOUTH);
      GrownArcs(adjacency, old(nodeXy), nodeXy);
      assert OnVertical(CORRIDOR_VERTICALS[0], WEST_SOUTH) && OnVertical(CORRIDOR_VERTICALS[0], REMOTE_WAITING);
      assert CORRIDOR_VERTICALS[0] in CORRIDOR_VERTICALS;
      Link(remote, west, 0.2);
      ArcIsWalk(adjacency, west, Arc(remote, 0.2));
      AllLanesKept(old(keyToIdx), old(adjacency), keyToIdx, adjacency);
    }
  }

  /** Lanes that were linked before are linked after. */
  ghost predicate KeepsLanes(keys: map<Point, int>, g: Adjacency, keys': map<Point, int>, g': Adjacency) {
    forall vertical, l, crossing ::
      LaneLinked(keys, g, vertical, l, crossing) ==> LaneLinked(keys', g', vertical, l, crossing)
  }

  lemma AllLanesKept(keys: map<Point, int>, g: Adjacency, keys': map<Point, int>, g': Adjacency)
    requires KeysExtend(keys, keys') && Extends(g, g')
    ensures KeepsLanes(keys, g, keys', g')
  {
    forall vertical, l, crossing | LaneLinked(keys, g, vertical, l, crossing)
      ensures LaneLinked(keys', g', vertical, l, crossing)
    {
      LaneStaysLinked(keys, g, keys', g', vertical, l, crossing);
    }
  }

  /** Two cuts of a lane are grid points a corridor arc apart, neither of them the waiting area. */
  lemma CutLeg(vertical: bool, l: Lane, c: real, next: real)
    requires c < next && l in Lanes(vertical)
    requires IsCut(l, Crossing(vertical), c) && IsCut(l, Crossing(vertical), next)
    ensures var p, q := At(vertical, l, c), At(vertical, l, next);
      && RoundPoint(p) == p && RoundPoint(q) == q && p != REMOTE_WAITING && q != REMOTE_WAITING
      && SameLane(p, q) && SameLane(q, p) && L1(p, q) == next - c && next - c >= 0.0001
  {
    CutsAreOrdinary(vertical, l, c);
    CutsAreOrdinary(vertical, l, next);
    GridGap(c, next);
  }

  lemma GrownArcs(g: Adjacency, xy: seq<Point>, xy': seq<Point>)
    requires AllCorridorArcs(g, xy) && xy <= xy'
    ensures AllCorridorArcs(g, xy')
  {
    forall u, a | a in Arcs(g, u)
      ensures 0 <= u < |xy'| && 0 <= a.to < |xy'| && CorridorArc(xy'[u], xy'[a.to], a.weight)
    {
      ArcOnMap(g, xy, u, a);
      assert xy'[u] == xy[u] && xy'[a.to] == xy[a.to];
    }
  }
}
