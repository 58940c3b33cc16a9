/** Waypoints as every route of the planner lists them. */
module Routes {
  import opened Wrappers
  import opened Corridor

  datatype Kind = WAITING | TRANSIT | TURN | INSPECTION

  /** The only headings the planner emits: pi, -pi/2 and pi/2. */
  datatype Heading = West | South | North

  datatype Waypoint = Waypoint(
    pos: Point, kind: Kind, theta: Option<Heading>, slotCode: Option<string>, sequence: Option<nat>)

  function Transit(p: Point): Waypoint { Waypoint(p, TRANSIT, None, None, None) }

  function Turn(p: Point): Waypoint { Waypoint(p, TURN, None, None, None) }

  function WaitingArea(): Waypoint { Waypoint(REMOTE_WAITING, WAITING, Some(North), None, None) }

  predicate Straight(p: Point, q: Point) { p.x == q.x || p.y == q.y }

  /** Driven through, without stopping or turning to a side. */
  predicate PassesThrough(w: Waypoint, p: Point) { w == Waypoint(p, TRANSIT, None, None, None) }

  /** The waiting area, faced north. */
  predicate Waits(w: Waypoint) { w == Waypoint(Point(1.2, 1.2), WAITING, Some(North), None, None) }

  function Positions(route: seq<Waypoint>): (s: seq<Point>)
    ensures |s| == |route| && forall i :: 0 <= i < |s| ==> s[i] == route[i].pos
  {
    seq(|route|, i requires 0 <= i < |route| => route[i].pos)
  }

  /** Drop every waypoint at the same place as the one kept before it. */
  function Deduped(points: seq<Waypoint>): (out: seq<Waypoint>)
    ensures points != [] ==> out != [] && out[0] == points[0] && out[|out| - 1].pos == points[|points| - 1].pos
    ensures forall i :: 0 <= i < |out| - 1 ==> out[i].pos != out[i + 1].pos
    ensures forall w :: w in out ==> w in points
  {
    if points == [] then []
    else
      var out := Deduped(points[..|points| - 1]);
      var point := points[|points| - 1];
      if out == [] || out[|out| - 1].pos != point.pos then out + [point] else out
  }

  method DedupeWaypoints(points: seq<Waypoint>) returns (out: seq<Waypoint>)
    ensures out == Deduped(points)
  {
    out := [];
    for i := 0 to |points|
      invariant out == Deduped(points[..i])
    {
      assert points[..i + 1][..i] == points[..i];
      if out == [] || out[|out| - 1].pos != points[i].pos {
        out := out + [points[i]];
      }
    }
    assert points[..|points|] == points;
  }

  /** A list with no neighbours at one place is left alone. */
  lemma {:induction false} DedupedKeeps(points: seq<Waypoint>)
    requires forall i :: 0 <= i < |points| - 1 ==> points[i].pos != points[i + 1].pos
    ensures Deduped(points) == points
  {
    if points != [] {
      var n := |points| - 1;
      var init := points[..n];
      DedupedKeeps(init);
      assert init == [] || init[n - 1].pos != points[n].pos;
      assert Deduped(points) == init + [points[n]];
    }
  }

  /** A duplicate at the head costs exactly the second waypoint. */
  lemma {:induction false} DedupedHead(points: seq<Waypoint>)
    requires |points| >= 2 && points[0].pos == points[1].pos
    requires forall i :: 1 <= i < |points| - 1 ==> points[i].pos != points[i + 1].pos
    ensures Deduped(points) == [points[0]] + points[2..]
  {
    var n := |points| - 1;
    if n == 1 {
      assert points[..1] == [points[0]];
      assert Deduped(points[..1]) == [points[0]] by { DedupedKeeps(points[..1]); }
      assert points[2..] == [];
    } else {
      DedupedHead(points[..n]);
      assert points[2..] == points[..n][2..] + [points[n]];
      assert ([points[0]] + points[..n][2..])[n - 2].pos == points[n - 1].pos;
    }
  }

  /** Everything after the head of a deduped list comes from after the head of the input. */
  lemma {:induction false} DedupedTail(points: seq<Waypoint>)
    requires points != []
    ensures forall i :: 1 <= i < |Deduped(points)| ==> Deduped(points)[i] in points[1..]
  {
    var n := |points| - 1;
    if n > 0 {
      DedupedTail(points[..n]);
      assert forall w :: w in points[..n][1..] ==> w in points[1..];
      assert points[1..][n - 1] == points[n];
    }
  }

  /** p and q are the places of two waypoints that follow each other. */
  ghost predicate IsLeg(points: seq<Waypoint>, p: Point, q: Point) {
    exists j :: 0 <= j < |points| - 1 && points[j].pos == p && points[j + 1].pos == q
  }

  lemma LegOfMore(points: seq<Waypoint>, w: Waypoint, p: Point, q: Point)
    requires IsLeg(points, p, q) || (points != [] && points[|points| - 1].pos == p && w.pos == q)
    ensures IsLeg(points + [w], p, q)
  {
    var longer := points + [w];
    if IsLeg(points, p, q) {
      var j :| 0 <= j < |points| - 1 && points[j].pos == p && points[j + 1].pos == q;
      assert longer[j].pos == p && longer[j + 1].pos == q;
    } else {
      assert longer[|points| - 1].pos == p && longer[|points| - 1 + 1].pos == q;
    }
  }

  /** Dropping duplicates drops legs of no length: the others stay, and so does the length. */
  ghost predicate SameLegs(points: seq<Waypoint>, out: seq<Waypoint>) {
    && PathLength(Positions(out)) == PathLength(Positions(points))
    && forall i :: 0 <= i < |out| - 1 ==> IsLeg(points, out[i].pos, out[i + 1].pos)
  }

  lemma {:induction false} SameLegsWithOneMore(points: seq<Waypoint>, out: seq<Waypoint>, w: Waypoint)
    requires points != [] && out != [] && out[|out| - 1].pos == points[|points| - 1].pos && SameLegs(points, out)
    ensures SameLegs(points + [w], if out[|out| - 1].pos != w.pos then out + [w] else out)
  {
    var d := if out[|out| - 1].pos != w.pos then out + [w] else out;
    LengthWithOneMore(points, w);
    LengthWithOneMore(out, w);
    forall i | 0 <= i < |d| - 1
      ensures IsLeg(points + [w], d[i].pos, d[i + 1].pos)
    {
      LegOfMore(points, w, d[i].pos, d[i + 1].pos);
    }
  }

  lemma {:induction false} DedupedLegs(points: seq<Waypoint>)
    requires points != []
    ensures SameLegs(points, Deduped(points))
  {
    var n := |points| - 1;
    assert points == points[..n] + [points[n]];
    if n > 0 {
      DedupedLegs(points[..n]);
      SameLegsWithOneMore(points[..n], Deduped(points[..n]), points[n]);
    } else {
      assert Deduped(points) == points;
    }
  }

  lemma LengthWithOneMore(points: seq<Waypoint>, w: Waypoint)
    requires points != []
    ensures PathLength(Positions(points + [w])) == PathLength(Positions(points)) + L1(points[|points| - 1].pos, w.pos)
  {
    assert Positions(points + [w])[..|points|] == Positions(points);
  }
}
