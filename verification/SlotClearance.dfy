/**
 Does a straight leg run into a parking slot? The program tests the two end points and
 then proper crossings of the four edges of the slot's expanded bounding box.
*/
module SlotClearance {
  import opened Corridor

  datatype Box = Box(minX: real, maxX: real, minY: real, maxY: real)

  function Expanded(slot: Point, halfWidth: real, halfHeight: real, margin: real): Box {
    Box(slot.x - halfWidth - margin, slot.x + halfWidth + margin,
        slot.y - halfHeight - margin, slot.y + halfHeight + margin)
  }

  predicate InBounds(box: Box, p: Point) { box.minX <= p.x <= box.maxX && box.minY <= p.y <= box.maxY }

  predicate Inside(box: Box, p: Point) { box.minX < p.x < box.maxX && box.minY < p.y < box.maxY }

  predicate Amid(lo: real, v: real, hi: real) { lo < v < hi || lo == v == hi }

  /** Inside the box; of a flat box, inside what is left of it. */
  predicate InCore(box: Box, p: Point) { Amid(box.minX, p.x, box.maxX) && Amid(box.minY, p.y, box.maxY) }

  function Cross(o: Point, a: Point, b: Point): real { (a.x - o.x) * (b.y - o.y) - (a.y - o.y) * (b.x - o.x) }

  predicate Opposite(u: real, v: real) { (u > 0.0 && v < 0.0) || (u < 0.0 && v > 0.0) }

  predicate Crosses(a: Point, b: Point, p: Point, q: Point) {
    Opposite(Cross(a, b, p), Cross(a, b, q)) && Opposite(Cross(p, q, a), Cross(p, q, b))
  }

  function Corner(box: Box, index: nat): Point {
    if index == 0 then Point(box.minX, box.minY)
    else if index == 1 then Point(box.maxX, box.minY)
    else if index == 2 then Point(box.maxX, box.maxY)
    else Point(box.minX, box.maxY)
  }

  predicate CrossesEdge(a: Point, b: Point, box: Box, index: nat) {
    Crosses(a, b, Corner(box, index), Corner(box, (index + 1) % 4))
  }

  predicate BoxHit(a: Point, b: Point, box: Box) {
    InBounds(box, a) || InBounds(box, b) || exists index :: 0 <= index < 4 && CrossesEdge(a, b, box, index)
  }

  /** segment_intersects_slot */
  predicate SegmentIntersectsSlot(a: Point, b: Point, slot: Point, halfWidth: real, halfHeight: real, margin: real) {
    BoxHit(a, b, Expanded(slot, halfWidth, halfHeight, margin))
  }

  /** A coordinate at parameter t, starting at g and changing by d. */
  function Lerp(g: real, d: real, t: real): real { g + t * d }

  /** The point at parameter t of the leg. */
  function At(a: Point, b: Point, t: real): Point { Point(Lerp(a.x, b.x - a.x, t), Lerp(a.y, b.y - a.y, t)) }

  ghost predicate OnLeg(a: Point, b: Point, t: real, p: Point) { 0.0 <= t <= 1.0 && p == At(a, b, t) }

  ghost predicate MeetsBox(a: Point, b: Point, box: Box) {
    exists t, p :: OnLeg(a, b, t, p) && InBounds(box, p)
  }

  ghost predicate MeetsCore(a: Point, b: Point, box: Box) {
    exists t, p :: OnLeg(a, b, t, p) && InCore(box, p)
  }

  ghost predicate MeetsInside(a: Point, b: Point, box: Box) {
    exists t, p :: OnLeg(a, b, t, p) && Inside(box, p)
  }

  /** The leg's line runs through two opposite corners. */
  predicate AlongDiagonal(a: Point, b: Point, box: Box) {
    || (Cross(a, b, Corner(box, 0)) == 0.0 && Cross(a, b, Corner(box, 2)) == 0.0)
    || (Cross(a, b, Corner(box, 1)) == 0.0 && Cross(a, b, Corner(box, 3)) == 0.0)
  }

  // --- products ----------------------------------------------------------------------------

  lemma SignedProduct(e: real, d: real)
    ensures Abs(e * d) == Abs(e) * Abs(d)
    ensures e * d > 0.0 <==> Opposite(e, -d)
    ensures e * d < 0.0 <==> Opposite(e, d)
  {
  }

  lemma OppositeScaled(k: real, u: real, v: real)
    requires k != 0.0
    ensures Opposite(k * u, k * v) <==> Opposite(u, v)
  {
    SignedProduct(k, u);
    SignedProduct(k, v);
  }

  lemma SameSigns(p: real, q: real, k: real, u: real, v: real)
    requires k != 0.0 && p == k * u && q == k * v
    ensures Opposite(p, q) <==> Opposite(u, v)
  {
    OppositeScaled(k, u, v);
  }

  lemma MulGrows(x: real, y: real, d: real)
    requires x <= y
    ensures d >= 0.0 ==> x * d <= y * d
    ensures d <= 0.0 ==> x * d >= y * d
  {
    SignedProduct(y - x, d);
    assert (y - x) * d == y * d - x * d;
  }

  /** Some positive factor keeps k below the bound. */
  lemma TinyFactor(k: real, bound: real) returns (s: real)
    requires k >= 0.0 && bound > 0.0
    ensures s > 0.0 && s * k < bound
  {
    s := bound / (k + 1.0);
    assert s * k + s == bound;
  }

  lemma TinyFactors(k: real, bound: real, l: real, room: real, slack: real) returns (s: real)
    requires k >= 0.0 && bound > 0.0 && l >= 0.0 && room > 0.0 && slack > 0.0
    ensures 0.0 < s <= slack && s * k < bound && s * l < room
  {
    var s1 := TinyFactor(k, bound);
    var s2 := TinyFactor(l, room);
    s := if s1 < s2 then s1 else s2;
    s := if s < slack then s else slack;
    MulGrows(s, s1, k);
    MulGrows(s, s2, l);
  }

  // --- one edge ----------------------------------------------------------------------------

  /**
   A leg and a box seen from one edge: u runs across it and v along it. The leg starts at
   (au, av) and goes (du, dv); the edge is at u = c from v = lo to hi, the box ends at u = far.
  */
  datatype View = View(au: real, av: real, du: real, dv: real, c: real, far: real, lo: real, hi: real)

  predicate StrictlyBetween(x: real, c: real, d: real) { c < x < d || d < x < c }

  predicate WeaklyBetween(x: real, c: real, d: real) { c <= x <= d || d <= x <= c }

  predicate Proper(w: View) { w.lo < w.hi && w.c != w.far }

  /** Which side of the leg's line the edge's point at height v lies on. */
  function SideOf(w: View, v: real): real { w.du * (v - w.av) - w.dv * (w.c - w.au) }

  /** The leg's line passes strictly between the ends of the edge. */
  predicate Split(w: View) { Opposite(SideOf(w, w.lo), SideOf(w, w.hi)) }

  /** The leg's ends are strictly on either side of the edge's line. */
  predicate Apart(w: View) { Opposite(w.au - w.c, w.au + w.du - w.c) }

  predicate Within(w: View, u: real, v: real) { StrictlyBetween(u, w.c, w.far) && w.lo < v < w.hi }

  predicate InBox(w: View, u: real, v: real) { WeaklyBetween(u, w.c, w.far) && w.lo <= v <= w.hi }

  predicate InsideAt(w: View, m: real) { Within(w, Lerp(w.au, w.du, m), Lerp(w.av, w.dv, m)) }

  lemma SplitIsNotLevel(w: View)
    requires Split(w)
    ensures w.du != 0.0
  {
    assert SideOf(w, w.lo) - SideOf(w, w.hi) == w.du * (w.lo - w.hi);
  }

  /** Where a line that splits the edge meets it. */
  lemma MeetingPoint(w: View) returns (t: real)
    requires w.lo < w.hi && Split(w)
    ensures w.du != 0.0 && Lerp(w.au, w.du, t) == w.c && w.lo < Lerp(w.av, w.dv, t) < w.hi
  {
    SplitIsNotLevel(w);
    t := (w.c - w.au) / w.du;
    var v := Lerp(w.av, w.dv, t);
    assert t * w.du == w.c - w.au;
    SideFromMeeting(w, t, w.lo);
    SideFromMeeting(w, t, w.hi);
    OppositeScaled(w.du, w.lo - v, w.hi - v);
  }

  lemma SideFromMeeting(w: View, t: real, v: real)
    requires t * w.du == w.c - w.au
    ensures SideOf(w, v) == w.du * (v - Lerp(w.av, w.dv, t))
  {
    Factor(w.du, w.dv, v - w.av, w.c - w.au, t);
    assert v - Lerp(w.av, w.dv, t) == v - w.av - t * w.dv;
  }

  lemma Factor(du: real, dv: real, rise: real, gap: real, t: real)
    requires t * du == gap
    ensures du * rise - dv * gap == du * (rise - t * dv)
  {
    assert dv * (t * du) == du * (t * dv);
    assert du * (rise - t * dv) == du * rise - du * (t * dv);
  }

  /** A coordinate at a parameter in between lies in between. */
  lemma InBetween(g: real, d: real, s1: real, s: real, s2: real)
    requires WeaklyBetween(s, s1, s2)
    ensures WeaklyBetween(Lerp(g, d, s), Lerp(g, d, s1), Lerp(g, d, s2))
  {
    assert WeaklyBetween(s * d, s1 * d, s2 * d) by {
      if s1 <= s <= s2 {
        MulGrows(s1, s, d);
        MulGrows(s, s2, d);
      } else {
        MulGrows(s2, s, d);
        MulGrows(s, s1, d);
      }
    }
    Shift(g, s * d, s1 * d, s2 * d);
  }

  lemma Shift(g: real, x: real, x1: real, x2: real)
    requires WeaklyBetween(x, x1, x2)
    ensures WeaklyBetween(g + x, g + x1, g + x2)
  {
  }

  /** Inside at m and on the edge at t, with both ends out of the box: the edge is met between the ends. */
  lemma MetBetweenEnds(w: View, t: real, m: real)
    requires Lerp(w.au, w.du, t) == w.c && w.lo < Lerp(w.av, w.dv, t) < w.hi
    requires 0.0 <= m <= 1.0 && InsideAt(w, m)
    requires !InBox(w, w.au, w.av) && !InBox(w, w.au + w.du, w.av + w.dv)
    ensures 0.0 < t < 1.0
  {
    assert Lerp(w.au, w.du, 0.0) == w.au && Lerp(w.av, w.dv, 0.0) == w.av;
    assert Lerp(w.au, w.du, 1.0) == w.au + w.du && Lerp(w.av, w.dv, 1.0) == w.av + w.dv;
    if t <= 0.0 {
      InBetween(w.au, w.du, t, 0.0, m);
      InBetween(w.av, w.dv, t, 0.0, m);
    } else if t >= 1.0 {
      InBetween(w.au, w.du, m, 1.0, t);
      InBetween(w.av, w.dv, m, 1.0, t);
    }
  }

  /** The edge's line is met strictly between the ends exactly if they are strictly on either side of it. */
  lemma ApartIfMetBetween(w: View, t: real)
    requires w.du != 0.0 && Lerp(w.au, w.du, t) == w.c
    ensures 0.0 < t < 1.0 <==> Apart(w)
  {
    SignedProduct(t, w.du);
    SignedProduct(t - 1.0, w.du);
    assert (t - 1.0) * w.du == t * w.du - w.du;
  }

  lemma SplitAndInsideIsApart(w: View, m: real)
    requires Proper(w) && Split(w) && 0.0 <= m <= 1.0 && InsideAt(w, m)
    requires !InBox(w, w.au, w.av) && !InBox(w, w.au + w.du, w.av + w.dv)
    ensures Apart(w)
  {
    var t := MeetingPoint(w);
    MetBetweenEnds(w, t, m);
    ApartIfMetBetween(w, t);
  }

  lemma SignedStep(s: real, du: real, dv: real, depth: real, room: real) returns (e: real)
    requires du != 0.0 && depth != 0.0 && s > 0.0 && s * Abs(du) < Abs(depth) && s * Abs(dv) < room
    ensures Abs(e) == s && StrictlyBetween(e * du, 0.0, depth) && -room < e * dv < room
  {
    e := if (du > 0.0) == (depth > 0.0) then s else -s;
    SignedProduct(e, du);
    SignedProduct(e, dv);
  }

  /** A parameter step that moves u strictly towards the far side and v by less than the room it has. */
  lemma SmallStep(du: real, dv: real, depth: real, room: real, slack: real) returns (e: real)
    requires du != 0.0 && depth != 0.0 && room > 0.0 && slack > 0.0
    ensures -slack <= e <= slack && StrictlyBetween(e * du, 0.0, depth) && -room < e * dv < room
  {
    var s := TinyFactors(Abs(du), Abs(depth), Abs(dv), room, slack);
    e := SignedStep(s, du, dv, depth, room);
  }

  lemma LerpStep(g: real, d: real, t: real, e: real)
    ensures Lerp(g, d, t + e) == Lerp(g, d, t) + e * d
  {
    assert (t + e) * d == t * d + e * d;
  }

  lemma StepInside(w: View, t: real, e: real)
    requires Lerp(w.au, w.du, t) == w.c && StrictlyBetween(e * w.du, 0.0, w.far - w.c)
    requires w.lo < Lerp(w.av, w.dv, t) + e * w.dv < w.hi
    ensures InsideAt(w, t + e)
  {
    LerpStep(w.au, w.du, t, e);
    LerpStep(w.av, w.dv, t, e);
  }

  lemma StepFrom(w: View, t: real) returns (m: real)
    requires Proper(w) && w.du != 0.0 && 0.0 < t < 1.0
    requires Lerp(w.au, w.du, t) == w.c && w.lo < Lerp(w.av, w.dv, t) < w.hi
    ensures 0.0 <= m <= 1.0 && InsideAt(w, m)
  {
    var v := Lerp(w.av, w.dv, t);
    var room := if v - w.lo < w.hi - v then v - w.lo else w.hi - v;
    var e := SmallStep(w.du, w.dv, w.far - w.c, room, if t < 1.0 - t then t else 1.0 - t);
    m := t + e;
    StepInside(w, t, e);
  }

  /** A proper crossing of an edge: next to the crossing the leg has a point inside the box. */
  lemma CrossingGoesInside(w: View) returns (m: real)
    requires Proper(w) && Split(w) && Apart(w)
    ensures 0.0 <= m <= 1.0 && InsideAt(w, m)
  {
    var t := MeetingPoint(w);
    ApartIfMetBetween(w, t);
    m := StepFrom(w, t);
  }

  // --- the four edges ----------------------------------------------------------------------

  predicate Roomy(box: Box) { box.minX < box.maxX && box.minY < box.maxY }

  function CornerSide(a: Point, b: Point, box: Box, index: nat): real { Cross(a, b, Corner(box, index)) }

  /** The leg's line passes strictly between the two corners of the edge. */
  predicate Splits(a: Point, b: Point, box: Box, index: nat) {
    Opposite(CornerSide(a, b, box, index), CornerSide(a, b, box, (index + 1) % 4))
  }

  /** What each edge sees: bottom, right, top, left. */
  function ViewOf(a: Point, b: Point, box: Box, index: nat): View {
    if index == 0 then View(a.y, a.x, b.y - a.y, b.x - a.x, box.minY, box.maxY, box.minX, box.maxX)
    else if index == 1 then View(a.x, a.y, b.x - a.x, b.y - a.y, box.maxX, box.minX, box.minY, box.maxY)
    else if index == 2 then View(a.y, a.x, b.y - a.y, b.x - a.x, box.maxY, box.minY, box.minX, box.maxX)
    else View(a.x, a.y, b.x - a.x, b.y - a.y, box.minX, box.maxX, box.minY, box.maxY)
  }

  predicate Vertical(index: nat) { index == 1 || index == 3 }

  lemma BoxFromEdge(a: Point, b: Point, box: Box, index: nat, p: Point)
    requires Roomy(box) && index < 4
    ensures var w := ViewOf(a, b, box, index);
      && Proper(w)
      && (Inside(box, p) <==> if Vertical(index) then Within(w, p.x, p.y) else Within(w, p.y, p.x))
      && (InBounds(box, p) <==> if Vertical(index) then InBox(w, p.x, p.y) else InBox(w, p.y, p.x))
  {
  }

  lemma InsideFromEdge(a: Point, b: Point, box: Box, index: nat, m: real)
    requires Roomy(box) && index < 4
    ensures Inside(box, At(a, b, m)) <==> InsideAt(ViewOf(a, b, box, index), m)
  {
    BoxFromEdge(a, b, box, index, At(a, b, m));
  }

  lemma EndsFromEdge(a: Point, b: Point, box: Box, index: nat)
    requires Roomy(box) && index < 4
    ensures var w := ViewOf(a, b, box, index);
      && (InBounds(box, a) <==> InBox(w, w.au, w.av))
      && (InBounds(box, b) <==> InBox(w, w.au + w.du, w.av + w.dv))
  {
    BoxFromEdge(a, b, box, index, a);
    BoxFromEdge(a, b, box, index, b);
  }

  lemma VerticalEdge(a: Point, b: Point, c: real, y1: real, y2: real)
    requires y1 != y2
    ensures Opposite(Cross(Point(c, y1), Point(c, y2), a), Cross(Point(c, y1), Point(c, y2), b))
      <==> Opposite(a.x - c, b.x - c)
  {
    var k := y1 - y2;
    SameSigns(Cross(Point(c, y1), Point(c, y2), a), Cross(Point(c, y1), Point(c, y2), b), k, a.x - c, b.x - c);
  }

  lemma HorizontalEdge(a: Point, b: Point, c: real, x1: real, x2: real)
    requires x1 != x2
    ensures Opposite(Cross(Point(x1, c), Point(x2, c), a), Cross(Point(x1, c), Point(x2, c), b))
      <==> Opposite(a.y - c, b.y - c)
  {
    var k := x2 - x1;
    SameSigns(Cross(Point(x1, c), Point(x2, c), a), Cross(Point(x1, c), Point(x2, c), b), k, a.y - c, b.y - c);
  }

  lemma CrossedFromVertical(a: Point, b: Point, box: Box, index: nat)
    requires box.minY < box.maxY && (index == 1 || index == 3)
    ensures var w := ViewOf(a, b, box, index);
      (Splits(a, b, box, index) <==> Split(w)) && (CrossesEdge(a, b, box, index) <==> Split(w) && Apart(w))
  {
    var w := ViewOf(a, b, box, index);
    VerticalEdge(a, b, w.c, box.minY, box.maxY);
    VerticalEdge(a, b, w.c, box.maxY, box.minY);
    assert SideOf(w, box.minY) == Cross(a, b, Point(w.c, box.minY));
    assert SideOf(w, box.maxY) == Cross(a, b, Point(w.c, box.maxY));
  }

  lemma CrossedFromHorizontal(a: Point, b: Point, box: Box, index: nat)
    requires box.minX < box.maxX && (index == 0 || index == 2)
    ensures var w := ViewOf(a, b, box, index);
      (Splits(a, b, box, index) <==> Split(w)) && (CrossesEdge(a, b, box, index) <==> Split(w) && Apart(w))
  {
    var w := ViewOf(a, b, box, index);
    HorizontalEdge(a, b, w.c, box.minX, box.maxX);
    HorizontalEdge(a, b, w.c, box.maxX, box.minX);
    assert SideOf(w, box.minX) == -Cross(a, b, Point(box.minX, w.c));
    assert SideOf(w, box.maxX) == -Cross(a, b, Point(box.maxX, w.c));
  }

  lemma CrossedFromEdge(a: Point, b: Point, box: Box, index: nat)
    requires Roomy(box) && index < 4
    ensures var w := ViewOf(a, b, box, index);
      (Splits(a, b, box, index) <==> Split(w)) && (CrossesEdge(a, b, box, index) <==> Split(w) && Apart(w))
  {
    if Vertical(index) {
      CrossedFromVertical(a, b, box, index);
    } else {
      CrossedFromHorizontal(a, b, box, index);
    }
  }

  /** A split edge is properly crossed, when the leg gets inside and its ends are outside. */
  lemma SplitEdgeIsCrossed(a: Point, b: Point, box: Box, index: nat, m: real)
    requires Roomy(box) && index < 4 && Splits(a, b, box, index)
    requires 0.0 <= m <= 1.0 && Inside(box, At(a, b, m)) && !InBounds(box, a) && !InBounds(box, b)
    ensures CrossesEdge(a, b, box, index)
  {
    CrossedFromEdge(a, b, box, index);
    InsideFromEdge(a, b, box, index, m);
    EndsFromEdge(a, b, box, index);
    BoxFromEdge(a, b, box, index, a);
    SplitAndInsideIsApart(ViewOf(a, b, box, index), m);
  }

  lemma CrossedEdgeGoesInside(a: Point, b: Point, box: Box, index: nat)
    requires Roomy(box) && index < 4 && CrossesEdge(a, b, box, index)
    ensures MeetsInside(a, b, box)
  {
    CrossedFromEdge(a, b, box, index);
    BoxFromEdge(a, b, box, index, a);
    var m := CrossingGoesInside(ViewOf(a, b, box, index));
    InsideFromEdge(a, b, box, index, m);
    assert OnLeg(a, b, m, At(a, b, m));
  }

  // --- the line and the corners ------------------------------------------------------------

  predicate Between(x: real, y: real, z: real) { x < y < z || z < y < x || x == y == z }

  lemma PositiveBetween(k: real, x: real, y: real, z: real)
    requires Between(x, y, z) && k + x >= 0.0 && k + z >= 0.0
    ensures k + y >= 0.0
    ensures k + x > 0.0 || k + z > 0.0 ==> k + y > 0.0
  {
  }

  lemma ScaledBetween(d: real, lo: real, s: real, hi: real)
    requires lo < s < hi
    ensures Between(lo * d, s * d, hi * d)
  {
    SignedProduct(s - lo, d);
    SignedProduct(hi - s, d);
    assert (s - lo) * d == s * d - lo * d;
    assert (hi - s) * d == hi * d - s * d;
    if d == 0.0 {
      assert s * d == 0.0 && lo * d == 0.0 && hi * d == 0.0;
    }
  }

  /**
   Strictly inside an interval, an affine function is positive if it is so at one end and not
   negative at the other.
  */
  lemma AffinePositive(k: real, d: real, lo: real, s: real, hi: real)
    requires lo < s < hi && k + lo * d >= 0.0 && k + hi * d >= 0.0
    ensures k + s * d >= 0.0
    ensures k + lo * d > 0.0 || k + hi * d > 0.0 ==> k + s * d > 0.0
  {
    ScaledBetween(d, lo, s, hi);
    PositiveBetween(k, lo * d, s * d, hi * d);
  }

  lemma CrossAlongX(a: Point, b: Point, y: real) returns (k: real, d: real)
    ensures forall x {:trigger Cross(a, b, Point(x, y))} :: Cross(a, b, Point(x, y)) == k + x * d
  {
    k, d := (b.x - a.x) * (y - a.y) + (b.y - a.y) * a.x, a.y - b.y;
  }

  lemma CrossAlongY(a: Point, b: Point, x: real) returns (k: real, d: real)
    ensures forall y {:trigger Cross(a, b, Point(x, y))} :: Cross(a, b, Point(x, y)) == k + y * d
  {
    k, d := (b.y - a.y) * (a.x - x) - (b.x - a.x) * a.y, b.x - a.x;
  }

  /** With all corners on one side, and one strictly so, every point inside is strictly on that side. */
  lemma InsideIsOnSide(a: Point, b: Point, box: Box, p: Point)
    requires Roomy(box) && Inside(box, p)
    requires forall i :: 0 <= i < 4 ==> CornerSide(a, b, box, i) >= 0.0
    requires exists i :: 0 <= i < 4 && CornerSide(a, b, box, i) > 0.0
    ensures Cross(a, b, p) > 0.0
  {
    assert forall i :: 0 <= i < 4 ==> CornerSide(a, b, box, i) == Cross(a, b, Corner(box, i));
    var j :| 0 <= j < 4 && CornerSide(a, b, box, j) > 0.0;
    assert CornerSide(a, b, box, 0) >= 0.0 && CornerSide(a, b, box, 1) >= 0.0;
    assert CornerSide(a, b, box, 2) >= 0.0 && CornerSide(a, b, box, 3) >= 0.0;
    RowPositive(a, b, box.minX, p.x, box.maxX, box.minY);
    RowPositive(a, b, box.minX, p.x, box.maxX, box.maxY);
    ColumnPositive(a, b, box.minY, p.y, box.maxY, p.x);
  }

  lemma ColumnPositive(a: Point, b: Point, lo: real, y: real, hi: real, x: real)
    requires lo < y < hi && Cross(a, b, Point(x, lo)) >= 0.0 && Cross(a, b, Point(x, hi)) >= 0.0
    requires Cross(a, b, Point(x, lo)) > 0.0 || Cross(a, b, Point(x, hi)) > 0.0
    ensures Cross(a, b, Point(x, y)) > 0.0
  {
    var k, d := CrossAlongY(a, b, x);
    AffinePositive(k, d, lo, y, hi);
  }

  lemma RowPositive(a: Point, b: Point, lo: real, x: real, hi: real, y: real)
    requires lo < x < hi && Cross(a, b, Point(lo, y)) >= 0.0 && Cross(a, b, Point(hi, y)) >= 0.0
    ensures Cross(a, b, Point(x, y)) >= 0.0
    ensures Cross(a, b, Point(lo, y)) > 0.0 || Cross(a, b, Point(hi, y)) > 0.0 ==> Cross(a, b, Point(x, y)) > 0.0
  {
    var k, d := CrossAlongX(a, b, y);
    AffinePositive(k, d, lo, x, hi);
  }

  lemma CrossReversed(a: Point, b: Point, p: Point)
    ensures Cross(b, a, p) == -Cross(a, b, p)
  {
  }

  lemma OwnPointsOnLine(a: Point, b: Point, t: real)
    ensures Cross(a, b, At(a, b, t)) == 0.0
  {
    var d, e := b.x - a.x, b.y - a.y;
    assert d * (t * e) == e * (t * d);
  }

  /** A line with a point inside the box, not along a diagonal, passes strictly between two adjacent corners. */
  lemma LineSplitsAnEdge(a: Point, b: Point, box: Box, t: real) returns (index: nat)
    requires Roomy(box) && Inside(box, At(a, b, t)) && !AlongDiagonal(a, b, box)
    ensures index < 4 && Splits(a, b, box, index)
  {
    var p := At(a, b, t);
    OwnPointsOnLine(a, b, t);
    CrossReversed(a, b, p);
    index :=
      if Splits(a, b, box, 0) then 0 else if Splits(a, b, box, 1) then 1 else if Splits(a, b, box, 2) then 2 else 3;
    if !Splits(a, b, box, index) {
      var d0, d1 := CornerSide(a, b, box, 0), CornerSide(a, b, box, 1);
      var d2, d3 := CornerSide(a, b, box, 2), CornerSide(a, b, box, 3);
      forall i | 0 <= i < 4
        ensures CornerSide(b, a, box, i) == -CornerSide(a, b, box, i)
      {
        CrossReversed(a, b, Corner(box, i));
      }
      if d0 >= 0.0 && d1 >= 0.0 && d2 >= 0.0 && d3 >= 0.0 {
        InsideIsOnSide(a, b, box, p);
      } else {
        assert d0 <= 0.0 && d1 <= 0.0 && d2 <= 0.0 && d3 <= 0.0;
        InsideIsOnSide(b, a, box, p);
      }
    }
  }

  // --- flat boxes --------------------------------------------------------------------------

  predicate OnEdge(w: View, u: real, v: real) { u == w.c && w.lo <= v <= w.hi }

  predicate MeetsEdgeAt(w: View, t: real) {
    0.0 <= t <= 1.0 && Lerp(w.au, w.du, t) == w.c && w.lo < Lerp(w.av, w.dv, t) < w.hi
  }

  /**
   A leg that starts and ends off the edge crosses it exactly if it meets it between its ends
   and does not run along it.
  */
  lemma EdgeCrossedExactly(w: View)
    requires w.lo < w.hi && !OnEdge(w, w.au, w.av) && !OnEdge(w, w.au + w.du, w.av + w.dv)
    ensures Split(w) && Apart(w) <==>
      (exists t :: MeetsEdgeAt(w, t)) && !(SideOf(w, w.lo) == 0.0 && SideOf(w, w.hi) == 0.0)
  {
    if Split(w) && Apart(w) {
      var t := MeetingPoint(w);
      ApartIfMetBetween(w, t);
      assert MeetsEdgeAt(w, t);
    }
    if t :| MeetsEdgeAt(w, t) && !(SideOf(w, w.lo) == 0.0 && SideOf(w, w.hi) == 0.0) {
      MetEdgeIsCrossed(w, t);
    }
  }

  lemma MetEdgeIsCrossed(w: View, t: real)
    requires w.lo < w.hi && !OnEdge(w, w.au, w.av) && !OnEdge(w, w.au + w.du, w.av + w.dv)
    requires MeetsEdgeAt(w, t) && !(SideOf(w, w.lo) == 0.0 && SideOf(w, w.hi) == 0.0)
    ensures Split(w) && Apart(w)
  {
    MetOffEnds(w, t);
    var v := Lerp(w.av, w.dv, t);
    SideFromMeeting(w, t, w.lo);
    SideFromMeeting(w, t, w.hi);
    assert w.du == 0.0 ==> SideOf(w, w.lo) == 0.0 && SideOf(w, w.hi) == 0.0;
    OppositeScaled(w.du, w.lo - v, w.hi - v);
    ApartIfMetBetween(w, t);
  }

  lemma MetOffEnds(w: View, t: real)
    requires MeetsEdgeAt(w, t) && !OnEdge(w, w.au, w.av) && !OnEdge(w, w.au + w.du, w.av + w.dv)
    ensures 0.0 < t < 1.0
  {
    assert Lerp(w.au, w.du, 0.0) == w.au && Lerp(w.av, w.dv, 0.0) == w.av;
    assert Lerp(w.au, w.du, 1.0) == w.au + w.du && Lerp(w.av, w.dv, 1.0) == w.av + w.dv;
  }

  lemma NoEdgeNoCrossing(a: Point, b: Point, p: Point)
    ensures !Crosses(a, b, p, p)
  {
  }

  lemma CoreOfFlat(a: Point, b: Point, box: Box, index: nat)
    requires index < 2 && if index == 1 then box.minX == box.maxX && box.minY < box.maxY
                          else box.minY == box.maxY && box.minX < box.maxX
    ensures MeetsCore(a, b, box) <==> exists t :: MeetsEdgeAt(ViewOf(a, b, box, index), t)
  {
    var w := ViewOf(a, b, box, index);
    if t, p :| OnLeg(a, b, t, p) && InCore(box, p) {
      assert MeetsEdgeAt(w, t);
    }
    if t :| MeetsEdgeAt(w, t) {
      assert OnLeg(a, b, t, At(a, b, t)) && InCore(box, At(a, b, t));
    }
  }

  /** A box of no width is its right edge. */
  lemma NarrowHit(a: Point, b: Point, box: Box)
    requires box.minX == box.maxX && box.minY < box.maxY && !InBounds(box, a) && !InBounds(box, b)
    ensures BoxHit(a, b, box) <==> MeetsCore(a, b, box) && !AlongDiagonal(a, b, box)
  {
    NarrowEdges(a, b, box);
    NarrowLine(a, b, box);
    CoreOfFlat(a, b, box, 1);
    EdgeCrossedExactly(ViewOf(a, b, box, 1));
  }

  lemma NarrowEdges(a: Point, b: Point, box: Box)
    requires box.minX == box.maxX && box.minY < box.maxY && !InBounds(box, a) && !InBounds(box, b)
    ensures BoxHit(a, b, box) <==> Split(ViewOf(a, b, box, 1)) && Apart(ViewOf(a, b, box, 1))
  {
    NoEdgeNoCrossing(a, b, Corner(box, 0));
    NoEdgeNoCrossing(a, b, Corner(box, 2));
    CrossedFromVertical(a, b, box, 1);
    CrossedFromVertical(a, b, box, 3);
    assert CrossesEdge(a, b, box, 1) <==> BoxHit(a, b, box);
  }

  lemma NarrowLine(a: Point, b: Point, box: Box)
    requires box.minX == box.maxX && box.minY < box.maxY
    ensures var w := ViewOf(a, b, box, 1);
      AlongDiagonal(a, b, box) <==> SideOf(w, w.lo) == 0.0 && SideOf(w, w.hi) == 0.0
  {
    var w := ViewOf(a, b, box, 1);
    assert SideOf(w, box.minY) == Cross(a, b, Point(w.c, box.minY));
    assert SideOf(w, box.maxY) == Cross(a, b, Point(w.c, box.maxY));
  }

  /** A box of no height is its bottom edge. */
  lemma LowHit(a: Point, b: Point, box: Box)
    requires box.minY == box.maxY && box.minX < box.maxX && !InBounds(box, a) && !InBounds(box, b)
    ensures BoxHit(a, b, box) <==> MeetsCore(a, b, box) && !AlongDiagonal(a, b, box)
  {
    LowEdges(a, b, box);
    LowLine(a, b, box);
    CoreOfFlat(a, b, box, 0);
    EdgeCrossedExactly(ViewOf(a, b, box, 0));
  }

  lemma LowEdges(a: Point, b: Point, box: Box)
    requires box.minY == box.maxY && box.minX < box.maxX && !InBounds(box, a) && !InBounds(box, b)
    ensures BoxHit(a, b, box) <==> Split(ViewOf(a, b, box, 0)) && Apart(ViewOf(a, b, box, 0))
  {
    NoEdgeNoCrossing(a, b, Corner(box, 1));
    NoEdgeNoCrossing(a, b, Corner(box, 3));
    CrossedFromHorizontal(a, b, box, 0);
    CrossedFromHorizontal(a, b, box, 2);
    assert CrossesEdge(a, b, box, 0) <==> BoxHit(a, b, box);
  }

  lemma LowLine(a: Point, b: Point, box: Box)
    requires box.minY == box.maxY && box.minX < box.maxX
    ensures var w := ViewOf(a, b, box, 0);
      AlongDiagonal(a, b, box) <==> SideOf(w, w.lo) == 0.0 && SideOf(w, w.hi) == 0.0
  {
    var w := ViewOf(a, b, box, 0);
    assert SideOf(w, box.minX) == -Cross(a, b, Point(box.minX, w.c));
    assert SideOf(w, box.maxX) == -Cross(a, b, Point(box.maxX, w.c));
  }

  /** A box that is one point is never crossed. */
  lemma PointHit(a: Point, b: Point, box: Box)
    requires box.minX == box.maxX && box.minY == box.maxY && !InBounds(box, a) && !InBounds(box, b)
    ensures !BoxHit(a, b, box) && (MeetsCore(a, b, box) ==> AlongDiagonal(a, b, box))
  {
    NoEdgeNoCrossing(a, b, Corner(box, 0));
    if t, p :| OnLeg(a, b, t, p) && InCore(box, p) {
      OwnPointsOnLine(a, b, t);
      assert p == Corner(box, 0) == Corner(box, 2);
    }
  }

  lemma RoomyHit(a: Point, b: Point, box: Box)
    requires Roomy(box) && !InBounds(box, a) && !InBounds(box, b)
    ensures BoxHit(a, b, box) <==> MeetsInside(a, b, box) && !AlongDiagonal(a, b, box)
  {
    if BoxHit(a, b, box) {
      var index :| 0 <= index < 4 && CrossesEdge(a, b, box, index);
      CrossedEdgeGoesInside(a, b, box, index);
      assert Splits(a, b, box, index);
    }
    if MeetsInside(a, b, box) && !AlongDiagonal(a, b, box) {
      var t, p :| OnLeg(a, b, t, p) && Inside(box, p);
      var index := LineSplitsAnEdge(a, b, box, t);
      SplitEdgeIsCrossed(a, b, box, index, t);
    }
  }

  // --- what the test decides ---------------------------------------------------------------

  /**
   Exactly what is reported: a leg with an end in the closed box, or one that gets strictly
   inside it, except along a diagonal of the box. Of a box without width or height, the
   inside is what lies between its ends.
  */
  lemma HitExactly(a: Point, b: Point, slot: Point, halfWidth: real, halfHeight: real, margin: real)
    requires halfWidth + margin >= 0.0 && halfHeight + margin >= 0.0
    ensures var box := Expanded(slot, halfWidth, halfHeight, margin);
      SegmentIntersectsSlot(a, b, slot, halfWidth, halfHeight, margin) <==>
        (InBounds(box, a) || InBounds(box, b) || (MeetsCore(a, b, box) && !AlongDiagonal(a, b, box)))
  {
    var box := Expanded(slot, halfWidth, halfHeight, margin);
    if !InBounds(box, a) && !InBounds(box, b) {
      if Roomy(box) {
        RoomyHit(a, b, box);
        assert forall p :: InCore(box, p) <==> Inside(box, p);
      } else if box.minY < box.maxY {
        NarrowHit(a, b, box);
      } else if box.minX < box.maxX {
        LowHit(a, b, box);
      } else {
        PointHit(a, b, box);
      }
    }
  }

  /** Whatever is reported does touch the box. */
  ghost predicate Sound(slot: Point, halfWidth: real, halfHeight: real, margin: real) {
    forall a, b :: SegmentIntersectsSlot(a, b, slot, halfWidth, halfHeight, margin)
      ==> MeetsBox(a, b, Expanded(slot, halfWidth, halfHeight, margin))
  }

  /** The test is sound exactly for boxes that are there: a negative extent leaves no box, but still crossable edges. */
  lemma SoundExactly(slot: Point, halfWidth: real, halfHeight: real, margin: real)
    ensures Sound(slot, halfWidth, halfHeight, margin) <==> halfWidth + margin >= 0.0 && halfHeight + margin >= 0.0
  {
    if halfWidth + margin >= 0.0 && halfHeight + margin >= 0.0 {
      forall a, b | SegmentIntersectsSlot(a, b, slot, halfWidth, halfHeight, margin)
        ensures MeetsBox(a, b, Expanded(slot, halfWidth, halfHeight, margin))
      {
        HitTouches(a, b, slot, halfWidth, halfHeight, margin);
      }
    } else {
      var a, b := GhostHit(slot, halfWidth, halfHeight, margin);
    }
  }

  lemma HitTouches(a: Point, b: Point, slot: Point, halfWidth: real, halfHeight: real, margin: real)
    requires halfWidth + margin >= 0.0 && halfHeight + margin >= 0.0
    requires SegmentIntersectsSlot(a, b, slot, halfWidth, halfHeight, margin)
    ensures MeetsBox(a, b, Expanded(slot, halfWidth, halfHeight, margin))
  {
    var box := Expanded(slot, halfWidth, halfHeight, margin);
    HitExactly(a, b, slot, halfWidth, halfHeight, margin);
    if InBounds(box, a) {
      assert OnLeg(a, b, 0.0, a);
    } else if InBounds(box, b) {
      assert OnLeg(a, b, 1.0, b);
    } else {
      var t, p :| OnLeg(a, b, t, p) && InCore(box, p);
      assert OnLeg(a, b, t, p) && InBounds(box, p);
    }
  }

  /** A leg across the middle of a side, reported although no point is in the box. */
  lemma GhostHit(slot: Point, halfWidth: real, halfHeight: real, margin: real) returns (a: Point, b: Point)
    requires halfWidth + margin < 0.0 || halfHeight + margin < 0.0
    ensures SegmentIntersectsSlot(a, b, slot, halfWidth, halfHeight, margin)
    ensures !MeetsBox(a, b, Expanded(slot, halfWidth, halfHeight, margin))
  {
    var box := Expanded(slot, halfWidth, halfHeight, margin);
    var w, h := halfWidth + margin, halfHeight + margin;
    if h != 0.0 {
      a, b := Point(box.maxX - 1.0, slot.y), Point(box.maxX + 1.0, slot.y);
      assert Cross(a, b, Corner(box, 1)) == -2.0 * h && Cross(a, b, Corner(box, 2)) == 2.0 * h;
      assert Cross(Corner(box, 1), Corner(box, 2), a) == 2.0 * h;
      assert Cross(Corner(box, 1), Corner(box, 2), b) == -2.0 * h;
      assert CrossesEdge(a, b, box, 1);
    } else {
      a, b := Point(slot.x, box.minY - 1.0), Point(slot.x, box.minY + 1.0);
      assert Cross(a, b, Corner(box, 0)) == 2.0 * w && Cross(a, b, Corner(box, 1)) == -2.0 * w;
      assert Cross(Corner(box, 0), Corner(box, 1), a) == -2.0 * w;
      assert Cross(Corner(box, 0), Corner(box, 1), b) == 2.0 * w;
      assert CrossesEdge(a, b, box, 0);
    }
  }

  /** Complete for the legs the planners drive: none that runs north-south or east-west through the box is missed. */
  lemma AxisParallelNeverMissed(a: Point, b: Point, slot: Point, halfWidth: real, halfHeight: real, margin: real)
    requires a.x == b.x || a.y == b.y
    requires MeetsInside(a, b, Expanded(slot, halfWidth, halfHeight, margin))
    ensures SegmentIntersectsSlot(a, b, slot, halfWidth, halfHeight, margin)
  {
    var box := Expanded(slot, halfWidth, halfHeight, margin);
    var t, p :| OnLeg(a, b, t, p) && Inside(box, p);
    if AlongDiagonal(a, b, box) {
      assert a == b by {
        AxisParallelDiagonal(a, b, box);
      }
    } else if !InBounds(box, a) && !InBounds(box, b) {
      RoomyHit(a, b, box);
    }
  }

  lemma AxisParallelDiagonal(a: Point, b: Point, box: Box)
    requires Roomy(box) && AlongDiagonal(a, b, box) && (a.x == b.x || a.y == b.y)
    ensures a == b
  {
    if a.x == b.x {
      SignedProduct(b.y - a.y, a.x - box.minX);
    }
  }

  /** No further from the slot's centre than half its extents and the margin, east-west and north-south. */
  predicate Near(p: Point, slot: Point, halfWidth: real, halfHeight: real, margin: real) {
    Abs(p.x - slot.x) <= halfWidth + margin && Abs(p.y - slot.y) <= halfHeight + margin
  }

  predicate WellWithin(p: Point, slot: Point, halfWidth: real, halfHeight: real, margin: real) {
    Abs(p.x - slot.x) < halfWidth + margin && Abs(p.y - slot.y) < halfHeight + margin
  }

  lemma {:induction false} BoxIsAroundSlot(p: Point, slot: Point, halfWidth: real, halfHeight: real, margin: real)
    ensures InBounds(Expanded(slot, halfWidth, halfHeight, margin), p)
      <==> Near(p, slot, halfWidth, halfHeight, margin)
    ensures Inside(Expanded(slot, halfWidth, halfHeight, margin), p)
      <==> WellWithin(p, slot, halfWidth, halfHeight, margin)
  {
  }

  /**
   In terms of the slot: a reported leg comes near it, and of the axis-parallel legs every one
   that comes well within is reported, so a report can only be about the border in between.
  */
  lemma {:induction false} HitIsNearSlot(
    a: Point, b: Point, slot: Point, halfWidth: real, halfHeight: real, margin: real)
    requires halfWidth + margin >= 0.0 && halfHeight + margin >= 0.0
    ensures SegmentIntersectsSlot(a, b, slot, halfWidth, halfHeight, margin) ==>
      exists t, p :: OnLeg(a, b, t, p) && Near(p, slot, halfWidth, halfHeight, margin)
    ensures (a.x == b.x || a.y == b.y)
      && (exists t, p :: OnLeg(a, b, t, p) && WellWithin(p, slot, halfWidth, halfHeight, margin))
      ==> SegmentIntersectsSlot(a, b, slot, halfWidth, halfHeight, margin)
  {
    var box := Expanded(slot, halfWidth, halfHeight, margin);
    if SegmentIntersectsSlot(a, b, slot, halfWidth, halfHeight, margin) {
      HitTouches(a, b, slot, halfWidth, halfHeight, margin);
      var t, p :| OnLeg(a, b, t, p) && InBounds(box, p);
      BoxIsAroundSlot(p, slot, halfWidth, halfHeight, margin);
    }
    if (a.x == b.x || a.y == b.y)
       && exists t, p :: OnLeg(a, b, t, p) && WellWithin(p, slot, halfWidth, halfHeight, margin) {
      var t, p :| OnLeg(a, b, t, p) && WellWithin(p, slot, halfWidth, halfHeight, margin);
      BoxIsAroundSlot(p, slot, halfWidth, halfHeight, margin);
      assert MeetsInside(a, b, box);
      AxisParallelNeverMissed(a, b, slot, halfWidth, halfHeight, margin);
    }
  }

  /** Both ends beyond one side of a slot's box: so is every point of the leg. */
  predicate Beyond(a: Point, b: Point, box: Box) {
    || (a.x < box.minX && b.x < box.minX) || (a.x > box.maxX && b.x > box.maxX)
    || (a.y < box.minY && b.y < box.minY) || (a.y > box.maxY && b.y > box.maxY)
  }

  lemma {:induction false} BeyondIsClear(
    a: Point, b: Point, slot: Point, halfWidth: real, halfHeight: real, margin: real)
    requires halfWidth + margin >= 0.0 && halfHeight + margin >= 0.0
    requires Beyond(a, b, Expanded(slot, halfWidth, halfHeight, margin))
    ensures !SegmentIntersectsSlot(a, b, slot, halfWidth, halfHeight, margin)
    ensures forall t, p :: OnLeg(a, b, t, p) ==> !Near(p, slot, halfWidth, halfHeight, margin)
  {
    var box := Expanded(slot, halfWidth, halfHeight, margin);
    forall t, p | OnLeg(a, b, t, p)
      ensures !Near(p, slot, halfWidth, halfHeight, margin)
    {
      InBetween(a.x, b.x - a.x, 0.0, t, 1.0);
      InBetween(a.y, b.y - a.y, 0.0, t, 1.0);
      BoxIsAroundSlot(p, slot, halfWidth, halfHeight, margin);
    }
    HitIsNearSlot(a, b, slot, halfWidth, halfHeight, margin);
  }
}
