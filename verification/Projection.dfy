/** _project_onto_segments: the nearest point of a list of segments. Distances are compared squared. */
module Projection {
  import opened Corridor

  datatype Segment = Segment(a: Point, b: Point)

  function Dist2(p: Point, q: Point): real {
    (p.x - q.x) * (p.x - q.x) + (p.y - q.y) * (p.y - q.y)
  }

  function Length2(s: Segment): real { Dist2(s.b, s.a) }

  function Clamp(t: real): real { if t < 0.0 then 0.0 else if t > 1.0 then 1.0 else t }

  /** The point a fraction t of the way along the segment. */
  function Along(s: Segment, t: real): Point {
    Point(s.a.x + t * (s.b.x - s.a.x), s.a.y + t * (s.b.y - s.a.y))
  }

  function Dot(c: Point, s: Segment): real {
    (c.x - s.a.x) * (s.b.x - s.a.x) + (c.y - s.a.y) * (s.b.y - s.a.y)
  }

  /** The projection of c on one segment; a segment under 1e-9 m2 counts as its first point. */
  function Foot(c: Point, s: Segment): Point {
    if Length2(s) < 0.000000001 then s.a else Along(s, Clamp(Dot(c, s) / Length2(s)))
  }

  /** Length zero, or long enough for the projection to be computed. */
  predicate Resolved(s: Segment) { s.a == s.b || Length2(s) >= 0.000000001 }

  /** c lies behind the segment's first point. */
  predicate Behind(c: Point, s: Segment) { Dot(c, s) <= 0.0 }

  ghost predicate IsNearest(c: Point, s: Segment, p: Point) {
    forall t :: 0.0 <= t <= 1.0 ==> Dist2(c, p) <= Dist2(c, Along(s, t))
  }

  lemma SquareExpands(e: real, d: real, t: real)
    ensures (e - t * d) * (e - t * d) == e * e - 2.0 * t * (e * d) + t * t * (d * d)
  {
    assert (e - t * d) * (e - t * d) == (e - t * d) * e - (e - t * d) * (t * d);
    assert (t * d) * (t * d) == t * t * (d * d);
    assert (t * d) * e == t * (e * d);
  }

  lemma CompletedSquare(l: real, t: real, r: real, dot: real)
    requires r * l == dot
    ensures l * ((t - r) * (t - r) - r * r) == t * t * l - 2.0 * t * dot
  {
    assert (t - r) * (t - r) - r * r == t * t - 2.0 * t * r;
    assert 2.0 * t * (r * l) == l * (2.0 * t * r);
  }

  lemma ExpandDistance(c: Point, s: Segment, t: real, r: real)
    requires r * Length2(s) == Dot(c, s)
    ensures Dist2(c, Along(s, t)) == Quadratic(Dist2(c, s.a), Length2(s), t, r)
  {
    var ex, ey, dx, dy := c.x - s.a.x, c.y - s.a.y, s.b.x - s.a.x, s.b.y - s.a.y;
    SquareExpands(ex, dx, t);
    SquareExpands(ey, dy, t);
    CompletedSquare(Length2(s), t, r, Dot(c, s));
    assert Dist2(c, Along(s, t)) == (ex - t * dx) * (ex - t * dx) + (ey - t * dy) * (ey - t * dy);
    assert t * t * Length2(s) == t * t * (dx * dx) + t * t * (dy * dy);
    assert 2.0 * t * Dot(c, s) == 2.0 * t * (ex * dx) + 2.0 * t * (ey * dy);
  }

  lemma ProductNonNegative(u: real, v: real)
    requires (u >= 0.0 && v >= 0.0) || (u <= 0.0 && v <= 0.0)
    ensures u * v >= 0.0
  {
  }

  /** Clamping to [0, 1] gives the closest point of [0, 1]. */
  lemma ClampIsClosest(t: real, r: real)
    requires 0.0 <= t <= 1.0
    ensures (Clamp(r) - r) * (Clamp(r) - r) <= (t - r) * (t - r)
  {
    if r < 0.0 {
      ProductNonNegative(t, t - 2.0 * r);
      assert (t - r) * (t - r) - (0.0 - r) * (0.0 - r) == t * (t - 2.0 * r);
    } else if r > 1.0 {
      ProductNonNegative(1.0 - t, 2.0 * r - 1.0 - t);
      assert (t - r) * (t - r) - (1.0 - r) * (1.0 - r) == (1.0 - t) * (2.0 * r - 1.0 - t);
    } else {
      ProductNonNegative(t - r, t - r);
      assert Clamp(r) - r == 0.0;
    }
  }

  /** Squared distance as a quadratic in t with its minimum at r. */
  function Quadratic(base: real, l: real, t: real, r: real): real {
    base + l * ((t - r) * (t - r) - r * r)
  }

  lemma QuadraticLeast(base: real, l: real, t: real, r: real)
    requires l >= 0.0 && 0.0 <= t <= 1.0
    ensures Quadratic(base, l, Clamp(r), r) <= Quadratic(base, l, t, r)
  {
    ClampIsClosest(t, r);
    var u, v := (Clamp(r) - r) * (Clamp(r) - r), (t - r) * (t - r);
    ProductNonNegative(l, v - u);
  }

  /** The projection is nearest on its segment, unless that is too short to be resolved and c is not behind it. */
  lemma FootIsNearestExactly(c: Point, s: Segment)
    ensures IsNearest(c, s, Foot(c, s)) <==> Resolved(s) || Behind(c, s)
  {
    if s.a != s.b {
      LengthPositive(s);
      var r := Dot(c, s) / Length2(s);
      assert r * Length2(s) == Dot(c, s);
      forall t | 0.0 <= t <= 1.0
        ensures Dist2(c, Along(s, Clamp(r))) <= Dist2(c, Along(s, t))
      {
        ClampedIsNearest(c, s, t, r);
      }
      if Behind(c, s) {
        BehindClampsToStart(c, s, r);
      } else {
        AheadIsNearer(c, s, r);
      }
    } else {
      forall t
        ensures Along(s, t) == s.a
      {
      }
    }
  }

  function Times(u: real, v: real): real { u * v }

  lemma TimesPositive(u: real, v: real)
    ensures (u > 0.0 && v > 0.0) || (u < 0.0 && v < 0.0) ==> Times(u, v) > 0.0
    ensures u == 0.0 || v == 0.0 ==> Times(u, v) == 0.0
  {
  }

  lemma LengthPositive(s: Segment)
    requires s.a != s.b
    ensures Length2(s) > 0.0
  {
    var dx, dy := s.b.x - s.a.x, s.b.y - s.a.y;
    TimesPositive(dx, dx);
    TimesPositive(dy, dy);
    assert Length2(s) == Times(dx, dx) + Times(dy, dy);
  }

  lemma BehindClampsToStart(c: Point, s: Segment, r: real)
    requires Length2(s) > 0.0 && r * Length2(s) == Dot(c, s) <= 0.0
    ensures Along(s, Clamp(r)) == s.a
  {
    if r > 0.0 {
      StrictProduct(r, Length2(s));
    }
  }

  lemma ClampGains(u: real, r: real) returns (gain: real)
    requires 0.0 < u <= r
    ensures gain == r * r - (u - r) * (u - r) && gain > 0.0
  {
    var v := 2.0 * r - u;
    gain := u * v;
    StrictProduct(u, v);
  }

  lemma QuadraticDips(base: real, l: real, r: real)
    requires l > 0.0 && r > 0.0
    ensures Quadratic(base, l, Clamp(r), r) < base
  {
    var u := Clamp(r);
    var gain := ClampGains(u, r);
    StrictProduct(l, gain);
    assert l * ((u - r) * (u - r) - r * r) == l * -gain == -(l * gain);
  }

  /** Ahead of the first point, some other point of the segment is strictly nearer. */
  lemma AheadIsNearer(c: Point, s: Segment, r: real)
    requires Length2(s) > 0.0 && r * Length2(s) == Dot(c, s) > 0.0
    ensures Dist2(c, Along(s, Clamp(r))) < Dist2(c, s.a)
  {
    ExpandDistance(c, s, Clamp(r), r);
    if r <= 0.0 {
      ProductNonNegative(-r, Length2(s));
    }
    QuadraticDips(Dist2(c, s.a), Length2(s), r);
  }

  lemma StrictProduct(u: real, v: real)
    requires u > 0.0 && v > 0.0
    ensures u * v > 0.0
  {
  }

  lemma ClampedIsNearest(c: Point, s: Segment, t: real, r: real)
    requires 0.0 <= t <= 1.0 && r * Length2(s) == Dot(c, s)
    requires Length2(s) >= 0.0
    ensures Dist2(c, Along(s, Clamp(r))) <= Dist2(c, Along(s, t))
  {
    ExpandDistance(c, s, t, r);
    ExpandDistance(c, s, Clamp(r), r);
    QuadraticLeast(Dist2(c, s.a), Length2(s), t, r);
  }

  lemma FootIsOnSegment(c: Point, s: Segment) returns (t: real)
    ensures 0.0 <= t <= 1.0 && Foot(c, s) == Along(s, t)
  {
    t := if Length2(s) < 0.000000001 then 0.0 else Clamp(Dot(c, s) / Length2(s));
  }

  /** p is a point of some segment, and no point of any segment is nearer to c. */
  ghost predicate NearestPoint(c: Point, segments: seq<Segment>, p: Point) {
    && (exists i, t :: 0 <= i < |segments| && 0.0 <= t <= 1.0 && p == Along(segments[i], t))
    && (forall i, t :: 0 <= i < |segments| && 0.0 <= t <= 1.0 ==> Dist2(c, p) <= Dist2(c, Along(segments[i], t)))
  }

  method ProjectOntoSegments(c: Point, segments: seq<Segment>) returns (d2: real, proj: Point, index: nat)
    requires |segments| > 0
    ensures index < |segments| && proj == Foot(c, segments[index]) && d2 == Dist2(c, proj)
    ensures forall i :: 0 <= i < index ==> d2 < Dist2(c, Foot(c, segments[i]))
    ensures forall i :: 0 <= i < |segments| ==> d2 <= Dist2(c, Foot(c, segments[i]))
    ensures (forall s :: s in segments ==> Resolved(s) || Behind(c, s)) ==> NearestPoint(c, segments, proj)
  {
    index, proj := 0, Foot(c, segments[0]);
    d2 := Dist2(c, proj);
    for i := 1 to |segments|
      invariant index < i && proj == Foot(c, segments[index]) && d2 == Dist2(c, proj)
      invariant forall j :: 0 <= j < index ==> d2 < Dist2(c, Foot(c, segments[j]))
      invariant forall j :: 0 <= j < i ==> d2 <= Dist2(c, Foot(c, segments[j]))
    {
      var candidate := Foot(c, segments[i]);
      var d := Dist2(c, candidate);
      if d < d2 {
        d2, proj, index := d, candidate, i;
      }
    }
    if forall s :: s in segments ==> Resolved(s) || Behind(c, s) {
      var t := FootIsOnSegment(c, segments[index]);
      forall i, t | 0 <= i < |segments| && 0.0 <= t <= 1.0
        ensures Dist2(c, proj) <= Dist2(c, Along(segments[i], t))
      {
        assert segments[i] in segments;
        FootIsNearestExactly(c, segments[i]);
      }
    }
  }
}
