/**
 What one read of the cached telemetry says about motion. Times are microseconds.
 A cached value may be missing, null, unparsable, or lack a time zone.
*/
module StopTelemetry {
  import opened Wrappers

  datatype Stamp = NoStamp | Malformed | Naive(at: int) | Aware(at: int)

  datatype Field = Missing | Null | Num(value: real)

  datatype Latest = Latest(
    received: Stamp, source: Stamp,
    linearX: Field, linearY: Field, planarSpeed: Field, linear: Field,
    angularZ: Field, angular: Field)

  datatype Thresholds = Thresholds(freshnessMs: int, linear: real, angular: real)

  function Abs(v: real): real { if v < 0.0 then -v else v }

  predicate Within(s: Stamp, now: int, freshnessMs: int) {
    s.Aware? && now - s.at <= freshnessMs * 1000
  }

  predicate Fresh(latest: Latest, now: int, t: Thresholds) {
    Within(latest.received, now, t.freshnessMs) && Within(latest.source, now, t.freshnessMs)
  }

  /** Planar speed below the limit; the two velocity components count only without a planar speed. */
  predicate SlowPlanar(latest: Latest, limit: real) {
    if latest.planarSpeed.Num? then Abs(latest.planarSpeed.value) < limit
    else if latest.linearX.Num? then
      var x := latest.linearX.value;
      var y := if latest.linearY.Num? then latest.linearY.value else 0.0;
      0.0 < limit && x * x + y * y < limit * limit
    else latest.linear.Num? && Abs(latest.linear.value) < limit
  }

  /** angular_z, when the key is there at all, shadows angular even if it is null. */
  predicate SlowAngular(latest: Latest, limit: real) {
    var rate := if latest.angularZ.Missing? then latest.angular else latest.angularZ;
    rate.Num? && Abs(rate.value) < limit
  }

  datatype Observation = Observation(recent: bool, stationary: bool)

  function StationaryObservation(latest: Latest, now: int, t: Thresholds): (o: Observation)
    ensures o.stationary ==> o.recent
  {
    var recent := Fresh(latest, now, t);
    Observation(recent, recent && SlowPlanar(latest, t.linear) && SlowAngular(latest, t.angular))
  }

  predicate LinearKnown(latest: Latest) { latest.planarSpeed.Num? || latest.linearX.Num? || latest.linear.Num? }

  predicate AngularKnown(latest: Latest) {
    latest.angularZ.Num? || (latest.angularZ.Missing? && latest.angular.Num?)
  }

  /** Silence is not stillness: stale or undated telemetry, or an unknown speed, never counts as stationary. */
  lemma StillnessNeedsEvidence(latest: Latest, now: int, t: Thresholds)
    requires StationaryObservation(latest, now, t).stationary
    ensures latest.received.Aware? && now - latest.received.at <= t.freshnessMs * 1000
    ensures latest.source.Aware? && now - latest.source.at <= t.freshnessMs * 1000
    ensures LinearKnown(latest) && AngularKnown(latest)
  {
  }

  /** Whichever fields the vehicle reports, a stationary reading bounds each of them that was used. */
  lemma StillnessIsSlow(latest: Latest, now: int, t: Thresholds)
    requires StationaryObservation(latest, now, t).stationary
    ensures latest.planarSpeed.Num? ==> Abs(latest.planarSpeed.value) < t.linear
    ensures !latest.planarSpeed.Num? && latest.linearX.Num? ==> Abs(latest.linearX.value) < t.linear
    ensures !latest.planarSpeed.Num? && latest.linearX.Num? && latest.linearY.Num? ==>
      Abs(latest.linearY.value) < t.linear
    ensures !latest.planarSpeed.Num? && !latest.linearX.Num? ==>
      latest.linear.Num? && Abs(latest.linear.value) < t.linear
    ensures latest.angularZ.Num? ==> Abs(latest.angularZ.value) < t.angular
    ensures latest.angularZ.Missing? ==> latest.angular.Num? && Abs(latest.angular.value) < t.angular
  {
    if !latest.planarSpeed.Num? && latest.linearX.Num? {
      var x, y := latest.linearX.value, if latest.linearY.Num? then latest.linearY.value else 0.0;
      LegOfTriangle(x, y, t.linear);
      LegOfTriangle(y, x, t.linear);
    }
  }

  /** The speed the vehicle reports: the planar speed, else the length of the velocity, else the linear speed. */
  ghost predicate IsSpeed(latest: Latest, v: real) {
    if latest.planarSpeed.Num? then v == latest.planarSpeed.value
    else if latest.linearX.Num? then
      var y := if latest.linearY.Num? then latest.linearY.value else 0.0;
      v >= 0.0 && v * v == latest.linearX.value * latest.linearX.value + y * y
    else latest.linear == Num(v)
  }

  /** And its turn rate: angular_z if the key is there, else angular. */
  predicate IsTurnRate(latest: Latest, v: real) {
    latest.angularZ == Num(v) || (latest.angularZ == Missing && latest.angular == Num(v))
  }

  /** Dated with a time zone, and no older than a number of milliseconds. */
  predicate DatedWithin(s: Stamp, now: int, ms: int) { s.Aware? && now - s.at <= 1000 * ms }

  /**
   Exactly when a reading is fresh, and exactly when it shows a vehicle that stands still:
   speed and turn rate are reported and both are below their limits.
  */
  lemma StillnessExactly(latest: Latest, now: int, t: Thresholds, speed: real, rate: real)
    ensures var o := StationaryObservation(latest, now, t);
      && (o.recent <==>
           DatedWithin(latest.received, now, t.freshnessMs) && DatedWithin(latest.source, now, t.freshnessMs))
      && (o.stationary ==> LinearKnown(latest) && AngularKnown(latest))
      && (IsSpeed(latest, speed) && IsTurnRate(latest, rate) ==>
           (o.stationary <==> o.recent && -t.linear < speed < t.linear && -t.angular < rate < t.angular))
  {
    if IsSpeed(latest, speed) && !latest.planarSpeed.Num? && latest.linearX.Num? && t.linear > 0.0 {
      SquaresCompare(speed, t.linear);
    }
  }

  lemma SquaresCompare(u: real, v: real)
    requires u >= 0.0 && v > 0.0
    ensures u < v <==> u * u < v * v
  {
    if u < v {
      Positive(v - u, v + u);
      assert v * v - u * u == (v - u) * (v + u);
    } else {
      Larger(v, u);
    }
  }

  lemma Positive(u: real, v: real)
    requires u > 0.0 && v > 0.0
    ensures u * v > 0.0
  {
  }

  lemma LegOfTriangle(x: real, y: real, limit: real)
    requires limit > 0.0 && x * x + y * y < limit * limit
    ensures Abs(x) < limit
  {
    Square(x);
    Square(y);
    if Abs(x) >= limit {
      Larger(limit, Abs(x));
    }
  }

  lemma Square(v: real)
    ensures v * v >= 0.0 && v * v == Abs(v) * Abs(v)
  {
  }

  lemma Larger(u: real, v: real)
    requires 0.0 <= u <= v
    ensures u * u <= v * v
  {
    assert v * v - u * u == (v - u) * (v + u);
  }

  function StampTime(s: Stamp): Option<int> {
    if s.Naive? || s.Aware? then Some(s.at) else None
  }

  /** Server receive time, else source time, else nothing; naive stamps are read as UTC. */
  function ObservationToken(latest: Latest): Option<int> {
    if StampTime(latest.received).Some? then StampTime(latest.received) else StampTime(latest.source)
  }

  datatype Frames = Frames(count: int, last: Option<int>)

  predicate Newer(token: Option<int>, last: Option<int>) {
    token.Some? && (last.None? || token.value > last.value)
  }

  function AdvanceStationaryFrames(o: Observation, token: Option<int>, f: Frames): Frames {
    if !o.recent then Frames(0, f.last)
    else if !Newer(token, f.last) then f
    else Frames(if o.stationary then f.count + 1 else 0, token)
  }

  predicate Stamped(s: Stamp, at: int) { s == Naive(at) || s == Aware(at) }

  /** An observation is told by its receive time, and by its source time only where it has no other. */
  lemma TokenExactly(latest: Latest, at: int)
    ensures ObservationToken(latest) == Some(at) <==>
      Stamped(latest.received, at) || (latest.received in {NoStamp, Malformed} && Stamped(latest.source, at))
  {
  }
}
