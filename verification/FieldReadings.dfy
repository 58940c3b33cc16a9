/**
 How old, and from which boot, the readings behind field-verified stop evidence can be, when
 the worker's passes come at least a second apart.
*/
module FieldReadings {
  import opened Wrappers
  import opened StopTelemetry
  import opened StopOperations
  import opened StopHistory
  import opened LatestCache
  import opened FieldEvidence
  import opened MotionReadings
  import StopRuns

  // --- passes and their events -------------------------------------------------------------

  /** The events of the passes row k went through. */
  function PassEvents(events: seq<Event>, k: nat): seq<nat>
    requires k < |SysAfter(events).rows|
  {
    var n := |events| - 1;
    if k < |SysAfter(events[..n]).rows| then
      PassEvents(events[..n], k) + (if events[n].Reconciled? then [n] else [])
    else []
  }

  lemma {:induction false} PassesAreAt(events: seq<Event>, k: nat)
    requires k < |SysAfter(events).rows|
    ensures |PassEvents(events, k)| == |PassesOf(events, k)|
    ensures forall j :: 0 <= j < |PassEvents(events, k)| ==>
      (var p := PassEvents(events, k)[j];
       Birth(events, k) < p < |events| && events[p].Reconciled? && PassesOf(events, k)[j] == PassAt(events, k, p))
  {
    var n := |events| - 1;
    if k < |SysAfter(events[..n]).rows| {
      PassesAreAt(events[..n], k);
      OlderRow(events, k);
      forall p | 0 <= p < n && events[p].Reconciled?
        ensures PassAt(events[..n], k, p) == PassAt(events, k, p)
      {
        assert events[..n][..p] == events[..p];
      }
    }
  }

  /** The first pass is not before the given time, and each is at least a second after the one before. */
  ghost predicate Paced(passes: seq<StopRuns.Pass>, from: int) {
    && (passes != [] ==> passes[0].now >= from)
    && forall j :: 0 <= j < |passes| - 1 ==> passes[j + 1].now >= passes[j].now + SECOND
  }

  lemma {:induction false} PacedTime(passes: seq<StopRuns.Pass>, from: int, j: nat)
    requires Paced(passes, from) && j < |passes|
    ensures passes[j].now >= from + j * SECOND
  {
    if j > 0 {
      PacedTime(passes, from, j - 1);
      assert passes[j - 1 + 1].now >= passes[j - 1].now + SECOND;
    }
  }

  lemma {:induction false} FrameComesNoSooner(e: seq<nat>, j: nat)
    requires Ascending(e) && j < |e|
    ensures e[j] >= j
  {
    if j > 0 {
      FrameComesNoSooner(e, j - 1);
    }
  }

  // --- the stamps --------------------------------------------------------------------------

  predicate StampedSince(p: StopRuns.Pass, t: int) {
    && p.facts.latest.received.Aware? && p.facts.latest.received.at >= t
    && p.facts.latest.source.Aware? && p.facts.latest.source.at >= t
  }

  /** Frame j can come no sooner than j seconds after the first pass, so it is no older than a second less. */
  ghost predicate ReadSince(passes: seq<StopRuns.Pass>, e: seq<nat>, t: int) {
    forall j :: 0 <= j < |e| && e[j] < |passes| ==> StampedSince(passes[e[j]], t + (j - 1) * SECOND)
  }

  /** A counted reading carries two stamps no more than a second older than the pass that read it. */
  lemma FrameIsYoung(limits: Thresholds, passes: seq<StopRuns.Pass>, e: seq<nat>, j: nat)
    requires limits == LIMITS && StopHistory.Frames(StopRuns.Looks(limits, passes), e) && j < |e|
    ensures e[j] < |passes| && StampedSince(passes[e[j]], passes[e[j]].now - SECOND)
    ensures StationaryObservation(passes[e[j]].facts.latest, passes[e[j]].now, LIMITS).stationary
  {
    var p := passes[e[j]];
    assert StopRuns.Looks(limits, passes)[e[j]] == StopRuns.LookOf(limits, p);
    StillnessNeedsEvidence(p.facts.latest, p.now, limits);
  }

  lemma FrameTime(limits: Thresholds, passes: seq<StopRuns.Pass>, e: seq<nat>, t: int, j: nat)
    requires limits == LIMITS && StopHistory.Frames(StopRuns.Looks(limits, passes), e) && Paced(passes, t) && j < |e|
    ensures e[j] < |passes| && passes[e[j]].now >= t + j * SECOND
  {
    FrameIsYoung(limits, passes, e, j);
    FrameComesNoSooner(e, j);
    PacedTime(passes, t, e[j]);
  }

  /**
   The j-th of the five readings behind a qualifying row carries stamps no older than j - 1
   seconds after the passes began: all but the first are stamped after the request, if they
   began after it.
  */
  lemma {:induction false} ReadingsAreRecent(events: seq<Event>, k: nat, t: int)
    requires k < |SysAfter(events).rows| && Qualifies(SysAfter(events).rows[k])
    requires Paced(PassesOf(events, k), t)
    ensures exists e ::
      FiveFrames(StopRuns.Looks(LIMITS, PassesOf(events, k)), e) && ReadSince(PassesOf(events, k), e, t)
  {
    QualifiedStoodStill(events, k);
    RowIsRun(events, k);
    var passes := PassesOf(events, k);
    var e :| FiveFrames(StopRuns.Looks(LIMITS, passes), e);
    forall j | 0 <= j < |e| && e[j] < |passes|
      ensures StampedSince(passes[e[j]], t + (j - 1) * SECOND)
    {
      FrameIsYoung(LIMITS, passes, e, j);
      FrameTime(LIMITS, passes, e, t, j);
    }
  }

  // --- the motion readings -----------------------------------------------------------------

  /** What was cached when pass j of row k looked. */
  function Before(events: seq<Event>, k: nat, j: nat): (before: seq<Event>)
    requires k < |SysAfter(events).rows| && j < |PassesOf(events, k)|
    ensures |before| <= |events| && before == events[..|before|]
  {
    PassesAreAt(events, k);
    events[..PassEvents(events, k)[j]]
  }

  /** The motion reading that pass j of row k judged. */
  function MotionEventAt(events: seq<Event>, k: nat, j: nat): (i: Option<nat>)
    requires k < |SysAfter(events).rows| && j < |PassesOf(events, k)|
    ensures i.Some? ==> i.value < |events| && events[i.value].Heard?
    ensures i.Some? ==> events[i.value].message.LocationMsg? || events[i.value].message.CompatOdom?
  {
    var before := Before(events, k, j);
    assert forall i :: 0 <= i < |before| ==> before[i] == events[i];
    MotionOf(before)
  }

  /** Its source time. */
  function MotionAt(events: seq<Event>, k: nat, j: nat): Option<int>
    requires k < |SysAfter(events).rows| && j < |PassesOf(events, k)|
  {
    var i := MotionEventAt(events, k, j);
    if i.None? then None else Some(events[i.value].message.source)
  }

  /** The frames' motion readings are as young as their stamps. */
  ghost predicate MeasuredSince(events: seq<Event>, k: nat, e: seq<nat>, t: int)
    requires k < |SysAfter(events).rows|
  {
    forall j :: 0 <= j < |e| && e[j] < |PassesOf(events, k)| ==>
      MotionAt(events, k, e[j]).Some? && MotionAt(events, k, e[j]).value >= t + (j - 1) * SECOND
  }

  lemma BeforeUses(events: seq<Event>, k: nat, j: nat, classes: set<Class>)
    requires k < |SysAfter(events).rows| && j < |PassesOf(events, k)| && UsesOnly(events, classes)
    ensures UsesOnly(Before(events, k, j), classes)
    ensures MotionAt(events, k, j) == MotionSource(Before(events, k, j))
  {
    var before := Before(events, k, j);
    assert forall i :: 0 <= i < |before| ==> before[i] == events[i];
  }

  lemma FrameIsStill(events: seq<Event>, k: nat, e: seq<nat>, j: nat)
    requires k < |SysAfter(events).rows|
    requires StopHistory.Frames(StopRuns.Looks(LIMITS, PassesOf(events, k)), e) && j < |e|
    ensures e[j] < |PassesOf(events, k)|
    ensures StillAt(Before(events, k, e[j]), PassesOf(events, k)[e[j]].now)
  {
    PassesAreAt(events, k);
    FrameIsYoung(LIMITS, PassesOf(events, k), e, j);
  }

  lemma FrameIsMeasured(events: seq<Event>, k: nat, e: seq<nat>, t: int, j: nat, classes: set<Class>)
    requires UsesOnly(events, classes) && !Mixed(classes)
    requires k < |SysAfter(events).rows| && Paced(PassesOf(events, k), t)
    requires StopHistory.Frames(StopRuns.Looks(LIMITS, PassesOf(events, k)), e) && j < |e|
    ensures e[j] < |PassesOf(events, k)|
    ensures MotionAt(events, k, e[j]).Some? && MotionAt(events, k, e[j]).value >= t + (j - 1) * SECOND
    ensures HasSpeeds(classes)
  {
    var passes := PassesOf(events, k);
    FrameIsStill(events, k, e, j);
    FrameTime(LIMITS, passes, e, t, j);
    BeforeUses(events, k, e[j], classes);
    StillnessIsDated(Before(events, k, e[j]), classes, passes[e[j]].now);
  }

  /** Where one class alone renews the source stamp, the speeds behind a qualifying row are as young as the stamps. */
  lemma {:induction false} MotionsAreRecent(events: seq<Event>, k: nat, t: int, classes: set<Class>)
    requires UsesOnly(events, classes) && !Mixed(classes)
    requires k < |SysAfter(events).rows| && Qualifies(SysAfter(events).rows[k])
    requires Paced(PassesOf(events, k), t)
    ensures exists e ::
      FiveFrames(StopRuns.Looks(LIMITS, PassesOf(events, k)), e) && MeasuredSince(events, k, e, t)
  {
    QualifiedStoodStill(events, k);
    RowIsRun(events, k);
    var e :| FiveFrames(StopRuns.Looks(LIMITS, PassesOf(events, k)), e);
    forall j | 0 <= j < |e| && e[j] < |PassesOf(events, k)|
      ensures MotionAt(events, k, e[j]).Some? && MotionAt(events, k, e[j]).value >= t + (j - 1) * SECOND
    {
      FrameIsMeasured(events, k, e, t, j, classes);
    }
  }
}
