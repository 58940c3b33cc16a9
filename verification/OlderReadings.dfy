/**
 Exactly how old the readings behind field-verified stop evidence can be, and when they can
 come from a boot that is over.
*/
module OlderReadings {
  import opened Wrappers
  import opened BootSessions
  import opened StopTelemetry
  import opened StopOperations
  import opened StopHistory
  import opened LatestCache
  import opened FieldEvidence
  import opened MotionReadings
  import opened FieldReadings
  import StopRuns

  /** How many frames a stop needs. */
  const ENOUGH: nat := 5

  // --- what is to be shown -----------------------------------------------------------------

  /** The first row is field-verified, by passes that began after its request. */
  ghost predicate Verified(events: seq<Event>, classes: set<Class>) {
    && NamedEvents(events) && UsesOnly(events, classes) && SysAfter(events).rows != []
    && Qualifies(SysAfter(events).rows[0]) && CurrentEvidence(SysAfter(events).rows[0], SysAfter(events).vehicle)
    && Paced(PassesOf(events, 0), RequestTime(events, 0))
  }

  ghost predicate FiveAt(events: seq<Event>, e: seq<nat>)
    requires SysAfter(events).rows != []
  {
    FiveFrames(StopRuns.Looks(LIMITS, PassesOf(events, 0)), e)
  }

  /** The first of its five frames rests on a motion reading stamped d before the request. */
  ghost predicate BeginsOlder(events: seq<Event>, e: seq<nat>, d: int)
    requires SysAfter(events).rows != []
  {
    FiveAt(events, e) && MotionAt(events, 0, e[0]) == Some(RequestTime(events, 0) - d)
  }

  ghost predicate OneMotion(events: seq<Event>, e: seq<nat>)
    requires SysAfter(events).rows != [] && FiveAt(events, e)
  {
    forall j :: 0 <= j < 5 ==> MotionEventAt(events, 0, e[j]) == MotionEventAt(events, 0, e[0])
  }

  /** The motion reading of the first frame is a location of a boot that is over by now. */
  ghost predicate FromOldBoot(events: seq<Event>, e: seq<nat>)
    requires SysAfter(events).rows != [] && FiveAt(events, e)
  {
    var i := MotionEventAt(events, 0, e[0]);
    && i.Some? && events[i.value].message.LocationMsg?
    && HasEnded(SysAfter(events).vehicle, events[i.value].message.boot)
  }

  ghost predicate VerifiedOnOlder(events: seq<Event>, classes: set<Class>, d: int) {
    Verified(events, classes) && exists e :: BeginsOlder(events, e, d)
  }

  /** All frames rest on that one reading. */
  ghost predicate VerifiedOnOne(events: seq<Event>, classes: set<Class>, d: int) {
    Verified(events, classes) && exists e :: BeginsOlder(events, e, d) && OneMotion(events, e)
  }

  ghost predicate VerifiedOnOldBoot(events: seq<Event>, classes: set<Class>, d: int) {
    Verified(events, classes) && exists e :: BeginsOlder(events, e, d) && FromOldBoot(events, e)
  }

  // --- a vehicle that stands still ---------------------------------------------------------

  /** How old the stamps are when a pass reads them. */
  function Lag(classes: set<Class>, d: int): int { if Mixed(classes) then 0 else d }

  /** What arrives just before pass j: in a mixed history only new stamps, otherwise, after the first, a new reading. */
  function Tick(classes: set<Class>, d: int, j: nat): Event {
    Heard(if Mixed(classes) then Renewer(classes, "boot", j * SECOND)
          else if j == 0 then OtherMsg(Heartbeat, "boot", 0)
          else Mover(classes, "boot", j * SECOND - d), true, false)
  }

  const CALM := Commands(Some(CommandRow(ACCEPTED, OTHER_LIFECYCLE)), None, false)

  function CalmPass(j: nat): Event { Reconciled(j * SECOND, (_: nat) => CALM) }

  /** A boot and its reading; then the vehicle's own link, another boot, and a stop requested at time 0. */
  function Start(classes: set<Class>, d: int): (events: seq<Event>)
    ensures |events| == 5
  {
    [Heard(OtherMsg(Heartbeat, "old", 0), true, false)] + [Heard(Mover(classes, "old", -d), true, false)]
    + [SourceKindSet(false)] + [Heard(OtherMsg(Heartbeat, "boot", 0), true, false)] + [StopRequested(NoTask, 0, 0, 0)]
  }

  function CalmRun(classes: set<Class>, d: int, n: nat): (events: seq<Event>)
    ensures |events| == 5 + 2 * n
    decreases n, 0
  {
    if n == 0 then Start(classes, d) else Ticked(classes, d, n - 1) + [CalmPass(n - 1)]
  }

  function Ticked(classes: set<Class>, d: int, n: nat): (events: seq<Event>)
    ensures |events| == 6 + 2 * n
    decreases n, 1
  {
    CalmRun(classes, d, n) + [Tick(classes, d, n)]
  }

  /** The row after n of the passes. */
  ghost predicate CalmRow(op: Op, lag: int, n: nat) {
    && op.limits == LIMITS && op.bootSnapshot == Some("boot") && op.cancel == NOT_REQUIRED
    && op.stopAckDeadline == 5 * SECOND && op.verifyDeadline == 15 * SECOND
    && op.frames == StopTelemetry.Frames(n, if n == 0 then None else Some((n - 1) * SECOND - lag))
    && (if n < 5 then !Terminal(op.state) && op.motion != StationaryConfirmed else op.motion == StationaryConfirmed)
  }

  lemma CalmStep(op: Op, lag: int, n: nat, latest: Latest)
    requires n < 5 && CalmRow(op, lag, n)
    requires StationaryObservation(latest, n * SECOND, LIMITS).stationary
    requires ObservationToken(latest) == Some(n * SECOND - lag)
    ensures CalmRow(Step(op, n * SECOND, FactsOf(CALM, latest)), lag, n + 1)
  {
  }

  predicate OnBoot(v: Vehicle) { v.bootId == Some("boot") && HasEnded(v, "old") }

  ghost predicate CalmSys(s: Sys, classes: set<Class>, d: int, n: nat) {
    && OnBoot(s.vehicle) && |s.rows| == 1 && CalmRow(s.rows[0], Lag(classes, d), n)
    && Resting(s.cache.latest, classes)
    && (n == 0 ==> StampedAt(s.cache.latest, -d))
  }

  /** After a tick: the reading the next pass takes is still, and has a new token. */
  ghost predicate ReadySys(s: Sys, classes: set<Class>, d: int, n: nat) {
    && OnBoot(s.vehicle) && |s.rows| == 1 && CalmRow(s.rows[0], Lag(classes, d), n)
    && Resting(s.cache.latest, classes) && StampedAt(s.cache.latest, n * SECOND - Lag(classes, d))
  }

  lemma StartIsCalm(classes: set<Class>, d: int)
    requires HasSpeeds(classes)
    ensures CalmSys(SysAfter(Start(classes, d)), classes, d, 0)
    ensures |SysAfter(Start(classes, d)[..4]).rows| == 0
    ensures MotionOf(Start(classes, d)) == Some(1)
  {
    var events := Start(classes, d);
    var first, second := [events[0]], [events[0]] + [events[1]];
    NextState([], events[0]);
    assert [] + [events[0]] == first;
    NextState(first, events[1]);
    NextMotion(first, events[1]);
    MoverRests(SysAfter(first).cache, classes, "old", -d);
    RequestIsCalm(second, classes, d);
    assert events[..4] == second + [events[2]] + [events[3]];
  }

  lemma RequestIsCalm(second: seq<Event>, classes: set<Class>, d: int)
    requires HasSpeeds(classes) && |second| == 2 && SysAfter(second).rows == []
    requires var v := SysAfter(second).vehicle;
      v.bootId == Some("old") && v.sessions.Keys == {"old"} && v.sessions["old"].ended.None?
    requires Resting(SysAfter(second).cache.latest, classes) && StampedAt(SysAfter(second).cache.latest, -d)
    ensures var third := second + [SourceKindSet(false)] + [Heard(OtherMsg(Heartbeat, "boot", 0), true, false)];
      && SysAfter(third).rows == [] && CalmSys(SysAfter(third + [StopRequested(NoTask, 0, 0, 0)]), classes, d, 0)
      && MotionOf(third + [StopRequested(NoTask, 0, 0, 0)]) == MotionOf(second)
  {
    var own, boot := SourceKindSet(false), Heard(OtherMsg(Heartbeat, "boot", 0), true, false);
    NextState(second, own);
    NextMotion(second, own);
    NextState(second + [own], boot);
    NextMotion(second + [own], boot);
    NextState(second + [own] + [boot], StopRequested(NoTask, 0, 0, 0));
    NextMotion(second + [own] + [boot], StopRequested(NoTask, 0, 0, 0));
  }

  lemma TickRests(s: Sys, classes: set<Class>, d: int, n: nat)
    requires HasSpeeds(classes) && CalmSys(s, classes, d, n)
    ensures ReadySys(SysStep(s, Tick(classes, d, n)), classes, d, n)
    ensures n == 0 || Mixed(classes) ==> !TakesOver(s, Tick(classes, d, n))
  {
    if Mixed(classes) {
      RenewerRests(s.cache, classes, "boot", n * SECOND);
    } else if n > 0 {
      MoverRests(s.cache, classes, "boot", n * SECOND - d);
    }
  }

  lemma PassRests(s: Sys, classes: set<Class>, d: int, n: nat)
    requires n < 5 && Lag(classes, d) <= SECOND && ReadySys(s, classes, d, n)
    ensures CalmSys(SysStep(s, CalmPass(n)), classes, d, n + 1)
  {
    RestingIsStill(s.cache.latest, classes, n * SECOND);
    CalmStep(s.rows[0], Lag(classes, d), n, s.cache.latest);
  }

  lemma {:induction false} RunIsCalm(classes: set<Class>, d: int, n: nat)
    requires HasSpeeds(classes) && n <= 5 && Lag(classes, d) <= SECOND
    ensures CalmSys(SysAfter(CalmRun(classes, d, n)), classes, d, n)
  {
    if n == 0 {
      StartIsCalm(classes, d);
    } else {
      RunIsCalm(classes, d, n - 1);
      OneRoundIsCalm(CalmRun(classes, d, n - 1), classes, d, n - 1);
    }
  }

  lemma {:induction false} OneRoundIsCalm(events: seq<Event>, classes: set<Class>, d: int, n: nat)
    requires HasSpeeds(classes) && n < 5 && Lag(classes, d) <= SECOND && CalmSys(SysAfter(events), classes, d, n)
    ensures CalmSys(SysAfter(events + [Tick(classes, d, n)] + [CalmPass(n)]), classes, d, n + 1)
  {
    NextState(events, Tick(classes, d, n));
    TickRests(SysAfter(events), classes, d, n);
    NextState(events + [Tick(classes, d, n)], CalmPass(n));
    PassRests(SysAfter(events + [Tick(classes, d, n)]), classes, d, n);
  }

  lemma RoundKeepsMotion(events: seq<Event>, classes: set<Class>, d: int, n: nat)
    requires HasSpeeds(classes) && CalmSys(SysAfter(events), classes, d, n) && (n == 0 || Mixed(classes))
    ensures MotionOf(events + [Tick(classes, d, n)]) == MotionOf(events)
    ensures MotionOf(events + [Tick(classes, d, n)] + [CalmPass(n)]) == MotionOf(events)
  {
    TickRests(SysAfter(events), classes, d, n);
    NextMotion(events, Tick(classes, d, n));
    NextMotion(events + [Tick(classes, d, n)], CalmPass(n));
  }

  lemma {:induction false} RunKeepsMotion(classes: set<Class>, d: int, n: nat)
    requires HasSpeeds(classes) && n <= 5 && Lag(classes, d) <= SECOND && (n == 0 || Mixed(classes))
    ensures MotionOf(CalmRun(classes, d, n)) == Some(1)
  {
    if n == 0 {
      StartIsCalm(classes, d);
    } else {
      RunKeepsMotion(classes, d, n - 1);
      RunIsCalm(classes, d, n - 1);
      RoundKeepsMotion(CalmRun(classes, d, n - 1), classes, d, n - 1);
    }
  }

  /** Before the first pass, and in a mixed history before every one, the motion reading is that of the old boot. */
  lemma OldMotion(classes: set<Class>, d: int, n: nat)
    requires HasSpeeds(classes) && n <= 5 && Lag(classes, d) <= SECOND && (n == 0 || Mixed(classes))
    ensures MotionOf(Ticked(classes, d, n)) == Some(1)
  {
    RunKeepsMotion(classes, d, n);
    RunIsCalm(classes, d, n);
    RoundKeepsMotion(CalmRun(classes, d, n), classes, d, n);
  }

  // --- its passes --------------------------------------------------------------------------

  /** One more event leaves a row's birth alone, and adds a pass if it is one. */
  lemma LaterEvent(events: seq<Event>, e: Event, k: nat)
    requires k < |SysAfter(events).rows|
    ensures k < |SysAfter(events + [e]).rows| && Birth(events + [e], k) == Birth(events, k)
    ensures PassEvents(events + [e], k) == PassEvents(events, k) + if e.Reconciled? then [|events|] else []
    ensures PassesOf(events + [e], k)
      == PassesOf(events, k)
         + if e.Reconciled? then [StopRuns.Pass(e.now, FactsOf(e.commands(k), SysAfter(events).cache.latest))] else []
  {
    assert (events + [e])[..|events + [e]| - 1] == events;
  }

  /** Its passes are a second apart, at every other event. */
  ghost predicate PassesFall(events: seq<Event>, n: nat) {
    && SysAfter(events).rows != [] && Birth(events, 0) == 4
    && |PassesOf(events, 0)| == n == |PassEvents(events, 0)|
    && forall j :: 0 <= j < n ==> PassesOf(events, 0)[j].now == j * SECOND && PassEvents(events, 0)[j] == 6 + 2 * j
  }

  lemma StartIsBorn(classes: set<Class>, d: int)
    requires HasSpeeds(classes)
    ensures PassesFall(Start(classes, d), 0)
  {
    StartIsCalm(classes, d);
    var events := Start(classes, d);
    assert events[..|events| - 1] == events[..4];
  }

  lemma OneRoundFalls(events: seq<Event>, tick: Event, pass: Event, n: nat)
    requires PassesFall(events, n) && |events| == 5 + 2 * n
    requires tick.Heard? && pass.Reconciled? && pass.now == n * SECOND
    ensures PassesFall(events + [tick] + [pass], n + 1)
  {
    LaterEvent(events, tick, 0);
    LaterEvent(events + [tick], pass, 0);
  }

  lemma {:induction false} PassesAreCalm(classes: set<Class>, d: int, n: nat)
    requires HasSpeeds(classes)
    ensures PassesFall(CalmRun(classes, d, n), n)
  {
    if n == 0 {
      StartIsBorn(classes, d);
    } else {
      PassesAreCalm(classes, d, n - 1);
      OneRoundFalls(CalmRun(classes, d, n - 1), Tick(classes, d, n - 1), CalmPass(n - 1), n - 1);
    }
  }

  lemma {:induction false} RunPrefix(classes: set<Class>, d: int, n: nat, j: nat)
    requires j < n
    ensures CalmRun(classes, d, n)[..6 + 2 * j] == Ticked(classes, d, j)
  {
    if j < n - 1 {
      RunPrefix(classes, d, n - 1, j);
    }
  }

  lemma {:induction false} RunUses(classes: set<Class>, d: int, n: nat)
    requires HasSpeeds(classes)
    ensures UsesOnly(CalmRun(classes, d, n), classes) && NamedEvents(CalmRun(classes, d, n))
  {
    if n > 0 {
      RunUses(classes, d, n - 1);
    }
  }

  // --- exactly -----------------------------------------------------------------------------

  lemma FiveOfFive(e: seq<nat>)
    requires |e| == 5 && Ascending(e) && e[4] < 5
    ensures forall j :: 0 <= j < 5 ==> e[j] == j
  {
    assert e[0] < e[1] < e[2] < e[3] < e[4];
  }

  lemma {:induction false} RequestIsFifth(classes: set<Class>, d: int, n: nat)
    ensures CalmRun(classes, d, n)[4] == StopRequested(NoTask, 0, 0, 0)
    ensures CalmRun(classes, d, n)[1] == Heard(Mover(classes, "old", -d), true, false)
  {
    if n > 0 {
      RequestIsFifth(classes, d, n - 1);
    }
  }

  lemma {:induction false} CalmCounts(events: seq<Event>, classes: set<Class>, d: int) returns (e: seq<nat>)
    requires CalmSys(SysAfter(events), classes, d, 5) && PassesFall(events, 5)
    requires UsesOnly(events, classes) && NamedEvents(events)
    requires |events| > 4 && events[4] == StopRequested(NoTask, 0, 0, 0)
    ensures Verified(events, classes) && FiveAt(events, e) && forall j :: 0 <= j < 5 ==> e[j] == j
  {
    RowIsRun(events, 0);
    QualifiedStoodStill(events, 0);
    var looks := StopRuns.Looks(LIMITS, PassesOf(events, 0));
    e :| FiveFrames(looks, e);
    assert e[4] < |looks|;
    FiveOfFive(e);
  }

  lemma MotionFrom(events: seq<Event>, n: nat, j: nat, i: nat)
    requires PassesFall(events, n) && j < n && 6 + 2 * j <= |events| && i < |events| && events[i].Heard?
    requires events[i].message.LocationMsg? || events[i].message.CompatOdom?
    requires MotionOf(events[..6 + 2 * j]) == Some(i)
    ensures MotionEventAt(events, 0, j) == Some(i) && MotionAt(events, 0, j) == Some(events[i].message.source)
  {
  }

  /** What is known of the calm run after its five passes. */
  ghost predicate CalmHistory(events: seq<Event>, classes: set<Class>, d: int) {
    && |events| == 15 && CalmSys(SysAfter(events), classes, d, 5) && PassesFall(events, 5)
    && UsesOnly(events, classes) && NamedEvents(events)
    && events[1] == Heard(Mover(classes, "old", -d), true, false) && events[4] == StopRequested(NoTask, 0, 0, 0)
    && MotionOf(events[..6]) == Some(1)
    && (Mixed(classes) ==> forall j: nat :: j < 5 ==> MotionOf(events[..6 + 2 * j]) == Some(1))
  }

  lemma RunIsHistory(classes: set<Class>, d: int) returns (events: seq<Event>)
    requires HasSpeeds(classes) && Lag(classes, d) <= SECOND
    ensures CalmHistory(events, classes, d)
  {
    var n := ENOUGH;
    events := CalmRun(classes, d, n);
    RunIsCalm(classes, d, n);
    PassesAreCalm(classes, d, n);
    RunUses(classes, d, n);
    RequestIsFifth(classes, d, n);
    forall j: nat | j < n && (j == 0 || Mixed(classes))
      ensures MotionOf(events[..6 + 2 * j]) == Some(1)
    {
      RunPrefix(classes, d, n, j);
      OldMotion(classes, d, j);
    }
    assert events[..6] == events[..6 + 2 * 0];
  }

  /** The calm run is a witness for all that is to be shown. */
  lemma CalmWitness(classes: set<Class>, d: int) returns (events: seq<Event>, e: seq<nat>)
    requires HasSpeeds(classes) && Lag(classes, d) <= SECOND
    ensures Verified(events, classes) && BeginsOlder(events, e, d)
    ensures Mixed(classes) ==> OneMotion(events, e)
    ensures Odometry !in classes ==> FromOldBoot(events, e)
  {
    events := RunIsHistory(classes, d);
    e := CalmCounts(events, classes, d);
    MotionFrom(events, 5, 0, 1);
    if Mixed(classes) {
      forall j: nat | j < 5
        ensures MotionEventAt(events, 0, e[j]) == Some(1)
      {
        MotionFrom(events, 5, j, 1);
      }
    }
  }

  /** How old a motion reading field verification can begin with, exactly. */
  lemma OlderReadingExactly(classes: set<Class>, d: int)
    ensures (exists events :: VerifiedOnOlder(events, classes, d))
      <==> Mixed(classes) || (HasSpeeds(classes) && d <= SECOND)
  {
    if Mixed(classes) || (HasSpeeds(classes) && d <= SECOND) {
      var events, e := CalmWitness(classes, d);
      assert VerifiedOnOlder(events, classes, d);
    }
    forall events | VerifiedOnOlder(events, classes, d)
      ensures Mixed(classes) || (HasSpeeds(classes) && d <= SECOND)
    {
      if !Mixed(classes) {
        OlderIsDated(events, classes, d);
      }
    }
  }

  lemma {:induction false} OlderIsDated(events: seq<Event>, classes: set<Class>, d: int)
    requires VerifiedOnOlder(events, classes, d) && !Mixed(classes)
    ensures HasSpeeds(classes) && d <= SECOND
  {
    var e :| BeginsOlder(events, e, d);
    FrameIsMeasured(events, 0, e, RequestTime(events, 0), 0, classes);
  }

  /**
   Exactly when one motion reading from before the request, of any age, can make up all five
   frames: when two classes of messages renew the source stamp.
  */
  lemma OneReadingExactly(classes: set<Class>, d: int)
    requires d >= 0
    ensures (exists events :: VerifiedOnOne(events, classes, d)) <==> Mixed(classes)
  {
    if Mixed(classes) {
      var events, e := CalmWitness(classes, d);
      assert VerifiedOnOne(events, classes, d);
    }
    forall events | VerifiedOnOne(events, classes, d)
      ensures Mixed(classes)
    {
      if !Mixed(classes) {
        OneIsDated(events, classes, d);
        assert false;
      }
    }
  }

  lemma {:induction false} OneIsDated(events: seq<Event>, classes: set<Class>, d: int)
    requires VerifiedOnOne(events, classes, d) && !Mixed(classes)
    ensures d < 0
  {
    var t := RequestTime(events, 0);
    var e :| BeginsOlder(events, e, d) && OneMotion(events, e);
    assert MotionEventAt(events, 0, e[4]) == MotionEventAt(events, 0, e[0]);
    FrameIsMeasured(events, 0, e, t, 4, classes);
  }

  /**
   Exactly when field verification can begin with a location of a boot that is over, stamped d
   before the request: within a second, or with other compatibility messages at any age.
  */
  lemma OldBootExactly(classes: set<Class>, d: int)
    ensures (exists events :: VerifiedOnOldBoot(events, classes, d))
      <==> Locations in classes && (Compats in classes || d <= SECOND)
  {
    if Locations in classes && (Compats in classes || d <= SECOND) {
      var events, e := CalmWitness(classes - {Odometry}, d);
      assert VerifiedOnOldBoot(events, classes, d);
    }
    forall events | VerifiedOnOldBoot(events, classes, d)
      ensures Locations in classes && (Compats in classes || d <= SECOND)
    {
      OldBootIsDated(events, classes, d);
    }
  }

  lemma {:induction false} OldBootIsDated(events: seq<Event>, classes: set<Class>, d: int)
    requires VerifiedOnOldBoot(events, classes, d)
    ensures Locations in classes && (Compats in classes || d <= SECOND)
  {
    var e :| BeginsOlder(events, e, d) && FromOldBoot(events, e);
    var i := MotionEventAt(events, 0, e[0]).value;
    assert ClassOf(events[i].message) == Locations;
    if Compats !in classes {
      LocationFrameIsDated(events, classes, e[0]);
      FrameTime(LIMITS, PassesOf(events, 0), e, RequestTime(events, 0), 0);
      FrameIsYoung(LIMITS, PassesOf(events, 0), e, 0);
    }
  }

  lemma {:induction false} LocationFrameIsDated(events: seq<Event>, classes: set<Class>, j: nat)
    requires SysAfter(events).rows != [] && j < |PassesOf(events, 0)|
    requires UsesOnly(events, classes) && Compats !in classes
    requires MotionEventAt(events, 0, j).Some? && events[MotionEventAt(events, 0, j).value].message.LocationMsg?
    ensures PassesOf(events, 0)[j].facts.latest.source == Aware(MotionAt(events, 0, j).value)
  {
    PassesAreAt(events, 0);
    LocationIsDated(Before(events, 0, j), classes);
  }
}
