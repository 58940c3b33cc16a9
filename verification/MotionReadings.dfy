/**
 Which message the judged speeds come from, how old it can be while the stamps beside it are
 fresh, and on which boot it was measured.
*/
module MotionReadings {
  import opened Wrappers
  import opened BootSessions
  import opened StopTelemetry
  import opened StopOperations
  import opened LatestCache
  import opened FieldEvidence

  const SECOND := 1_000_000

  /** The message of the last event writes the cached reading. */
  predicate WritesLast(events: seq<Event>)
    requires events != []
  {
    var n := |events| - 1;
    events[n].Heard? && LetIn(SysAfter(events[..n]).vehicle, events[n].message, events[n].commits)
  }

  /** The motion reading: the event whose message was the last to write a judged speed. */
  function MotionOf(events: seq<Event>): (i: Option<nat>)
    ensures i.Some? ==> i.value < |events| && events[i.value].Heard?
    ensures i.Some? ==> events[i.value].message.LocationMsg? || events[i.value].message.CompatOdom?
  {
    if events == [] then None
    else
      var n := |events| - 1;
      if WritesLast(events) && Moves(SysAfter(events[..n]).cache, events[n].message) then Some(n)
      else MotionOf(events[..n])
  }

  ghost predicate UsesOnly(events: seq<Event>, classes: set<Class>) {
    forall i :: 0 <= i < |events| && events[i].Heard? ==>
      ClassOf(events[i].message) in classes || ClassOf(events[i].message) == Silent
  }

  predicate StillAt(events: seq<Event>, now: int) {
    StationaryObservation(SysAfter(events).cache.latest, now, LIMITS).stationary
  }

  // --- what dates the motion reading -------------------------------------------------------

  predicate NoSpeeds(l: Latest) {
    && l.linear.Missing? && l.angular.Missing?
    && l.linearX.Missing? && l.planarSpeed.Missing? && l.angularZ.Missing?
  }

  /** The source stamp is that of the motion reading, whose source time is given. */
  predicate Dated(l: Latest, motion: Option<int>) {
    if motion.None? then NoSpeeds(l) else l.source == Aware(motion.value)
  }

  predicate NoOdometry(l: Latest) { l.linearX.Missing? && l.planarSpeed.Missing? && l.angularZ.Missing? }

  lemma WriteKeepsDated(c: Cache, m: Message, classes: set<Class>, motion: Option<int>)
    requires !Mixed(classes) && (ClassOf(m) in classes || ClassOf(m) == Silent)
    requires Dated(c.latest, motion) && (Odometry !in classes ==> NoOdometry(c.latest))
    requires motion.Some? ==> Locations in classes || Odometry in classes
    ensures Dated(Written(c, m).latest, if Moves(c, m) then Some(m.source) else motion)
    ensures Odometry !in classes ==> NoOdometry(Written(c, m).latest)
  {
  }

  function MotionSource(events: seq<Event>): Option<int> {
    if MotionOf(events).None? then None else Some(events[MotionOf(events).value].message.source)
  }

  lemma {:induction false} AlwaysDated(events: seq<Event>, classes: set<Class>)
    requires UsesOnly(events, classes) && !Mixed(classes)
    ensures Dated(SysAfter(events).cache.latest, MotionSource(events))
    ensures Odometry !in classes ==> NoOdometry(SysAfter(events).cache.latest)
    ensures MotionSource(events).Some? ==> Locations in classes || Odometry in classes
  {
    if events != [] {
      var n := |events| - 1;
      AlwaysDated(events[..n], classes);
      if WritesLast(events) {
        WriteKeepsDated(SysAfter(events[..n]).cache, events[n].message, classes, MotionSource(events[..n]));
      }
    }
  }

  /**
   Where one class alone renews the source stamp, stillness rests on a motion reading stamped
   at most a second ago.
  */
  lemma StillnessIsDated(events: seq<Event>, classes: set<Class>, now: int)
    requires UsesOnly(events, classes) && !Mixed(classes) && StillAt(events, now)
    ensures MotionSource(events).Some? && MotionSource(events).value >= now - SECOND
    ensures Locations in classes || Odometry in classes
  {
    AlwaysDated(events, classes);
    StillnessNeedsEvidence(SysAfter(events).cache.latest, now, LIMITS);
  }

  /** The same for a motion reading that is a location, unless other compatibility messages renew the stamps. */
  lemma {:induction false} LocationIsDated(events: seq<Event>, classes: set<Class>)
    requires UsesOnly(events, classes) && Compats !in classes
    requires MotionOf(events).Some? && events[MotionOf(events).value].message.LocationMsg?
    ensures !Shadowed(SysAfter(events).cache.latest)
    ensures SysAfter(events).cache.latest.source == Aware(MotionSource(events).value)
  {
    var n := |events| - 1;
    if MotionOf(events).value < n {
      LocationIsDated(events[..n], classes);
    }
  }

  // --- two frames on one motion reading ----------------------------------------------------

  /**
   Two looks, a gap apart, both see the vehicle still, the second with a newer token, and both
   rest on one motion reading, which was not stamped after the first look.
  */
  ghost predicate TwoOnOne(
    classes: set<Class>, gap: int, events: seq<Event>, more: seq<Event>, now: int)
  {
    && UsesOnly(events + more, classes)
    && StillAt(events, now) && StillAt(events + more, now + gap)
    && Newer(ObservationToken(SysAfter(events + more).cache.latest), ObservationToken(SysAfter(events).cache.latest))
    && MotionOf(events + more) == MotionOf(events)
    && MotionSource(events).Some? && MotionSource(events).value <= now
  }

  /** Odometry where there is any, else a location; the vehicle stands still. */
  function Mover(classes: set<Class>, boot: BootId, at: int): Message {
    var zero := Some(0.0);
    if Odometry in classes then CompatOdom(at, at, zero, zero, zero, zero) else LocationMsg(boot, at, at, zero, zero)
  }

  /** A message that renews both stamps and, after the mover, no judged speed. */
  function Renewer(classes: set<Class>, boot: BootId, at: int): Message {
    if Compats in classes then CompatOther(at, at) else LocationMsg(boot, at, at, Some(0.0), Some(0.0))
  }

  /** Zero speeds in every field the mover writes. */
  predicate Resting(l: Latest, classes: set<Class>) {
    && l.linear == Num(0.0) && l.angular == Num(0.0)
    && if Odometry in classes
       then l.linearX == Num(0.0) && l.planarSpeed == Num(0.0) && l.angularZ == Num(0.0)
       else NoOdometry(l)
  }

  predicate StampedAt(l: Latest, at: int) { l.source == Aware(at) && l.received == Aware(at) }

  lemma RestingIsStill(l: Latest, classes: set<Class>, now: int)
    requires Resting(l, classes)
    requires Within(l.source, now, LIMITS.freshnessMs) && Within(l.received, now, LIMITS.freshnessMs)
    ensures StationaryObservation(l, now, LIMITS).stationary
  {
  }

  lemma MoverRests(c: Cache, classes: set<Class>, boot: BootId, at: int)
    requires NoOdometry(c.latest) || Resting(c.latest, classes)
    ensures var l := Written(c, Mover(classes, boot, at)).latest; Resting(l, classes) && StampedAt(l, at)
  {
  }

  lemma RenewerRests(c: Cache, classes: set<Class>, boot: BootId, at: int)
    requires Mixed(classes) && Resting(c.latest, classes)
    ensures var l := Written(c, Renewer(classes, boot, at)).latest; Resting(l, classes) && StampedAt(l, at)
    ensures !Moves(c, Renewer(classes, boot, at))
    ensures ClassOf(Renewer(classes, boot, at)) in classes
  {
  }

  /** One event more. */
  lemma NextState(events: seq<Event>, e: Event)
    ensures SysAfter(events + [e]) == SysStep(SysAfter(events), e)
  {
    assert (events + [e])[..|events + [e]| - 1] == events;
  }

  predicate TakesOver(s: Sys, e: Event) {
    e.Heard? && LetIn(s.vehicle, e.message, e.commits) && Moves(s.cache, e.message)
  }

  lemma NextMotion(events: seq<Event>, e: Event)
    ensures MotionOf(events + [e]) == if TakesOver(SysAfter(events), e) then Some(|events|) else MotionOf(events)
  {
    assert (events + [e])[..|events + [e]| - 1] == events;
  }

  function Introduced(classes: set<Class>): seq<Event> {
    [Heard(OtherMsg(Heartbeat, "boot", 0), true, false)] + [Heard(Mover(classes, "boot", 0), true, false)]
  }

  lemma IntroducedRests(classes: set<Class>)
    requires HasSpeeds(classes)
    ensures var s := SysAfter(Introduced(classes));
      s.vehicle.bootId == Some("boot") && Resting(s.cache.latest, classes) && StampedAt(s.cache.latest, 0)
    ensures MotionSource(Introduced(classes)) == Some(0) && UsesOnly(Introduced(classes), classes)
  {
    var first, mover := Introduced(classes)[0], Introduced(classes)[1];
    NextState([], first);
    assert [] + [first] == [first];
    NextState([first], mover);
    NextMotion([first], mover);
    MoverRests(SysAfter([first]).cache, classes, "boot", 0);
  }

  /** What renews the receive stamp after a gap without a new motion reading. */
  function Refresher(classes: set<Class>, gap: int): Message {
    if Mixed(classes) then Renewer(classes, "boot", gap) else SensorMsg("boot", gap)
  }

  lemma OneReadingTwice(classes: set<Class>, gap: int)
    requires gap > 0 && HasSpeeds(classes) && (Mixed(classes) || (Sensors in classes && gap <= SECOND))
    ensures TwoOnOne(classes, gap, Introduced(classes), [Heard(Refresher(classes, gap), true, false)], 0)
  {
    var events, e := Introduced(classes), Heard(Refresher(classes, gap), true, false);
    IntroducedRests(classes);
    NextState(events, e);
    NextMotion(events, e);
    var c := SysAfter(events).cache;
    if Mixed(classes) {
      RenewerRests(c, classes, "boot", gap);
    }
    RestingIsStill(c.latest, classes, 0);
    RestingIsStill(SysAfter(events + [e]).cache.latest, classes, gap);
  }

  /** Without a new motion reading, sensor messages are the only ones that renew the receive stamp. */
  lemma {:induction false} ReceivedByMotion(events: seq<Event>, more: seq<Event>, classes: set<Class>)
    requires UsesOnly(events + more, classes) && !Mixed(classes) && Sensors !in classes
    requires MotionOf(events + more) == MotionOf(events) && MotionOf(events).Some?
    ensures SysAfter(events + more).cache.latest.received == SysAfter(events).cache.latest.received
  {
    if more == [] {
      assert events + more == events;
    } else {
      var n := |more| - 1;
      var before := events + more[..n];
      assert before + [more[n]] == events + more;
      NextState(before, more[n]);
      NextMotion(before, more[n]);
      assert (events + more)[|events| + n] == more[n];
      assert forall i :: 0 <= i < |before| ==> before[i] == (events + more)[i];
      AlwaysDated(before, classes);
      assert HasSpeeds(classes) by {
        AlwaysDated(events + more, classes);
      }
      MotionIsNotLater(events, more, n);
      ReceivedByMotion(events, more[..n], classes);
    }
  }

  /** If the motion reading is an old one after more events, it was that all along. */
  lemma {:induction false} MotionIsNotLater(events: seq<Event>, more: seq<Event>, n: nat)
    requires n <= |more| && MotionOf(events + more) == MotionOf(events) && MotionOf(events).Some?
    ensures MotionOf(events + more[..n]) == MotionOf(events)
    decreases |more|
  {
    if n < |more| {
      var last := |more| - 1;
      var before := events + more[..last];
      assert before + [more[last]] == events + more;
      NextMotion(before, more[last]);
      assert more[..last][..n] == more[..n];
      MotionIsNotLater(events, more[..last], n);
    } else {
      assert more[..n] == more;
    }
  }

  /**
   Exactly when two frames, a gap apart, can rest on one motion reading: always, if two classes
   renew the source stamp; otherwise if sensor messages are in use and the gap is no more than a second.
  */
  lemma TwoFramesExactly(classes: set<Class>, gap: int)
    requires gap > 0
    ensures (exists events, more, now :: TwoOnOne(classes, gap, events, more, now))
      <==> Mixed(classes) || (HasSpeeds(classes) && Sensors in classes && gap <= SECOND)
  {
    if Mixed(classes) || (HasSpeeds(classes) && Sensors in classes && gap <= SECOND) {
      OneReadingTwice(classes, gap);
    }
    forall events, more, now | TwoOnOne(classes, gap, events, more, now)
      ensures Mixed(classes) || (HasSpeeds(classes) && Sensors in classes && gap <= SECOND)
    {
      if !Mixed(classes) {
        StillnessIsDated(events + more, classes, now + gap);
        if Sensors !in classes {
          ReceivedByMotion(events, more, classes);
          assert false;
        }
      }
    }
  }

  // --- the boot it was measured on ---------------------------------------------------------

  predicate LocationAt(events: seq<Event>, i: nat)
    requires i < |events|
  {
    && events[i].Heard? && events[i].message.LocationMsg?
    && LetIn(SysAfter(events[..i]).vehicle, events[i].message, events[i].commits)
  }

  /**
   A location that is let in while the vehicle stays on one boot, as it does from the stop
   request of proven evidence on, comes from that boot.
  */
  lemma LocationsAreCurrent(events: seq<Event>, since: nat, i: nat)
    requires since <= i < |events| && SameBootSince(events, since) && LocationAt(events, i)
    ensures SysAfter(events).vehicle.bootId == Some(events[i].message.boot)
  {
    assert SysAfter(events[..i]).vehicle.bootId == SysAfter(events).vehicle.bootId;
  }

  lemma {:induction false} MotionIsLetIn(events: seq<Event>)
    requires MotionOf(events).Some?
    ensures var i := MotionOf(events).value;
      LetIn(SysAfter(events[..i]).vehicle, events[i].message, events[i].commits)
  {
    var n := |events| - 1;
    if MotionOf(events).value < n {
      MotionIsLetIn(events[..n]);
      var i := MotionOf(events).value;
      assert events[..n][..i] == events[..i];
    }
  }

  /** So a pass whose motion reading is a location received since then judges the current boot. */
  lemma MotionIsCurrent(events: seq<Event>, since: nat, p: nat)
    requires p <= |events| && SameBootSince(events, since)
    requires MotionOf(events[..p]).Some? && MotionOf(events[..p]).value >= since
    requires events[MotionOf(events[..p]).value].message.LocationMsg?
    ensures SysAfter(events).vehicle.bootId == Some(events[MotionOf(events[..p]).value].message.boot)
  {
    var i := MotionOf(events[..p]).value;
    MotionIsLetIn(events[..p]);
    assert events[..p][..i] == events[..i];
    LocationsAreCurrent(events, since, i);
  }

  lemma CachedBoot(events: seq<Event>, n: nat)
    requires n < |events|
    ensures SysAfter(events[..n + 1]).cache.boot
      == if LocationAt(events, n) then Some(events[n].message.boot) else SysAfter(events[..n]).cache.boot
  {
    assert events[..n + 1][..n] == events[..n];
    assert SysAfter(events[..n + 1]) == SysStep(SysAfter(events[..n]), events[n]);
  }

  lemma {:induction false} CachedBootFrom(events: seq<Event>, b: Option<BootId>, i: nat, p: nat)
    requires i < p <= |events| && LocationAt(events, i)
    requires forall q :: i <= q < p && LocationAt(events, q) ==> Some(events[q].message.boot) == b
    ensures SysAfter(events[..p]).cache.boot == b
    decreases p
  {
    var n := p - 1;
    CachedBoot(events, n);
    if !LocationAt(events, n) {
      CachedBootFrom(events, b, i, n);
    }
  }

  /** And once a location has come since then, the boot id cached with the reading is the current one. */
  lemma CachedBootIsCurrent(events: seq<Event>, since: nat, i: nat, p: nat)
    requires since <= i < p <= |events| && SameBootSince(events, since) && LocationAt(events, i)
    ensures SysAfter(events[..p]).cache.boot == SysAfter(events).vehicle.bootId
  {
    forall q | i <= q < p && LocationAt(events, q)
      ensures Some(events[q].message.boot) == SysAfter(events).vehicle.bootId
    {
      LocationsAreCurrent(events, since, q);
    }
    CachedBootFrom(events, SysAfter(events).vehicle.bootId, i, p);
  }
}
