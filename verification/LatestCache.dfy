/**
 The cached reading of one vehicle, and the messages that write it. They renew its speeds
 and its two stamps separately, so a stamp need not date the speeds beside it.
*/
module LatestCache {
  import opened Wrappers
  import opened BootSessions
  import opened StopTelemetry

  /**
   Messages as far as they touch the boot rows or the cached reading. Location, sensor and other
   messages come from the vehicle, through the boot gate; the rest come from the ROS adapter.
  */
  datatype Message =
    | LocationMsg(boot: BootId, source: int, received: int, linear: Option<real>, angular: Option<real>)
    | SensorMsg(boot: BootId, received: int)
    | OtherMsg(kind: Kind, boot: BootId, received: int)
    | CompatOdom(source: int, received: int, linearX: Option<real>, linearY: Option<real>,
                 planarSpeed: Option<real>, angularZ: Option<real>)
    | CompatAvailability(boot: BootId, source: int, received: int)
    | CompatOther(source: int, received: int)

  /** The cached reading, with the boot id of the last location. */
  datatype Cache = Cache(latest: Latest, boot: Option<BootId>)

  const NO_READING := Latest(NoStamp, NoStamp, Missing, Missing, Missing, Missing, Missing, Missing)
  const EMPTY_CACHE := Cache(NO_READING, None)

  /** A number that is not in the message is stored as null. */
  function Stored(v: Option<real>): Field { if v.Some? then Num(v.value) else Null }

  function Stamped(l: Latest, source: int, received: int): Latest {
    l.(source := Aware(source), received := Aware(received))
  }

  /** The cached reading after a message that is let in. */
  function Written(c: Cache, m: Message): Cache {
    match m
    case LocationMsg(boot, source, received, linear, angular) =>
      Cache(Stamped(c.latest, source, received).(linear := Stored(linear), angular := Stored(angular)), Some(boot))
    case SensorMsg(_, received) => c.(latest := c.latest.(received := Aware(received)))
    case OtherMsg(_, _, _) => c
    case CompatOdom(source, received, linearX, linearY, planarSpeed, angularZ) =>
      c.(latest := Latest(Aware(received), Aware(source), Stored(linearX), Stored(linearY),
                          Stored(planarSpeed), Stored(planarSpeed), Stored(angularZ), Stored(angularZ)))
    case CompatAvailability(_, source, received) => c.(latest := Stamped(c.latest, source, received))
    case CompatOther(source, received) => c.(latest := Stamped(c.latest, source, received))
  }

  /** The attempt a message makes on the boot rows, if it makes one. */
  function AttemptOf(m: Message, commits: bool): seq<Attempt> {
    match m
    case LocationMsg(boot, _, received, _, _) => [Attempt(boot, Location, received, commits)]
    case SensorMsg(boot, received) => [Attempt(boot, Sensor, received, commits)]
    case OtherMsg(kind, boot, received) => [Attempt(boot, kind, received, commits)]
    case CompatAvailability(boot, _, received) => [Attempt(boot, Availability, received, commits)]
    case _ => []
  }

  predicate FromVehicle(m: Message) { m.LocationMsg? || m.SensorMsg? || m.OtherMsg? }

  /**
   Does a message write the cached reading? The vehicle's own need their boot admitted and their
   transaction committed, other compatibility messages only the latter, odometry neither.
  */
  predicate LetIn(v: Vehicle, m: Message, commits: bool) {
    if m.CompatOdom? then true
    else if FromVehicle(m) then commits && Admits(v, AttemptOf(m, commits)[0].boot, AttemptOf(m, commits)[0].kind)
    else commits
  }

  /** The cached reading, as the handlers update it. */
  class VehicleLatest {
    var latest: Latest
    var boot: Option<BootId>

    constructor ()
      ensures Value() == EMPTY_CACHE
    {
      latest, boot := NO_READING, None;
    }

    function Value(): Cache
      reads this
    {
      Cache(latest, boot)
    }

    method HandleLocation(m: Message)
      requires m.LocationMsg?
      modifies this
      ensures Value() == Written(old(Value()), m)
    {
      latest := latest.(linear := Stored(m.linear), angular := Stored(m.angular));
      boot := Some(m.boot);
      latest := latest.(source := Aware(m.source), received := Aware(m.received));
    }

    method HandleSensor(m: Message)
      requires m.SensorMsg?
      modifies this`latest
      ensures Value() == Written(old(Value()), m)
    {
      latest := latest.(received := Aware(m.received));
    }

    /** process_internal_compat: odometry writes its speeds, every kind both stamps. */
    method ProcessInternalCompat(m: Message)
      requires !FromVehicle(m)
      modifies this`latest
      ensures Value() == Written(old(Value()), m)
    {
      if m.CompatOdom? {
        latest := latest.(linear := Stored(m.planarSpeed), angular := Stored(m.angularZ));
        latest := latest.(linearX := Stored(m.linearX), linearY := Stored(m.linearY));
        latest := latest.(angularZ := Stored(m.angularZ), planarSpeed := Stored(m.planarSpeed));
      }
      latest := latest.(received := Aware(m.received), source := Aware(m.source));
    }
  }

  // --- which message the judged speeds come from -------------------------------------------

  /** Odometry speeds are cached, and hide those of a location. */
  predicate Shadowed(l: Latest) { (l.planarSpeed.Num? || l.linearX.Num?) && !l.angularZ.Missing? }

  /** The message writes a speed that the stop judgement looks at. */
  predicate Moves(c: Cache, m: Message) { m.CompatOdom? || (m.LocationMsg? && !Shadowed(c.latest)) }

  /** Any other message leaves the judgement of the speeds as it is. */
  lemma OthersKeepSpeeds(c: Cache, m: Message, linear: real, angular: real)
    requires !Moves(c, m)
    ensures SlowPlanar(Written(c, m).latest, linear) == SlowPlanar(c.latest, linear)
    ensures SlowAngular(Written(c, m).latest, angular) == SlowAngular(c.latest, angular)
  {
  }

  /** Messages by what they renew; the rest renew nothing. */
  datatype Class = Locations | Sensors | Odometry | Compats | Silent

  function ClassOf(m: Message): Class {
    match m
    case LocationMsg(_, _, _, _, _) => Locations
    case SensorMsg(_, _) => Sensors
    case OtherMsg(_, _, _) => Silent
    case CompatOdom(_, _, _, _, _, _) => Odometry
    case CompatAvailability(_, _, _) => Compats
    case CompatOther(_, _) => Compats
  }

  predicate HasSpeeds(classes: set<Class>) { Locations in classes || Odometry in classes }

  /** Two of the classes that renew the source stamp are in use. */
  predicate Mixed(classes: set<Class>) {
    || (Locations in classes && Odometry in classes)
    || (Locations in classes && Compats in classes)
    || (Odometry in classes && Compats in classes)
  }
}
