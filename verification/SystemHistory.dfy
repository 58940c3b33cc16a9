/**
 The vehicle's system as a function of history: the parts of the cached reading are what the last
 messages that brought them said, and the profile and the stops are those of the events.
*/
module SystemHistories {
  import opened Wrappers
  import opened BootSessions
  import opened BootHistory
  import opened StopTelemetry
  import opened LatestCache
  import opened FieldEvidence

  // --- which messages are let in -----------------------------------------------------------

  /**
   A location or sensor message counts if it is on record and of the current boot; any other message
   of the vehicle also if it may begin a boot. Odometry of the adapter always counts, the rest of
   what the adapter says if it is on record.
  */
  lemma {:induction false} LetInExactly(v: Vehicle, m: Message, commits: bool)
    ensures LatestCache.LetIn(v, m, commits) <==>
      match m
      case LocationMsg(boot, _, _, _, _) => commits && v.bootId == Some(boot)
      case SensorMsg(boot, _) => commits && v.bootId == Some(boot)
      case OtherMsg(kind, boot, _) =>
        commits && (v.bootId == Some(boot)
                    || (kind in {Availability, Heartbeat, Capabilities}
                        && (boot in v.sessions ==> v.sessions[boot].ended.None?)))
      case CompatOdom(_, _, _, _, _, _) => true
      case CompatAvailability(_, _, _) => commits
      case CompatOther(_, _) => commits
  {
  }

  // --- who wrote what last -----------------------------------------------------------------

  datatype Part = ReceiveStamp | SourceStamp | Speeds | OdometrySpeeds | BootOfReading

  /** Which messages bring which part. */
  predicate Brings(m: Message, part: Part) {
    match part
    case ReceiveStamp => !m.OtherMsg?
    case SourceStamp => !m.OtherMsg? && !m.SensorMsg?
    case Speeds => m.LocationMsg? || m.CompatOdom?
    case OdometrySpeeds => m.CompatOdom?
    case BootOfReading => m.LocationMsg?
  }

  predicate BringsAt(events: seq<Event>, i: nat, part: Part) {
    && i < |events| && events[i].Heard? && Brings(events[i].message, part)
    && LatestCache.LetIn(SysAfter(events[..i]).vehicle, events[i].message, events[i].commits)
  }

  /** The last message that was let in and brought that part. */
  function LastWith(events: seq<Event>, part: Part): (m: Option<Message>)
    ensures m.Some? ==> Brings(m.value, part)
  {
    if events == [] then None
    else
      var n := |events| - 1;
      if BringsAt(events, n, part) then Some(events[n].message) else LastWith(events[..n], part)
  }

  function Reported(v: Option<real>): Field { if v.Some? then Num(v.value) else Null }

  /** The last messages that brought each part. */
  datatype Sources = Sources(
    receipt: Option<Message>, source: Option<Message>, speeds: Option<Message>, odometry: Option<Message>,
    boot: Option<Message>)

  predicate Proper(b: Sources) {
    && (b.receipt.Some? ==> Brings(b.receipt.value, ReceiveStamp))
    && (b.source.Some? ==> Brings(b.source.value, SourceStamp))
    && (b.speeds.Some? ==> Brings(b.speeds.value, Speeds))
    && (b.odometry.Some? ==> Brings(b.odometry.value, OdometrySpeeds))
    && (b.boot.Some? ==> Brings(b.boot.value, BootOfReading))
  }

  /** Each part of the cached reading is what the message said that brought it. */
  predicate IsReadingOf(c: Cache, b: Sources)
    requires Proper(b)
  {
    var l := c.latest;
    && l.received == (if b.receipt.Some? then Aware(b.receipt.value.received) else NoStamp)
    && l.source == (if b.source.Some? then Aware(b.source.value.source) else NoStamp)
    && l.linear == (if b.speeds.None? then Missing
                    else if b.speeds.value.CompatOdom? then Reported(b.speeds.value.planarSpeed)
                    else Reported(b.speeds.value.linear))
    && l.angular == (if b.speeds.None? then Missing
                     else if b.speeds.value.CompatOdom? then Reported(b.speeds.value.angularZ)
                     else Reported(b.speeds.value.angular))
    && (if b.odometry.None? then
          l.planarSpeed == Missing && l.linearX == Missing && l.linearY == Missing && l.angularZ == Missing
        else
          && l.planarSpeed == Reported(b.odometry.value.planarSpeed)
          && l.linearX == Reported(b.odometry.value.linearX) && l.linearY == Reported(b.odometry.value.linearY)
          && l.angularZ == Reported(b.odometry.value.angularZ))
    && c.boot == (if b.boot.Some? then Some(b.boot.value.boot) else None)
  }

  function SourcesOf(events: seq<Event>): (b: Sources)
    ensures Proper(b)
  {
    Sources(LastWith(events, ReceiveStamp), LastWith(events, SourceStamp), LastWith(events, Speeds),
      LastWith(events, OdometrySpeeds), LastWith(events, BootOfReading))
  }

  function Replaced(b: Sources, m: Message): Sources {
    Sources(
      if Brings(m, ReceiveStamp) then Some(m) else b.receipt, if Brings(m, SourceStamp) then Some(m) else b.source,
      if Brings(m, Speeds) then Some(m) else b.speeds, if Brings(m, OdometrySpeeds) then Some(m) else b.odometry,
      if Brings(m, BootOfReading) then Some(m) else b.boot)
  }

  lemma {:induction false} WrittenIsReading(c: Cache, b: Sources, m: Message)
    requires Proper(b) && IsReadingOf(c, b)
    ensures Proper(Replaced(b, m)) && IsReadingOf(Written(c, m), Replaced(b, m))
  {
  }

  lemma {:induction false} SourcesMore(events: seq<Event>)
    requires events != []
    ensures var n := |events| - 1;
      SourcesOf(events) ==
        if events[n].Heard? && LatestCache.LetIn(SysAfter(events[..n]).vehicle, events[n].message, events[n].commits)
        then Replaced(SourcesOf(events[..n]), events[n].message) else SourcesOf(events[..n])
  {
  }

  /** After any events the cached reading is put together from the last messages that brought its parts. */
  lemma {:induction false} CacheFollowsHistory(events: seq<Event>)
    ensures IsReadingOf(SysAfter(events).cache, SourcesOf(events))
  {
    if events != [] {
      var n := |events| - 1;
      CacheFollowsHistory(events[..n]);
      SourcesMore(events);
      if events[n].Heard? {
        WrittenIsReading(SysAfter(events[..n]).cache, SourcesOf(events[..n]), events[n].message);
      }
    }
  }

  // --- the boot of the vehicle -------------------------------------------------------------

  function BootOf(m: Message): Option<BootId> {
    match m
    case LocationMsg(boot, _, _, _, _) => Some(boot)
    case SensorMsg(boot, _) => Some(boot)
    case OtherMsg(_, boot, _) => Some(boot)
    case CompatAvailability(boot, _, _) => Some(boot)
    case _ => None
  }

  /** Messages that can begin a boot: availability, the adapter's too, heartbeat and capabilities. */
  predicate CanBegin(m: Message) {
    m.CompatAvailability? || (m.OtherMsg? && m.kind in {Availability, Heartbeat, Capabilities})
  }

  /** The boot begun last: by a message on record that can begin one, of a boot that was never current before. */
  ghost function CurrentBoot(events: seq<Event>): Option<BootId>
    decreases |events|
  {
    if events == [] then None
    else
      var n := |events| - 1;
      if && events[n].Heard? && events[n].commits && CanBegin(events[n].message)
         && forall i: nat :: i <= n ==> CurrentBoot(events[..i]) != BootOf(events[n].message)
      then BootOf(events[n].message) else CurrentBoot(events[..n])
  }

  /** The attempts on the boot rows that were heard. */
  function HeardSoFar(events: seq<Event>): seq<Attempt> { BootHistory.Heard(HeardIn(events)) }

  ghost predicate WasCurrent(events: seq<Event>, b: BootId) {
    exists i: nat :: CurrentAt(events, i, b)
  }

  lemma {:induction false} HeardSoFarMore(events: seq<Event>)
    requires events != []
    ensures var n := |events| - 1;
      var a := if events[n].Heard? then AttemptOf(events[n].message, events[n].commits) else [];
      HeardSoFar(events) ==
        if a != [] && a[0].commits && Admits(SysAfter(events[..n]).vehicle, a[0].boot, a[0].kind)
        then HeardSoFar(events[..n]) + a else HeardSoFar(events[..n])
  {
    var n := |events| - 1;
    var before := HeardIn(events[..n]);
    VehicleIsHeard(events[..n]);
    var a := if events[n].Heard? then AttemptOf(events[n].message, events[n].commits) else [];
    if a == [] {
      assert HeardIn(events) == before;
    } else {
      assert HeardIn(events) == before + [a[0]];
      assert (before + [a[0]])[..|before|] == before;
    }
  }

  lemma {:induction false} RowsSoFar(events: seq<Event>)
    requires NamedEvents(events)
    ensures RowsOf(SysAfter(events).vehicle, HeardSoFar(events))
  {
    HeardIsNamed(events);
    VehicleIsHeard(events);
    RowsFollowHistory(HeardIn(events));
  }

  predicate CurrentAt(events: seq<Event>, i: nat, b: BootId) {
    i <= |events| && SysAfter(events[..i]).vehicle.bootId == Some(b)
  }

  lemma {:induction false} CurrentInPrefix(events: seq<Event>, m: nat, i: nat, b: BootId)
    requires i <= m <= |events|
    ensures CurrentAt(events[..m], i, b) == CurrentAt(events, i, b)
  {
    assert events[..m][..i] == events[..i];
  }

  lemma {:induction false} WasCurrentMore(events: seq<Event>, b: BootId)
    requires events != []
    ensures WasCurrent(events, b) <==>
      WasCurrent(events[..|events| - 1], b) || SysAfter(events).vehicle.bootId == Some(b)
  {
    var n := |events| - 1;
    assert events[..n + 1] == events;
    if i: nat :| CurrentAt(events, i, b) {
      if i <= n {
        CurrentInPrefix(events, n, i, b);
      }
    }
    if i: nat :| CurrentAt(events[..n], i, b) {
      CurrentInPrefix(events, n, i, b);
    }
    if SysAfter(events).vehicle.bootId == Some(b) {
      assert CurrentAt(events, n + 1, b);
    }
  }

  lemma {:induction false} MentionedStep(before: seq<Attempt>, after: seq<Attempt>, b: BootId)
    requires after == before || (|after| == |before| + 1 && after[..|before|] == before)
    ensures Mentions(after, b) <==> Mentions(before, b) || LastBoot(after) == Some(b)
  {
    if after != before {
      assert after == before + [after[|before|]];
      MentionsMore(before, after[|before|], b);
    } else if LastBoot(after) == Some(b) {
      assert after[|after| - 1].boot == b;
    }
  }

  /** Heard at all is the same as current once. */
  lemma {:induction false} HeardWasCurrent(events: seq<Event>, b: BootId)
    requires NamedEvents(events)
    ensures Mentions(HeardSoFar(events), b) <==> WasCurrent(events, b)
    decreases |events|
  {
    if events == [] {
      assert events[..0] == [];
    } else {
      HeardWasCurrent(events[..|events| - 1], b);
      WasCurrentMore(events, b);
      HeardSoFarMore(events);
      RowsSoFar(events);
      MentionedStep(HeardSoFar(events[..|events| - 1]), HeardSoFar(events), b);
    }
  }

  /** The boot on the robot row is the one begun last. */
  lemma {:induction false} BootFollowsHistory(events: seq<Event>)
    requires NamedEvents(events)
    ensures SysAfter(events).vehicle.bootId == CurrentBoot(events)
    decreases |events|
  {
    if events != [] {
      var n := |events| - 1;
      forall i: nat | i <= n
        ensures SysAfter(events[..i]).vehicle.bootId == CurrentBoot(events[..i])
      {
        BootFollowsHistory(events[..i]);
      }
      BootStep(events);
    }
  }

  lemma {:induction false} BootStep(events: seq<Event>)
    requires NamedEvents(events) && events != []
    requires forall i: nat :: i < |events| ==> SysAfter(events[..i]).vehicle.bootId == CurrentBoot(events[..i])
    ensures SysAfter(events).vehicle.bootId == CurrentBoot(events)
  {
    var n := |events| - 1;
    if events[n].Heard? && BootOf(events[n].message).Some? {
      var b := BootOf(events[n].message).value;
      AdmitsSoFar(events[..n], b, AttemptOf(events[n].message, true)[0].kind);
      CurrentBefore(events, b);
    }
  }

  /** Let in by the rows is let in by what was current. */
  lemma {:induction false} AdmitsSoFar(events: seq<Event>, b: BootId, kind: Kind)
    requires NamedEvents(events)
    ensures var v := SysAfter(events).vehicle;
      Admits(v, b, kind) <==>
        v.bootId == Some(b) || (kind in {Availability, Heartbeat, Capabilities} && !WasCurrent(events, b))
  {
    RowsSoFar(events);
    HeardWasCurrent(events, b);
    AdmitsByHistory(SysAfter(events).vehicle, HeardSoFar(events), b, kind);
  }

  lemma {:induction false} CurrentBefore(events: seq<Event>, b: BootId)
    requires events != []
    requires forall i: nat :: i < |events| ==> SysAfter(events[..i]).vehicle.bootId == CurrentBoot(events[..i])
    ensures WasCurrent(events[..|events| - 1], b) <==>
      exists i: nat :: i <= |events| - 1 && CurrentBoot(events[..i]) == Some(b)
  {
    var n := |events| - 1;
    if i: nat :| CurrentAt(events[..n], i, b) {
      CurrentInPrefix(events, n, i, b);
      assert CurrentBoot(events[..i]) == Some(b);
    }
    if i: nat :| i <= n && CurrentBoot(events[..i]) == Some(b) {
      CurrentInPrefix(events, n, i, b);
      assert CurrentAt(events[..n], i, b);
    }
  }

  // --- the profile and the stops -----------------------------------------------------------

  /** The event makes the profile the read-only adapter's: by hand, or by a message on record through the adapter. */
  predicate MakesReadOnly(events: seq<Event>, i: nat) {
    && i < |events|
    && match events[i]
       case SourceKindSet(readOnly) => readOnly
       case Heard(m, commits, adapter) =>
         && commits && LatestCache.LetIn(SysAfter(events[..i]).vehicle, m, true)
         && (adapter || m.CompatOdom? || m.CompatAvailability? || m.CompatOther?)
       case _ => false
  }

  predicate GivesBack(e: Event) { e == SourceKindSet(false) }

  ghost predicate MadeReadOnly(events: seq<Event>) {
    exists i: nat :: MakesReadOnly(events, i) && forall j :: i < j < |events| ==> !GivesBack(events[j])
  }

  lemma {:induction false} MadeReadOnlyMore(events: seq<Event>)
    requires events != []
    ensures var n := |events| - 1;
      MadeReadOnly(events) <==>
        MakesReadOnly(events, n) || (MadeReadOnly(events[..n]) && !GivesBack(events[n]))
  {
    var n := |events| - 1;
    forall i: nat | i < n
      ensures MakesReadOnly(events[..n], i) == MakesReadOnly(events, i)
    {
      assert events[..n][..i] == events[..i];
    }
    if MadeReadOnly(events) && !MakesReadOnly(events, n) {
      var i: nat :| MakesReadOnly(events, i) && forall j :: i < j < |events| ==> !GivesBack(events[j]);
      assert MakesReadOnly(events[..n], i);
    }
    if MadeReadOnly(events[..n]) && !GivesBack(events[n]) {
      var i: nat :| MakesReadOnly(events[..n], i) && forall j :: i < j < n ==> !GivesBack(events[..n][j]);
      assert MakesReadOnly(events, i);
      assert forall j :: i < j < n ==> events[..n][j] == events[j];
    }
  }

  /** The profile is the adapter's exactly if something made it so and nothing gave it back since. */
  lemma {:induction false} ReadOnlyExactly(events: seq<Event>)
    ensures SysAfter(events).readOnly <==> MadeReadOnly(events)
  {
    if events != [] {
      ReadOnlyExactly(events[..|events| - 1]);
      MadeReadOnlyMore(events);
    }
  }

  /** Stops that could be commanded: the boot is known, and the vehicle not read-only. */
  predicate Commanded(events: seq<Event>, i: nat) {
    && i < |events| && events[i].StopRequested?
    && SysAfter(events[..i]).vehicle.bootId !in {None, Some("")} && !SysAfter(events[..i]).readOnly
  }

  function CommandedStops(events: seq<Event>): nat {
    if events == [] then 0
    else CommandedStops(events[..|events| - 1]) + if Commanded(events, |events| - 1) then 1 else 0
  }

  /** Every stop that could be commanded has its row, and there are no others. */
  lemma {:induction false} RowsAreCommands(events: seq<Event>)
    ensures |SysAfter(events).rows| == CommandedStops(events)
  {
    if events != [] {
      RowsAreCommands(events[..|events| - 1]);
    }
  }
}
