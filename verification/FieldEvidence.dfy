/**
 Stop operations, boot epochs and the cached reading of one vehicle, interleaved in any
 order, and the field-verification rule.
*/
module FieldEvidence {
  import opened Wrappers
  import opened BootSessions
  import opened StopOperations
  import opened LatestCache
  import opened StopTelemetry
  import StopRuns

  /**
   One vehicle: its boot rows, whether its profile is that of the read-only ROS adapter, its
   cached reading, and its stops.
  */
  datatype Sys = Sys(vehicle: Vehicle, readOnly: bool, cache: Cache, rows: seq<Op>)

  /** What a pass reads of a row's commands and task; the reading it takes from the cache. */
  datatype Commands = Commands(stop: Option<CommandRow>, cancel: Option<CommandRow>, taskCancelled: bool)

  /** SourceKindSet is the migration of a vehicle between the adapter and its own MQTT link. */
  datatype Event =
    | Heard(message: Message, commits: bool, adapter: bool)
    | SourceKindSet(readOnly: bool)
    | StopRequested(mission: Mission, t0: int, t1: int, t2: int)
    | Reconciled(now: int, commands: nat -> Commands)

  const NEW_SYS := Sys(NEW_VEHICLE, false, EMPTY_CACHE, [])

  function FactsOf(c: Commands, latest: Latest): Facts { Facts(c.stop, c.cancel, c.taskCancelled, latest) }

  function ReconcileRows(rows: seq<Op>, now: int, commands: nat -> Commands, latest: Latest): (r: seq<Op>)
    ensures |r| == |rows| && forall i :: 0 <= i < |r| ==> r[i] == Step(rows[i], now, FactsOf(commands(i), latest))
  {
    seq(|rows|, i requires 0 <= i < |rows| => Step(rows[i], now, FactsOf(commands(i), latest)))
  }

  /** The boot rows after a message. */
  function Attempts(v: Vehicle, m: Message, commits: bool): Vehicle {
    if AttemptOf(m, commits) == [] then v else Attempted(v, AttemptOf(m, commits)[0])
  }

  /** Does a message mark the vehicle's profile as the adapter's? */
  predicate MarksReadOnly(v: Vehicle, m: Message, commits: bool, adapter: bool) {
    commits && LetIn(v, m, commits) && (adapter || !FromVehicle(m))
  }

  /** A stop cannot be commanded, so creates no row, while the boot session is unknown or the profile is read-only. */
  function SysStep(s: Sys, e: Event): Sys {
    match e
    case Heard(m, commits, adapter) =>
      s.(vehicle := Attempts(s.vehicle, m, commits),
         readOnly := s.readOnly || MarksReadOnly(s.vehicle, m, commits, adapter),
         cache := if LetIn(s.vehicle, m, commits) then Written(s.cache, m) else s.cache)
    case SourceKindSet(readOnly) => s.(readOnly := readOnly)
    case StopRequested(mission, t0, t1, t2) =>
      if !HasBoot(s.vehicle) || s.readOnly then s
      else s.(rows := s.rows + [Requested(mission, s.vehicle.bootId, t0, t1, t2)])
    case Reconciled(now, commands) => s.(rows := ReconcileRows(s.rows, now, commands, s.cache.latest))
  }

  function SysAfter(events: seq<Event>): Sys {
    if events == [] then NEW_SYS else SysStep(SysAfter(events[..|events| - 1]), events[|events| - 1])
  }

  // --- the rule ----------------------------------------------------------------------------

  predicate Qualifies(op: Op) { op.motion == StationaryConfirmed && op.frames.count >= 5 }

  /** ORDER BY terminal_at DESC NULLS LAST: a may come before b. */
  predicate NotAfter(a: Op, b: Op) {
    b.terminalAt.None? || (a.terminalAt.Some? && a.terminalAt.value >= b.terminalAt.value)
  }

  predicate CurrentEvidence(op: Op, v: Vehicle) { HasBoot(v) && op.bootSnapshot == v.bootId }

  // --- where a row comes from --------------------------------------------------------------

  /** The position of the request that created row k. */
  function Birth(events: seq<Event>, k: nat): (i: nat)
    requires k < |SysAfter(events).rows|
    ensures i < |events| && k < |SysAfter(events[..i + 1]).rows|
  {
    var before := events[..|events| - 1];
    if k < |SysAfter(before).rows| then
      var i := Birth(before, k);
      assert before[..i + 1] == events[..i + 1];
      i
    else
      assert events[..|events|] == events;
      |events| - 1
  }

  function RequestOf(events: seq<Event>, k: nat): Op
    requires k < |SysAfter(events).rows|
  {
    SysAfter(events[..Birth(events, k) + 1]).rows[k]
  }

  /** What a pass over row k at event i reads. */
  function PassAt(events: seq<Event>, k: nat, i: nat): StopRuns.Pass
    requires i < |events| && events[i].Reconciled?
  {
    StopRuns.Pass(events[i].now, FactsOf(events[i].commands(k), SysAfter(events[..i]).cache.latest))
  }

  /** The reconcile passes row k went through. */
  function PassesOf(events: seq<Event>, k: nat): seq<StopRuns.Pass>
    requires k < |SysAfter(events).rows|
  {
    var n := |events| - 1;
    if k < |SysAfter(events[..n]).rows| then
      PassesOf(events[..n], k) + (if events[n].Reconciled? then [PassAt(events, k, n)] else [])
    else []
  }

  /** A row that was there before the last event keeps its birth; the last event at most reconciled it. */
  lemma OlderRow(events: seq<Event>, k: nat)
    requires events != [] && k < |SysAfter(events[..|events| - 1]).rows|
    ensures var n := |events| - 1;
      var before, i := events[..n], Birth(events, k);
      && k < |SysAfter(events).rows| && i == Birth(before, k) && i < n && before[..i] == events[..i]
      && RequestOf(events, k) == RequestOf(before, k)
      && SysAfter(events).rows[k]
         == if events[n].Reconciled?
            then Step(SysAfter(before).rows[k], events[n].now, PassAt(events, k, n).facts)
            else SysAfter(before).rows[k]
  {
    var before, i := events[..|events| - 1], Birth(events, k);
    assert before[..i + 1] == events[..i + 1] && before[..i] == events[..i];
  }

  /** The row is what its passes made of its request. */
  lemma {:induction false} RowIsRun(events: seq<Event>, k: nat)
    requires k < |SysAfter(events).rows|
    ensures BornByRequest(events, k)
    ensures SysAfter(events).rows[k] == StopRuns.Run(RequestOf(events, k), PassesOf(events, k))
  {
    var n := |events| - 1;
    var before := events[..n];
    if k < |SysAfter(before).rows| {
      RowIsRun(before, k);
      OlderRow(events, k);
      var passes := PassesOf(events, k);
      if events[n].Reconciled? {
        assert passes[..|passes| - 1] == PassesOf(before, k);
      } else {
        assert passes == PassesOf(before, k);
      }
    } else {
      assert events[..n + 1] == events;
    }
  }

  /** The row was created by a stop request, while the vehicle's boot was known, and carries that boot. */
  ghost predicate BornByRequest(events: seq<Event>, k: nat)
    requires k < |SysAfter(events).rows|
  {
    var i := Birth(events, k);
    var born := SysAfter(events[..i]);
    && events[i].StopRequested? && HasBoot(born.vehicle) && !born.readOnly
    && k == |born.rows|
    && var StopRequested(mission, t0, t1, t2) := events[i];
       RequestOf(events, k) == Requested(mission, born.vehicle.bootId, t0, t1, t2)
  }

  /** When the stop of row k was requested. */
  function RequestTime(events: seq<Event>, k: nat): int
    requires k < |SysAfter(events).rows|
  {
    RowIsRun(events, k);
    events[Birth(events, k)].t0
  }

  /** The attempts a run of events makes on the boot rows. */
  function HeardIn(events: seq<Event>): seq<Attempt> {
    if events == [] then []
    else
      var n := |events| - 1;
      HeardIn(events[..n]) + if events[n].Heard? then AttemptOf(events[n].message, events[n].commits) else []
  }

  lemma {:induction false} VehicleIsHeard(events: seq<Event>)
    ensures SysAfter(events).vehicle == BootSessions.After(HeardIn(events))
  {
    if events != [] {
      var n := |events| - 1;
      VehicleIsHeard(events[..n]);
      var heard := HeardIn(events);
      if events[n].Heard? && AttemptOf(events[n].message, events[n].commits) != [] {
        assert heard[..|heard| - 1] == HeardIn(events[..n]);
      } else {
        assert heard == HeardIn(events[..n]);
      }
    }
  }

  lemma {:induction false} HeardGrows(events: seq<Event>, i: nat)
    requires i <= |events|
    ensures HeardIn(events[..i]) <= HeardIn(events)
  {
    if i == |events| {
      assert events[..i] == events;
    } else {
      assert events[..|events| - 1][..i] == events[..i];
      HeardGrows(events[..|events| - 1], i);
    }
  }

  ghost predicate NamedEvents(events: seq<Event>) {
    forall i :: 0 <= i < |events| && events[i].Heard? ==> Named(AttemptOf(events[i].message, events[i].commits))
  }

  lemma {:induction false} HeardIsNamed(events: seq<Event>)
    requires NamedEvents(events)
    ensures Named(HeardIn(events))
  {
    if events != [] {
      HeardIsNamed(events[..|events| - 1]);
    }
  }

  /** The vehicle after some of the events is the vehicle after some of the attempts. */
  lemma HeardPrefix(events: seq<Event>, m: nat)
    requires m <= |events|
    ensures var n := |HeardIn(events[..m])|;
      n <= |HeardIn(events)| && SysAfter(events[..m]).vehicle == BootSessions.After(HeardIn(events)[..n])
  {
    VehicleIsHeard(events[..m]);
    HeardGrows(events, m);
    assert HeardIn(events)[..|HeardIn(events[..m])|] == HeardIn(events[..m]);
  }

  lemma HeardInOrder(events: seq<Event>, i: nat, m: nat)
    requires i <= m <= |events|
    ensures |HeardIn(events[..i])| <= |HeardIn(events[..m])|
  {
    assert events[..m][..i] == events[..i];
    HeardGrows(events[..m], i);
  }

  /** A boot seen at some moment and again at the end was there all the time in between. */
  lemma {:induction false} BootHeldSince(events: seq<Event>, i: nat, m: nat)
    requires NamedEvents(events) && i <= m <= |events| && HasBoot(SysAfter(events).vehicle)
    requires SysAfter(events[..i]).vehicle.bootId == SysAfter(events).vehicle.bootId
    ensures SysAfter(events[..m]).vehicle.bootId == SysAfter(events).vehicle.bootId
  {
    HeardIsNamed(events);
    VehicleIsHeard(events);
    HeardPrefix(events, i);
    HeardPrefix(events, m);
    HeardInOrder(events, i, m);
    SameBootThroughout(HeardIn(events), |HeardIn(events[..i])|, |HeardIn(events[..m])|,
      SysAfter(events).vehicle.bootId.value);
  }

  ghost predicate SameBootSince(events: seq<Event>, i: nat) {
    forall m :: i <= m <= |events| ==> SysAfter(events[..m]).vehicle.bootId == SysAfter(events).vehicle.bootId
  }

  /**
   What field verification is to mean: the vehicle has been on its boot at every moment since
   the stop was requested, and the passes made since then read five frames of stillness.
  */
  ghost predicate Proven(events: seq<Event>, k: nat)
    requires k < |SysAfter(events).rows|
  {
    SameBootSince(events, Birth(events, k)) && StopRuns.StoodStill(RequestOf(events, k), PassesOf(events, k))
  }

  /** Stop evidence with the current boot id is never from an older boot, nor without its five frames. */
  lemma {:induction false} EvidenceIsCurrent(events: seq<Event>, k: nat)
    requires NamedEvents(events)
    requires k < |SysAfter(events).rows|
    requires Qualifies(SysAfter(events).rows[k])
    requires CurrentEvidence(SysAfter(events).rows[k], SysAfter(events).vehicle)
    ensures Proven(events, k)
  {
    QualifiedStoodStill(events, k);
    RowIsRun(events, k);
    var i := Birth(events, k);
    StopRuns.RunKeepsConsistent(RequestOf(events, k), events[i].mission, PassesOf(events, k));
    forall m | i <= m <= |events|
      ensures SysAfter(events[..m]).vehicle.bootId == SysAfter(events).vehicle.bootId
    {
      BootHeldSince(events, i, m);
    }
  }

  lemma {:induction false} QualifiedStoodStill(events: seq<Event>, k: nat)
    requires k < |SysAfter(events).rows| && Qualifies(SysAfter(events).rows[k])
    ensures StopRuns.StoodStill(RequestOf(events, k), PassesOf(events, k))
  {
    RowIsRun(events, k);
    StopRuns.ConfirmedHasFrames(RequestOf(events, k), events[Birth(events, k)].mission, PassesOf(events, k));
  }

  ghost predicate CameFrom(rows: seq<Op>, v: Vehicle, events: seq<Event>) {
    NamedEvents(events) && SysAfter(events).vehicle == v && SysAfter(events).rows == rows
  }

  lemma AlwaysProven(rows: seq<Op>, v: Vehicle, k: nat)
    requires k < |rows| && Qualifies(rows[k]) && CurrentEvidence(rows[k], v)
    ensures forall events :: CameFrom(rows, v, events) ==> Proven(events, k)
  {
    forall events | CameFrom(rows, v, events)
      ensures Proven(events, k)
    {
      EvidenceIsCurrent(events, k);
    }
  }

  predicate Stands(op: Op) { op.motion == StationaryConfirmed && op.frames.count >= 5 }

  /** A confirmed stop that ended no earlier than any other confirmed one; those that have not ended come last. */
  ghost predicate LatestToStand(rows: seq<Op>, k: nat) {
    && k < |rows| && Stands(rows[k])
    && forall j :: 0 <= j < |rows| && Stands(rows[j]) && rows[j].terminalAt.Some? ==>
         rows[k].terminalAt.Some? && rows[j].terminalAt.value <= rows[k].terminalAt.value
  }

  /** _stop_field_verified: the latest qualifying row must carry the current boot. If it does, the evidence is sound. */
  method StopFieldVerified(rows: seq<Op>, v: Vehicle) returns (verified: bool, picked: Option<nat>)
    ensures picked.Some? ==> LatestToStand(rows, picked.value)
    ensures picked.None? ==> forall j :: 0 <= j < |rows| ==> !Stands(rows[j])
    ensures verified <==>
      picked.Some? && v.bootId !in {None, Some("")} && rows[picked.value].bootSnapshot == v.bootId
    ensures verified ==> forall events :: CameFrom(rows, v, events) ==> Proven(events, picked.value)
  {
    picked := None;
    for i := 0 to |rows|
      invariant picked.Some? ==> picked.value < i && Qualifies(rows[picked.value])
      invariant picked.Some? ==> forall j :: 0 <= j < i && Qualifies(rows[j]) ==> NotAfter(rows[picked.value], rows[j])
      invariant picked.None? ==> forall j :: 0 <= j < i ==> !Qualifies(rows[j])
    {
      if Qualifies(rows[i]) && (picked.None? || !NotAfter(rows[picked.value], rows[i])) {
        picked := Some(i);
      }
    }
    verified := picked.Some? && HasBoot(v) && rows[picked.value].bootSnapshot == v.bootId;
    if verified {
      AlwaysProven(rows, v, picked.value);
    }
  }
}
