/**
 The verdict of the ingress gate on a message, from the history of verdicts alone: which
 message ids, sequence numbers and boots were taken up before, and when.
*/
module IngressHistory {
  import opened Wrappers
  import BootSessions
  import opened BootHistory
  import opened Ingress

  /** Nothing seen yet; the vehicles that are registered have never been heard. */
  predicate Empty(s: Store) {
    && s.dedup == map[] && s.pending == map[] && s.lastSeq == map[]
    && forall v :: v in s.vehicles ==> s.vehicles[v] == BootSessions.NEW_VEHICLE
  }

  // --- message ids -------------------------------------------------------------------------

  /** How long a message id is remembered, in microseconds. */
  function Lifetime(kind: BootSessions.Kind): int {
    match kind
    case Location => 120_000_000
    case Sensor => 120_000_000
    case Heartbeat => 120_000_000
    case Status => 600_000_000
    case Capabilities => 86_400_000_000
    case Alarm => 86_400_000_000
    case CommandAck => 86_400_000_000
    case TaskStatus => 86_400_000_000
    case Availability => 0
  }

  /** The verdict on event j was recorded under its message id. */
  predicate Recorded(s: Store, events: seq<Event>, j: nat)
    requires j < |events|
  {
    var outcome := OutcomeAt(s, events, j);
    outcome == OutOfOrder || (outcome in {Refused, Committed} && events[j].fault != DiesAfterCommit)
  }

  /** The process died over event j, before it could take its in-flight mark away. */
  predicate LeftInFlight(s: Store, events: seq<Event>, j: nat)
    requires j < |events|
  {
    var outcome := OutcomeAt(s, events, j);
    || (outcome == Aborted && events[j].fault == DiesBeforeCommit)
    || (outcome in {Refused, Committed} && events[j].fault == DiesAfterCommit)
  }

  /** Some event before k recorded the message id for longer than now. */
  ghost predicate IdKept(s: Store, events: seq<Event>, k: nat, id: MessageId, now: int) {
    exists j: nat :: j < k && j < |events| && KeepsId(s, events, j, id, now)
  }

  predicate KeepsId(s: Store, events: seq<Event>, j: nat, id: MessageId, now: int) {
    && j < |events| && events[j].m.id == id && Recorded(s, events, j)
    && now < events[j].now + Lifetime(events[j].m.kind)
  }

  ghost predicate IdInFlight(s: Store, events: seq<Event>, k: nat, id: MessageId, now: int) {
    exists j: nat :: j < k && j < |events| && KeepsFlight(s, events, j, id, now)
  }

  predicate KeepsFlight(s: Store, events: seq<Event>, j: nat, id: MessageId, now: int) {
    j < |events| && events[j].m.id == id && LeftInFlight(s, events, j) && now < events[j].now + 30_000_000
  }

  ghost predicate SeenBefore(s: Store, events: seq<Event>, i: nat)
    requires i < |events|
  {
    var Event(now, m, _) := events[i];
    (m.kind != BootSessions.Availability && IdKept(s, events, i, m.id, now)) || IdInFlight(s, events, i, m.id, now)
  }

  // --- sequence numbers --------------------------------------------------------------------

  predicate KeyedCommit(s: Store, events: seq<Event>, j: nat, stream: Stream) {
    && j < |events| && OutcomeAt(s, events, j) == Committed && events[j].fault != DiesAfterCommit
    && events[j].m.vehicle == stream.vehicle && events[j].m.boot == stream.boot && events[j].m.kind == stream.kind
  }

  /** The last commit of the stream before event k whose keys were written. */
  function LastCommit(s: Store, events: seq<Event>, k: nat, stream: Stream): (j: Option<nat>)
    requires k <= |events|
    ensures j.Some? ==> j.value < k && KeyedCommit(s, events, j.value, stream)
    ensures forall i: nat :: (if j.Some? then j.value else -1) < i < k ==> !KeyedCommit(s, events, i, stream)
  {
    if k == 0 then None
    else if KeyedCommit(s, events, k - 1, stream) then Some(k - 1)
    else LastCommit(s, events, k - 1, stream)
  }

  /** The last commit of the stream was less than a day ago, and of no smaller number. */
  predicate Overtaken(s: Store, events: seq<Event>, i: nat)
    requires i < |events|
  {
    var Event(now, m, _) := events[i];
    var last := LastCommit(s, events, i, Stream(m.vehicle, m.boot, m.kind));
    && m.kind != BootSessions.Availability && last.Some?
    && now < events[last.value].now + 86_400_000_000 && m.seqNo <= events[last.value].m.seqNo
  }

  // --- the store holds that history --------------------------------------------------------

  ghost predicate IdsAgree(s: Store, events: seq<Event>, k: nat, now: int)
    requires k <= |events|
  {
    var r := After(s, events[..k]);
    && (forall id :: (id in r.dedup && now < r.dedup[id]) <==> IdKept(s, events, k, id, now))
    && (forall id :: (id in r.pending && now < r.pending[id]) <==> IdInFlight(s, events, k, id, now))
  }

  /** What one event does to one message id. */
  lemma {:induction false} IdStep(r: Store, e: Event, id: MessageId, now: int)
    requires e.now <= now
    ensures var outcome := Judge(Expire(r, e.now), e.m, e.fault);
      var r' := Processed(Expire(r, e.now), e.m, e.now, e.fault);
      var writes := outcome == OutOfOrder || (outcome in {Refused, Committed} && e.fault != DiesAfterCommit);
      (id in r'.dedup && now < r'.dedup[id]) <==>
        if e.m.id == id && writes && e.m.kind != BootSessions.Availability then now < e.now + Lifetime(e.m.kind)
        else id in r.dedup && now < r.dedup[id]
  {
  }

  lemma {:induction false} FlightStep(r: Store, e: Event, id: MessageId, now: int)
    requires e.now <= now
    ensures var outcome := Judge(Expire(r, e.now), e.m, e.fault);
      var r' := Processed(Expire(r, e.now), e.m, e.now, e.fault);
      var marks := || (outcome == Aborted && e.fault == DiesBeforeCommit)
                   || (outcome in {Refused, Committed} && e.fault == DiesAfterCommit);
      (id in r'.pending && now < r'.pending[id]) <==>
        if e.m.id == id && marks then now < e.now + 30_000_000 else id in r.pending && now < r.pending[id]
  {
  }

  lemma {:induction false} KeptByOneMore(s: Store, events: seq<Event>, k: nat, id: MessageId, now: int)
    requires k < |events|
    ensures IdKept(s, events, k + 1, id, now) <==> IdKept(s, events, k, id, now) || KeepsId(s, events, k, id, now)
    ensures IdInFlight(s, events, k + 1, id, now)
      <==> IdInFlight(s, events, k, id, now) || KeepsFlight(s, events, k, id, now)
  {
  }

  /** What was kept until a later time was kept before. */
  lemma {:induction false} KeptEarlier(s: Store, events: seq<Event>, k: nat, id: MessageId, now: int, later: int)
    requires now <= later
    ensures IdKept(s, events, k, id, later) ==> IdKept(s, events, k, id, now)
    ensures IdInFlight(s, events, k, id, later) ==> IdInFlight(s, events, k, id, now)
  {
    if IdKept(s, events, k, id, later) {
      var j: nat :| j < k && j < |events| && KeepsId(s, events, j, id, later);
      assert KeepsId(s, events, j, id, now);
    }
    if IdInFlight(s, events, k, id, later) {
      var j: nat :| j < k && j < |events| && KeepsFlight(s, events, j, id, later);
      assert KeepsFlight(s, events, j, id, now);
    }
  }

  lemma {:induction false} OneIdFollows(s: Store, events: seq<Event>, k: nat, id: MessageId, now: int)
    requires k < |events| && events[k].now <= now
    requires IdsAgree(s, events, k, now) && IdsAgree(s, events, k, events[k].now)
    ensures var r := After(s, events[..k + 1]);
      && ((id in r.dedup && now < r.dedup[id]) <==> IdKept(s, events, k + 1, id, now))
      && ((id in r.pending && now < r.pending[id]) <==> IdInFlight(s, events, k + 1, id, now))
  {
    var before, e := After(s, events[..k]), events[k];
    OneStep(s, events, k);
    IdStep(before, e, id, now);
    FlightStep(before, e, id, now);
    KeptByOneMore(s, events, k, id, now);
    KeptEarlier(s, events, k, id, e.now, now);
    assert OutcomeAt(s, events, k) == Judge(Expire(before, e.now), e.m, e.fault);
  }

  /** The message keys of the store are those of the history. */
  lemma {:induction false} IdsFollow(s: Store, events: seq<Event>, k: nat, now: int)
    requires Empty(s) && Clocked(events) && k <= |events|
    requires forall j :: 0 <= j < k ==> events[j].now <= now
    ensures IdsAgree(s, events, k, now)
    decreases k
  {
    if k == 0 {
      assert events[..0] == [];
    } else {
      IdsFollow(s, events, k - 1, now);
      IdsFollow(s, events, k - 1, events[k - 1].now);
      forall id
        ensures var r := After(s, events[..k]);
          && ((id in r.dedup && now < r.dedup[id]) <==> IdKept(s, events, k, id, now))
          && ((id in r.pending && now < r.pending[id]) <==> IdInFlight(s, events, k, id, now))
      {
        OneIdFollows(s, events, k - 1, id, now);
      }
    }
  }

  predicate PositionAgrees(s: Store, events: seq<Event>, k: nat, stream: Stream, now: int)
    requires k <= |events|
  {
    var r, last := After(s, events[..k]), LastCommit(s, events, k, stream);
    && ((stream in r.lastSeq && now < r.lastSeq[stream].until)
        <==> last.Some? && now < events[last.value].now + 86_400_000_000)
    && (stream in r.lastSeq && now < r.lastSeq[stream].until ==>
         r.lastSeq[stream].seqNo == events[last.value].m.seqNo)
  }

  lemma {:induction false} PositionStep(r: Store, e: Event, stream: Stream, now: int)
    requires e.now <= now
    ensures var r' := Processed(Expire(r, e.now), e.m, e.now, e.fault);
      var commits := Judge(Expire(r, e.now), e.m, e.fault) == Committed && e.fault != DiesAfterCommit;
      if commits && StreamOf(e.m) == stream
      then stream in r'.lastSeq && r'.lastSeq[stream] == Held(e.m.seqNo, e.now + 86_400_000_000)
      else && ((stream in r'.lastSeq && now < r'.lastSeq[stream].until)
               <==> stream in r.lastSeq && now < r.lastSeq[stream].until)
           && (stream in r'.lastSeq && now < r'.lastSeq[stream].until ==> r'.lastSeq[stream] == r.lastSeq[stream])
  {
  }

  lemma {:induction false} NoPositionYet(s: Store, events: seq<Event>, stream: Stream, now: int)
    requires Empty(s)
    ensures PositionAgrees(s, events, 0, stream, now)
  {
    assert events[..0] == [];
  }

  lemma {:induction false} PositionFollows(s: Store, events: seq<Event>, k: nat, stream: Stream, now: int)
    requires Empty(s) && k <= |events|
    requires forall j :: 0 <= j < k ==> events[j].now <= now
    ensures PositionAgrees(s, events, k, stream, now)
    decreases k
  {
    if k == 0 {
      NoPositionYet(s, events, stream, now);
    } else {
      PositionFollows(s, events, k - 1, stream, now);
      OnePositionMore(s, events, k - 1, stream, now);
    }
  }

  lemma {:induction false} OnePositionMore(s: Store, events: seq<Event>, k: nat, stream: Stream, now: int)
    requires k < |events| && events[k].now <= now && PositionAgrees(s, events, k, stream, now)
    ensures PositionAgrees(s, events, k + 1, stream, now)
  {
    OneStep(s, events, k);
    PositionStep(After(s, events[..k]), events[k], stream, now);
  }

  // --- boots -------------------------------------------------------------------------------

  /** The commits of one vehicle so far, as the attempts of it that were heard. */
  function CommitsOf(s: Store, events: seq<Event>, k: nat, vehicle: VehicleId): seq<BootSessions.Attempt>
    requires k <= |events|
  {
    if k == 0 then []
    else
      var e := events[k - 1];
      CommitsOf(s, events, k - 1, vehicle)
      + if e.m.vehicle == vehicle && OutcomeAt(s, events, k - 1) == Committed
        then [BootSessions.Attempt(e.m.boot, e.m.kind, e.now, true)] else []
  }

  lemma {:induction false} HeardOneMore(before: seq<BootSessions.Attempt>, a: BootSessions.Attempt)
    ensures Heard(before + [a]) ==
      if a.commits && BootSessions.Admits(BootSessions.After(before), a.boot, a.kind) then Heard(before) + [a]
      else Heard(before)
  {
    assert (before + [a])[..|before|] == before;
  }

  function AttemptOf(s: Store, events: seq<Event>, k: nat): BootSessions.Attempt
    requires k < |events|
  {
    BootSessions.Attempt(events[k].m.boot, events[k].m.kind, events[k].now, OutcomeAt(s, events, k) == Committed)
  }

  lemma {:induction false} AttemptsOneMore(s: Store, events: seq<Event>, k: nat, vehicle: VehicleId)
    requires k < |events|
    ensures AttemptsOf(s, events[..k + 1], vehicle) ==
      if events[k].m.vehicle == vehicle then AttemptsOf(s, events[..k], vehicle) + [AttemptOf(s, events, k)]
      else AttemptsOf(s, events[..k], vehicle)
  {
    assert events[..k + 1][..k] == events[..k];
  }

  lemma {:induction false} CommitsOneMore(s: Store, events: seq<Event>, k: nat, vehicle: VehicleId)
    requires k < |events|
    ensures CommitsOf(s, events, k + 1, vehicle) ==
      if events[k].m.vehicle == vehicle && AttemptOf(s, events, k).commits
      then CommitsOf(s, events, k, vehicle) + [AttemptOf(s, events, k)] else CommitsOf(s, events, k, vehicle)
  {
  }

  lemma {:induction false} HeardIsCommit(s: Store, events: seq<Event>, k: nat)
    requires k < |events| && Empty(s) && events[k].m.vehicle in s.vehicles
    requires AttemptOf(s, events, k).commits
    ensures var e := events[k];
      BootSessions.Admits(BootSessions.After(AttemptsOf(s, events[..k], e.m.vehicle)), e.m.boot, e.m.kind)
  {
    VehicleFollowsAttempts(s, events[..k], events[k].m.vehicle);
    CommitIsAdmitted(After(s, events[..k]), events[k], events[k].m.vehicle);
  }

  predicate HeardAgrees(s: Store, events: seq<Event>, k: nat, vehicle: VehicleId)
    requires k <= |events|
  {
    Heard(AttemptsOf(s, events[..k], vehicle)) == CommitsOf(s, events, k, vehicle)
  }

  lemma {:induction false} HeardOneCommitMore(s: Store, events: seq<Event>, k: nat, vehicle: VehicleId)
    requires Empty(s) && vehicle in s.vehicles && k < |events| && HeardAgrees(s, events, k, vehicle)
    ensures HeardAgrees(s, events, k + 1, vehicle)
  {
    AttemptsOneMore(s, events, k, vehicle);
    CommitsOneMore(s, events, k, vehicle);
    if events[k].m.vehicle == vehicle {
      HeardOneMore(AttemptsOf(s, events[..k], vehicle), AttemptOf(s, events, k));
      if AttemptOf(s, events, k).commits {
        HeardIsCommit(s, events, k);
      }
    }
  }

  lemma {:induction false} NothingHeardYet(s: Store, events: seq<Event>, vehicle: VehicleId)
    ensures HeardAgrees(s, events, 0, vehicle)
  {
    assert events[..0] == [];
  }

  /** The attempts of a vehicle that are heard are its commits. */
  lemma {:induction false} HeardAreCommits(s: Store, events: seq<Event>, k: nat, vehicle: VehicleId)
    requires Empty(s) && vehicle in s.vehicles && k <= |events|
    ensures HeardAgrees(s, events, k, vehicle)
    decreases k
  {
    if k == 0 {
      NothingHeardYet(s, events, vehicle);
    } else {
      HeardAreCommits(s, events, k - 1, vehicle);
      HeardOneCommitMore(s, events, k - 1, vehicle);
    }
  }

  /** Only a message that is let in commits. */
  lemma {:induction false} CommitIsAdmitted(r: Store, e: Event, vehicle: VehicleId)
    requires vehicle in r.vehicles && e.m.vehicle == vehicle
    requires Judge(Expire(r, e.now), e.m, e.fault) == Committed
    ensures BootSessions.Admits(r.vehicles[vehicle], e.m.boot, e.m.kind)
  {
  }

  lemma {:induction false} StepRegistersNone(r: Store, e: Event, vehicle: VehicleId)
    requires vehicle !in r.vehicles
    ensures vehicle !in Processed(Expire(r, e.now), e.m, e.now, e.fault).vehicles
  {
  }

  lemma {:induction false} StillUnregistered(s: Store, events: seq<Event>, vehicle: VehicleId)
    requires vehicle !in s.vehicles
    ensures vehicle !in After(s, events).vehicles
    decreases |events|
  {
    if events != [] {
      var n := |events| - 1;
      StillUnregistered(s, events[..n], vehicle);
      StepRegistersNone(After(s, events[..n]), events[n], vehicle);
    }
  }

  /** A registered vehicle's message whose boot was heard last, or begins a new epoch. */
  ghost predicate Welcome(s: Store, events: seq<Event>, i: nat)
    requires i < |events|
  {
    var m := events[i].m;
    m.vehicle in s.vehicles && MayCome(CommitsOf(s, events, i, m.vehicle), m.boot, m.kind)
  }

  lemma {:induction false} LetInIsWelcome(s: Store, events: seq<Event>, i: nat)
    requires Empty(s) && i < |events| && AllNamed(events)
    ensures LetIn(After(s, events[..i]), events[i].m) <==> Welcome(s, events, i)
  {
    var m := events[i].m;
    if m.vehicle in s.vehicles {
      var attempts := AttemptsOf(s, events[..i], m.vehicle);
      VehicleFollowsAttempts(s, events[..i], m.vehicle);
      NamedAttempts(s, events[..i], m.vehicle);
      AdmittedExactly(attempts, m.boot, m.kind);
      HeardAreCommits(s, events, i, m.vehicle);
    } else {
      StillUnregistered(s, events[..i], m.vehicle);
    }
  }

  lemma {:induction false} GateSeesHistory(s: Store, events: seq<Event>, i: nat)
    requires Empty(s) && Clocked(events) && i < |events|
    ensures var r := Expire(After(s, events[..i]), events[i].now);
      && (Seen(r, events[i].m) <==> SeenBefore(s, events, i))
      && (Behind(r, events[i].m) <==> Overtaken(s, events, i))
  {
    var Event(now, m, _) := events[i];
    IdsFollow(s, events, i, now);
    PositionFollows(s, events, i, StreamOf(m), now);
  }

  /** No empty boot ids, as `BootSessions.NeverRecursExactly` asks. */
  ghost predicate AllNamed(events: seq<Event>) { forall k :: 0 <= k < |events| ==> events[k].m.boot != "" }

  /**
   The gate, both ways, in any run from an empty store, under any faults: a message is a
   duplicate exactly if its id is still kept or in flight, out of order exactly if the last
   commit of its stream is less than a day old and of no smaller number, and of the others,
   unless they fail, exactly those are committed that the vehicle's boot history lets in.
  */
  lemma {:induction false} VerdictExactly(s: Store, events: seq<Event>, i: nat)
    requires Empty(s) && Clocked(events) && i < |events|
    ensures var outcome, fault := OutcomeAt(s, events, i), events[i].fault;
      && (outcome == Duplicate <==> SeenBefore(s, events, i))
      && (outcome == OutOfOrder <==>
           !SeenBefore(s, events, i) && fault != DiesBeforeCommit && Overtaken(s, events, i))
      && (outcome == Aborted <==>
           !SeenBefore(s, events, i) && (fault == DiesBeforeCommit || (fault == DbError && !Overtaken(s, events, i))))
      && (outcome in {Committed, Refused} <==>
           !SeenBefore(s, events, i) && !Overtaken(s, events, i) && fault in {NoFault, DiesAfterCommit})
      && (AllNamed(events) && outcome in {Committed, Refused} ==> (outcome == Committed <==> Welcome(s, events, i)))
  {
    GateSeesHistory(s, events, i);
    if AllNamed(events) {
      LetInIsWelcome(s, events, i);
    }
  }
}
