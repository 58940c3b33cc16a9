/**
 The admission gate of the MQTT ingress: in-flight and committed message keys, the
 last sequence number per stream, and the boot rows. Keys live in a store that
 drops them when they expire. Times are microseconds.
*/
module Ingress {
  import opened Wrappers
  import opened BootSessions

  type VehicleId = string
  type MessageId = string

  datatype Msg = Msg(vehicle: VehicleId, boot: BootId, kind: Kind, id: MessageId, seqNo: int)

  /** Where processing of a message goes wrong, if anywhere. */
  datatype Fault = NoFault | DbError | DiesBeforeCommit | DiesAfterCommit

  datatype Stream = Stream(vehicle: VehicleId, boot: BootId, kind: Kind)

  datatype Held = Held(seqNo: int, until: int)

  datatype Store = Store(
    dedup: map<MessageId, int>, pending: map<MessageId, int>, lastSeq: map<Stream, Held>,
    vehicles: map<VehicleId, Vehicle>)

  datatype Outcome = Duplicate | OutOfOrder | Aborted | Refused | Committed

  const SECOND := 1_000_000
  const DAY := 86_400 * SECOND

  function DedupTtl(kind: Kind): int {
    match kind
    case Location | Sensor | Heartbeat => 120 * SECOND
    case Status => 600 * SECOND
    case _ => DAY
  }

  function StreamOf(m: Msg): Stream { Stream(m.vehicle, m.boot, m.kind) }

  /** The store as seen at the given time: expired keys are gone. */
  function Expire(s: Store, now: int): Store {
    s.(dedup := map k | k in s.dedup && now < s.dedup[k] :: s.dedup[k],
       pending := map k | k in s.pending && now < s.pending[k] :: s.pending[k],
       lastSeq := map k | k in s.lastSeq && now < s.lastSeq[k].until :: s.lastSeq[k])
  }

  predicate Seen(s: Store, m: Msg) { (m.kind != Availability && m.id in s.dedup) || m.id in s.pending }

  predicate Behind(s: Store, m: Msg) {
    m.kind != Availability && StreamOf(m) in s.lastSeq && m.seqNo <= s.lastSeq[StreamOf(m)].seqNo
  }

  predicate LetIn(s: Store, m: Msg) {
    m.vehicle in s.vehicles && Admits(s.vehicles[m.vehicle], m.boot, m.kind)
  }

  function Holding(s: Store, m: Msg, now: int): Store { s.(pending := s.pending[m.id := now + 30 * SECOND]) }

  /** The rows written by an admitted message. */
  function WithRows(s: Store, m: Msg, now: int): Store {
    if LetIn(s, m) then s.(vehicles := s.vehicles[m.vehicle := Admit(s.vehicles[m.vehicle], m.boot, now)]) else s
  }

  function WithDedup(s: Store, m: Msg, now: int): Store {
    if m.kind == Availability then s else s.(dedup := s.dedup[m.id := now + DedupTtl(m.kind)])
  }

  function WithSeq(s: Store, m: Msg, now: int): Store {
    s.(lastSeq := s.lastSeq[StreamOf(m) := Held(m.seqNo, now + DAY)])
  }

  function Judge(s: Store, m: Msg, fault: Fault): Outcome {
    if Seen(s, m) then Duplicate
    else if fault == DiesBeforeCommit then Aborted
    else if Behind(s, m) then OutOfOrder
    else if fault == DbError then Aborted
    else if LetIn(s, m) then Committed else Refused
  }

  /** process, on a store without expired keys. */
  function Processed(s: Store, m: Msg, now: int, fault: Fault): Store {
    match Judge(s, m, fault)
    case Duplicate => s
    case Aborted => if fault == DbError then s else Holding(s, m, now)
    case OutOfOrder => WithDedup(s, m, now)
    case Refused => if fault == DiesAfterCommit then Holding(s, m, now) else WithDedup(s, m, now)
    case Committed =>
      if fault == DiesAfterCommit then WithRows(Holding(s, m, now), m, now)
      else WithSeq(WithDedup(WithRows(s, m, now), m, now), m, now)
  }

  lemma HoldingUndone(s: Store, m: Msg, now: int)
    requires m.id !in s.pending
    ensures Holding(s, m, now).pending - {m.id} == s.pending
  {
  }

  class IngressService {
    var dedup: map<MessageId, int>
    var pending: map<MessageId, int>
    var lastSeq: map<Stream, Held>
    var vehicles: map<VehicleId, Vehicle>

    function Value(): Store
      reads this
    {
      Store(dedup, pending, lastSeq, vehicles)
    }

    /** The store's own expiry. */
    method Tick(now: int)
      modifies this
      ensures Value() == Expire(old(Value()), now)
    {
      dedup := map k | k in dedup && now < dedup[k] :: dedup[k];
      pending := map k | k in pending && now < pending[k] :: pending[k];
      lastSeq := map k | k in lastSeq && now < lastSeq[k].until :: lastSeq[k];
    }

    /** process, from the duplicate check on. */
    method Process(m: Msg, now: int, fault: Fault) returns (outcome: Outcome)
      modifies this
      ensures outcome == Judge(Expire(old(Value()), now), m, fault)
      ensures Value() == Processed(Expire(old(Value()), now), m, now, fault)
    {
      Tick(now);
      ghost var s := Value();
      if (m.kind != Availability && m.id in dedup) || m.id in pending {
        return Duplicate;
      }
      pending := pending[m.id := now + 30 * SECOND];
      outcome := Handle(m, now, fault, s);
    }

    /** The message is new, and marked as in flight; s is the store without that mark. */
    method Handle(m: Msg, now: int, fault: Fault, ghost s: Store) returns (outcome: Outcome)
      requires !Seen(s, m) && Value() == Holding(s, m, now)
      modifies this
      ensures outcome == Judge(s, m, fault) && Value() == Processed(s, m, now, fault)
    {
      HoldingUndone(s, m, now);
      if fault == DiesBeforeCommit {
        return Aborted;
      }
      var stream := StreamOf(m);
      if m.kind != Availability && stream in lastSeq && m.seqNo <= lastSeq[stream].seqNo {
        dedup := dedup[m.id := now + DedupTtl(m.kind)];
        pending := pending - {m.id};
        return OutOfOrder;
      }
      if fault == DbError {
        pending := pending - {m.id};
        return Aborted;
      }
      outcome := Accept(m, now, fault, s);
    }

    /** The transaction succeeds; the keys follow, unless the process dies. */
    method Accept(m: Msg, now: int, fault: Fault, ghost s: Store) returns (outcome: Outcome)
      requires !Seen(s, m) && !Behind(s, m) && Value() == Holding(s, m, now)
      requires fault == NoFault || fault == DiesAfterCommit
      modifies this
      ensures outcome == Judge(s, m, fault) && Value() == Processed(s, m, now, fault)
    {
      HoldingUndone(s, m, now);
      var accepted := Commit(m, now);
      outcome := if accepted then Committed else Refused;
      if fault == DiesAfterCommit {
        return;
      }
      RecordKeys(m, now, accepted);
    }

    /** The database transaction. */
    method Commit(m: Msg, now: int) returns (accepted: bool)
      modifies this`vehicles
      ensures accepted == old(LetIn(Value(), m))
      ensures Value() == WithRows(old(Value()), m, now)
    {
      accepted := false;
      if m.vehicle in vehicles && Admits(vehicles[m.vehicle], m.boot, m.kind) {
        vehicles := vehicles[m.vehicle := Admit(vehicles[m.vehicle], m.boot, now)];
        accepted := true;
      }
    }

    /** After the database commit: the message key, the stream's position, and the in-flight key. */
    method RecordKeys(m: Msg, now: int, accepted: bool)
      modifies this`dedup, this`lastSeq, this`pending
      ensures dedup == WithDedup(old(Value()), m, now).dedup
      ensures lastSeq == if accepted then WithSeq(old(Value()), m, now).lastSeq else old(lastSeq)
      ensures pending == old(pending) - {m.id}
    {
      if m.kind != Availability {
        dedup := dedup[m.id := now + DedupTtl(m.kind)];
      }
      if accepted {
        lastSeq := lastSeq[StreamOf(m) := Held(m.seqNo, now + DAY)];
      }
      pending := pending - {m.id};
    }
  }

  // --- runs --------------------------------------------------------------------------------

  datatype Event = Event(now: int, m: Msg, fault: Fault)

  function After(s: Store, events: seq<Event>): Store {
    if events == [] then s
    else
      var n := |events| - 1;
      var e := events[n];
      Processed(Expire(After(s, events[..n]), e.now), e.m, e.now, e.fault)
  }

  /** The verdict on event i of a run. */
  function OutcomeAt(s: Store, events: seq<Event>, i: nat): Outcome
    requires i < |events|
  {
    Judge(Expire(After(s, events[..i]), events[i].now), events[i].m, events[i].fault)
  }

  ghost predicate Clocked(events: seq<Event>) {
    forall i, j :: 0 <= i < j < |events| ==> events[i].now <= events[j].now
  }

  /** The stream is known to have reached seqNo, until the given time at least. */
  predicate Reached(s: Store, stream: Stream, seqNo: int, until: int) {
    stream in s.lastSeq && s.lastSeq[stream].seqNo >= seqNo && s.lastSeq[stream].until >= until
  }

  predicate Remembered(s: Store, id: MessageId, until: int) { id in s.dedup && s.dedup[id] >= until }

  /** A commit whose keys are written is known from then on, as a message and as a position. */
  lemma CommitIsKnown(s: Store, e: Event)
    requires Judge(Expire(s, e.now), e.m, e.fault) == Committed && e.fault != DiesAfterCommit
    requires e.m.kind != Availability
    ensures var r := Processed(Expire(s, e.now), e.m, e.now, e.fault);
      Reached(r, StreamOf(e.m), e.m.seqNo, e.now + DAY) && Remembered(r, e.m.id, e.now + DedupTtl(e.m.kind))
  {
  }

  lemma StepKeepsReached(s: Store, e: Event, stream: Stream, seqNo: int, until: int)
    requires Reached(s, stream, seqNo, until) && e.now < until <= e.now + DAY && stream.kind != Availability
    ensures Reached(Processed(Expire(s, e.now), e.m, e.now, e.fault), stream, seqNo, until)
  {
  }

  lemma OneStep(s: Store, events: seq<Event>, k: nat)
    requires k < |events|
    ensures After(s, events[..k + 1])
      == Processed(Expire(After(s, events[..k]), events[k].now), events[k].m, events[k].now, events[k].fault)
  {
    assert events[..k + 1][..k] == events[..k];
  }

  lemma CommitIsKnownAfter(s: Store, events: seq<Event>, i: nat)
    requires i < |events| && OutcomeAt(s, events, i) == Committed && events[i].fault != DiesAfterCommit
    requires events[i].m.kind != Availability
    ensures Reached(After(s, events[..i + 1]), StreamOf(events[i].m), events[i].m.seqNo, events[i].now + DAY)
    ensures Remembered(After(s, events[..i + 1]), events[i].m.id, events[i].now + DedupTtl(events[i].m.kind))
  {
    CommitIsKnown(After(s, events[..i]), events[i]);
    OneStep(s, events, i);
  }

  lemma StillReached(s: Store, events: seq<Event>, k: nat, stream: Stream, seqNo: int, until: int)
    requires k < |events| && Reached(After(s, events[..k]), stream, seqNo, until)
    requires events[k].now < until <= events[k].now + DAY && stream.kind != Availability
    ensures Reached(After(s, events[..k + 1]), stream, seqNo, until)
  {
    StepKeepsReached(After(s, events[..k]), events[k], stream, seqNo, until);
    OneStep(s, events, k);
  }

  lemma StillRemembered(s: Store, events: seq<Event>, k: nat, id: MessageId, until: int)
    requires k < |events| && Remembered(After(s, events[..k]), id, until) && events[k].now < until
    ensures Remembered(After(s, events[..k + 1]), id, until)
  {
    StepKeepsRemembered(After(s, events[..k]), events[k], id, until);
    OneStep(s, events, k);
  }

  lemma {:induction false} ReachedIsKept(
    s: Store, events: seq<Event>, i: nat, k: nat, stream: Stream, seqNo: int, until: int)
    requires i <= k <= |events| && Clocked(events) && stream.kind != Availability
    requires Reached(After(s, events[..i]), stream, seqNo, until)
    requires forall e :: i <= e < k ==> events[e].now < until <= events[e].now + DAY
    ensures Reached(After(s, events[..k]), stream, seqNo, until)
    decreases k
  {
    if k == i {
      assert events[..k] == events[..i];
    } else {
      var n := k - 1;
      ReachedIsKept(s, events, i, n, stream, seqNo, until);
      StillReached(s, events, n, stream, seqNo, until);
      assert events[..n + 1] == events[..k];
    }
  }

  /** Of two messages of one stream committed within a day, the later one has the larger sequence number. */
  lemma SeqsIncreaseWithinDay(s: Store, events: seq<Event>, i: nat, j: nat)
    requires i < j < |events| && Clocked(events) && events[i].fault != DiesAfterCommit
    requires OutcomeAt(s, events, i) == Committed && OutcomeAt(s, events, j) == Committed
    requires StreamOf(events[i].m) == StreamOf(events[j].m) && events[i].m.kind != Availability
    requires events[j].now < events[i].now + DAY
    ensures events[i].m.seqNo < events[j].m.seqNo
  {
    CommitIsKnownAfter(s, events, i);
    ReachedIsKept(s, events, i + 1, j, StreamOf(events[i].m), events[i].m.seqNo, events[i].now + DAY);
  }

  /** Commits of one stream, each but the last with its keys written and followed by the next within a day. */
  ghost predicate CommitChain(s: Store, events: seq<Event>, chain: seq<nat>, stream: Stream) {
    && (forall a :: 0 <= a < |chain| ==> chain[a] < |events| && StreamOf(events[chain[a]].m) == stream)
    && (forall a :: 0 <= a < |chain| ==> OutcomeAt(s, events, chain[a]) == Committed)
    && forall a :: 0 <= a < |chain| - 1 ==> CommitsNext(s, events, chain[a], chain[a + 1])
  }

  predicate CommitsNext(s: Store, events: seq<Event>, k: nat, next: nat) {
    && k < next < |events| && OutcomeAt(s, events, k) == Committed && events[k].fault != DiesAfterCommit
    && events[next].now < events[k].now + DAY
  }

  /**
   Committed sequence numbers of a stream increase for as long as it is never silent for a
   day, under any duplication, reordering, failed transaction or restart in between.
  */
  lemma {:induction false} SeqsIncrease(s: Store, events: seq<Event>, chain: seq<nat>, stream: Stream)
    requires Clocked(events) && stream.kind != Availability
    requires |chain| >= 2 && CommitChain(s, events, chain, stream)
    ensures events[chain[0]].m.seqNo < events[chain[|chain| - 1]].m.seqNo
  {
    assert CommitsNext(s, events, chain[0], chain[0 + 1]);
    SeqsIncreaseWithinDay(s, events, chain[0], chain[1]);
    if |chain| > 2 {
      var rest := chain[1..];
      forall a | 0 <= a < |rest| - 1
        ensures CommitsNext(s, events, rest[a], rest[a + 1])
      {
        assert CommitsNext(s, events, chain[a + 1], chain[a + 1 + 1]);
      }
      SeqsIncrease(s, events, rest, stream);
    }
  }

  /**
   After a silent day it need not: exactly then can a number of the stream that is no larger
   commit next, that of the very same message, say.
  */
  lemma SilentDayExactly(s: Store, first: Event, gap: int)
    requires first.m.kind != Availability && first.fault != DiesAfterCommit && gap >= 0
    requires Judge(Expire(s, first.now), first.m, first.fault) == Committed
    ensures var after := Processed(Expire(s, first.now), first.m, first.now, first.fault);
      (exists m: Msg :: StreamOf(m) == StreamOf(first.m) && m.seqNo <= first.m.seqNo
                        && Judge(Expire(after, first.now + gap), m, NoFault) == Committed)
      <==> gap >= DAY
  {
    var after := Processed(Expire(s, first.now), first.m, first.now, first.fault);
    if gap >= DAY {
      assert first.m.id !in Expire(after, first.now + gap).dedup;
      assert after.vehicles[first.m.vehicle].bootId == Some(first.m.boot);
      assert Judge(Expire(after, first.now + gap), first.m, NoFault) == Committed;
    }
  }

  lemma StepKeepsRemembered(s: Store, e: Event, id: MessageId, until: int)
    requires Remembered(s, id, until) && e.now < until
    ensures Remembered(Processed(Expire(s, e.now), e.m, e.now, e.fault), id, until)
  {
  }

  lemma {:induction false} RememberedIsKept(s: Store, events: seq<Event>, i: nat, k: nat, id: MessageId, until: int)
    requires i <= k <= |events| && Remembered(After(s, events[..i]), id, until)
    requires forall e :: i <= e < k ==> events[e].now < until
    ensures Remembered(After(s, events[..k]), id, until)
    decreases k
  {
    if k > i {
      RememberedIsKept(s, events, i, k - 1, id, until);
      StillRemembered(s, events, k - 1, id, until);
    }
  }

  /** While its key is kept, a committed message id is only ever answered with Duplicate. */
  lemma RepeatsAreDuplicates(s: Store, events: seq<Event>, i: nat, j: nat)
    requires i < j < |events| && Clocked(events) && events[i].fault != DiesAfterCommit
    requires OutcomeAt(s, events, i) == Committed
    requires events[i].m.id == events[j].m.id
    requires events[i].m.kind != Availability && events[j].m.kind != Availability
    requires events[j].now < events[i].now + DedupTtl(events[i].m.kind)
    ensures OutcomeAt(s, events, j) == Duplicate
  {
    CommitIsKnownAfter(s, events, i);
    RememberedIsKept(s, events, i + 1, j, events[i].m.id, events[i].now + DedupTtl(events[i].m.kind));
  }

  /**
   The two gates together: short-lived message keys do not matter, one message
   (other than availability) commits at most once in any day.
  */
  lemma CommitsOncePerDay(s: Store, events: seq<Event>, i: nat, j: nat)
    requires i < j < |events| && Clocked(events) && events[i].fault != DiesAfterCommit
    requires events[i].m == events[j].m && events[i].m.kind != Availability
    requires OutcomeAt(s, events, i) == Committed && OutcomeAt(s, events, j) == Committed
    ensures events[j].now >= events[i].now + DAY
  {
    if events[j].now < events[i].now + DAY {
      SeqsIncreaseWithinDay(s, events, i, j);
    }
  }

  /** A death right after the database commit loses both gates: redelivered 30 s later, the message commits again. */
  lemma LateDeathCommitsTwice(s: Store, m: Msg, now: int)
    requires m.kind != Availability && Judge(Expire(s, now), m, DiesAfterCommit) == Committed
    ensures var lost := Processed(Expire(s, now), m, now, DiesAfterCommit);
      Judge(Expire(lost, now + 30 * SECOND), m, NoFault) == Committed
  {
    var lost := Processed(Expire(s, now), m, now, DiesAfterCommit);
    assert lost.vehicles[m.vehicle].bootId == Some(m.boot);
  }

  /** The first message of the run commits a second time within a day. */
  ghost predicate CommitsAgain(s: Store, events: seq<Event>)
    requires events != []
  {
    exists j :: 0 < j < |events| && events[j].m == events[0].m && events[j].now < events[0].now + DAY
                && OutcomeAt(s, events, j) == Committed
  }

  /**
   Exactly when a committed message is safe from committing again within the day, whatever
   is delivered later: when its process did not die between the commit and the key writes.
  */
  lemma CommitsOnceExactly(s: Store, first: Event)
    requires first.m.kind != Availability && Judge(Expire(s, first.now), first.m, first.fault) == Committed
    ensures (forall later: seq<Event> :: Clocked([first] + later) ==> !CommitsAgain(s, [first] + later))
      <==> first.fault != DiesAfterCommit
  {
    if first.fault == DiesAfterCommit {
      var again := Event(first.now + 30 * SECOND, first.m, NoFault);
      var events := [first] + [again];
      assert events[..1] == [first] && [first][..0] == [];
      assert After(s, []) == s;
      assert After(s, events[..1]) == Processed(Expire(s, first.now), first.m, first.now, first.fault);
      LateDeathCommitsTwice(s, first.m, first.now);
      assert OutcomeAt(s, events, 1) == Committed;
      assert Clocked(events) && CommitsAgain(s, events);
    } else {
      forall later: seq<Event> | Clocked([first] + later)
        ensures !CommitsAgain(s, [first] + later)
      {
        var events := [first] + later;
        assert events[..0] == [];
        if CommitsAgain(s, events) {
          var j :| 0 < j < |events| && events[j].m == events[0].m && events[j].now < events[0].now + DAY
                   && OutcomeAt(s, events, j) == Committed;
          CommitsOncePerDay(s, events, 0, j);
        }
      }
    }
  }

  /**
   An aborted message leaves no trace but its in-flight key, and that only when the
   process died. Once the key is gone the message is judged, and changes the store,
   exactly as if the failed attempt had never been made.
  */
  lemma AbortIsForgotten(s: Store, m: Msg, now: int, fault: Fault, later: int)
    requires Judge(Expire(s, now), m, fault) == Aborted
    requires later >= if fault == DbError then now else now + 30 * SECOND
    ensures Expire(Processed(Expire(s, now), m, now, fault), later) == Expire(s, later)
    ensures var s' := Processed(Expire(s, now), m, now, fault);
      s'.dedup == Expire(s, now).dedup && s'.lastSeq == Expire(s, now).lastSeq && s'.vehicles == s.vehicles
  {
    ExpireTwice(s, now, later);
    if fault != DbError {
      HoldRunsOut(Expire(s, now), m, now, later);
    }
  }

  lemma ExpireTwice(s: Store, now: int, later: int)
    requires now <= later
    ensures Expire(Expire(s, now), later) == Expire(s, later)
  {
    var a, b := Expire(Expire(s, now), later), Expire(s, later);
    assert a.dedup == b.dedup;
    assert a.pending == b.pending;
    assert a.lastSeq == b.lastSeq;
  }

  lemma HoldRunsOut(s: Store, m: Msg, now: int, later: int)
    requires m.id !in s.pending && later >= now + 30 * SECOND
    ensures Expire(Holding(s, m, now), later) == Expire(s, later)
  {
    assert Expire(Holding(s, m, now), later).pending == Expire(s, later).pending;
  }

  // --- boot epochs behind the gate ---------------------------------------------------------

  /** What a run of the gate amounts to for one vehicle's boot rows. */
  function AttemptsOf(s: Store, events: seq<Event>, vehicle: VehicleId): seq<Attempt> {
    if events == [] then []
    else
      var n := |events| - 1;
      var e := events[n];
      var before := AttemptsOf(s, events[..n], vehicle);
      if e.m.vehicle != vehicle then before
      else before + [Attempt(e.m.boot, e.m.kind, e.now, OutcomeAt(s, events, n) == Committed)]
  }

  /** One event changes at most the rows of its own vehicle, by one attempt. */
  lemma StepIsAttempt(s: Store, e: Event, vehicle: VehicleId)
    requires vehicle in s.vehicles
    ensures var r := Processed(Expire(s, e.now), e.m, e.now, e.fault);
      var commits := Judge(Expire(s, e.now), e.m, e.fault) == Committed;
      && vehicle in r.vehicles
      && r.vehicles[vehicle] ==
           if e.m.vehicle == vehicle then Attempted(s.vehicles[vehicle], Attempt(e.m.boot, e.m.kind, e.now, commits))
           else s.vehicles[vehicle]
  {
  }

  /** The gate drives each vehicle's rows through a history of attempts. */
  lemma {:induction false} VehicleFollowsAttempts(s: Store, events: seq<Event>, vehicle: VehicleId)
    requires vehicle in s.vehicles && s.vehicles[vehicle] == NEW_VEHICLE
    ensures var r := After(s, events);
      vehicle in r.vehicles && r.vehicles[vehicle] == BootSessions.After(AttemptsOf(s, events, vehicle))
  {
    if events != [] {
      var n := |events| - 1;
      VehicleFollowsAttempts(s, events[..n], vehicle);
      StepIsAttempt(After(s, events[..n]), events[n], vehicle);
      if events[n].m.vehicle == vehicle {
        var attempts := AttemptsOf(s, events, vehicle);
        assert attempts[..|attempts| - 1] == AttemptsOf(s, events[..n], vehicle);
      }
    }
  }

  lemma {:induction false} AttemptsGrow(s: Store, events: seq<Event>, vehicle: VehicleId, i: nat)
    requires i <= |events|
    ensures AttemptsOf(s, events[..i], vehicle) <= AttemptsOf(s, events, vehicle)
  {
    if i == |events| {
      assert events[..i] == events;
    } else {
      assert events[..|events| - 1][..i] == events[..i];
      AttemptsGrow(s, events[..|events| - 1], vehicle, i);
    }
  }

  lemma {:induction false} NamedAttempts(s: Store, events: seq<Event>, vehicle: VehicleId)
    requires forall k :: 0 <= k < |events| ==> events[k].m.boot != ""
    ensures Named(AttemptsOf(s, events, vehicle))
  {
    if events != [] {
      NamedAttempts(s, events[..|events| - 1], vehicle);
    }
  }

  /**
   Behind the gate a vehicle has one epoch at a time, and once its boot has been
   replaced no message of the old boot is let in again, in any run.
  */
  lemma GateKeepsEpochs(s: Store, events: seq<Event>, vehicle: VehicleId, i: nat, j: nat, b: BootId, kind: Kind)
    requires vehicle in s.vehicles && s.vehicles[vehicle] == NEW_VEHICLE
    requires forall k :: 0 <= k < |events| ==> events[k].m.boot != ""
    ensures vehicle in After(s, events).vehicles && OneEpoch(After(s, events).vehicles[vehicle])
    ensures (0 <= i <= j <= |events|
             && vehicle in After(s, events[..i]).vehicles && After(s, events[..i]).vehicles[vehicle].bootId == Some(b)
             && vehicle in After(s, events[..j]).vehicles && After(s, events[..j]).vehicles[vehicle].bootId != Some(b))
            ==> !Admits(After(s, events).vehicles[vehicle], b, kind)
  {
    var attempts := AttemptsOf(s, events, vehicle);
    NamedAttempts(s, events, vehicle);
    AlwaysOneEpoch(attempts);
    BootsNeverRecur(attempts);
    VehicleFollowsAttempts(s, events, vehicle);
    if 0 <= i <= j <= |events| {
      VehicleFollowsAttempts(s, events[..i], vehicle);
      VehicleFollowsAttempts(s, events[..j], vehicle);
      AttemptsGrow(s, events, vehicle, j);
      assert events[..j][..i] == events[..i];
      AttemptsGrow(s, events[..j], vehicle, i);
      var ai, aj := AttemptsOf(s, events[..i], vehicle), AttemptsOf(s, events[..j], vehicle);
      assert attempts[..|ai|] == ai && attempts[..|aj|] == aj;
    }
  }
}
