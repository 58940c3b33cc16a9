/**
 The safety-command stream: entries wait in the consumer group until acknowledged, and
 whatever is not acknowledged is claimed again, while the stream still holds it. Times are
 microseconds.
*/
module SafetyStreams {
  import opened Outbox

  type StreamId = string

  /** The stream is trimmed, approximately, to this many entries, acknowledged ones included. */
  const MAXLEN := 1000

  /** What the stream holds, oldest first, and which of it the group has acknowledged. */
  datatype Stream = Stream(entries: seq<StreamId>, acked: set<StreamId>)

  const EMPTY_STREAM := Stream([], {})

  /** The group can still read or reclaim the entry. */
  predicate Claimable(s: Stream, id: StreamId) { id in s.entries && id !in s.acked }

  /** Approximate trimming drops some of the oldest entries, never any of the newest 1000. */
  predicate MayTrim(s: Stream, trimmed: nat) { trimmed == 0 || |s.entries| + 1 - trimmed >= MAXLEN }

  function Enqueued(s: Stream, id: StreamId, trimmed: nat): Stream {
    Stream((s.entries + [id])[(if MayTrim(s, trimmed) then trimmed else 0)..], s.acked - {id})
  }

  /** One attempt at one claimed event: what it holds, and how broker and database answered. */
  datatype Delivery = Delivery(
    id: StreamId, schemaValid: bool, expiresAt: int, checked: int, confirmed: bool, committed: bool)

  function Answer(d: Delivery): Outcome { PublishCommand(d.schemaValid, d.expiresAt, d.checked, d.confirmed) }

  /** Published or too late, and on record in the database. */
  predicate Acknowledged(d: Delivery) { d.committed && Answer(d) != Failed }

  function AckedIds(deliveries: seq<Delivery>): set<StreamId> {
    set i | 0 <= i < |deliveries| && Acknowledged(deliveries[i]) :: deliveries[i].id
  }

  function SentIds(deliveries: seq<Delivery>): seq<StreamId> {
    if deliveries == [] then []
    else
      var n := |deliveries| - 1;
      SentIds(deliveries[..n]) + if Answer(deliveries[n]) == Sent then [deliveries[n].id] else []
  }

  function Processed(s: Stream, batch: seq<Delivery>): Stream { s.(acked := s.acked + AckedIds(batch)) }

  class SafetyStream {
    var entries: seq<StreamId>
    var acked: set<StreamId>
    /** Entries the broker confirmed, in order. */
    var published: seq<StreamId>

    constructor ()
      ensures Value() == EMPTY_STREAM && published == []
    {
      entries, acked, published := [], {}, [];
    }

    function Value(): Stream
      reads this
    {
      Stream(entries, acked)
    }

    /** enqueue_safety_command; `trimmed` is how many entries the store then drops. */
    method Enqueue(id: StreamId, trimmed: nat)
      requires MayTrim(Value(), trimmed)
      modifies this`entries, this`acked
      ensures Value() == Enqueued(old(Value()), id, trimmed)
    {
      entries := (entries + [id])[trimmed..];
      acked := acked - {id};
    }

    /** One batch, read or reclaimed. */
    method ProcessSafetyEvents(batch: seq<Delivery>)
      modifies this`acked, this`published
      ensures Value() == Processed(old(Value()), batch)
      ensures published == old(published) + SentIds(batch)
    {
      assert batch[..0] == [];
      for i := 0 to |batch|
        invariant acked == old(acked) + AckedIds(batch[..i])
        invariant published == old(published) + SentIds(batch[..i])
      {
        ghost var wasAcked, wasPublished := acked, published;
        ProcessOne(batch[i]);
        OneMore(batch, i, old(acked), wasAcked, acked);
        OneMoreSent(batch, i, old(published), wasPublished, published);
      }
      assert batch[..|batch|] == batch;
    }

    /** The loop body: one transaction, and the acknowledgement if it succeeds. */
    method ProcessOne(d: Delivery)
      modifies this`acked, this`published
      ensures acked == old(acked) + if Acknowledged(d) then {d.id} else {}
      ensures published == old(published) + if Answer(d) == Sent then [d.id] else []
    {
      var acknowledge := false;
      match PublishCommand(d.schemaValid, d.expiresAt, d.checked, d.confirmed) {
        case Sent =>
          published := published + [d.id];
          acknowledge := true;
        case TooLate => acknowledge := true;
        case Failed =>
      }
      if !d.committed {
        acknowledge := false;
      }
      if acknowledge {
        acked := acked + {d.id};
      }
    }
  }

  lemma OneMore(batch: seq<Delivery>, i: nat, before: set<StreamId>, now: set<StreamId>, next: set<StreamId>)
    requires i < |batch| && now == before + AckedIds(batch[..i])
    requires next == now + if Acknowledged(batch[i]) then {batch[i].id} else {}
    ensures next == before + AckedIds(batch[..i + 1])
  {
    assert batch[..i + 1] == batch[..i] + [batch[i]];
    AckedIdsGrow(batch[..i], batch[i]);
  }

  lemma OneMoreSent(batch: seq<Delivery>, i: nat, before: seq<StreamId>, now: seq<StreamId>, next: seq<StreamId>)
    requires i < |batch| && now == before + SentIds(batch[..i])
    requires next == now + if Answer(batch[i]) == Sent then [batch[i].id] else []
    ensures next == before + SentIds(batch[..i + 1])
  {
    assert batch[..i + 1] == batch[..i] + [batch[i]];
    SentIdsGrow(batch[..i], batch[i]);
  }

  lemma SentIdsGrow(deliveries: seq<Delivery>, d: Delivery)
    ensures SentIds(deliveries + [d]) == SentIds(deliveries) + if Answer(d) == Sent then [d.id] else []
  {
    assert (deliveries + [d])[..|deliveries|] == deliveries;
  }

  /** An entry counts as published exactly if some delivery of it was valid, in time and confirmed. */
  lemma {:induction false} SentExactly(batch: seq<Delivery>, id: StreamId)
    ensures id in SentIds(batch) <==>
      exists j :: 0 <= j < |batch| && batch[j].id == id && batch[j].schemaValid
                  && batch[j].checked < batch[j].expiresAt && batch[j].confirmed
  {
    if batch != [] {
      var n := |batch| - 1;
      SentExactly(batch[..n], id);
      assert forall j :: 0 <= j < n ==> batch[..n][j] == batch[j];
      if id in SentIds(batch[..n]) {
        var j :| 0 <= j < n && batch[..n][j].id == id && batch[..n][j].schemaValid
                 && batch[..n][j].checked < batch[..n][j].expiresAt && batch[..n][j].confirmed;
        assert batch[j].id == id;
      }
    }
  }

  lemma AckedIdsGrow(deliveries: seq<Delivery>, d: Delivery)
    ensures AckedIds(deliveries + [d]) == AckedIds(deliveries) + if Acknowledged(d) then {d.id} else {}
  {
    var longer := deliveries + [d];
    forall id | id in AckedIds(deliveries)
      ensures id in AckedIds(longer)
    {
      var i :| 0 <= i < |deliveries| && Acknowledged(deliveries[i]) && deliveries[i].id == id;
      assert longer[i] == deliveries[i];
    }
    assert longer[|deliveries|] == d;
  }

  // --- runs --------------------------------------------------------------------------------

  /** What a run of the group does: new entries arrive, batches are worked through. */
  datatype Event = Added(id: StreamId, trimmed: nat) | Batch(deliveries: seq<Delivery>)

  function StreamStep(s: Stream, e: Event): Stream {
    match e
    case Added(id, trimmed) => Enqueued(s, id, trimmed)
    case Batch(deliveries) => Processed(s, deliveries)
  }

  function StreamAfter(events: seq<Event>): Stream {
    if events == [] then EMPTY_STREAM
    else StreamStep(StreamAfter(events[..|events| - 1]), events[|events| - 1])
  }

  /** Everything that was ever added, oldest first. */
  function Arrivals(events: seq<Event>): seq<StreamId> {
    if events == [] then []
    else
      var n := |events| - 1;
      Arrivals(events[..n]) + if events[n].Added? then [events[n].id] else []
  }

  ghost predicate Distinct(ids: seq<StreamId>) { forall i, j :: 0 <= i < j < |ids| ==> ids[i] != ids[j] }

  /** How many entries arrived after event a. */
  function NewerThan(events: seq<Event>, a: nat): int
    requires a < |events|
  {
    |Arrivals(events)| - |Arrivals(events[..a + 1])|
  }

  /** Delivery j of event b is of this entry, committed, and was published or found expired. */
  predicate DoneAt(events: seq<Event>, b: nat, j: nat, id: StreamId)
    requires b < |events| && events[b].Batch? && j < |events[b].deliveries|
  {
    var d := events[b].deliveries[j];
    d.id == id && d.committed && d.schemaValid && (d.expiresAt <= d.checked || d.confirmed)
  }

  /** Since it arrived, the entry was published, or found expired, on record. */
  ghost predicate Settled(events: seq<Event>, a: nat)
    requires a < |events| && events[a].Added?
  {
    exists b: nat, j: nat :: a < b < |events| && events[b].Batch? && j < |events[b].deliveries|
      && DoneAt(events, b, j, events[a].id)
  }

  lemma SettledGrows(events: seq<Event>, a: nat)
    requires a < |events| - 1 && events[a].Added?
    ensures var n := |events| - 1;
      Settled(events, a) <==>
        Settled(events[..n], a) || (events[n].Batch? && events[a].id in AckedIds(events[n].deliveries))
  {
    var n, id := |events| - 1, events[a].id;
    if events[n].Batch? && id in AckedIds(events[n].deliveries) {
      var j :| 0 <= j < |events[n].deliveries|
        && Acknowledged(events[n].deliveries[j]) && events[n].deliveries[j].id == id;
      assert DoneAt(events, n, j, id);
    }
    if Settled(events[..n], a) {
      var b: nat, j: nat :| a < b < n && events[..n][b].Batch? && j < |events[..n][b].deliveries|
        && DoneAt(events[..n], b, j, id);
      assert events[b] == events[..n][b] && DoneAt(events, b, j, id);
    }
    if Settled(events, a) {
      var b: nat, j: nat :| a < b < |events| && events[b].Batch? && j < |events[b].deliveries|
        && DoneAt(events, b, j, id);
      if b < n {
        assert events[b] == events[..n][b] && DoneAt(events[..n], b, j, id);
      } else {
        assert Acknowledged(events[n].deliveries[j]);
      }
    }
  }

  lemma DistinctPrefix(events: seq<Event>)
    requires events != [] && Distinct(Arrivals(events))
    ensures Distinct(Arrivals(events[..|events| - 1]))
  {
    var before := Arrivals(events[..|events| - 1]);
    assert forall i :: 0 <= i < |before| ==> before[i] == Arrivals(events)[i];
  }

  /** An arrival stands in the list of arrivals at the place counted up to it. */
  lemma {:induction false} ArrivalAt(events: seq<Event>, a: nat)
    requires a < |events| && events[a].Added?
    ensures var k := |Arrivals(events[..a + 1])| - 1;
      0 <= k < |Arrivals(events)| && Arrivals(events)[k] == events[a].id
  {
    var n := |events| - 1;
    assert events[..n + 1] == events;
    if a < n {
      assert events[..n][..a + 1] == events[..a + 1];
      ArrivalAt(events[..n], a);
    }
  }

  lemma LastIsNew(ids: seq<StreamId>, k: nat, id: StreamId)
    requires Distinct(ids + [id]) && k < |ids|
    ensures ids[k] != id
  {
    assert (ids + [id])[k] == ids[k] && (ids + [id])[|ids|] == id;
  }

  /** Acknowledged exactly if settled. */
  lemma {:induction false} AckedExactly(events: seq<Event>, a: nat)
    requires a < |events| && events[a].Added? && Distinct(Arrivals(events))
    ensures events[a].id in StreamAfter(events).acked <==> Settled(events, a)
  {
    var n := |events| - 1;
    if a < n {
      DistinctPrefix(events);
      AckedExactly(events[..n], a);
      SettledGrows(events, a);
      if events[n].Added? {
        ArrivalAt(events[..n], a);
        assert events[..n][..a + 1] == events[..a + 1];
        LastIsNew(Arrivals(events[..n]), |Arrivals(events[..a + 1])| - 1, events[n].id);
      }
    }
  }

  /** s holds the newest of ids: all of them, or at least 1000. */
  ghost predicate Newest(s: seq<StreamId>, ids: seq<StreamId>) {
    |s| <= |ids| && s == ids[|ids| - |s|..] && (|s| == |ids| || |s| >= MAXLEN)
  }

  lemma NewestGrow(s: Stream, ids: seq<StreamId>, id: StreamId, trimmed: nat)
    requires Newest(s.entries, ids)
    ensures Newest(Enqueued(s, id, trimmed).entries, ids + [id])
  {
  }

  lemma NewestAt(s: seq<StreamId>, ids: seq<StreamId>, m: nat)
    requires Newest(s, ids) && m < |s|
    ensures s[m] == ids[|ids| - |s| + m]
  {
  }

  lemma {:induction false} HoldsNewest(events: seq<Event>)
    ensures Newest(StreamAfter(events).entries, Arrivals(events))
  {
    if events != [] {
      var n := |events| - 1;
      HoldsNewest(events[..n]);
      if events[n].Added? {
        NewestGrow(StreamAfter(events[..n]), Arrivals(events[..n]), events[n].id, events[n].trimmed);
      } else {
        assert Arrivals(events) == Arrivals(events[..n]);
      }
    }
  }

  function StrictTrim(s: Stream): nat { if |s.entries| < MAXLEN then 0 else |s.entries| + 1 - MAXLEN }

  function Strictly(s: Stream, e: Event): Event { if e.Added? then Added(e.id, StrictTrim(s)) else e }

  /** The same history with trimming to the letter: never more than 1000 entries are kept. */
  function Strict(events: seq<Event>): seq<Event> {
    if events == [] then []
    else
      var before := Strict(events[..|events| - 1]);
      before + [Strictly(StreamAfter(before), events[|events| - 1])]
  }

  ghost predicate SameButTrims(events: seq<Event>, other: seq<Event>) {
    && |other| == |events|
    && forall i :: 0 <= i < |events| ==>
         if events[i].Added? then other[i].Added? && other[i].id == events[i].id else other[i] == events[i]
  }

  lemma {:induction false} SameArrivals(events: seq<Event>, other: seq<Event>)
    requires SameButTrims(events, other)
    ensures Arrivals(other) == Arrivals(events)
  {
    if events != [] {
      SameArrivals(events[..|events| - 1], other[..|events| - 1]);
    }
  }

  lemma SameSettled(events: seq<Event>, other: seq<Event>, a: nat)
    requires SameButTrims(events, other) && a < |events| && events[a].Added?
    ensures Settled(events, a) <==> Settled(other, a)
  {
    if Settled(events, a) {
      var b: nat, j: nat :| a < b < |events| && events[b].Batch? && j < |events[b].deliveries|
        && DoneAt(events, b, j, events[a].id);
      assert DoneAt(other, b, j, other[a].id);
    }
    if Settled(other, a) {
      var b: nat, j: nat :| a < b < |other| && other[b].Batch? && j < |other[b].deliveries|
        && DoneAt(other, b, j, other[a].id);
      assert DoneAt(events, b, j, events[a].id);
    }
  }

  lemma StreamAppend(events: seq<Event>, e: Event)
    ensures StreamAfter(events + [e]) == StreamStep(StreamAfter(events), e)
  {
    assert (events + [e])[..|events|] == events;
  }

  lemma StrictAddition(s: Stream, id: StreamId)
    requires |s.entries| <= MAXLEN
    ensures |Enqueued(s, id, StrictTrim(s)).entries| <= MAXLEN
  {
  }

  lemma {:induction false} StrictHolds(events: seq<Event>)
    ensures |StreamAfter(Strict(events)).entries| <= MAXLEN
  {
    if events != [] {
      var n := |events| - 1;
      StrictHolds(events[..n]);
      var before := Strict(events[..n]);
      StreamAppend(before, Strictly(StreamAfter(before), events[n]));
      if events[n].Added? {
        StrictAddition(StreamAfter(before), events[n].id);
      }
    }
  }

  lemma {:induction false} StrictIsSame(events: seq<Event>)
    ensures SameButTrims(events, Strict(events))
  {
    if events != [] {
      var n := |events| - 1;
      StrictIsSame(events[..n]);
      SameGrows(events[..n], Strict(events[..n]), events[n], Strictly(StreamAfter(Strict(events[..n])), events[n]));
      assert events == events[..n] + [events[n]];
    }
  }

  lemma SameGrows(events: seq<Event>, other: seq<Event>, e: Event, f: Event)
    requires SameButTrims(events, other)
    requires if e.Added? then f.Added? && f.id == e.id else f == e
    ensures SameButTrims(events + [e], other + [f])
  {
  }

  /** While fewer than 1000 newer entries have arrived, an entry is claimable until it is settled. */
  lemma NothingIsLost(events: seq<Event>, a: nat)
    requires a < |events| && events[a].Added? && Distinct(Arrivals(events))
    requires NewerThan(events, a) < 1000
    ensures Claimable(StreamAfter(events), events[a].id) <==> !Settled(events, a)
  {
    HoldsNewest(events);
    AckedExactly(events, a);
    ArrivalAt(events, a);
    var s, ids := StreamAfter(events).entries, Arrivals(events);
    var k := |Arrivals(events[..a + 1])| - 1;
    NewestAt(s, ids, k - (|ids| - |s|));
  }

  /** With 1000 newer arrivals, strict trimming has dropped it. */
  lemma OvertakenIsDropped(events: seq<Event>, a: nat)
    requires a < |events| && events[a].Added? && Distinct(Arrivals(events))
    requires NewerThan(events, a) >= 1000
    ensures !Claimable(StreamAfter(Strict(events)), events[a].id)
  {
    var strict := Strict(events);
    StrictIsSame(events);
    StrictHolds(events);
    SameArrivals(events, strict);
    HoldsNewest(strict);
    ArrivalAt(events, a);
    var s, ids := StreamAfter(strict).entries, Arrivals(events);
    var k := |Arrivals(events[..a + 1])| - 1;
    forall m | 0 <= m < |s|
      ensures s[m] != ids[k]
    {
      NewestAt(s, ids, m);
    }
  }

  /**
   Exactly when a safety command cannot get lost: it is sure to be claimable still, however
   the store trims, if and only if it is not settled and fewer than 1000 newer ones have arrived.
  */
  lemma ClaimableExactly(events: seq<Event>, a: nat)
    requires a < |events| && events[a].Added? && Distinct(Arrivals(events))
    ensures (forall other :: SameButTrims(events, other) ==> Claimable(StreamAfter(other), events[a].id))
      <==> (!Settled(events, a) && NewerThan(events, a) < 1000)
  {
    if NewerThan(events, a) >= 1000 {
      StrictIsSame(events);
      OvertakenIsDropped(events, a);
    } else {
      NothingIsLost(events, a);
      forall other | SameButTrims(events, other)
        ensures Claimable(StreamAfter(other), events[a].id) <==> !Settled(events, a)
      {
        SameArrivals(events, other);
        SameArrivals(events[..a + 1], other[..a + 1]);
        SameSettled(events, other, a);
        NothingIsLost(other, a);
      }
      assert SameButTrims(events, events);
    }
  }
}
