/**
 From the platform to the vehicle: the outbox and the safety stream send a command as often
 as they do, the broker delivers it as late and as often as it likes, and the vehicle's clock
 lags behind the platform's. How much lag the bridge's memory can bear.
*/
module EndToEnd {
  import opened Wrappers
  import opened BridgeProtocol
  import opened Bridge
  import opened BridgeOnce
  import Outbox
  import SafetyStreams

  const SAFETY_TTL := 3 * Outbox.SECOND

  /**
   Platform times at which an outbox cycle put the command into the MQTT client's hands. From
   then on it may arrive, even if the wait for the confirmation is given up or the transaction
   is rolled back, and the row is tried again.
  */
  function OutboxSends(row: Outbox.Row, run: seq<Outbox.Cycle>): seq<int> {
    if run == [] then []
    else
      var n := |run| - 1;
      OutboxSends(row, run[..n]) + if Outbox.HandsToClient(row, run, n) then [run[n].checked] else []
  }

  function BatchSends(deliveries: seq<SafetyStreams.Delivery>, id: SafetyStreams.StreamId): seq<int> {
    if deliveries == [] then []
    else
      var d := deliveries[|deliveries| - 1];
      BatchSends(deliveries[..|deliveries| - 1], id)
      + if d.id == id && Outbox.PassesChecks(d.schemaValid, d.expiresAt, d.checked) then [d.checked] else []
  }

  /** Platform times at which the safety dispatcher did, for one entry of the stream. */
  function StreamSends(stream: seq<SafetyStreams.Event>, id: SafetyStreams.StreamId): seq<int> {
    if stream == [] then []
    else
      var last := stream[|stream| - 1];
      StreamSends(stream[..|stream| - 1], id) + if last.Batch? then BatchSends(last.deliveries, id) else []
  }

  ghost predicate NotBefore(sends: seq<int>, issued: int) { forall m :: 0 <= m < |sends| ==> sends[m] >= issued }

  lemma {:induction false} OutboxSendsInTime(row: Outbox.Row, run: seq<Outbox.Cycle>, issued: int)
    requires Outbox.Clocked(run, issued)
    ensures NotBefore(OutboxSends(row, run), issued)
  {
    if run != [] {
      Outbox.PrefixClocked(run, issued, |run| - 1);
      OutboxSendsInTime(row, run[..|run| - 1], issued);
    }
  }

  /** The entry is not worked on before its command is issued. */
  ghost predicate Honest(deliveries: seq<SafetyStreams.Delivery>, id: SafetyStreams.StreamId, issued: int) {
    forall j :: 0 <= j < |deliveries| && deliveries[j].id == id ==> deliveries[j].checked >= issued
  }

  lemma {:induction false} BatchSendsInTime(
    deliveries: seq<SafetyStreams.Delivery>, id: SafetyStreams.StreamId, issued: int)
    requires Honest(deliveries, id, issued)
    ensures NotBefore(BatchSends(deliveries, id), issued)
  {
    if deliveries != [] {
      BatchSendsInTime(deliveries[..|deliveries| - 1], id, issued);
    }
  }

  lemma {:induction false} StreamSendsInTime(
    stream: seq<SafetyStreams.Event>, id: SafetyStreams.StreamId, issued: int)
    requires forall b :: 0 <= b < |stream| && stream[b].Batch? ==> Honest(stream[b].deliveries, id, issued)
    ensures NotBefore(StreamSends(stream, id), issued)
  {
    if stream != [] {
      var n := |stream| - 1;
      StreamSendsInTime(stream[..n], id, issued);
      if stream[n].Batch? {
        BatchSendsInTime(stream[n].deliveries, id, issued);
      }
    }
  }

  /**
   Every receipt goes back to a send that was made by then; the vehicle's clock shows at least
   platform time less the lag.
  */
  ghost predicate Carried(sends: seq<int>, lag: int, events: seq<WorldEvent>, c: Command) {
    forall k :: 0 <= k < |events| && Receives(events[k], c) ==>
      exists m :: 0 <= m < |sends| && sends[m] - lag <= Begins(events[k])
  }

  /** One bound on the lag for every sender: what the memory leaves after the lifetime and the callback. */
  function MaxLag(ttl: int, d: int): int { DEDUP_TTL + 1 - d - ttl }

  lemma CarriedOnce(
    cfg: Config, boot: string, events: seq<WorldEvent>, d: int, sends: seq<int>, issued: int, ttl: int, lag: int,
    i: nat, j: nat, c: Command)
    requires Clocked(events) && FreshBoots(boot, events) && Brisk(events, d) && i < j < |events|
    requires c.targetBoot.Some? && c.expiresAt == Some(issued + ttl)
    requires NotBefore(sends, issued) && Carried(sends, lag, events, c) && lag <= MaxLag(ttl, d)
    requires HandsOverAt(cfg, boot, events, i, c)
    ensures !HandsOverAt(cfg, boot, events, j, c)
  {
    assert Receives(events[i], c);
    var m :| 0 <= m < |sends| && sends[m] - lag <= Begins(events[i]);
    HandedAtMostOnce(cfg, boot, events, d, i, i, j, c);
  }

  /**
   A history in which a boot-bound command of this lifetime, put out by an outbox run, is
   handed over at event i, with a later event j.
  */
  ghost predicate Journey(
    ttl: int, lag: int, d: int, cfg: Config, boot: string, events: seq<WorldEvent>,
    issued: int, run: seq<Outbox.Cycle>, i: nat, j: nat, c: Command)
  {
    && Clocked(events) && FreshBoots(boot, events) && Brisk(events, d) && i < j < |events|
    && c.targetBoot.Some? && c.expiresAt == Some(Outbox.New(true, issued, ttl).expiresAt)
    && Outbox.Clocked(run, issued) && Carried(OutboxSends(Outbox.New(true, issued, ttl), run), lag, events, c)
    && HandsOverAt(cfg, boot, events, i, c)
  }

  ghost predicate LagIsSafe(ttl: int, lag: int, d: int) {
    forall cfg: Config, boot: string, events: seq<WorldEvent>, issued: int, run: seq<Outbox.Cycle>,
           i: nat, j: nat, c: Command ::
      Journey(ttl, lag, d, cfg, boot, events, issued, run, i, j, c) ==> !HandsOverAt(cfg, boot, events, j, c)
  }

  const ONE_SEND := [Outbox.Cycle(0, 0, 0, true, true)]

  function StopFor(boot: string, expiresAt: int): Command {
    Command("1.3", true, "command", "C", StopMotion, None, Some(boot), Some(expiresAt))
  }

  /**
   A vehicle that lags too far takes what is sent at time 0, and takes it again when it has
   forgotten it.
  */
  lemma LaggingVehicle(ttl: int, lag: int, d: int) returns (cfg: Config, c: Command, events: seq<WorldEvent>)
    requires ttl > 0 && d >= 0 && lag > -ttl && lag > MaxLag(ttl, d)
    ensures Clocked(events) && FreshBoots("b", events) && Brisk(events, d) && |events| == 3
    ensures c.targetBoot.Some? && c.expiresAt == Some(ttl) && Carried([0], lag, events, c)
    ensures HandsOverAt(cfg, "b", events, 0, c) && HandsOverAt(cfg, "b", events, 2, c)
  {
    c := StopFor("b", ttl);
    cfg, events := Only(c), TwiceHistory(c, -lag, d);
    LongLivedHandedTwice(c, "b", -lag, d);
    forall k | 0 <= k < |events| && Receives(events[k], c)
      ensures [0][0] - lag <= Begins(events[k])
    {
    }
  }

  lemma OneCycleSends(ttl: int)
    requires ttl > 0
    ensures Outbox.Clocked(ONE_SEND, 0) && OutboxSends(Outbox.New(true, 0, ttl), ONE_SEND) == [0]
  {
    var row := Outbox.New(true, 0, ttl);
    assert ONE_SEND[..0] == [] && OutboxSends(row, []) == [];
    assert Outbox.AfterAll(row, []) == row && Outbox.HandsToClient(row, ONE_SEND, 0);
  }

  /** One send is enough: the broker delivers it at once, and again later. */
  lemma LaggingVehicleHandsTwice(ttl: int, lag: int, d: int)
    requires ttl > 0 && d >= 0 && lag > -ttl && lag > MaxLag(ttl, d)
    ensures !LagIsSafe(ttl, lag, d)
  {
    var cfg, c, events := LaggingVehicle(ttl, lag, d);
    OneCycleSends(ttl);
    assert Journey(ttl, lag, d, cfg, "b", events, 0, ONE_SEND, 0, 2, c);
  }

  /** Exactly how far a vehicle's clock may lag for commands of a given lifetime to be handed over at most once. */
  lemma LagExactly(ttl: int, lag: int, d: int)
    requires ttl > 0 && d >= 0 && lag > -ttl
    ensures LagIsSafe(ttl, lag, d) <==> lag <= MaxLag(ttl, d)
  {
    if lag > MaxLag(ttl, d) {
      LaggingVehicleHandsTwice(ttl, lag, d);
    } else {
      forall cfg: Config, boot: string, events: seq<WorldEvent>, issued: int, run: seq<Outbox.Cycle>,
             i: nat, j: nat, c: Command | Journey(ttl, lag, d, cfg, boot, events, issued, run, i, j, c)
        ensures !HandsOverAt(cfg, boot, events, j, c)
      {
        var row := Outbox.New(true, issued, ttl);
        OutboxSendsInTime(row, run, issued);
        CarriedOnce(cfg, boot, events, d, OutboxSends(row, run), issued, ttl, lag, i, j, c);
      }
    }
  }

  /**
   A durable command with the default lifetime: at most once, exactly if the lag is no more
   than 270 s and a microsecond, less the longest callback.
  */
  lemma DurableCommandOnce(lag: int, d: int)
    requires d >= 0 && lag >= 0
    ensures LagIsSafe(Outbox.DEFAULT_TTL, lag, d) <==> lag <= 270 * Outbox.SECOND + 1 - d
  {
    LagExactly(Outbox.DEFAULT_TTL, lag, d);
  }

  // --- safety commands ---------------------------------------------------------------------

  /**
   A history in which a boot-bound safety command, carried by an entry of the stream, is handed
   over at event i, with a later event j. The entry may be reclaimed and published any number
   of times.
  */
  ghost predicate SafetyJourney(
    ttl: int, lag: int, d: int, cfg: Config, boot: string, events: seq<WorldEvent>,
    stream: seq<SafetyStreams.Event>, id: SafetyStreams.StreamId, issued: int, i: nat, j: nat, c: Command)
  {
    && Clocked(events) && FreshBoots(boot, events) && Brisk(events, d) && i < j < |events|
    && c.targetBoot.Some? && c.expiresAt == Some(issued + ttl)
    && (forall b :: 0 <= b < |stream| && stream[b].Batch? ==> Honest(stream[b].deliveries, id, issued))
    && Carried(StreamSends(stream, id), lag, events, c)
    && HandsOverAt(cfg, boot, events, i, c)
  }

  ghost predicate SafetyLagIsSafe(ttl: int, lag: int, d: int) {
    forall cfg: Config, boot: string, events: seq<WorldEvent>,
           stream: seq<SafetyStreams.Event>, id: SafetyStreams.StreamId, issued: int, i: nat, j: nat, c: Command ::
      SafetyJourney(ttl, lag, d, cfg, boot, events, stream, id, issued, i, j, c)
      ==> !HandsOverAt(cfg, boot, events, j, c)
  }

  /** One entry, published once at time 0. */
  function OneEntry(id: SafetyStreams.StreamId, ttl: int): seq<SafetyStreams.Event> {
    [SafetyStreams.Added(id, 0), SafetyStreams.Batch([SafetyStreams.Delivery(id, true, ttl, 0, true, true)])]
  }

  lemma OneEntryIsSent(id: SafetyStreams.StreamId, ttl: int)
    requires ttl > 0
    ensures StreamSends(OneEntry(id, ttl), id) == [0]
  {
    var stream := OneEntry(id, ttl);
    var batch := stream[1].deliveries;
    assert batch[..0] == [] && BatchSends(batch, id) == BatchSends([], id) + [0];
    assert stream[..1] == [stream[0]] && stream[..1][..0] == [];
    assert StreamSends(stream[..1], id) == [];
  }

  /** As with the outbox, one send is enough for a vehicle that lags too far. */
  lemma LaggingVehicleHandsSafetyTwice(ttl: int, lag: int, d: int)
    requires ttl > 0 && d >= 0 && lag > -ttl && lag > MaxLag(ttl, d)
    ensures !SafetyLagIsSafe(ttl, lag, d)
  {
    var cfg, c, events := LaggingVehicle(ttl, lag, d);
    OneEntryIsSent("1-0", ttl);
    assert SafetyJourney(ttl, lag, d, cfg, "b", events, OneEntry("1-0", ttl), "1-0", 0, 0, 2, c);
  }

  /** Exactly the same lag is safe for what the stream carries. */
  lemma SafetyLagExactly(ttl: int, lag: int, d: int)
    requires ttl > 0 && d >= 0 && lag > -ttl
    ensures SafetyLagIsSafe(ttl, lag, d) <==> lag <= MaxLag(ttl, d)
  {
    if lag > MaxLag(ttl, d) {
      LaggingVehicleHandsSafetyTwice(ttl, lag, d);
    } else {
      forall cfg: Config, boot: string, events: seq<WorldEvent>,
             stream: seq<SafetyStreams.Event>, id: SafetyStreams.StreamId, issued: int, i: nat, j: nat, c: Command |
        SafetyJourney(ttl, lag, d, cfg, boot, events, stream, id, issued, i, j, c)
        ensures !HandsOverAt(cfg, boot, events, j, c)
      {
        StreamSendsInTime(stream, id, issued);
        CarriedOnce(cfg, boot, events, d, StreamSends(stream, id), issued, ttl, lag, i, j, c);
      }
    }
  }

  /**
   A safety command for a known boot lives 3 s: at most once, exactly if the lag is no more
   than 297 s and a microsecond, less the longest callback.
  */
  lemma SafetyCommandOnce(lag: int, d: int)
    requires d >= 0 && lag >= 0
    ensures SafetyLagIsSafe(SAFETY_TTL, lag, d) <==> lag <= 297 * Outbox.SECOND + 1 - d
  {
    SafetyLagExactly(SAFETY_TTL, lag, d);
  }
}
