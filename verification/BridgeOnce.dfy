/**
 At most once, end to end: the command topic may deliver a command any number of
 times, at any times, over any number of bridge processes.
*/
module BridgeOnce {
  import opened Wrappers
  import opened BridgeProtocol
  import opened Bridge

  /** What happens to the vehicle's bridge: callbacks, and process restarts under a new boot id. */
  datatype WorldEvent = Callback(e: Event) | Restart(at: int, boot: string)

  datatype World = World(boot: string, bridge: State)

  function Begins(w: WorldEvent): int { if w.Callback? then StartOf(w.e) else w.at }

  function Ends(w: WorldEvent): int { if w.Callback? then EndOf(w.e) else w.at }

  function WorldStep(cfg: Config, w: World, e: WorldEvent): World {
    match e
    case Callback(e) => w.(bridge := Apply(w.bridge, cfg, w.boot, e))
    case Restart(_, boot) => World(boot, BOOTED)
  }

  function WorldAfter(cfg: Config, boot: string, events: seq<WorldEvent>): World {
    if events == [] then World(boot, BOOTED)
    else WorldStep(cfg, WorldAfter(cfg, boot, events[..|events| - 1]), events[|events| - 1])
  }

  /** The vehicle's clock does not run back, inside a callback or between them. */
  ghost predicate Clocked(events: seq<WorldEvent>) {
    && (forall i :: 0 <= i < |events| && events[i].Callback? ==> Steady(events[i].e))
    && (forall i, j :: 0 <= i < j < |events| ==> Ends(events[i]) <= Begins(events[j]))
  }

  /** No callback takes longer than d from its validation to its registration. */
  ghost predicate Brisk(events: seq<WorldEvent>, d: int) {
    forall i :: 0 <= i < |events| && events[i].Callback? ==> Ends(events[i]) - Begins(events[i]) <= d
  }

  /** Every process draws a boot id no earlier process had. */
  ghost predicate FreshBoots(boot: string, events: seq<WorldEvent>) {
    && (forall i :: 0 <= i < |events| && events[i].Restart? ==> events[i].boot != boot)
    && (forall i, j :: 0 <= i < j < |events| && events[i].Restart? && events[j].Restart? ==>
         events[i].boot != events[j].boot)
  }

  predicate Receives(e: WorldEvent, c: Command) { e.Callback? && e.e.Receive? && e.e.command == c }

  /** Event i hands the command to publish_command on the ROS side. */
  predicate HandsOverAt(cfg: Config, boot: string, events: seq<WorldEvent>, i: nat, c: Command)
    requires i < |events|
  {
    var before := WorldAfter(cfg, boot, events[..i]);
    Receives(events[i], c) && HandsOver(before.bridge, cfg, before.boot, events[i].e.at, c)
  }

  /** The log has only grown, and by nothing that was handed over. */
  ghost predicate Quiet(before: seq<Entry>, after: seq<Entry>) {
    before <= after && forall k :: |before| <= k < |after| ==> !after[k].Handed?
  }

  lemma AcceptanceIsQuiet(s: State, now: int, fb: Feedback)
    requires fb.commandId in s.pending && fb.state == ROS_ACCEPTED
    ensures Quiet(s.log, OnFeedback(s, now, fb).log)
  {
  }

  lemma OtherFeedbackIsQuiet(s: State, now: int, fb: Feedback)
    requires fb.commandId in s.pending && fb.state != ROS_ACCEPTED
    ensures Quiet(s.log, OnFeedback(s, now, fb).log)
  {
  }

  lemma FeedbackIsQuiet(s: State, now: int, fb: Feedback)
    ensures Quiet(s.log, OnFeedback(s, now, fb).log)
  {
    if fb.commandId in s.pending {
      if fb.state == ROS_ACCEPTED {
        AcceptanceIsQuiet(s, now, fb);
      } else {
        OtherFeedbackIsQuiet(s, now, fb);
      }
    }
  }

  lemma ReceiptIsQuiet(s: State, cfg: Config, boot: string, at: Reading, c: Command, delivered: bool)
    ensures var t := OnCommand(s, cfg, boot, at, c, delivered);
      if HandsOver(s, cfg, boot, at, c) then Quiet(s.log + [Handed(c, delivered)], t.log) else Quiet(s.log, t.log)
  {
    if HandsOver(s, cfg, boot, at, c) && delivered {
      FeedbackIsQuiet(Waiting(Known(s, at, c), c), at.registered, StubFeedback(c, cfg.stubReply));
    }
  }

  /** HandsOver is what the log says: such a receipt adds one Handed entry, nothing else adds any. */
  lemma HandsOverIsLogged(s: State, cfg: Config, boot: string, e: Event)
    ensures var t := Apply(s, cfg, boot, e);
      if e.Receive? && HandsOver(s, cfg, boot, e.at, e.command)
      then Quiet(s.log + [Handed(e.command, e.delivered)], t.log)
      else Quiet(s.log, t.log)
  {
    match e
    case Receive(at, c, delivered) => ReceiptIsQuiet(s, cfg, boot, at, c, delivered);
    case Hear(now, fb) => FeedbackIsQuiet(s, now, fb);
    case Fire(now, id) =>
  }

  /**
   What reaches ROS is unexpired, supported, for this boot (or a boot-less emergency stop),
   not on record, and a task holds a free lock.
  */
  lemma HandedIsFit(s: State, cfg: Config, boot: string, at: Reading, c: Command)
    requires HandsOver(s, cfg, boot, at, c)
    ensures c.expiresAt.Some? && at.validated < c.expiresAt.value && !c.cmd.OtherCmd?
    ensures c.targetBoot == Some(boot) || (c.targetBoot.None? && c.cmd == EmergencyStop)
    ensures IsTask(c.cmd) ==> NonEmpty(c.taskId) && s.lock.None?
    ensures !cfg.stubMode ==> c.cmd in cfg.supported
    ensures c.id in s.processed ==> at.looked - s.processed[c.id].ts > DEDUP_TTL
  {
    assert Cleanup(s, at.looked).lock == s.lock;
  }

  // --- boots -------------------------------------------------------------------------------

  predicate IsRestart(e: WorldEvent, boot: string) { e.Restart? && e.boot == boot }

  lemma {:induction false} BootIsInitialOrRestarted(cfg: Config, boot: string, events: seq<WorldEvent>)
    ensures var b := WorldAfter(cfg, boot, events).boot;
      b == boot || exists r :: 0 <= r < |events| && IsRestart(events[r], b)
  {
    if events != [] {
      var n := |events| - 1;
      BootIsInitialOrRestarted(cfg, boot, events[..n]);
      var b := WorldAfter(cfg, boot, events).boot;
      if events[n].Callback? && b != boot {
        var r :| 0 <= r < n && IsRestart(events[..n][r], b);
        assert IsRestart(events[r], b);
      } else if events[n].Restart? {
        assert IsRestart(events[n], b);
      }
    }
  }

  /** Two moments on one boot have no restart between them. */
  lemma SameBootNoRestart(cfg: Config, boot: string, events: seq<WorldEvent>, i: nat, k: nat)
    requires FreshBoots(boot, events) && i <= k < |events| && events[k].Restart?
    ensures WorldAfter(cfg, boot, events).boot != WorldAfter(cfg, boot, events[..i]).boot
  {
    var b := WorldAfter(cfg, boot, events[..i]).boot;
    BootIsInitialOrRestarted(cfg, boot, events[..i]);
    LaterBoots(cfg, boot, events, k);
    if b != boot {
      var r :| 0 <= r < i && IsRestart(events[..i][r], b);
      assert IsRestart(events[r], b);
    }
  }

  /** After a restart, the boot is that of it or of a later one. */
  lemma {:induction false} LaterBoots(cfg: Config, boot: string, events: seq<WorldEvent>, k: nat)
    requires k < |events| && events[k].Restart?
    ensures exists r :: k <= r < |events| && events[r].Restart? && events[r].boot == WorldAfter(cfg, boot, events).boot
  {
    var n := |events| - 1;
    if events[n].Restart? {
      assert events[n].boot == WorldAfter(cfg, boot, events).boot;
    } else {
      LaterBoots(cfg, boot, events[..n], k);
      var r :| k <= r < n && events[..n][r].Restart? && events[..n][r].boot == WorldAfter(cfg, boot, events[..n]).boot;
      assert events[r].Restart? && events[r].boot == WorldAfter(cfg, boot, events).boot;
    }
  }

  // --- records -----------------------------------------------------------------------------

  /** The command id is on record, last touched no earlier than the given time. */
  predicate OnRecord(s: State, id: string, since: int) { id in s.processed && s.processed[id].ts >= since }

  lemma FeedbackKeepsRecord(s: State, now: int, fb: Feedback, id: string, since: int)
    requires OnRecord(s, id, since) && since <= now
    ensures OnRecord(OnFeedback(s, now, fb), id, since)
  {
  }

  lemma CommandKeepsRecord(
    s: State, cfg: Config, boot: string, at: Reading, c: Command, delivered: bool, id: string, since: int)
    requires OnRecord(s, id, since) && since <= at.looked <= at.cleaned <= at.registered <= since + DEDUP_TTL
    ensures OnRecord(OnCommand(s, cfg, boot, at, c, delivered), id, since)
  {
    assert OnRecord(Cleanup(s, at.looked), id, since);
    assert OnRecord(Known(s, at, c), id, since);
    if HandsOver(s, cfg, boot, at, c) && delivered {
      FeedbackKeepsRecord(Waiting(Known(s, at, c), c), at.registered, StubFeedback(c, cfg.stubReply), id, since);
    }
  }

  lemma HandingOverRecords(s: State, cfg: Config, boot: string, at: Reading, c: Command, delivered: bool)
    requires HandsOver(s, cfg, boot, at, c)
    ensures OnRecord(OnCommand(s, cfg, boot, at, c, delivered), c.id, at.registered)
  {
    if delivered {
      FeedbackKeepsRecord(
        Waiting(Known(s, at, c), c), at.registered, StubFeedback(c, cfg.stubReply), c.id, at.registered);
    }
  }

  lemma ApplyKeepsRecord(s: State, cfg: Config, boot: string, e: Event, id: string, since: int)
    requires OnRecord(s, id, since) && Steady(e) && since <= StartOf(e) && EndOf(e) <= since + DEDUP_TTL
    ensures OnRecord(Apply(s, cfg, boot, e), id, since)
  {
    match e
    case Receive(at, c, delivered) => CommandKeepsRecord(s, cfg, boot, at, c, delivered, id, since);
    case Hear(now, fb) => FeedbackKeepsRecord(s, now, fb, id, since);
    case Fire(now, other) =>
  }

  lemma HandOverIsRecorded(cfg: Config, boot: string, events: seq<WorldEvent>, i: nat, c: Command)
    requires i < |events| && HandsOverAt(cfg, boot, events, i, c)
    ensures OnRecord(WorldAfter(cfg, boot, events[..i + 1]).bridge, c.id, Ends(events[i]))
  {
    assert events[..i + 1][..i] == events[..i];
    var before := WorldAfter(cfg, boot, events[..i]);
    HandingOverRecords(before.bridge, cfg, before.boot, events[i].e.at, c, events[i].e.delivered);
  }

  lemma OneMoreKeepsRecord(cfg: Config, boot: string, events: seq<WorldEvent>, k: nat, id: string, since: int)
    requires k < |events| && events[k].Callback? && OnRecord(WorldAfter(cfg, boot, events[..k]).bridge, id, since)
    requires Steady(events[k].e) && since <= Begins(events[k]) && Ends(events[k]) <= since + DEDUP_TTL
    ensures OnRecord(WorldAfter(cfg, boot, events[..k + 1]).bridge, id, since)
  {
    assert events[..k + 1][..k] == events[..k];
    var before := WorldAfter(cfg, boot, events[..k]);
    ApplyKeepsRecord(before.bridge, cfg, before.boot, events[k].e, id, since);
  }

  /** For 300 s from the end of the callback that handed it over, a command stays on record. */
  lemma {:induction false} RecordIsKept(
    cfg: Config, boot: string, events: seq<WorldEvent>, i: nat, k: nat, c: Command)
    requires Clocked(events) && i < k <= |events| && HandsOverAt(cfg, boot, events, i, c)
    requires forall r :: i < r < k ==> events[r].Callback?
    requires Ends(events[k - 1]) <= Ends(events[i]) + DEDUP_TTL
    ensures OnRecord(WorldAfter(cfg, boot, events[..k]).bridge, c.id, Ends(events[i]))
    decreases k
  {
    if k == i + 1 {
      HandOverIsRecorded(cfg, boot, events, i, c);
    } else {
      assert Steady(events[k - 1].e) && Begins(events[k - 1]) <= Ends(events[k - 1]);
      assert Ends(events[k - 2]) <= Begins(events[k - 1]) && Ends(events[i]) <= Begins(events[k - 1]);
      RecordIsKept(cfg, boot, events, i, k - 1, c);
      OneMoreKeepsRecord(cfg, boot, events, k - 1, c.id, Ends(events[i]));
    }
  }

  lemma NoRestartBetween(cfg: Config, boot: string, events: seq<WorldEvent>, i: nat, j: nat, c: Command)
    requires FreshBoots(boot, events) && i < j < |events| && c.targetBoot.Some?
    requires HandsOverAt(cfg, boot, events, i, c) && HandsOverAt(cfg, boot, events, j, c)
    ensures forall r :: i < r < j ==> events[r].Callback?
  {
    forall r | i < r < j
      ensures events[r].Callback?
    {
      if events[r].Restart? {
        assert events[..j][..i] == events[..i];
        SameBootNoRestart(cfg, boot, events[..j], i, r);
      }
    }
  }

  /**
   End to end, at most once. A command bound to a boot, whose expiry is no later than 300 s
   (and one microsecond), less the length of a callback, after some receipt of it (the
   first, say), is handed to ROS at most once: whatever is redelivered, whatever the
   feedback, however often the bridge restarts.
  */
  lemma HandedAtMostOnce(
    cfg: Config, boot: string, events: seq<WorldEvent>, d: int, f: nat, i: nat, j: nat, c: Command)
    requires Clocked(events) && FreshBoots(boot, events) && Brisk(events, d)
    requires f <= i < j < |events| && Receives(events[f], c)
    requires c.targetBoot.Some? && c.expiresAt.Some? && c.expiresAt.value <= Begins(events[f]) + DEDUP_TTL + 1 - d
    requires HandsOverAt(cfg, boot, events, i, c)
    ensures !HandsOverAt(cfg, boot, events, j, c)
  {
    if HandsOverAt(cfg, boot, events, j, c) {
      NoRestartBetween(cfg, boot, events, i, j, c);
      assert Steady(events[i].e) && Steady(events[j].e) && Steady(events[f].e);
      assert f < i ==> Ends(events[f]) <= Begins(events[i]);
      assert Ends(events[j - 1]) <= Begins(events[j]) && Ends(events[j]) - Begins(events[j]) <= d;
      var before := WorldAfter(cfg, boot, events[..j]);
      HandedIsFit(before.bridge, cfg, before.boot, events[j].e.at, c);
      RecordIsKept(cfg, boot, events, i, j, c);
    }
  }

  // --- exactly which commands --------------------------------------------------------------

  /** Some bridge would take the command at time t. */
  ghost predicate Receivable(c: Command, t: int) {
    exists cfg, boot :: ValidateReceived(c, boot, cfg, t).None?
  }

  /**
   Whatever the configuration, the boots and the history around it: handed over at time t,
   the command is not handed over again. Callbacks take at most d.
  */
  ghost predicate OnceFrom(c: Command, t: int, d: int) {
    forall cfg: Config, boot: string, events: seq<WorldEvent>, i: nat, j: nat ::
      (Clocked(events) && FreshBoots(boot, events) && Brisk(events, d) && i < j < |events|
       && Begins(events[i]) == t && HandsOverAt(cfg, boot, events, i, c))
      ==> !HandsOverAt(cfg, boot, events, j, c)
  }

  function Instant(t: int): Reading { Reading(t, t, t, t) }

  /** An unbound command that is received twice at one instant, around a restart, is handed over twice. */
  lemma UnboundHandedAgain(c: Command, cfg: Config, boot: string, newBoot: string, t: int)
    requires c.targetBoot.None? && ValidateReceived(c, boot, cfg, t).None? && boot != newBoot
    ensures var events :=
        [Callback(Receive(Instant(t), c, true)), Restart(t, newBoot), Callback(Receive(Instant(t), c, true))];
      && Clocked(events) && FreshBoots(boot, events) && Brisk(events, 0)
      && HandsOverAt(cfg, boot, events, 0, c) && HandsOverAt(cfg, boot, events, 2, c)
  {
    var events :=
      [Callback(Receive(Instant(t), c, true)), Restart(t, newBoot), Callback(Receive(Instant(t), c, true))];
    assert events[..0] == [] && events[..2] == [events[0], events[1]] && events[..2][..1] == [events[0]];
    assert WorldAfter(cfg, boot, events[..2]) == World(newBoot, BOOTED);
  }

  function Refusal(id: string): Feedback { Feedback(id, ROS_REJECTED, None, None, None, None) }

  /**
   When the second receipt of a long-lived command is validated: as late as its callback needs
   to outlive the record.
  */
  function SecondLook(t: int, d: int): Reading
    requires d >= 0
  {
    var v := if d <= DEDUP_TTL + 1 then t + DEDUP_TTL + 1 - d else t;
    Reading(v, v + d, v + d, v + d)
  }

  function TwiceHistory(c: Command, t: int, d: int): seq<WorldEvent>
    requires d >= 0
  {
    [Callback(Receive(Instant(t), c, true)), Callback(Hear(t, Refusal(c.id))),
     Callback(Receive(SecondLook(t, d), c, true))]
  }

  function Only(c: Command): Config { Config(false, Silent, {c.cmd}) }

  lemma RefusedOnce(c: Command, boot: string, t: int, d: int)
    requires d >= 0 && ValidateReceived(c, boot, Only(c), t).None?
    ensures HandsOverAt(Only(c), boot, TwiceHistory(c, t, d), 0, c)
    ensures var w := WorldAfter(Only(c), boot, TwiceHistory(c, t, d)[..2]);
      w.boot == boot && w.bridge.lock.None? && c.id in w.bridge.processed && w.bridge.processed[c.id].ts == t
  {
    var events := TwiceHistory(c, t, d);
    assert events[..0] == [] && events[..2] == [events[0], events[1]] && events[..2][..1] == [events[0]];
    var first := [events[0]];
    assert first[..|first| - 1] == [] && WorldAfter(Only(c), boot, []) == World(boot, BOOTED);
    var w1 := WorldAfter(Only(c), boot, first);
    assert w1 == WorldStep(Only(c), World(boot, BOOTED), events[0]);
    assert w1.bridge.pending == map[c.id := Pending(c, false, true)];
    assert WorldAfter(Only(c), boot, events[..2]) == WorldStep(Only(c), w1, events[1]);
  }

  /** A longer-lived command outlives its record: refused by ROS the first time, it is handed over again. */
  lemma LongLivedHandedTwice(c: Command, boot: string, t: int, d: int)
    requires d >= 0 && ValidateReceived(c, boot, Only(c), t).None?
    requires c.expiresAt.value > t + DEDUP_TTL + 1 - d
    ensures var events := TwiceHistory(c, t, d);
      && Clocked(events) && FreshBoots(boot, events) && Brisk(events, d)
      && HandsOverAt(Only(c), boot, events, 0, c) && HandsOverAt(Only(c), boot, events, 2, c)
  {
    RefusedOnce(c, boot, t, d);
  }

  lemma SupportedIsEnough(c: Command, boot: string, cfg: Config, t: int)
    requires ValidateReceived(c, boot, cfg, t).None?
    ensures ValidateReceived(c, boot, Only(c), t).None? && c.expiresAt.Some? && t < c.expiresAt.value
    ensures c.targetBoot.Some? ==> c.targetBoot.value == boot
  {
  }

  /**
   Exactly which commands are handed over at most once in every history: of those that can
   be handed over at time t at all, the ones bound to a boot that expire no later than 300 s
   after t, less the longest callback, to the microsecond.
  */
  lemma OnceExactly(c: Command, t: int, d: int)
    requires Receivable(c, t) && d >= 0
    ensures OnceFrom(c, t, d) <==>
      c.targetBoot.Some? && c.expiresAt.Some? && c.expiresAt.value <= t + DEDUP_TTL + 1 - d
  {
    var cfg, boot :| ValidateReceived(c, boot, cfg, t).None?;
    SupportedIsEnough(c, boot, cfg, t);
    if c.targetBoot.None? {
      UnboundBreaks(c, cfg, boot, t, d);
    } else if c.expiresAt.value > t + DEDUP_TTL + 1 - d {
      LongLivedHandedTwice(c, boot, t, d);
      assert Begins(TwiceHistory(c, t, d)[0]) == t;
    } else {
      forall cfg: Config, boot: string, events: seq<WorldEvent>, i: nat, j: nat |
        Clocked(events) && FreshBoots(boot, events) && Brisk(events, d) && i < j < |events|
        && Begins(events[i]) == t && HandsOverAt(cfg, boot, events, i, c)
        ensures !HandsOverAt(cfg, boot, events, j, c)
      {
        HandedAtMostOnce(cfg, boot, events, d, i, i, j, c);
      }
    }
  }

  lemma UnboundBreaks(c: Command, cfg: Config, boot: string, t: int, d: int)
    requires c.targetBoot.None? && ValidateReceived(c, boot, cfg, t).None? && d >= 0
    ensures !OnceFrom(c, t, d)
  {
    var newBoot := boot + "'";
    var events :=
      [Callback(Receive(Instant(t), c, true)), Restart(t, newBoot), Callback(Receive(Instant(t), c, true))];
    UnboundHandedAgain(c, cfg, boot, newBoot, t);
    assert Brisk(events, d) && Begins(events[0]) == t;
  }
}
