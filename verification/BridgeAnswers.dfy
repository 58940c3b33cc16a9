/**
 What the bridge does next, from what it has said so far: the answer to a delivery, to a word
 from ROS and to a timer, in terms of the log, the command and the clock alone.
*/
module BridgeAnswers {
  import opened Wrappers
  import opened BridgeProtocol
  import opened Bridge
  import opened BridgeLock
  import opened BridgeMemory
  import opened BridgeSteps

  // --- why a command is refused ------------------------------------------------------------

  predicate TaskCommand(c: Command) { c.cmd in {Patrol, ReturnDock, Extinguish} }

  predicate Readable(c: Command) { (c.schemaVersion == "1.2" || c.schemaVersion == "1.3") && c.allFieldsPresent
                                   && c.messageType == "command" && !c.cmd.OtherCmd? && c.expiresAt.Some? }

  /** Bound to this boot, or an emergency stop bound to none. */
  predicate ForThisBoot(c: Command, boot: string) {
    c.targetBoot == Some(boot) || (c.targetBoot == None && c.cmd == EmergencyStop)
  }

  predicate Capable(c: Command, cfg: Config) { cfg.stubMode || c.cmd in cfg.supported }

  predicate Unexpired(c: Command, now: int) { c.expiresAt.Some? && now < c.expiresAt.value }

  /** Each reason means what it says, and a command goes on exactly if there is none. */
  lemma {:induction false} RefusedExactly(c: Command, boot: string, cfg: Config, now: int)
    ensures var r := ValidateReceived(c, boot, cfg, now);
      var fine := Readable(c) && Unexpired(c, now) && ForThisBoot(c, boot);
      && (r == None <==> fine && (TaskCommand(c) ==> c.taskId.Some? && c.taskId.value != "") && Capable(c, cfg))
      && (r == Some(COMMAND_EXPIRED) <==> Readable(c) && !Unexpired(c, now))
      && (r == Some(ROBOT_BOOT_SESSION_UNKNOWN) <==> Readable(c) && Unexpired(c, now) && !ForThisBoot(c, boot))
      && (r == Some(PROTOCOL_VERSION_UNSUPPORTED) <==> c.schemaVersion != "1.2" && c.schemaVersion != "1.3")
      && (r == Some(COMMAND_UNSUPPORTED) <==>
           || ((c.schemaVersion == "1.2" || c.schemaVersion == "1.3")
               && c.allFieldsPresent && c.messageType == "command" && c.cmd.OtherCmd?)
           || (fine && (TaskCommand(c) ==> c.taskId.Some? && c.taskId.value != "") && !Capable(c, cfg)))
      && r in {None, Some(COMMAND_EXPIRED), Some(ROBOT_BOOT_SESSION_UNKNOWN), Some(PROTOCOL_VERSION_UNSUPPORTED),
               Some(COMMAND_UNSUPPORTED), Some(INVALID_PROTOCOL_MESSAGE)}
  {
  }

  // --- answers -----------------------------------------------------------------------------

  /** A task command is out that ROS has neither settled nor been given up on. */
  ghost predicate TaskOut(log: seq<Entry>, cat: Catalogue) {
    exists id :: Outstanding(log, id, cat) && TaskCommand(cat(id))
  }

  /** The command is remembered: its record was touched in the last 300 s. */
  predicate Live(s: State, id: string, now: int) { id in s.processed && now - s.processed[id].ts <= 300_000_000 }

  function Refused(c: Command, reason: Reason): Entry {
    AckSent(AckMsg(c.id, c.taskId, Rejected, Some(reason)), false)
  }

  /** The ACK and the status on record, in that order. */
  function Repeated(log: seq<Entry>, id: string): seq<Entry> {
    var ack, status := AckSince(log, id), StatusSince(log, id);
    (if ack.Some? then [AckSent(ack.value, true)] else [])
    + (if status.Some? then [StatusSent(id, status.value, true)] else [])
  }

  lemma {:induction false} LockIsTaskOut(cfg: Config, boot: string, events: seq<Event>, cat: Catalogue)
    requires forall i :: 0 <= i < |events| ==> Follows(cat, events[i])
    ensures var s := Session(cfg, boot, events); s.lock.Some? <==> TaskOut(s.log, cat)
  {
    var s := Session(cfg, boot, events);
    LockInvariant(cfg, boot, events, cat);
    TablesFollowLog(cfg, boot, events, cat);
    if s.lock.Some? {
      var id :| PendingTask(s, id);
      assert WaitAgrees(s, id, cat);
    }
    if TaskOut(s.log, cat) {
      var id :| Outstanding(s.log, id, cat) && TaskCommand(cat(id));
      assert WaitAgrees(s, id, cat);
      assert PendingTask(s, id);
    }
  }

  /** The session, and the session with one more event. */
  lemma {:induction false} Next(cfg: Config, boot: string, events: seq<Event>, e: Event)
    ensures Session(cfg, boot, events + [e]) == Apply(Session(cfg, boot, events), cfg, boot, e)
  {
    assert (events + [e])[..|events|] == events;
  }

  /**
   The answer to a delivery: refused for its reason; repeated if the command is remembered;
   refused if it is a task while another is out; else handed to ROS, once, and refused only if
   ROS cannot be reached.
  */
  lemma {:induction false} DeliveryIsAnswered(
    cfg: Config, boot: string, events: seq<Event>, cat: Catalogue, at: Reading, c: Command, delivered: bool)
    requires forall i :: 0 <= i < |events| ==> Follows(cat, events[i])
    requires cat(c.id) == c
    ensures var s, t := Session(cfg, boot, events), Session(cfg, boot, events + [Receive(at, c, delivered)]);
      var reason := ValidateReceived(c, boot, cfg, at.validated);
      if reason.Some? then t.log == s.log + [Refused(c, reason.value)]
      else if Live(s, c.id, at.looked) then t.log == s.log + Repeated(s.log, c.id)
      else if TaskCommand(c) && TaskOut(s.log, cat) then t.log == s.log + [Refused(c, ACTIVE_TASK_CONFLICT)]
      else if !delivered then t.log == s.log + [Handed(c, false), Refused(c, BRIDGE_ADAPTER_NOT_CONNECTED)]
      else if !cfg.stubMode || cfg.stubReply == Silent then t.log == s.log + [Handed(c, true)]
      else s.log + [Handed(c, true), RosSaid(StubWord(c, cfg))] <= t.log
  {
    var s := Session(cfg, boot, events);
    Next(cfg, boot, events, Receive(at, c, delivered));
    LockIsTaskOut(cfg, boot, events, cat);
    TablesFollowLog(cfg, boot, events, cat);
    RefusedExactly(c, boot, cfg, at.validated);
    if ValidateReceived(c, boot, cfg, at.validated).None? {
      if Live(s, c.id, at.looked) {
        assert RecordAgrees(s, c.id);
        RepeatsRecord(s, c.id, at.looked);
      } else if !LockedOut(s, c) && delivered {
        WordFollows(Known(s, at, c), c, at.registered, cfg);
      }
    }
  }

  /** What the stub lets ROS say. */
  function StubWord(c: Command, cfg: Config): Feedback {
    if cfg.stubReply == Accepts then Feedback(c.id, ROS_ACCEPTED, c.taskId, None, None, None)
    else Feedback(c.id, ROS_REJECTED, c.taskId, Some("BRIDGE_ADAPTER_NOT_CONNECTED"), None, None)
  }

  lemma {:induction false} RepeatsRecord(s: State, id: string, now: int)
    requires Live(s, id, now) && RecordAgrees(s, id)
    ensures id in Cleanup(s, now).processed
    ensures Replay(Cleanup(s, now), id, Cleanup(s, now).processed[id]).log == s.log + Repeated(s.log, id)
  {
  }

  lemma {:induction false} WordFollows(s: State, c: Command, now: int, cfg: Config)
    ensures var t := HandOver(s, cfg, now, c, true);
      if !cfg.stubMode || cfg.stubReply == Silent then t.log == s.log + [Handed(c, true)]
      else s.log + [Handed(c, true), RosSaid(StubWord(c, cfg))] <= t.log
  {
    if cfg.stubMode && cfg.stubReply != Silent {
      WordIsNoted(Waiting(s, c), now, StubFeedback(c, cfg.stubReply));
    }
  }

  lemma {:induction false} WordIsNoted(s: State, now: int, fb: Feedback)
    ensures if fb.commandId in s.pending then s.log + [RosSaid(fb)] <= OnFeedback(s, now, fb).log
            else OnFeedback(s, now, fb) == s
  {
  }

  /** ROS is heard exactly about the commands that are out; anything else it says changes nothing. */
  lemma {:induction false} HeardExactly(
    cfg: Config, boot: string, events: seq<Event>, cat: Catalogue, now: int, fb: Feedback)
    requires forall i :: 0 <= i < |events| ==> Follows(cat, events[i])
    ensures var s, t := Session(cfg, boot, events), Session(cfg, boot, events + [Hear(now, fb)]);
      if Outstanding(s.log, fb.commandId, cat) then s.log + [RosSaid(fb)] <= t.log else t == s
  {
    Next(cfg, boot, events, Hear(now, fb));
    TablesFollowLog(cfg, boot, events, cat);
    var s := Session(cfg, boot, events);
    assert WaitAgrees(s, fb.commandId, cat);
    WordIsNoted(s, now, fb);
  }

  /** A timer gives a command up exactly if it is out and ROS has not accepted it. */
  lemma {:induction false} TimeoutExactly(
    cfg: Config, boot: string, events: seq<Event>, cat: Catalogue, now: int, id: string)
    requires forall i :: 0 <= i < |events| ==> Follows(cat, events[i])
    ensures var s, t := Session(cfg, boot, events), Session(cfg, boot, events + [Fire(now, id)]);
      if Outstanding(s.log, id, cat) && !AcceptedSince(s.log, id)
      then t.log == s.log + [Refused(cat(id), BRIDGE_ADAPTER_NOT_CONNECTED)] && !Outstanding(t.log, id, cat)
      else t == s
  {
    var later := events + [Fire(now, id)];
    Next(cfg, boot, events, Fire(now, id));
    AlwaysNamed(cfg, boot, events, cat);
    TablesFollowLog(cfg, boot, events, cat);
    TablesFollowLog(cfg, boot, later, cat);
    assert WaitAgrees(Session(cfg, boot, events), id, cat);
    assert WaitAgrees(Session(cfg, boot, later), id, cat);
  }

  // --- when a record was last touched ------------------------------------------------------

  /** Whatever a callback writes into a record, it dates with its own time. */
  ghost predicate Dated(s: State, t: State, now: int) {
    forall id :: id in t.processed && (id !in s.processed || t.processed[id] != s.processed[id]) ==>
      t.processed[id].ts == now
  }

  lemma {:induction false} FeedbackDates(s: State, now: int, fb: Feedback)
    requires fb.commandId in s.pending ==> s.pending[fb.commandId].command.id == fb.commandId
    ensures Dated(s, OnFeedback(s, now, fb), now)
  {
    if fb.commandId in s.pending {
      var c := s.pending[fb.commandId].command;
      if fb.state == ROS_ACCEPTED {
        var _, _ := Accepting(s, now, fb);
      } else if fb.state == ROS_REJECTED {
        var _ := Refusing(s, now, fb);
      } else if fb.state == ROS_OTHER || !IsTask(c.cmd) {
        Remarking(s, now, fb);
      } else {
        var _ := Reporting(s, now, fb);
      }
    }
  }

  lemma {:induction false} DatedTwice(s: State, t: State, u: State, now: int)
    requires Dated(s, t, now) && Dated(t, u, now)
    ensures Dated(s, u, now)
  {
  }

  lemma {:induction false} HandOverDates(s: State, cfg: Config, now: int, c: Command, delivered: bool)
    ensures Dated(s, HandOver(s, cfg, now, c, delivered), now)
  {
    if delivered {
      FeedbackDates(Waiting(s, c), now, StubFeedback(c, cfg.stubReply));
      DatedTwice(s, Waiting(s, c), HandOver(s, cfg, now, c, true), now);
    }
  }

  lemma {:induction false} DeliveryDates(s: State, cfg: Config, boot: string, at: Reading, c: Command, delivered: bool)
    ensures Dated(s, OnCommand(s, cfg, boot, at, c, delivered), at.registered)
  {
    if HandsOver(s, cfg, boot, at, c) {
      var known := Known(s, at, c);
      HandOverDates(known, cfg, at.registered, c, delivered);
      DatedTwice(s, known, OnCommand(s, cfg, boot, at, c, delivered), at.registered);
    }
  }

  lemma {:induction false} RecordsAreDated(
    cfg: Config, boot: string, events: seq<Event>, cat: Catalogue, e: Event)
    requires (forall i :: 0 <= i < |events| ==> Follows(cat, events[i])) && Follows(cat, e)
    ensures Dated(Session(cfg, boot, events), Session(cfg, boot, events + [e]), EndOf(e))
  {
    var s := Session(cfg, boot, events);
    Next(cfg, boot, events, e);
    AlwaysNamed(cfg, boot, events, cat);
    match e
    case Receive(at, c, delivered) => DeliveryDates(s, cfg, boot, at, c, delivered);
    case Hear(now, fb) => FeedbackDates(s, now, fb);
    case Fire(now, id) =>
  }
}
