/** What the bridge may send back, and what it must eventually say about each command it remembers. */
module BridgeAcks {
  import opened Wrappers
  import opened BridgeProtocol
  import opened Bridge
  import opened BridgeLock

  // --- the log -----------------------------------------------------------------------------

  /** Before position i the command was handed to ROS, and after that ROS accepted it. */
  ghost predicate Justified(log: seq<Entry>, i: nat, id: string) {
    exists h: nat, r: nat :: h < r < i <= |log| && HandedAt(log, h, id) && RosAcceptedAt(log, r, id)
  }

  predicate HandedAt(log: seq<Entry>, h: nat, id: string)
    requires h < |log|
  {
    log[h].Handed? && log[h].delivered && log[h].command.id == id
  }

  predicate RosAcceptedAt(log: seq<Entry>, r: nat, id: string)
    requires r < |log|
  {
    log[r].RosSaid? && log[r].feedback.commandId == id && log[r].feedback.state == ROS_ACCEPTED
  }

  /** An accepted ACK needs its reasons in the log so far; a task status needs a task. */
  ghost predicate MaySay(log: seq<Entry>, e: Entry, cat: Catalogue) {
    match e
    case AckSent(ack, _) => ack.status == Accepted ==> Justified(log, |log|, ack.commandId)
    case StatusSent(id, _, _) => IsTask(cat(id).cmd)
    case _ => true
  }

  ghost predicate LogOk(log: seq<Entry>, cat: Catalogue) {
    forall i {:trigger log[i]} :: 0 <= i < |log| ==> MaySay(log[..i], log[i], cat)
  }

  lemma SayKeepsLog(log: seq<Entry>, e: Entry, cat: Catalogue)
    requires LogOk(log, cat) && MaySay(log, e, cat)
    ensures LogOk(log + [e], cat)
  {
    var longer := log + [e];
    forall i | 0 <= i < |longer|
      ensures MaySay(longer[..i], longer[i], cat)
    {
      if i < |log| {
        assert longer[..i] == log[..i] && longer[i] == log[i];
      } else {
        assert longer[..i] == log;
      }
    }
  }

  lemma JustifiedLater(log: seq<Entry>, i: nat, more: seq<Entry>, id: string)
    requires i <= |log| <= |more| && more[..|log|] == log && Justified(log[..i], i, id)
    ensures Justified(more, |more|, id)
  {
    var h: nat, r: nat :| h < r < i && HandedAt(log[..i], h, id) && RosAcceptedAt(log[..i], r, id);
    assert more[h] == log[h] && more[r] == log[r];
    assert HandedAt(more, h, id) && RosAcceptedAt(more, r, id);
  }

  ghost predicate SentBefore(log: seq<Entry>, ack: AckMsg) {
    exists k :: 0 <= k < |log| && log[k] == AckSent(ack, false)
  }

  ghost predicate HandedBefore(log: seq<Entry>, id: string) {
    exists h: nat :: h < |log| && HandedAt(log, h, id)
  }

  lemma ReplayMayBeSaid(log: seq<Entry>, ack: AckMsg, cat: Catalogue)
    requires LogOk(log, cat) && SentBefore(log, ack)
    ensures MaySay(log, AckSent(ack, true), cat)
  {
    var k :| 0 <= k < |log| && log[k] == AckSent(ack, false);
    assert MaySay(log[..k], log[k], cat);
    if ack.status == Accepted {
      assert Justified(log[..k], k, ack.commandId);
      JustifiedLater(log, k, log, ack.commandId);
    }
  }

  // --- the records -------------------------------------------------------------------------

  predicate PendingOk(p: Pending) { (p.acked ==> IsTask(p.command.cmd)) && (!p.acked ==> p.armed) }

  /** Nothing remembered is left hanging: acked, finished, or waiting with a running timer. */
  predicate Attended(s: State, id: string)
    requires id in s.processed
  {
    || s.processed[id].ack.Some?
    || (s.processed[id].taskStatus.Some? && Final(s.processed[id].taskStatus.value.status) && id !in s.pending)
    || (id in s.pending && !s.pending[id].acked && s.pending[id].armed)
  }

  ghost predicate RecordOk(s: State, id: string, cat: Catalogue)
    requires id in s.processed
  {
    && Attended(s, id)
    && (s.processed[id].ack.Some? ==> SentBefore(s.log, s.processed[id].ack.value))
    && (s.processed[id].taskStatus.Some? ==> IsTask(cat(id).cmd))
  }

  ghost predicate WaitOk(s: State, id: string)
    requires id in s.pending
  {
    PendingOk(s.pending[id]) && HandedBefore(s.log, id)
  }

  ghost predicate Disciplined(s: State, cat: Catalogue) {
    && LogOk(s.log, cat)
    && (forall id :: id in s.pending ==> WaitOk(s, id))
    && (forall id :: id in s.processed ==> RecordOk(s, id, cat))
  }

  /** The log has only grown, and of the tables nothing but the entries of one id has changed. */
  ghost predicate OnlyTouches(s: State, t: State, id: string) {
    && s.log <= t.log
    && (forall k :: k in t.pending && k != id ==> k in s.pending && t.pending[k] == s.pending[k])
    && (forall k :: k in s.pending && k != id ==> k in t.pending)
    && (forall k :: k in t.processed && k != id ==> k in s.processed && t.processed[k] == s.processed[k])
  }

  lemma AckTouches(s: State, c: Command, status: AckStatus, reason: Option<Reason>, now: int)
    ensures OnlyTouches(s, SendAck(s, c, status, reason, now), c.id)
    ensures OnlyTouches(s, Finalize(SendAck(s, c, status, reason, now), c.id, now), c.id)
  {
  }

  lemma ReportTouches(s: State, id: string, status: TaskMsg, now: int)
    ensures OnlyTouches(s, Report(s, id, status, now), id)
    ensures OnlyTouches(s, Finalize(Report(s, id, status, now), id, now), id)
  {
  }

  lemma TouchesTwice(s: State, t: State, u: State, id: string)
    requires OnlyTouches(s, t, id) && OnlyTouches(t, u, id)
    ensures OnlyTouches(s, u, id)
  {
  }

  /** All that is left to check of a new state when the log has only grown. */
  lemma DisciplinedIf(s: State, t: State, cat: Catalogue, id: string)
    requires Disciplined(s, cat) && OnlyTouches(s, t, id) && LogOk(t.log, cat)
    requires id in t.pending ==> WaitOk(t, id)
    requires id in t.processed ==> RecordOk(t, id, cat)
    ensures Disciplined(t, cat)
  {
    forall k | k in t.pending
      ensures WaitOk(t, k)
    {
      if k != id {
        assert WaitOk(s, k);
        var h: nat :| h < |s.log| && HandedAt(s.log, h, k);
        assert HandedAt(t.log, h, k);
      }
    }
    forall k | k in t.processed
      ensures RecordOk(t, k, cat)
    {
      if k != id {
        assert RecordOk(s, k, cat);
        if s.processed[k].ack.Some? {
          var j :| 0 <= j < |s.log| && s.log[j] == AckSent(s.processed[k].ack.value, false);
          assert t.log[j] == s.log[j];
        }
      }
    }
  }

  /** Sending a rejection is always allowed; it settles the record, if there is one. */
  lemma RejectKeeps(s: State, t: State, c: Command, reason: Option<Reason>, now: int, cat: Catalogue)
    requires Disciplined(s, cat)
    requires t == SendAck(s, c, Rejected, reason, now) || t == Finalize(SendAck(s, c, Rejected, reason, now), c.id, now)
    ensures Disciplined(t, cat)
  {
    var ack := AckMsg(c.id, c.taskId, Rejected, reason);
    AckTouches(s, c, Rejected, reason, now);
    SayKeepsLog(s.log, AckSent(ack, false), cat);
    assert t.log == s.log + [AckSent(ack, false)];
    assert t.log[|s.log|] == AckSent(ack, false);
    if c.id in s.processed {
      assert RecordOk(s, c.id, cat);
      assert SentBefore(t.log, ack);
    }
    if c.id in t.pending {
      assert WaitOk(s, c.id);
      var h: nat :| h < |s.log| && HandedAt(s.log, h, c.id);
      assert HandedAt(t.log, h, c.id);
    }
    DisciplinedIf(s, t, cat, c.id);
  }

  /** Only the lock differs. */
  lemma SameButLock(s: State, t: State, cat: Catalogue)
    requires Disciplined(s, cat) && t == s.(lock := t.lock)
    ensures Disciplined(t, cat)
  {
    DisciplinedIf(s, t, cat, "");
  }

  lemma HearKeeps(s: State, fb: Feedback, cat: Catalogue)
    requires Disciplined(s, cat)
    ensures Disciplined(Say(s, RosSaid(fb)), cat)
  {
    SayKeepsLog(s.log, RosSaid(fb), cat);
    var t := Say(s, RosSaid(fb));
    forall id | id in s.pending
      ensures WaitOk(t, id)
    {
      assert WaitOk(s, id);
      var h: nat :| h < |s.log| && HandedAt(s.log, h, id);
      assert HandedAt(t.log, h, id);
    }
    forall id | id in s.processed
      ensures RecordOk(t, id, cat)
    {
      assert RecordOk(s, id, cat);
      if s.processed[id].ack.Some? {
        var j :| 0 <= j < |s.log| && s.log[j] == AckSent(s.processed[id].ack.value, false);
        assert t.log[j] == s.log[j];
      }
    }
  }

  lemma AcceptIsJustified(s: State, fb: Feedback, ack: AckMsg, cat: Catalogue)
    requires Disciplined(s, cat) && fb.commandId in s.pending && fb.state == ROS_ACCEPTED
    requires ack.commandId == fb.commandId
    ensures LogOk(s.log + [RosSaid(fb)] + [AckSent(ack, false)], cat)
    ensures HandedBefore(s.log + [RosSaid(fb)] + [AckSent(ack, false)], fb.commandId)
  {
    var heard := s.log + [RosSaid(fb)];
    SayKeepsLog(s.log, RosSaid(fb), cat);
    assert WaitOk(s, fb.commandId);
    var h: nat :| h < |s.log| && HandedAt(s.log, h, fb.commandId);
    assert HandedAt(heard, h, fb.commandId) && RosAcceptedAt(heard, |s.log|, fb.commandId);
    assert Justified(heard, |heard|, fb.commandId);
    SayKeepsLog(heard, AckSent(ack, false), cat);
    assert HandedAt(heard + [AckSent(ack, false)], h, fb.commandId);
  }

  /** ROS accepted a pending command: the ACK is justified, and settles the record. */
  lemma AcceptKeeps(s: State, heard: State, acked: State, fb: Feedback, now: int, cat: Catalogue)
    requires Disciplined(s, cat) && Named(s, cat)
    requires fb.commandId in s.pending && fb.state == ROS_ACCEPTED && heard == Say(s, RosSaid(fb))
    requires var id, c := fb.commandId, s.pending[fb.commandId].command;
      acked == SendAck(heard.(pending := heard.pending[id := Pending(c, true, false)]), c, Accepted, None, now)
    ensures IsTask(s.pending[fb.commandId].command.cmd) ==> Disciplined(acked, cat)
    ensures !IsTask(s.pending[fb.commandId].command.cmd) ==> Disciplined(Finalize(acked, fb.commandId, now), cat)
  {
    var id, c := fb.commandId, s.pending[fb.commandId].command;
    var ack := AckMsg(c.id, c.taskId, Accepted, None);
    AcceptIsJustified(s, fb, ack, cat);
    assert acked.log == s.log + [RosSaid(fb)] + [AckSent(ack, false)];
    assert acked.log[|s.log| + 1] == AckSent(ack, false);
    assert SentBefore(acked.log, ack);
    if id in s.processed {
      assert RecordOk(s, id, cat);
    }
    var settled := if IsTask(c.cmd) then acked else Finalize(acked, id, now);
    var waiting := heard.(pending := heard.pending[id := Pending(c, true, false)]);
    AckTouches(waiting, c, Accepted, None, now);
    TouchesTwice(s, waiting, settled, id);
    DisciplinedIf(s, settled, cat, id);
  }

  /** A status of a pending task; a final one also lets the command go. */
  lemma ReportKeeps(s: State, t: State, id: string, status: TaskMsg, now: int, cat: Catalogue)
    requires Disciplined(s, cat) && id in s.pending && IsTask(cat(id).cmd)
    requires || t == Report(s, id, status, now)
             || (t == Finalize(Report(s, id, status, now), id, now) && Final(status.status))
    requires !Final(status.status) ==> t == Report(s, id, status, now)
    requires Final(status.status) ==> t == Finalize(Report(s, id, status, now), id, now)
    ensures Disciplined(t, cat)
  {
    ReportTouches(s, id, status, now);
    SayKeepsLog(s.log, StatusSent(id, status, false), cat);
    assert t.log == s.log + [StatusSent(id, status, false)];
    assert WaitOk(s, id);
    var h: nat :| h < |s.log| && HandedAt(s.log, h, id);
    assert HandedAt(t.log, h, id);
    if id in s.processed {
      assert RecordOk(s, id, cat);
      if s.processed[id].ack.Some? {
        var j :| 0 <= j < |s.log| && s.log[j] == AckSent(s.processed[id].ack.value, false);
        assert t.log[j] == s.log[j];
      }
    }
    DisciplinedIf(s, t, cat, id);
  }

  lemma FeedbackKeeps(s0: State, now: int, fb: Feedback, cat: Catalogue)
    requires Disciplined(s0, cat) && Named(s0, cat)
    ensures Disciplined(OnFeedback(s0, now, fb), cat)
  {
    if fb.commandId in s0.pending {
      var id, c := fb.commandId, s0.pending[fb.commandId].command;
      var s := Say(s0, RosSaid(fb));
      var taskId := if NonEmpty(fb.taskId) then fb.taskId else c.taskId;
      HearKeeps(s0, fb, cat);
      SameButLock(s, ReleaseIfNeeded(s, c.cmd), cat);
      match fb.state
      case ROS_ACCEPTED =>
        var acked := SendAck(s.(pending := s.pending[id := Pending(c, true, false)]), c, Accepted, None, now);
        AcceptKeeps(s0, s, acked, fb, now, cat);
        if IsTask(c.cmd) {
          ReportKeeps(acked, OnFeedback(s0, now, fb), id, TaskMsg(taskId, TaskAccepted, "ACCEPTED", 0), now, cat);
        }
      case ROS_REJECTED =>
        var reason := if NonEmpty(fb.reasonCode) then FromRos(fb.reasonCode.value) else COMMAND_REJECTED;
        RejectKeeps(ReleaseIfNeeded(s, c.cmd), OnFeedback(s0, now, fb), c, Some(reason), now, cat);
      case ROS_OTHER =>
      case ROS_EXECUTING =>
        if IsTask(c.cmd) {
          ReportKeeps(s, OnFeedback(s0, now, fb), id,
            TaskMsg(taskId, TaskExecuting, OrElse(fb.phase, "NAVIGATING"), ProgressOr(fb.progress, 0)), now, cat);
        }
      case _ =>
        if IsTask(c.cmd) {
          var status := TaskMsg(taskId, StatusOf(fb.state), OrElse(fb.phase, RosName(fb.state)),
            ProgressOr(fb.progress, if fb.state == ROS_COMPLETED then 100 else 0));
          ReportKeeps(ReleaseIfNeeded(s, c.cmd), OnFeedback(s0, now, fb), id, status, now, cat);
        }
    }
  }

  lemma TimeoutKeeps(s: State, now: int, id: string, cat: Catalogue)
    requires Disciplined(s, cat) && Named(s, cat)
    ensures Disciplined(OnTimeout(s, now, id), cat)
  {
    if id in s.pending && !s.pending[id].acked {
      var c := s.pending[id].command;
      SameButLock(s, ReleaseIfNeeded(s, c.cmd), cat);
      RejectKeeps(ReleaseIfNeeded(s, c.cmd), OnTimeout(s, now, id), c, Some(BRIDGE_ADAPTER_NOT_CONNECTED), now, cat);
    }
  }

  lemma CleanupKeeps(s: State, now: int, cat: Catalogue)
    requires Disciplined(s, cat)
    ensures Disciplined(Cleanup(s, now), cat)
  {
    var t := Cleanup(s, now);
    forall id | id in t.processed
      ensures RecordOk(t, id, cat)
    {
      assert RecordOk(s, id, cat);
    }
    forall id | id in t.pending
      ensures WaitOk(t, id)
    {
      assert WaitOk(s, id);
    }
  }

  lemma ReplayKeeps(s: State, id: string, cat: Catalogue)
    requires Disciplined(s, cat) && id in s.processed
    ensures Disciplined(Replay(s, id, s.processed[id]), cat)
  {
    var r := s.processed[id];
    assert RecordOk(s, id, cat);
    var s1 := if r.ack.Some? then Say(s, AckSent(r.ack.value, true)) else s;
    if r.ack.Some? {
      ReplayMayBeSaid(s.log, r.ack.value, cat);
      SayKeepsLog(s.log, AckSent(r.ack.value, true), cat);
      LongerLogKeeps(s, s1, cat);
    }
    var s2 := Replay(s, id, r);
    if r.taskStatus.Some? {
      SayKeepsLog(s1.log, StatusSent(id, r.taskStatus.value, true), cat);
      LongerLogKeeps(s1, s2, cat);
    }
  }

  lemma LongerLogKeeps(s: State, t: State, cat: Catalogue)
    requires Disciplined(s, cat) && t == s.(log := t.log) && s.log <= t.log && LogOk(t.log, cat)
    ensures Disciplined(t, cat)
  {
    forall id | id in t.pending
      ensures WaitOk(t, id)
    {
      assert WaitOk(s, id);
      var h: nat :| h < |s.log| && HandedAt(s.log, h, id);
      assert HandedAt(t.log, h, id);
    }
    forall id | id in t.processed
      ensures RecordOk(t, id, cat)
    {
      assert RecordOk(s, id, cat);
      if s.processed[id].ack.Some? {
        var j :| 0 <= j < |s.log| && s.log[j] == AckSent(s.processed[id].ack.value, false);
        assert t.log[j] == s.log[j];
      }
    }
  }

  /** A command goes out and now waits: its fresh record is attended by the running timer. */
  lemma WaitingKeeps(s: State, c: Command, now: int, cat: Catalogue)
    requires Disciplined(s, cat)
    ensures Disciplined(Waiting(Register(s, c, now), c), cat)
  {
    var t := Waiting(Register(s, c, now), c);
    SayKeepsLog(s.log, Handed(c, true), cat);
    assert HandedAt(t.log, |s.log|, c.id);
    DisciplinedIf(s, t, cat, c.id);
  }

  /** A record that was just made and is rejected at once. */
  lemma RejectNewKeeps(s: State, t: State, c: Command, extra: seq<Entry>, reason: Reason, now: int, cat: Catalogue)
    requires Disciplined(s, cat) && LogOk(s.log + extra, cat)
    requires t.processed
      == s.processed[c.id := Record(now, c, Some(AckMsg(c.id, c.taskId, Rejected, Some(reason))), None, false)]
    requires t.pending == s.pending
    requires t.log == s.log + extra + [AckSent(AckMsg(c.id, c.taskId, Rejected, Some(reason)), false)]
    ensures Disciplined(t, cat)
  {
    var ack := AckMsg(c.id, c.taskId, Rejected, Some(reason));
    SayKeepsLog(s.log + extra, AckSent(ack, false), cat);
    assert t.log[|s.log + extra|] == AckSent(ack, false);
    if c.id in t.pending {
      assert WaitOk(s, c.id);
      var h: nat :| h < |s.log| && HandedAt(s.log, h, c.id);
      assert HandedAt(t.log, h, c.id);
    }
    DisciplinedIf(s, t, cat, c.id);
  }

  /** A new command, past the dedup lookup: locked out, not deliverable, or handed over. */
  lemma NewCommandKeeps(s: State, cfg: Config, now: int, c: Command, delivered: bool, cat: Catalogue)
    requires Disciplined(s, cat) && Named(s, cat) && cat(c.id) == c
    ensures LockedOut(s, c) ==>
      Disciplined(SendAck(Register(s, c, now), c, Rejected, Some(ACTIVE_TASK_CONFLICT), now), cat)
    ensures !LockedOut(s, c) ==> Disciplined(HandOver(Register(s, c, now), cfg, now, c, delivered), cat)
  {
    var known := Register(s, c, now);
    if LockedOut(s, c) {
      assert s.log + [] == s.log;
      var refused := SendAck(known, c, Rejected, Some(ACTIVE_TASK_CONFLICT), now);
      RejectNewKeeps(s, refused, c, [], ACTIVE_TASK_CONFLICT, now, cat);
    } else if !delivered {
      SayKeepsLog(s.log, Handed(c, false), cat);
      var refused := HandOver(known, cfg, now, c, false);
      RejectNewKeeps(s, refused, c, [Handed(c, false)], BRIDGE_ADAPTER_NOT_CONNECTED, now, cat);
    } else {
      WaitingKeeps(s, c, now, cat);
      assert Named(Waiting(known, c), cat);
      FeedbackKeeps(Waiting(known, c), now, StubFeedback(c, cfg.stubReply), cat);
    }
  }

  lemma CommandKeeps(
    s: State, cfg: Config, boot: string, at: Reading, c: Command, delivered: bool, cat: Catalogue)
    requires Disciplined(s, cat) && Named(s, cat) && cat(c.id) == c
    ensures Disciplined(OnCommand(s, cfg, boot, at, c, delivered), cat)
  {
    var reason := ValidateReceived(c, boot, cfg, at.validated);
    if reason.Some? {
      RejectKeeps(s, OnCommand(s, cfg, boot, at, c, delivered), c, reason, at.registered, cat);
    } else {
      var clean := Cleanup(s, at.looked);
      CleanupKeeps(s, at.looked, cat);
      if c.id in clean.processed {
        ReplayKeeps(clean, c.id, cat);
      } else {
        CleanupKeeps(clean, at.cleaned, cat);
        NewCommandKeeps(Cleanup(clean, at.cleaned), cfg, at.registered, c, delivered, cat);
      }
    }
  }

  /**
   ACK discipline after every callback of every session: accepted ACKs, replayed or
   not, come after a hand-over and a ROS acceptance of that command; task statuses
   come from tasks only; every remembered command is acked, finished, or waiting
   with its timer running.
  */
  lemma {:induction false} AckDiscipline(cfg: Config, boot: string, events: seq<Event>, cat: Catalogue)
    requires forall i :: 0 <= i < |events| ==> Follows(cat, events[i])
    ensures Disciplined(Session(cfg, boot, events), cat)
  {
    if events != [] {
      var n := |events| - 1;
      AckDiscipline(cfg, boot, events[..n], cat);
      AlwaysNamed(cfg, boot, events[..n], cat);
      var s := Session(cfg, boot, events[..n]);
      match events[n]
      case Receive(at, c, delivered) => CommandKeeps(s, cfg, boot, at, c, delivered, cat);
      case Hear(now, fb) => FeedbackKeeps(s, now, fb, cat);
      case Fire(now, id) => TimeoutKeeps(s, now, id, cat);
    }
  }

  predicate AcceptedAt(log: seq<Entry>, i: nat) { i < |log| && log[i].AckSent? && log[i].ack.status == Accepted }

  /** Read off the log: an accepted ACK at position i has its two reasons before it, in order. */
  lemma {:induction false} AcceptedAckHasReasons(cfg: Config, boot: string, events: seq<Event>, cat: Catalogue, i: nat)
    returns (h: nat, r: nat)
    requires forall j :: 0 <= j < |events| ==> Follows(cat, events[j])
    requires AcceptedAt(Session(cfg, boot, events).log, i)
    ensures var log := Session(cfg, boot, events).log;
      h < r < i && HandedAt(log, h, log[i].ack.commandId) && RosAcceptedAt(log, r, log[i].ack.commandId)
  {
    AckDiscipline(cfg, boot, events, cat);
    var log := Session(cfg, boot, events).log;
    assert MaySay(log[..i], log[i], cat);
    assert Justified(log[..i], i, log[i].ack.commandId);
    h, r :| h < r < i
      && HandedAt(log[..i], h, log[i].ack.commandId) && RosAcceptedAt(log[..i], r, log[i].ack.commandId);
    assert log[h] == log[..i][h] && log[r] == log[..i][r];
  }

  // --- expired redeliveries ----------------------------------------------------------------

  predicate SaysExpired(ack: AckMsg) { ack.reason == Some(COMMAND_EXPIRED) }

  /** A record that remembers an expiry is of a command that has expired by now. */
  ghost predicate Buried(s: State, cat: Catalogue, now: int) {
    forall id :: id in s.processed && s.processed[id].ack.Some? && SaysExpired(s.processed[id].ack.value) ==>
      cat(id).expiresAt.Some? && cat(id).expiresAt.value <= now
  }

  predicate ReplaysExpiry(e: Entry) { e.AckSent? && e.replay && SaysExpired(e.ack) }

  ghost predicate NoExpiryReplayed(log: seq<Entry>) {
    forall k :: 0 <= k < |log| ==> !ReplaysExpiry(log[k])
  }

  /** An expired verdict means just that, and stays the verdict. */
  lemma ExpiredStaysExpired(c: Command, boot: string, cfg: Config, now: int, later: int)
    requires ValidateReceived(c, boot, cfg, now) == Some(COMMAND_EXPIRED) && now <= later
    ensures c.expiresAt.Some? && c.expiresAt.value <= now
    ensures ValidateReceived(c, boot, cfg, later) == Some(COMMAND_EXPIRED)
  {
  }

  lemma AckBuries(s: State, c: Command, status: AckStatus, reason: Option<Reason>, at: int, cat: Catalogue, now: int)
    requires Buried(s, cat, now) && NoExpiryReplayed(s.log)
    requires reason == Some(COMMAND_EXPIRED) ==> cat(c.id).expiresAt.Some? && cat(c.id).expiresAt.value <= now
    ensures Buried(SendAck(s, c, status, reason, at), cat, now)
    ensures NoExpiryReplayed(SendAck(s, c, status, reason, at).log)
  {
  }

  lemma ReportBuries(s: State, id: string, status: TaskMsg, at: int, cat: Catalogue, now: int)
    requires Buried(s, cat, now) && NoExpiryReplayed(s.log)
    ensures Buried(Report(s, id, status, at), cat, now) && NoExpiryReplayed(Report(s, id, status, at).log)
  {
  }

  lemma FinalizeBuries(s: State, id: string, at: int, cat: Catalogue, now: int)
    requires Buried(s, cat, now) && NoExpiryReplayed(s.log)
    ensures Buried(Finalize(s, id, at), cat, now) && NoExpiryReplayed(Finalize(s, id, at).log)
  {
  }

  lemma FeedbackBuries(s0: State, at: int, fb: Feedback, cat: Catalogue, now: int)
    requires Buried(s0, cat, now) && NoExpiryReplayed(s0.log)
    ensures Buried(OnFeedback(s0, at, fb), cat, now) && NoExpiryReplayed(OnFeedback(s0, at, fb).log)
  {
    if fb.commandId in s0.pending {
      var id, c := fb.commandId, s0.pending[fb.commandId].command;
      var s := Say(s0, RosSaid(fb));
      var taskId := if NonEmpty(fb.taskId) then fb.taskId else c.taskId;
      match fb.state
      case ROS_ACCEPTED =>
        var waiting := s.(pending := s.pending[id := Pending(c, true, false)]);
        var acked := SendAck(waiting, c, Accepted, None, at);
        AckBuries(waiting, c, Accepted, None, at, cat, now);
        ReportBuries(acked, id, TaskMsg(taskId, TaskAccepted, "ACCEPTED", 0), at, cat, now);
        FinalizeBuries(acked, id, at, cat, now);
      case ROS_REJECTED =>
        var reason := if NonEmpty(fb.reasonCode) then FromRos(fb.reasonCode.value) else COMMAND_REJECTED;
        var released := ReleaseIfNeeded(s, c.cmd);
        AckBuries(released, c, Rejected, Some(reason), at, cat, now);
        FinalizeBuries(SendAck(released, c, Rejected, Some(reason), at), id, at, cat, now);
      case ROS_OTHER =>
      case ROS_EXECUTING =>
        ReportBuries(s, id,
          TaskMsg(taskId, TaskExecuting, OrElse(fb.phase, "NAVIGATING"), ProgressOr(fb.progress, 0)), at, cat, now);
      case _ =>
        var status := TaskMsg(taskId, StatusOf(fb.state), OrElse(fb.phase, RosName(fb.state)),
          ProgressOr(fb.progress, if fb.state == ROS_COMPLETED then 100 else 0));
        var released := ReleaseIfNeeded(s, c.cmd);
        ReportBuries(released, id, status, at, cat, now);
        FinalizeBuries(Report(released, id, status, at), id, at, cat, now);
    }
  }

  lemma HandOverBuries(s: State, cfg: Config, at: int, c: Command, delivered: bool, cat: Catalogue, now: int)
    requires Buried(s, cat, now) && NoExpiryReplayed(s.log)
    ensures Buried(HandOver(s, cfg, at, c, delivered), cat, now)
    ensures NoExpiryReplayed(HandOver(s, cfg, at, c, delivered).log)
  {
    if delivered {
      FeedbackBuries(Waiting(s, c), at, StubFeedback(c, cfg.stubReply), cat, now);
    } else {
      var handed := Say(if IsTask(c.cmd) then s.(lock := c.taskId) else s, Handed(c, false));
      AckBuries(ReleaseIfNeeded(handed, c.cmd), c, Rejected, Some(BRIDGE_ADAPTER_NOT_CONNECTED), at, cat, now);
    }
  }

  lemma ReceiptBuries(
    s: State, cfg: Config, boot: string, at: Reading, c: Command, delivered: bool, cat: Catalogue, now: int)
    requires Buried(s, cat, now) && NoExpiryReplayed(s.log) && cat(c.id) == c
    requires now <= at.validated <= at.looked <= at.cleaned <= at.registered
    ensures Buried(OnCommand(s, cfg, boot, at, c, delivered), cat, at.registered)
    ensures NoExpiryReplayed(OnCommand(s, cfg, boot, at, c, delivered).log)
  {
    assert Buried(s, cat, at.registered);
    var reason := ValidateReceived(c, boot, cfg, at.validated);
    if reason.Some? {
      if reason == Some(COMMAND_EXPIRED) {
        ExpiredStaysExpired(c, boot, cfg, at.validated, at.registered);
      }
      AckBuries(s, c, Rejected, reason, at.registered, cat, at.registered);
    } else if c.id !in Cleanup(s, at.looked).processed {
      var known := Known(s, at, c);
      AckBuries(known, c, Rejected, Some(ACTIVE_TASK_CONFLICT), at.registered, cat, at.registered);
      HandOverBuries(known, cfg, at.registered, c, delivered, cat, at.registered);
    }
  }

  /**
   An expired redelivery does replace the remembered ACK of its command, but that ACK is
   never replayed: by then every delivery of the command fails validation first.
  */
  lemma {:induction false} ExpiryIsNeverReplayed(cfg: Config, boot: string, events: seq<Event>, cat: Catalogue)
    requires Ticking(events) && forall i :: 0 <= i < |events| ==> Follows(cat, events[i])
    ensures NoExpiryReplayed(Session(cfg, boot, events).log)
    ensures events != [] ==> Buried(Session(cfg, boot, events), cat, EndOf(events[|events| - 1]))
  {
    if events != [] {
      var n := |events| - 1;
      ExpiryIsNeverReplayed(cfg, boot, events[..n], cat);
      var s := Session(cfg, boot, events[..n]);
      var now := if n == 0 then StartOf(events[0]) else EndOf(events[n - 1]);
      assert Buried(s, cat, now);
      assert Steady(events[n]) && now <= StartOf(events[n]);
      match events[n]
      case Receive(at, c, delivered) => ReceiptBuries(s, cfg, boot, at, c, delivered, cat, now);
      case Hear(at, fb) => FeedbackBuries(s, at, fb, cat, at);
      case Fire(at, id) =>
        if id in s.pending && !s.pending[id].acked {
          var c := s.pending[id].command;
          var released := ReleaseIfNeeded(s, c.cmd);
          AckBuries(released, c, Rejected, Some(BRIDGE_ADAPTER_NOT_CONNECTED), at, cat, at);
          FinalizeBuries(
            SendAck(released, c, Rejected, Some(BRIDGE_ADAPTER_NOT_CONNECTED), at), id, at, cat, at);
        }
    }
  }
}
