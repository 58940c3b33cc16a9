/**
 What the bridge sends, read off its log: every word from ROS about a pending command is
 passed on with its own meaning, and no fresh status or ACK is sent without its cause.
*/
module BridgeReplies {
  import opened Wrappers
  import opened BridgeProtocol
  import opened Bridge
  import opened BridgeLock
  import opened BridgeSteps

  // --- one word from ROS and what must follow it -------------------------------------------

  predicate AckAt(log: seq<Entry>, k: nat, c: Command, status: AckStatus, reason: Option<Reason>) {
    k < |log| && log[k] == AckSent(AckMsg(c.id, c.taskId, status, reason), false)
  }

  predicate Blank(s: Option<string>) { s.None? || s.value == "" }

  /** A fresh status of that state; whose task it is, its phase and its progress are ROS's, where ROS gave them. */
  predicate StatusAt(
    log: seq<Entry>, k: nat, fb: Feedback, c: Command, status: TaskState, phase: string, progress: int)
  {
    && k < |log| && log[k].StatusSent? && !log[k].replay && log[k].commandId == c.id
    && log[k].status.status == status
    && log[k].status.taskId == (if Blank(fb.taskId) then c.taskId else fb.taskId)
    && log[k].status.phase == (if Blank(fb.phase) then phase else fb.phase.value)
    && log[k].status.progress == (if fb.progress.None? || fb.progress.value == 0 then progress else fb.progress.value)
  }

  /** What ROS said at position i is passed on at once. */
  ghost predicate PassedOn(log: seq<Entry>, i: nat, fb: Feedback, c: Command) {
    && (fb.state == ROS_ACCEPTED ==> AckAt(log, i + 1, c, Accepted, None))
    && (fb.state == ROS_REJECTED ==>
         AckAt(log, i + 1, c, Rejected,
           Some(if Blank(fb.reasonCode) then COMMAND_REJECTED else FromRos(fb.reasonCode.value))))
    && (c.cmd in {Patrol, ReturnDock, Extinguish} ==>
         && (fb.state == ROS_ACCEPTED ==>
              StatusAt(log, i + 2, fb.(phase := None, progress := None), c, TaskAccepted, "ACCEPTED", 0))
         && (fb.state == ROS_EXECUTING ==> StatusAt(log, i + 1, fb, c, TaskExecuting, "NAVIGATING", 0))
         && (fb.state == ROS_COMPLETED ==> StatusAt(log, i + 1, fb, c, TaskCompleted, "COMPLETED", 100))
         && (fb.state == ROS_FAILED ==> StatusAt(log, i + 1, fb, c, TaskFailed, "FAILED", 0))
         && (fb.state == ROS_CANCELLED ==> StatusAt(log, i + 1, fb, c, TaskCancelled, "CANCELLED", 0)))
  }

  predicate HeardAt(log: seq<Entry>, k: int, id: string, state: RosState) {
    0 <= k < |log| && log[k].RosSaid? && log[k].feedback.commandId == id && log[k].feedback.state == state
  }

  /** A fresh status at position i was caused by ROS saying just that, of a task. */
  predicate StatusCaused(log: seq<Entry>, i: nat, id: string, status: TaskState, c: Command) {
    && c.cmd in {Patrol, ReturnDock, Extinguish}
    && match status
       case TaskAccepted => HeardAt(log, i - 2, id, ROS_ACCEPTED)
       case TaskExecuting => HeardAt(log, i - 1, id, ROS_EXECUTING)
       case TaskCompleted => HeardAt(log, i - 1, id, ROS_COMPLETED)
       case TaskFailed => HeardAt(log, i - 1, id, ROS_FAILED)
       case TaskCancelled => HeardAt(log, i - 1, id, ROS_CANCELLED)
  }

  /** So was a fresh accepted ACK, and a rejection in ROS's name. */
  predicate AckCaused(log: seq<Entry>, i: nat, ack: AckMsg) {
    && (ack.status == Accepted ==> ack.reason.None? && HeardAt(log, i - 1, ack.commandId, ROS_ACCEPTED))
    && (ack.reason.Some? && (ack.reason.value.FromRos? || ack.reason.value == COMMAND_REJECTED) ==>
         ack.status == Rejected && HeardAt(log, i - 1, ack.commandId, ROS_REJECTED))
  }

  ghost predicate Meant(log: seq<Entry>, i: nat, cat: Catalogue)
    requires i < |log|
  {
    match log[i]
    case RosSaid(fb) => PassedOn(log, i, fb, cat(fb.commandId))
    case StatusSent(id, status, false) => StatusCaused(log, i, id, status.status, cat(id))
    case AckSent(ack, false) => AckCaused(log, i, ack)
    case _ => true
  }

  ghost predicate Truthful(log: seq<Entry>, cat: Catalogue) {
    forall i {:trigger log[i]} :: 0 <= i < |log| ==> Meant(log, i, cat)
  }

  // --- callbacks add truthful pieces -------------------------------------------------------

  lemma {:induction false} MeantInFront(a: seq<Entry>, b: seq<Entry>, i: nat, cat: Catalogue)
    requires i < |a| && Meant(a, i, cat)
    ensures Meant(a + b, i, cat)
  {
  }

  lemma {:induction false} MeantBehind(a: seq<Entry>, b: seq<Entry>, i: nat, cat: Catalogue)
    requires i < |b| && Meant(b, i, cat)
    ensures Meant(a + b, |a| + i, cat)
  {
  }

  lemma {:induction false} TruthfulJoin(a: seq<Entry>, b: seq<Entry>, cat: Catalogue)
    requires Truthful(a, cat) && Truthful(b, cat)
    ensures Truthful(a + b, cat)
  {
    forall i | 0 <= i < |a + b|
      ensures Meant(a + b, i, cat)
    {
      if i < |a| {
        MeantInFront(a, b, i, cat);
      } else {
        MeantBehind(a, b, i - |a|, cat);
      }
    }
  }

  /** t's log is s's with a truthful piece added. */
  ghost predicate AddsTruth(s: State, t: State, added: seq<Entry>, cat: Catalogue) {
    t.log == s.log + added && Truthful(added, cat)
  }

  lemma {:induction false} AcceptanceIsMeant(fb: Feedback, ack: AckMsg, status: TaskMsg, c: Command, cat: Catalogue)
    requires fb.state == ROS_ACCEPTED && cat(fb.commandId) == c && c.id == fb.commandId
    requires ack == AckMsg(c.id, c.taskId, Accepted, None)
    requires status == TaskMsg(if NonEmpty(fb.taskId) then fb.taskId else c.taskId, TaskAccepted, "ACCEPTED", 0)
    ensures IsTask(c.cmd) ==> Truthful([RosSaid(fb), AckSent(ack, false), StatusSent(c.id, status, false)], cat)
    ensures !IsTask(c.cmd) ==> Truthful([RosSaid(fb), AckSent(ack, false)], cat)
  {
    var both := [RosSaid(fb), AckSent(ack, false)];
    var all := both + [StatusSent(c.id, status, false)];
    assert all == [RosSaid(fb), AckSent(ack, false), StatusSent(c.id, status, false)];
    if IsTask(c.cmd) {
      assert Meant(all, 0, cat) && Meant(all, 1, cat) && Meant(all, 2, cat);
    } else {
      assert Meant(both, 0, cat) && Meant(both, 1, cat);
    }
  }

  lemma {:induction false} RefusalIsMeant(fb: Feedback, ack: AckMsg, c: Command, cat: Catalogue)
    requires fb.state == ROS_REJECTED && cat(fb.commandId) == c && c.id == fb.commandId
    requires var reason := if NonEmpty(fb.reasonCode) then FromRos(fb.reasonCode.value) else COMMAND_REJECTED;
      ack == AckMsg(c.id, c.taskId, Rejected, Some(reason))
    ensures Truthful([RosSaid(fb), AckSent(ack, false)], cat)
  {
    TwoMeant(RosSaid(fb), AckSent(ack, false), cat);
  }

  lemma {:induction false} StatusIsMeant(fb: Feedback, status: TaskMsg, c: Command, cat: Catalogue)
    requires cat(fb.commandId) == c && c.id == fb.commandId && IsTask(c.cmd)
    requires fb.state in {ROS_EXECUTING, ROS_COMPLETED, ROS_FAILED, ROS_CANCELLED}
    requires status.taskId == if NonEmpty(fb.taskId) then fb.taskId else c.taskId
    requires status.status == if fb.state == ROS_EXECUTING then TaskExecuting else StatusOf(fb.state)
    requires status.phase == OrElse(fb.phase, if fb.state == ROS_EXECUTING then "NAVIGATING" else RosName(fb.state))
    requires status.progress == ProgressOr(fb.progress, if fb.state == ROS_COMPLETED then 100 else 0)
    ensures Truthful([RosSaid(fb), StatusSent(c.id, status, false)], cat)
  {
    var both := [RosSaid(fb), StatusSent(c.id, status, false)];
    assert Meant(both, 1, cat);
    assert Meant(both, 0, cat);
  }

  lemma {:induction false} FeedbackAdds(s: State, now: int, fb: Feedback, cat: Catalogue) returns (added: seq<Entry>)
    requires Named(s, cat)
    ensures AddsTruth(s, OnFeedback(s, now, fb), added, cat)
  {
    var c := cat(fb.commandId);
    if fb.commandId !in s.pending {
      added := [];
    } else if fb.state == ROS_ACCEPTED {
      var ack, status := Accepting(s, now, fb);
      AcceptanceIsMeant(fb, ack, status, c, cat);
      added := if IsTask(c.cmd) then [RosSaid(fb), AckSent(ack, false), StatusSent(c.id, status, false)]
        else [RosSaid(fb), AckSent(ack, false)];
    } else if fb.state == ROS_REJECTED {
      var ack := Refusing(s, now, fb);
      RefusalIsMeant(fb, ack, c, cat);
      added := [RosSaid(fb), AckSent(ack, false)];
    } else if fb.state == ROS_OTHER || !IsTask(c.cmd) {
      Remarking(s, now, fb);
      added := [RosSaid(fb)];
      assert Meant(added, 0, cat);
    } else {
      var status := Reporting(s, now, fb);
      StatusIsMeant(fb, status, c, cat);
      added := [RosSaid(fb), StatusSent(c.id, status, false)];
    }
  }

  lemma {:induction false} TwoMeant(a: Entry, b: Entry, cat: Catalogue)
    requires Meant([a, b], 0, cat) && Meant([a, b], 1, cat)
    ensures Truthful([a, b], cat)
  {
  }

  lemma {:induction false} ReplayIsMeant(id: string, r: Record, cat: Catalogue)
    ensures Truthful(Replay(BOOTED, id, r).log, cat)
  {
    var log := Replay(BOOTED, id, r).log;
    forall i | 0 <= i < |log|
      ensures Meant(log, i, cat)
    {
      assert (log[i].AckSent? || log[i].StatusSent?) && log[i].replay;
    }
  }

  /** What a receipt answers with when nothing is delivered. */
  lemma {:induction false} AnswerAdds(
    s: State, cfg: Config, boot: string, at: Reading, c: Command, delivered: bool, cat: Catalogue)
    returns (added: seq<Entry>)
    requires !(HandsOver(s, cfg, boot, at, c) && delivered)
    ensures AddsTruth(s, OnCommand(s, cfg, boot, at, c, delivered), added, cat)
  {
    var reason, clean := ValidateReceived(c, boot, cfg, at.validated), Cleanup(s, at.looked);
    if reason.Some? {
      added := [AckSent(AckMsg(c.id, c.taskId, Rejected, reason), false)];
      assert Meant(added, 0, cat);
    } else if c.id in clean.processed {
      added := Replay(BOOTED, c.id, clean.processed[c.id]).log;
      ReplayIsMeant(c.id, clean.processed[c.id], cat);
    } else if LockedOut(s, c) {
      added := [AckSent(AckMsg(c.id, c.taskId, Rejected, Some(ACTIVE_TASK_CONFLICT)), false)];
      assert Meant(added, 0, cat);
    } else {
      added := [Handed(c, false), AckSent(AckMsg(c.id, c.taskId, Rejected, Some(BRIDGE_ADAPTER_NOT_CONNECTED)), false)];
      TwoMeant(added[0], added[1], cat);
    }
  }

  lemma {:induction false} HandingIsMeant(c: Command, cat: Catalogue)
    ensures Truthful([Handed(c, true)], cat)
  {
    assert Meant([Handed(c, true)], 0, cat);
  }

  lemma {:induction false} WaitingIsNamed(s: State, c: Command, cat: Catalogue)
    requires Named(s, cat) && cat(c.id) == c
    ensures Named(Waiting(s, c), cat) && Waiting(s, c).log == s.log + [Handed(c, true)]
  {
  }

  lemma {:induction false} DeliveryIs(s: State, cfg: Config, now: int, c: Command)
    ensures HandOver(s, cfg, now, c, true) ==
      if cfg.stubMode && cfg.stubReply != Silent
      then OnFeedback(Waiting(s, c), now, StubFeedback(c, cfg.stubReply)) else Waiting(s, c)
  {
  }

  /** A command that is delivered, and what the stub answers, if it does. */
  lemma {:induction false} DeliveryAdds(s: State, cfg: Config, now: int, c: Command, cat: Catalogue)
    returns (added: seq<Entry>)
    requires Named(s, cat) && cat(c.id) == c
    ensures AddsTruth(s, HandOver(s, cfg, now, c, true), added, cat)
  {
    DeliveryIs(s, cfg, now, c);
    added := [Handed(c, true)];
    HandingIsMeant(c, cat);
    if cfg.stubMode && cfg.stubReply != Silent {
      WaitingIsNamed(s, c, cat);
      var reply := FeedbackAdds(Waiting(s, c), now, StubFeedback(c, cfg.stubReply), cat);
      TruthfulJoin(added, reply, cat);
      added := added + reply;
    }
  }

  lemma {:induction false} CommandAdds(
    s: State, cfg: Config, boot: string, at: Reading, c: Command, delivered: bool, cat: Catalogue)
    returns (added: seq<Entry>)
    requires Named(s, cat) && cat(c.id) == c
    ensures AddsTruth(s, OnCommand(s, cfg, boot, at, c, delivered), added, cat)
  {
    if HandsOver(s, cfg, boot, at, c) && delivered {
      SameTables(s, at, c);
      added := DeliveryAdds(Known(s, at, c), cfg, at.registered, c, cat);
    } else {
      added := AnswerAdds(s, cfg, boot, at, c, delivered, cat);
    }
  }

  lemma {:induction false} TimeoutAdds(s: State, now: int, id: string, cat: Catalogue) returns (added: seq<Entry>)
    ensures AddsTruth(s, OnTimeout(s, now, id), added, cat)
  {
    if id in s.pending && !s.pending[id].acked {
      var c := s.pending[id].command;
      added := [AckSent(AckMsg(c.id, c.taskId, Rejected, Some(BRIDGE_ADAPTER_NOT_CONNECTED)), false)];
      assert Meant(added, 0, cat);
    } else {
      added := [];
    }
  }

  /**
   In every session in which one id names one command: whatever ROS says about a pending
   command is passed on at once with its own meaning, progress and phase, and every fresh
   status, every accepted ACK and every rejection in ROS's name has ROS's word right before it.
  */
  lemma {:induction false} RepliesAreTrue(cfg: Config, boot: string, events: seq<Event>, cat: Catalogue)
    requires forall i :: 0 <= i < |events| ==> Follows(cat, events[i])
    ensures Truthful(Session(cfg, boot, events).log, cat)
  {
    if events != [] {
      var n := |events| - 1;
      RepliesAreTrue(cfg, boot, events[..n], cat);
      AlwaysNamed(cfg, boot, events[..n], cat);
      var s := Session(cfg, boot, events[..n]);
      var added: seq<Entry>;
      match events[n] {
        case Receive(at, c, delivered) =>
          added := CommandAdds(s, cfg, boot, at, c, delivered, cat);
        case Hear(now, fb) =>
          added := FeedbackAdds(s, now, fb, cat);
        case Fire(now, id) =>
          added := TimeoutAdds(s, now, id, cat);
      }
      TruthfulJoin(s.log, added, cat);
    }
  }
}
