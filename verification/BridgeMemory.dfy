/**
 The bridge's tables as a function of its log: which commands it waits for, which of them ROS
 has accepted, and what each record remembers. So its next answers can be read off what it said.
*/
module BridgeMemory {
  import opened Wrappers
  import opened BridgeProtocol
  import opened Bridge
  import opened BridgeLock
  import opened BridgeSteps

  // --- read off the log --------------------------------------------------------------------

  /** The last fresh ACK for the id, if the command has not been handed over since. */
  function AckSince(log: seq<Entry>, id: string): Option<AckMsg> {
    if log == [] then None
    else
      var n := |log| - 1;
      match log[n]
      case AckSent(ack, false) => if ack.commandId == id then Some(ack) else AckSince(log[..n], id)
      case Handed(c, _) => if c.id == id then None else AckSince(log[..n], id)
      case _ => AckSince(log[..n], id)
  }

  /** The last fresh status for the id, unless the command came anew since: handed over, or refused for a task. */
  function StatusSince(log: seq<Entry>, id: string): Option<TaskMsg> {
    if log == [] then None
    else
      var n := |log| - 1;
      match log[n]
      case StatusSent(k, status, false) => if k == id then Some(status) else StatusSince(log[..n], id)
      case Handed(c, _) => if c.id == id then None else StatusSince(log[..n], id)
      case AckSent(ack, false) =>
        if ack.commandId == id && ack.reason == Some(ACTIVE_TASK_CONFLICT) then None else StatusSince(log[..n], id)
      case _ => StatusSince(log[..n], id)
  }

  /** ROS has the last word on a command with this: a task may still be executing once accepted. */
  predicate Settles(state: RosState, c: Command) {
    || state == ROS_REJECTED
    || (if c.cmd in {Patrol, ReturnDock, Extinguish} then state in {ROS_COMPLETED, ROS_FAILED, ROS_CANCELLED}
        else state == ROS_ACCEPTED)
  }

  predicate HandedLast(log: seq<Entry>) { log != [] && log[|log| - 1].Handed? && !log[|log| - 1].delivered }

  /** Delivered to ROS, and since then neither settled by ROS nor given up. */
  predicate Outstanding(log: seq<Entry>, id: string, cat: Catalogue) {
    log != [] &&
    var n := |log| - 1;
    match log[n]
    case Handed(c, true) => c.id == id || Outstanding(log[..n], id, cat)
    case RosSaid(fb) => !(fb.commandId == id && Settles(fb.state, cat(id))) && Outstanding(log[..n], id, cat)
    case AckSent(ack, false) =>
      && !(ack.commandId == id && ack.reason == Some(BRIDGE_ADAPTER_NOT_CONNECTED) && !HandedLast(log[..n]))
      && Outstanding(log[..n], id, cat)
    case _ => Outstanding(log[..n], id, cat)
  }

  /** ROS has accepted the command since it was last delivered. */
  predicate AcceptedSince(log: seq<Entry>, id: string) {
    log != [] &&
    var n := |log| - 1;
    match log[n]
    case Handed(c, true) => c.id != id && AcceptedSince(log[..n], id)
    case RosSaid(fb) => (fb.commandId == id && fb.state == ROS_ACCEPTED) || AcceptedSince(log[..n], id)
    case _ => AcceptedSince(log[..n], id)
  }

  // --- the tables agree with it ------------------------------------------------------------

  predicate WaitAgrees(s: State, id: string, cat: Catalogue) {
    && (id in s.pending <==> Outstanding(s.log, id, cat))
    && (id in s.pending ==>
         s.pending[id].acked == AcceptedSince(s.log, id) && s.pending[id].armed == !s.pending[id].acked)
  }

  /** A record remembers what was said last; one that is not closed waits for ROS or was refused. */
  predicate RecordAgrees(s: State, id: string) {
    id in s.processed ==>
      && s.processed[id].ack == AckSince(s.log, id) && s.processed[id].taskStatus == StatusSince(s.log, id)
      && (s.processed[id].terminal ==> id !in s.pending)
      && (!s.processed[id].terminal && id !in s.pending ==>
           s.processed[id].ack.Some? && s.processed[id].ack.value.status == Rejected)
  }

  ghost predicate Agrees(s: State, cat: Catalogue) {
    && !HandedLast(s.log)
    && (forall id :: WaitAgrees(s, id, cat))
    && (forall id :: RecordAgrees(s, id))
  }

  lemma {:induction false} OneMore(log: seq<Entry>, e: Entry)
    ensures (log + [e])[..|log|] == log && (log + [e])[|log|] == e
  {
  }

  lemma {:induction false} AfterWord(log: seq<Entry>, fb: Feedback, id: string, cat: Catalogue)
    ensures var longer := log + [RosSaid(fb)];
      && AckSince(longer, id) == AckSince(log, id) && StatusSince(longer, id) == StatusSince(log, id)
      && Outstanding(longer, id, cat)
         == (Outstanding(log, id, cat) && !(fb.commandId == id && Settles(fb.state, cat(id))))
      && AcceptedSince(longer, id) == (AcceptedSince(log, id) || (fb.commandId == id && fb.state == ROS_ACCEPTED))
      && !HandedLast(longer)
  {
    OneMore(log, RosSaid(fb));
  }

  /** A fresh ACK that neither gives a wait up nor refuses a command for a task. */
  lemma {:induction false} AfterAck(log: seq<Entry>, ack: AckMsg, id: string, cat: Catalogue)
    requires ack.reason !in {Some(BRIDGE_ADAPTER_NOT_CONNECTED), Some(ACTIVE_TASK_CONFLICT)}
    ensures var longer := log + [AckSent(ack, false)];
      && AckSince(longer, id) == (if ack.commandId == id then Some(ack) else AckSince(log, id))
      && StatusSince(longer, id) == StatusSince(log, id)
      && Outstanding(longer, id, cat) == Outstanding(log, id, cat)
      && AcceptedSince(longer, id) == AcceptedSince(log, id)
      && !HandedLast(longer)
  {
    OneMore(log, AckSent(ack, false));
  }

  lemma {:induction false} AfterStatus(log: seq<Entry>, k: string, status: TaskMsg, id: string, cat: Catalogue)
    ensures var longer := log + [StatusSent(k, status, false)];
      && AckSince(longer, id) == AckSince(log, id)
      && StatusSince(longer, id) == (if k == id then Some(status) else StatusSince(log, id))
      && Outstanding(longer, id, cat) == Outstanding(log, id, cat)
      && AcceptedSince(longer, id) == AcceptedSince(log, id)
      && !HandedLast(longer)
  {
    OneMore(log, StatusSent(k, status, false));
  }

  lemma {:induction false} CleanupAgrees(s: State, now: int, cat: Catalogue)
    requires Agrees(s, cat)
    ensures Agrees(Cleanup(s, now), cat)
  {
    forall id
      ensures WaitAgrees(Cleanup(s, now), id, cat) && RecordAgrees(Cleanup(s, now), id)
    {
      assert WaitAgrees(s, id, cat) && RecordAgrees(s, id);
    }
  }

  /** A fresh ACK that is no verdict on a wait. */
  lemma {:induction false} AckAgrees(
    s: State, c: Command, status: AckStatus, reason: Option<Reason>, now: int, cat: Catalogue)
    requires Agrees(s, cat) && reason !in {Some(BRIDGE_ADAPTER_NOT_CONNECTED), Some(ACTIVE_TASK_CONFLICT)}
    requires status == Accepted ==> c.id in s.pending
    ensures Agrees(SendAck(s, c, status, reason, now), cat)
  {
    var t := SendAck(s, c, status, reason, now);
    OneMore(s.log, AckSent(AckMsg(c.id, c.taskId, status, reason), false));
    forall id
      ensures WaitAgrees(t, id, cat) && RecordAgrees(t, id)
    {
      assert WaitAgrees(s, id, cat) && RecordAgrees(s, id);
    }
  }

  lemma {:induction false} AcceptanceAgrees(
    s: State, t: State, fb: Feedback, ack: AckMsg, status: TaskMsg, now: int, cat: Catalogue)
    requires Agrees(s, cat) && fb.commandId in s.pending && fb.state == ROS_ACCEPTED
    requires ack.commandId == fb.commandId && ack.reason.None?
    requires var id, c, said := fb.commandId, cat(fb.commandId), s.log + [RosSaid(fb)] + [AckSent(ack, false)];
      if IsTask(c.cmd) then
        && t.log == said + [StatusSent(id, status, false)]
        && t.pending == s.pending[id := Pending(c, true, false)]
        && Touched(s, t, id, Some(ack), Some(status), false, now)
      else t.log == said && t.pending == s.pending - {id} && Touched(s, t, id, Some(ack), None, true, now)
    ensures Agrees(t, cat)
  {
    var acked := s.log + [RosSaid(fb)] + [AckSent(ack, false)];
    forall id
      ensures WaitAgrees(t, id, cat) && RecordAgrees(t, id) && !HandedLast(t.log)
    {
      assert WaitAgrees(s, id, cat) && RecordAgrees(s, id);
      AfterWord(s.log, fb, id, cat);
      AfterAck(s.log + [RosSaid(fb)], ack, id, cat);
      AfterStatus(acked, fb.commandId, status, id, cat);
    }
  }

  lemma {:induction false} RefusalAgrees(s: State, t: State, fb: Feedback, ack: AckMsg, now: int, cat: Catalogue)
    requires Agrees(s, cat) && fb.commandId in s.pending && fb.state == ROS_REJECTED
    requires ack.commandId == fb.commandId && ack.status == Rejected
    requires ack.reason !in {Some(BRIDGE_ADAPTER_NOT_CONNECTED), Some(ACTIVE_TASK_CONFLICT)}
    requires t.log == s.log + [RosSaid(fb)] + [AckSent(ack, false)] && t.pending == s.pending - {fb.commandId}
    requires Touched(s, t, fb.commandId, Some(ack), None, true, now)
    ensures Agrees(t, cat)
  {
    forall id
      ensures WaitAgrees(t, id, cat) && RecordAgrees(t, id) && !HandedLast(t.log)
    {
      assert WaitAgrees(s, id, cat) && RecordAgrees(s, id);
      AfterWord(s.log, fb, id, cat);
      AfterAck(s.log + [RosSaid(fb)], ack, id, cat);
    }
  }

  /** ROS reports on a task: the status is remembered, a final one ends the wait. */
  lemma {:induction false} StatusAgrees(
    s: State, t: State, fb: Feedback, status: TaskMsg, now: int, cat: Catalogue)
    requires Agrees(s, cat) && fb.commandId in s.pending && IsTask(cat(fb.commandId).cmd)
    requires fb.state in {ROS_EXECUTING, ROS_COMPLETED, ROS_FAILED, ROS_CANCELLED}
    requires t.log == s.log + [RosSaid(fb)] + [StatusSent(fb.commandId, status, false)]
    requires t.pending == if fb.state == ROS_EXECUTING then s.pending else s.pending - {fb.commandId}
    requires Touched(s, t, fb.commandId, None, Some(status), fb.state != ROS_EXECUTING, now)
    ensures Agrees(t, cat)
  {
    forall id
      ensures WaitAgrees(t, id, cat) && RecordAgrees(t, id) && !HandedLast(t.log)
    {
      assert WaitAgrees(s, id, cat) && RecordAgrees(s, id);
      AfterWord(s.log, fb, id, cat);
      AfterStatus(s.log + [RosSaid(fb)], fb.commandId, status, id, cat);
    }
  }

  /** Anything else ROS says is noted and left at that. */
  lemma {:induction false} RemarkAgrees(s: State, fb: Feedback, cat: Catalogue)
    requires Agrees(s, cat) && !Settles(fb.state, cat(fb.commandId)) && fb.state != ROS_ACCEPTED
    ensures Agrees(Say(s, RosSaid(fb)), cat)
  {
    var t := Say(s, RosSaid(fb));
    forall id
      ensures WaitAgrees(t, id, cat) && RecordAgrees(t, id) && !HandedLast(t.log)
    {
      assert WaitAgrees(s, id, cat) && RecordAgrees(s, id);
      AfterWord(s.log, fb, id, cat);
    }
  }

  lemma {:induction false} FeedbackAgrees(s: State, now: int, fb: Feedback, cat: Catalogue)
    requires Agrees(s, cat) && Named(s, cat)
    ensures Agrees(OnFeedback(s, now, fb), cat)
  {
    if fb.commandId in s.pending {
      var t := OnFeedback(s, now, fb);
      match fb.state {
        case ROS_ACCEPTED =>
          var ack, status := Accepting(s, now, fb);
          AcceptanceAgrees(s, t, fb, ack, status, now, cat);
        case ROS_REJECTED =>
          var ack := Refusing(s, now, fb);
          RefusalAgrees(s, t, fb, ack, now, cat);
        case _ =>
          if fb.state == ROS_OTHER || !IsTask(cat(fb.commandId).cmd) {
            Remarking(s, now, fb);
            RemarkAgrees(s, fb, cat);
          } else {
            var status := Reporting(s, now, fb);
            StatusAgrees(s, t, fb, status, now, cat);
          }
      }
    }
  }

  lemma {:induction false} GivingUpAgrees(s: State, t: State, id: string, ack: AckMsg, now: int, cat: Catalogue)
    requires Agrees(s, cat) && id in s.pending && ack.commandId == id && ack.status == Rejected
    requires ack.reason == Some(BRIDGE_ADAPTER_NOT_CONNECTED)
    requires t.log == s.log + [AckSent(ack, false)] && t.pending == s.pending - {id}
    requires Touched(s, t, id, Some(ack), None, true, now)
    ensures Agrees(t, cat)
  {
    OneMore(s.log, AckSent(ack, false));
    forall k
      ensures WaitAgrees(t, k, cat) && RecordAgrees(t, k)
    {
      assert WaitAgrees(s, k, cat) && RecordAgrees(s, k);
    }
  }

  lemma {:induction false} TimeoutAgrees(s: State, now: int, id: string, cat: Catalogue)
    requires Agrees(s, cat) && Named(s, cat)
    ensures Agrees(OnTimeout(s, now, id), cat)
  {
    if id in s.pending && !s.pending[id].acked {
      var ack := GivingUp(s, now, id);
      GivingUpAgrees(s, OnTimeout(s, now, id), id, ack, now, cat);
    }
  }

  lemma {:induction false} ReplayAgrees(s: State, id: string, cat: Catalogue)
    requires Agrees(s, cat) && id in s.processed
    ensures Agrees(Replay(s, id, s.processed[id]), cat)
  {
    var r, t := s.processed[id], Replay(s, id, s.processed[id]);
    var s1 := if r.ack.Some? then Say(s, AckSent(r.ack.value, true)) else s;
    if r.ack.Some? {
      OneMore(s.log, AckSent(r.ack.value, true));
    }
    if r.taskStatus.Some? {
      OneMore(s1.log, StatusSent(id, r.taskStatus.value, true));
    }
    forall k
      ensures WaitAgrees(t, k, cat) && RecordAgrees(t, k)
    {
      assert WaitAgrees(s, k, cat) && RecordAgrees(s, k);
    }
  }

  lemma {:induction false} ConflictAgrees(s: State, c: Command, now: int, cat: Catalogue)
    requires Agrees(s, cat)
    ensures Agrees(SendAck(Register(s, c, now), c, Rejected, Some(ACTIVE_TASK_CONFLICT), now), cat)
  {
    var t := SendAck(Register(s, c, now), c, Rejected, Some(ACTIVE_TASK_CONFLICT), now);
    OneMore(s.log, AckSent(AckMsg(c.id, c.taskId, Rejected, Some(ACTIVE_TASK_CONFLICT)), false));
    forall id
      ensures WaitAgrees(t, id, cat) && RecordAgrees(t, id)
    {
      assert WaitAgrees(s, id, cat) && RecordAgrees(s, id);
    }
  }

  lemma {:induction false} UndeliveredAgrees(s: State, cfg: Config, c: Command, now: int, cat: Catalogue)
    requires Agrees(s, cat)
    ensures Agrees(HandOver(Register(s, c, now), cfg, now, c, false), cat)
  {
    var t := HandOver(Register(s, c, now), cfg, now, c, false);
    OneMore(s.log, Handed(c, false));
    OneMore(s.log + [Handed(c, false)],
      AckSent(AckMsg(c.id, c.taskId, Rejected, Some(BRIDGE_ADAPTER_NOT_CONNECTED)), false));
    forall id
      ensures WaitAgrees(t, id, cat) && RecordAgrees(t, id)
    {
      assert WaitAgrees(s, id, cat) && RecordAgrees(s, id);
    }
  }

  lemma {:induction false} WaitingAgrees(s: State, c: Command, now: int, cat: Catalogue)
    requires Agrees(s, cat)
    ensures Agrees(Waiting(Register(s, c, now), c), cat)
  {
    var t := Waiting(Register(s, c, now), c);
    OneMore(s.log, Handed(c, true));
    forall id
      ensures WaitAgrees(t, id, cat) && RecordAgrees(t, id)
    {
      assert WaitAgrees(s, id, cat) && RecordAgrees(s, id);
    }
  }

  lemma {:induction false} CommandAgrees(
    s: State, cfg: Config, boot: string, at: Reading, c: Command, delivered: bool, cat: Catalogue)
    requires Agrees(s, cat) && Named(s, cat) && cat(c.id) == c
    ensures Agrees(OnCommand(s, cfg, boot, at, c, delivered), cat)
  {
    var reason, clean := ValidateReceived(c, boot, cfg, at.validated), Cleanup(s, at.looked);
    var both := Cleanup(clean, at.cleaned);
    CleanupAgrees(s, at.looked, cat);
    CleanupAgrees(clean, at.cleaned, cat);
    if reason.Some? {
      AckAgrees(s, c, Rejected, reason, at.registered, cat);
    } else if c.id in clean.processed {
      ReplayAgrees(clean, c.id, cat);
    } else if LockedOut(s, c) {
      ConflictAgrees(both, c, at.registered, cat);
    } else if !delivered {
      UndeliveredAgrees(both, cfg, c, at.registered, cat);
    } else {
      var waiting := Waiting(Known(s, at, c), c);
      WaitingAgrees(both, c, at.registered, cat);
      assert Named(waiting, cat);
      FeedbackAgrees(waiting, at.registered, StubFeedback(c, cfg.stubReply), cat);
    }
  }

  /** In every session in which one id names one command, the tables are those of the log. */
  lemma {:induction false} TablesFollowLog(cfg: Config, boot: string, events: seq<Event>, cat: Catalogue)
    requires forall i :: 0 <= i < |events| ==> Follows(cat, events[i])
    ensures Agrees(Session(cfg, boot, events), cat)
  {
    if events != [] {
      var n := |events| - 1;
      TablesFollowLog(cfg, boot, events[..n], cat);
      AlwaysNamed(cfg, boot, events[..n], cat);
      var s := Session(cfg, boot, events[..n]);
      match events[n]
      case Receive(at, c, delivered) => CommandAgrees(s, cfg, boot, at, c, delivered, cat);
      case Hear(now, fb) => FeedbackAgrees(s, now, fb, cat);
      case Fire(now, id) => TimeoutAgrees(s, now, id, cat);
    }
  }
}
