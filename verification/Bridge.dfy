/**
 The vehicle bridge between MQTT and ROS, as values: the dedup records, the task
 lock, the pending commands, and the log of what was handed to ROS and sent back.
 Times are microseconds.
*/
module Bridge {
  import opened Wrappers
  import opened BridgeProtocol

  const DEDUP_TTL := 300_000_000

  datatype AckStatus = Accepted | Rejected

  datatype AckMsg = AckMsg(commandId: string, taskId: Option<string>, status: AckStatus, reason: Option<Reason>)

  datatype TaskState = TaskAccepted | TaskExecuting | TaskCompleted | TaskFailed | TaskCancelled

  predicate Final(s: TaskState) { s in {TaskCompleted, TaskFailed, TaskCancelled} }

  datatype TaskMsg = TaskMsg(taskId: Option<string>, status: TaskState, phase: string, progress: int)

  datatype Record = Record(
    ts: int, command: Command, ack: Option<AckMsg>, taskStatus: Option<TaskMsg>, terminal: bool)

  datatype Pending = Pending(command: Command, acked: bool, armed: bool)

  datatype RosState =
    ROS_ACCEPTED | ROS_REJECTED | ROS_EXECUTING | ROS_COMPLETED | ROS_FAILED | ROS_CANCELLED | ROS_OTHER

  datatype Feedback = Feedback(
    commandId: string, state: RosState, taskId: Option<string>,
    reasonCode: Option<string>, phase: Option<string>, progress: Option<int>)

  datatype Entry =
    | Handed(command: Command, delivered: bool)
    | RosSaid(feedback: Feedback)
    | AckSent(ack: AckMsg, replay: bool)
    | StatusSent(commandId: string, status: TaskMsg, replay: bool)

  datatype State = State(
    processed: map<string, Record>, lock: Option<string>, pending: map<string, Pending>, log: seq<Entry>)

  const BOOTED := State(map[], None, map[], [])

  // --- the pieces the callbacks are made of ------------------------------------------------

  function Cleanup(s: State, now: int): State {
    s.(processed := map k | k in s.processed && now - s.processed[k].ts <= DEDUP_TTL :: s.processed[k])
  }

  function Register(s: State, c: Command, now: int): State {
    s.(processed := s.processed[c.id := Record(now, c, None, None, false)])
  }

  function RememberAck(s: State, id: string, ack: AckMsg, now: int): State {
    if id in s.processed then s.(processed := s.processed[id := s.processed[id].(ack := Some(ack), ts := now)]) else s
  }

  function RememberStatus(s: State, id: string, status: TaskMsg, now: int): State {
    if id in s.processed
    then s.(processed := s.processed[id := s.processed[id].(taskStatus := Some(status), ts := now)]) else s
  }

  function MarkTerminal(s: State, id: string, now: int): State {
    if id in s.processed then s.(processed := s.processed[id := s.processed[id].(terminal := true, ts := now)]) else s
  }

  function Say(s: State, e: Entry): State { s.(log := s.log + [e]) }

  function SendAck(s: State, c: Command, status: AckStatus, reason: Option<Reason>, now: int): State {
    var ack := AckMsg(c.id, c.taskId, status, reason);
    Say(RememberAck(s, c.id, ack, now), AckSent(ack, false))
  }

  function Report(s: State, id: string, status: TaskMsg, now: int): State {
    Say(RememberStatus(s, id, status, now), StatusSent(id, status, false))
  }

  function ReleaseIfNeeded(s: State, cmd: Cmd): State { if IsTask(cmd) then s.(lock := None) else s }

  function Finalize(s: State, id: string, now: int): State {
    MarkTerminal(s.(pending := s.pending - {id}), id, now)
  }

  /** A redelivered command is answered from its record. */
  function Replay(s: State, id: string, r: Record): State {
    var s1 := if r.ack.Some? then Say(s, AckSent(r.ack.value, true)) else s;
    if r.taskStatus.Some? then Say(s1, StatusSent(id, r.taskStatus.value, true)) else s1
  }

  // --- the callbacks -----------------------------------------------------------------------

  predicate LockedOut(s: State, c: Command) { IsTask(c.cmd) && (!NonEmpty(c.taskId) || s.lock.Some?) }

  /**
   One callback reads the clock when it validates, when it looks the id up, and twice when it
   registers it: to drop expired records, and for the stamp. What follows is at that last time.
  */
  datatype Reading = Reading(validated: int, looked: int, cleaned: int, registered: int)

  /** Does this delivery get as far as publish_command? */
  predicate HandsOver(s: State, cfg: Config, boot: string, at: Reading, c: Command) {
    && ValidateReceived(c, boot, cfg, at.validated).None?
    && c.id !in Cleanup(s, at.looked).processed
    && !LockedOut(s, c)
  }

  /** The state a command that is not on record starts from: expired records dropped twice, a fresh one made. */
  function Known(s: State, at: Reading, c: Command): State {
    Register(Cleanup(Cleanup(s, at.looked), at.cleaned), c, at.registered)
  }

  function OnCommand(s: State, cfg: Config, boot: string, at: Reading, c: Command, delivered: bool): State {
    var reason := ValidateReceived(c, boot, cfg, at.validated);
    if reason.Some? then SendAck(s, c, Rejected, reason, at.registered)
    else
      var clean := Cleanup(s, at.looked);
      if c.id in clean.processed then Replay(clean, c.id, clean.processed[c.id])
      else
        var known := Known(s, at, c);
        if LockedOut(known, c) then SendAck(known, c, Rejected, Some(ACTIVE_TASK_CONFLICT), at.registered)
        else HandOver(known, cfg, at.registered, c, delivered)
  }

  function HandOver(s: State, cfg: Config, now: int, c: Command, delivered: bool): State {
    var handed := Say(if IsTask(c.cmd) then s.(lock := c.taskId) else s, Handed(c, delivered));
    if !delivered then SendAck(ReleaseIfNeeded(handed, c.cmd), c, Rejected, Some(BRIDGE_ADAPTER_NOT_CONNECTED), now)
    else
      var waiting := handed.(pending := handed.pending[c.id := Pending(c, false, true)]);
      if cfg.stubMode && cfg.stubReply != Silent then OnFeedback(waiting, now, StubFeedback(c, cfg.stubReply))
      else waiting
  }

  /** The pending table and lock once a command has gone out and waits for feedback. */
  function Waiting(s: State, c: Command): State {
    var handed := Say(if IsTask(c.cmd) then s.(lock := c.taskId) else s, Handed(c, true));
    handed.(pending := handed.pending[c.id := Pending(c, false, true)])
  }

  function StubFeedback(c: Command, reply: StubReply): Feedback {
    if reply == Accepts then Feedback(c.id, ROS_ACCEPTED, c.taskId, None, None, None)
    else Feedback(c.id, ROS_REJECTED, c.taskId, Some("BRIDGE_ADAPTER_NOT_CONNECTED"), None, None)
  }

  function StatusOf(r: RosState): TaskState {
    match r
    case ROS_COMPLETED => TaskCompleted
    case ROS_FAILED => TaskFailed
    case _ => TaskCancelled
  }

  function OrElse(s: Option<string>, default: string): string { if NonEmpty(s) then s.value else default }

  function RosName(r: RosState): string {
    match r
    case ROS_COMPLETED => "COMPLETED"
    case ROS_FAILED => "FAILED"
    case _ => "CANCELLED"
  }

  /** feedback.get("progress") or default: zero counts as absent. */
  function ProgressOr(p: Option<int>, default: int): int { if p.Some? && p.value != 0 then p.value else default }

  function OnFeedback(s0: State, now: int, fb: Feedback): State {
    if fb.commandId !in s0.pending then s0
    else
      var id, p := fb.commandId, s0.pending[fb.commandId];
      var c := p.command;
      var s := Say(s0, RosSaid(fb));
      var taskId := if NonEmpty(fb.taskId) then fb.taskId else c.taskId;
      match fb.state
      case ROS_ACCEPTED =>
        var acked := SendAck(s.(pending := s.pending[id := Pending(c, true, false)]), c, Accepted, None, now);
        if IsTask(c.cmd) then Report(acked, id, TaskMsg(taskId, TaskAccepted, "ACCEPTED", 0), now)
        else Finalize(acked, id, now)
      case ROS_REJECTED =>
        var reason := if NonEmpty(fb.reasonCode) then FromRos(fb.reasonCode.value) else COMMAND_REJECTED;
        Finalize(SendAck(ReleaseIfNeeded(s, c.cmd), c, Rejected, Some(reason), now), id, now)
      case ROS_OTHER => s
      case ROS_EXECUTING =>
        if !IsTask(c.cmd) then s
        else
          Report(s, id, TaskMsg(taskId, TaskExecuting, OrElse(fb.phase, "NAVIGATING"), ProgressOr(fb.progress, 0)), now)
      case _ =>
        if !IsTask(c.cmd) then s
        else
          var status := TaskMsg(taskId, StatusOf(fb.state), OrElse(fb.phase, RosName(fb.state)),
            ProgressOr(fb.progress, if fb.state == ROS_COMPLETED then 100 else 0));
          Finalize(Report(ReleaseIfNeeded(s, c.cmd), id, status, now), id, now)
  }

  function OnTimeout(s: State, now: int, id: string): State {
    if id !in s.pending || s.pending[id].acked then s
    else
      var c := s.pending[id].command;
      Finalize(SendAck(ReleaseIfNeeded(s, c.cmd), c, Rejected, Some(BRIDGE_ADAPTER_NOT_CONNECTED), now), id, now)
  }

  // --- one bridge process ------------------------------------------------------------------

  datatype Event =
    | Receive(at: Reading, command: Command, delivered: bool)
    | Hear(now: int, feedback: Feedback)
    | Fire(now: int, id: string)

  function Apply(s: State, cfg: Config, boot: string, e: Event): State {
    match e
    case Receive(at, c, delivered) => OnCommand(s, cfg, boot, at, c, delivered)
    case Hear(now, fb) => OnFeedback(s, now, fb)
    case Fire(now, id) => OnTimeout(s, now, id)
  }

  function Session(cfg: Config, boot: string, events: seq<Event>): State {
    if events == [] then BOOTED
    else Apply(Session(cfg, boot, events[..|events| - 1]), cfg, boot, events[|events| - 1])
  }

  function StartOf(e: Event): int {
    match e
    case Receive(at, _, _) => at.validated
    case Hear(now, _) => now
    case Fire(now, _) => now
  }

  function EndOf(e: Event): int { if e.Receive? then e.at.registered else StartOf(e) }

  /** The clock does not run back inside a callback. */
  predicate Steady(e: Event) { e.Receive? ==> e.at.validated <= e.at.looked <= e.at.cleaned <= e.at.registered }

  /** Callbacks follow one another, on a clock that does not run back. */
  ghost predicate Ticking(events: seq<Event>) {
    && (forall i :: 0 <= i < |events| ==> Steady(events[i]))
    && (forall i, j :: 0 <= i < j < |events| ==> EndOf(events[i]) <= StartOf(events[j]))
  }

  /** One command id always names the same command: the one the catalogue gives. */
  type Catalogue = string -> Command

  ghost predicate Follows(cat: Catalogue, e: Event) {
    e.Receive? ==> cat(e.command.id) == e.command
  }
}
