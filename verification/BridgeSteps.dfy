/** What a word from ROS or a timer does to the bridge, table by table. */
module BridgeSteps {
  import opened Wrappers
  import opened BridgeProtocol
  import opened Bridge

  /** Of the records at most the one under id has changed, in the ways given; what is None stays. */
  ghost predicate Touched(
    s: State, t: State, id: string, ack: Option<AckMsg>, status: Option<TaskMsg>, closed: bool, now: int)
  {
    && (forall k :: k in t.processed <==> k in s.processed)
    && (forall k :: k in t.processed && k != id ==> t.processed[k] == s.processed[k])
    && (id in t.processed ==>
         t.processed[id] == s.processed[id].(
           ack := if ack.Some? then ack else s.processed[id].ack,
           taskStatus := if status.Some? then status else s.processed[id].taskStatus,
           terminal := closed || s.processed[id].terminal,
           ts := now))
  }

  predicate Waits(s: State, id: string) { id in s.pending && s.pending[id].command.id == id }

  lemma {:induction false} Accepting(s: State, now: int, fb: Feedback) returns (ack: AckMsg, status: TaskMsg)
    requires Waits(s, fb.commandId) && fb.state == ROS_ACCEPTED
    ensures var t, id, c := OnFeedback(s, now, fb), fb.commandId, s.pending[fb.commandId].command;
      && ack == AckMsg(id, c.taskId, Accepted, None)
      && status == TaskMsg(if NonEmpty(fb.taskId) then fb.taskId else c.taskId, TaskAccepted, "ACCEPTED", 0)
      && (if IsTask(c.cmd) then
            && t.log == s.log + [RosSaid(fb)] + [AckSent(ack, false)] + [StatusSent(id, status, false)]
            && t.pending == s.pending[id := Pending(c, true, false)]
            && Touched(s, t, id, Some(ack), Some(status), false, now)
          else
            && t.log == s.log + [RosSaid(fb)] + [AckSent(ack, false)]
            && t.pending == s.pending - {id}
            && Touched(s, t, id, Some(ack), None, true, now))
  {
    var c := s.pending[fb.commandId].command;
    ack := AckMsg(c.id, c.taskId, Accepted, None);
    status := TaskMsg(if NonEmpty(fb.taskId) then fb.taskId else c.taskId, TaskAccepted, "ACCEPTED", 0);
    assert s.pending[c.id := Pending(c, true, false)] - {c.id} == s.pending - {c.id};
  }

  lemma {:induction false} Refusing(s: State, now: int, fb: Feedback) returns (ack: AckMsg)
    requires Waits(s, fb.commandId) && fb.state == ROS_REJECTED
    ensures var t, id, c := OnFeedback(s, now, fb), fb.commandId, s.pending[fb.commandId].command;
      var reason := if NonEmpty(fb.reasonCode) then FromRos(fb.reasonCode.value) else COMMAND_REJECTED;
      && ack == AckMsg(id, c.taskId, Rejected, Some(reason))
      && t.log == s.log + [RosSaid(fb)] + [AckSent(ack, false)]
      && t.pending == s.pending - {id}
      && Touched(s, t, id, Some(ack), None, true, now)
  {
    var c := s.pending[fb.commandId].command;
    var reason := if NonEmpty(fb.reasonCode) then FromRos(fb.reasonCode.value) else COMMAND_REJECTED;
    ack := AckMsg(c.id, c.taskId, Rejected, Some(reason));
  }

  lemma {:induction false} Reporting(s: State, now: int, fb: Feedback) returns (status: TaskMsg)
    requires Waits(s, fb.commandId) && IsTask(s.pending[fb.commandId].command.cmd)
    requires fb.state in {ROS_EXECUTING, ROS_COMPLETED, ROS_FAILED, ROS_CANCELLED}
    ensures var t, id, c := OnFeedback(s, now, fb), fb.commandId, s.pending[fb.commandId].command;
      && status.taskId == (if NonEmpty(fb.taskId) then fb.taskId else c.taskId)
      && status.status == (if fb.state == ROS_EXECUTING then TaskExecuting else StatusOf(fb.state))
      && status.phase == OrElse(fb.phase, if fb.state == ROS_EXECUTING then "NAVIGATING" else RosName(fb.state))
      && status.progress == ProgressOr(fb.progress, if fb.state == ROS_COMPLETED then 100 else 0)
      && t.log == s.log + [RosSaid(fb)] + [StatusSent(id, status, false)]
      && t.pending == (if fb.state == ROS_EXECUTING then s.pending else s.pending - {id})
      && Touched(s, t, id, None, Some(status), fb.state != ROS_EXECUTING, now)
  {
    status := OnFeedback(s, now, fb).log[|s.log| + 1].status;
  }

  lemma {:induction false} Remarking(s: State, now: int, fb: Feedback)
    requires Waits(s, fb.commandId) && fb.state !in {ROS_ACCEPTED, ROS_REJECTED}
    requires fb.state == ROS_OTHER || !IsTask(s.pending[fb.commandId].command.cmd)
    ensures OnFeedback(s, now, fb) == Say(s, RosSaid(fb))
  {
  }

  lemma {:induction false} GivingUp(s: State, now: int, id: string) returns (ack: AckMsg)
    requires Waits(s, id) && !s.pending[id].acked
    ensures var t, c := OnTimeout(s, now, id), s.pending[id].command;
      && ack == AckMsg(id, c.taskId, Rejected, Some(BRIDGE_ADAPTER_NOT_CONNECTED))
      && t.log == s.log + [AckSent(ack, false)]
      && t.pending == s.pending - {id}
      && Touched(s, t, id, Some(ack), None, true, now)
  {
    ack := AckMsg(id, s.pending[id].command.taskId, Rejected, Some(BRIDGE_ADAPTER_NOT_CONNECTED));
  }
}
