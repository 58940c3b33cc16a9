/**
 The bridge's two objects as the program keeps them: the shared state, and the command
 processor whose callbacks change it. Each callback is one step of the value model.
*/
module BridgeProcessor {
  import opened Wrappers
  import opened BridgeProtocol
  import opened Bridge

  /** One telemetry channel: its last value and when it arrived (microseconds). */
  datatype Channel = Channel(value: Option<real>, updated: Option<int>, wasStale: bool)

  const SILENT := Channel(None, None, false)

  predicate GoneStale(c: Channel, staleAfter: int, now: int) {
    c.value.Some? && c.updated.Some? && staleAfter > 0 && now - c.updated.value > staleAfter
  }

  class BridgeState {
    var mode: Option<string>
    var estopActive: Option<bool>
    var reportedActiveTaskId: Option<string>
    var taskLockId: Option<string>
    var cancelRequested: bool
    var battery: Channel
    var smoke: Channel
    var bottomIr: Option<real>
    var topIrMax: Option<real>
    var location: Option<string>
    var locationUpdated: Option<int>
    var processed: map<string, Record>

    constructor ()
      ensures taskLockId.None? && processed == map[] && !cancelRequested
    {
      mode, estopActive, reportedActiveTaskId := None, None, None;
      taskLockId, cancelRequested := None, false;
      battery, smoke, bottomIr, topIrMax := SILENT, SILENT, None, None;
      location, locationUpdated := None, None;
      processed := map[];
    }

    /** Drops exactly the records not touched for more than 300 s. */
    method CleanupLocked(now: int)
      modifies this`processed
      ensures forall k :: k in processed <==> k in old(processed) && now - old(processed)[k].ts <= DEDUP_TTL
      ensures forall k :: k in processed ==> processed[k] == old(processed)[k]
    {
      var expired := set k | k in processed && now - processed[k].ts > DEDUP_TTL;
      while expired != {}
        invariant forall k :: k in expired ==> k in old(processed) && now - old(processed)[k].ts > DEDUP_TTL
        invariant forall k ::
          k in processed <==> k in old(processed) && (k in expired || now - old(processed)[k].ts <= DEDUP_TTL)
        invariant forall k :: k in processed ==> processed[k] == old(processed)[k]
        decreases expired
      {
        var k :| k in expired;
        processed, expired := processed - {k}, expired - {k};
      }
    }

    method RegisterCommand(c: Command, cleaned: int, now: int)
      modifies this`processed
      ensures forall k ::
        k in processed <==> k == c.id || (k in old(processed) && cleaned - old(processed)[k].ts <= DEDUP_TTL)
      ensures forall k :: k in processed && k != c.id ==> processed[k] == old(processed)[k]
      ensures processed[c.id] == Record(now, c, None, None, false)
    {
      CleanupLocked(cleaned);
      processed := processed[c.id := Record(now, c, None, None, false)];
    }

    method GetCommandRecord(id: string, now: int) returns (record: Option<Record>)
      modifies this`processed
      ensures forall k :: k in processed <==> k in old(processed) && now - old(processed)[k].ts <= DEDUP_TTL
      ensures forall k :: k in processed ==> processed[k] == old(processed)[k]
      ensures record == if id in processed then Some(processed[id]) else None
    {
      CleanupLocked(now);
      record := if id in processed then Some(processed[id]) else None;
    }

    method RememberAck(id: string, ack: AckMsg, now: int)
      modifies this`processed
      ensures processed.Keys == old(processed).Keys
      ensures forall k :: k in processed && k != id ==> processed[k] == old(processed)[k]
      ensures id in processed ==> processed[id] == old(processed)[id].(ack := Some(ack), ts := now)
    {
      if id in processed {
        processed := processed[id := processed[id].(ack := Some(ack), ts := now)];
      }
    }

    method RememberTaskStatus(id: string, status: TaskMsg, now: int)
      modifies this`processed
      ensures processed.Keys == old(processed).Keys
      ensures forall k :: k in processed && k != id ==> processed[k] == old(processed)[k]
      ensures id in processed ==> processed[id] == old(processed)[id].(taskStatus := Some(status), ts := now)
    {
      if id in processed {
        processed := processed[id := processed[id].(taskStatus := Some(status), ts := now)];
      }
    }

    method MarkTerminal(id: string, now: int)
      modifies this`processed
      ensures processed.Keys == old(processed).Keys
      ensures forall k :: k in processed && k != id ==> processed[k] == old(processed)[k]
      ensures id in processed ==> processed[id] == old(processed)[id].(terminal := true, ts := now)
    {
      if id in processed {
        processed := processed[id := processed[id].(terminal := true, ts := now)];
      }
    }

    /** The lock is taken only when free, and never under an empty task id. */
    method AcquireTask(taskId: Option<string>) returns (ok: bool)
      modifies this`taskLockId, this`cancelRequested
      ensures ok <==> NonEmpty(taskId) && old(taskLockId).None?
      ensures taskLockId == if ok then taskId else old(taskLockId)
      ensures cancelRequested == (!ok && old(cancelRequested))
    {
      if !NonEmpty(taskId) || taskLockId.Some? {
        return false;
      }
      taskLockId, cancelRequested := taskId, false;
      return true;
    }

    method ReleaseTask()
      modifies this`taskLockId, this`cancelRequested
      ensures taskLockId.None? && !cancelRequested
    {
      taskLockId, cancelRequested := None, false;
    }

    /** All ROS telemetry is forgotten; the lock and the dedup records are not in its frame. */
    method ClearRosTelemetry()
      modifies this`mode, this`estopActive, this`reportedActiveTaskId, this`battery, this`smoke
      modifies this`bottomIr, this`topIrMax, this`location, this`locationUpdated
      ensures mode.None? && estopActive.None? && reportedActiveTaskId.None?
      ensures battery == SILENT && smoke == SILENT && bottomIr.None? && topIrMax.None?
      ensures location.None? && locationUpdated.None?
    {
      battery, smoke, bottomIr, topIrMax := SILENT, SILENT, None, None;
      location, locationUpdated := None, None;
      mode, estopActive, reportedActiveTaskId := None, None, None;
    }

    /** Reports the channels that went stale; each is reported once, until a value arrives again. */
    method ExpireStaleTelemetry(batteryStaleAfter: int, smokeStaleAfter: int, now: int)
      returns (batteryStale: bool, smokeStale: bool)
      modifies this`battery, this`smoke
      ensures batteryStale == GoneStale(old(battery), batteryStaleAfter, now)
      ensures smokeStale == GoneStale(old(smoke), smokeStaleAfter, now)
      ensures battery == if batteryStale then old(battery).(value := None, wasStale := true) else old(battery)
      ensures smoke == if smokeStale then old(smoke).(value := None, wasStale := true) else old(smoke)
      ensures batteryStale ==> forall later :: !GoneStale(battery, batteryStaleAfter, later)
      ensures smokeStale ==> forall later :: !GoneStale(smoke, smokeStaleAfter, later)
    {
      batteryStale, smokeStale := false, false;
      if GoneStale(battery, batteryStaleAfter, now) {
        battery := battery.(value := None, wasStale := true);
        batteryStale := true;
      }
      if GoneStale(smoke, smokeStaleAfter, now) {
        smoke := smoke.(value := None, wasStale := true);
        smokeStale := true;
      }
    }
  }

  class CommandProcessor {
    const config: Config
    const bootId: string
    const state: BridgeState
    var pending: map<string, Pending>
    /** What has gone to the ROS side and to MQTT, oldest first. */
    var log: seq<Entry>

    constructor (config: Config, bootId: string)
      ensures this.config == config && this.bootId == bootId
      ensures fresh(state) && Value() == BOOTED
    {
      this.config, this.bootId := config, bootId;
      state := new BridgeState();
      pending, log := map[], [];
    }

    ghost function Value(): State
      reads this, state
    {
      State(state.processed, state.taskLockId, pending, log)
    }

    method Ack(c: Command, status: AckStatus, reason: Option<Reason>, now: int)
      modifies this`log, state`processed
      ensures Value() == SendAck(old(Value()), c, status, reason, now)
    {
      var ack := AckMsg(c.id, c.taskId, status, reason);
      state.RememberAck(c.id, ack, now);
      log := log + [AckSent(ack, false)];
      assert state.processed == RememberAck(old(Value()), c.id, ack, now).processed;
    }

    method ReportTask(id: string, status: TaskMsg, now: int)
      modifies this`log, state`processed
      ensures Value() == Report(old(Value()), id, status, now)
    {
      state.RememberTaskStatus(id, status, now);
      log := log + [StatusSent(id, status, false)];
      assert state.processed == RememberStatus(old(Value()), id, status, now).processed;
    }

    method Release(cmd: Cmd)
      modifies state`taskLockId, state`cancelRequested
      ensures Value() == ReleaseIfNeeded(old(Value()), cmd)
    {
      if IsTask(cmd) {
        state.ReleaseTask();
      }
    }

    method FinalizeCommand(id: string, now: int)
      modifies this`pending, state`processed
      ensures Value() == Finalize(old(Value()), id, now)
    {
      pending := pending - {id};
      state.MarkTerminal(id, now);
      assert state.processed == Finalize(old(Value()), id, now).processed;
    }

    method SendReplay(id: string, record: Record)
      modifies this`log
      ensures Value() == Replay(old(Value()), id, record)
    {
      if record.ack.Some? {
        log := log + [AckSent(record.ack.value, true)];
      }
      if record.taskStatus.Some? {
        log := log + [StatusSent(id, record.taskStatus.value, true)];
      }
    }

    /** A redelivered command is answered from its record and goes no further. */
    method Lookup(c: Command, now: int) returns (replayed: bool)
      modifies this`log, state`processed
      ensures replayed == (c.id in Cleanup(old(Value()), now).processed)
      ensures replayed ==>
        Value() == Replay(Cleanup(old(Value()), now), c.id, Cleanup(old(Value()), now).processed[c.id])
      ensures !replayed ==> Value() == Cleanup(old(Value()), now)
    {
      var existing := state.GetCommandRecord(c.id, now);
      assert Value() == Cleanup(old(Value()), now);
      if existing.Some? {
        SendReplay(c.id, existing.value);
      }
      replayed := existing.Some?;
    }

    /** MQTT delivered a command; `delivered` is what publish_command answers, if it is asked. */
    method OnCommand(c: Command, at: Reading, delivered: bool)
      modifies this`pending, this`log, state`processed, state`taskLockId, state`cancelRequested
      ensures Value() == Bridge.OnCommand(old(Value()), config, bootId, at, c, delivered)
    {
      var reason := ValidateReceived(c, bootId, config, at.validated);
      if reason.Some? {
        Ack(c, Rejected, reason, at.registered);
        return;
      }
      var replayed := Lookup(c, at.looked);
      if replayed {
        return;
      }
      state.RegisterCommand(c, at.cleaned, at.registered);
      assert state.processed == Known(old(Value()), at, c).processed;
      if IsTask(c.cmd) {
        var acquired := state.AcquireTask(c.taskId);
        if !acquired {
          Ack(c, Rejected, Some(ACTIVE_TASK_CONFLICT), at.registered);
          return;
        }
      }
      Forward(c, at.registered, delivered, Known(old(Value()), at, c));
    }

    /** The command has passed every check and holds the lock if it needs it. */
    method Forward(c: Command, now: int, delivered: bool, ghost before: State)
      requires Value() == if IsTask(c.cmd) then before.(lock := c.taskId) else before
      modifies this`pending, this`log, state`processed, state`taskLockId, state`cancelRequested
      ensures Value() == HandOver(before, config, now, c, delivered)
    {
      log := log + [Handed(c, delivered)];
      if !delivered {
        Release(c.cmd);
        Ack(c, Rejected, Some(BRIDGE_ADAPTER_NOT_CONNECTED), now);
        return;
      }
      pending := pending[c.id := Pending(c, false, true)];
      if config.stubMode && config.stubReply != Silent {
        OnFeedback(StubFeedback(c, config.stubReply), now);
      }
    }

    /** ROS says something about a command. */
    method OnFeedback(fb: Feedback, now: int)
      modifies this`pending, this`log, state`processed, state`taskLockId, state`cancelRequested
      ensures Value() == Bridge.OnFeedback(old(Value()), now, fb)
    {
      if fb.commandId !in pending {
        return;
      }
      var id, c := fb.commandId, pending[fb.commandId].command;
      var taskId := if NonEmpty(fb.taskId) then fb.taskId else c.taskId;
      log := log + [RosSaid(fb)];
      if fb.state == ROS_ACCEPTED {
        pending := pending[id := Pending(c, true, false)];
        Ack(c, Accepted, None, now);
        if IsTask(c.cmd) {
          ReportTask(id, TaskMsg(taskId, TaskAccepted, "ACCEPTED", 0), now);
        } else {
          FinalizeCommand(id, now);
        }
      } else if fb.state == ROS_REJECTED {
        var reason := if NonEmpty(fb.reasonCode) then FromRos(fb.reasonCode.value) else COMMAND_REJECTED;
        Release(c.cmd);
        Ack(c, Rejected, Some(reason), now);
        FinalizeCommand(id, now);
      } else if IsTask(c.cmd) && fb.state == ROS_EXECUTING {
        ReportTask(id, TaskMsg(taskId, TaskExecuting, OrElse(fb.phase, "NAVIGATING"), ProgressOr(fb.progress, 0)), now);
      } else if IsTask(c.cmd) && fb.state in {ROS_COMPLETED, ROS_FAILED, ROS_CANCELLED} {
        var progress := ProgressOr(fb.progress, if fb.state == ROS_COMPLETED then 100 else 0);
        Release(c.cmd);
        ReportTask(id, TaskMsg(taskId, StatusOf(fb.state), OrElse(fb.phase, RosName(fb.state)), progress), now);
        FinalizeCommand(id, now);
      }
    }

    /** The timer armed for a command fires. */
    method OnTimeout(id: string, now: int)
      modifies this`pending, this`log, state`processed, state`taskLockId, state`cancelRequested
      ensures Value() == Bridge.OnTimeout(old(Value()), now, id)
    {
      if id !in pending || pending[id].acked {
        return;
      }
      var c := pending[id].command;
      Release(c.cmd);
      Ack(c, Rejected, Some(BRIDGE_ADAPTER_NOT_CONNECTED), now);
      FinalizeCommand(id, now);
    }
  }
}
