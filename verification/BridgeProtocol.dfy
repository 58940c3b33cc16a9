/** Commands as the vehicle bridge receives them, and the checks before anything else happens. */
module BridgeProtocol {
  import opened Wrappers

  datatype Cmd =
    | ManualControl | StopMotion | EmergencyStop | ResetEstop
    | ReturnDock | Patrol | Extinguish | CancelTask
    | OtherCmd(name: string)

  /** Commands that need a task id and the task lock. */
  predicate IsTask(cmd: Cmd) { cmd in {Patrol, ReturnDock, Extinguish} }

  /** A received envelope; expiresAt is None when it cannot be compared with the clock. */
  datatype Command = Command(
    schemaVersion: string, allFieldsPresent: bool, messageType: string,
    id: string, cmd: Cmd, taskId: Option<string>, targetBoot: Option<string>, expiresAt: Option<int>)

  datatype Reason =
    | PROTOCOL_VERSION_UNSUPPORTED | INVALID_PROTOCOL_MESSAGE | COMMAND_UNSUPPORTED | COMMAND_EXPIRED
    | ROBOT_BOOT_SESSION_UNKNOWN | ACTIVE_TASK_CONFLICT | BRIDGE_ADAPTER_NOT_CONNECTED
    | COMMAND_REJECTED | FromRos(code: string)

  datatype StubReply = Silent | Accepts | Rejects

  datatype Config = Config(stubMode: bool, stubReply: StubReply, supported: set<Cmd>)

  predicate NonEmpty(s: Option<string>) { s.Some? && s.value != "" }

  /** validate_command: None when the command may go on. */
  function ValidateCommand(c: Command, boot: string, now: int): Option<Reason> {
    if c.schemaVersion !in {"1.2", "1.3"} then Some(PROTOCOL_VERSION_UNSUPPORTED)
    else if !c.allFieldsPresent then Some(INVALID_PROTOCOL_MESSAGE)
    else if c.messageType != "command" then Some(INVALID_PROTOCOL_MESSAGE)
    else if c.cmd.OtherCmd? then Some(COMMAND_UNSUPPORTED)
    else if c.expiresAt.None? then Some(INVALID_PROTOCOL_MESSAGE)
    else if c.expiresAt.value <= now then Some(COMMAND_EXPIRED)
    else if c.targetBoot != Some(boot) && !(c.cmd == EmergencyStop && c.targetBoot.None?) then
      Some(ROBOT_BOOT_SESSION_UNKNOWN)
    else None
  }

  /** validate_received_command */
  function ValidateReceived(c: Command, boot: string, cfg: Config, now: int): Option<Reason> {
    var reason := ValidateCommand(c, boot, now);
    if reason.Some? then reason
    else if IsTask(c.cmd) && !NonEmpty(c.taskId) then Some(INVALID_PROTOCOL_MESSAGE)
    else if !cfg.stubMode && c.cmd !in cfg.supported then Some(COMMAND_UNSUPPORTED)
    else None
  }
}
