/** The frames and payloads the relay exchanges, with JSON handling kept abstract:
    `JSON.parse` either throws or yields a document, and `JSON.stringify` is taken
    to be the identity on the documents and notices below. */
module Messages {
  import opened Wrappers

  /** Identity of one accepted socket; distinct sockets have distinct ids. */
  type SocketId = nat

  /** A parsed JSON document. Only its `type` property is ever inspected by the relay;
      every other property is carried along untouched as `rest`. */
  datatype Message = Message(kind: Option<string>, rest: string)

  /** A received text frame after `JSON.parse`: it either threw or produced a document. */
  datatype Frame = Unparseable | Parsed(msg: Message)

  /** What the relay writes to a console socket. */
  datatype Payload =
    | Relayed(msg: Message)                  // a device document, passed through verbatim
    | Status(connected: bool, text: string)  // `{type: "status", connected, message}`
    | Error(text: string, command: Message)  // `{type: "error", message, command}`

  /** One send, tagged with its recipient. The device only ever receives forwarded commands. */
  datatype Outbound =
    | ToDevice(device: SocketId, command: Message)
    | ToConsole(console: SocketId, payload: Payload)

  const TelemetryType: string := "telemetry"

  const RobotConnectedText: string := "Robot connected"
  const RobotDisconnectedText: string := "Robot disconnected"
  const RobotOnlineText: string := "Robot online"
  const RobotOfflineText: string := "Robot offline"
  const MissingTypeText: string := "Missing command type"
  const OfflineCommandText: string := "Robot offline - command not sent"
  const NoTelemetryText: string := "No telemetry data available"

  /** `message.type === "telemetry"` */
  predicate IsTelemetry(m: Message) {
    m.kind == Some(TelemetryType)
  }

  /** `!command.type` is false: the property is present and is not the empty string. */
  predicate HasCommandType(m: Message) {
    m.kind.Some? && m.kind.value != ""
  }

  /** A device document whose `type` is "telemetry": the only kind kept in the history. */
  type Telemetry = m: Message | IsTelemetry(m) witness Message(Some(TelemetryType), "")
}
