/** The relay's socket handlers and read-only endpoints. Node runs each handler to
    completion on one thread, so every socket event is one atomic transition from a
    state to a new state plus the sends it made, in order. */
module Relay {
  import opened Wrappers
  import opened Messages
  import opened History
  import opened Connections

  /** Everything the relay remembers between events. */
  datatype State = State(reg: Registry, buffer: seq<Telemetry>)

  /** The state at startup: no device, no consoles, an empty history. */
  const Initial: State := State(Registry(None, [], {}), [])

  /** The history never exceeds its capacity. */
  predicate Valid(s: State) {
    |s.buffer| <= MaxBufferSize
  }

  /** The socket events the relay reacts to; `ReadyStateChanged` is the transport
      changing a socket's `readyState` between handler runs (for example to CLOSING
      before its close event fires). */
  datatype Event =
    | DeviceConnected(id: SocketId)
    | DeviceSent(id: SocketId, frame: Frame)
    | DeviceClosed(id: SocketId)
    | ConsoleConnected(id: SocketId)
    | ConsoleSent(id: SocketId, frame: Frame)
    | ConsoleClosed(id: SocketId)
    | ReadyStateChanged(id: SocketId, isOpen: bool)

  /** `/ws/robot` connect: the new socket takes the device slot and every open console
      is told the robot connected. */
  function OnDeviceConnect(s: State, id: SocketId): (r: (State, seq<Outbound>))
    ensures r.0.reg.device == Some(id) && IsDeviceLive(r.0.reg)
    ensures r.0.reg.consoles == s.reg.consoles && r.0.buffer == s.buffer
    ensures r.0.reg.open == s.reg.open + {id}
    ensures IsBroadcast(r.1, r.0.reg, Status(true, RobotConnectedText))
  {
    var reg := AttachDevice(s.reg, id);
    BroadcastIsExact(reg, Status(true, RobotConnectedText));
    (s.(reg := reg), Broadcast(reg, Status(true, RobotConnectedText)))
  }

  /** `/ws/robot` message: a parseable document is recorded if it is telemetry and
      relayed unchanged to every open console whatever its type; a frame that does
      not parse is only logged. The sending socket is not consulted. */
  function OnDeviceFrame(s: State, f: Frame): (r: (State, seq<Outbound>))
    ensures f.Unparseable? ==> r.0 == s && r.1 == []
    ensures r.0.reg == s.reg
    ensures f.Parsed? && IsTelemetry(f.msg) ==> r.0.buffer == LogTelemetry(s.buffer, f.msg)
    ensures !(f.Parsed? && IsTelemetry(f.msg)) ==> r.0.buffer == s.buffer
    ensures f.Parsed? ==> IsBroadcast(r.1, s.reg, Relayed(f.msg))
  {
    match f
    case Unparseable => (s, [])
    case Parsed(m) =>
      var buffer := if IsTelemetry(m) then var t: Telemetry := m; LogTelemetry(s.buffer, t) else s.buffer;
      BroadcastIsExact(s.reg, Relayed(m));
      (s.(buffer := buffer), Broadcast(s.reg, Relayed(m)))
  }

  /** `/ws/robot` close: the device slot is emptied, even when it already holds a newer
      socket, and every open console is told the robot disconnected. */
  function OnDeviceClose(s: State, id: SocketId): (r: (State, seq<Outbound>))
    ensures r.0.reg.device == None && !IsDeviceLive(r.0.reg)
    ensures r.0.reg.consoles == s.reg.consoles && r.0.buffer == s.buffer
    ensures r.0.reg.open == s.reg.open - {id}
    ensures IsBroadcast(r.1, r.0.reg, Status(false, RobotDisconnectedText))
  {
    var reg := DetachDevice(s.reg, id);
    BroadcastIsExact(reg, Status(false, RobotDisconnectedText));
    (s.(reg := reg), Broadcast(reg, Status(false, RobotDisconnectedText)))
  }

  /** The welcome notice a console receives on connect. */
  function Welcome(reg: Registry): Payload {
    Status(IsDeviceLive(reg), if reg.device.Some? then RobotOnlineText else RobotOfflineText)
  }

  /** `/ws/client` connect: the socket joins the console set and alone receives the
      current robot status. The text says "Robot online" whenever a device socket is
      held, open or not; only `connected` reflects readiness. */
  function OnConsoleConnect(s: State, id: SocketId): (r: (State, seq<Outbound>))
    ensures Elems(r.0.reg.consoles) == Elems(s.reg.consoles) + {id}
    ensures r.0.reg.device == s.reg.device && r.0.buffer == s.buffer
    ensures r.0.reg.open == s.reg.open + {id}
    ensures |r.1| == 1 && r.1[0].ToConsole? && r.1[0].console == id && r.1[0].payload.Status?
    ensures r.1[0].payload.connected <==> r.0.reg.device.Some? && r.0.reg.device.value in r.0.reg.open
    ensures s.reg.device != Some(id) ==> (r.1[0].payload.connected <==> IsDeviceLive(s.reg))
    ensures r.1[0].payload.text == RobotOnlineText <==> s.reg.device.Some?
    ensures r.1[0].payload.text == RobotOfflineText <==> s.reg.device.None?
  {
    var reg := AttachConsole(s.reg, id);
    (s.(reg := reg), [ToConsole(id, Welcome(reg))])
  }

  /** `/ws/client` message. A document with no `type` (or an empty one) earns the sender
      a "Missing command type" error; a typed command goes to the device when its socket
      is held and open, otherwise the sender is told it was not sent. A frame that does
      not parse gets nothing: the error handler parses it again and throws. */
  function OnConsoleFrame(s: State, id: SocketId, f: Frame): (r: (State, seq<Outbound>))
    ensures r.0 == s
    ensures |r.1| <= 1
    ensures f.Unparseable? ==> r.1 == []
    ensures forall o | o in r.1 :: o.ToConsole? ==> o.console == id && o.payload.Error? && o.payload.command == f.msg
    ensures forall o | o in r.1 :: o.ToDevice? ==> s.reg.device == Some(o.device) && o.command == f.msg
    ensures (exists o | o in r.1 :: o.ToDevice?) <==> f.Parsed? && HasCommandType(f.msg) && IsDeviceLive(s.reg)
    ensures f.Parsed? && !HasCommandType(f.msg) ==> r.1 == [ToConsole(id, Error(MissingTypeText, f.msg))]
    ensures f.Parsed? && HasCommandType(f.msg) && !IsDeviceLive(s.reg) ==>
              r.1 == [ToConsole(id, Error(OfflineCommandText, f.msg))]
  {
    match f
    case Unparseable => (s, [])
    case Parsed(m) =>
      if !HasCommandType(m) then (s, [ToConsole(id, Error(MissingTypeText, m))])
      else if IsDeviceLive(s.reg) then
        var out := [ToDevice(s.reg.device.value, m)];
        assert out[0] in out;
        (s, out)
      else (s, [ToConsole(id, Error(OfflineCommandText, m))])
  }

  /** `/ws/client` close: the socket leaves the console set; nothing is sent. */
  function OnConsoleClose(s: State, id: SocketId): (r: (State, seq<Outbound>))
    ensures Elems(r.0.reg.consoles) == Elems(s.reg.consoles) - {id}
    ensures r.0.reg.device == s.reg.device && r.0.buffer == s.buffer
    ensures r.0.reg.open == s.reg.open - {id}
    ensures r.1 == []
  {
    (s.(reg := DetachConsole(s.reg, id)), [])
  }

  /** The relay's response to one event. */
  function Step(s: State, e: Event): (r: (State, seq<Outbound>))
    ensures Valid(s) ==> Valid(r.0)
  {
    match e
    case DeviceConnected(id) => OnDeviceConnect(s, id)
    case DeviceSent(_, f) => OnDeviceFrame(s, f)
    case DeviceClosed(id) => OnDeviceClose(s, id)
    case ConsoleConnected(id) => OnConsoleConnect(s, id)
    case ConsoleSent(id, f) => OnConsoleFrame(s, id, f)
    case ConsoleClosed(id) => OnConsoleClose(s, id)
    case ReadyStateChanged(id, isOpen) => (s.(reg := SetReady(s.reg, id, isOpen)), [])
  }

  /** The relay's responses to a sequence of events, sends concatenated in order. */
  function Run(s: State, es: seq<Event>): (r: (State, seq<Outbound>))
    ensures Valid(s) ==> Valid(r.0)
    decreases |es|
  {
    if es == [] then (s, [])
    else
      var first := Step(s, es[0]);
      var rest := Run(first.0, es[1..]);
      (rest.0, first.1 + rest.1)
  }

  /** The `/api/status` body, without the process uptime. */
  datatype StatusReport = StatusReport(esp32Connected: bool, webClientsCount: nat, telemetryBufferSize: nat)

  /** `/api/status`: device liveness, number of consoles, history length. */
  function StatusSnapshot(s: State): (r: StatusReport)
    ensures r.esp32Connected <==> s.reg.device.Some? && s.reg.device.value in s.reg.open
    ensures r.webClientsCount == |Elems(s.reg.consoles)|
    ensures r.telemetryBufferSize == |s.buffer|
  {
    ElemsOfDistinct(s.reg.consoles);
    StatusReport(IsDeviceLive(s.reg), |s.reg.consoles|, |s.buffer|)
  }

  /** `/api/telemetry/latest`: the newest recorded telemetry, or an error when none is held. */
  function LatestTelemetry(s: State): (r: Result<Telemetry, string>)
    ensures r.Failure? <==> s.buffer == []
    ensures r.Failure? ==> r.error == NoTelemetryText
    ensures r.Success? ==> r.value == s.buffer[|s.buffer| - 1]
  {
    match Latest(s.buffer)
    case None => Failure(NoTelemetryText)
    case Some(t) => Success(t)
  }
}
