/** Properties that relate several relay events, or an event to the read-only endpoints. */
module RelayProperties {
  import opened Wrappers
  import opened Messages
  import opened History
  import opened Connections
  import opened Relay

  /** The telemetry documents a trace delivers from device sockets, in arrival order. */
  function TelemetryIn(es: seq<Event>): seq<Telemetry> {
    if es == [] then []
    else
      var rest := TelemetryIn(es[1..]);
      match es[0]
      case DeviceSent(_, Parsed(m)) =>
        if IsTelemetry(m) then var t: Telemetry := m; [t] + rest else rest
      case _ => rest
  }

  /** Over any trace, the history is what `logTelemetry` makes of the telemetry the
      devices sent: no other event touches it. */
  lemma {:induction false} RunLogsDeviceTelemetry(s: State, es: seq<Event>)
    ensures Run(s, es).0.buffer == LogAll(s.buffer, TelemetryIn(es))
    decreases |es|
  {
    if es != [] {
      var next := Step(s, es[0]).0;
      var rest := es[1..];
      assert Run(s, es).0 == Run(next, rest).0;
      RunLogsDeviceTelemetry(next, rest);
      match es[0]
      case DeviceSent(_, Parsed(m)) =>
        if IsTelemetry(m) {
          var t: Telemetry := m;
          var ts := [t] + TelemetryIn(rest);
          assert TelemetryIn(es) == ts;
          assert ts[0] == t && ts[1..] == TelemetryIn(rest);
          assert next.buffer == LogTelemetry(s.buffer, t);
        }
      case _ =>
    }
  }

  /** From a valid state, after any trace the history holds exactly the newest
      `MaxBufferSize` telemetry documents the devices ever sent, in the order they arrived. */
  lemma HistoryIsNewestTelemetry(s: State, es: seq<Event>)
    requires Valid(s)
    ensures Run(s, es).0.buffer == Window(s.buffer + TelemetryIn(es))
  {
    RunLogsDeviceTelemetry(s, es);
    LogAllKeepsNewest(s.buffer, TelemetryIn(es));
  }

  /** Whatever happens after startup, the history never holds more than `MaxBufferSize`
      entries. */
  lemma HistoryStaysBounded(es: seq<Event>)
    ensures |Run(Initial, es).0.buffer| <= MaxBufferSize
  {
  }

  /** A telemetry document is what `/api/telemetry/latest` reports right after it arrives. */
  lemma LatestAfterTelemetryFrame(s: State, m: Message)
    requires IsTelemetry(m)
    ensures LatestTelemetry(OnDeviceFrame(s, Parsed(m)).0) == Success(m)
  {
  }

  /** Console traffic alone never changes the relay's state. */
  lemma {:induction false} ConsoleFramesKeepState(s: State, es: seq<Event>)
    requires forall i | 0 <= i < |es| :: es[i].ConsoleSent?
    ensures Run(s, es).0 == s
    decreases |es|
  {
    if es != [] {
      assert Step(s, es[0]).0 == s;
      ConsoleFramesKeepState(s, es[1..]);
    }
  }

  /** Removing a socket that was just appended gives back the original order. */
  lemma {:induction false} WithoutAppended(xs: seq<SocketId>, x: SocketId)
    requires x !in xs
    ensures Without(xs + [x], x) == xs
  {
    if xs != [] {
      assert (xs + [x])[0] == xs[0];
      assert (xs + [x])[1..] == xs[1..] + [x];
      WithoutAppended(xs[1..], x);
    } else {
      assert xs + [x] == [x];
    }
  }

  /** A console that connects and then closes leaves the console set, order included,
      as it found it. */
  lemma ConsoleConnectThenClose(s: State, id: SocketId)
    requires id !in s.reg.consoles
    ensures OnConsoleClose(OnConsoleConnect(s, id).0, id).0.reg.consoles == s.reg.consoles
  {
    WithoutAppended(s.reg.consoles, id);
  }

  /** Closing a console twice is the same as closing it once, and the second close sends nothing. */
  lemma ConsoleCloseIsIdempotent(s: State, id: SocketId)
    ensures OnConsoleClose(OnConsoleClose(s, id).0, id) == (OnConsoleClose(s, id).0, [])
  {
    var once := OnConsoleClose(s, id).0;
    assert id !in Elems(once.reg.consoles);
    assert DetachConsole(once.reg, id) == once.reg;
  }

  /** When a second device socket replaces the first and the first then closes, the
      slot is emptied although the newer socket is still open: commands are refused
      as offline until another device connects. */
  lemma StaleDeviceCloseDropsNewerDevice(s: State, older: SocketId, newer: SocketId, console: SocketId, cmd: Message)
    requires older != newer
    requires HasCommandType(cmd)
    ensures var replaced := OnDeviceConnect(OnDeviceConnect(s, older).0, newer).0;
            var after := OnDeviceClose(replaced, older).0;
            && IsDeviceLive(replaced.reg)
            && newer in after.reg.open
            && after.reg.device == None
            && OnConsoleFrame(after, console, Parsed(cmd)).1 == [ToConsole(console, Error(OfflineCommandText, cmd))]
  {
  }

  /** A console joining while the held device socket is no longer open is told
      "Robot online" together with `connected: false`. */
  lemma WelcomeOnlineWhileNotConnected(s: State, device: SocketId, id: SocketId)
    requires s.reg.device == Some(device) && device !in s.reg.open && id != device
    ensures OnConsoleConnect(s, id).1 == [ToConsole(id, Status(false, RobotOnlineText))]
  {
  }

  /** The documents a trace of console frames asks to forward: the parsed ones with a
      non-empty `type`, in arrival order. */
  function CommandsIn(es: seq<Event>): seq<Message> {
    if es == [] then []
    else
      var rest := CommandsIn(es[1..]);
      match es[0]
      case ConsoleSent(_, Parsed(m)) => if HasCommandType(m) then [m] + rest else rest
      case _ => rest
  }

  /** The commands among a sequence of sends that go to the device, in send order. */
  function DeviceCommands(out: seq<Outbound>): seq<Message> {
    if out == [] then []
    else
      var rest := DeviceCommands(out[1..]);
      if out[0].ToDevice? then [out[0].command] + rest else rest
  }

  lemma {:induction false} DeviceCommandsAppend(a: seq<Outbound>, b: seq<Outbound>)
    ensures DeviceCommands(a + b) == DeviceCommands(a) + DeviceCommands(b)
  {
    if a != [] {
      assert (a + b)[1..] == a[1..] + b;
      assert DeviceCommands(a[1..] + b) == DeviceCommands(a[1..]) + DeviceCommands(b) by {
        DeviceCommandsAppend(a[1..], b);
      }
      assert (a + b)[0] == a[0];
    } else {
      assert a + b == b;
    }
  }

  /** Sends addressed only to consoles carry no device commands. */
  lemma {:induction false} ConsoleOnlySends(out: seq<Outbound>)
    requires forall o | o in out :: o.ToConsole?
    ensures DeviceCommands(out) == []
  {
    if out != [] {
      assert out[0] in out;
      assert forall o | o in out[1..] :: o in out;
      ConsoleOnlySends(out[1..]);
    }
  }

  /** Event `e` neither replaces nor empties the device slot holding `d`, nor makes
      socket `d` not open. */
  predicate KeepsDevice(e: Event, d: SocketId) {
    match e
    case DeviceConnected(_) => false
    case DeviceClosed(_) => false
    case ConsoleClosed(id) => id != d
    case ReadyStateChanged(id, isOpen) => id != d || isOpen
    case _ => true
  }

  /** One event that keeps the device live sends the device exactly the command it
      asks to forward, and leaves the same socket held and open. */
  lemma StepForwardsCommand(s: State, e: Event)
    requires IsDeviceLive(s.reg)
    requires KeepsDevice(e, s.reg.device.value)
    ensures Step(s, e).0.reg.device == s.reg.device && IsDeviceLive(Step(s, e).0.reg)
    ensures DeviceCommands(Step(s, e).1) == CommandsIn([e])
    ensures forall o | o in Step(s, e).1 && o.ToDevice? :: o.device == s.reg.device.value
  {
    var out := Step(s, e).1;
    assert [e][1..] == [];
    match e
    case ConsoleSent(id, f) =>
      if f.Parsed? {
        var m := f.msg;
        if HasCommandType(m) {
          assert out == [ToDevice(s.reg.device.value, m)];
          assert out[1..] == [];
        } else {
          assert out == [ToConsole(id, Error(MissingTypeText, m))];
          assert out[1..] == [];
        }
      }
    case DeviceSent(_, f) =>
      if f.Parsed? {
        BroadcastIsExact(s.reg, Relayed(f.msg));
      }
      ConsoleOnlySends(out);
    case _ =>
      ConsoleOnlySends(out);
  }

  /** Over any trace that starts with the device socket held and open and keeps it so
      (no device connect or close, no close or readiness loss of that socket), the
      device receives exactly the typed commands the consoles sent, each once, in the
      order they arrived. */
  lemma {:induction false} ConsoleCommandsForwardedInOrder(s: State, es: seq<Event>)
    requires IsDeviceLive(s.reg)
    requires forall i | 0 <= i < |es| :: KeepsDevice(es[i], s.reg.device.value)
    ensures DeviceCommands(Run(s, es).1) == CommandsIn(es)
    ensures forall o | o in Run(s, es).1 && o.ToDevice? :: o.device == s.reg.device.value
    decreases |es|
  {
    if es != [] {
      var first := Step(s, es[0]);
      var rest := Run(first.0, es[1..]);
      assert Run(s, es).1 == first.1 + rest.1;
      StepForwardsCommand(s, es[0]);
      assert forall i | 0 <= i < |es[1..]| :: KeepsDevice(es[1..][i], first.0.reg.device.value) by {
        forall i | 0 <= i < |es[1..]| ensures KeepsDevice(es[1..][i], first.0.reg.device.value) {
          assert es[1..][i] == es[i + 1];
        }
      }
      ConsoleCommandsForwardedInOrder(first.0, es[1..]);
      DeviceCommandsAppend(first.1, rest.1);
      CommandsInSplit(es);
    }
  }

  /** The commands of a trace are those of its first event followed by those of the rest. */
  lemma CommandsInSplit(es: seq<Event>)
    requires es != []
    ensures CommandsIn(es) == CommandsIn([es[0]]) + CommandsIn(es[1..])
  {
  }
}
