# Robot relay: a Dafny model

This project models the connection-and-message relay of the robot control API
(`apps/api/src/server.ts`). The relay holds at most one robot ("device") socket and
any number of web console sockets. It records telemetry from the device in a bounded
in-memory history. It fans device documents out to the consoles and forwards console
commands to the device. Consoles get error replies when a parsed command has no `type` or
cannot be delivered.

Node runs each socket handler to completion on one thread, so each socket event is
modelled as one atomic, pure transition:
`(State, Event) -> (State, seq<Outbound>)`. Each `Outbound` names its recipient.

- `wrappers.dfy`: module `Wrappers`, with `Option` and `Result`.
- `messages.dfy`: module `Messages`. It abstracts JSON. A received frame is `Unparseable`
  (`JSON.parse` threw) or `Parsed(Message(kind, rest))`, where `kind` is the optional
  string `type` property and `rest` is everything else, carried untouched.
  `JSON.stringify` is the identity. This module also holds the relay's fixed texts.
- `history.dfy`: module `History`. It models `MAX_BUFFER_SIZE` (1000) and
  `logTelemetry`, and proves that the history always holds exactly the newest
  1000 entries, in order.
- `connections.dfy`: module `Connections`. It models the device slot, the console set
  and each socket's readiness (`readyState === 1` is membership in `open`). It also
  models `broadcastToWeb`. The console set is a duplicate-free sequence: a JavaScript
  `Set` iterates in insertion order, so the order of a broadcast is determined.
- `relay.dfy`: module `Relay`. It holds the six socket handlers, the `Step`/`Run`
  transition functions and the `/api/status` and `/api/telemetry/latest` snapshots.
- `properties.dfy`: module `RelayProperties`. It holds lemmas that relate several events.

The connect handlers receive sockets that are already open, and a socket's close event
marks it not open. The transport can also change a socket's readiness between handler
runs; the `ReadyStateChanged` event models this.

The model keeps three behaviours of the code as written, although each looks unintended:
- A device `close` empties the slot even when the slot already holds a newer socket
  (`apps/api/src/server.ts:86`). A detach that ignored stale sockets would keep the newer one.
  See `RelayProperties.StaleDeviceCloseDropsNewerDevice`.
- The welcome notice says "Robot online" whenever a device socket is held, even if it
  is not open. Only its `connected` flag reflects readiness (`apps/api/src/server.ts:108-109`).
  See `RelayProperties.WelcomeOnlineWhileNotConnected`.
- A console frame that is not JSON gets no reply: the `catch` block parses the raw text
  again and throws (`apps/api/src/server.ts:139`). Nothing in the file catches that second
  exception. The model shows no sends and no state change, which assumes the process
  survives the uncaught exception (see "## Left out").

The code checks a console document only for a non-empty `type`. It does not check the
shape of each command, so the model checks nothing more.

## Model

| member | source | states |
|---|---|---|
| History.LogTelemetry | apps/api/src/server.ts:41-46 | below capacity the history grows by one; at or above capacity its length stays the same; within capacity it never exceeds 1000; the new entry is last; the entries before it are the old history minus at most its oldest entry, in order |
| History.LogAll | apps/api/src/server.ts:41-46 | repeated logging from a history within capacity stays within capacity; the last entry is the last one logged |
| History.LogOnFullEvictsOldest | apps/api/src/server.ts:39-46 | on a full history, one call removes exactly the first (oldest) entry, appends the new one and keeps the length at 1000 |
| History.LogAllKeepsNewest | apps/api/src/server.ts:39-46 | after any sequence of calls, the history equals the newest 1000 of all entries ever logged, in logging order |
| History.LatestAfterLog | apps/api/src/server.ts:164-169 | the entry just logged is always the latest one; eviction never drops it |
| Connections.AttachConsole | apps/api/src/server.ts:103 | the console set gains exactly the new socket; the sockets already present keep their order; the device slot is untouched; readiness changes only by the new socket becoming open |
| Connections.DetachConsole | apps/api/src/server.ts:146 | the console set loses exactly that socket; its size drops by one if the socket was present; otherwise the set is unchanged; the device slot is untouched; readiness changes only by that socket becoming not open |
| Connections.Without | apps/api/src/server.ts:146 | removal keeps every other element and drops every copy of the removed one; it keeps the sequence duplicate-free and shortens a duplicate-free sequence by one when the element was present |
| Connections.WithoutKeepsOrder | apps/api/src/server.ts:146 | removal distributes over any split of the sequence, so the remaining consoles keep their order |
| Connections.WithoutOne | apps/api/src/server.ts:146 | on a single socket, removal drops it exactly when it is the removed socket and keeps it otherwise |
| Connections.BroadcastTo | apps/api/src/server.ts:48-55 | every send goes to a console in the set whose socket is open and carries the broadcast payload; there are no more sends than consoles |
| Connections.BroadcastToCount | apps/api/src/server.ts:48-55 | over distinct consoles, each console receives the payload exactly once if it is open and never if it is not |
| Connections.BroadcastIsExact | apps/api/src/server.ts:48-55 | `broadcastToWeb` sends the payload exactly once to every open console and nothing to anyone else |
| Connections.ElemsOfDistinct | apps/api/src/server.ts:158 | the number of consoles (`webClients.size`) equals the number of distinct console sockets |
| Relay.OnDeviceConnect | apps/api/src/server.ts:60-68 | the new socket takes the device slot and is live; the consoles and the history are unchanged; readiness changes only by the new socket becoming open; every open console receives one `status{connected: true, "Robot connected"}` and nobody else receives anything |
| Relay.OnDeviceFrame | apps/api/src/server.ts:70-82 | an unparseable frame changes nothing and sends nothing; a parsed document leaves the registry unchanged, is logged to the history if and only if its type is "telemetry", and is relayed unchanged exactly once to every open console whatever its type |
| Relay.OnDeviceClose | apps/api/src/server.ts:84-93 | the device slot becomes empty whichever socket it held; the consoles and the history are unchanged; readiness changes only by the closed socket becoming not open; every open console receives one `status{connected: false, "Robot disconnected"}` |
| Relay.OnConsoleConnect | apps/api/src/server.ts:101-111 | the socket joins the console set; the slot and the history are unchanged; readiness changes only by the new socket becoming open; exactly one status goes to that socket only; `connected` is true if and only if the slot is held and open, which for a console other than the device socket is exactly whether the device was live before the event; the text is "Robot online" if and only if the slot is held, and "Robot offline" otherwise |
| Relay.OnConsoleFrame | apps/api/src/server.ts:113-143 | state never changes; at most one send; an unparseable frame gets nothing; a document without a non-empty type gets one "Missing command type" error carrying it, sent to the sender only; a typed command is forwarded unchanged to the device if and only if the slot is held and open; otherwise the sender alone gets one "Robot offline - command not sent" error carrying it |
| Relay.OnConsoleClose | apps/api/src/server.ts:145-150 | the socket leaves the console set; the slot and the history are unchanged; readiness changes only by that socket becoming not open; nothing is sent |
| Relay.Step | apps/api/src/server.ts:58-151 | no socket event takes a history within capacity beyond capacity |
| Relay.Run | apps/api/src/server.ts:39-46 | after any sequence of socket events, a history within capacity is still within capacity |
| Relay.StatusSnapshot | apps/api/src/server.ts:155-162 | `esp32Connected` is true if and only if the slot is held and open; `webClientsCount` is the number of distinct consoles; `telemetryBufferSize` is the history length |
| Relay.LatestTelemetry | apps/api/src/server.ts:164-169 | the result is the "No telemetry data available" error exactly when the history is empty, and otherwise the newest entry |
| RelayProperties.RunLogsDeviceTelemetry | apps/api/src/server.ts:70-82 | over any trace, the history is the result of logging the telemetry documents the devices sent, in arrival order; no other event touches it |
| RelayProperties.HistoryIsNewestTelemetry | apps/api/src/server.ts:74-76 | from a valid state, after any trace the history holds exactly the newest 1000 telemetry documents received, in arrival order |
| RelayProperties.HistoryStaysBounded | apps/api/src/server.ts:39-46 | from startup, no sequence of events makes the history exceed 1000 entries |
| RelayProperties.LatestAfterTelemetryFrame | apps/api/src/server.ts:164-169 | right after a telemetry document arrives, the latest endpoint returns that document |
| RelayProperties.ConsoleFramesKeepState | apps/api/src/server.ts:113-143 | any sequence of console messages leaves the relay's state exactly as it was |
| RelayProperties.StepForwardsCommand | apps/api/src/server.ts:113-132 | an event that neither replaces, empties nor un-readies the held device socket leaves that socket held and open; every device send goes to that held socket; the commands sent are exactly the typed command the event carries, if any |
| RelayProperties.ConsoleCommandsForwardedInOrder | apps/api/src/server.ts:113-132 | over any trace that starts with the device socket held and open and has no device connect or close and no close or readiness loss of that socket, the held device socket, and no other device socket, receives exactly the typed commands the consoles sent, each once, in arrival order |
| RelayProperties.ConsoleConnectThenClose | apps/api/src/server.ts:145-150 | a console that connects and then closes leaves the console set as it found it, order included |
| RelayProperties.ConsoleCloseIsIdempotent | apps/api/src/server.ts:145-150 | closing a console twice gives the same state as closing it once; the second close sends nothing |
| RelayProperties.StaleDeviceCloseDropsNewerDevice | apps/api/src/server.ts:84-93 | after a newer device socket replaces an older one and the older one closes, the slot is empty while the newer socket is still open, so typed commands are refused as offline |
| RelayProperties.WelcomeOnlineWhileNotConnected | apps/api/src/server.ts:105-111 | a console joining while the held device socket is not open receives `status{connected: false, "Robot online"}` |

## Left out

- Fastify, CORS and logger setup, `dotenv`, port and host parsing, `listen` and `process.exit` (`apps/api/src/server.ts:1-31`, `175-195`): framework and I/O plumbing with no relay logic.
- `process.uptime()` in `/api/status` and the `/health` endpoint with `Date.now()`: these are environment reads. `StatusReport` has no uptime field.
- The socket `error` handler and every `fastify.log` call: they only log.
- Real JSON parsing and serialisation. Documents are abstract. Non-object JSON values (`null`, numbers, arrays) are not modelled. Neither are falsy non-string `type` values (`0`, `false`): a `type` is either absent or a string.
- What happens after a console's unparseable frame makes the `catch` block throw again (`apps/api/src/server.ts:139`). Nothing catches the exception, and by default Node then ends the process, losing every socket and the history. The process ending is not modelled.
- Relay.OnConsoleFrame: its `r.0 == s` for an `Unparseable` frame assumes the process survives that uncaught exception.
- RelayProperties.ConsoleFramesKeepState: assumes the process survives every uncaught exception raised by an unparseable console frame in the trace.
- Failures inside `send` itself (a socket that errors on write): the model records every send the handler attempts.
- The web application (`apps/web/...`): rendering, joystick sliders, the browser-side socket with its reconnect timer, and the store wrapper. None of it is relay logic.
- Relay.OnConsoleConnect: states the console set as a set of members (gained exactly the new socket), not the insertion position; `Connections.AttachConsole` states the order.
