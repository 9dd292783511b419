/** The connection registry: the single device slot (`esp32Socket`), the console
    set (`webClients`), each socket's readiness, and fan-out to consoles
    (`broadcastToWeb`). */
module Connections {
  import opened Wrappers
  import opened Messages

  /** No element occurs twice. */
  predicate NoDup<T(==)>(xs: seq<T>) {
    forall i, j | 0 <= i < j < |xs| :: xs[i] != xs[j]
  }

  /** The elements of a sequence, as a set. */
  function Elems<T>(xs: seq<T>): set<T> {
    set x | x in xs
  }

  /** A JavaScript `Set` of console sockets: no socket twice, iterated in insertion order. */
  type ConsoleSet = xs: seq<SocketId> | NoDup(xs) witness []

  /** `open` holds the sockets whose `readyState` is OPEN (1); readiness belongs to the
      transport and is re-read on every use. */
  datatype Registry = Registry(device: Option<SocketId>, consoles: ConsoleSet, open: set<SocketId>)

  /** `esp32Socket?.readyState === 1` */
  predicate IsDeviceLive(reg: Registry) {
    reg.device.Some? && reg.device.value in reg.open
  }

  /** `esp32Socket = socket` for a freshly accepted, open socket: any earlier device
      socket is displaced without being closed. */
  function AttachDevice(reg: Registry, id: SocketId): Registry {
    reg.(device := Some(id), open := reg.open + {id})
  }

  /** `esp32Socket = null` on a device socket's close: the slot is cleared whichever
      socket it holds. */
  function DetachDevice(reg: Registry, id: SocketId): Registry {
    reg.(device := None, open := reg.open - {id})
  }

  /** `webClients.add(socket)` for a freshly accepted, open socket. */
  function AttachConsole(reg: Registry, id: SocketId): (r: Registry)
    ensures Elems(r.consoles) == Elems(reg.consoles) + {id}
    ensures |r.consoles| >= |reg.consoles| && r.consoles[..|reg.consoles|] == reg.consoles
    ensures r.device == reg.device
    ensures r.open == reg.open + {id}
  {
    var consoles := if id in reg.consoles then reg.consoles else reg.consoles + [id];
    assert NoDup(consoles);
    reg.(consoles := consoles, open := reg.open + {id})
  }

  /** `webClients.delete(socket)` on a console socket's close. */
  function DetachConsole(reg: Registry, id: SocketId): (r: Registry)
    ensures Elems(r.consoles) == Elems(reg.consoles) - {id}
    ensures id in reg.consoles ==> |r.consoles| == |reg.consoles| - 1
    ensures id !in reg.consoles ==> r.consoles == reg.consoles
    ensures r.device == reg.device
    ensures r.open == reg.open - {id}
  {
    reg.(consoles := Without(reg.consoles, id), open := reg.open - {id})
  }

  /** The readiness of socket `id` changes in the transport, outside any handler. */
  function SetReady(reg: Registry, id: SocketId, isOpen: bool): Registry {
    reg.(open := if isOpen then reg.open + {id} else reg.open - {id})
  }

  /** `xs` with every occurrence of `x` removed. */
  function Without(xs: seq<SocketId>, x: SocketId): (r: seq<SocketId>)
    ensures forall y :: y in r <==> y in xs && y != x
    ensures NoDup(xs) ==> NoDup(r)
    ensures NoDup(xs) && x in xs ==> |r| == |xs| - 1
    ensures x !in xs ==> r == xs
  {
    if xs == [] then []
    else if xs[0] == x then Without(xs[1..], x)
    else
      var rest := Without(xs[1..], x);
      assert NoDup(xs) ==> NoDup([xs[0]] + rest) by {
        if NoDup(xs) {
          assert NoDup(xs[1..]);
          assert xs[0] !in rest;
        }
      }
      [xs[0]] + rest
  }

  /** Removal distributes over concatenation; together with `WithoutOne`, this says
      `Without` keeps the remaining sockets in their original order, as `Set.delete`
      keeps the iteration order of the others. */
  lemma {:induction false} WithoutKeepsOrder(a: seq<SocketId>, b: seq<SocketId>, x: SocketId)
    ensures Without(a + b, x) == Without(a, x) + Without(b, x)
    decreases |a|
  {
    if a == [] {
      assert a + b == b;
    } else {
      var ab := a + b;
      assert ab[0] == a[0];
      assert ab[1..] == a[1..] + b;
      WithoutKeepsOrder(a[1..], b, x);
      if a[0] == x {
        assert Without(ab, x) == Without(ab[1..], x);
      } else {
        assert Without(ab, x) == [a[0]] + Without(ab[1..], x);
        assert Without(a, x) == [a[0]] + Without(a[1..], x);
      }
    }
  }

  /** On one socket, removal drops it exactly when it is the removed one. */
  lemma WithoutOne(y: SocketId, x: SocketId)
    ensures Without([y], x) == if y == x then [] else [y]
  {
  }

  /** The sends `broadcastToWeb` makes for `consoles`, visited in order: one per
      console whose socket is open, nothing to the others. */
  function BroadcastTo(consoles: seq<SocketId>, open: set<SocketId>, p: Payload): (out: seq<Outbound>)
    ensures |out| <= |consoles|
    ensures forall o | o in out :: o.ToConsole? && o.payload == p && o.console in consoles && o.console in open
  {
    if consoles == [] then []
    else
      var rest := BroadcastTo(consoles[1..], open, p);
      if consoles[0] in open then [ToConsole(consoles[0], p)] + rest else rest
  }

  /** `broadcastToWeb(p)` over the registry's console set. */
  function Broadcast(reg: Registry, p: Payload): seq<Outbound> {
    BroadcastTo(reg.consoles, reg.open, p)
  }

  /** `out` delivers `p` exactly once to every open console and sends nothing else. */
  ghost predicate IsBroadcast(out: seq<Outbound>, reg: Registry, p: Payload) {
    && (forall o | o in out :: o.ToConsole? && o.payload == p && o.console in reg.consoles && o.console in reg.open)
    && (forall c | c in reg.consoles && c in reg.open :: multiset(out)[ToConsole(c, p)] == 1)
  }

  /** Over distinct consoles, each console receives the payload once if open and never otherwise. */
  lemma {:induction false} BroadcastToCount(consoles: seq<SocketId>, open: set<SocketId>, p: Payload, c: SocketId)
    requires NoDup(consoles)
    ensures multiset(BroadcastTo(consoles, open, p))[ToConsole(c, p)] == if c in consoles && c in open then 1 else 0
  {
    if consoles != [] {
      var tail := consoles[1..];
      assert NoDup(tail);
      BroadcastToCount(tail, open, p, c);
      assert consoles == [consoles[0]] + tail;
      assert consoles[0] !in tail;
    }
  }

  /** `broadcastToWeb` reaches every open console exactly once and nobody else. */
  lemma BroadcastIsExact(reg: Registry, p: Payload)
    ensures IsBroadcast(Broadcast(reg, p), reg, p)
  {
    forall c | c in reg.consoles && c in reg.open
      ensures multiset(Broadcast(reg, p))[ToConsole(c, p)] == 1
    {
      BroadcastToCount(reg.consoles, reg.open, p, c);
    }
  }

  /** A console set has as many members as its sequence has entries. */
  lemma {:induction false} ElemsOfDistinct<T>(xs: seq<T>)
    requires NoDup(xs)
    ensures |Elems(xs)| == |xs|
  {
    if xs != [] {
      var tail := xs[1..];
      assert NoDup(tail);
      ElemsOfDistinct(tail);
      assert xs[0] !in tail;
      assert Elems(xs) == Elems(tail) + {xs[0]};
    }
  }
}
