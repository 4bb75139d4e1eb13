/** The two maps in which the server finds its clients: by TCP control block and by handle. */
module Registry {
  import opened Bits
  import opened SendQueue
  import opened Connection
  import opened WsFrame
  import opened WsStream

  const FIRST_HANDLE: nat := 1000

  datatype Web = Web(pcbs: map<nat, nat>, clients: map<nat, Client>)

  /** The maps are inverse to each other through the clients' own handles: control blocks and
      handles correspond one to one, no null control block is registered, and a client is closed
      exactly when it no longer knows the control block under which it is registered.
   */
  predicate Consistent(w: Web) {
    && NULL !in w.pcbs
    && w.pcbs.Values == w.clients.Keys
    && (forall p, r :: p in w.pcbs && r in w.pcbs && w.pcbs[p] == w.pcbs[r] ==> p == r)
    && (forall h :: h in w.clients ==> w.clients[h].handle == h && FIRST_HANDLE <= h < U32)
    && (forall p :: p in w.pcbs ==> ClosedOr(w.clients[w.pcbs[p]], p))
    && (forall h :: h in w.clients ==> Sane(w.clients[h].queue))
  }

  predicate ClosedOr(c: Client, pcb: nat) {
    c.pcb == if c.closed then NULL else pcb
  }

  predicate Registered(w: Web, pcb: nat) {
    pcb in w.pcbs && w.pcbs[pcb] in w.clients
  }

  function ClientAt(w: Web, pcb: nat): Client
    requires Registered(w, pcb)
  {
    w.clients[w.pcbs[pcb]]
  }

  /** `deleteClient`. */
  function Delete(w: Web, pcb: nat): Web {
    if pcb in w.pcbs then Web(w.pcbs - {pcb}, w.clients - {w.pcbs[pcb]}) else w
  }

  /** `addClient` with the handle chosen by `nextHandle`. */
  function Add(w: Web, pcb: nat, handle: nat): Web {
    Web(w.pcbs[pcb := handle], w.clients[handle := NewConn(pcb, handle).client])
  }

  lemma AddIs(w: Web, pcb: nat, handle: nat)
    ensures Add(w, pcb, handle).pcbs == w.pcbs[pcb := handle]
    ensures Add(w, pcb, handle).clients == w.clients[handle := Client(pcb, false, false, false, handle, [])]
  {
  }

  /** The outcome of a step for the client registered under `pcb`. */
  function Update(w: Web, pcb: nat, o: Out): Web
    requires Registered(w, pcb)
  {
    if o.alive then w.(clients := w.clients[w.pcbs[pcb] := o.client]) else Delete(w, pcb)
  }

  /** What one callback or call does to the registry. */
  function OnClient(w: Web, pcb: nat, e: Event): Web
    requires Consistent(w)
  {
    if Registered(w, pcb) then Update(w, pcb, React(ClientAt(w, pcb), e)) else w
  }

  /** What that does to the outside. */
  function CallsOn(w: Web, pcb: nat, e: Event): seq<Call>
    requires Consistent(w)
  {
    if Registered(w, pcb) then React(ClientAt(w, pcb), e).calls else []
  }

  lemma DeleteConsistent(w: Web, pcb: nat)
    requires Consistent(w)
    ensures Consistent(Delete(w, pcb))
    ensures pcb !in Delete(w, pcb).pcbs
  {
    if pcb in w.pcbs {
      DeletedMatch(w.pcbs, w.clients, pcb);
    }
  }

  lemma DeletedMatch(pcbs: map<nat, nat>, clients: map<nat, Client>, pcb: nat)
    requires pcb in pcbs && pcbs.Values == clients.Keys
    requires forall p, r :: p in pcbs && r in pcbs && pcbs[p] == pcbs[r] ==> p == r
    ensures (pcbs - {pcb}).Values == (clients - {pcbs[pcb]}).Keys
  {
    var d := pcbs - {pcb};
    forall h | h in clients && h != pcbs[pcb]
      ensures h in d.Values
    {
      var p :| p in pcbs && pcbs[p] == h;
      assert d[p] == h;
    }
  }

  lemma AddConsistent(w: Web, pcb: nat, handle: nat)
    requires Consistent(w) && pcb != NULL && pcb !in w.pcbs && handle !in w.clients && FIRST_HANDLE <= handle < U32
    ensures Consistent(Add(w, pcb, handle))
  {
    var a := Add(w, pcb, handle);
    assert a.pcbs[pcb] == handle;
    forall h | h in a.clients
      ensures h in a.pcbs.Values
    {
      if h != handle {
        var p :| p in w.pcbs && w.pcbs[p] == h;
        assert a.pcbs[p] == h;
      }
    }
  }

  lemma UpdateConsistent(w: Web, pcb: nat, o: Out)
    requires Consistent(w) && Registered(w, pcb)
    requires SameIdentity(ClientAt(w, pcb), o.client) && Sane(o.client.queue)
    ensures Consistent(Update(w, pcb, o))
  {
    if o.alive {
      assert Update(w, pcb, o).clients.Keys == w.clients.Keys;
    } else {
      DeleteConsistent(w, pcb);
    }
  }

  predicate SameIdentity(c: Client, d: Client) {
    d.handle == c.handle && (c.closed ==> d.closed) && d.pcb == if d.closed then NULL else c.pcb
  }

  lemma CloseKeepsIdentity(c: Client, t: Tcp)
    requires Sane(c.queue) && SameIdentity(c, c)
    ensures SameIdentity(c, CloseClient(c, t).client) && CloseClient(c, t).client.websocket == c.websocket
  {
    hide Acknowledge, SendQueue.Sane;
  }

  lemma WriteKeepsIdentity(c: Client, t: Tcp)
    requires Sane(c.queue) && SameIdentity(c, c)
    ensures SameIdentity(c, WriteNext(c, t).client) && WriteNext(c, t).client.websocket == c.websocket
  {
    hide WritePiece, CloseClient, SendQueue.Sane;
    WritePieceKeeps(c, t);
    CloseKeepsIdentity(WritePiece(c, t).client, t);
  }

  lemma SendKeepsIdentity(c: Client, bytes: seq<byte>, close: bool, t: Tcp)
    requires Sane(c.queue) && SameIdentity(c, c)
    ensures SameIdentity(c, Send(c, bytes, close, t).client) && Send(c, bytes, close, t).client.websocket == c.websocket
  {
    hide WriteNext;
    if c.pcb != NULL {
      WriteKeepsIdentity(c.(queue := c.queue + [Buf(bytes[..|bytes| % 0x1_0000], 0, 0)]), t);
    }
  }

  lemma SendCloseKeepsIdentity(c: Client, payload: Payload, t: Tcp)
    requires Sane(c.queue) && SameIdentity(c, c)
    ensures SameIdentity(c, SendClose(c, payload, t).client) && SendClose(c, payload, t).client.websocket == c.websocket
  {
    hide Send, WebSocketPacket, SendQueue.Sane;
    SendKeepsIdentity(c.(wsCloseSent := true), WebSocketPacket(OPCODE_CLOSE, payload), true, t);
  }

  lemma ProcessKeepsIdentity(c: Client, opcode: nat, payload: Payload, t: Tcp)
    requires Sane(c.queue) && SameIdentity(c, c)
    ensures SameIdentity(c, Process(c, opcode, payload, t).client)
    ensures Process(c, opcode, payload, t).client.websocket == c.websocket
  {
    hide Send, SendClose, WebSocketPacket, SendQueue.Sane;
    SendKeepsIdentity(c, WebSocketPacket(OPCODE_PONG, payload), false, t);
    SendCloseKeepsIdentity(c, payload, t);
  }

  lemma WriteKeepsOpen(c: Client, t: Tcp)
    requires Sane(c.queue) && SameIdentity(c, c) && c.pcb != NULL
    ensures WriteNext(c, t).alive && !WriteNext(c, t).client.closed && WriteNext(c, t).client.pcb == c.pcb
  {
    hide WritePiece, CloseClient;
    WritePieceKeeps(c, t);
  }

  /** Sending to an open client neither closes nor removes it. */
  lemma SendKeepsOpen(c: Client, bytes: seq<byte>, close: bool, t: Tcp)
    requires Sane(c.queue) && SameIdentity(c, c)
    ensures var s := Send(c, bytes, close, t);
            && s.alive && s.client.closed == c.closed && s.client.pcb == c.pcb
            && s.client.wsCloseSent == c.wsCloseSent && s.client.websocket == c.websocket
  {
    hide WritePiece, CloseClient;
    if c.pcb != NULL {
      var data := bytes[..|bytes| % 0x1_0000];
      assert Sane(c.queue + [Buf(data, 0, 0)]);
      WritePieceKeeps(c.(queue := c.queue + [Buf(data, 0, 0)]), t);
    }
  }

  lemma SendCloseKeepsOpen(c: Client, payload: Payload, t: Tcp)
    requires Sane(c.queue) && SameIdentity(c, c)
    ensures var s := SendClose(c, payload, t);
            s.alive && s.client.closed == c.closed && s.client.pcb == c.pcb && s.client.websocket == c.websocket
  {
    hide Send, WebSocketPacket;
    SendKeepsOpen(c.(wsCloseSent := true), WebSocketPacket(OPCODE_CLOSE, payload), true, t);
  }

  lemma PollKeepsIdentity(c: Client, idle: bool, write: Tcp, send: Tcp, close: Tcp)
    requires Sane(c.queue) && SameIdentity(c, c)
    ensures SameIdentity(c, Poll(c, idle, write, send, close).client)
    ensures Poll(c, idle, write, send, close).client.websocket == c.websocket
  {
    hide WriteNext, SendClose, CloseClient, SendQueue.Sane;
    CloseKeepsIdentity(c, close);
    WriteKeepsIdentity(c, write);
    var a := if c.queue != [] then WriteNext(c, write) else Out(c, true, []);
    SendCloseKeepsIdentity(a.client, [], send);
    CloseKeepsIdentity(IdleCheck(a.client, StillIdle(c, idle), send).client, close);
  }

  lemma PollIs(c: Client, idle: bool, write: Tcp, send: Tcp, close: Tcp)
    requires Sane(c.queue) && SameIdentity(c, c)
    ensures var o := Poll(c, idle, write, send, close);
            && (c.pcb == NULL ==> o == CloseClient(c, close))
            && (c.pcb != NULL ==>
                  var a := if c.queue != [] then WriteNext(c, write) else Out(c, true, []);
                  var i := IdleCheck(a.client, StillIdle(c, idle), send);
                  var b := Connection.Then(a, i);
                  && a.alive && i.alive && a.client.pcb == c.pcb
                  && SameIdentity(a.client, a.client) && Sane(a.client.queue)
                  && o == if i.client.closed then Connection.Then(b, CloseClient(i.client, close)) else b)
  {
    hide WriteNext, SendClose, CloseClient, SendQueue.Sane;
    if c.pcb != NULL {
      WriteKeepsOpen(c, write);
      WriteKeepsIdentity(c, write);
      var a := if c.queue != [] then WriteNext(c, write) else Out(c, true, []);
      SendCloseKeepsOpen(a.client, [], send);
    }
  }

  /** No event gives a client another control block or another handle, and only the upgrade makes
      it a WebSocket client.
   */
  lemma ReactKeepsIdentity(c: Client, e: Event)
    requires Sane(c.queue) && SameIdentity(c, c)
    ensures SameIdentity(c, React(c, e).client) && React(c, e).client.websocket == (c.websocket || e.Upgrade?)
  {
    hide WriteNext, Send, Process, Poll, CloseClient, Acknowledge, SendQueue.Sane;
    match e
    case AppSend(bytes, t) => SendKeepsIdentity(c, bytes, false, t);
    case Upgrade(response, t) => SendKeepsIdentity(c, response, false, t);
    case FrameReceived(opcode, payload, t) => ProcessKeepsIdentity(c, opcode, payload, t);
    case RequestServed(t) => CloseKeepsIdentity(c, t);
    case SentByTcp(count, t) => WriteKeepsIdentity(c.(queue := Acknowledge(c.queue, count)), t);
    case PollTimer(idle, write, send, close) => PollKeepsIdentity(c, idle, write, send, close);
    case PeerClosed =>
    case Failed =>
  }

  /** A client's own control block is the one it is registered under, until it is closed. */
  lemma OwnPcb(w: Web, pcb: nat)
    requires Consistent(w) && Registered(w, pcb)
    ensures !Registered(w, NULL)
    ensures var c := ClientAt(w, pcb); Sane(c.queue) && SameIdentity(c, c) && c.pcb == if c.closed then NULL else pcb
  {
    hide Sane;
    assert ClosedOr(w.clients[w.pcbs[pcb]], pcb);
  }

  lemma ProcessIs(c: Client, opcode: nat, payload: Payload, t: Tcp)
    requires Sane(c.queue) && SameIdentity(c, c)
    ensures var o := Process(c, opcode, payload, t);
            && (opcode == OPCODE_PING ==> o == Send(c, WebSocketPacket(OPCODE_PONG, payload), false, t))
            && (opcode != OPCODE_PING && opcode != OPCODE_CLOSE ==> o == Out(c, true, []))
            && (opcode == OPCODE_CLOSE ==>
                  var s := if c.wsCloseSent then Out(c, true, []) else SendClose(c, payload, t);
                  s.alive && s.client.pcb == c.pcb && s.client.closed == c.closed && Sane(s.client.queue)
                  && o == Connection.Then(s, Out(if c.pcb == NULL then s.client else SetClosed(s.client), true, [])))
  {
    hide Send, SendClose, WebSocketPacket, Sane;
    SendCloseKeepsOpen(c, payload, t);
  }

  lemma FrameKeepsClient(w: Web, pcb: nat, opcode: nat, payload: Payload, t: Tcp)
    requires Consistent(w) && Registered(w, pcb) && Sane(ClientAt(w, pcb).queue)
    ensures Process(ClientAt(w, pcb), opcode, payload, t).alive
  {
    OwnPcb(w, pcb);
    hide Consistent, Process, Send;
    var c := ClientAt(w, pcb);
    ProcessIs(c, opcode, payload, t);
    SendKeepsOpen(c, WebSocketPacket(OPCODE_PONG, payload), false, t);
  }

  lemma OnClientConsistent(w: Web, pcb: nat, e: Event)
    requires Consistent(w)
    ensures Consistent(OnClient(w, pcb, e))
  {
    if Registered(w, pcb) {
      hide React;
      ReactKeepsIdentity(ClientAt(w, pcb), e);
      UpdateConsistent(w, pcb, React(ClientAt(w, pcb), e));
    }
  }

  /** A peer's close and an error take both entries of the client out of the maps, and no others. */
  lemma EndRemoves(w: Web, pcb: nat, e: Event)
    requires Consistent(w) && (e.PeerClosed? || e.Failed?)
    ensures var a := OnClient(w, pcb, e);
            && a.pcbs == w.pcbs - {pcb} && pcb !in a.pcbs
            && a.clients == if pcb in w.pcbs then w.clients - {w.pcbs[pcb]} else w.clients
    ensures CallsOn(w, pcb, e) == if pcb in w.pcbs && e.PeerClosed? then [CloseBack] else []
  {
  }

  /** Frames small enough to be answered in one buffer. */
  predicate Small(messages: seq<Message>) {
    forall m :: m in messages ==> |m.payload| < 0xffff_fff0
  }

  /** What the frames of one received chunk do to the registry and to the outside. */
  function OnFrames(w: Web, pcb: nat, messages: seq<Message>, tcp: nat -> Tcp): (r: Web)
    requires Consistent(w) && Small(messages)
    ensures Consistent(r)
    decreases |messages|
  {
    if messages == [] then w else
      var n := |messages| - 1;
      var before := OnFrames(w, pcb, messages[..n], tcp);
      var e := FrameReceived(messages[n].opcode, messages[n].payload, tcp(n));
      OnClientConsistent(before, pcb, e);
      OnClient(before, pcb, e)
  }

  function CallsOnFrames(w: Web, pcb: nat, messages: seq<Message>, tcp: nat -> Tcp): seq<Call>
    requires Consistent(w) && Small(messages)
    decreases |messages|
  {
    if messages == [] then [] else
      var n := |messages| - 1;
      CallsOnFrames(w, pcb, messages[..n], tcp)
      + CallsOn(OnFrames(w, pcb, messages[..n], tcp), pcb,
                FrameReceived(messages[n].opcode, messages[n].payload, tcp(n)))
  }

  lemma OneFrameMore(w: Web, pcb: nat, messages: seq<Message>, m: Message, tcp: nat -> Tcp)
    requires Consistent(w) && Small(messages) && |m.payload| < 0xffff_fff0
    ensures Small(messages + [m])
    ensures var before, e := OnFrames(w, pcb, messages, tcp), FrameReceived(m.opcode, m.payload, tcp(|messages|));
            && OnFrames(w, pcb, messages + [m], tcp) == OnClient(before, pcb, e)
            && CallsOnFrames(w, pcb, messages + [m], tcp)
               == CallsOnFrames(w, pcb, messages, tcp) + CallsOn(before, pcb, e)
  {
    hide Consistent, OnClient, CallsOn;
    assert (messages + [m])[..|messages|] == messages;
  }

  /** The counter step of `nextHandle`. */
  function Bump(h: nat): nat {
    if (h + 1) % U32 == 0 then FIRST_HANDLE else (h + 1) % U32
  }

  /** How many counter steps lead from `h` to `f`. */
  function Distance(h: nat, f: nat): nat
    requires h < U32 && FIRST_HANDLE <= f < U32
  {
    if h <= f then f - h else (U32 - h) + (f - FIRST_HANDLE)
  }

  function Bumped(h: nat, n: nat): nat {
    if n == 0 then h else Bump(Bumped(h, n - 1))
  }

  function Range(lo: nat, hi: nat): (r: set<nat>)
    ensures forall x :: x in r <==> lo <= x < hi
    decreases hi
  {
    if hi <= lo then {} else Range(lo, hi - 1) + {hi - 1}
  }

  lemma {:induction false} RangeSize(lo: nat, hi: nat)
    requires lo <= hi
    ensures |Range(lo, hi)| == hi - lo
    decreases hi
  {
    if lo < hi { RangeSize(lo, hi - 1); }
  }

  lemma {:induction false} SubsetSize(a: set<nat>, b: set<nat>)
    requires a <= b
    ensures |a| <= |b|
  {
    if a != {} {
      var x :| x in a;
      SubsetSize(a - {x}, b - {x});
    }
  }

  /** With fewer clients than handles, some handle is free. */
  lemma FreeHandle(used: set<nat>)
    requires |used| < U32 - FIRST_HANDLE
    ensures exists f :: FIRST_HANDLE <= f < U32 && f !in used
  {
    RangeSize(FIRST_HANDLE, U32);
    if Range(FIRST_HANDLE, U32) <= used {
      SubsetSize(Range(FIRST_HANDLE, U32), used);
      assert false;
    }
    var f :| f in Range(FIRST_HANDLE, U32) && f !in used;
  }

  /** `handle` is the first free one behind `start`, that many counter steps away. */
  predicate NextFree(used: set<nat>, start: nat, handle: nat, steps: nat) {
    && handle !in used && FIRST_HANDLE <= handle < U32
    && steps > 0 && handle == Bumped(start, steps)
    && (forall m :: 0 < m < steps ==> Bumped(start, m) in used)
  }

  /** `nextHandle`: the first handle behind the counter that no client uses, across the counter's
      wrap-around; it is never one of the reserved ones.
   */
  method NextHandle(used: set<nat>, start: nat) returns (handle: nat, ghost steps: nat)
    requires FIRST_HANDLE - 1 <= start < U32 && |used| < U32 - FIRST_HANDLE
    ensures handle !in used && 1000 <= handle < U32
    ensures NextFree(used, start, handle, steps)
  {
    FreeHandle(used);
    ghost var f :| FIRST_HANDLE <= f < U32 && f !in used;
    handle := start + 1;
    if handle == U32 {
      handle := FIRST_HANDLE;
    }
    steps := 1;
    assert Bumped(start, 0) == start;
    while handle in used
      invariant FIRST_HANDLE <= handle < U32 && steps > 0 && handle == Bumped(start, steps)
      invariant forall m :: 0 < m < steps ==> Bumped(start, m) in used
      decreases Distance(handle, f)
    {
      handle := handle + 1;
      if handle == U32 {
        handle := FIRST_HANDLE;
      }
      steps := steps + 1;
    }
  }
}
