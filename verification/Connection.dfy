/** One client connection: what each callback and each application call does to its send queue
    and its closing, and what TCP sees of it over a whole run.
 */
module Connection {
  import opened Bits
  import opened SendQueue
  import opened WsFrame
  import opened WsCodec

  const TCP_MSS: nat := 1460
  const NULL: nat := 0

  /** The fields of a client record. `pcb` is `NULL` once the client is closed. */
  datatype Client = Client(pcb: nat, closed: bool, websocket: bool, wsCloseSent: bool, handle: nat, queue: Queue)

  /** How TCP answers during one step: its free buffer space, and whether it accepts the write and
      the close.
   */
  datatype Tcp = Tcp(room: nat, accepts: bool, closes: bool)

  /** What the step did to the outside: bytes queued (`close` marks a close frame), bytes that TCP
      accepted or refused, and calls of `altcp_close` on the server's own account or because the
      peer has closed.
   */
  datatype Call = Queued(bytes: seq<byte>, close: bool) | Wrote(bytes: seq<byte>) | Refused(bytes: seq<byte>)
                | CloseCall(ok: bool) | CloseBack

  /** The client after a step; when it is no longer `alive` it has been deleted. */
  datatype Out = Out(client: Client, alive: bool, calls: seq<Call>)

  type Payload = p: seq<byte> | |p| < 0xffff_fff0 witness []

  function WebSocketPacket(opcode: nat, payload: Payload): seq<byte>
    requires opcode < 16
  {
    BuiltFrameValid(opcode, payload, false, [0, 0, 0, 0]);
    BuiltFrame(opcode, payload, false, [0, 0, 0, 0]).Encode()
  }

  function SetClosed(c: Client): Client { c.(closed := true, pcb := NULL) }

  /** `close_client` on a registered client. */
  function CloseClient(c: Client, t: Tcp): (r: Out)
    requires Sane(c.queue)
    ensures Sane(r.client.queue)
  {
    var d := SetClosed(c).(queue := Acknowledge(c.queue, 0));
    if d.queue == [] then Out(d, !t.closes, [CloseCall(t.closes)]) else Out(d, true, [])
  }

  /** How much `write_next` asks for. */
  function Portion(t: Tcp): nat {
    if t.room % 0x1_0000 > TCP_MSS then TCP_MSS else t.room % 0x1_0000
  }

  /** The write of `write_next`, before it looks at a pending close. */
  function WritePiece(c: Client, t: Tcp): (r: Out)
    requires Sane(c.queue)
    ensures Sane(r.client.queue) && r.alive
  {
    var p := GetNext(c.queue, Portion(t));
    if p.bytes == [] then Out(c.(queue := p.queue), true, [])
    else if t.accepts then Out(c.(queue := p.queue), true, [Wrote(p.bytes)])
    else Out(c.(queue := Requeue(p.queue, p.bytes)), true, [Refused(p.bytes)])
  }

  function Then(a: Out, b: Out): Out { Out(b.client, b.alive, a.calls + b.calls) }

  function WriteNext(c: Client, t: Tcp): (r: Out)
    requires Sane(c.queue)
    ensures Sane(r.client.queue)
  {
    var w := WritePiece(c, t);
    if w.client.closed && w.client.queue == [] then Then(w, CloseClient(w.client, t)) else w
  }

  /** `send_buffer` for a client that was found: a length is sixteen bits. */
  function SendNow(c: Client, bytes: seq<byte>, close: bool, t: Tcp): (r: Out)
    requires Sane(c.queue)
    ensures Sane(r.client.queue)
  {
    var data := bytes[..|bytes| % 0x1_0000];
    var q := Out(c.(queue := c.queue + [Buf(data, 0, 0)]), true, [Queued(data, close)]);
    Then(q, WriteNext(q.client, t))
  }

  /** Sending through the client's own pcb: a closed client has none to find it by. */
  function Send(c: Client, bytes: seq<byte>, close: bool, t: Tcp): (r: Out)
    requires Sane(c.queue)
    ensures Sane(r.client.queue)
  {
    if c.pcb == NULL then Out(c, true, []) else SendNow(c, bytes, close, t)
  }

  function SendClose(c: Client, payload: Payload, t: Tcp): (r: Out)
    requires Sane(c.queue)
    ensures Sane(r.client.queue)
  {
    Send(c.(wsCloseSent := true), WebSocketPacket(OPCODE_CLOSE, payload), true, t)
  }

  /** `tcp_server_sent`. */
  function Sent(c: Client, count: nat, t: Tcp): (r: Out)
    requires Sane(c.queue)
    ensures Sane(r.client.queue)
  {
    WriteNext(c.(queue := Acknowledge(c.queue, count)), t)
  }

  /** The idle check of `tcp_server_poll`. */
  function IdleCheck(c: Client, idle: bool, t: Tcp): (r: Out)
    requires Sane(c.queue)
    ensures Sane(r.client.queue)
  {
    if !idle || c.closed then Out(c, true, [])
    else if c.websocket && !c.wsCloseSent then SendClose(c, [], t)
    else Out(SetClosed(c), true, [])
  }

  /** The idle verdict after the write of the same poll. `idle` is what the clock says for the time
      before it: a write counts as activity, unless a close frame was sent.
   */
  predicate StillIdle(c: Client, idle: bool) {
    idle && (c.queue == [] || c.wsCloseSent)
  }

  /** `tcp_server_poll`. */
  function Poll(c: Client, idle: bool, write: Tcp, send: Tcp, close: Tcp): (r: Out)
    requires Sane(c.queue)
    ensures Sane(r.client.queue)
  {
    if c.pcb == NULL then CloseClient(c, close) else
      var a := if c.queue != [] then WriteNext(c, write) else Out(c, true, []);
      var b := Then(a, IdleCheck(a.client, StillIdle(c, idle), send));
      if b.client.closed then Then(b, CloseClient(b.client, close)) else b
  }

  /** `process_websocket` for one frame. Text goes to the application. */
  function Process(c: Client, opcode: nat, payload: Payload, t: Tcp): (r: Out)
    requires Sane(c.queue)
    ensures Sane(r.client.queue)
  {
    if opcode == OPCODE_PING then Send(c, WebSocketPacket(OPCODE_PONG, payload), false, t)
    else if opcode == OPCODE_CLOSE then
      var s := if c.wsCloseSent then Out(c, true, []) else SendClose(c, payload, t);
      Then(s, Out(if c.pcb == NULL then s.client else SetClosed(s.client), true, []))
    else Out(c, true, [])
  }

  datatype Event =
    | AppSend(bytes: seq<byte>, t: Tcp)
    | Upgrade(response: seq<byte>, t: Tcp)
    | FrameReceived(opcode: nat, payload: Payload, t: Tcp)
    | RequestServed(t: Tcp)
    | SentByTcp(count: nat, t: Tcp)
    | PollTimer(idle: bool, write: Tcp, send: Tcp, close: Tcp)
    | PeerClosed
    | Failed

  /** What an event does to the client. */
  function React(c: Client, e: Event): (r: Out)
    requires Sane(c.queue)
    ensures Sane(r.client.queue)
  {
    match e
    case AppSend(bytes, t) => Send(c, bytes, false, t)
    case Upgrade(response, t) =>
      var s := Send(c, response, false, t);
      s.(client := s.client.(websocket := true))
    case FrameReceived(opcode, payload, t) => Process(c, opcode, payload, t)
    case RequestServed(t) => if c.pcb == NULL then Out(c, true, []) else CloseClient(c, t)
    case SentByTcp(count, t) => Sent(c, count, t)
    case PollTimer(idle, write, send, close) => Poll(c, idle, write, send, close)
    case PeerClosed => Out(SetClosed(c), false, [CloseBack])
    case Failed => Out(c, false, [])
  }

  function QueuedBytes(calls: seq<Call>): seq<byte> {
    if calls == [] then [] else (if calls[0].Queued? then calls[0].bytes else []) + QueuedBytes(calls[1..])
  }

  function WrittenBytes(calls: seq<Call>): seq<byte> {
    if calls == [] then [] else (if calls[0].Wrote? then calls[0].bytes else []) + WrittenBytes(calls[1..])
  }

  function CloseFrames(calls: seq<Call>): nat {
    if calls == [] then 0 else (if calls[0].Queued? && calls[0].close then 1 else 0) + CloseFrames(calls[1..])
  }

  /** A connection and its whole past: every byte ever queued, every byte TCP ever accepted, how
      many it has acknowledged, and how many close frames were queued.
   */
  datatype Conn = Conn(client: Client, alive: bool, queued: seq<byte>, accepted: seq<byte>, acked: nat,
                       closeFrames: nat)

  function Record(k: Conn, o: Out): Conn {
    Conn(o.client, o.alive, k.queued + QueuedBytes(o.calls), k.accepted + WrittenBytes(o.calls), k.acked,
         k.closeFrames + CloseFrames(o.calls))
  }

  function NewConn(pcb: nat, handle: nat): Conn {
    Conn(Client(pcb, false, false, false, handle, []), true, [], [], 0, 0)
  }

  function Step(k: Conn, e: Event): Conn
    requires Sane(k.client.queue)
  {
    if !k.alive then k else
      Record(if e.SentByTcp? then k.(acked := k.acked + e.count) else k, React(k.client, e))
  }

  lemma StepIs(k: Conn, e: Event)
    requires Sane(k.client.queue) && k.alive
    ensures Step(k, e).client == React(k.client, e).client && Step(k, e).alive == React(k.client, e).alive
  {
    hide React, QueuedBytes, WrittenBytes, CloseFrames;
  }

  /** TCP acknowledges only bytes that it has accepted, and never nothing. */
  predicate Possible(k: Conn, e: Event) {
    e.SentByTcp? ==> 0 < e.count && k.acked + e.count <= |k.accepted|
  }

  /** The stream invariant: what TCP has accepted, followed by what the queue still holds, is all
      that was ever queued, in order; what is in flight belongs to the front buffer; a client is
      closed exactly when it has no pcb; and at most one close frame was queued.
   */
  predicate Inv(k: Conn) {
    && Wf(k.client.queue) && Sane(k.client.queue)
    && (k.client.closed <==> k.client.pcb == NULL)
    && k.queued == k.accepted + Unsent(k.client.queue)
    && |k.accepted| == k.acked + InFlight(k.client.queue)
    && k.closeFrames <= (if k.client.wsCloseSent then 1 else 0)
  }

  /** What every step promises about its calls. */
  predicate Careful(k: Conn, o: Out) {
    && (k.client.closed ==> o.client.closed && QueuedBytes(o.calls) == [] && CloseFrames(o.calls) == 0)
    && (forall c :: c in o.calls && c.CloseCall? ==> o.client.queue == [])
    && (!o.alive ==> o.client.queue == [])
    && o.client.handle == k.client.handle
  }

  predicate Good(k: Conn, o: Out) {
    Inv(Record(k, o)) && Careful(k, o)
  }

  lemma {:induction false} CallsConcat(a: seq<Call>, b: seq<Call>)
    ensures QueuedBytes(a + b) == QueuedBytes(a) + QueuedBytes(b)
    ensures WrittenBytes(a + b) == WrittenBytes(a) + WrittenBytes(b)
    ensures CloseFrames(a + b) == CloseFrames(a) + CloseFrames(b)
  {
    if a == [] {
      assert a + b == b;
    } else {
      assert (a + b)[1..] == a[1..] + b && (a + b)[0] == a[0];
      CallsConcat(a[1..], b);
      hide QueuedBytes, WrittenBytes, CloseFrames;
      CallsCons(a[0], a[1..]);
      CallsCons(a[0], a[1..] + b);
      assert [a[0]] + a[1..] == a && [a[0]] + (a[1..] + b) == a + b;
      var q, w := if a[0].Queued? then a[0].bytes else [], if a[0].Wrote? then a[0].bytes else [];
      assert q + (QueuedBytes(a[1..]) + QueuedBytes(b)) == q + QueuedBytes(a[1..]) + QueuedBytes(b);
      assert w + (WrittenBytes(a[1..]) + WrittenBytes(b)) == w + WrittenBytes(a[1..]) + WrittenBytes(b);
    }
  }

  lemma CallsCons(c: Call, later: seq<Call>)
    ensures QueuedBytes([c] + later) == (if c.Queued? then c.bytes else []) + QueuedBytes(later)
    ensures WrittenBytes([c] + later) == (if c.Wrote? then c.bytes else []) + WrittenBytes(later)
    ensures CloseFrames([c] + later) == (if c.Queued? && c.close then 1 else 0) + CloseFrames(later)
  {
    assert ([c] + later)[1..] == later;
  }

  /** Two good steps in a row are one, if the first did not close. */
  lemma GoodThen(k: Conn, a: Out, b: Out)
    requires Good(k, a) && Good(Record(k, a), b)
    requires forall c :: c in a.calls ==> !c.CloseCall?
    ensures Good(k, Then(a, b)) && Record(k, Then(a, b)) == Record(Record(k, a), b)
  {
    hide Inv, QueuedBytes, WrittenBytes, CloseFrames;
    CallsConcat(a.calls, b.calls);
    var q, w := QueuedBytes(a.calls), WrittenBytes(a.calls);
    assert k.queued + (q + QueuedBytes(b.calls)) == k.queued + q + QueuedBytes(b.calls);
    assert k.accepted + (w + WrittenBytes(b.calls)) == k.accepted + w + WrittenBytes(b.calls);
  }

  lemma OneCall(c: Call)
    ensures QueuedBytes([c]) == if c.Queued? then c.bytes else []
    ensures WrittenBytes([c]) == if c.Wrote? then c.bytes else []
    ensures CloseFrames([c]) == if c.Queued? && c.close then 1 else 0
  {
    assert [c][1..] == [];
  }

  lemma NoCalls(k: Conn)
    ensures QueuedBytes([]) == [] && WrittenBytes([]) == [] && CloseFrames([]) == 0
    ensures k.queued + [] == k.queued && k.accepted + [] == k.accepted
  {
  }

  lemma CloseGood(k: Conn, t: Tcp)
    requires Inv(k)
    ensures Good(k, CloseClient(k.client, t))
  {
    hide Wf, SendQueue.Sane, Unsent, InFlight, Acknowledge, QueuedBytes, WrittenBytes, CloseFrames;
    AcknowledgeFlight(k.client.queue, 0);
    OneCall(CloseCall(t.closes));
    NoCalls(k);
  }

  lemma WritePieceGood(k: Conn, t: Tcp)
    requires Inv(k)
    ensures Good(k, WritePiece(k.client, t))
    ensures forall c :: c in WritePiece(k.client, t).calls ==> !c.CloseCall?
  {
    hide Wf, SendQueue.Sane, Unsent, InFlight, Acknowledge, GetNext, Requeue, QueuedBytes, WrittenBytes, CloseFrames;
    hide Portion;
    var p := GetNext(k.client.queue, Portion(t));
    GetNextMoves(k.client.queue, Portion(t));
    NoCalls(k);
    OneCall(Wrote(p.bytes));
    OneCall(Refused(p.bytes));
    if p.bytes != [] && t.accepts {
      assert k.accepted + (p.bytes + Unsent(p.queue)) == k.accepted + p.bytes + Unsent(p.queue);
    } else if p.bytes != [] {
      RequeueUndoes(k.client.queue, Portion(t));
      AcknowledgeFlight(k.client.queue, 0);
    } else {
      assert [] + Unsent(p.queue) == Unsent(p.queue);
    }
  }

  lemma WriteNextGood(k: Conn, t: Tcp)
    requires Inv(k)
    ensures Good(k, WriteNext(k.client, t))
    ensures !k.client.closed ==> WriteNext(k.client, t) == WritePiece(k.client, t)
  {
    assert Sane(k.client.queue);
    hide Inv, Careful, CloseClient, WritePiece;
    WritePieceGood(k, t);
    WritePieceKeeps(k.client, t);
    var w := WritePiece(k.client, t);
    if w.client.closed && w.client.queue == [] {
      CloseGood(Record(k, w), t);
      GoodThen(k, w, CloseClient(w.client, t));
    }
  }

  lemma QueueSnoc(q: Queue, data: seq<byte>)
    requires Wf(q) && Sane(q)
    ensures var r := q + [Buf(data, 0, 0)];
            Wf(r) && Sane(r) && InFlight(r) == InFlight(q) && Unsent(r) == Unsent(q) + data
  {
    var b := Buf(data, 0, 0);
    UnsentSnoc(q, b);
    assert b.data[0..] == data;
  }

  lemma QueueGood(k: Conn, data: seq<byte>, close: bool)
    requires Inv(k) && k.client.pcb != NULL
    requires close ==> k.client.wsCloseSent && k.closeFrames == 0
    ensures Good(k, Out(k.client.(queue := k.client.queue + [Buf(data, 0, 0)]), true, [Queued(data, close)]))
  {
    hide Wf, SendQueue.Sane, Unsent, InFlight, QueuedBytes, WrittenBytes, CloseFrames;
    var q := k.client.queue;
    QueueSnoc(q, data);
    OneCall(Queued(data, close));
    NoCalls(k);
    assert k.accepted + (Unsent(q) + data) == k.accepted + Unsent(q) + data;
  }

  lemma SendGood(k: Conn, bytes: seq<byte>, close: bool, t: Tcp)
    requires Inv(k)
    requires close ==> k.client.wsCloseSent && k.closeFrames == 0
    ensures Good(k, Send(k.client, bytes, close, t))
    ensures forall c :: c in Send(k.client, bytes, close, t).calls ==> !c.CloseCall?
    ensures Send(k.client, bytes, close, t).alive
    ensures Send(k.client, bytes, close, t).client.closed == k.client.closed
  {
    if k.client.pcb == NULL {
      NoCalls(k);
    } else {
      var data := bytes[..|bytes| % 0x1_0000];
      var q := Out(k.client.(queue := k.client.queue + [Buf(data, 0, 0)]), true, [Queued(data, close)]);
      QueueGood(k, data, close);
      assert !k.client.closed;
      hide Inv, Careful, WritePiece, WriteNext;
      var later := Record(k, q);
      WriteNextGood(later, t);
      WritePieceGood(later, t);
      assert WritePiece(q.client, t).client.closed == q.client.closed by { WritePieceKeeps(q.client, t); }
      GoodThen(k, q, WriteNext(q.client, t));
    }
  }

  lemma WritePieceKeeps(c: Client, t: Tcp)
    requires Sane(c.queue)
    ensures var w := WritePiece(c, t);
            w.client.(queue := c.queue) == c
  {
  }

  lemma SendCloseGood(k: Conn, payload: Payload, t: Tcp)
    requires Inv(k) && !k.client.wsCloseSent
    ensures Good(k, SendClose(k.client, payload, t)) && SendClose(k.client, payload, t).alive
    ensures forall c :: c in SendClose(k.client, payload, t).calls ==> !c.CloseCall?
    ensures SendClose(k.client, payload, t).client.closed == k.client.closed
  {
    hide Wf, SendQueue.Sane, Unsent, InFlight, Send, QueuedBytes, WrittenBytes, CloseFrames, WebSocketPacket;
    SendGood(k.(client := k.client.(wsCloseSent := true)), WebSocketPacket(OPCODE_CLOSE, payload), true, t);
  }

  lemma NothingGood(k: Conn)
    requires Inv(k)
    ensures Good(k, Out(k.client, true, [])) && Good(k, Out(SetClosed(k.client), true, []))
  {
    hide Wf, SendQueue.Sane, Unsent, InFlight;
    NoCalls(k);
  }

  lemma IdleCheckGood(k: Conn, idle: bool, t: Tcp)
    requires Inv(k)
    ensures Good(k, IdleCheck(k.client, idle, t)) && IdleCheck(k.client, idle, t).alive
    ensures forall c :: c in IdleCheck(k.client, idle, t).calls ==> !c.CloseCall?
  {
    assert Sane(k.client.queue);
    hide Inv, Careful, SendClose;
    NothingGood(k);
    if idle && !k.client.closed && k.client.websocket && !k.client.wsCloseSent {
      SendCloseGood(k, [], t);
    }
  }

  lemma PollGood(k: Conn, idle: bool, write: Tcp, send: Tcp, close: Tcp)
    requires Inv(k)
    ensures Good(k, Poll(k.client, idle, write, send, close))
  {
    assert Sane(k.client.queue) && (k.client.closed <==> k.client.pcb == NULL);
    hide Inv, Careful, WriteNext, WritePiece, IdleCheck, CloseClient;
    NothingGood(k);
    CloseGood(k, close);
    WriteNextGood(k, write);
    WritePieceGood(k, write);
    if k.client.pcb != NULL {
      var a := if k.client.queue != [] then WriteNext(k.client, write) else Out(k.client, true, []);
      var still := StillIdle(k.client, idle);
      IdleCheckGood(Record(k, a), still, send);
      var i := IdleCheck(a.client, still, send);
      GoodThen(k, a, i);
      if i.client.closed {
        CloseGood(Record(k, Then(a, i)), close);
        GoodThen(k, Then(a, i), CloseClient(i.client, close));
      }
    }
  }

  lemma ProcessGood(k: Conn, opcode: nat, payload: Payload, t: Tcp)
    requires Inv(k)
    ensures Good(k, Process(k.client, opcode, payload, t))
  {
    assert Sane(k.client.queue);
    assert k.client.pcb == NULL <==> k.client.closed;
    hide Inv, Careful, Send, SendClose, WebSocketPacket;
    NothingGood(k);
    if opcode == OPCODE_PING {
      SendGood(k, WebSocketPacket(OPCODE_PONG, payload), false, t);
    } else if opcode == OPCODE_CLOSE {
      var s := if k.client.wsCloseSent then Out(k.client, true, []) else SendClose(k.client, payload, t);
      if !k.client.wsCloseSent { SendCloseGood(k, payload, t); }
      NothingGood(Record(k, s));
      GoodThen(k, s, Out(if k.client.pcb == NULL then s.client else SetClosed(s.client), true, []));
    }
  }

  lemma SentGood(k: Conn, count: nat, t: Tcp)
    requires Inv(k) && k.acked + count <= |k.accepted|
    ensures Good(k.(acked := k.acked + count), Sent(k.client, count, t))
  {
    hide Wf, SendQueue.Sane, Unsent, InFlight, Acknowledge, WriteNext, QueuedBytes, WrittenBytes, CloseFrames;
    var q := Acknowledge(k.client.queue, count);
    var now := k.(acked := k.acked + count, client := k.client.(queue := q));
    AcknowledgeFlight(k.client.queue, count);
    WriteNextGood(now, t);
  }

  lemma UpgradeGood(k: Conn, response: seq<byte>, t: Tcp)
    requires Inv(k)
    ensures Good(k, React(k.client, Upgrade(response, t)))
  {
    SendGood(k, response, false, t);
    hide Wf, SendQueue.Sane, Unsent, InFlight, QueuedBytes, WrittenBytes, CloseFrames, Send;
  }

  /** Every event keeps the stream invariant, and a closed client gets nothing more to send. */
  lemma ReactGood(k: Conn, e: Event)
    requires Inv(k) && k.alive && Possible(k, e) && !e.PeerClosed? && !e.Failed?
    ensures Good(if e.SentByTcp? then k.(acked := k.acked + e.count) else k, React(k.client, e))
  {
    hide Wf, SendQueue.Sane, Unsent, InFlight, Good, Careful, Send, Process, CloseClient, Sent, Poll, Record;
    assert Sane(k.client.queue);
    hide Inv;
    match e
    case AppSend(bytes, t) => SendGood(k, bytes, false, t);
    case Upgrade(response, t) => UpgradeGood(k, response, t);
    case FrameReceived(opcode, payload, t) => ProcessGood(k, opcode, payload, t);
    case RequestServed(t) =>
      if k.client.pcb == NULL { NothingGood(k); } else { CloseGood(k, t); }
    case SentByTcp(count, t) => SentGood(k, count, t);
    case PollTimer(idle, write, send, close) => PollGood(k, idle, write, send, close);
  }

  lemma StepInv(k: Conn, e: Event)
    requires Inv(k) && Possible(k, e)
    ensures Inv(Step(k, e))
  {
    hide Wf, SendQueue.Sane, Unsent, InFlight, QueuedBytes, WrittenBytes, CloseFrames, Send, Process, CloseClient;
    hide Sent, Poll;
    if k.alive && !e.PeerClosed? && !e.Failed? {
      ReactGood(k, e);
    } else {
      OneCall(CloseBack);
      NoCalls(k);
    }
  }

  /** A run in which TCP behaves. */
  function Run(k: Conn, events: seq<Event>): (r: Conn)
    requires Sane(k.client.queue)
    ensures Sane(r.client.queue)
    decreases |events|
  {
    if events == [] then k else Step(Run(k, events[..|events| - 1]), events[|events| - 1])
  }

  predicate PossibleRun(k: Conn, events: seq<Event>)
    requires Sane(k.client.queue)
    decreases |events|
  {
    events == [] || (PossibleRun(k, events[..|events| - 1])
                     && Possible(Run(k, events[..|events| - 1]), events[|events| - 1]))
  }

  /** Over every run of a connection. */
  lemma {:induction false} RunInv(pcb: nat, handle: nat, events: seq<Event>)
    requires pcb != NULL && PossibleRun(NewConn(pcb, handle), events)
    ensures Inv(Run(NewConn(pcb, handle), events))
    decreases |events|
  {
    hide Inv, Step, Possible;
    if events == [] {
      NewInv(pcb, handle);
    } else {
      RunInv(pcb, handle, events[..|events| - 1]);
      StepInv(Run(NewConn(pcb, handle), events[..|events| - 1]), events[|events| - 1]);
    }
  }

  lemma NewInv(pcb: nat, handle: nat)
    requires pcb != NULL
    ensures Inv(NewConn(pcb, handle))
  {
  }

  /** The send queue as one FIFO stream: whatever TCP has accepted so far is the beginning of what
      was queued, and it acknowledges in that order.
   */
  lemma StreamIsFifo(pcb: nat, handle: nat, events: seq<Event>)
    requires pcb != NULL && PossibleRun(NewConn(pcb, handle), events)
    ensures var k := Run(NewConn(pcb, handle), events);
            && k.accepted <= k.queued && k.acked <= |k.accepted|
            && k.queued == k.accepted + Unsent(k.client.queue)
            && Wf(k.client.queue)
            && |k.accepted| - k.acked == InFlight(k.client.queue)
            && k.closeFrames <= 1
  {
    RunInv(pcb, handle, events);
  }

  /** Close safety: the server closes a connection of its own accord only when every byte ever
      queued has been acknowledged; a closed client is never queued anything more; and closed it
      stays.
   */
  lemma CloseIsSafe(pcb: nat, handle: nat, events: seq<Event>, e: Event)
    requires pcb != NULL && PossibleRun(NewConn(pcb, handle), events)
    requires var k := Run(NewConn(pcb, handle), events); k.alive && Possible(k, e)
    ensures var k := Run(NewConn(pcb, handle), events);
            var o, after := React(k.client, e), Step(k, e);
            && ((exists c :: c in o.calls && c.CloseCall?) ==> after.acked == |after.accepted| == |after.queued|)
            && (!after.alive && !e.PeerClosed? && !e.Failed? ==> after.acked == |after.queued|)
            && (k.client.closed ==> after.queued == k.queued && after.closeFrames == k.closeFrames)
            && (k.client.closed && !e.Failed? ==> after.client.closed)
  {
    var k := Run(NewConn(pcb, handle), events);
    RunInv(pcb, handle, events);
    StepInv(k, e);
    hide Wf, SendQueue.Sane, QueuedBytes, WrittenBytes, CloseFrames, Send, Process, CloseClient, Sent, Poll, Run;
    hide PossibleRun;
    if !e.PeerClosed? && !e.Failed? {
      ReactGood(k, e);
    } else {
      OneCall(CloseBack);
      NoCalls(k);
    }
    assert k.queued + [] == k.queued;
  }
}
