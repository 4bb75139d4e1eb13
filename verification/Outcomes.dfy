/** What each event does to one connection, as seen from outside: what is queued, what is handed to
    TCP, and exactly when the client is closed and when it is removed.
 */
module Outcomes {
  import opened Bits
  import opened SendQueue
  import opened Connection
  import opened Registry
  import opened WsFrame
  import opened WsCodec
  import opened WsStream
  import opened Closing

  // ----- what is queued

  lemma WriteQueuesNothing(c: Client, t: Tcp)
    requires Sane(c.queue)
    ensures QueuedBytes(WriteNext(c, t).calls) == [] && QueuedBytes(CloseClient(c, t).calls) == []
  {
    hide Acknowledge, GetNext, Requeue, SendQueue.Sane, Portion, QueuedBytes;
    var p := GetNext(c.queue, Portion(t)).bytes;
    OneCall(Wrote(p));
    OneCall(Refused(p));
    OneCall(CloseCall(t.closes));
    assert QueuedBytes([]) == [] by { NoCalls(NewConn(1, 0)); }
    CallsConcat(WritePiece(c, t).calls, CloseClient(WritePiece(c, t).client, t).calls);
    CloseQueuesNothing(c, t);
    CloseQueuesNothing(WritePiece(c, t).client, t);
  }

  lemma CloseQueuesNothing(c: Client, t: Tcp)
    requires Sane(c.queue)
    ensures QueuedBytes(CloseClient(c, t).calls) == []
  {
    OneCall(CloseCall(t.closes));
  }

  lemma SendQueues(c: Client, bytes: seq<byte>, close: bool, t: Tcp)
    requires Sane(c.queue)
    ensures QueuedBytes(Send(c, bytes, close, t).calls) == if c.pcb == NULL then [] else bytes[..|bytes| % 0x1_0000]
  {
    if c.pcb != NULL {
      var data := bytes[..|bytes| % 0x1_0000];
      var d := c.(queue := c.queue + [Buf(data, 0, 0)]);
      assert Sane(d.queue);
      hide WriteNext, QueuedBytes;
      WriteQueuesNothing(d, t);
      OneCall(Queued(data, close));
      CallsConcat([Queued(data, close)], WriteNext(d, t).calls);
      assert data + [] == data;
    }
  }

  /** A packet without a mask, as far as a sixteen-bit length lets it be queued. */
  function Answer(first: byte, payload: Payload): seq<byte> {
    var msg := Wire(first, payload);
    msg[..|msg| % 0x1_0000]
  }

  lemma PacketQueues(c: Client, opcode: nat, payload: Payload, close: bool, t: Tcp)
    requires Sane(c.queue) && opcode < 16
    ensures QueuedBytes(Send(c, WebSocketPacket(opcode, payload), close, t).calls)
            == if c.pcb == NULL then [] else Answer(128 + opcode, payload)
  {
    hide Send, Wire, QueuedBytes;
    SendQueues(c, WebSocketPacket(opcode, payload), close, t);
    WireIs(opcode, payload, [0, 0, 0, 0]);
  }

  lemma EmptyClose()
    ensures Answer(0x88, []) == [0x88, 0]
  {
    assert [0x88, 0][..2] == [0x88, 0];
  }

  lemma CloseFrameQueues(c: Client, payload: Payload, t: Tcp)
    requires Sane(c.queue)
    ensures QueuedBytes(SendClose(c, payload, t).calls) == if c.pcb == NULL then [] else Answer(0x88, payload)
  {
    hide Send, QueuedBytes, WebSocketPacket, Answer;
    PacketQueues(c.(wsCloseSent := true), 8, payload, true, t);
  }

  /** A text for an open client is queued as one final, unmasked text packet. */
  lemma TextQueued(c: Client, text: Payload, t: Tcp)
    requires Sane(c.queue) && (c.closed <==> c.pcb == NULL)
    ensures QueuedBytes(React(c, AppSend(WebSocketPacket(OPCODE_TEXT, text), t)).calls)
            == if c.closed then [] else Answer(0x81, text)
  {
    hide Send, QueuedBytes, WebSocketPacket, Answer;
    PacketQueues(c, 1, text, false, t);
  }

  /** Whether the poll finds the connection idle and an upgraded one that was sent no close frame. */
  predicate IdleSocket(c: Client, idle: bool) {
    idle && !c.closed && c.queue == [] && c.websocket && !c.wsCloseSent
  }

  /** What every event makes the server queue: the application's bytes and the handshake response, cut
      at sixteen bits of length; a pong with the payload for a ping; the close frame back for the first
      one; an empty close frame on an idle connection; and nothing else, and nothing when closed.
   */
  lemma QueuedBy(c: Client, e: Event)
    requires Sane(c.queue) && (c.closed <==> c.pcb == NULL)
    ensures QueuedBytes(React(c, e).calls) ==
              if c.closed then [] else
                match e
                case AppSend(bytes, _) => bytes[..|bytes| % 0x1_0000]
                case Upgrade(response, _) => response[..|response| % 0x1_0000]
                case FrameReceived(opcode, payload, _) =>
                  if opcode == 9 then Answer(0x8A, payload)
                  else if opcode == 8 && !c.wsCloseSent then Answer(0x88, payload)
                  else []
                case PollTimer(idle, _, _, _) => if IdleSocket(c, idle) then [0x88, 0] else []
                case _ => []
  {
    hide Send, SendClose, Poll, Process, WriteNext, CloseClient, Acknowledge, QueuedBytes, SendQueue.Sane, Answer;
    assert QueuedBytes([]) == [] by { NoCalls(NewConn(1, 0)); }
    match e
    case AppSend(bytes, t) => SendQueues(c, bytes, false, t);
    case Upgrade(response, t) => SendQueues(c, response, false, t);
    case FrameReceived(opcode, payload, t) => ProcessQueues(c, opcode, payload, t);
    case RequestServed(t) => CloseQueuesNothing(c, t);
    case SentByTcp(count, t) => WriteQueuesNothing(c.(queue := Acknowledge(c.queue, count)), t);
    case PollTimer(idle, write, send, close) => PollQueues(c, idle, write, send, close);
    case PeerClosed => OneCall(CloseBack);
    case Failed =>
  }

  lemma ProcessQueues(c: Client, opcode: nat, payload: Payload, t: Tcp)
    requires Sane(c.queue)
    ensures QueuedBytes(Process(c, opcode, payload, t).calls) ==
              if c.pcb == NULL then []
              else if opcode == 9 then Answer(0x8A, payload)
              else if opcode == 8 && !c.wsCloseSent then Answer(0x88, payload)
              else []
  {
    hide Send, SendClose, QueuedBytes, SendQueue.Sane, Answer, WebSocketPacket;
    assert QueuedBytes([]) == [] by { NoCalls(NewConn(1, 0)); }
    PacketQueues(c, 10, payload, false, t);
    CloseFrameQueues(c, payload, t);
    if opcode == 8 {
      var s := if c.wsCloseSent then Out(c, true, []) else SendClose(c, payload, t);
      assert s.calls + [] == s.calls;
      assert Process(c, opcode, payload, t).calls == s.calls;
    }
  }

  lemma PollQueues(c: Client, idle: bool, write: Tcp, send: Tcp, close: Tcp)
    requires Sane(c.queue) && (c.closed <==> c.pcb == NULL)
    ensures QueuedBytes(Poll(c, idle, write, send, close).calls) == if IdleSocket(c, idle) then [0x88, 0] else []
  {
    hide SendClose, WriteNext, CloseClient, QueuedBytes, SendQueue.Sane, Answer;
    PollIs(c, idle, write, send, close);
    hide Poll;
    assert QueuedBytes([]) == [] by { NoCalls(NewConn(1, 0)); }
    CloseQueuesNothing(c, close);
    if c.pcb != NULL {
      var a := if c.queue != [] then WriteNext(c, write) else Out(c, true, []);
      var i := IdleCheck(a.client, StillIdle(c, idle), send);
      WriteQueuesNothing(c, write);
      WriteKeepsFlags(c, write);
      CloseFrameQueues(a.client, [], send);
      EmptyClose();
      CallsConcat(a.calls, i.calls);
      CloseQueuesNothing(i.client, close);
      CallsConcat(a.calls + i.calls, CloseClient(i.client, close).calls);
    }
  }

  /** A write keeps what is known about an open client. */
  lemma WriteKeepsFlags(c: Client, t: Tcp)
    requires Sane(c.queue) && !c.closed
    ensures WriteNext(c, t) == WritePiece(c, t)
    ensures WriteNext(c, t).client == c.(queue := WriteNext(c, t).client.queue)
  {
    hide WritePiece, CloseClient;
    WritePieceKeeps(c, t);
  }

  // ----- when a client is closed

  /** Whether the poll finds the connection idle and has no close frame left to send first. */
  predicate IdleDone(c: Client, idle: bool) {
    idle && !c.closed && (c.queue == [] || c.wsCloseSent) && (c.websocket ==> c.wsCloseSent)
  }

  /** Exactly when a client is closed: by the peer, after a request, by a close frame, and on an idle
      connection that is not upgraded or was sent a close frame. And exactly when a close frame counts
      as sent.
   */
  lemma ClosedBy(c: Client, e: Event)
    requires Sane(c.queue) && (c.closed <==> c.pcb == NULL)
    ensures React(c, e).client.closed <==>
              || c.closed || e.PeerClosed? || e.RequestServed?
              || (e.FrameReceived? && e.opcode == 8) || (e.PollTimer? && IdleDone(c, e.idle))
    ensures React(c, e).client.wsCloseSent <==>
              c.wsCloseSent || (e.FrameReceived? && e.opcode == 8) || (e.PollTimer? && IdleSocket(c, e.idle))
  {
    hide Send, SendClose, Poll, Process, WriteNext, CloseClient, Acknowledge, SendQueue.Sane;
    match e
    case AppSend(bytes, t) => SendKeepsOpen(c, bytes, false, t);
    case Upgrade(response, t) => SendKeepsOpen(c, response, false, t);
    case FrameReceived(opcode, payload, t) => ProcessCloses(c, opcode, payload, t);
    case RequestServed(t) => CloseKeepsFlags(c, t);
    case SentByTcp(count, t) => WriteKeepsClosed(c.(queue := Acknowledge(c.queue, count)), t);
    case PollTimer(idle, write, send, close) => PollCloses(c, idle, write, send, close);
    case PeerClosed =>
    case Failed =>
  }

  lemma CloseKeepsFlags(c: Client, t: Tcp)
    requires Sane(c.queue)
    ensures var d := CloseClient(c, t).client; d.closed && d.wsCloseSent == c.wsCloseSent
  {
    hide Acknowledge;
  }

  lemma WriteKeepsClosed(c: Client, t: Tcp)
    requires Sane(c.queue)
    ensures var d := WriteNext(c, t).client; d.closed == c.closed && d.wsCloseSent == c.wsCloseSent
  {
    hide WritePiece, CloseClient;
    WritePieceKeeps(c, t);
    CloseKeepsFlags(WritePiece(c, t).client, t);
  }

  lemma CloseFrameKeeps(c: Client, payload: Payload, t: Tcp)
    requires Sane(c.queue) && SameIdentity(c, c)
    ensures var d := SendClose(c, payload, t).client; d.closed == c.closed && d.pcb == c.pcb && d.wsCloseSent
  {
    hide Send, WebSocketPacket;
    SendKeepsOpen(c.(wsCloseSent := true), WebSocketPacket(OPCODE_CLOSE, payload), true, t);
  }

  lemma ProcessCloses(c: Client, opcode: nat, payload: Payload, t: Tcp)
    requires Sane(c.queue) && (c.closed <==> c.pcb == NULL)
    ensures var d := Process(c, opcode, payload, t).client;
            d.closed == (c.closed || opcode == 8) && d.wsCloseSent == (c.wsCloseSent || opcode == 8)
  {
    hide Send, SendClose, SendQueue.Sane, WebSocketPacket;
    SendKeepsOpen(c, WebSocketPacket(OPCODE_PONG, payload), false, t);
    CloseFrameKeeps(c, payload, t);
  }

  lemma PollCloses(c: Client, idle: bool, write: Tcp, send: Tcp, close: Tcp)
    requires Sane(c.queue) && (c.closed <==> c.pcb == NULL)
    ensures var d := Poll(c, idle, write, send, close).client;
            && d.closed == (c.closed || IdleDone(c, idle))
            && d.wsCloseSent == (c.wsCloseSent || IdleSocket(c, idle))
  {
    hide SendClose, WriteNext, CloseClient, SendQueue.Sane;
    PollIs(c, idle, write, send, close);
    hide Poll;
    CloseKeepsFlags(c, close);
    if c.pcb != NULL {
      var a := if c.queue != [] then WriteNext(c, write) else Out(c, true, []);
      var i := IdleCheck(a.client, StillIdle(c, idle), send);
      WriteKeepsFlags(c, write);
      CloseFrameKeeps(a.client, [], send);
      CloseKeepsFlags(i.client, close);
    }
  }

  // ----- what is handed to TCP

  /** The write of `write_next`: nothing without room, or when the first buffer that is not finished
      has nothing unsent; else the next bytes of that buffer, as many as 1460, TCP's free room, which
      it knows in sixteen bits, and the buffer allow. What TCP refuses stays unsent.
   */
  lemma WritePieceIs(c: Client, t: Tcp)
    requires Sane(c.queue)
    ensures var q, w := c.queue, WritePiece(c, t);
            var room := if t.room % 0x1_0000 < 1460 then t.room % 0x1_0000 else 1460;
            var i := if q != [] && q[0].ack == |q[0].data| then 1 else 0;
            if room == 0 || i >= |q| || q[i].sent == |q[i].data| then
              w.calls == [] && w.client.queue == if room == 0 then q else q[i..]
            else
              var n := if room < |q[i].data| - q[i].sent then room else |q[i].data| - q[i].sent;
              var piece := q[i].data[q[i].sent..q[i].sent + n];
              && w.calls == [if t.accepts then Wrote(piece) else Refused(piece)]
              && w.client.queue == if t.accepts then [q[i].(sent := q[i].sent + n)] + q[i + 1..] else q[i..]
  {
    hide Acknowledge, Requeue;
    var q, i := c.queue, if c.queue != [] && c.queue[0].ack == |c.queue[0].data| then 1 else 0;
    RemoveFront(q);
    assert i <= |q| && Acknowledge(q, 0) == q[i..];
    WriteIs(c, t);
    if i < |q| { assert q[i..][1..] == q[i + 1..] && q[i..][0] == q[i] && q[i].Sane(); }
    hide SendQueue.Sane, Buf.Sane;
  }

  /** Only a finished front buffer is removed when nothing is acknowledged. */
  lemma RemoveFront(q: Queue)
    requires Sane(q)
    ensures Acknowledge(q, 0) == if q != [] && q[0].ack == |q[0].data| then q[1..] else q
  {
    if q != [] { assert [q[0].(ack := q[0].ack + 0)] + q[1..] == q; }
  }

  /** The writes among the calls of a step. */
  function Writes(calls: seq<Call>): seq<Call> {
    if calls == [] then [] else
      (if calls[0].Wrote? || calls[0].Refused? then [calls[0]] else []) + Writes(calls[1..])
  }

  lemma {:induction false} WritesConcat(a: seq<Call>, b: seq<Call>)
    ensures Writes(a + b) == Writes(a) + Writes(b)
    decreases |a|
  {
    hide Writes;
    if a == [] {
      WritesNone();
      assert a + b == b && [] + Writes(b) == Writes(b);
    } else {
      var c, later := a[0], a[1..];
      assert a == [c] + later && a + b == [c] + (later + b);
      WritesCons(c, later);
      WritesCons(c, later + b);
      WritesConcat(later, b);
      Associate(if c.Wrote? || c.Refused? then [c] else [], Writes(later), Writes(b));
    }
  }

  lemma WritesCons(c: Call, later: seq<Call>)
    ensures Writes([c] + later) == (if c.Wrote? || c.Refused? then [c] else []) + Writes(later)
  {
    assert ([c] + later)[1..] == later;
  }

  lemma OneWrite(c: Call)
    ensures Writes([c]) == if c.Wrote? || c.Refused? then [c] else []
  {
    assert [c][1..] == [];
  }

  lemma PieceWrites(c: Client, t: Tcp)
    requires Sane(c.queue)
    ensures Writes(WritePiece(c, t).calls) == WritePiece(c, t).calls
    ensures Writes(CloseClient(c, t).calls) == []
  {
    hide Writes, GetNext, Requeue, Portion, Acknowledge;
    assert Writes([]) == [] by { WritesNone(); }
    OneWrite(Wrote(GetNext(c.queue, Portion(t)).bytes));
    OneWrite(Refused(GetNext(c.queue, Portion(t)).bytes));
    OneWrite(CloseCall(t.closes));
  }

  lemma WritesNone()
    ensures Writes([]) == []
  {
  }

  lemma NextWrites(c: Client, t: Tcp)
    requires Sane(c.queue)
    ensures Writes(WriteNext(c, t).calls) == WritePiece(c, t).calls
  {
    hide Writes, WritePiece, CloseClient;
    var w := WritePiece(c, t);
    PieceWrites(c, t);
    PieceWrites(w.client, t);
    WritesConcat(w.calls, CloseClient(w.client, t).calls);
    assert w.calls + [] == w.calls;
  }

  /** The write of `write_next` for a queue. */
  function PieceOf(q: Queue, t: Tcp): seq<Call>
    requires Sane(q)
  {
    WritePiece(Client(NULL, false, false, false, 0, q), t).calls
  }

  lemma PieceOfIs(c: Client, t: Tcp)
    requires Sane(c.queue)
    ensures PieceOf(c.queue, t) == WritePiece(c, t).calls
  {
    hide GetNext, Requeue, Portion;
  }

  /** The queue with one more buffer. */
  function Longer(q: Queue, data: seq<byte>): (r: Queue)
    requires Sane(q)
    ensures Sane(r)
  {
    q + [Buf(data, 0, 0)]
  }

  lemma SendWrites(c: Client, bytes: seq<byte>, close: bool, t: Tcp)
    requires Sane(c.queue)
    ensures Writes(Send(c, bytes, close, t).calls)
            == if c.pcb == NULL then [] else PieceOf(Longer(c.queue, bytes[..|bytes| % 0x1_0000]), t)
  {
    var data := bytes[..|bytes| % 0x1_0000];
    var d := c.(queue := Longer(c.queue, data));
    hide Writes, WriteNext, WritePiece, SendQueue.Sane, PieceOf;
    WritesNone();
    if c.pcb != NULL {
      NextWrites(d, t);
      PieceOfIs(d, t);
      OneWrite(Queued(data, close));
      WritesConcat([Queued(data, close)], WriteNext(d, t).calls);
      assert [] + PieceOf(d.queue, t) == PieceOf(d.queue, t);
    }
  }

  lemma PacketWrites(c: Client, opcode: nat, payload: Payload, close: bool, t: Tcp)
    requires Sane(c.queue) && opcode < 16
    ensures Writes(Send(c, WebSocketPacket(opcode, payload), close, t).calls)
            == if c.pcb == NULL then [] else PieceOf(Longer(c.queue, Answer(128 + opcode, payload)), t)
  {
    hide Send, Wire, Writes, PieceOf, Longer;
    SendWrites(c, WebSocketPacket(opcode, payload), close, t);
    WireIs(opcode, payload, [0, 0, 0, 0]);
  }

  lemma CloseFrameWrites(c: Client, payload: Payload, t: Tcp)
    requires Sane(c.queue)
    ensures Writes(SendClose(c, payload, t).calls)
            == if c.pcb == NULL then [] else PieceOf(Longer(c.queue, Answer(0x88, payload)), t)
  {
    hide Send, Writes, WebSocketPacket, Answer, PieceOf, Longer;
    PacketWrites(c.(wsCloseSent := true), 8, payload, true, t);
  }

  /** What every event hands to TCP: one write of the queue as the event leaves it, when the event queues
      or acknowledges something, and on a poll of an open client with something queued; and no other.
   */
  lemma WrittenBy(c: Client, e: Event)
    requires Sane(c.queue) && (c.closed <==> c.pcb == NULL)
    ensures Writes(React(c, e).calls) ==
              match e
              case AppSend(bytes, t) =>
                if c.closed then [] else PieceOf(Longer(c.queue, bytes[..|bytes| % 0x1_0000]), t)
              case Upgrade(response, t) =>
                if c.closed then [] else PieceOf(Longer(c.queue, response[..|response| % 0x1_0000]), t)
              case FrameReceived(opcode, payload, t) =>
                if c.closed then []
                else if opcode == 9 then PieceOf(Longer(c.queue, Answer(0x8A, payload)), t)
                else if opcode == 8 && !c.wsCloseSent then PieceOf(Longer(c.queue, Answer(0x88, payload)), t)
                else []
              case SentByTcp(count, t) => PieceOf(Acknowledge(c.queue, count), t)
              case PollTimer(idle, write, send, _) =>
                if IdleSocket(c, idle) then PieceOf(Longer([], [0x88, 0]), send)
                else if c.closed || c.queue == [] then []
                else PieceOf(c.queue, write)
              case _ => []
  {
    hide Send, SendClose, Poll, Process, WriteNext, CloseClient, Acknowledge, Writes, SendQueue.Sane, Answer, PieceOf;
    hide Longer, WritePiece;
    WritesNone();
    match e
    case AppSend(bytes, t) => SendWrites(c, bytes, false, t);
    case Upgrade(response, t) => SendWrites(c, response, false, t);
    case FrameReceived(opcode, payload, t) => ProcessWrites(c, opcode, payload, t);
    case RequestServed(t) => PieceWrites(c, t);
    case SentByTcp(count, t) =>
      NextWrites(c.(queue := Acknowledge(c.queue, count)), t);
      PieceOfIs(c.(queue := Acknowledge(c.queue, count)), t);
    case PollTimer(idle, write, send, close) => PollWrites(c, idle, write, send, close);
    case PeerClosed => OneWrite(CloseBack);
    case Failed =>
  }

  lemma ProcessWrites(c: Client, opcode: nat, payload: Payload, t: Tcp)
    requires Sane(c.queue)
    ensures Writes(Process(c, opcode, payload, t).calls) ==
              if c.pcb == NULL then []
              else if opcode == 9 then PieceOf(Longer(c.queue, Answer(0x8A, payload)), t)
              else if opcode == 8 && !c.wsCloseSent then PieceOf(Longer(c.queue, Answer(0x88, payload)), t)
              else []
  {
    hide Send, SendClose, Writes, SendQueue.Sane, Answer, WebSocketPacket, PieceOf, Longer;
    WritesNone();
    PacketWrites(c, 10, payload, false, t);
    CloseFrameWrites(c, payload, t);
    if opcode == 8 {
      var s := if c.wsCloseSent then Out(c, true, []) else SendClose(c, payload, t);
      assert s.calls + [] == s.calls;
      assert Process(c, opcode, payload, t).calls == s.calls;
    }
  }

  lemma PollWrites(c: Client, idle: bool, write: Tcp, send: Tcp, close: Tcp)
    requires Sane(c.queue) && (c.closed <==> c.pcb == NULL)
    ensures Writes(Poll(c, idle, write, send, close).calls) ==
              if IdleSocket(c, idle) then PieceOf(Longer([], [0x88, 0]), send)
              else if c.closed || c.queue == [] then []
              else PieceOf(c.queue, write)
  {
    hide SendClose, WriteNext, WritePiece, CloseClient, Writes, SendQueue.Sane, Answer, PieceOf, Longer;
    PollIs(c, idle, write, send, close);
    hide Poll;
    WritesNone();
    PieceWrites(c, close);
    if c.pcb != NULL {
      var a := if c.queue != [] then WriteNext(c, write) else Out(c, true, []);
      var i := IdleCheck(a.client, StillIdle(c, idle), send);
      NextWrites(c, write);
      PieceOfIs(c, write);
      WriteKeepsFlags(c, write);
      CloseFrameWrites(a.client, [], send);
      EmptyClose();
      WritesConcat(a.calls, i.calls);
      PieceWrites(i.client, close);
      WritesConcat(a.calls + i.calls, CloseClient(i.client, close).calls);
      assert forall x: seq<Call> :: x + [] == x && [] + x == x;
    }
  }

  // ----- when a client is removed

  /** What a queue still has to be acknowledged. */
  lemma Outstanding(k: Conn)
    requires Inv(k)
    ensures var q := k.client.queue;
            && |k.queued| - k.acked == |Unsent(q)| + InFlight(q)
            && (|q| == 1 ==> (k.acked == |k.queued| <==> q[0].ack == |q[0].data|))
            && (|q| == 2 ==> (k.acked == |k.queued| <==> q[0].ack == |q[0].data| && q[1].data == []))
            && (q == [] ==> k.acked == |k.queued|)
  {
    var q := k.client.queue;
    if |q| == 1 { assert q[1..] == []; }
    if |q| == 2 {
      assert q[1..][1..] == [] && q[1..][0] == q[1];
      assert Unsent(q[1..]) == q[1].data;
    }
  }

  /** A queue that one removal empties, and one that a write and a removal do. */
  lemma EmptiedBy(q: Queue, n: nat, accepts: bool)
    requires Wf(q) && Sane(q)
    ensures Acknowledge(q, 0) == [] <==> q == [] || (|q| == 1 && q[0].ack == |q[0].data|)
    ensures Written(q, n, accepts) == [] <==> q == [] || (n > 0 && |q| == 1 && q[0].ack == |q[0].data|)
    ensures Sane(Written(q, n, accepts))
    ensures Acknowledge(Written(q, n, accepts), 0) == [] <==>
              || q == [] || (|q| == 1 && q[0].ack == |q[0].data|)
              || (n > 0 && |q| == 2 && q[0].ack == |q[0].data| && q[1].data == [])
  {
    WrittenFlight(q, n, accepts);
    RemoveFront(q);
    var r := Acknowledge(q, 0);
    RemoveFront(r);
    RemoveFront(Written(q, n, accepts));
    if r != [] { assert BufNext(r[0], n).buf.ack == r[0].ack; }
    hide Acknowledge;
  }

  /** TCP is asked to close, so that the client leaves if it agrees: everything is acknowledged, at
      most one finished buffer is left, or two if this step also writes, and the step is one that
      closes.
   */
  predicate AsksToClose(k: Conn, e: Event) {
    var c, n := k.client, |k.client.queue|;
    match e
    case RequestServed(_) => !c.closed && k.acked == |k.queued| && n <= 1
    case SentByTcp(count, t) =>
      && c.closed && k.acked + count == |k.queued|
      && (n == 1 || (n == 2 && t.room % 0x1_0000 > 0))
    case PollTimer(idle, write, _, _) =>
      && (c.closed || IdleDone(c, idle)) && k.acked == |k.queued|
      && (n <= 1 || (n == 2 && !c.closed && write.room % 0x1_0000 > 0))
    case _ => false
  }

  /** TCP's answer to that. */
  predicate Agrees(e: Event) {
    match e
    case RequestServed(t) => t.closes
    case SentByTcp(_, t) => t.closes
    case PollTimer(_, _, _, close) => close.closes
    case _ => false
  }

  /** The calls of `altcp_close` on the server's own account. */
  predicate Asked(calls: seq<Call>, asks: bool, agrees: bool) {
    CloseBack !in calls && forall ok :: CloseCall(ok) in calls <==> asks && ok == agrees
  }

  lemma AskedThen(a: seq<Call>, b: seq<Call>, asks: bool, agrees: bool)
    requires Asked(a, false, false) && Asked(b, asks, agrees)
    ensures Asked(a + b, asks, agrees)
  {
  }

  lemma NothingAsked(agrees: bool)
    ensures Asked([], false, agrees)
  {
  }

  lemma CloseAsks(c: Client, t: Tcp)
    requires Sane(c.queue)
    ensures Asked(CloseClient(c, t).calls, Acknowledge(c.queue, 0) == [], t.closes)
    ensures CloseClient(c, t).alive <==> !(Acknowledge(c.queue, 0) == [] && t.closes)
  {
    hide Acknowledge;
  }

  lemma PieceAsks(c: Client, t: Tcp)
    requires Sane(c.queue)
    ensures Asked(WritePiece(c, t).calls, false, false)
    ensures !c.closed ==> Asked(WriteNext(c, t).calls, false, false)
  {
    hide GetNext, Requeue, Portion;
  }

  lemma WriteAsks(c: Client, t: Tcp)
    requires Sane(c.queue) && c.closed
    ensures var empty := Written(c.queue, Portion(t), t.accepts) == [];
            && Asked(WriteNext(c, t).calls, empty, t.closes)
            && (WriteNext(c, t).alive <==> !(empty && t.closes))
  {
    WriteIs(c, t);
    PieceAsks(c, t);
    assert Acknowledge([], 0) == [];
    hide WritePiece, Acknowledge, Written, CloseClient, Asked, SendQueue.Sane;
    var w := WritePiece(c, t);
    if w.client.queue == [] {
      CloseAsks(w.client, t);
      AskedThen(w.calls, CloseClient(w.client, t).calls, true, t.closes);
    } else {
      NotAsked(w.calls, t.closes);
    }
  }

  lemma NotAsked(calls: seq<Call>, agrees: bool)
    requires Asked(calls, false, false)
    ensures Asked(calls, false, agrees)
  {
  }

  lemma SendAsks(c: Client, bytes: seq<byte>, close: bool, t: Tcp)
    requires Sane(c.queue) && (c.closed ==> c.pcb == NULL)
    ensures Asked(Send(c, bytes, close, t).calls, false, false)
  {
    var data := bytes[..|bytes| % 0x1_0000];
    var d := c.(queue := c.queue + [Buf(data, 0, 0)]);
    if c.pcb != NULL {
      assert Sane(d.queue);
      PieceAsks(d, t);
      hide WriteNext;
    }
  }

  lemma CloseFrameAsks(c: Client, payload: Payload, t: Tcp)
    requires Sane(c.queue) && (c.closed ==> c.pcb == NULL)
    ensures Asked(SendClose(c, payload, t).calls, false, false)
  {
    hide Send, WebSocketPacket, Asked;
    SendAsks(c.(wsCloseSent := true), WebSocketPacket(OPCODE_CLOSE, payload), true, t);
  }

  lemma ServedRemoves(k: Conn, t: Tcp)
    requires Inv(k) && k.alive
    ensures !Step(k, RequestServed(t)).alive <==> AsksToClose(k, RequestServed(t)) && t.closes
    ensures Asked(React(k.client, RequestServed(t)).calls, AsksToClose(k, RequestServed(t)), t.closes)
  {
    Outstanding(k);
    EmptiedBy(k.client.queue, 0, true);
    StepIs(k, RequestServed(t));
    CloseAsks(k.client, t);
    NothingAsked(t.closes);
    hide Acknowledge, Step, Unsent, InFlight, CloseClient, Asked;
  }

  lemma SentRemoves(k: Conn, count: nat, t: Tcp)
    requires Inv(k) && k.alive && Possible(k, SentByTcp(count, t))
    ensures !Step(k, SentByTcp(count, t)).alive <==> AsksToClose(k, SentByTcp(count, t)) && t.closes
    ensures Asked(React(k.client, SentByTcp(count, t)).calls, AsksToClose(k, SentByTcp(count, t)), t.closes)
  {
    var q := k.client.queue;
    var r := Acknowledge(q, count);
    StepIs(k, SentByTcp(count, t));
    if k.client.closed {
      WriteAsks(k.client.(queue := r), t);
      SentAsks(k, count, t);
      hide Acknowledge, Written, Step, Unsent, InFlight, WriteNext, Asked, AsksToClose, Inv, Portion;
    } else {
      WriteKeepsFlags(k.client.(queue := r), t);
      PieceAsks(k.client.(queue := r), t);
      NotAsked(WriteNext(k.client.(queue := r), t).calls, t.closes);
      hide WriteNext, Acknowledge, Step, Asked;
    }
  }

  lemma SentAsks(k: Conn, count: nat, t: Tcp)
    requires Inv(k) && k.client.closed && Possible(k, SentByTcp(count, t))
    ensures AsksToClose(k, SentByTcp(count, t))
            <==> Written(Acknowledge(k.client.queue, count), Portion(t), t.accepts) == []
  {
    var q := k.client.queue;
    AckFront(q, count);
    AcknowledgeFlight(q, count);
    var r := Acknowledge(q, count);
    Outstanding(k.(acked := k.acked + count, client := k.client.(queue := r)));
    EmptiedBy(r, Portion(t), t.accepts);
    hide Acknowledge, Written, Unsent, InFlight;
  }

  lemma PollRemoves(k: Conn, idle: bool, write: Tcp, send: Tcp, close: Tcp)
    requires Inv(k) && k.alive
    ensures var e := PollTimer(idle, write, send, close);
            && (!Step(k, e).alive <==> AsksToClose(k, e) && close.closes)
            && Asked(React(k.client, e).calls, AsksToClose(k, e), close.closes)
  {
    var c, e := k.client, PollTimer(idle, write, send, close);
    StepIs(k, e);
    PollIs(c, idle, write, send, close);
    PollAsks(k, idle, write, send, close);
    hide Step, AsksToClose, Inv, Acknowledge, CloseClient, WriteNext, IdleCheck, Poll, Asked;
    CloseAsks(c, close);
    if c.pcb != NULL {
      var a := if c.queue != [] then WriteNext(c, write) else Out(c, true, []);
      var i := IdleCheck(a.client, StillIdle(c, idle), send);
      PieceAsks(c, write);
      NothingAsked(false);
      IdleAsks(a.client, StillIdle(c, idle), send);
      AskedThen(a.calls, i.calls, false, false);
      CloseAsks(i.client, close);
      if i.client.closed {
        AskedThen(a.calls + i.calls, CloseClient(i.client, close).calls, Acknowledge(i.client.queue, 0) == [],
                  close.closes);
      } else {
        NotAsked(a.calls + i.calls, close.closes);
      }
    }
  }

  lemma IdleAsks(c: Client, idle: bool, t: Tcp)
    requires Sane(c.queue) && (c.closed ==> c.pcb == NULL)
    ensures Asked(IdleCheck(c, idle, t).calls, false, false)
  {
    hide SendClose, Asked;
    CloseFrameAsks(c, [], t);
    NothingAsked(false);
  }

  lemma PollAsks(k: Conn, idle: bool, write: Tcp, send: Tcp, close: Tcp)
    requires Inv(k) && k.alive
    ensures var c, e := k.client, PollTimer(idle, write, send, close);
            if c.pcb == NULL then AsksToClose(k, e) <==> Acknowledge(c.queue, 0) == []
            else
              var a := if c.queue != [] then WriteNext(c, write) else Out(c, true, []);
              var i := IdleCheck(a.client, StillIdle(c, idle), send);
              AsksToClose(k, e) <==> i.client.closed && Acknowledge(i.client.queue, 0) == []
  {
    var c := k.client;
    Outstanding(k);
    EmptiedBy(c.queue, Portion(write), write.accepts);
    if !c.closed {
      var a := if c.queue != [] then WriteNext(c, write) else Out(c, true, []);
      WriteKeepsFlags(c, write);
      WriteIs(c, write);
      CloseFrameKeeps(a.client, [], send);
    }
    hide Acknowledge, Written, Unsent, InFlight, WritePiece, WriteNext, SendClose;
  }

  lemma OthersStay(k: Conn, e: Event)
    requires Inv(k) && k.alive && (e.AppSend? || e.Upgrade? || e.FrameReceived?)
    ensures Step(k, e).alive && Asked(React(k.client, e).calls, false, false)
  {
    hide Send, SendClose, Step, SendQueue.Sane, WebSocketPacket, Asked;
    var c := k.client;
    StepIs(k, e);
    NothingAsked(false);
    match e
    case AppSend(bytes, t) =>
      SendKeepsOpen(c, bytes, false, t);
      SendAsks(c, bytes, false, t);
    case Upgrade(response, t) =>
      SendKeepsOpen(c, response, false, t);
      SendAsks(c, response, false, t);
    case FrameReceived(opcode, payload, t) =>
      SendKeepsOpen(c, WebSocketPacket(OPCODE_PONG, payload), false, t);
      SendAsks(c, WebSocketPacket(OPCODE_PONG, payload), false, t);
      SendCloseKeepsOpen(c, payload, t);
      CloseFrameAsks(c, payload, t);
      if opcode == OPCODE_CLOSE {
        var s := if c.wsCloseSent then Out(c, true, []) else SendClose(c, payload, t);
        assert s.calls + [] == s.calls && React(c, e).calls == s.calls;
      }
  }

  /** Exactly when a client is removed: when the peer closes, when the connection fails, and when
      everything ever queued is acknowledged, the step closes, and TCP takes the close.
   */
  lemma RemovedIff(k: Conn, e: Event)
    requires Inv(k) && k.alive && Possible(k, e)
    ensures !Step(k, e).alive <==> e.PeerClosed? || e.Failed? || (AsksToClose(k, e) && Agrees(e))
    ensures if e.PeerClosed? then React(k.client, e).calls == [CloseBack]
            else Asked(React(k.client, e).calls, AsksToClose(k, e), Agrees(e))
  {
    hide Inv, AsksToClose, Step, Asked, React;
    match e
    case RequestServed(t) => ServedRemoves(k, t);
    case SentByTcp(count, t) => SentRemoves(k, count, t);
    case PollTimer(idle, write, send, close) => PollRemoves(k, idle, write, send, close);
    case AppSend(_, _) => OthersStay(k, e); NeverAsks(k, e);
    case Upgrade(_, _) => OthersStay(k, e); NeverAsks(k, e);
    case FrameReceived(_, _, _) => OthersStay(k, e); NeverAsks(k, e);
    case PeerClosed => Ended(k, e);
    case Failed => Ended(k, e);
  }

  lemma NeverAsks(k: Conn, e: Event)
    requires e.AppSend? || e.Upgrade? || e.FrameReceived?
    ensures !AsksToClose(k, e)
    ensures forall calls :: Asked(calls, false, false) ==> Asked(calls, AsksToClose(k, e), Agrees(e))
  {
  }

  lemma Ended(k: Conn, e: Event)
    requires Inv(k) && (e.PeerClosed? || e.Failed?)
    ensures k.alive ==> !Step(k, e).alive
    ensures React(k.client, e).calls == if e.PeerClosed? then [CloseBack] else []
    ensures Asked([], AsksToClose(k, e), Agrees(e))
  {
  }

  /** The same over every run. */
  lemma RunRemovedIff(pcb: nat, handle: nat, events: seq<Event>, e: Event)
    requires pcb != NULL && PossibleRun(NewConn(pcb, handle), events)
    requires var k := Run(NewConn(pcb, handle), events); k.alive && Possible(k, e)
    ensures var k := Run(NewConn(pcb, handle), events);
            !Step(k, e).alive <==> e.PeerClosed? || e.Failed? || (AsksToClose(k, e) && Agrees(e))
  {
    hide Run, PossibleRun, Step, AsksToClose;
    RunInv(pcb, handle, events);
    RemovedIff(Run(NewConn(pcb, handle), events), e);
  }

  // ----- an open connection

  predicate OpenConn(k: Conn) {
    Inv(k) && k.alive && !k.client.closed
  }

  /** Full acknowledgements and polls. */
  predicate Ordinary(events: seq<Event>) {
    forall e :: e in events ==> e.SentByTcp? || (e.PollTimer? && !e.idle)
  }

  /** The next event that gets an open connection on. */
  function Urging(k: Conn): Event
    requires OpenConn(k)
  {
    if InFlight(k.client.queue) > 0 then SentByTcp(InFlight(k.client.queue), READY)
    else PollTimer(false, READY, READY, READY)
  }

  lemma WrittenProgress(q: Queue)
    requires Wf(q) && Sane(q) && q != [] && InFlight(q) == 0
    ensures var w := Written(q, TCP_MSS, true); Sane(w) && Work(w) < Work(q)
  {
    AcknowledgeFlight(q, 0);
    RemoveFront(q);
    var r := Acknowledge(q, 0);
    if q[0].ack == |q[0].data| { AckDecreases(q, 0); }
    if r != [] && r[0].sent < |r[0].data| {
      WriteDecreases(q, TCP_MSS);
    }
    hide Acknowledge, BufNext, Work;
  }

  /** The urging event leaves the connection open, queues nothing, and leaves less to do. */
  lemma UrgingHelps(k: Conn)
    requires OpenConn(k) && k.client.queue != []
    ensures var after := Step(k, Urging(k));
            && Possible(k, Urging(k)) && OpenConn(after) && after.queued == k.queued
            && Work(after.client.queue) < Work(k.client.queue)
  {
    var e := Urging(k);
    assert InFlight(k.client.queue) <= |k.accepted| - k.acked;
    StepInv(k, e);
    StepIs(k, e);
    RemovedIff(k, e);
    ClosedBy(k.client, e);
    QueuedBy(k.client, e);
    UrgingQueue(k);
    assert k.queued + [] == k.queued;
    hide Inv, React, Work, QueuedBytes, WrittenBytes, CloseFrames;
  }

  lemma UrgingQueue(k: Conn)
    requires OpenConn(k) && k.client.queue != []
    ensures Work(React(k.client, Urging(k)).client.queue) < Work(k.client.queue)
  {
    var c, q := k.client, k.client.queue;
    hide Acknowledge, Written, WriteNext, WritePiece, Work, Poll, SendClose, CloseClient, SendQueue.Sane, Unsent;
    if InFlight(q) > 0 {
      var r := Acknowledge(q, InFlight(q));
      AcknowledgeFlight(q, InFlight(q));
      AckDecreases(q, InFlight(q));
      WriteKeepsFlags(c.(queue := r), READY);
      WriteIs(c.(queue := r), READY);
      WrittenFlight(r, TCP_MSS, true);
    } else {
      PollIs(c, false, READY, READY, READY);
      WriteKeepsFlags(c, READY);
      WriteIs(c, READY);
      WrittenProgress(q);
    }
  }

  /** An open connection is never stuck, unlike a closed one: whatever its state, TCP's acknowledgements
      and the polls alone get every byte ever queued written and acknowledged and every buffer removed.
   */
  lemma {:induction false} OpenFinishes(k: Conn) returns (events: seq<Event>)
    requires OpenConn(k)
    ensures Sane(k.client.queue) && PossibleRun(k, events) && Ordinary(events)
    ensures var after := Run(k, events);
            && OpenConn(after) && after.client.queue == [] && after.queued == k.queued == after.accepted
            && after.acked == |k.queued|
    decreases Work(k.client.queue)
  {
    assert Sane(k.client.queue);
    events := [];
    if k.client.queue == [] {
      RunNone(k);
      assert k.accepted + [] == k.accepted;
    } else {
      UrgingHelps(k);
      var e := Urging(k);
      hide OpenConn, Possible, Step, Run, PossibleRun, Work, Unsent, InFlight, Urging;
      StepSane(k, e);
      events := OpenFinishes(Step(k, e));
      RunCons(k, e, events);
      events := [e] + events;
    }
  }

  // ----- answers to frames

  /** A ping, byte for byte: a frame that begins with 0x89 makes the server queue a pong, 0x8A, with the
      ping's payload, whatever mask and length form it came with; and one that begins with 0x88 a
      close frame with its payload, unless one was sent.
   */
  lemma FrameAnswered(f: Frame, c: Client, t: Tcp)
    requires f.Valid() && |f.payload| < 0xffff_fff0
    requires Sane(c.queue) && !c.closed && c.pcb != NULL
    ensures |f.Encode()| >= 2
    ensures Drain(f.Encode()).messages == [Message(f.opcode, f.payload)]
    ensures var answer := QueuedBytes(React(c, FrameReceived(f.opcode, f.payload, t)).calls);
            && (f.Encode()[0] == 0x89 ==> answer == Answer(0x8A, f.payload))
            && (f.Encode()[0] == 0x89 && |f.payload| < 126 ==> answer == [0x8A, |f.payload|] + f.payload)
            && (f.Encode()[0] == 0x88 && !c.wsCloseSent ==> answer == Answer(0x88, f.payload))
  {
    FirstOfFrame(f);
    ShortAnswer(f.payload);
    QueuedBy(c, FrameReceived(f.opcode, f.payload, t));
    hide React, Frame.Encode, Frame.Header, Frame.Valid, Drain, Answer, QueuedBytes;
    assert f.Encode() + [] == f.Encode();
    DrainOne(f, []);
    DrainStops([]);
    NothingParsed();
  }

  lemma FirstOfFrame(f: Frame)
    requires f.Valid()
    ensures |f.Encode()| >= 2
    ensures f.Encode()[0] == 0x89 ==> f.opcode == 9
    ensures f.Encode()[0] == 0x88 ==> f.opcode == 8
  {
    var h := f.Header();
    assert f.Encode()[0] == h[0] == (if f.fin then 128 else 0) + 16 * f.rsv + f.opcode;
  }

  lemma ShortAnswer(payload: Payload)
    ensures |payload| < 126 ==> Answer(0x8A, payload) == [0x8A, |payload|] + payload
  {
    if |payload| < 126 {
      var msg := Wire(0x8A, payload);
      assert msg[..|msg|] == msg;
    }
  }
}
