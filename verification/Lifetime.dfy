/** How long a queued buffer lives. TCP is handed the bytes without a copy, so it points into the
    buffer until they are acknowledged: which buffers are deleted before that?
 */
module Lifetime {
  import opened Bits
  import opened SendQueue
  import opened Connection
  import opened Closing
  import opened WsFrame

  /** The bytes of the queue that are not acknowledged. */
  function Left(q: Queue): seq<byte>
    requires Sane(q)
  {
    if q == [] then [] else q[0].data[q[0].ack..] + Left(q[1..])
  }

  /** The bytes of the front buffer that are in flight. */
  function Flying(q: Queue): seq<byte>
    requires Wf(q)
  {
    if q == [] then [] else q[0].data[q[0].ack..q[0].sent]
  }

  lemma {:induction false} LeftSplit(q: Queue)
    requires Wf(q) && Sane(q)
    ensures Left(q) == Flying(q) + Unsent(q) && |Flying(q)| == InFlight(q)
    decreases |q|
  {
    if q != [] {
      var f := q[0];
      LeftSplit(q[1..]);
      if |q| > 1 {
        assert q[1..][0] == q[1];
        assert Flying(q[1..]) == [];
      }
      assert [] + Unsent(q[1..]) == Unsent(q[1..]);
      assert f.data[f.ack..] == f.data[f.ack..f.sent] + f.data[f.sent..];
      Associate(f.data[f.ack..f.sent], f.data[f.sent..], Unsent(q[1..]));
    }
  }

  /** An acknowledgement in flight takes its bytes off the front; and when it removes a buffer, all
      of that buffer was sent and is acknowledged.
   */
  lemma DroppedIsDone(q: Queue, count: nat)
    requires Wf(q) && Sane(q) && count <= InFlight(q)
    ensures var r := Acknowledge(q, count);
            && count <= |Left(q)| && Left(r) == Left(q)[count..]
            && (|r| < |q| ==> r == q[1..] && q[0].ack + count == q[0].sent == |q[0].data|)
            && |r| <= |q|
  {
    if q != [] {
      AckFront(q, count);
      var f, g := q[0], q[0].(ack := q[0].ack + count);
      assert ([g] + q[1..])[1..] == q[1..];
      assert f.data[f.ack..][count..] == g.data[g.ack..];
      if g.ack == |g.data| { assert g.data[g.ack..] == [] && [] + Left(q[1..]) == Left(q[1..]); }
    }
  }

  lemma LeftSame(q: Queue)
    requires Sane(q)
    ensures Left(Acknowledge(q, 0)) == Left(q)
  {
    if q != [] {
      var g := BufAck(q[0], 0).buf;
      assert g == q[0] && [g] + q[1..] == q;
      if g.ack == |g.data| { assert g.data[g.ack..] == [] && [] + Left(q[1..]) == Left(q[1..]); }
    }
  }

  lemma {:induction false} LeftSnoc(q: Queue, data: seq<byte>)
    requires Sane(q)
    ensures Sane(q + [Buf(data, 0, 0)]) && Left(q + [Buf(data, 0, 0)]) == Left(q) + data
    decreases |q|
  {
    var b := Buf(data, 0, 0);
    if q == [] {
      assert q + [b] == [b] && [b][1..] == [] && data[0..] == data && data + [] == data;
    } else {
      assert (q + [b])[1..] == q[1..] + [b] && (q + [b])[0] == q[0];
      LeftSnoc(q[1..], data);
      Associate(q[0].data[q[0].ack..], Left(q[1..]), data);
    }
  }

  /** A step leaves what is unacknowledged, and adds what it queues. */
  predicate Adds(c: Client, o: Out)
    requires Sane(c.queue)
  {
    Sane(o.client.queue) && Left(o.client.queue) == Left(c.queue) + QueuedBytes(o.calls)
  }

  lemma AddsThen(c: Client, a: Out, b: Out)
    requires Sane(c.queue) && Adds(c, a) && Adds(a.client, b)
    ensures Adds(c, Then(a, b))
  {
    hide Left, QueuedBytes;
    CallsConcat(a.calls, b.calls);
    Associate(Left(c.queue), QueuedBytes(a.calls), QueuedBytes(b.calls));
  }

  lemma AddsNothing(c: Client, o: Out)
    requires Sane(c.queue) && o.client.queue == c.queue && (o.calls == [] || o.calls == [CloseBack])
    ensures Adds(c, o)
  {
    hide Left, SendQueue.Sane;
    OneCall(CloseBack);
    assert QueuedBytes([]) == [] && Left(c.queue) + [] == Left(c.queue);
  }

  /** Writing a piece, or putting it back, acknowledges nothing. */
  lemma PieceAdds(c: Client, t: Tcp)
    requires Sane(c.queue)
    ensures Adds(c, WritePiece(c, t))
  {
    WriteIs(c, t);
    LeftSame(c.queue);
    var r := Acknowledge(c.queue, 0);
    if r != [] && r[0].sent < |r[0].data| {
      var x := BufNext(r[0], Portion(t)).buf;
      assert ([x] + r[1..])[1..] == r[1..] && x.data == r[0].data && x.ack == r[0].ack;
    }
    hide Acknowledge, BufNext, SendQueue.Sane, Left, Portion, GetNext, Requeue;
    OneCall(Wrote(GetNext(c.queue, Portion(t)).bytes));
    OneCall(Refused(GetNext(c.queue, Portion(t)).bytes));
    assert Left(c.queue) + [] == Left(c.queue);
  }

  lemma CloseAdds(c: Client, t: Tcp)
    requires Sane(c.queue)
    ensures Adds(c, CloseClient(c, t))
  {
    LeftSame(c.queue);
    hide Acknowledge, SendQueue.Sane, Left;
    OneCall(CloseCall(t.closes));
    assert Left(c.queue) + [] == Left(c.queue);
  }

  lemma WriteAdds(c: Client, t: Tcp)
    requires Sane(c.queue)
    ensures Adds(c, WriteNext(c, t))
  {
    hide Adds, WritePiece, CloseClient, SendQueue.Sane;
    PieceAdds(c, t);
    var w := WritePiece(c, t);
    if w.client.closed && w.client.queue == [] {
      CloseAdds(w.client, t);
      AddsThen(c, w, CloseClient(w.client, t));
    }
  }

  lemma SendAdds(c: Client, bytes: seq<byte>, close: bool, t: Tcp)
    requires Sane(c.queue)
    ensures Adds(c, Send(c, bytes, close, t))
  {
    if c.pcb == NULL {
      AddsNothing(c, Out(c, true, []));
    } else {
      var data := bytes[..|bytes| % 0x1_0000];
      var q := Out(c.(queue := c.queue + [Buf(data, 0, 0)]), true, [Queued(data, close)]);
      LeftSnoc(c.queue, data);
      OneCall(Queued(data, close));
      assert Adds(c, q);
      hide Adds, WriteNext;
      WriteAdds(q.client, t);
      AddsThen(c, q, WriteNext(q.client, t));
    }
  }

  lemma SendCloseAdds(c: Client, payload: Payload, t: Tcp)
    requires Sane(c.queue)
    ensures Adds(c, SendClose(c, payload, t))
  {
    hide Send, WebSocketPacket, Left, QueuedBytes, SendQueue.Sane;
    SendAdds(c.(wsCloseSent := true), WebSocketPacket(OPCODE_CLOSE, payload), true, t);
  }

  lemma IdleAdds(c: Client, idle: bool, t: Tcp)
    requires Sane(c.queue)
    ensures Adds(c, IdleCheck(c, idle, t))
  {
    hide SendClose, Adds, SendQueue.Sane;
    AddsNothing(c, Out(c, true, []));
    AddsNothing(c, Out(SetClosed(c), true, []));
    SendCloseAdds(c, [], t);
  }

  lemma PollAdds(c: Client, idle: bool, write: Tcp, send: Tcp, close: Tcp)
    requires Sane(c.queue)
    ensures Adds(c, Poll(c, idle, write, send, close))
  {
    hide Adds, SendQueue.Sane, WriteNext, IdleCheck, CloseClient;
    CloseAdds(c, close);
    if c.pcb != NULL {
      WriteAdds(c, write);
      AddsNothing(c, Out(c, true, []));
      var a := if c.queue != [] then WriteNext(c, write) else Out(c, true, []);
      var i := IdleCheck(a.client, StillIdle(c, idle), send);
      IdleAdds(a.client, StillIdle(c, idle), send);
      AddsThen(c, a, i);
      if i.client.closed {
        CloseAdds(i.client, close);
        AddsThen(c, Then(a, i), CloseClient(i.client, close));
      }
    }
  }

  lemma ProcessAdds(c: Client, opcode: nat, payload: Payload, t: Tcp)
    requires Sane(c.queue)
    ensures Adds(c, Process(c, opcode, payload, t))
  {
    hide Adds, SendQueue.Sane, Send, SendClose, WebSocketPacket;
    AddsNothing(c, Out(c, true, []));
    SendAdds(c, WebSocketPacket(OPCODE_PONG, payload), false, t);
    SendCloseAdds(c, payload, t);
    if opcode == OPCODE_CLOSE {
      var s := if c.wsCloseSent then Out(c, true, []) else SendClose(c, payload, t);
      var m := Out(if c.pcb == NULL then s.client else SetClosed(s.client), true, []);
      AddsNothing(s.client, m);
      AddsThen(c, s, m);
    }
  }

  lemma ReactAdds(c: Client, e: Event)
    requires Sane(c.queue) && !e.SentByTcp?
    ensures Adds(c, React(c, e))
  {
    hide SendQueue.Sane, Send, Process, Poll, CloseClient, Left, QueuedBytes;
    match e
    case AppSend(bytes, t) => SendAdds(c, bytes, false, t);
    case Upgrade(response, t) => SendAdds(c, response, false, t);
    case FrameReceived(opcode, payload, t) => ProcessAdds(c, opcode, payload, t);
    case RequestServed(t) =>
      AddsNothing(c, Out(c, true, []));
      CloseAdds(c, t);
    case PollTimer(idle, write, send, close) => PollAdds(c, idle, write, send, close);
    case PeerClosed => AddsNothing(c, Out(SetClosed(c), false, [CloseBack]));
    case Failed => AddsNothing(c, Out(c, false, []));
  }

  /** What TCP has accepted and not acknowledged: the bytes that it may still read, to send them or to
      send them again.
   */
  function Pointed(k: Conn): seq<byte>
    requires k.acked <= |k.accepted|
  {
    k.accepted[k.acked..]
  }

  /** The queue holds everything queued and not acknowledged. */
  predicate HeldInv(k: Conn) {
    Inv(k) && k.acked <= |k.queued| && k.queued[k.acked..] == Left(k.client.queue)
  }

  /** Then what TCP points at are the bytes in flight of the front buffer. */
  lemma PointedIsHeld(k: Conn)
    requires HeldInv(k)
    ensures k.acked <= |k.accepted| && Pointed(k) == Flying(k.client.queue)
  {
    var q := k.client.queue;
    LeftSplit(q);
    assert k.queued[k.acked..] == k.accepted[k.acked..] + Unsent(q);
    hide Flying, Unsent, Left, SendQueue.Sane, Wf;
    SameFront(Pointed(k), Flying(q), Unsent(q));
  }

  lemma SameFront(a: seq<byte>, b: seq<byte>, c: seq<byte>)
    requires a + c == b + c
    ensures a == b
  {
    assert |a| == |b|;
    assert (a + c)[..|a|] == a && (b + c)[..|b|] == b;
  }

  lemma HeldStep(k: Conn, e: Event)
    requires HeldInv(k) && k.alive && Possible(k, e)
    ensures HeldInv(Step(k, e))
  {
    StepInv(k, e);
    if e.SentByTcp? {
      SentHeld(k, e.count, e.t);
    } else {
      ReactAdds(k.client, e);
      AddsHeld(k, React(k.client, e));
    }
  }

  lemma AddsHeld(k: Conn, o: Out)
    requires HeldInv(k) && Adds(k.client, o)
    ensures k.acked <= |Record(k, o).queued|
    ensures Record(k, o).queued[k.acked..] == Left(o.client.queue)
  {
    hide Inv, Left, QueuedBytes, WrittenBytes, CloseFrames;
    var more := QueuedBytes(o.calls);
    assert (k.queued + more)[k.acked..] == k.queued[k.acked..] + more;
  }

  lemma SentHeld(k: Conn, count: nat, t: Tcp)
    requires HeldInv(k) && k.alive && Possible(k, SentByTcp(count, t))
    ensures var after := Step(k, SentByTcp(count, t));
            after.acked <= |after.queued| && after.queued[after.acked..] == Left(after.client.queue)
  {
    hide Left, Unsent, Acknowledge, SendQueue.Sane, WriteNext, WrittenBytes, CloseFrames, QueuedBytes;
    var q := k.client.queue;
    DroppedIsDone(q, count);
    hide Inv, Wf, InFlight;
    var c := k.client.(queue := Acknowledge(q, count));
    var now := k.(acked := k.acked + count, client := c);
    assert k.queued[k.acked..][count..] == k.queued[now.acked..];
    WriteAdds(c, t);
    var more := QueuedBytes(WriteNext(c, t).calls);
    assert (now.queued + more)[now.acked..] == now.queued[now.acked..] + more;
  }

  lemma {:induction false} RunHeld(pcb: nat, handle: nat, events: seq<Event>)
    requires pcb != NULL && PossibleRun(NewConn(pcb, handle), events)
    ensures HeldInv(Run(NewConn(pcb, handle), events))
    decreases |events|
  {
    var k := NewConn(pcb, handle);
    if events == [] {
      assert k.queued[0..] == [];
    } else {
      hide HeldInv, Step, Possible;
      var n := |events| - 1;
      RunHeld(pcb, handle, events[..n]);
      var before := Run(k, events[..n]);
      if before.alive {
        HeldStep(before, events[n]);
      } else {
        DeadStays(before, events[n]);
      }
    }
  }

  lemma DeadStays(k: Conn, e: Event)
    requires !k.alive && Sane(k.client.queue)
    ensures Step(k, e) == k
  {
  }

  lemma DanglingStep(k: Conn, e: Event)
    requires HeldInv(k) && k.alive && Possible(k, e)
    ensures var after := Step(k, e);
            && HeldInv(after) && after.acked <= |after.accepted| && Wf(after.client.queue)
            && Pointed(after) == Flying(after.client.queue)
            && (!after.alive ==>
                  (Pointed(after) != [] <==> (e.PeerClosed? || e.Failed?) && InFlight(k.client.queue) > 0))
  {
    var after := Step(k, e);
    HeldStep(k, e);
    PointedIsHeld(after);
    LeftSplit(after.client.queue);
    hide Step, Flying, Left, Unsent;
    if !after.alive { RemovedEmpty(k, e); }
  }

  /** The lifetime of buffers over every run: while a client is registered, TCP points only into its
      front buffer; and a client is deleted with bytes that TCP still points at if and only if the
      peer closes, or the connection fails, while bytes are in flight.
   */
  lemma DanglingIff(pcb: nat, handle: nat, events: seq<Event>, e: Event)
    requires pcb != NULL && PossibleRun(NewConn(pcb, handle), events)
    requires var k := Run(NewConn(pcb, handle), events); k.alive && Possible(k, e)
    ensures var k := Run(NewConn(pcb, handle), events);
            var after := Step(k, e);
            && Wf(k.client.queue) && Wf(after.client.queue) && after.acked <= |after.accepted|
            && (after.alive ==> Pointed(after) == Flying(after.client.queue))
            && (!after.alive ==>
                  (Pointed(after) != [] <==> (e.PeerClosed? || e.Failed?) && InFlight(k.client.queue) > 0))
  {
    hide Run, PossibleRun, Step, Flying, InFlight, Pointed, Possible;
    RunHeld(pcb, handle, events);
    DanglingStep(Run(NewConn(pcb, handle), events), e);
  }

  lemma RemovedEmpty(k: Conn, e: Event)
    requires Inv(k) && k.alive && Possible(k, e) && !Step(k, e).alive
    ensures Step(k, e).client.queue == if e.PeerClosed? || e.Failed? then k.client.queue else []
  {
    if !e.PeerClosed? && !e.Failed? { ReactGood(k, e); }
  }

  /** It happens: one byte is accepted, and the peer closes before it is acknowledged. */
  lemma DanglingReached() returns (events: seq<Event>)
    ensures PossibleRun(NewConn(1, 1000), events)
    ensures var k := Run(NewConn(1, 1000), events);
            !k.alive && k.acked <= |k.accepted| && Pointed(k) == [7]
  {
    var k, send := NewConn(1, 1000), AppSend([7], READY);
    events := [send, PeerClosed];
    hide Step, Run, PossibleRun;
    TwoEvents(k, send, PeerClosed);
    FirstByteSent(k);
    PeerCloses(Step(k, send));
  }

  lemma PeerCloses(k: Conn)
    requires k.alive && Sane(k.client.queue)
    ensures var after := Step(k, PeerClosed); !after.alive && after.accepted == k.accepted && after.acked == k.acked
  {
    OneCall(CloseBack);
    assert k.accepted + [] == k.accepted;
  }

  lemma FirstByteSent(k: Conn)
    requires k == NewConn(1, 1000)
    ensures var after := Step(k, AppSend([7], READY)); after.alive && after.accepted == [7] && after.acked == 0
  {
    SendOne(k.client, READY);
    OneByte();
    var c := k.client.(queue := [Buf([7], 0, 0)]);
    assert [7][0..1] == [7];
    assert GetNext(c.queue, Portion(READY)).bytes == [7];
    hide Acknowledge, GetNext, SendQueue.Sane, Portion, CloseClient;
    OneCall(Queued([7], false));
    OneCall(Wrote([7]));
    CallsConcat([Queued([7], false)], [Wrote([7])]);
    assert [7][..1] == [7] && [] + [7] == [7];
  }
}
