/** What becomes of a client once it is closed: when the bytes still queued for it can all be sent
    and the client be removed, without the peer closing or an error.
 */
module Closing {
  import opened SendQueue
  import opened Connection

  /** Two empty buffers in a row, and data behind them. */
  ghost predicate Twins(q: Queue) {
    exists i, j :: TwinsAt(q, i, j)
  }

  predicate TwinsAt(q: Queue, i: int, j: int) {
    0 <= i && i + 1 < j < |q| && q[i].data == [] && q[i + 1].data == [] && q[j].data != []
  }

  /** The condition: nothing is left to send, or bytes are in flight and behind the front buffer
      there are no two empty buffers in a row ahead of data.
   */
  ghost predicate CanFinish(q: Queue)
    requires Wf(q) && Sane(q)
  {
    Unsent(q) == [] || (InFlight(q) > 0 && !Twins(q[1..]))
  }

  predicate ByServer(events: seq<Event>) {
    forall e :: e in events ==> !e.PeerClosed? && !e.Failed?
  }

  /** Some run in which neither the peer nor an error ends the connection removes the client. */
  ghost predicate Finishes(k: Conn)
    requires Sane(k.client.queue)
  {
    exists events :: PossibleRun(k, events) && ByServer(events) && !Run(k, events).alive
  }

  predicate Closed(k: Conn) {
    Inv(k) && k.alive && k.client.closed
  }

  // ----- queues

  lemma {:induction false} UnsentNone(q: Queue)
    requires Sane(q)
    ensures Unsent(q) == [] <==> forall i :: 0 <= i < |q| ==> q[i].sent == |q[i].data|
  {
    if q != [] {
      UnsentNone(q[1..]);
      assert forall i :: 0 <= i < |q[1..]| ==> q[1..][i] == q[i + 1];
      if Unsent(q) == [] {
        assert Unsent(q[1..]) == [] && q[0].data[q[0].sent..] == [];
        forall i | 0 <= i < |q|
          ensures q[i].sent == |q[i].data|
        {
          if i > 0 { assert q[1..][i - 1] == q[i]; }
        }
      }
    }
  }

  /** Pairs of empty buffers, with and without the first buffer. */
  lemma TwinsTail(q: Queue)
    requires q != []
    ensures Twins(q[1..]) ==> Twins(q)
    ensures Twins(q) && q[0].data != [] ==> Twins(q[1..])
    ensures Twins(q) && |q| > 1 && q[1].data != [] ==> Twins(q[1..])
  {
    var s := q[1..];
    if Twins(s) {
      var i, j :| TwinsAt(s, i, j);
      assert TwinsAt(q, i + 1, j + 1);
    }
    if Twins(q) && (q[0].data != [] || (|q| > 1 && q[1].data != [])) {
      var i, j :| TwinsAt(q, i, j);
      assert TwinsAt(s, i - 1, j - 1);
    }
  }

  lemma TwinsUnsent(q: Queue)
    requires Wf(q) && Sane(q) && q != [] && Twins(q[1..])
    ensures Unsent(q) != []
  {
    var s := q[1..];
    var i, j :| TwinsAt(s, i, j);
    assert q[j + 1] == s[j] && q[j + 1].sent == 0;
    UnsentNone(q);
  }

  lemma FirstTwins(q: Queue)
    requires Wf(q) && Sane(q) && |q| > 1 && q[0].data == [] && q[1].data == [] && !Twins(q)
    ensures Unsent(q) == []
  {
    UnsentNone(q);
    forall i | 0 <= i < |q|
      ensures q[i].sent == |q[i].data|
    {
      assert q[i].Wf();
      assert !TwinsAt(q, 0, i);
    }
  }

  /** What acknowledging bytes in flight does to the queue. */
  lemma AckFront(q: Queue, count: nat)
    requires Wf(q) && Sane(q) && q != [] && count <= InFlight(q)
    ensures var f := q[0].(ack := q[0].ack + count);
            Acknowledge(q, count) == if f.ack == |f.data| then q[1..] else [f] + q[1..]
  {
  }

  /** The queue after the write of `write_next`. */
  function Written(q: Queue, n: nat, accepts: bool): Queue
    requires Sane(q)
  {
    if n == 0 then q else
      var r := Acknowledge(q, 0);
      if accepts && r != [] && r[0].sent < |r[0].data| then [BufNext(r[0], n).buf] + r[1..] else r
  }

  lemma WriteIs(c: Client, t: Tcp)
    requires Sane(c.queue)
    ensures Sane(Written(c.queue, Portion(t), t.accepts))
    ensures WritePiece(c, t).client == c.(queue := Written(c.queue, Portion(t), t.accepts))
  {
    var q, n := c.queue, Portion(t);
    var r := Acknowledge(q, 0);
    WritePieceKeeps(c, t);
    if n > 0 && r != [] && r[0].sent < |r[0].data| {
      assert |BufNext(r[0], n).bytes| > 0;
      RequeueUndoes(q, n);
    }
    hide Acknowledge, Requeue, BufNext, SendQueue.Sane, Portion;
  }

  /** Written pieces keep the order of the queue. */
  lemma WrittenFlight(q: Queue, n: nat, accepts: bool)
    requires Wf(q) && Sane(q)
    ensures var w := Written(q, n, accepts);
            Sane(w) && Wf(w) && (InFlight(q) > 0 ==> InFlight(w) > 0) && Work(w) <= Work(q)
  {
    AcknowledgeFlight(q, 0);
    AcknowledgeConserves(q, 0);
    AcknowledgeShrinks(q, 0);
    var r := Acknowledge(q, 0);
    if n > 0 && accepts && r != [] && r[0].sent < |r[0].data| {
      TakeFront(r, n);
      var x := BufNext(r[0], n).buf;
      assert ([x] + r[1..])[1..] == r[1..];
    }
  }

  /** Nothing that can be done for a queue beyond help helps it. */
  lemma WrittenDoomed(q: Queue, n: nat, accepts: bool)
    requires Wf(q) && Sane(q) && q != [] && Unsent(q) != []
    requires Twins(q[1..]) || (InFlight(q) == 0 && (Twins(q) || n == 0))
    ensures var w := Written(q, n, accepts);
            Sane(w) && Wf(w) && w != [] && !CanFinish(w)
  {
    hide Twins, Wf, SendQueue.Sane, Unsent, InFlight, BufNext;
    WrittenFlight(q, n, accepts);
    TwinsTail(q);
    AcknowledgeFlight(q, 0);
    AckFront(q, 0);
    FrontIs(q);
    var r := Acknowledge(q, 0);
    hide Acknowledge;
    if n > 0 {
      NotAll(r);
      FrontIs(r);
      if r[0].sent < |r[0].data| {
        TwinsTail(r);
        if accepts { TakenDoomed(r, n); }
      }
    }
  }

  lemma FrontIs(q: Queue)
    requires Wf(q) && Sane(q) && q != []
    ensures InFlight(q) == q[0].sent - q[0].ack && q[0].Wf() && [q[0].(ack := q[0].ack + 0)] + q[1..] == q
    ensures forall i :: 0 < i < |q| ==> q[i].sent == 0
  {
  }

  lemma NotAll(q: Queue)
    requires Sane(q) && Unsent(q) != []
    ensures q != []
  {
  }

  lemma TakenDoomed(r: Queue, n: nat)
    requires Wf(r) && Sane(r) && r != [] && r[0].sent < |r[0].data| && Twins(r[1..])
    ensures var w := [BufNext(r[0], n).buf] + r[1..];
            Sane(w) && Wf(w) && !CanFinish(w)
  {
    TakeFront(r, n);
    hide Twins, Wf, SendQueue.Sane, Unsent, InFlight, BufNext;
    var w := [BufNext(r[0], n).buf] + r[1..];
    assert w[1..] == r[1..];
    TwinsUnsent(w);
  }

  lemma AckDoomed(q: Queue, count: nat)
    requires Wf(q) && Sane(q) && !CanFinish(q) && 0 < count <= InFlight(q)
    ensures var r := Acknowledge(q, count);
            && Wf(r) && Sane(r) && r != [] && Unsent(r) != []
            && (Twins(r[1..]) || (InFlight(r) == 0 && Twins(r)))
  {
    hide Twins;
    AcknowledgeFlight(q, count);
    AckFront(q, count);
  }

  /** What a step does to a closed client. */
  lemma ClosedStep(k: Conn, e: Event)
    requires Closed(k) && Possible(k, e) && !e.PeerClosed? && !e.Failed?
    ensures var after := Step(k, e);
            && Inv(after) && after.client.closed
            && var q := k.client.queue;
               match e
               case SentByTcp(count, t) =>
                 && count <= InFlight(q)
                 && var w := Written(Acknowledge(q, count), Portion(t), t.accepts);
                    after.client.queue == w && after.alive == (w != [] || !t.closes)
               case PollTimer(_, _, _, close) =>
                 var w := Acknowledge(q, 0);
                 after.client.queue == w && after.alive == (w != [] || !close.closes)
               case _ => after.client.queue == q && after.alive
  {
    StepInv(k, e);
    ReactGood(k, e);
    match e
    case SentByTcp(count, t) =>
      WriteIs(k.client.(queue := Acknowledge(k.client.queue, count)), t);
      hide Written, WritePiece, Acknowledge, Wf, SendQueue.Sane, InFlight, Unsent, Portion;
      assert Acknowledge([], 0) == [] by { assert Closed(k); }
    case PollTimer(_, _, _, close) =>
      hide WritePiece, Acknowledge, Wf, SendQueue.Sane, InFlight, Unsent, Portion;
    case _ =>
      hide WriteNext, Acknowledge, Wf, SendQueue.Sane, InFlight, Unsent, WebSocketPacket;
  }

  // ----- beyond help

  lemma DoomedStays(k: Conn, e: Event)
    requires Closed(k) && !CanFinish(k.client.queue) && Possible(k, e) && !e.PeerClosed? && !e.Failed?
    ensures Closed(Step(k, e)) && !CanFinish(Step(k, e).client.queue)
  {
    ClosedStep(k, e);
    var q := k.client.queue;
    assert Wf(q) && Sane(q) && q != [];
    hide Step, Inv, Written, Twins;
    match e
    case SentByTcp(count, t) =>
      AckDoomed(q, count);
      WrittenDoomed(Acknowledge(q, count), Portion(t), t.accepts);
    case PollTimer(_, _, _, close) =>
      AcknowledgeFlight(q, 0);
      AckFront(q, 0);
      FrontIs(q);
    case _ =>
  }

  lemma {:induction false} DoomedForever(k: Conn, events: seq<Event>)
    requires Closed(k) && !CanFinish(k.client.queue) && PossibleRun(k, events) && ByServer(events)
    ensures Closed(Run(k, events)) && !CanFinish(Run(k, events).client.queue)
    decreases |events|
  {
    assert Sane(k.client.queue);
    hide Closed, CanFinish, Step, Possible;
    if events != [] {
      var n := |events| - 1;
      assert events[n] in events;
      DoomedForever(k, events[..n]);
      DoomedStays(Run(k, events[..n]), events[n]);
    }
  }

  // ----- finishing

  const READY: Tcp := Tcp(TCP_MSS, true, true)

  /** The next event on the way to the end: an acknowledgement of all that is in flight, or a poll. */
  function Helping(k: Conn): Event
    requires Closed(k)
  {
    if InFlight(k.client.queue) > 0 then SentByTcp(InFlight(k.client.queue), READY)
    else PollTimer(false, READY, READY, READY)
  }

  /** Writing from a front buffer with unsent bytes. */
  lemma TakenHelps(r: Queue)
    requires Wf(r) && Sane(r) && r != [] && r[0].sent < |r[0].data| && !Twins(r[1..])
    ensures var w := [BufNext(r[0], TCP_MSS).buf] + r[1..];
            Sane(w) && Wf(w) && CanFinish(w)
  {
    TakeFront(r, TCP_MSS);
    assert |BufNext(r[0], TCP_MSS).bytes| > 0;
    hide Twins, Wf, SendQueue.Sane, Unsent, BufNext;
    assert ([BufNext(r[0], TCP_MSS).buf] + r[1..])[1..] == r[1..];
  }

  lemma NothingLeft(q: Queue)
    requires Wf(q) && Sane(q) && Unsent(q) == []
    ensures var w := Written(q, TCP_MSS, true);
            Sane(w) && Wf(w) && CanFinish(w)
  {
    AcknowledgeFlight(q, 0);
    var r := Acknowledge(q, 0);
    UnsentNone(r);
    hide Acknowledge, Twins, Unsent, InFlight, BufNext;
  }

  /** Writing goes on with the next data when at most one empty buffer is ahead of it. */
  lemma WrittenHelps(q: Queue)
    requires Wf(q) && Sane(q) && InFlight(q) == 0 && Unsent(q) != []
    requires !Twins(q[1..]) && (q[0].sent < |q[0].data| || (q[0].data == [] && !Twins(q)))
    ensures var w := Written(q, TCP_MSS, true);
            Sane(w) && Wf(w) && CanFinish(w)
  {
    AcknowledgeFlight(q, 0);
    AckFront(q, 0);
    var r := Acknowledge(q, 0);
    hide Twins, Wf, SendQueue.Sane, Unsent, InFlight, BufNext, Acknowledge;
    FrontIs(q);
    TwinsTail(q);
    NotAll(r);
    FrontIs(r);
    if r[0].sent < |r[0].data| {
      if r == q[1..] { TwinsTail(r); }
      TakenHelps(r);
    } else {
      assert r == q[1..] && q[1].sent == 0;
      FirstTwins(q);
    }
  }

  /** The helping event ends the connection or brings it closer to its end. */
  lemma HelpingHelps(k: Conn)
    requires Closed(k) && CanFinish(k.client.queue)
    ensures Possible(k, Helping(k))
    ensures var after := Step(k, Helping(k));
            after.alive ==>
              && Closed(after) && CanFinish(after.client.queue)
              && Work(after.client.queue) < Work(k.client.queue)
  {
    var q, e := k.client.queue, Helping(k);
    assert Wf(q) && Sane(q);
    ClosedStep(k, e);
    hide Step, Inv, Twins;
    if InFlight(q) > 0 {
      AckedHelps(q);
    } else {
      AcknowledgeFlight(q, 0);
      PolledHelps(q);
    }
  }

  lemma AckedHelps(q: Queue)
    requires Wf(q) && Sane(q) && InFlight(q) > 0 && CanFinish(q)
    ensures var r := Acknowledge(q, InFlight(q));
            var w := Written(r, Portion(READY), READY.accepts);
            Sane(w) && Wf(w) && CanFinish(w) && Work(w) < Work(q)
  {
    hide Twins, Written, Acknowledge, Work, Unsent, InFlight, Wf, SendQueue.Sane;
    var n := InFlight(q);
    AcknowledgeFlight(q, n);
    AckDecreases(q, n);
    var r := Acknowledge(q, n);
    WrittenFlight(r, TCP_MSS, true);
    if Unsent(q) == [] {
      NothingLeft(r);
    } else {
      AckedShape(q);
      WrittenHelps(r);
    }
  }

  lemma AckedShape(q: Queue)
    requires Wf(q) && Sane(q) && InFlight(q) > 0 && !Twins(q[1..]) && Unsent(q) != []
    ensures var r := Acknowledge(q, InFlight(q));
            r != [] && !Twins(r[1..]) && (r[0].sent < |r[0].data| || (r[0].data == [] && !Twins(r)))
  {
    FrontIs(q);
    AckFront(q, InFlight(q));
    AcknowledgeFlight(q, InFlight(q));
    hide Twins, Acknowledge, Wf, SendQueue.Sane, Unsent, InFlight;
    var r := Acknowledge(q, InFlight(q));
    NotAll(r);
    TwinsTail(r);
    assert r == q[1..] || r[1..] == q[1..];
  }

  lemma PolledHelps(q: Queue)
    requires Wf(q) && Sane(q) && Unsent(q) == [] && InFlight(q) == 0
    ensures var r := Acknowledge(q, 0);
            Sane(r) && Wf(r) && CanFinish(r) && (r != [] ==> Work(r) < Work(q))
  {
    AcknowledgeFlight(q, 0);
    UnsentNone(q);
    if q != [] {
      AckFront(q, 0);
      AckDecreases(q, 0);
    }
  }

  lemma StepSane(k: Conn, e: Event)
    requires Sane(k.client.queue)
    ensures Sane(Step(k, e).client.queue)
  {
    hide React, QueuedBytes, WrittenBytes, CloseFrames;
  }

  /** One event before a run. */
  lemma {:induction false} RunCons(k: Conn, e: Event, events: seq<Event>)
    requires Sane(k.client.queue) && Possible(k, e)
    ensures Sane(Step(k, e).client.queue)
    ensures Run(k, [e] + events) == Run(Step(k, e), events)
    ensures PossibleRun(Step(k, e), events) ==> PossibleRun(k, [e] + events)
    decreases |events|
  {
    StepSane(k, e);
    hide Step, Possible, Run, PossibleRun;
    RunNone(k);
    RunNone(Step(k, e));
    RunLast(k, [e] + events);
    if events == [] {
      assert [e] + events == [e] && [e][..0] == [];
    } else {
      var n := |events| - 1;
      assert ([e] + events)[..n + 1] == [e] + events[..n];
      RunCons(k, e, events[..n]);
      RunLast(Step(k, e), events);
    }
  }

  lemma RunNone(k: Conn)
    requires Sane(k.client.queue)
    ensures Run(k, []) == k && PossibleRun(k, [])
  {
  }

  lemma RunLast(k: Conn, events: seq<Event>)
    requires Sane(k.client.queue) && events != []
    ensures var n := |events| - 1;
            && Run(k, events) == Step(Run(k, events[..n]), events[n])
            && (PossibleRun(k, events) <==> PossibleRun(k, events[..n]) && Possible(Run(k, events[..n]), events[n]))
  {
    hide Step, Possible;
  }

  /** Following the helping events to the end. */
  lemma {:induction false} HelpedRun(k: Conn) returns (events: seq<Event>)
    requires Closed(k) && CanFinish(k.client.queue)
    ensures Sane(k.client.queue) && PossibleRun(k, events) && ByServer(events) && !Run(k, events).alive
    decreases Work(k.client.queue)
  {
    HelpingHelps(k);
    var e := Helping(k);
    assert Sane(k.client.queue);
    StepSane(k, e);
    hide Closed, CanFinish, Possible, Step;
    events := [];
    assert PossibleRun(Step(k, e), []) && Run(Step(k, e), []) == Step(k, e);
    if Step(k, e).alive {
      events := HelpedRun(Step(k, e));
    }
    RunCons(k, e, events);
    events := [e] + events;
  }

  /** A closed client can still be finished, all its bytes sent, by TCP and the server's own
      callbacks, if and only if nothing is left to send, or bytes are in flight and no two empty
      buffers in a row are ahead of data behind the front buffer.
   */
  lemma ClosedFinishesIff(k: Conn)
    requires Closed(k)
    ensures Finishes(k) <==> CanFinish(k.client.queue)
  {
    assert Sane(k.client.queue);
    if CanFinish(k.client.queue) {
      var events := HelpedRun(k);
    }
    if Finishes(k) && !CanFinish(k.client.queue) {
      var events :| PossibleRun(k, events) && ByServer(events) && !Run(k, events).alive;
      DoomedForever(k, events);
    }
  }

  /** Otherwise something queued for it is never written, in any run. */
  lemma NeverAllWritten(k: Conn, events: seq<Event>)
    requires Closed(k) && !CanFinish(k.client.queue) && PossibleRun(k, events) && ByServer(events)
    ensures var after := Run(k, events);
            after.alive && after.accepted < after.queued
  {
    DoomedForever(k, events);
    hide Run, PossibleRun;
  }

  // ----- the stall

  /** Nothing in flight, and bytes that were never written. */
  predicate Stalled(k: Conn) {
    Closed(k) && InFlight(k.client.queue) == 0 && Unsent(k.client.queue) != []
  }

  /** The poll of a closed client does not write, and nothing else will. */
  lemma StalledStays(k: Conn, e: Event)
    requires Stalled(k) && Possible(k, e) && !e.PeerClosed? && !e.Failed?
    ensures Stalled(Step(k, e)) && Unsent(Step(k, e).client.queue) == Unsent(k.client.queue)
    ensures Step(k, e).accepted == k.accepted && Step(k, e).queued == k.queued
  {
    ClosedStep(k, e);
    AcknowledgeFlight(k.client.queue, 0);
    StalledCalls(k, e);
    hide Step, React;
  }

  lemma StalledCalls(k: Conn, e: Event)
    requires Stalled(k) && Possible(k, e) && !e.PeerClosed? && !e.Failed?
    ensures Step(k, e).accepted == k.accepted && Step(k, e).queued == k.queued
  {
    NoCalls(k);
    AcknowledgeFlight(k.client.queue, 0);
    hide Wf, SendQueue.Sane, Unsent, InFlight, Acknowledge, QueuedBytes, WrittenBytes, CloseFrames, WriteNext;
    hide WebSocketPacket;
  }

  lemma {:induction false} StalledForever(k: Conn, events: seq<Event>)
    requires Stalled(k) && PossibleRun(k, events) && ByServer(events)
    ensures var after := Run(k, events);
            && Stalled(after) && Unsent(after.client.queue) == Unsent(k.client.queue)
            && after.accepted == k.accepted && after.queued == k.queued
    decreases |events|
  {
    assert Sane(k.client.queue);
    hide Stalled, Step, Possible;
    if events != [] {
      var n := |events| - 1;
      assert events[n] in events;
      StalledForever(k, events[..n]);
      StalledStays(Run(k, events[..n]), events[n]);
    }
  }

  /** A write refused by TCP leaves a single queued byte where it was. */
  lemma WriteRefused(c: Client, t: Tcp)
    requires c.queue == [Buf([7], 0, 0)] && !c.closed && !t.accepts && t.room == TCP_MSS
    ensures WriteNext(c, t).client == c && WriteNext(c, t).alive
  {
    OneByte();
    hide Acknowledge, WritePiece, Portion, CloseClient;
    WriteIs(c, t);
    assert WritePiece(c, t).client == c;
  }

  lemma OneByte()
    ensures Acknowledge([Buf([7], 0, 0)], 0) == [Buf([7], 0, 0)]
  {
    AckFront([Buf([7], 0, 0)], 0);
  }

  lemma FirstSendRefused(k: Conn, t: Tcp)
    requires k.client.queue == [] && k.client.pcb != NULL && !k.client.closed && k.alive
    requires !t.accepts && t.room == TCP_MSS
    ensures Step(k, AppSend([7], t)).client == k.client.(queue := [Buf([7], 0, 0)]) && Step(k, AppSend([7], t)).alive
  {
    hide WriteNext, Step, Buf.Sane;
    StepIs(k, AppSend([7], t));
    SendOne(k.client, t);
    WriteRefused(k.client.(queue := [Buf([7], 0, 0)]), t);
  }

  lemma SendOne(c: Client, t: Tcp)
    requires c.queue == [] && c.pcb != NULL
    ensures var d := c.(queue := [Buf([7], 0, 0)]);
            && Sane(d.queue) && Send(c, [7], false, t).client == WriteNext(d, t).client
            && Send(c, [7], false, t).alive == WriteNext(d, t).alive
  {
    hide WriteNext;
    assert [7][..1] == [7];
    assert [] + [Buf([7], 0, 0)] == [Buf([7], 0, 0)];
  }

  lemma ServedRefused(k: Conn, t: Tcp)
    requires k.client.queue == [Buf([7], 0, 0)] && k.client.pcb != NULL && k.alive
    ensures var after := Step(k, RequestServed(t)); after.client == SetClosed(k.client) && after.alive
  {
    OneByte();
    hide Acknowledge, Step;
    StepIs(k, RequestServed(t));
  }

  /** That state is reached when TCP refuses the response to a request, and the server then closes
      the connection as it does after every request.
   */
  lemma StallReached() returns (events: seq<Event>)
    ensures PossibleRun(NewConn(1, 1000), events) && Stalled(Run(NewConn(1, 1000), events))
  {
    var full := Tcp(TCP_MSS, false, true);
    var k, send, served := NewConn(1, 1000), AppSend([7], full), RequestServed(full);
    events := [send, served];
    hide Step, Run, PossibleRun;
    TwoEvents(k, send, served);
    FirstSendRefused(k, full);
    ServedRefused(Step(k, send), full);
    RunInv(1, 1000, events);
  }

  lemma TwoEvents(k: Conn, a: Event, b: Event)
    requires Sane(k.client.queue) && !a.SentByTcp? && !b.SentByTcp?
    ensures Sane(Step(k, a).client.queue)
    ensures Run(k, [a, b]) == Step(Step(k, a), b) && PossibleRun(k, [a, b])
  {
    hide React, Step, Run, PossibleRun;
    StepSane(k, a);
    assert [a, b][..1] == [a] && [a][..0] == [];
    RunNone(k);
    RunLast(k, [a]);
    RunLast(k, [a, b]);
  }
}
