/** The server with all its connections: every client of any run behaves as one connection that
    sees exactly the events meant for it.
 */
module WebWorld {
  import opened Bits
  import opened SendQueue
  import opened Connection
  import opened Registry
  import opened WsFrame
  import opened WsStream
  import opened Outcomes

  /** The registry and the handle counter; and for each registered client the events it has seen, the
      chunks it has received since it was upgraded, and its request buffer.
   */
  datatype World = World(web: Web, counter: nat, past: map<nat, seq<Event>>,
                         chunks: map<nat, seq<seq<byte>>>, buffers: map<nat, seq<byte>>)

  /** What reaches the server: a new connection, with the handle that `nextHandle` finds after
      `steps` counter steps; a callback for a control block; data from the network for one, with
      TCP's answers; or data from the application for a handle.
   */
  datatype Input =
    | Accept(pcb: nat, ok: bool, handle: nat, steps: nat)
    | On(pcb: nat, event: Event)
    | Data(pcb: nat, chunk: seq<byte>, tcp: nat -> Tcp)
    | SendData(handle: nat, bytes: seq<byte>, t: Tcp)

  /** The event that a callback or a call of the application brings to its client. */
  function EventOf(i: Input): Event
    requires i.On? || i.SendData?
  {
    if i.On? then i.event else AppSend(i.bytes, i.t)
  }

  function Initial(): World { World(Web(map[], map[]), FIRST_HANDLE - 1, map[], map[], map[]) }

  /** `tcp_server_accept`. */
  function Accepted(w: World, pcb: nat, ok: bool, handle: nat): World {
    if !ok || pcb == NULL || pcb in w.web.pcbs then w
    else World(Add(w.web, pcb, handle), handle, w.past[handle := []], w.chunks[handle := []], w.buffers[handle := []])
  }

  /** One event of one client. The upgrade clears the request buffer. */
  function Handled(w: World, pcb: nat, e: Event): (r: World)
    requires Consistent(w.web)
    ensures Consistent(r.web)
  {
    if !Registered(w.web, pcb) then w else
      var h := w.web.pcbs[pcb];
      OnClientConsistent(w.web, pcb, e);
      var v := w.(web := OnClient(w.web, pcb, e));
      if h !in v.web.clients then v.(past := w.past - {h}, chunks := w.chunks - {h}, buffers := w.buffers - {h})
      else if e.Upgrade? then
        v.(past := w.past[h := Past(w, h) + [e]], chunks := w.chunks[h := []], buffers := w.buffers[h := []])
      else v.(past := w.past[h := Past(w, h) + [e]])
  }

  function Past(w: World, h: nat): seq<Event> { if h in w.past then w.past[h] else [] }

  function Chunks(w: World, h: nat): seq<seq<byte>> { if h in w.chunks then w.chunks[h] else [] }

  function Buffer(w: World, h: nat): seq<byte> { if h in w.buffers then w.buffers[h] else [] }

  /** `process_websocket` for one message after another. */
  function Processed(w: World, pcb: nat, messages: seq<Message>, tcp: nat -> Tcp): (r: World)
    requires Consistent(w.web) && Small(messages)
    ensures Consistent(r.web)
    decreases |messages|
  {
    if messages == [] then w else
      var n := |messages| - 1;
      Handled(Processed(w, pcb, messages[..n], tcp), pcb,
              FrameReceived(messages[n].opcode, messages[n].payload, tcp(n)))
  }

  predicate Upgraded(w: World, pcb: nat) {
    Registered(w.web, pcb) && ClientAt(w.web, pcb).websocket
  }

  /** `tcp_server_recv` on an upgraded connection: the messages that the buffer then holds. */
  function Received(w: World, pcb: nat, chunk: seq<byte>, tcp: nat -> Tcp): World
    requires Consistent(w.web) && (Upgraded(w, pcb) ==> Receivable(w, pcb, chunk))
  {
    if !Upgraded(w, pcb) then w else
      var h := w.web.pcbs[pcb];
      var drained := Drain(Buffer(w, h) + chunk);
      var v := Processed(w, pcb, drained.messages, tcp);
      v.(chunks := v.chunks[h := Chunks(w, h) + [chunk]], buffers := v.buffers[h := drained.rest])
  }

  /** The declared lengths fit, and so do the answers. */
  predicate Receivable(w: World, pcb: nat, chunk: seq<byte>)
    requires Upgraded(w, pcb)
  {
    var stream := Buffer(w, w.web.pcbs[pcb]) + chunk;
    LengthsFit(stream) && Small(Drain(stream).messages)
  }

  /** `send_data`: by way of the client's own control block, and only if that leads back to it. */
  function DataSent(w: World, handle: nat, bytes: seq<byte>, t: Tcp): World
    requires Consistent(w.web)
  {
    if handle !in w.web.clients then w else
      var pcb := w.web.clients[handle].pcb;
      if pcb in w.web.pcbs && w.web.pcbs[pcb] == handle then Handled(w, pcb, AppSend(bytes, t)) else w
  }

  function Next(w: World, i: Input): World
    requires Consistent(w.web) && PossibleInput(w, i)
  {
    match i
    case Accept(pcb, ok, handle, steps) => Accepted(w, pcb, ok, handle)
    case On(pcb, event) => Handled(w, pcb, event)
    case Data(pcb, chunk, tcp) => Received(w, pcb, chunk, tcp)
    case SendData(handle, bytes, t) => DataSent(w, handle, bytes, t)
  }

  /** The connection of a registered client as its own events alone make it. */
  function Alone(w: World, pcb: nat): Conn
    requires pcb in w.web.pcbs
  {
    Run(NewConn(pcb, w.web.pcbs[pcb]), Past(w, w.web.pcbs[pcb]))
  }

  /** Handles come from `nextHandle`, TCP acknowledges only what it has accepted, frames arrive as
      data, and only HTTP clients are upgraded.
   */
  predicate PossibleInput(w: World, i: Input)
    requires Consistent(w.web)
  {
    match i
    case Accept(pcb, ok, handle, steps) => NextFree(w.web.clients.Keys, w.counter, handle, steps)
    case On(pcb, event) =>
      && !event.FrameReceived? && (event.Upgrade? ==> !Upgraded(w, pcb))
      && (pcb in w.web.pcbs ==> Possible(Alone(w, pcb), event))
    case Data(pcb, chunk, tcp) => Upgraded(w, pcb) ==> Receivable(w, pcb, chunk)
    case SendData(handle, bytes, t) => true
  }

  /** The messages among the events of a client. */
  function MessagesOf(events: seq<Event>): seq<Message> {
    if events == [] then [] else
      var e := events[|events| - 1];
      MessagesOf(events[..|events| - 1]) + (if e.FrameReceived? then [Message(e.opcode, e.payload)] else [])
  }

  predicate Faithful(w: World, pcb: nat)
    requires pcb in w.web.pcbs
  {
    var h := w.web.pcbs[pcb];
    && h in w.web.clients
    && PossibleRun(NewConn(pcb, h), Past(w, h))
    && Alone(w, pcb).alive && Alone(w, pcb).client == w.web.clients[h]
  }

  /** A client has received the messages of its chunks; before the upgrade there are none. */
  predicate Reassembled(w: World, pcb: nat)
    requires pcb in w.web.pcbs
  {
    var h := w.web.pcbs[pcb];
    && h in w.web.clients
    && if w.web.clients[h].websocket then
         Feed([], Chunks(w, h)) == Drained(MessagesOf(Past(w, h)), Buffer(w, h), false)
       else MessagesOf(Past(w, h)) == []
  }

  /** The maps are consistent, and every client is where its own events would have brought it. */
  predicate Core(w: World) {
    && Consistent(w.web) && FIRST_HANDLE - 1 <= w.counter < U32
    && (forall p :: p in w.web.pcbs ==> Faithful(w, p))
  }

  /** And every client has received what its chunks hold. */
  predicate WorldInv(w: World) {
    Core(w) && forall p :: p in w.web.pcbs ==> Reassembled(w, p)
  }

  /** One more event of a connection. */
  lemma RunOneMore(k: Conn, past: seq<Event>, e: Event)
    requires Sane(k.client.queue) && PossibleRun(k, past) && Possible(Run(k, past), e)
    ensures PossibleRun(k, past + [e]) && Run(k, past + [e]) == Step(Run(k, past), e)
  {
    hide Step, Possible;
    assert (past + [e])[..|past|] == past;
  }

  /** A step for one control block leaves the clients of all the others alone. */
  lemma OthersUntouched(w: Web, pcb: nat, e: Event, p: nat)
    requires Consistent(w) && p in w.pcbs && p != pcb
    ensures var a := OnClient(w, pcb, e);
            p in a.pcbs && a.pcbs[p] == w.pcbs[p] && Registered(a, p) && ClientAt(a, p) == ClientAt(w, p)
  {
    hide React, Sane;
  }

  lemma OwnClient(w: Web, pcb: nat, e: Event)
    requires Consistent(w) && pcb in w.pcbs
    ensures var a, o, h := OnClient(w, pcb, e), React(ClientAt(w, pcb), e), w.pcbs[pcb];
            && a.pcbs.Keys <= w.pcbs.Keys
            && (o.alive ==> pcb in a.pcbs && a.pcbs[pcb] == h && h in a.clients && a.clients[h] == o.client)
            && (!o.alive ==> pcb !in a.pcbs && h !in a.clients)
  {
    hide React, Sane;
  }

  /** What an event leaves to the clients of other control blocks. */
  predicate SameClient(w: World, v: World, p: nat)
    requires p in w.web.pcbs
  {
    var h := w.web.pcbs[p];
    && p in v.web.pcbs && v.web.pcbs[p] == h && h in w.web.clients && h in v.web.clients
    && v.web.clients[h] == w.web.clients[h]
    && Past(v, h) == Past(w, h) && Chunks(v, h) == Chunks(w, h) && Buffer(v, h) == Buffer(w, h)
  }

  lemma HandledOther(w: World, pcb: nat, e: Event, p: nat)
    requires Consistent(w.web) && p in w.web.pcbs && p != pcb
    ensures SameClient(w, Handled(w, pcb, e), p)
  {
    hide OnClient, Consistent, Registered;
    RegisteredHere(w.web, p);
    RegisteredIs(w.web, p);
    RegisteredIs(w.web, pcb);
    if Registered(w.web, pcb) {
      OthersUntouched(w.web, pcb, e, p);
      RegisteredIs(OnClient(w.web, pcb, e), p);
      DistinctHandles(w.web, p, pcb);
    }
  }

  lemma RegisteredIs(w: Web, pcb: nat)
    ensures Registered(w, pcb) <==> pcb in w.pcbs && w.pcbs[pcb] in w.clients
  {
  }

  /** What an event does to its own client. */
  lemma HandledOwn(w: World, pcb: nat, e: Event)
    requires Consistent(w.web) && pcb in w.web.pcbs
    ensures var v, h, o := Handled(w, pcb, e), w.web.pcbs[pcb], React(ClientAt(w.web, pcb), e);
            && v.counter == w.counter && v.web.pcbs.Keys <= w.web.pcbs.Keys
            && (pcb in v.web.pcbs <==> o.alive)
            && (o.alive ==>
                  && v.web.pcbs[pcb] == h && h in v.web.clients && v.web.clients[h] == o.client
                  && Past(v, h) == Past(w, h) + [e]
                  && o.client.websocket == (ClientAt(w.web, pcb).websocket || e.Upgrade?)
                  && Chunks(v, h) == (if e.Upgrade? then [] else Chunks(w, h))
                  && Buffer(v, h) == (if e.Upgrade? then [] else Buffer(w, h)))
  {
    hide OnClient, React, Sane, Consistent;
    RegisteredHere(w.web, pcb);
    OwnClient(w.web, pcb, e);
    OnClientConsistent(w.web, pcb, e);
    OwnPcb(w.web, pcb);
    ReactKeepsIdentity(ClientAt(w.web, pcb), e);
  }

  lemma RegisteredHere(w: Web, pcb: nat)
    requires Consistent(w) && pcb in w.pcbs
    ensures Registered(w, pcb)
  {
    hide Sane;
  }

  lemma NoClient(w: World, pcb: nat, e: Event)
    requires Consistent(w.web) && pcb !in w.web.pcbs
    ensures Handled(w, pcb, e) == w
  {
  }

  lemma HandledCore(w: World, pcb: nat, e: Event)
    requires Core(w) && (pcb in w.web.pcbs ==> Possible(Alone(w, pcb), e))
    ensures Core(Handled(w, pcb, e))
  {
    if pcb in w.web.pcbs {
      var after := Handled(w, pcb, e);
      HandledOwn(w, pcb, e);
      hide Handled, React, Run, PossibleRun, Possible, Consistent;
      forall p | p in after.web.pcbs
        ensures Faithful(after, p)
      {
        assert Faithful(w, p);
        if p == pcb {
          HandledFaithful(w, pcb, e);
        } else {
          HandledOther(w, pcb, e, p);
        }
      }
    } else {
      NoClient(w, pcb, e);
    }
  }

  lemma HandledFaithful(w: World, pcb: nat, e: Event)
    requires Core(w) && pcb in w.web.pcbs && Possible(Alone(w, pcb), e)
    requires pcb in Handled(w, pcb, e).web.pcbs
    ensures Faithful(Handled(w, pcb, e), pcb)
  {
    assert Faithful(w, pcb);
    HandledOwn(w, pcb, e);
    hide Handled, React, Run, PossibleRun, Possible, Step, Consistent;
    var h := w.web.pcbs[pcb];
    RunOneMore(NewConn(pcb, h), Past(w, h), e);
    StepIs(Alone(w, pcb), e);
  }

  lemma MessagesSnoc(events: seq<Event>, e: Event)
    ensures MessagesOf(events + [e])
            == MessagesOf(events) + (if e.FrameReceived? then [Message(e.opcode, e.payload)] else [])
  {
    assert (events + [e])[..|events|] == events;
  }

  /** Events other than frames leave every client with what it has received. */
  lemma HandledInv(w: World, pcb: nat, e: Event)
    requires WorldInv(w) && (pcb in w.web.pcbs ==> Possible(Alone(w, pcb), e))
    requires !e.FrameReceived? && (e.Upgrade? ==> !Upgraded(w, pcb))
    ensures WorldInv(Handled(w, pcb, e))
  {
    hide Handled, React, Consistent, Faithful, Reassembled;
    HandledCore(w, pcb, e);
    if pcb in w.web.pcbs {
      var after := Handled(w, pcb, e);
      HandledOwn(w, pcb, e);
      forall p | p in after.web.pcbs
        ensures Reassembled(after, p)
      {
        assert Reassembled(w, p);
        if p == pcb {
          HandledReassembled(w, pcb, e);
        } else {
          HandledOther(w, pcb, e, p);
          SameClientKeeps(w, after, p);
        }
      }
    } else {
      NoClient(w, pcb, e);
    }
  }

  lemma HandledReassembled(w: World, pcb: nat, e: Event)
    requires Consistent(w.web) && pcb in w.web.pcbs && pcb in Handled(w, pcb, e).web.pcbs
    requires Reassembled(w, pcb)
    requires !e.FrameReceived? && (e.Upgrade? ==> !Upgraded(w, pcb))
    ensures Reassembled(Handled(w, pcb, e), pcb)
  {
    HandledOwn(w, pcb, e);
    hide Handled, React, Consistent, Drain, MessagesOf;
    MessagesSnoc(Past(w, w.web.pcbs[pcb]), e);
  }

  /** Frame by frame: the client of the frames stays, and so do all the others. */
  lemma {:induction false} ProcessedCore(w: World, pcb: nat, messages: seq<Message>, tcp: nat -> Tcp)
    requires Core(w) && Upgraded(w, pcb) && Small(messages)
    ensures var v, h := Processed(w, pcb, messages, tcp), w.web.pcbs[pcb];
            && Core(v) && Upgraded(v, pcb) && v.web.pcbs[pcb] == h && v.web.pcbs.Keys <= w.web.pcbs.Keys
            && MessagesOf(Past(v, h)) == MessagesOf(Past(w, h)) + messages
            && (forall p :: p in w.web.pcbs && p != pcb ==> SameClient(w, v, p))
    decreases |messages|
  {
    hide Handled, Consistent, Core, SameClient, MessagesOf;
    CoreIs(w);
    if messages != [] {
      var n := |messages| - 1;
      ProcessedCore(w, pcb, messages[..n], tcp);
      var u := Processed(w, pcb, messages[..n], tcp);
      var v := Processed(w, pcb, messages, tcp);
      OneProcessed(u, pcb, messages[n], tcp(n));
      assert messages == messages[..n] + [messages[n]];
      forall p | p in w.web.pcbs && p != pcb
        ensures SameClient(w, v, p)
      {
        SameClientIs(w, u, p);
        SameClientThen(w, u, v, p);
      }
    } else {
      SameAll(w);
    }
  }

  lemma OneProcessed(u: World, pcb: nat, m: Message, t: Tcp)
    requires Core(u) && Upgraded(u, pcb) && |m.payload| < 0xffff_fff0
    ensures var v, h := Handled(u, pcb, FrameReceived(m.opcode, m.payload, t)), u.web.pcbs[pcb];
            && Core(v) && Upgraded(v, pcb) && v.web.pcbs[pcb] == h && v.web.pcbs.Keys <= u.web.pcbs.Keys
            && MessagesOf(Past(v, h)) == MessagesOf(Past(u, h)) + [m]
            && (forall p :: p in u.web.pcbs && p != pcb ==> SameClient(u, v, p))
  {
    hide Handled, Consistent, Process, Run, PossibleRun, Faithful, Sane, MessagesOf, SameClient;
    var e := FrameReceived(m.opcode, m.payload, t);
    var v := Handled(u, pcb, e);
    HandledCore(u, pcb, e);
    HandledOwn(u, pcb, e);
    OwnPcb(u.web, pcb);
    FrameKeepsClient(u.web, pcb, m.opcode, m.payload, t);
    MessagesSnoc(Past(u, u.web.pcbs[pcb]), e);
    forall p | p in u.web.pcbs && p != pcb
      ensures SameClient(u, v, p)
    {
      HandledOther(u, pcb, e, p);
    }
  }

  lemma CoreIs(w: World)
    requires Core(w)
    ensures Consistent(w.web)
  {
  }

  lemma SameClientThen(w: World, u: World, v: World, p: nat)
    requires p in w.web.pcbs && SameClient(w, u, p)
    requires p in u.web.pcbs ==> SameClient(u, v, p)
    ensures SameClient(w, v, p)
  {
  }

  lemma SameClientIs(w: World, u: World, p: nat)
    requires p in w.web.pcbs && SameClient(w, u, p)
    ensures p in u.web.pcbs
  {
  }

  lemma SameAll(w: World)
    requires Core(w)
    ensures forall p :: p in w.web.pcbs ==> SameClient(w, w, p)
  {
    hide Consistent, Run, PossibleRun;
  }

  /** A received chunk: the client's messages are those of all its chunks. */
  lemma ReceivedInv(w: World, pcb: nat, chunk: seq<byte>, tcp: nat -> Tcp)
    requires WorldInv(w) && (Upgraded(w, pcb) ==> Receivable(w, pcb, chunk))
    ensures WorldInv(Received(w, pcb, chunk, tcp))
  {
    hide Processed, Drain, Consistent, Faithful, Reassembled, LengthsFit;
    if Upgraded(w, pcb) {
      var drained := Drain(Buffer(w, w.web.pcbs[pcb]) + chunk);
      ProcessedCore(w, pcb, drained.messages, tcp);
      var v := Received(w, pcb, chunk, tcp);
      forall p | p in v.web.pcbs
        ensures Faithful(v, p) && Reassembled(v, p)
      {
        ReceivedAt(w, pcb, chunk, tcp, p);
      }
    }
  }

  lemma ReceivedAt(w: World, pcb: nat, chunk: seq<byte>, tcp: nat -> Tcp, p: nat)
    requires WorldInv(w) && Upgraded(w, pcb) && Receivable(w, pcb, chunk)
    requires p in Received(w, pcb, chunk, tcp).web.pcbs
    ensures Faithful(Received(w, pcb, chunk, tcp), p) && Reassembled(Received(w, pcb, chunk, tcp), p)
  {
    hide Processed, Drain, Feed, LengthsFit, Faithful, Reassembled, Consistent, SameClient;
    var messages := Drain(Buffer(w, w.web.pcbs[pcb]) + chunk).messages;
    ProcessedCore(w, pcb, messages, tcp);
    if p == pcb {
      ReceivedOwn(w, pcb, chunk, tcp);
      SameWeb(Processed(w, pcb, messages, tcp), Received(w, pcb, chunk, tcp), p);
    } else {
      assert p in w.web.pcbs.Keys;
      DistinctHandles(w.web, p, pcb);
      ReceivedOther(w, pcb, chunk, tcp, p);
      SameClientKeeps(w, Received(w, pcb, chunk, tcp), p);
    }
  }

  lemma SameWeb(u: World, v: World, p: nat)
    requires v.web == u.web && v.past == u.past && p in u.web.pcbs && Faithful(u, p)
    ensures Faithful(v, p)
  {
    hide Run, PossibleRun;
  }

  lemma ReceivedOther(w: World, pcb: nat, chunk: seq<byte>, tcp: nat -> Tcp, p: nat)
    requires Consistent(w.web) && Upgraded(w, pcb) && Receivable(w, pcb, chunk) && p in w.web.pcbs
    requires w.web.pcbs[p] != w.web.pcbs[pcb]
    requires SameClient(w, Processed(w, pcb, Drain(Buffer(w, w.web.pcbs[pcb]) + chunk).messages, tcp), p)
    ensures SameClient(w, Received(w, pcb, chunk, tcp), p)
  {
    hide Processed, Drain, Feed, LengthsFit, Consistent;
  }

  lemma SameClientKeeps(w: World, v: World, p: nat)
    requires p in w.web.pcbs && SameClient(w, v, p) && Faithful(w, p) && Reassembled(w, p)
    ensures Faithful(v, p) && Reassembled(v, p)
  {
    hide Run, PossibleRun, Feed, MessagesOf;
  }

  lemma ReceivedOwn(w: World, pcb: nat, chunk: seq<byte>, tcp: nat -> Tcp)
    requires WorldInv(w) && Upgraded(w, pcb) && Receivable(w, pcb, chunk)
    ensures var v := Received(w, pcb, chunk, tcp);
            Upgraded(v, pcb) && Reassembled(v, pcb)
  {
    var h := w.web.pcbs[pcb];
    var stream := Buffer(w, h) + chunk;
    assert Reassembled(w, pcb);
    hide Drain, LengthsFit;
    assert stream + [] == stream;
    PrefixFits(stream, []);
    ProcessedCore(w, pcb, Drain(stream).messages, tcp);
    FeedSnoc([], Chunks(w, h), chunk);
    hide Processed, Core, Feed;
  }

  lemma DistinctHandles(w: Web, p: nat, q: nat)
    requires Consistent(w) && p in w.pcbs && q in w.pcbs && p != q
    ensures w.pcbs[p] != w.pcbs[q]
  {
    hide Sane;
  }

  lemma AcceptedInv(w: World, pcb: nat, ok: bool, handle: nat)
    requires WorldInv(w) && handle !in w.web.clients && FIRST_HANDLE <= handle < U32
    ensures WorldInv(Accepted(w, pcb, ok, handle))
  {
    hide Drain, Feed, Consistent;
    if ok && pcb != NULL && pcb !in w.web.pcbs {
      AddConsistent(w.web, pcb, handle);
      var after := Accepted(w, pcb, ok, handle);
      forall p | p in after.web.pcbs
        ensures Faithful(after, p) && Reassembled(after, p)
      {
        if p == pcb {
          assert Past(after, handle) == [];
          hide WorldInv;
        } else {
          AcceptedOther(w, pcb, ok, handle, p);
        }
      }
    }
  }

  lemma AcceptedOther(w: World, pcb: nat, ok: bool, handle: nat, p: nat)
    requires WorldInv(w) && handle !in w.web.clients && pcb !in w.web.pcbs && p in w.web.pcbs
    ensures var after := Accepted(w, pcb, ok, handle);
            p in after.web.pcbs && Faithful(after, p) && Reassembled(after, p)
  {
    hide Drain, Feed, Run, PossibleRun, Consistent, MessagesOf;
    assert Faithful(w, p) && Reassembled(w, p);
  }

  lemma NextInv(w: World, i: Input)
    requires WorldInv(w) && PossibleInput(w, i)
    ensures WorldInv(Next(w, i))
  {
    hide WorldInv, Consistent, Handled, Accepted, Received, Possible, Alone, Upgraded, Receivable;
    match i
    case Accept(pcb, ok, handle, steps) => AcceptedInv(w, pcb, ok, handle);
    case On(pcb, event) => HandledInv(w, pcb, event);
    case Data(pcb, chunk, tcp) => ReceivedInv(w, pcb, chunk, tcp);
    case SendData(handle, bytes, t) =>
      if handle in w.web.clients {
        SendIsPossible(w, w.web.clients[handle].pcb, bytes, t);
        HandledInv(w, w.web.clients[handle].pcb, AppSend(bytes, t));
      }
  }

  lemma SendIsPossible(w: World, pcb: nat, bytes: seq<byte>, t: Tcp)
    ensures pcb in w.web.pcbs ==> Possible(Alone(w, pcb), AppSend(bytes, t))
  {
    hide Run;
  }

  lemma InitialInv()
    ensures WorldInv(Initial())
  {
  }

  /** A run of the whole server, checking on the way that each input is possible. */
  ghost predicate Reaches(inputs: seq<Input>, w: World)
    decreases |inputs|
  {
    if inputs == [] then w == Initial() else
      exists v: World :: Reaches(inputs[..|inputs| - 1], v) && Consistent(v.web)
                         && PossibleInput(v, inputs[|inputs| - 1]) && w == Next(v, inputs[|inputs| - 1])
  }

  lemma {:induction false} ReachesInv(inputs: seq<Input>, w: World)
    requires Reaches(inputs, w)
    ensures WorldInv(w)
    decreases |inputs|
  {
    hide WorldInv, Next, PossibleInput, Consistent;
    if inputs == [] {
      InitialInv();
    } else {
      var n := |inputs| - 1;
      var v: World :| && Reaches(inputs[..n], v) && Consistent(v.web) && PossibleInput(v, inputs[n])
                      && w == Next(v, inputs[n]);
      ReachesInv(inputs[..n], v);
      NextInv(v, inputs[n]);
    }
  }

  /** Over every run of the server: control blocks and handles correspond one to one, and the
      bytes TCP accepted on each connection are a prefix of those queued for that client, whatever
      the other connections did.
   */
  lemma EveryStreamIsFifo(inputs: seq<Input>, w: World, pcb: nat)
    requires Reaches(inputs, w) && pcb in w.web.pcbs
    ensures Consistent(w.web) && pcb != NULL && FIRST_HANDLE <= w.web.pcbs[pcb] < U32
    ensures var k := Alone(w, pcb);
            && w.web.clients[w.web.pcbs[pcb]] == k.client
            && k.queued == k.accepted + Unsent(k.client.queue)
            && Wf(k.client.queue) && |k.accepted| - k.acked == InFlight(k.client.queue)
            && k.closeFrames <= 1
  {
    ReachesInv(inputs, w);
    assert Faithful(w, pcb);
    RunInv(pcb, w.web.pcbs[pcb], Past(w, w.web.pcbs[pcb]));
    hide Run, PossibleRun, Unsent, InFlight, Wf, Faithful;
  }

  /** A client leaves the registry only because the peer closed, the connection failed, or every
      byte ever queued for it was acknowledged.
   */
  lemma RemovedWhenDone(inputs: seq<Input>, w: World, pcb: nat, i: Input)
    requires Reaches(inputs, w) && pcb in w.web.pcbs
    requires Consistent(w.web) && PossibleInput(w, i) && pcb !in Next(w, i).web.pcbs
    ensures (i.On? && i.pcb == pcb) || i.SendData?
    ensures var e, k := EventOf(i), Alone(w, pcb);
            && Possible(k, e)
            && (e.PeerClosed? || e.Failed? || Step(k, e).acked == |Step(k, e).accepted| == |Step(k, e).queued|)
  {
    ReachesInv(inputs, w);
    assert Faithful(w, pcb);
    RemovedBy(w, pcb, i);
    var e := EventOf(i);
    if !e.PeerClosed? && !e.Failed? {
      hide Next, PossibleInput, Consistent, Possible, WorldInv, Run, PossibleRun, OnClient, React, Step;
      var k := Alone(w, pcb);
      StepIs(k, e);
      RunInv(pcb, w.web.pcbs[pcb], Past(w, w.web.pcbs[pcb]));
      ClosedWhenDone(k, e);
    }
  }

  lemma RemovedBy(w: World, pcb: nat, i: Input)
    requires WorldInv(w) && pcb in w.web.pcbs && PossibleInput(w, i) && pcb !in Next(w, i).web.pcbs
    ensures (i.On? && i.pcb == pcb) || i.SendData?
    ensures Possible(Alone(w, pcb), EventOf(i)) && !React(ClientAt(w.web, pcb), EventOf(i)).alive
  {
    hide React, Run, PossibleRun, Drain, LengthsFit, Handled, Processed;
    match i
    case Accept(_, _, _, _) =>
    case Data(p, chunk, tcp) =>
      if Upgraded(w, p) {
        ProcessedCore(w, p, Drain(Buffer(w, w.web.pcbs[p]) + chunk).messages, tcp);
      }
    case On(p, e) =>
      if p != pcb { HandledOther(w, p, e, pcb); } else { HandledOwn(w, pcb, e); }
    case SendData(h, bytes, t) =>
      if h in w.web.clients {
        var p := w.web.clients[h].pcb;
        if p != pcb { HandledOther(w, p, AppSend(bytes, t), pcb); } else { HandledOwn(w, pcb, AppSend(bytes, t)); }
      }
  }

  lemma ClosedWhenDone(k: Conn, e: Event)
    requires Inv(k) && k.alive && Possible(k, e) && !e.PeerClosed? && !e.Failed? && !Step(k, e).alive
    ensures Step(k, e).acked == |Step(k, e).accepted| == |Step(k, e).queued|
  {
    ReactGood(k, e);
  }

  /** Exactly when a client leaves the registry, over every run of the server: its peer closes, its
      connection fails, or everything queued for it is acknowledged, one of its own callbacks asks TCP
      to close, and TCP agrees. Nothing that happens to another client removes it.
   */
  lemma LeavesIff(inputs: seq<Input>, w: World, pcb: nat, i: Input)
    requires Reaches(inputs, w) && pcb in w.web.pcbs && Consistent(w.web) && PossibleInput(w, i)
    ensures pcb !in Next(w, i).web.pcbs <==>
              && i.On? && i.pcb == pcb
              && var k, e := Alone(w, pcb), i.event;
                 e.PeerClosed? || e.Failed? || (AsksToClose(k, e) && Agrees(e))
  {
    ReachesInv(inputs, w);
    var k := Alone(w, pcb);
    assert Faithful(w, pcb);
    RunInv(pcb, w.web.pcbs[pcb], Past(w, w.web.pcbs[pcb]));
    if pcb !in Next(w, i).web.pcbs {
      RemovedBy(w, pcb, i);
      StepIs(k, EventOf(i));
      RemovedIff(k, EventOf(i));
    } else if i.On? && i.pcb == pcb {
      HandledOwn(w, pcb, i.event);
      StepIs(k, i.event);
      RemovedIff(k, i.event);
    }
    hide React, Step, Connection.Run, PossibleRun, WorldInv, Consistent, Handled, Received, DataSent, Accepted;
  }

  /** Reassembly over every run of the server: when the chunks that an upgraded client has received
      hold valid frames and a part of another one, its frames so far were exactly these, in order
      and unmasked, whatever happened to the other clients, and the part is what it still holds.
   */
  lemma FramesReceived(inputs: seq<Input>, w: World, pcb: nat, frames: seq<Frame>, next: Frame, k: nat)
    requires Reaches(inputs, w) && Upgraded(w, pcb)
    requires AreFrames(frames) && next.Valid() && k < |next.Encode()|
    requires Join(Chunks(w, w.web.pcbs[pcb])) == EncodeAll(frames) + next.Encode()[..k]
    ensures var h := w.web.pcbs[pcb];
            MessagesOf(Past(w, h)) == Messages(frames) && Buffer(w, h) == next.Encode()[..k]
  {
    ReachesInv(inputs, w);
    assert Reassembled(w, pcb);
    FramesDelivered(frames, next, k, Chunks(w, w.web.pcbs[pcb]));
  }

  lemma HandledWeb(w: World, pcb: nat, e: Event)
    requires Consistent(w.web)
    ensures Handled(w, pcb, e).web == OnClient(w.web, pcb, e)
  {
    hide React, Consistent;
  }

  /** What the server object does with a chunk is what this model says. */
  lemma {:induction false} ProcessedIs(w: World, pcb: nat, messages: seq<Message>, tcp: nat -> Tcp)
    requires Consistent(w.web) && Small(messages)
    ensures Processed(w, pcb, messages, tcp).web == OnFrames(w.web, pcb, messages, tcp)
    decreases |messages|
  {
    if messages != [] {
      hide OnClient, Consistent;
      ProcessedIs(w, pcb, messages[..|messages| - 1], tcp);
      HandledWeb(Processed(w, pcb, messages[..|messages| - 1], tcp), pcb,
                 FrameReceived(messages[|messages| - 1].opcode, messages[|messages| - 1].payload, tcp(|messages| - 1)));
    }
  }

  /** `send_data` reaches its client exactly while that client is open. */
  lemma SendDataIff(w: World, handle: nat, bytes: seq<byte>, t: Tcp)
    requires WorldInv(w) && handle in w.web.clients
    ensures var c, after := w.web.clients[handle], DataSent(w, handle, bytes, t);
            && (c.closed ==> after == w)
            && (!c.closed ==> && handle in after.web.clients
                              && after.web.clients[handle] == Send(c, bytes, false, t).client
                              && after.web.clients[handle].handle == handle
                              && Past(after, handle) == Past(w, handle) + [AppSend(bytes, t)])
  {
    hide Faithful;
    var pcb :| pcb in w.web.pcbs && w.web.pcbs[pcb] == handle;
    assert Faithful(w, pcb);
    var c := w.web.clients[handle];
    if !c.closed {
      SendKeepsOpen(c, bytes, false, t);
      hide Send;
      OwnClient(w.web, pcb, AppSend(bytes, t));
      OnClientConsistent(w.web, pcb, AppSend(bytes, t));
    }
  }
}
