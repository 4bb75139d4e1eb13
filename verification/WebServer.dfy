/** The server object with its two maps of client objects. Every callback and every call of the
    application refines the step functions of modules Connection and Registry.
 */
module WebServer {
  import opened Bits
  import opened SendQueue
  import opened Connection
  import opened Registry
  import opened WebClient
  import opened WsFrame
  import opened WsStream
  import WsCodec
  import Handshake

  /** One step of the client registered under `pcb`, as seen from outside. */
  ghost predicate Done(before: Web, pcb: nat, o: Out, after: Web, calls: seq<Call>)
    requires Registered(before, pcb)
  {
    after == Update(before, pcb, o) && calls == o.calls
  }

  lemma UpdateAlive(w: Web, pcb: nat, o: Out)
    requires Registered(w, pcb) && o.alive
    ensures Registered(Update(w, pcb, o), pcb) && ClientAt(Update(w, pcb, o), pcb) == o.client
  {
  }

  lemma UpdateThenDelete(w: Web, pcb: nat, a: Out, b: Out)
    requires Registered(w, pcb) && a.alive && !b.alive
    ensures Delete(Update(w, pcb, a), pcb) == Update(w, pcb, b)
  {
  }

  lemma UpdateAgain(w: Web, pcb: nat, a: Out, b: Out)
    requires Registered(w, pcb) && a.alive
    ensures Registered(Update(w, pcb, a), pcb) && Update(Update(w, pcb, a), pcb, b) == Update(w, pcb, b)
  {
    var h := w.pcbs[pcb];
    assert w.clients[h := a.client][h := b.client] == w.clients[h := b.client];
    assert w.clients[h := a.client] - {h} == w.clients - {h};
  }

  lemma CloseSteps(w: Web, pcb: nat, t: Tcp)
    requires Registered(w, pcb) && Sane(ClientAt(w, pcb).queue)
    ensures var c := SetClosed(ClientAt(w, pcb));
            var w1 := Update(w, pcb, Out(c, true, []));
            && Registered(w1, pcb) && ClientAt(w1, pcb) == c
            && var d := c.(queue := Acknowledge(c.queue, 0));
               var w2 := Update(w1, pcb, Out(d, true, []));
               && Registered(w2, pcb) && ClientAt(w2, pcb) == d
               && Done(w, pcb, CloseClient(ClientAt(w, pcb), t),
                       if d.queue == [] && t.closes then Delete(w2, pcb) else w2,
                       if d.queue == [] then [CloseCall(t.closes)] else [])
  {
    hide Acknowledge, Sane;
    var c := SetClosed(ClientAt(w, pcb));
    var a := Out(c, true, []);
    var b := Out(c.(queue := Acknowledge(c.queue, 0)), true, []);
    UpdateAlive(w, pcb, a);
    UpdateAgain(w, pcb, a, b);
    UpdateAlive(w, pcb, b);
    UpdateThenDelete(w, pcb, b, Out(b.client, false, []));
  }

  lemma UpdateSame(w: Web, pcb: nat, calls: seq<Call>)
    requires Registered(w, pcb)
    ensures Update(w, pcb, Out(ClientAt(w, pcb), true, calls)) == w
  {
    var h := w.pcbs[pcb];
    assert w.clients[h := w.clients[h]] == w.clients;
  }

  lemma WriteSteps(w: Web, pcb: nat, t: Tcp)
    requires Registered(w, pcb) && Sane(ClientAt(w, pcb).queue)
    ensures var c := ClientAt(w, pcb);
            var g := GetNext(c.queue, Portion(t));
            var c1 := c.(queue := g.queue);
            var w1 := Update(w, pcb, Out(c1, true, []));
            && Registered(w1, pcb) && ClientAt(w1, pcb) == c1
            && (g.bytes == [] ==> Done(w, pcb, WritePiece(c, t), w1, []))
            && (g.bytes != [] && t.accepts ==> Done(w, pcb, WritePiece(c, t), w1, [Wrote(g.bytes)]))
            && (g.bytes != [] && !t.accepts ==>
                  var w2 := Update(w1, pcb, Out(c1.(queue := Requeue(g.queue, g.bytes)), true, []));
                  Done(w, pcb, WritePiece(c, t), w2, [Refused(g.bytes)]))
  {
    hide GetNext, Requeue, Sane, Portion;
    var c := ClientAt(w, pcb);
    var g := GetNext(c.queue, Portion(t));
    var a := Out(c.(queue := g.queue), true, []);
    UpdateAlive(w, pcb, a);
    UpdateAgain(w, pcb, a, Out(c.(queue := Requeue(g.queue, g.bytes)), true, []));
  }

  /** A closed client is not sent anything. */
  lemma SendToClosed(w: Web, pcb: nat, bytes: seq<byte>, close: bool, t: Tcp)
    requires Registered(w, pcb) && Sane(ClientAt(w, pcb).queue) && ClientAt(w, pcb).pcb == NULL
    ensures Done(w, pcb, Send(ClientAt(w, pcb), bytes, close, t), w, [])
  {
    UpdateSame(w, pcb, []);
  }

  lemma QueueSteps(w: Web, pcb: nat, bytes: seq<byte>, close: bool, t: Tcp)
    requires Registered(w, pcb) && Sane(ClientAt(w, pcb).queue)
    ensures var c, data := ClientAt(w, pcb), bytes[..|bytes| % 0x1_0000];
            var q := Out(c.(queue := c.queue + [Buf(data, 0, 0)]), true, [Queued(data, close)]);
            var w1 := Update(w, pcb, Out(q.client, true, []));
            && Registered(w1, pcb) && ClientAt(w1, pcb) == q.client && Sane(q.client.queue)
            && Done(w, pcb, q, w1, q.calls)
            && SendNow(c, bytes, close, t) == Connection.Then(q, WriteNext(q.client, t))
  {
    hide WriteNext;
    var c, data := ClientAt(w, pcb), bytes[..|bytes| % 0x1_0000];
    UpdateAlive(w, pcb, Out(c.(queue := c.queue + [Buf(data, 0, 0)]), true, []));
  }

  /** A step without calls, and then another. */
  lemma DoneAfter(before: Web, pcb: nat, c: Client, o: Out, after: Web, calls: seq<Call>)
    requires Registered(before, pcb)
    ensures var middle := Update(before, pcb, Out(c, true, []));
            && Registered(middle, pcb) && ClientAt(middle, pcb) == c
            && (Done(middle, pcb, o, after, calls) ==> Done(before, pcb, o, after, calls))
  {
    UpdateAlive(before, pcb, Out(c, true, []));
    UpdateAgain(before, pcb, Out(c, true, []), o);
  }

  lemma SameAsEvent(w: Web, pcb: nat, e: Event, o: Out, after: Web, calls: seq<Call>)
    requires Consistent(w) && Registered(w, pcb) && Sane(ClientAt(w, pcb).queue)
    requires o == React(ClientAt(w, pcb), e) && Done(w, pcb, o, after, calls)
    ensures after == OnClient(w, pcb, e) && calls == CallsOn(w, pcb, e)
  {
    hide React;
  }

  lemma SendCloseIs(c: Client, payload: Payload, t: Tcp)
    requires Sane(c.queue)
    ensures SendClose(c, payload, t) == Send(c.(wsCloseSent := true), WebSocketPacket(OPCODE_CLOSE, payload), true, t)
  {
    hide Send, WebSocketPacket, Sane;
  }

  lemma UnchangedIsDone(w: Web, pcb: nat)
    requires Registered(w, pcb)
    ensures Done(w, pcb, Out(ClientAt(w, pcb), true, []), w, [])
  {
    UpdateSame(w, pcb, []);
  }

  lemma StillThere(before: Web, pcb: nat, o: Out, after: Web, calls: seq<Call>)
    requires Registered(before, pcb) && Done(before, pcb, o, after, calls) && o.alive
    ensures Registered(after, pcb) && ClientAt(after, pcb) == o.client
  {
  }

  /** One frame was processed for the client under `pcb`. */
  ghost predicate Delivered(before: Web, pcb: nat, m: Message, t: Tcp, after: Web, calls: seq<Call>) {
    && Consistent(before) && |m.payload| < 0xffff_fff0
    && after == OnClient(before, pcb, FrameReceived(m.opcode, m.payload, t))
    && calls == CallsOn(before, pcb, FrameReceived(m.opcode, m.payload, t))
  }

  /** All frames of one received chunk were processed, in order. */
  ghost predicate AllDelivered(before: Web, pcb: nat, messages: seq<Message>, tcp: nat -> Tcp, after: Web,
                               calls: seq<Call>) {
    && Consistent(before) && Small(messages)
    && after == OnFrames(before, pcb, messages, tcp) && calls == CallsOnFrames(before, pcb, messages, tcp)
  }

  lemma NothingDelivered(w: Web, pcb: nat, tcp: nat -> Tcp)
    requires Consistent(w)
    ensures AllDelivered(w, pcb, [], tcp, w, [])
  {
  }

  lemma OneDeliveredMore(w: Web, pcb: nat, messages: seq<Message>, tcp: nat -> Tcp, middle: Web, calls: seq<Call>,
                         m: Message, after: Web, more: seq<Call>)
    requires AllDelivered(w, pcb, messages, tcp, middle, calls)
    requires Delivered(middle, pcb, m, tcp(|messages|), after, more)
    ensures AllDelivered(w, pcb, messages + [m], tcp, after, calls + more)
  {
    hide Consistent, OnFrames, CallsOnFrames, OnClient, CallsOn;
    OneFrameMore(w, pcb, messages, m, tcp);
  }

  lemma AheadIs(c: ClientRec, cut: bool)
    ensures c.Ahead(false, cut) == Drained([], c.rqst, cut)
    ensures c.Stands() ==>
              c.Ahead(true, cut) == WsStream.Then([c.Front()], Drain(c.rqst[c.wshdr.start + c.wshdr.length..]))
    ensures c.Stands() ==> c.Ahead(true, cut) == c.Ahead(true, false)
    ensures c.Stands() ==> 2 <= c.wshdr.start && c.wshdr.start + c.wshdr.length <= |c.rqst|
  {
    hide Drain;
  }

  lemma WithinBut<V>(a: map<nat, V>, b: map<nat, V>, c: map<nat, V>, h: nat)
    requires Within(a - {h}, b) && Within(b - {h}, c)
    ensures Within(a - {h}, c)
  {
    assert forall x :: x in a - {h} && x in b ==> x in b - {h};
  }

  lemma WithinWeaken<V>(a: map<nat, V>, b: map<nat, V>, h: nat)
    requires Within(a, b)
    ensures Within(a - {h}, b)
  {
  }

  lemma SamePlace(before: Web, pcb: nat, o: Out, after: Web, calls: seq<Call>)
    requires Registered(before, pcb) && Done(before, pcb, o, after, calls) && o.alive
    ensures after.pcbs == before.pcbs
  {
  }

  lemma WithinAt<V>(a: map<nat, V>, b: map<nat, V>, h: nat)
    requires Within(a, b)
    ensures h in a ==> h in b && b[h] == a[h]
  {
  }

  lemma HandleHasPcb(w: Web, handle: nat)
    requires Consistent(w) && handle in w.clients
    ensures exists pcb :: Registered(w, pcb) && w.pcbs[pcb] == handle
  {
    hide Sane;
    assert handle in w.pcbs.Values;
    var pcb :| pcb in w.pcbs && w.pcbs[pcb] == handle;
    assert Registered(w, pcb);
  }

  lemma UpgradeDone(w: Web, pcb: nat, response: seq<byte>, t: Tcp, s: Out, middle: Web, calls: seq<Call>, o: Out,
                    after: Web)
    requires Consistent(w) && Registered(w, pcb) && Sane(ClientAt(w, pcb).queue)
    requires s == Send(ClientAt(w, pcb), response, false, t) && s.alive
    requires o == Out(s.client.(websocket := true), true, [])
    requires Done(w, pcb, s, middle, calls) && Registered(middle, pcb) && Done(middle, pcb, o, after, [])
    ensures after == OnClient(w, pcb, Upgrade(response, t)) && calls == CallsOn(w, pcb, Upgrade(response, t))
  {
    hide Consistent, Send, OnClient, CallsOn, Sane;
    DoneThen(w, pcb, s, middle, calls, o, after, []);
    assert calls + [] == calls && s.calls + [] == s.calls;
    SameAsEvent(w, pcb, Upgrade(response, t), s.(client := o.client), after, calls);
  }

  /** Sending from the application changes the one client, and removes none. */
  lemma SendIs(w: Web, pcb: nat, bytes: seq<byte>, t: Tcp)
    requires Consistent(w) && Registered(w, pcb)
    ensures var after, h := OnClient(w, pcb, AppSend(bytes, t)), w.pcbs[pcb];
            && Sane(w.clients[h].queue)
            && CallsOn(w, pcb, AppSend(bytes, t)) == Send(w.clients[h], bytes, false, t).calls
            && after == w.(clients := w.clients[h := Send(w.clients[h], bytes, false, t).client])
  {
    OwnPcb(w, pcb);
    hide Send, Consistent, Sane;
    SendKeepsOpen(ClientAt(w, pcb), bytes, false, t);
  }

  /** `w` with the text sent to the upgraded clients outside `todo`. */
  ghost predicate SentTo(before: Web, todo: set<nat>, bytes: seq<byte>, tcp: nat -> Tcp, w: Web) {
    && w.pcbs == before.pcbs && w.clients.Keys == before.clients.Keys
    && (forall h :: h in before.clients ==> Sane(before.clients[h].queue))
    && (forall h :: h in before.clients ==>
          w.clients[h] == if h !in todo && before.clients[h].websocket
                          then Send(before.clients[h], bytes, false, tcp(h)).client
                          else before.clients[h])
  }

  /** The text is sent to one client, if it is upgraded. */
  ghost predicate SentOne(w: Web, h: nat, bytes: seq<byte>, t: Tcp, after: Web, calls: seq<Call>) {
    && h in w.clients && Sane(w.clients[h].queue)
    && calls == (if w.clients[h].websocket then Send(w.clients[h], bytes, false, t).calls else [])
    && after == if !w.clients[h].websocket then w
                else w.(clients := w.clients[h := Send(w.clients[h], bytes, false, t).client])
  }

  function CallsFor(w: Web, h: nat, bytes: seq<byte>, tcp: nat -> Tcp): seq<Call>
    requires h in w.clients
  {
    if w.clients[h].websocket && Sane(w.clients[h].queue) then Send(w.clients[h], bytes, false, tcp(h)).calls else []
  }

  lemma {:induction false} LeastBelow(s: set<nat>, y: nat)
    requires y in s
    ensures exists m :: m in s && forall x :: x in s ==> m <= x
    decreases y
  {
    if !(forall x :: x in s ==> y <= x) {
      var x :| x in s && x < y;
      LeastBelow(s, x);
    }
  }

  lemma LeastExists(s: set<nat>)
    requires s != {}
    ensures exists m :: m in s && forall x :: x in s ==> m <= x
  {
    var y :| y in s;
    LeastBelow(s, y);
  }

  /** The first handle of those in a map. */
  ghost function Least(s: set<nat>): (m: nat)
    requires s != {}
    ensures m in s && forall x :: x in s ==> m <= x
  {
    LeastExists(s);
    var m :| m in s && forall x :: x in s ==> m <= x;
    m
  }

  /** The calls of a broadcast to the clients in `todo`, in the order of their handles. */
  ghost function BroadcastCalls(w: Web, todo: set<nat>, bytes: seq<byte>, tcp: nat -> Tcp): seq<Call>
    requires todo <= w.clients.Keys
  {
    if todo == {} then [] else
      var h := Least(todo);
      CallsFor(w, h, bytes, tcp) + BroadcastCalls(w, todo - {h}, bytes, tcp)
  }

  lemma SentToOneMore(before: Web, todo: set<nat>, bytes: seq<byte>, tcp: nat -> Tcp, w: Web, h: nat, after: Web,
                      calls: seq<Call>)
    requires SentTo(before, todo, bytes, tcp, w) && h in todo && SentOne(w, h, bytes, tcp(h), after, calls)
    ensures SentTo(before, todo - {h}, bytes, tcp, after)
    ensures h in before.clients && calls == CallsFor(before, h, bytes, tcp)
  {
    hide Send, Sane;
  }

  lemma BroadcastNext(w: Web, todo: set<nat>, h: nat, bytes: seq<byte>, tcp: nat -> Tcp, calls: seq<Call>,
                      more: seq<Call>)
    requires todo <= w.clients.Keys && h in todo && (forall x :: x in todo ==> h <= x)
    requires more == CallsFor(w, h, bytes, tcp)
    ensures calls + more + BroadcastCalls(w, todo - {h}, bytes, tcp) == calls + BroadcastCalls(w, todo, bytes, tcp)
  {
    hide CallsFor;
    assert Least(todo) == h;
  }

  lemma BroadcastDone(w: Web, bytes: seq<byte>, tcp: nat -> Tcp, calls: seq<Call>)
    ensures calls + BroadcastCalls(w, {}, bytes, tcp) == calls
  {
  }

  lemma SentToNone(w: Web, todo: set<nat>, bytes: seq<byte>, tcp: nat -> Tcp)
    requires Consistent(w) && w.clients.Keys <= todo
    ensures SentTo(w, todo, bytes, tcp, w)
  {
    hide Send, Sane;
  }

  lemma SentToKeys(before: Web, todo: set<nat>, bytes: seq<byte>, tcp: nat -> Tcp, w: Web)
    requires SentTo(before, todo, bytes, tcp, w)
    ensures w.clients.Keys == before.clients.Keys
  {
  }

  lemma WithinSame<V>(a: map<nat, V>)
    ensures Within(a, a)
  {
  }

  lemma WithinThen<V>(a: map<nat, V>, b: map<nat, V>, c: map<nat, V>)
    requires Within(a, b) && Within(b, c)
    ensures Within(a, c)
  {
  }

  /** Two steps of one client in a row. */
  lemma DoneThen(before: Web, pcb: nat, a: Out, middle: Web, callsA: seq<Call>, b: Out, after: Web, callsB: seq<Call>)
    requires Registered(before, pcb) && Done(before, pcb, a, middle, callsA) && a.alive
    requires Registered(middle, pcb) && Done(middle, pcb, b, after, callsB)
    ensures Done(before, pcb, Connection.Then(a, b), after, callsA + callsB)
  {
    assert middle.pcbs == before.pcbs;
    var h := before.pcbs[pcb];
    assert middle.clients[h := b.client] == before.clients[h := b.client];
    assert middle.clients - {h} == before.clients - {h};
  }

  lemma RegisteredIn(w: Web, pcb: nat)
    requires Consistent(w) && pcb in w.pcbs
    ensures Registered(w, pcb)
  {
  }

  lemma NothingDeleted(w: Web, pcb: nat)
    ensures pcb !in w.pcbs ==> Delete(w, pcb) == w
  {
  }

  lemma NextFreeIs(used: set<nat>, start: nat, handle: nat, steps: nat)
    requires NextFree(used, start, handle, steps)
    ensures handle !in used && FIRST_HANDLE <= handle < U32
  {
  }

  lemma SaneView(c: ClientRec)
    requires c.Valid()
    ensures Sane(c.View().queue)
  {
  }

  ghost predicate Within<V>(a: map<nat, V>, b: map<nat, V>) {
    forall h :: h in a ==> h in b && b[h] == a[h]
  }

  predicate Apart(a: seq<SendBuf>, b: seq<SendBuf>) {
    forall i, j :: 0 <= i < |a| && 0 <= j < |b| ==> a[i] != b[j]
  }

  class Server {
    var pcbs: map<nat, nat>
    var clients: map<nat, ClientRec>
    var nextHandle: nat
    ghost var Repr: set<object>

    /** The buffer objects of all clients. */
    ghost function Buffers(): set<SendBuf>
      reads this, clients.Values
    {
      set h, i | h in clients && 0 <= i < |clients[h].sendbuf| :: clients[h].sendbuf[i]
    }

    /** The maps are consistent and the clients share no buffers. */
    ghost predicate Valid()
      reads this, clients.Values, Buffers()
    {
      && (forall h :: h in clients ==> clients[h].Valid())
      && (forall h, i :: h in clients && i in clients && h != i ==> Apart(clients[h].sendbuf, clients[i].sendbuf))
      && Consistent(View())
      && FIRST_HANDLE - 1 <= nextHandle < U32
      && this in Repr && clients.Values <= Repr && Buffers() <= Repr
    }

    ghost function View(): (w: Web)
      reads this, clients.Values, Buffers()
      ensures w.pcbs == pcbs && w.clients.Keys == clients.Keys
      ensures forall h :: h in clients ==> w.clients[h] == clients[h].View()
    {
      Web(pcbs, map h | h in clients :: clients[h].View())
    }

    lemma ValidIs()
      requires Valid()
      ensures Consistent(View()) && FIRST_HANDLE - 1 <= nextHandle < U32
      ensures forall h :: h in clients ==> clients[h].Valid()
      ensures this in Repr && clients.Values <= Repr && Buffers() <= Repr
    {
    }

    /** The client objects and what each has received. */
    ghost function Received(): (r: map<nat, (ClientRec, seq<byte>, WsCodec.Header)>)
      reads this, clients.Values
    {
      map h | h in clients :: (clients[h], clients[h].rqst, clients[h].wshdr)
    }

    /** Client objects stay where they are and keep what they have received. */
    twostate predicate Framed()
      reads this, clients.Values
    {
      && nextHandle == old(nextHandle)
      && Within(Received(), old(Received()))
      && fresh(Repr - old(Repr))
    }

    /** The same, except that the client with handle `h` may have received something. */
    twostate predicate FramedBut(h: nat)
      reads this, clients.Values
    {
      && nextHandle == old(nextHandle)
      && Within(Received() - {h}, old(Received()))
      && fresh(Repr - old(Repr))
    }

    constructor ()
      ensures Valid() && View() == Web(map[], map[]) && clients == map[] && fresh(Repr)
    {
      pcbs, clients, nextHandle := map[], map[], FIRST_HANDLE - 1;
      Repr := {this};
    }

    /** `findClient` by control block. */
    function FindClient(pcb: nat): (c: ClientRec?)
      requires Valid()
      reads this, clients.Values, Buffers()
      ensures c != null <==> Registered(View(), pcb)
      ensures c != null ==> pcb in pcbs && pcbs[pcb] in clients && c == clients[pcbs[pcb]]
      ensures c != null ==> c.View() == ClientAt(View(), pcb)
    {
      if pcb in pcbs && pcbs[pcb] in clients then clients[pcbs[pcb]] else null
    }

    twostate lemma OneClientView(pcb: nat)
      requires pcb in pcbs && pcbs[pcb] in clients
      requires pcbs == old(pcbs) && clients == old(clients)
      requires forall h :: h in clients && h != pcbs[pcb] ==> clients[h].View() == old(clients[h].View())
      ensures View() == Update(old(View()), pcb, Out(clients[pcbs[pcb]].View(), true, []))
    {
      hide ClientRec.View, Views;
    }

    twostate lemma OneClientApart(pcb: nat)
      requires pcb in pcbs && pcbs[pcb] in clients && clients == old(clients) && pcbs == old(pcbs)
      requires forall h :: h in clients ==> clients[h].sendbuf == old(clients[h].sendbuf) || h == pcbs[pcb]
      requires forall b :: b in clients[pcbs[pcb]].sendbuf ==> b in old(clients[pcbs[pcb]].sendbuf) || fresh(b)
      requires forall h, i ::
        h in clients && i in clients && h != i ==> old(Apart(clients[h].sendbuf, clients[i].sendbuf))
      ensures forall h, i :: h in clients && i in clients && h != i ==> Apart(clients[h].sendbuf, clients[i].sendbuf)
    {
      forall h, i | h in clients && i in clients && h != i
        ensures Apart(clients[h].sendbuf, clients[i].sendbuf)
      {
        var a, b := clients[h].sendbuf, clients[i].sendbuf;
        assert old(Apart(clients[h].sendbuf, clients[i].sendbuf));
        assert forall x :: 0 <= x < |a| ==> a[x] in a;
        assert forall y :: 0 <= y < |b| ==> b[y] in b;
      }
    }

    /** A step inside one client's objects is a step of the registry. */
    twostate lemma OneClient(pcb: nat)
      requires old(Valid())
      requires pcb in pcbs && pcbs[pcb] in clients && pcbs == old(pcbs) && clients == old(clients)
      requires nextHandle == old(nextHandle)
      requires forall h :: h in clients && h != pcbs[pcb] ==> unchanged(clients[h]) && clients[h].Valid()
      requires forall h :: h in clients && h != pcbs[pcb] ==> clients[h].View() == old(clients[h].View())
      requires var c := clients[pcbs[pcb]];
               && c.Valid() && c.rqst == old(c.rqst) && c.wshdr == old(c.wshdr) && SameIdentity(old(c.View()), c.View())
               && (forall b :: b in c.sendbuf ==> b in old(c.sendbuf) || (fresh(b) && b in Repr))
      requires fresh(Repr - old(Repr)) && old(Repr) <= Repr
      ensures Valid() && Framed()
      ensures View() == Update(old(View()), pcb, Out(clients[pcbs[pcb]].View(), true, []))
    {
      hide SameIdentity, ClientRec.Valid, ClientRec.View, View, Consistent, Apart;
      OneClientView(pcb);
      OneClientApart(pcb);
      OneClientConsistent(pcb);
      OneClientCovered(pcb);
    }

    twostate lemma OneClientCovered(pcb: nat)
      requires pcb in pcbs && pcbs[pcb] in clients && clients == old(clients) && pcbs == old(pcbs)
      requires forall h :: h in clients ==> clients[h].sendbuf == old(clients[h].sendbuf) || h == pcbs[pcb]
      requires forall b :: b in clients[pcbs[pcb]].sendbuf ==> b in old(clients[pcbs[pcb]].sendbuf) || b in Repr
      requires old(Buffers()) <= old(Repr) <= Repr
      ensures Buffers() <= Repr
    {
      forall b | b in Buffers()
        ensures b in Repr
      {
        var h, i :| h in clients && 0 <= i < |clients[h].sendbuf| && b == clients[h].sendbuf[i];
        var was := old(clients[h].sendbuf);
        if b in was {
          var j :| 0 <= j < |was| && was[j] == b;
          assert b in old(Buffers());
        }
      }
    }

    twostate lemma OneClientConsistent(pcb: nat)
      requires old(Valid()) && pcb in old(pcbs) && old(pcbs[pcb]) in old(clients)
      requires var c := old(clients[pcbs[pcb]]);
               c.Valid() && SameIdentity(old(c.View()), c.View())
      ensures Consistent(Update(old(View()), pcb, Out(old(clients[pcbs[pcb]]).View(), true, [])))
    {
      hide SameIdentity, ClientRec.Valid, ClientRec.View, Views, Apart, Consistent;
      var c := old(clients[pcbs[pcb]]);
      SaneView(c);
      UpdateConsistent(old(View()), pcb, Out(c.View(), true, []));
    }

    /** Every client object is as it was; some may have left the maps. */
    twostate predicate OnlyFewer()
      reads this, clients.Values, Buffers()
    {
      forall h :: h in clients ==>
        && h in old(clients) && clients[h] == old(clients)[h] && unchanged(clients[h])
        && clients[h].View() == old(clients[h].View()) && clients[h].Valid() == old(clients[h].Valid())
    }

    twostate lemma FewerFramed()
      requires OnlyFewer() && nextHandle == old(nextHandle) && Repr == old(Repr)
      ensures Framed()
    {
      hide ClientRec.Valid, ClientRec.View;
    }

    twostate lemma FewerValid()
      requires OnlyFewer() && nextHandle == old(nextHandle) && Repr == old(Repr) && old(Valid()) && Consistent(View())
      ensures Valid()
    {
      hide Consistent, Apart, ClientRec.View, ClientRec.Valid;
    }

    twostate lemma DeletedView(pcb: nat)
      requires OnlyFewer() && pcb in old(pcbs) && old(pcbs[pcb]) in old(clients)
      requires pcbs == old(pcbs) - {pcb} && clients == old(clients) - {old(pcbs[pcb])}
      ensures View() == Delete(old(View()), pcb)
    {
      hide ClientRec.Valid, ClientRec.View, Views;
    }

    /** Both entries of the client under `pcb` have left the maps, if there were any, and no others. */
    twostate predicate Gone(pcb: nat)
      reads this
    {
      && pcb !in pcbs
      && pcbs == old(pcbs) - {pcb}
      && clients == if pcb in old(pcbs) then old(clients) - {old(pcbs)[pcb]} else old(clients)
    }

    method DeleteClient(pcb: nat)
      requires Valid()
      modifies this`pcbs, this`clients
      ensures Valid() && Framed() && Repr == old(Repr) && View() == Delete(old(View()), pcb)
      ensures Gone(pcb)
    {
      hide Consistent, ClientRec.Valid, ClientRec.View, Views, Valid, Delete;
      ValidIs();
      DeleteConsistent(View(), pcb);
      if pcb in pcbs {
        RegisteredIn(View(), pcb);
        var h := pcbs[pcb];
        clients := clients - {h};
        pcbs := pcbs - {pcb};
        DeletedView(pcb);
      } else {
        NothingDeleted(View(), pcb);
      }
      FewerFramed();
      FewerValid();
    }

    twostate lemma AddedValid(pcb: nat)
      requires old(Valid()) && pcb in pcbs && pcbs[pcb] in clients && pcbs[pcb] !in old(clients)
      requires clients == old(clients)[pcbs[pcb] := clients[pcbs[pcb]]] && FIRST_HANDLE <= nextHandle < U32
      requires forall h :: h in old(clients) ==> old(clients)[h].Valid() && unchanged(old(clients)[h])
      requires clients[pcbs[pcb]].Valid() && clients[pcbs[pcb]].sendbuf == []
      requires old(Repr) <= Repr && clients[pcbs[pcb]] in Repr
      requires Consistent(View())
      ensures Valid()
    {
      hide Consistent, ClientRec.Valid, ClientRec.View, Views;
    }

    twostate lemma AddedView(pcb: nat)
      requires pcb in pcbs && pcbs[pcb] in clients && pcbs[pcb] !in old(clients)
      requires pcbs == old(pcbs)[pcb := pcbs[pcb]] && clients == old(clients)[pcbs[pcb] := clients[pcbs[pcb]]]
      requires forall h :: h in old(clients) ==> old(clients)[h].View() == old(clients[h].View())
      requires clients[pcbs[pcb]].View() == NewConn(pcb, pcbs[pcb]).client
      ensures View() == Add(old(View()), pcb, pcbs[pcb])
    {
      hide ClientRec.Valid, ClientRec.View, Views;
    }

    twostate lemma NothingChanged()
      requires OnlyFewer() && clients == old(clients) && pcbs == old(pcbs) && nextHandle == old(nextHandle)
      requires Repr == old(Repr)
      ensures View() == old(View()) && Framed() && (old(Valid()) ==> Valid())
    {
      hide ClientRec.Valid, ClientRec.View, Views, Apart, Consistent, Framed;
      FewerFramed();
      SameView();
      if old(Valid()) {
        FewerValid();
      }
    }

    twostate lemma SameView()
      requires OnlyFewer() && clients == old(clients) && pcbs == old(pcbs)
      ensures View() == old(View())
    {
      hide ClientRec.Valid, ClientRec.View, Views;
    }

    /** Enters a new client object in both maps. */
    method Register(pcb: nat, c: ClientRec)
      requires Valid() && pcb != NULL && pcb !in pcbs && c.handle !in clients && FIRST_HANDLE <= c.handle < U32
      requires c.Valid() && c.View() == NewConn(pcb, c.handle).client && c.sendbuf == []
      modifies this
      ensures Valid() && View() == Add(old(View()), pcb, c.handle)
      ensures clients == old(clients)[c.handle := c] && nextHandle == c.handle && Repr == old(Repr) + {c}
    {
      hide Consistent, ClientRec.Valid, ClientRec.View, Views, Valid, Add, NewConn;
      ValidIs();
      AddConsistent(View(), pcb, c.handle);
      pcbs, clients, nextHandle := pcbs[pcb := c.handle], clients[c.handle := c], c.handle;
      Repr := Repr + {c};
      AddedView(pcb);
      AddedValid(pcb);
    }

    /** The constructor of a client takes the next free handle. */
    method NewClient(pcb: nat) returns (c: ClientRec, ghost steps: nat)
      requires Valid() && |clients| < U32 - FIRST_HANDLE
      ensures fresh(c) && c.Valid() && c.View() == NewConn(pcb, c.handle).client && c.sendbuf == [] && c.rqst == []
      ensures c.handle !in clients && FIRST_HANDLE <= c.handle < U32
      ensures NextFree(clients.Keys, nextHandle, c.handle, steps)
      ensures Valid() && View() == old(View())
    {
      hide Consistent, ClientRec.Valid, ClientRec.View, Views, Valid, Framed, NewConn, NextFree;
      ValidIs();
      var handle;
      handle, steps := NextHandle(clients.Keys, nextHandle);
      NextFreeIs(clients.Keys, nextHandle, handle, steps);
      c := new ClientRec(pcb, handle);
      forall h | h in clients
        ensures unchanged(clients[h]) && clients[h].View() == old(clients[h].View())
        ensures clients[h].Valid() == old(clients[h].Valid())
      {
        assert forall b :: b in clients[h].sendbuf ==> unchanged(b);
      }
      NothingChanged();
    }

    /** `addClient`, with the handle taken from the counter. */
    method AddClient(pcb: nat) returns (c: ClientRec?)
      requires Valid() && pcb != NULL && |clients| < U32 - FIRST_HANDLE
      modifies this
      ensures Valid()
      ensures pcb in old(pcbs) ==> c == null && View() == old(View()) && Framed()
      ensures pcb !in old(pcbs) ==> c != null && fresh(c) && c.rqst == [] && fresh(Repr - old(Repr))
      ensures pcb !in old(pcbs) ==> View() == Add(old(View()), pcb, nextHandle)
      ensures pcb !in old(pcbs) ==> clients == old(clients)[nextHandle := c]
      ensures pcb !in old(pcbs) ==> View().pcbs == old(View()).pcbs[pcb := nextHandle]
      ensures pcb !in old(pcbs) ==>
                View().clients == old(View()).clients[nextHandle := Client(pcb, false, false, false, nextHandle, [])]
      ensures pcb !in old(pcbs) ==> exists steps :: NextFree(old(clients).Keys, old(nextHandle), nextHandle, steps)
    {
      hide Consistent, ClientRec.Valid, ClientRec.View, Views, Valid, Framed, Add, NewConn, NextFree;
      c := null;
      if pcb !in pcbs {
        ValidIs();
        ghost var steps;
        c, steps := NewClient(pcb);
        AddIs(View(), pcb, c.handle);
        Register(pcb, c);
      } else {
        FewerFramed();
      }
    }

    lemma OthersApart(pcb: nat)
      requires Valid() && pcb in pcbs && pcbs[pcb] in clients
      ensures forall h :: h in clients && h != pcbs[pcb] ==> clients[h] != clients[pcbs[pcb]]
      ensures forall h :: h in clients && h != pcbs[pcb] ==> Apart(clients[h].sendbuf, clients[pcbs[pcb]].sendbuf)
      ensures SameIdentity(clients[pcbs[pcb]].View(), clients[pcbs[pcb]].View())
    {
      assert forall h :: h in clients ==> View().clients[h].handle == h;
      hide ClientRec.Valid, Views;
    }

    /** `mark_for_close`. */
    method MarkForClose(pcb: nat)
      requires Valid()
      modifies Repr
      ensures Valid() && Framed()
      ensures var was := old(View());
              Registered(was, pcb) ==> Done(was, pcb, Out(SetClosed(ClientAt(was, pcb)), true, []), View(), [])
      ensures !Registered(old(View()), pcb) ==> View() == old(View())
    {
      hide Consistent, ClientRec.Valid, ClientRec.View, Views, Valid, Framed, View;
      var c := FindClient(pcb);
      if c != null {
        OthersApart(pcb);
        ValidIs();
        c.MarkClosed();
        OneClient(pcb);
      } else {
        FewerFramed();
      }
    }

    /** `acknowledge` on one client. */
    method AcknowledgeOn(pcb: nat, count: nat)
      requires Valid() && Registered(View(), pcb)
      modifies Repr
      ensures Valid() && Framed() && clients == old(clients)
      ensures var c := ClientAt(old(View()), pcb);
              View() == Update(old(View()), pcb, Out(c.(queue := Acknowledge(c.queue, count)), true, []))
    {
      hide Consistent, ClientRec.Valid, ClientRec.View, Views, Valid, Framed, View, Acknowledge, Update;
      var c := clients[pcbs[pcb]];
      OthersApart(pcb);
      ValidIs();
      c.DoAcknowledge(count);
      forall h | h in clients && h != pcbs[pcb]
        ensures unchanged(clients[h]) && clients[h].Valid() && clients[h].View() == old(clients[h].View())
      {
        assert old(clients[h].Valid()) && unchanged(clients[h]);
        var bufs := clients[h].sendbuf;
        assert forall i :: 0 <= i < |bufs| ==> unchanged(bufs[i]);
      }
      OneClient(pcb);
    }

    /** `queue_send` on one client. */
    method QueueOn(pcb: nat, data: seq<byte>)
      requires Valid() && Registered(View(), pcb)
      modifies Repr
      ensures Valid() && Framed() && clients == old(clients)
      ensures var c := ClientAt(old(View()), pcb);
              View() == Update(old(View()), pcb, Out(c.(queue := c.queue + [Buf(data, 0, 0)]), true, []))
    {
      hide Consistent, ClientRec.Valid, ClientRec.View, Views, Valid, Framed, View, Update;
      var c := clients[pcbs[pcb]];
      OthersApart(pcb);
      ValidIs();
      c.QueueSend(data);
      Repr := Repr + {c.sendbuf[|c.sendbuf| - 1]};
      OneClient(pcb);
    }

    /** `get_next` on one client. */
    method TakeOn(pcb: nat, count: nat) returns (bytes: seq<byte>)
      requires Valid() && Registered(View(), pcb)
      modifies Repr
      ensures Valid() && Framed() && clients == old(clients)
      ensures var c := ClientAt(old(View()), pcb);
              && bytes == GetNext(c.queue, count).bytes
              && View() == Update(old(View()), pcb, Out(c.(queue := GetNext(c.queue, count).queue), true, []))
    {
      hide Consistent, ClientRec.Valid, ClientRec.View, Views, Valid, Framed, View, GetNext, Update;
      var c := clients[pcbs[pcb]];
      OthersApart(pcb);
      ValidIs();
      bytes := c.TakeNext(count);
      forall h | h in clients && h != pcbs[pcb]
        ensures unchanged(clients[h]) && clients[h].Valid() && clients[h].View() == old(clients[h].View())
      {
        assert old(clients[h].Valid()) && unchanged(clients[h]);
        var bufs := clients[h].sendbuf;
        assert forall i :: 0 <= i < |bufs| ==> unchanged(bufs[i]);
      }
      OneClient(pcb);
    }

    /** `requeue` on one client. */
    method PutBackOn(pcb: nat, bytes: seq<byte>)
      requires Valid() && Registered(View(), pcb)
      modifies Repr
      ensures Valid() && Framed() && clients == old(clients)
      ensures var c := ClientAt(old(View()), pcb);
              View() == Update(old(View()), pcb, Out(c.(queue := Requeue(c.queue, bytes)), true, []))
    {
      hide Consistent, ClientRec.Valid, ClientRec.View, Views, Valid, Framed, View, Requeue, Update;
      var c := clients[pcbs[pcb]];
      OthersApart(pcb);
      ValidIs();
      c.PutBack(bytes);
      forall h | h in clients && h != pcbs[pcb]
        ensures unchanged(clients[h]) && clients[h].Valid() && clients[h].View() == old(clients[h].View())
      {
        assert old(clients[h].Valid()) && unchanged(clients[h]);
        var bufs := clients[h].sendbuf;
        assert forall i :: 0 <= i < |bufs| ==> unchanged(bufs[i]);
      }
      OneClient(pcb);
    }

    lemma Looks(pcb: nat)
      requires Valid() && Registered(View(), pcb)
      ensures pcb in pcbs && pcbs[pcb] in clients
      ensures var c, v := clients[pcbs[pcb]], ClientAt(View(), pcb);
              && v == c.View() && c.closed == v.closed && c.pcb == v.pcb
              && c.websocket == v.websocket && c.wsCloseSent == v.wsCloseSent
              && c.MoreToSend() == (v.queue != []) && Sane(v.queue) && SameIdentity(v, v)
    {
      OthersApart(pcb);
      SaneView(clients[pcbs[pcb]]);
      hide Views, Valid, ClientRec.Valid;
    }

    /** `close_client` for a connection that is not yet closed at the other end. */
    method CloseOpen(pcb: nat, t: Tcp) returns (calls: seq<Call>)
      requires Valid() && Registered(View(), pcb)
      modifies Repr
      ensures Valid() && Framed()
      ensures Done(old(View()), pcb, CloseClient(ClientAt(old(View()), pcb), t), View(), calls)
    {
      hide Consistent, ClientRec.Valid, ClientRec.View, Views, Valid, View, Update, Delete, Acknowledge, CloseClient;
      hide Sane, Registered, ClientAt, Within, Received, Buffers;
      ghost var was, r0 := View(), Received();
      Looks(pcb);
      CloseSteps(was, pcb, t);
      MarkForClose(pcb);
      ghost var r1 := Received();
      AcknowledgeOn(pcb, 0);
      WithinThen(Received(), r1, r0);
      assert Framed();
      ghost var r2 := Received();
      Looks(pcb);
      calls := [];
      if !clients[pcbs[pcb]].MoreToSend() {
        calls := [CloseCall(t.closes)];
        if t.closes {
          ValidIs();
          DeleteClient(pcb);
          WithinThen(Received(), r2, r0);
          assert Framed();
        }
      }
    }

    /** The write of `write_next`. */
    method WriteFront(pcb: nat, t: Tcp) returns (calls: seq<Call>)
      requires Valid() && Registered(View(), pcb)
      modifies Repr
      ensures Valid() && Framed()
      ensures Sane(ClientAt(old(View()), pcb).queue)
      ensures Done(old(View()), pcb, WritePiece(ClientAt(old(View()), pcb), t), View(), calls)
    {
      hide Consistent, ClientRec.Valid, ClientRec.View, Views, Valid, View, Update, GetNext, Requeue, WritePiece;
      hide Sane, Registered, ClientAt, Within, Received, Buffers;
      ghost var was, r0 := View(), Received();
      Looks(pcb);
      WriteSteps(was, pcb, t);
      var bytes := TakeOn(pcb, Portion(t));
      ghost var r1 := Received();
      calls := [];
      if bytes != [] {
        if t.accepts {
          calls := [Wrote(bytes)];
        } else {
          calls := [Refused(bytes)];
          PutBackOn(pcb, bytes);
          WithinThen(Received(), r1, r0);
          assert Framed();
        }
      }
    }

    /** `write_next` for a registered client. */
    method WriteOn(pcb: nat, t: Tcp) returns (calls: seq<Call>)
      requires Valid() && Registered(View(), pcb)
      modifies Repr
      ensures Valid() && Framed()
      ensures Sane(ClientAt(old(View()), pcb).queue)
      ensures Done(old(View()), pcb, WriteNext(ClientAt(old(View()), pcb), t), View(), calls)
    {
      hide Consistent, ClientRec.Valid, ClientRec.View, Views, Valid, View, Update, CloseClient, WritePiece, Sane;
      hide Registered, ClientAt, Within, Received, Buffers;
      ghost var was, r0 := View(), Received();
      Looks(pcb);
      calls := WriteFront(pcb, t);
      ghost var w, mid, r1 := WritePiece(ClientAt(was, pcb), t), View(), Received();
      UpdateAlive(was, pcb, w);
      Looks(pcb);
      var c := clients[pcbs[pcb]];
      if c.closed && !c.MoreToSend() {
        var more := CloseOpen(pcb, t);
        WithinThen(Received(), r1, r0);
        assert Framed();
        DoneThen(was, pcb, w, mid, calls, CloseClient(w.client, t), View(), more);
        calls := calls + more;
      }
    }

    /** `send_buffer`. */
    method SendBuffer(pcb: nat, bytes: seq<byte>, close: bool, t: Tcp) returns (calls: seq<Call>)
      requires Valid()
      modifies Repr
      ensures Valid() && Framed()
      ensures var was := old(View());
              Registered(was, pcb) ==>
                && Sane(ClientAt(was, pcb).queue)
                && Done(was, pcb, SendNow(ClientAt(was, pcb), bytes, close, t), View(), calls)
      ensures !Registered(old(View()), pcb) ==> View() == old(View()) && calls == []
    {
      hide Consistent, ClientRec.Valid, ClientRec.View, Views, Valid, View, Update, SendNow, WriteNext, Sane;
      hide Registered, ClientAt, Within, Received, Buffers, Framed;
      var c := FindClient(pcb);
      calls := [];
      if c == null {
        FewerFramed();
      } else {
        calls := SendRegistered(pcb, bytes, close, t);
      }
    }

    method SendRegistered(pcb: nat, bytes: seq<byte>, close: bool, t: Tcp) returns (calls: seq<Call>)
      requires Valid() && Registered(View(), pcb)
      modifies Repr
      ensures Valid() && Framed()
      ensures Sane(ClientAt(old(View()), pcb).queue)
      ensures Done(old(View()), pcb, SendNow(ClientAt(old(View()), pcb), bytes, close, t), View(), calls)
    {
      hide Consistent, ClientRec.Valid, ClientRec.View, Views, Valid, View, Update, SendNow, WriteNext, Sane;
      hide Registered, ClientAt, Within, Received, Buffers;
      ghost var was, r0 := View(), Received();
      ValidIs();
      OwnPcb(was, pcb);
      QueueSteps(was, pcb, bytes, close, t);
      var data := bytes[..|bytes| % 0x1_0000];
      ghost var q := ClientAt(was, pcb).(queue := ClientAt(was, pcb).queue + [Buf(data, 0, 0)]);
      QueueOn(pcb, data);
      ghost var mid, r1 := View(), Received();
      calls := WriteOn(pcb, t);
      WithinThen(Received(), r1, r0);
      assert Framed();
      DoneThen(was, pcb, Out(q, true, [Queued(data, close)]), mid, [Queued(data, close)], WriteNext(q, t), View(),
               calls);
      calls := [Queued(data, close)] + calls;
    }

    /** Sending to a client by way of the control block it knows. */
    method SendOwn(pcb: nat, bytes: seq<byte>, close: bool, t: Tcp) returns (calls: seq<Call>)
      requires Valid() && Registered(View(), pcb)
      modifies Repr
      ensures Valid() && Framed()
      ensures Sane(ClientAt(old(View()), pcb).queue)
      ensures Done(old(View()), pcb, Send(ClientAt(old(View()), pcb), bytes, close, t), View(), calls)
    {
      hide Consistent, ClientRec.Valid, ClientRec.View, Views, Valid, View, Update, SendNow, Sane, Registered;
      hide ClientAt, Within, Received, Buffers, Framed, Done;
      ValidIs();
      OwnPcb(View(), pcb);
      Looks(pcb);
      if ClientAt(View(), pcb).pcb == NULL {
        SendToClosed(View(), pcb, bytes, close, t);
      }
      calls := SendBuffer(clients[pcbs[pcb]].pcb, bytes, close, t);
    }

    /** `setWSCloseSent` on one client. */
    method CloseSentOn(pcb: nat)
      requires Valid() && Registered(View(), pcb)
      modifies Repr
      ensures Valid() && Framed()
      ensures View() == Update(old(View()), pcb, Out(ClientAt(old(View()), pcb).(wsCloseSent := true), true, []))
    {
      hide Consistent, ClientRec.Valid, ClientRec.View, Views, Valid, Framed, View, Update;
      OthersApart(pcb);
      ValidIs();
      clients[pcbs[pcb]].MarkCloseSent();
      OneClient(pcb);
    }

    /** `send_websocket`, without a mask. */
    method SendWebSocket(pcb: nat, opcode: nat, payload: Payload, close: bool, t: Tcp) returns (calls: seq<Call>)
      requires Valid() && Registered(View(), pcb) && opcode < 16
      modifies Repr
      ensures Valid() && Framed()
      ensures Sane(ClientAt(old(View()), pcb).queue)
              && Done(old(View()), pcb, Send(ClientAt(old(View()), pcb), WebSocketPacket(opcode, payload), close, t),
                      View(), calls)
    {
      hide Consistent, ClientRec.Valid, ClientRec.View, Views, Valid, View, Update, Send, Sane, Registered, ClientAt;
      hide Within, Received, Done, Frame.Encode, Frame.Valid;
      ghost var r0 := Received();
      var msg := WsCodec.BuildPacket(opcode, payload, false, [0, 0, 0, 0]);
      forall h | h in clients
        ensures unchanged(clients[h]) && clients[h].View() == old(clients[h].View())
        ensures clients[h].Valid() == old(clients[h].Valid())
      {
        assert forall b :: b in clients[h].sendbuf ==> unchanged(b);
      }
      NothingChanged();
      ghost var r1 := Received();
      calls := SendOwn(pcb, msg, close, t);
      WithinThen(Received(), r1, r0);
      assert Framed();
    }

    /** Sending a close frame, with the note that it was sent. */
    method SendCloseOn(pcb: nat, payload: Payload, t: Tcp) returns (calls: seq<Call>)
      requires Valid() && Registered(View(), pcb)
      modifies Repr
      ensures Valid() && Framed()
      ensures Sane(ClientAt(old(View()), pcb).queue)
      ensures Done(old(View()), pcb, SendClose(ClientAt(old(View()), pcb), payload, t), View(), calls)
    {
      hide Consistent, ClientRec.Valid, ClientRec.View, Views, Valid, View, Update, Send, Sane, Registered, ClientAt;
      hide Within, Received, Buffers, WebSocketPacket, SendClose, Done;
      ghost var was, r0 := View(), Received();
      Looks(pcb);
      ghost var c := ClientAt(was, pcb).(wsCloseSent := true);
      SendCloseIs(ClientAt(was, pcb), payload, t);
      DoneAfter(was, pcb, c, Out(c, true, []), was, []);
      CloseSentOn(pcb);
      ghost var r1 := Received();
      calls := SendWebSocket(pcb, OPCODE_CLOSE, payload, true, t);
      WithinThen(Received(), r1, r0);
      assert Framed();
      DoneAfter(was, pcb, c, Send(c, WebSocketPacket(OPCODE_CLOSE, payload), true, t), View(), calls);
    }

    /** `tcp_server_sent` for a registered client. */
    method SentOn(pcb: nat, count: nat, t: Tcp) returns (calls: seq<Call>)
      requires Valid() && Registered(View(), pcb)
      modifies Repr
      ensures Valid() && Framed()
      ensures Sane(ClientAt(old(View()), pcb).queue)
      ensures Done(old(View()), pcb, Sent(ClientAt(old(View()), pcb), count, t), View(), calls)
    {
      hide Consistent, ClientRec.Valid, ClientRec.View, Views, Valid, View, Update, WriteNext, Acknowledge, Sane;
      hide Registered, ClientAt, Within, Received, Buffers, Done;
      ghost var was, r0 := View(), Received();
      Looks(pcb);
      ghost var c := ClientAt(was, pcb);
      ghost var d := c.(queue := Acknowledge(c.queue, count));
      DoneAfter(was, pcb, d, WriteNext(d, t), was, []);
      AcknowledgeOn(pcb, count);
      ghost var r1 := Received();
      calls := WriteOn(pcb, t);
      WithinThen(Received(), r1, r0);
      assert Framed();
      DoneAfter(was, pcb, d, WriteNext(d, t), View(), calls);
    }

    /** `tcp_server_sent`. */
    method TcpSent(pcb: nat, count: nat, t: Tcp) returns (calls: seq<Call>)
      requires Valid()
      modifies Repr
      ensures Valid() && Framed() && Consistent(old(View()))
      ensures View() == OnClient(old(View()), pcb, SentByTcp(count, t))
      ensures calls == CallsOn(old(View()), pcb, SentByTcp(count, t))
    {
      hide Consistent, ClientRec.Valid, ClientRec.View, Views, Valid, View, Update, Sent, Sane, ClientAt, Within;
      hide Received, Buffers, Done;
      ghost var was := View();
      ValidIs();
      calls := [];
      if FindClient(pcb) == null {
        WithinSame(Received());
      } else {
        Looks(pcb);
        calls := SentOn(pcb, count, t);
        SameAsEvent(was, pcb, SentByTcp(count, t), Sent(ClientAt(was, pcb), count, t), View(), calls);
      }
    }

    /** `mark_for_close` by the client's own control block: nothing if the client is closed. */
    method MarkOwn(pcb: nat)
      requires Valid() && Registered(View(), pcb)
      modifies Repr
      ensures Valid() && Framed()
      ensures var c := ClientAt(old(View()), pcb);
              Done(old(View()), pcb, Out(if c.pcb == NULL then c else SetClosed(c), true, []), View(), [])
    {
      hide Consistent, ClientRec.Valid, ClientRec.View, Views, Valid, View, Update, Sane, Registered, ClientAt;
      hide Framed, Buffers, Done;
      ValidIs();
      OwnPcb(View(), pcb);
      Looks(pcb);
      UnchangedIsDone(View(), pcb);
      MarkForClose(clients[pcbs[pcb]].pcb);
    }

    /** The close that answers a close frame: `send_websocket` unless one was sent, then
        `mark_for_close`.
     */
    method AnswerClose(pcb: nat, payload: Payload, t: Tcp) returns (calls: seq<Call>)
      requires Valid() && Registered(View(), pcb)
      modifies Repr
      ensures Valid() && Framed()
      ensures Sane(ClientAt(old(View()), pcb).queue)
      ensures Done(old(View()), pcb, Process(ClientAt(old(View()), pcb), OPCODE_CLOSE, payload, t), View(), calls)
    {
      hide Consistent, ClientRec.Valid, ClientRec.View, Views, Valid, View, Update, Process, SendClose, Sane;
      hide Registered, ClientAt, Within, Received, Buffers, Done, WebSocketPacket;
      ghost var was, r0 := View(), Received();
      Looks(pcb);
      ghost var c := ClientAt(was, pcb);
      ProcessIs(c, OPCODE_CLOSE, payload, t);
      UnchangedIsDone(was, pcb);
      WithinSame(r0);
      calls := [];
      if !clients[pcbs[pcb]].wsCloseSent {
        calls := SendCloseOn(pcb, payload, t);
      }
      ghost var s := if c.wsCloseSent then Out(c, true, []) else SendClose(c, payload, t);
      ghost var mid, r1 := View(), Received();
      StillThere(was, pcb, s, mid, calls);
      MarkOwn(pcb);
      WithinThen(Received(), r1, r0);
      assert Framed();
      ghost var m := Out(if c.pcb == NULL then s.client else SetClosed(s.client), true, []);
      DoneThen(was, pcb, s, mid, calls, m, View(), []);
      assert calls + [] == calls;
    }

    /** `process_websocket` for one frame. */
    method ProcessFrame(pcb: nat, opcode: nat, payload: Payload, t: Tcp) returns (calls: seq<Call>)
      requires Valid() && Registered(View(), pcb)
      modifies Repr
      ensures Valid() && Framed()
      ensures Sane(ClientAt(old(View()), pcb).queue)
      ensures Done(old(View()), pcb, Process(ClientAt(old(View()), pcb), opcode, payload, t), View(), calls)
    {
      hide Consistent, ClientRec.Valid, ClientRec.View, Views, Valid, View, Update, Process, SendClose, Send, Sane;
      hide Registered, ClientAt, Within, Received, Buffers, Done, WebSocketPacket;
      ValidIs();
      Looks(pcb);
      ProcessIs(ClientAt(View(), pcb), opcode, payload, t);
      calls := [];
      if opcode == OPCODE_PING {
        calls := SendWebSocket(pcb, OPCODE_PONG, payload, false, t);
      } else if opcode == OPCODE_CLOSE {
        calls := AnswerClose(pcb, payload, t);
      } else {
        UnchangedIsDone(View(), pcb);
        WithinSame(Received());
      }
    }

    /** The idle check of the poll callback; `idle` is what the clock says. */
    method CheckIdle(pcb: nat, idle: bool, t: Tcp) returns (calls: seq<Call>)
      requires Valid() && Registered(View(), pcb) && ClientAt(View(), pcb).pcb == pcb
      modifies Repr
      ensures Valid() && Framed()
      ensures Sane(ClientAt(old(View()), pcb).queue)
      ensures Done(old(View()), pcb, IdleCheck(ClientAt(old(View()), pcb), idle, t), View(), calls)
    {
      hide Consistent, ClientRec.Valid, ClientRec.View, Views, Valid, View, Update, SendClose, Sane, Registered;
      hide ClientAt, Within, Received, Buffers, Done;
      ValidIs();
      Looks(pcb);
      UnchangedIsDone(View(), pcb);
      WithinSame(Received());
      calls := [];
      var c := clients[pcbs[pcb]];
      if idle && !c.closed {
        if c.websocket && !c.wsCloseSent {
          calls := SendCloseOn(pcb, [], t);
        } else {
          MarkForClose(pcb);
        }
      }
    }

    /** `tcp_server_poll` when the client is still open. */
    method PollOpen(pcb: nat, idle: bool, write: Tcp, send: Tcp, close: Tcp) returns (calls: seq<Call>)
      requires Valid() && Registered(View(), pcb) && ClientAt(View(), pcb).pcb == pcb != NULL
      modifies Repr
      ensures Valid() && Framed()
      ensures Sane(ClientAt(old(View()), pcb).queue)
      ensures Done(old(View()), pcb, Poll(ClientAt(old(View()), pcb), idle, write, send, close), View(), calls)
    {
      hide Consistent, ClientRec.Valid, ClientRec.View, Views, Valid, View, Update, IdleCheck, Poll, WriteNext;
      hide CloseClient, Sane, Registered, ClientAt, Within, Received, Buffers, Done;
      ghost var was, r0 := View(), Received();
      ValidIs();
      Looks(pcb);
      ghost var c := ClientAt(was, pcb);
      PollIs(c, idle, write, send, close);
      UnchangedIsDone(was, pcb);
      WithinSame(r0);
      calls := [];
      var still := idle && (!clients[pcbs[pcb]].MoreToSend() || clients[pcbs[pcb]].wsCloseSent);
      if clients[pcbs[pcb]].MoreToSend() {
        calls := WriteOn(pcb, write);
      }
      ghost var a := if c.queue != [] then WriteNext(c, write) else Out(c, true, []);
      ghost var w1, r1 := View(), Received();
      StillThere(was, pcb, a, w1, calls);
      var more := CheckIdle(pcb, still, send);
      WithinThen(Received(), r1, r0);
      assert Framed();
      ghost var i := IdleCheck(a.client, StillIdle(c, idle), send);
      DoneThen(was, pcb, a, w1, calls, i, View(), more);
      calls := calls + more;
      ghost var w2, r2 := View(), Received();
      StillThere(was, pcb, Connection.Then(a, i), w2, calls);
      Looks(pcb);
      if clients[pcbs[pcb]].closed {
        more := CloseOpen(pcb, close);
        WithinThen(Received(), r2, r0);
        assert Framed();
        DoneThen(was, pcb, Connection.Then(a, i), w2, calls, CloseClient(i.client, close), View(), more);
        calls := calls + more;
      }
    }

    /** `tcp_server_poll`. */
    method TcpPoll(pcb: nat, idle: bool, write: Tcp, send: Tcp, close: Tcp) returns (calls: seq<Call>)
      requires Valid()
      modifies Repr
      ensures Valid() && Framed() && Consistent(old(View()))
      ensures var e := PollTimer(idle, write, send, close);
              View() == OnClient(old(View()), pcb, e) && calls == CallsOn(old(View()), pcb, e)
    {
      hide Consistent, ClientRec.Valid, ClientRec.View, Views, Valid, View, Update, Poll, CloseClient, Sane, ClientAt;
      hide Within, Received, Buffers, Done;
      ghost var was := View();
      ValidIs();
      calls := [];
      var c := FindClient(pcb);
      if c == null {
        WithinSame(Received());
      } else {
        Looks(pcb);
        OwnPcb(was, pcb);
        PollIs(ClientAt(was, pcb), idle, write, send, close);
        if c.pcb == pcb {
          calls := PollOpen(pcb, idle, write, send, close);
        } else {
          calls := CloseOpen(pcb, close);
        }
        SameAsEvent(was, pcb, PollTimer(idle, write, send, close),
                    Poll(ClientAt(was, pcb), idle, write, send, close), View(), calls);
      }
    }

    /** `tcp_server_err`. */
    method TcpErr(pcb: nat)
      requires Valid()
      modifies Repr
      ensures Valid() && Framed() && Consistent(old(View()))
      ensures View() == OnClient(old(View()), pcb, Failed) && CallsOn(old(View()), pcb, Failed) == []
      ensures View() == Delete(old(View()), pcb) && Gone(pcb)
    {
      hide Consistent, ClientRec.Valid, ClientRec.View, Views, Valid, View, Delete, Sane, ClientAt, Within, Received;
      hide Buffers;
      ValidIs();
      if pcb in pcbs { RegisteredIn(View(), pcb); }
      NothingDeleted(View(), pcb);
      if FindClient(pcb) != null {
        DeleteClient(pcb);
      } else {
        FewerFramed();
      }
    }

    /** Receiving into one client's request buffer changes nothing else. */
    twostate lemma RequestOnly(pcb: nat)
      requires old(Valid()) && pcb in pcbs && pcbs[pcb] in clients
      requires pcbs == old(pcbs) && clients == old(clients) && nextHandle == old(nextHandle) && Repr == old(Repr)
      requires forall h :: h in clients ==> clients[h].sendbuf == old(clients[h].sendbuf)
      requires forall h :: h in clients ==> clients[h].View() == old(clients[h].View())
      requires forall h :: h in clients ==> clients[h].Valid() == old(clients[h].Valid())
      requires forall h :: h in clients && h != pcbs[pcb] ==> unchanged(clients[h])
      ensures Valid() && View() == old(View()) && FramedBut(pcbs[pcb])
    {
      hide ClientRec.View, ClientRec.Valid, Apart, Consistent;
      OneClientCovered(pcb);
      assert View().clients == old(View()).clients;
    }

    method AddOn(pcb: nat, chunk: seq<byte>)
      requires Valid() && Registered(View(), pcb)
      modifies Repr
      ensures Valid() && View() == old(View()) && FramedBut(pcbs[pcb]) && pcbs == old(pcbs) && clients == old(clients)
      ensures clients[pcbs[pcb]].rqst == old(clients[pcbs[pcb]].rqst) + chunk
    {
      hide Consistent, ClientRec.Valid, ClientRec.View, Views, Valid, FramedBut, View;
      ValidIs();
      OthersApart(pcb);
      clients[pcbs[pcb]].AddToRqst(chunk);
      RequestOnly(pcb);
    }

    /** A look at the buffer. At a wrapped length the loop is cut off. */
    method ReadyOn(pcb: nat, c: ClientRec) returns (ready: bool, cut: bool)
      requires Valid() && Registered(View(), pcb) && c == clients[pcbs[pcb]] && |c.rqst| < 0xffff_fff0
      modifies Repr
      ensures Valid() && View() == old(View()) && FramedBut(pcbs[pcb]) && pcbs == old(pcbs) && clients == old(clients)
      ensures |c.rqst| == |old(c.rqst)| && (ready ==> c.Stands())
      ensures c.Ahead(ready, cut) == Drain(old(c.rqst))
    {
      hide Consistent, ClientRec.Valid, ClientRec.View, Views, Valid, FramedBut, View, Parse;
      ValidIs();
      OthersApart(pcb);
      ghost var parsed := Parse(c.rqst);
      ready, cut := c.RqstIsReady();
      RequestOnly(pcb);
      if ready && !c.Stands() {
        ready, cut := false, true;
      }
      if ready {
        DrainReady(old(c.rqst), parsed);
      } else {
        DrainStops(old(c.rqst));
      }
    }

    method ResetOn(pcb: nat)
      requires Valid() && Registered(View(), pcb) && clients[pcbs[pcb]].Stands()
      modifies Repr
      ensures Valid() && View() == old(View()) && FramedBut(pcbs[pcb]) && pcbs == old(pcbs) && clients == old(clients)
      ensures var c, end := clients[pcbs[pcb]], old(clients[pcbs[pcb]].wshdr.start + clients[pcbs[pcb]].wshdr.length);
              c.rqst == old(c.rqst)[end..]
    {
      hide Consistent, ClientRec.Valid, ClientRec.View, Views, Valid, FramedBut, View;
      ValidIs();
      OthersApart(pcb);
      clients[pcbs[pcb]].ResetRqst();
      RequestOnly(pcb);
    }

    /** `process_websocket` for the frame that stands ready in the request buffer. The client is
        still registered afterwards, with its buffer as it was.
     */
    method DeliverFront(pcb: nat, c: ClientRec, t: Tcp) returns (m: Message, calls: seq<Call>)
      requires Valid() && Registered(View(), pcb) && c == clients[pcbs[pcb]] && c.Stands()
      modifies Repr
      ensures Valid() && Framed() && Registered(View(), pcb) && pcbs == old(pcbs) && clients[pcbs[pcb]] == c
      ensures c.rqst == old(c.rqst) && c.wshdr == old(c.wshdr) && c.Stands() && m == c.Front()
      ensures Delivered(old(View()), pcb, m, t, View(), calls)
    {
      hide Consistent, ClientRec.Valid, ClientRec.View, Views, Valid, View, Process, Sane, ClientAt, Within, Buffers;
      hide Done, OnClient, CallsOn;
      ghost var was, r0 := View(), Received();
      ValidIs();
      Looks(pcb);
      m := c.Front();
      calls := ProcessFrame(pcb, m.opcode, m.payload, t);
      ghost var o, after := Process(ClientAt(was, pcb), m.opcode, m.payload, t), View();
      FrameKeepsClient(was, pcb, m.opcode, m.payload, t);
      StillThere(was, pcb, o, after, calls);
      SameAsEvent(was, pcb, FrameReceived(m.opcode, m.payload, t), o, after, calls);
      SamePlace(was, pcb, o, after, calls);
      WithinAt(Received(), r0, pcbs[pcb]);
    }

    /** Delivers that frame and erases it. */
    method Deliver(pcb: nat, c: ClientRec, t: Tcp) returns (m: Message, calls: seq<Call>)
      requires Valid() && Registered(View(), pcb) && c == clients[pcbs[pcb]] && c.Stands()
      modifies Repr
      ensures Valid() && FramedBut(old(pcbs[pcb])) && Registered(View(), pcb) && pcbs == old(pcbs)
      ensures clients[pcbs[pcb]] == c
      ensures m == old(c.Front()) && c.rqst == old(c.rqst)[old(c.wshdr.start + c.wshdr.length)..]
      ensures Delivered(old(View()), pcb, m, t, View(), calls)
    {
      hide Consistent, ClientRec.Valid, ClientRec.View, Views, Valid, View, Within, Received, Buffers, OnClient;
      hide CallsOn, Delivered;
      ghost var r0, h := Received(), pcbs[pcb];
      m, calls := DeliverFront(pcb, c, t);
      ghost var r1 := Received();
      WithinWeaken(r1, r0, h);
      assert FramedBut(h);
      ResetOn(pcb);
      WithinBut(Received(), r1, r0, h);
      assert FramedBut(h);
    }

    /** The receive loop of an upgraded connection. */
    method DeliverAll(pcb: nat, c: ClientRec, tcp: nat -> Tcp)
      returns (messages: seq<Message>, cut: bool, calls: seq<Call>)
      requires Valid() && Registered(View(), pcb) && c == clients[pcbs[pcb]] && |c.rqst| < 0xffff_fff0
      modifies Repr
      ensures Valid() && FramedBut(old(pcbs[pcb])) && Registered(View(), pcb) && clients[pcbs[pcb]] == c
      ensures Drained(messages, c.rqst, cut) == Drain(old(c.rqst))
      ensures AllDelivered(old(View()), pcb, messages, tcp, View(), calls)
    {
      hide Consistent, ClientRec.Valid, ClientRec.View, Views, Valid, View, ClientAt, Within, Received, Buffers;
      hide Drain, Delivered, AllDelivered, ClientRec.Stands, ClientRec.Front, ClientRec.Ahead;
      ghost var was, r0, h := View(), Received(), pcbs[pcb];
      ValidIs();
      ghost var all := Drain(c.rqst);
      messages, calls := [], [];
      NothingDelivered(was, pcb, tcp);
      ThenAssociates([], [], all);
      var ready;
      ready, cut := ReadyOn(pcb, c);
      while ready
        invariant Valid() && FramedBut(h) && Registered(View(), pcb) && pcbs == old(pcbs) && clients[h] == c
        invariant |c.rqst| < 0xffff_fff0 && (ready ==> c.Stands())
        invariant AllDelivered(was, pcb, messages, tcp, View(), calls)
        invariant all == WsStream.Then(messages, c.Ahead(ready, cut))
        decreases |c.rqst|
      {
        ghost var before, r1 := View(), Received();
        AheadIs(c, cut);
        var m, more;
        m, more, ready, cut := DeliverNext(pcb, c, tcp(|messages|));
        WithinBut(Received(), r1, r0, h);
        assert FramedBut(h);
        OneDeliveredMore(was, pcb, messages, tcp, before, calls, m, View(), more);
        ThenAssociates(messages, [m], c.Ahead(ready, cut));
        messages, calls := messages + [m], calls + more;
      }
      AheadIs(c, cut);
      assert messages + [] == messages;
    }

    /** One round of the loop, up to the next look at the buffer. */
    method DeliverNext(pcb: nat, c: ClientRec, t: Tcp) returns (m: Message, calls: seq<Call>, ready: bool, cut: bool)
      requires Valid() && Registered(View(), pcb) && c == clients[pcbs[pcb]] && c.Stands()
      modifies Repr
      ensures Valid() && FramedBut(old(pcbs[pcb])) && Registered(View(), pcb) && pcbs == old(pcbs)
      ensures clients[pcbs[pcb]] == c
      ensures |c.rqst| < old(|c.rqst|) < 0xffff_fff0 && (ready ==> c.Stands())
      ensures old(c.Ahead(true, false)) == WsStream.Then([m], c.Ahead(ready, cut))
      ensures Delivered(old(View()), pcb, m, t, View(), calls)
    {
      hide Consistent, ClientRec.Valid, ClientRec.View, Views, Valid, View, ClientAt, Within, Received, Buffers;
      hide Drain, Delivered, ClientRec.Front;
      ghost var r0, h := Received(), pcbs[pcb];
      AheadIs(c, false);
      m, calls := Deliver(pcb, c, t);
      ghost var r1 := Received();
      ready, cut := ReadyOn(pcb, c);
      WithinBut(Received(), r1, r0, h);
      assert FramedBut(h);
    }

    /** The receive callback for data on an upgraded connection. The loop delivers exactly the
        messages that the stream holds, each through `process_websocket`.
     */
    method TcpData(pcb: nat, chunk: seq<byte>, tcp: nat -> Tcp)
      returns (messages: seq<Message>, cut: bool, calls: seq<Call>)
      requires Valid() && Registered(View(), pcb) && clients[pcbs[pcb]].websocket
      requires |clients[pcbs[pcb]].rqst| + |chunk| < 0xffff_fff0
      modifies Repr
      ensures Valid() && FramedBut(old(pcbs[pcb])) && Registered(View(), pcb)
      ensures clients[pcbs[pcb]] == old(clients[pcbs[pcb]])
      ensures Drained(messages, clients[pcbs[pcb]].rqst, cut) == Drain(old(clients[pcbs[pcb]].rqst) + chunk)
      ensures AllDelivered(old(View()), pcb, messages, tcp, View(), calls)
    {
      hide Consistent, ClientRec.Valid, ClientRec.View, Views, Valid, View, ClientAt, Within, Received, Buffers;
      hide Drain, AllDelivered;
      ghost var r0, h := Received(), pcbs[pcb];
      var c := clients[pcbs[pcb]];
      AddOn(pcb, chunk);
      ghost var r1 := Received();
      messages, cut, calls := DeliverAll(pcb, c, tcp);
      WithinBut(Received(), r1, r0, h);
      assert FramedBut(h);
    }

    /** `close_client` for a connection that the peer has closed. */
    method CloseBackOn(pcb: nat) returns (calls: seq<Call>)
      requires Valid() && Registered(View(), pcb)
      modifies Repr
      ensures Valid() && Framed()
      ensures Done(old(View()), pcb, Out(SetClosed(ClientAt(old(View()), pcb)), false, [CloseBack]), View(), calls)
    {
      hide Consistent, ClientRec.Valid, ClientRec.View, Views, Valid, View, Delete, Update, Sane, Within, Received;
      hide Buffers;
      ghost var was, r0 := View(), Received();
      ghost var marked := Out(SetClosed(ClientAt(was, pcb)), true, []);
      UpdateThenDelete(was, pcb, marked, Out(marked.client, false, [CloseBack]));
      calls := [CloseBack];
      MarkForClose(pcb);
      ghost var r1 := Received();
      ValidIs();
      DeleteClient(pcb);
      WithinThen(Received(), r1, r0);
      assert Framed();
    }

    /** `close_client`, also for a control block that no client has. */
    method Close(pcb: nat, isClosed: bool, t: Tcp) returns (calls: seq<Call>)
      requires Valid()
      modifies Repr
      ensures Valid() && Framed()
      ensures var was := old(View());
              if !Registered(was, pcb) then View() == was && calls == (if isClosed then [] else [CloseCall(t.closes)])
              else if isClosed then
                Done(was, pcb, Out(SetClosed(ClientAt(was, pcb)), false, [CloseBack]), View(), calls)
              else Sane(ClientAt(was, pcb).queue) && Done(was, pcb, CloseClient(ClientAt(was, pcb), t), View(), calls)
    {
      hide Consistent, ClientRec.Valid, ClientRec.View, Views, Valid, View, Update, CloseClient, Sane, Within, Received;
      hide Buffers, Done, ClientAt;
      WithinSame(Received());
      calls := [];
      if FindClient(pcb) == null {
        if !isClosed {
          calls := [CloseCall(t.closes)];
        }
      } else {
        Looks(pcb);
        if isClosed {
          calls := CloseBackOn(pcb);
        } else {
          calls := CloseOpen(pcb, t);
        }
      }
    }

    /** The receive callback without data: the peer has closed. */
    method TcpClosed(pcb: nat) returns (calls: seq<Call>)
      requires Valid()
      modifies Repr
      ensures Valid() && Framed() && Consistent(old(View()))
      ensures View() == OnClient(old(View()), pcb, PeerClosed) && calls == CallsOn(old(View()), pcb, PeerClosed)
      ensures pcb !in pcbs && (pcb in old(pcbs) ==> old(pcbs)[pcb] !in clients && calls == [CloseBack])
    {
      hide Consistent, ClientRec.Valid, ClientRec.View, Views, Valid, View, Update, Sane, Within, Received, Buffers;
      hide Done, ClientAt;
      ghost var was := View();
      WithinSame(Received());
      ValidIs();
      calls := [];
      if FindClient(pcb) != null {
        Looks(pcb);
        calls := CloseBackOn(pcb);
        SameAsEvent(was, pcb, PeerClosed, Out(SetClosed(ClientAt(was, pcb)), false, [CloseBack]), View(), calls);
      }
      EndRemoves(was, pcb, PeerClosed);
    }

    /** `tcp_server_accept`. */
    method Accept(pcb: nat, ok: bool) returns (accepted: bool)
      requires Valid() && |clients| < U32 - FIRST_HANDLE
      modifies this
      ensures Valid() && accepted == (ok && pcb != NULL)
      ensures !accepted || pcb in old(pcbs) ==> View() == old(View()) && Framed()
      ensures accepted && pcb !in old(pcbs) ==> View() == Add(old(View()), pcb, nextHandle) && fresh(Repr - old(Repr))
      ensures accepted && pcb !in old(pcbs) ==>
                exists steps :: NextFree(old(clients).Keys, old(nextHandle), nextHandle, steps)
    {
      hide Consistent, ClientRec.Valid, ClientRec.View, Views, Valid, Framed, Add, NextFree;
      accepted := ok && pcb != NULL;
      if accepted {
        var _ := AddClient(pcb);
      } else {
        FewerFramed();
      }
    }

    /** `send_data` for the handle of a client, by way of its own control block. */
    method SendData(handle: nat, data: seq<byte>, t: Tcp) returns (calls: seq<Call>)
      requires Valid() && handle in clients
      modifies Repr
      ensures Valid() && Framed() && Consistent(old(View()))
      ensures exists pcb ::
        && pcb in old(pcbs) && old(pcbs)[pcb] == handle
        && View() == OnClient(old(View()), pcb, AppSend(data, t))
        && calls == CallsOn(old(View()), pcb, AppSend(data, t))
    {
      hide Consistent, ClientRec.Valid, ClientRec.View, Views, Valid, View, SendNow, Sane, ClientAt, Within, Received;
      hide Buffers, Framed, Done, Update;
      ValidIs();
      ghost var was := View();
      HandleHasPcb(was, handle);
      ghost var key :| Registered(was, key) && was.pcbs[key] == handle;
      OwnPcb(was, key);
      Looks(key);
      var own := clients[handle].pcb;
      calls := [];
      var c := FindClient(own);
      if c == clients[handle] {
        calls := SendBuffer(own, data, false, t);
        SameAsEvent(was, key, AppSend(data, t), Send(ClientAt(was, key), data, false, t), View(), calls);
      } else {
        SendToClosed(was, key, data, false, t);
        SameAsEvent(was, key, AppSend(data, t), Send(ClientAt(was, key), data, false, t), was, []);
        FewerFramed();
      }
    }

    /** `send_message`: the text as one unmasked frame. */
    method SendMessage(handle: nat, message: Payload, t: Tcp) returns (calls: seq<Call>)
      requires Valid() && handle in clients
      modifies Repr
      ensures Valid() && Framed() && Consistent(old(View()))
      ensures exists pcb ::
        && pcb in old(pcbs) && old(pcbs)[pcb] == handle
        && View() == OnClient(old(View()), pcb, AppSend(WebSocketPacket(OPCODE_TEXT, message), t))
        && calls == CallsOn(old(View()), pcb, AppSend(WebSocketPacket(OPCODE_TEXT, message), t))
    {
      hide Consistent, ClientRec.Valid, ClientRec.View, Views, Valid, View, OnClient, CallsOn, Within, Received;
      hide Frame.Encode, Frame.Valid;
      ghost var r0 := Received();
      var msg := WsCodec.BuildPacket(OPCODE_TEXT, message, false, [0, 0, 0, 0]);
      forall h | h in clients
        ensures unchanged(clients[h]) && clients[h].View() == old(clients[h].View())
        ensures clients[h].Valid() == old(clients[h].Valid())
      {
        assert forall b :: b in clients[h].sendbuf ==> unchanged(b);
      }
      NothingChanged();
      ghost var r1 := Received();
      calls := SendData(handle, msg, t);
      WithinThen(Received(), r1, r0);
      assert Framed();
    }

    /** One client's turn in a broadcast. */
    method SendIfUpgraded(handle: nat, text: Payload, t: Tcp) returns (calls: seq<Call>)
      requires Valid() && handle in clients
      modifies Repr
      ensures Valid() && Framed()
      ensures SentOne(old(View()), handle, WebSocketPacket(OPCODE_TEXT, text), t, View(), calls)
    {
      hide Consistent, ClientRec.Valid, ClientRec.View, Views, Valid, OnClient, CallsOn, Within, Received, View;
      hide Buffers, Send, Sane, WebSocketPacket, Framed;
      ghost var w, bytes := View(), WebSocketPacket(OPCODE_TEXT, text);
      ValidIs();
      HandleHasPcb(w, handle);
      ghost var key :| Registered(w, key) && w.pcbs[key] == handle;
      Looks(key);
      calls := [];
      if clients[handle].websocket {
        calls := SendMessage(handle, text, t);
        ghost var pcb :| && pcb in w.pcbs && w.pcbs[pcb] == handle && View() == OnClient(w, pcb, AppSend(bytes, t))
                         && calls == CallsOn(w, pcb, AppSend(bytes, t));
        RegisteredIn(w, pcb);
        SendIs(w, pcb, bytes, t);
      } else {
        FewerFramed();
      }
    }

    /** `broadcast_websocket`: in the order of their handles every upgraded client is sent the text
        once, the others nothing; and sending takes no client out of the map that is being walked.
        `tcp` gives TCP's answers.
     */
    method Broadcast(text: Payload, tcp: nat -> Tcp) returns (calls: seq<Call>)
      requires Valid()
      modifies Repr
      ensures Valid() && Framed()
      ensures SentTo(old(View()), {}, WebSocketPacket(OPCODE_TEXT, text), tcp, View())
      ensures calls == BroadcastCalls(old(View()), old(clients).Keys, WebSocketPacket(OPCODE_TEXT, text), tcp)
    {
      hide Consistent, ClientRec.Valid, ClientRec.View, Views, Valid, Within, Received, SentTo, SentOne;
      hide WebSocketPacket;
      hide View, Buffers, Registered, Registry.Update, Done, CallsFor, BroadcastCalls;
      ghost var was, r0, bytes := View(), Received(), WebSocketPacket(OPCODE_TEXT, text);
      ValidIs();
      WithinSame(r0);
      calls := [];
      var todo := clients.Keys;
      SentToNone(was, todo, bytes, tcp);
      while todo != {}
        invariant Valid() && todo <= was.clients.Keys
        invariant nextHandle == old(nextHandle) && Within(Received(), r0) && fresh(Repr - old(Repr))
        invariant SentTo(was, todo, bytes, tcp, View())
        invariant calls + BroadcastCalls(was, todo, bytes, tcp) == BroadcastCalls(was, was.clients.Keys, bytes, tcp)
        decreases todo
      {
        LeastExists(todo);
        var h :| h in todo && forall x :: x in todo ==> h <= x;
        var more := BroadcastTurn(was, h, todo, text, tcp, r0);
        BroadcastNext(was, todo, h, bytes, tcp, calls, more);
        calls, todo := calls + more, todo - {h};
      }
      BroadcastDone(was, bytes, tcp, calls);
    }

    /** One client's turn among the others. */
    method BroadcastTurn(ghost was: Web, h: nat, ghost todo: set<nat>, text: Payload, tcp: nat -> Tcp,
                         ghost r0: map<nat, (ClientRec, seq<byte>, WsCodec.Header)>)
      returns (calls: seq<Call>)
      requires Valid() && h in todo && todo <= was.clients.Keys && Within(Received(), r0)
      requires SentTo(was, todo, WebSocketPacket(OPCODE_TEXT, text), tcp, View())
      modifies Repr
      ensures Valid() && Within(Received(), r0) && fresh(Repr - old(Repr)) && nextHandle == old(nextHandle)
      ensures SentTo(was, todo - {h}, WebSocketPacket(OPCODE_TEXT, text), tcp, View())
      ensures calls == CallsFor(was, h, WebSocketPacket(OPCODE_TEXT, text), tcp)
    {
      hide Consistent, ClientRec.Valid, ClientRec.View, Views, Valid, Within, Received, SentTo, SentOne;
      hide WebSocketPacket;
      hide View, Buffers, CallsFor;
      ghost var w, r1 := View(), Received();
      SentToKeys(was, todo, WebSocketPacket(OPCODE_TEXT, text), tcp, w);
      calls := SendIfUpgraded(h, text, tcp(h));
      WithinThen(Received(), r1, r0);
      SentToOneMore(was, todo, WebSocketPacket(OPCODE_TEXT, text), tcp, w, h, View(), calls);
    }

    /** `setWebSocket` on one client. */
    method WebSocketOn(pcb: nat)
      requires Valid() && Registered(View(), pcb)
      modifies Repr
      ensures Valid() && Framed()
      ensures Done(old(View()), pcb, Out(ClientAt(old(View()), pcb).(websocket := true), true, []), View(), [])
    {
      hide Consistent, ClientRec.Valid, ClientRec.View, Views, Valid, Framed, View, Update;
      OthersApart(pcb);
      ValidIs();
      clients[pcbs[pcb]].MarkWebSocket();
      OneClient(pcb);
    }

    /** `clearRqst` on one client. */
    method ClearOn(pcb: nat)
      requires Valid() && Registered(View(), pcb)
      modifies Repr
      ensures Valid() && View() == old(View()) && FramedBut(pcbs[pcb]) && pcbs == old(pcbs) && clients == old(clients)
      ensures clients[pcbs[pcb]].rqst == []
    {
      hide Consistent, ClientRec.Valid, ClientRec.View, Views, Valid, FramedBut, View;
      ValidIs();
      OthersApart(pcb);
      clients[pcbs[pcb]].ClearRqst();
      RequestOnly(pcb);
    }

    /** The response of `open_websocket`, and `setWebSocket`. */
    method UpgradeOn(pcb: nat, response: seq<byte>, t: Tcp) returns (calls: seq<Call>)
      requires Valid() && Registered(View(), pcb)
      modifies Repr
      ensures Valid() && Framed() && Registered(View(), pcb) && pcbs == old(pcbs) && Consistent(old(View()))
      ensures View() == OnClient(old(View()), pcb, Upgrade(response, t))
      ensures calls == CallsOn(old(View()), pcb, Upgrade(response, t))
    {
      hide Consistent, ClientRec.Valid, ClientRec.View, Views, Valid, View, Send, Sane, ClientAt, Within, Received;
      hide Buffers, Done, OnClient, CallsOn;
      ghost var was, r0 := View(), Received();
      ValidIs();
      Looks(pcb);
      ghost var s := Send(ClientAt(was, pcb), response, false, t);
      SendKeepsOpen(ClientAt(was, pcb), response, false, t);
      calls := SendOwn(pcb, response, false, t);
      ghost var w1, r1 := View(), Received();
      StillThere(was, pcb, s, w1, calls);
      SamePlace(was, pcb, s, w1, calls);
      WebSocketOn(pcb);
      WithinThen(Received(), r1, r0);
      assert Framed();
      ghost var o := Out(s.client.(websocket := true), true, []);
      StillThere(w1, pcb, o, View(), []);
      SamePlace(w1, pcb, o, View(), []);
      UpgradeDone(was, pcb, response, t, s, w1, calls, o, View());
    }

    /** The end of `open_websocket`, with the handshake response made. */
    method SwitchOn(pcb: nat, response: seq<byte>, t: Tcp) returns (calls: seq<Call>)
      requires Valid() && Registered(View(), pcb)
      modifies Repr
      ensures Valid() && FramedBut(old(pcbs[pcb])) && Registered(View(), pcb) && pcbs == old(pcbs)
      ensures clients[pcbs[pcb]].rqst == [] && Consistent(old(View()))
      ensures View() == OnClient(old(View()), pcb, Upgrade(response, t))
      ensures calls == CallsOn(old(View()), pcb, Upgrade(response, t))
    {
      hide Consistent, ClientRec.Valid, ClientRec.View, Views, Valid, View, ClientAt, Within, Received, Buffers;
      hide OnClient, CallsOn;
      ghost var r0, h := Received(), pcbs[pcb];
      calls := UpgradeOn(pcb, response, t);
      ghost var r1 := Received();
      WithinWeaken(r1, r0, h);
      ClearOn(pcb);
      WithinBut(Received(), r1, r0, h);
      assert FramedBut(h);
    }

    /** `open_websocket`: a proper request is answered and the connection switched, with an empty
        request buffer; another one is left alone; a header without a value throws.
     */
    method OpenWebSocket(pcb: nat, headers: seq<seq<byte>>, accept: seq<byte> -> seq<byte>, t: Tcp)
      returns (answer: Handshake.Answer, calls: seq<Call>)
      requires Valid() && Registered(View(), pcb)
      modifies Repr
      ensures Valid() && FramedBut(old(pcbs[pcb])) && Registered(View(), pcb) && pcbs == old(pcbs)
      ensures Consistent(old(View()))
      ensures answer == Handshake.Answered(headers, accept)
      ensures answer.Switching? ==> clients[pcbs[pcb]].rqst == []
      ensures answer.Switching? ==> View() == OnClient(old(View()), pcb, Upgrade(answer.response, t))
      ensures answer.Switching? ==> calls == CallsOn(old(View()), pcb, Upgrade(answer.response, t))
      ensures !answer.Switching? ==> View() == old(View()) && Framed() && calls == []
    {
      hide Consistent, ClientRec.Valid, ClientRec.View, Views, Valid, View, ClientAt, Within, Received, Buffers;
      hide OnClient;
      hide CallsOn, Handshake.Answered;
      ValidIs();
      WithinSame(Received());
      WithinWeaken(Received(), Received(), pcbs[pcb]);
      calls := [];
      answer := Handshake.Answered(headers, accept);
      if answer.Switching? {
        calls := SwitchOn(pcb, answer.response, t);
      }
    }
  }
}
