/** The queue of buffers waiting to be sent on one connection. A buffer is written to TCP in
    pieces, and leaves the queue when TCP has acknowledged all of it.
 */
module SendQueue {
  import opened Bits

  /** A buffer with the counts of bytes written and acknowledged. */
  datatype Buf = Buf(data: seq<byte>, sent: nat, ack: nat)
  {
    predicate Sane() { sent <= |data| && ack <= |data| }

    /** What holds while TCP acknowledges no more than it was given. */
    predicate Wf() { ack <= sent <= |data| }
  }

  /** A buffer after an operation, and the bytes handed out. */
  datatype Piece = Piece(buf: Buf, bytes: seq<byte>)

  /** A buffer after an acknowledgement, and the part of it left for the next buffer. */
  datatype Acked = Acked(buf: Buf, left: nat)

  function BufNext(b: Buf, count: nat): Piece
    requires b.Sane()
  {
    var n := if count < |b.data| - b.sent then count else |b.data| - b.sent;
    Piece(b.(sent := b.sent + n), b.data[b.sent..b.sent + n])
  }

  /** Takes back bytes that TCP refused, if they are the last ones handed out. */
  function BufRequeue(b: Buf, bytes: seq<byte>): Buf
    requires b.Sane()
  {
    if |bytes| <= b.sent && b.data[b.sent - |bytes|..b.sent] == bytes then b.(sent := b.sent - |bytes|) else b
  }

  function BufAck(b: Buf, count: nat): Acked {
    if b.ack + count > |b.data| then Acked(b.(ack := |b.data|), b.ack + count - |b.data|)
    else Acked(b.(ack := b.ack + count), 0)
  }

  type Queue = seq<Buf>

  predicate Sane(q: Queue) {
    forall i :: 0 <= i < |q| ==> q[i].Sane()
  }

  /** Counts are ordered, and only the front buffer has been touched. */
  predicate Wf(q: Queue) {
    forall i :: 0 <= i < |q| ==> q[i].Wf() && (i > 0 ==> q[i].sent == 0)
  }

  /** The queue after an acknowledgement: finished buffers leave, and what is left over goes on to
      the next one.
   */
  function Acknowledge(q: Queue, count: nat): (r: Queue)
    requires Sane(q)
    ensures Sane(r)
  {
    if q == [] then q else
      var a := BufAck(q[0], count);
      var rest := if a.buf.ack == |a.buf.data| then q[1..] else [a.buf] + q[1..];
      if a.left == 0 then rest else Acknowledge(q[1..], a.left)
  }

  datatype Taken = Taken(queue: Queue, bytes: seq<byte>)

  /** The next piece of at most `count` bytes from the front buffer. */
  function GetNext(q: Queue, count: nat): (r: Taken)
    requires Sane(q)
    ensures Sane(r.queue)
  {
    if count == 0 then Taken(q, []) else
      var q1 := Acknowledge(q, 0);
      if q1 != [] && q1[0].sent < |q1[0].data| then
        var p := BufNext(q1[0], count);
        Taken([p.buf] + q1[1..], p.bytes)
      else Taken(q1, [])
  }

  function Requeue(q: Queue, bytes: seq<byte>): (r: Queue)
    requires Sane(q)
    ensures Sane(r)
  {
    if q == [] then q else [BufRequeue(q[0], bytes)] + q[1..]
  }

  /** All bytes not yet written, in order. */
  function Unsent(q: Queue): seq<byte>
    requires Sane(q)
  {
    if q == [] then [] else q[0].data[q[0].sent..] + Unsent(q[1..])
  }

  /** Bytes written and not yet acknowledged. */
  function InFlight(q: Queue): nat
    requires Wf(q)
  {
    if q == [] then 0 else q[0].sent - q[0].ack
  }

  function Unacked(q: Queue): nat
    requires Sane(q)
  {
    if q == [] then 0 else |q[0].data| - q[0].ack + Unacked(q[1..])
  }

  /** What remains to be done: bytes to write, bytes to be acknowledged, buffers to remove. */
  function Work(q: Queue): nat
    requires Sane(q)
  {
    |Unsent(q)| + Unacked(q) + |q|
  }

  /** Acknowledging conserves the count: it is used up by the buffers' own counts, and only what
      exceeds the whole queue is dropped.
   */
  lemma {:induction false} AcknowledgeConserves(q: Queue, count: nat)
    requires Sane(q)
    ensures var r := Acknowledge(q, count);
            && Unacked(r) <= Unacked(q)
            && (count <= Unacked(q) ==> Unacked(q) - Unacked(r) == count)
            && (count > Unacked(q) ==> r == [])
    decreases |q|
  {
    if q != [] {
      var a := BufAck(q[0], count);
      assert ([a.buf] + q[1..])[1..] == q[1..];
      if a.left > 0 { AcknowledgeConserves(q[1..], a.left); }
    }
  }

  /** While TCP acknowledges only what is in flight, an acknowledgement touches nothing unsent and
      lowers the bytes in flight by its count.
   */
  lemma AcknowledgeFlight(q: Queue, count: nat)
    requires Wf(q) && Sane(q) && count <= InFlight(q)
    ensures var r := Acknowledge(q, count);
            && Wf(r) && Unsent(r) == Unsent(q) && InFlight(r) == InFlight(q) - count
  {
    if q != [] {
      var a := BufAck(q[0], count);
      assert a.left == 0;
      assert ([a.buf] + q[1..])[1..] == q[1..];
      if a.buf.ack == |a.buf.data| {
        assert q[0].data[q[0].sent..] == [];
        if |q| > 1 { assert q[1..][0] == q[1]; }
      }
    }
  }

  /** Taking the next piece moves exactly its bytes from the unsent ones into flight. */
  lemma GetNextMoves(q: Queue, count: nat)
    requires Wf(q) && Sane(q)
    ensures var r := GetNext(q, count);
            && Wf(r.queue) && |r.bytes| <= count
            && Unsent(q) == r.bytes + Unsent(r.queue)
            && InFlight(r.queue) == InFlight(q) + |r.bytes|
            && (r.bytes != [] ==> r.queue != [])
  {
    if count > 0 {
      AcknowledgeFlight(q, 0);
      var q1 := Acknowledge(q, 0);
      if q1 != [] && q1[0].sent < |q1[0].data| {
        TakeFront(q1, count);
      } else {
        assert [] + Unsent(q1) == Unsent(q1);
      }
    } else {
      assert [] + Unsent(q) == Unsent(q);
    }
  }

  lemma TakeFront(q: Queue, count: nat)
    requires Wf(q) && Sane(q) && q != []
    ensures var p := BufNext(q[0], count);
            var r := [p.buf] + q[1..];
            && Wf(r) && Sane(r) && Unsent(q) == p.bytes + Unsent(r) && InFlight(r) == InFlight(q) + |p.bytes|
  {
    hide BufNext, Unsent, Wf, Sane, InFlight, Buf.Wf, Buf.Sane;
    FrontOf(q);
    BufNextIs(q[0], count);
    var p := BufNext(q[0], count);
    ReplaceFront(q, p.buf);
    Associate(p.bytes, p.buf.data[p.buf.sent..], Unsent(q[1..]));
  }

  lemma FrontOf(q: Queue)
    requires Wf(q) && Sane(q) && q != []
    ensures q[0].Wf() && q[0].Sane() && Sane(q[1..])
    ensures Unsent(q) == q[0].data[q[0].sent..] + Unsent(q[1..]) && InFlight(q) == q[0].sent - q[0].ack
  {
  }

  lemma BufNextIs(b: Buf, count: nat)
    requires b.Wf()
    ensures var p := BufNext(b, count);
            && p.buf.Wf() && p.buf.Sane() && p.buf.sent <= |p.buf.data| && |p.bytes| <= count
            && p.buf.sent == b.sent + |p.bytes| && p.buf.ack == b.ack
            && b.data[b.sent..] == p.bytes + p.buf.data[p.buf.sent..]
  {
  }

  lemma ReplaceFront(q: Queue, x: Buf)
    requires Wf(q) && Sane(q) && q != [] && x.Wf() && x.Sane()
    ensures var r := [x] + q[1..];
            Wf(r) && Sane(r) && Unsent(r) == x.data[x.sent..] + Unsent(q[1..]) && InFlight(r) == x.sent - x.ack
  {
    var r := [x] + q[1..];
    assert r[1..] == q[1..] && r[0] == x;
    assert forall i :: 0 < i < |r| ==> r[i] == q[i];
  }

  /** A refused piece goes back where it came from: nothing but finished buffers is lost. */
  lemma RequeueUndoes(q: Queue, count: nat)
    requires Sane(q) && GetNext(q, count).bytes != []
    ensures Requeue(GetNext(q, count).queue, GetNext(q, count).bytes) == Acknowledge(q, 0)
  {
    hide Acknowledge, BufNext, BufRequeue, GetNext, Requeue;
    GetNextIs(q, count);
    var q1 := Acknowledge(q, 0);
    var p := BufNext(q1[0], count);
    BufUndo(q1[0], count);
    RequeueFront(p.buf, q1[1..], p.bytes);
    assert [q1[0]] + q1[1..] == q1;
  }

  lemma RequeueFront(x: Buf, rest: Queue, bytes: seq<byte>)
    requires x.Sane() && Sane([x] + rest)
    ensures Requeue([x] + rest, bytes) == [BufRequeue(x, bytes)] + rest
  {
    assert ([x] + rest)[1..] == rest;
  }

  lemma GetNextIs(q: Queue, count: nat)
    requires Sane(q) && GetNext(q, count).bytes != []
    ensures var q1 := Acknowledge(q, 0);
            && q1 != [] && q1[0].Sane()
            && var p := BufNext(q1[0], count);
               && GetNext(q, count) == Taken([p.buf] + q1[1..], p.bytes) && Sane([p.buf] + q1[1..])
  {
    hide Acknowledge, BufNext;
  }

  lemma BufUndo(b: Buf, count: nat)
    requires b.Sane()
    ensures BufNext(b, count).buf.Sane() && BufRequeue(BufNext(b, count).buf, BufNext(b, count).bytes) == b
  {
    var p := BufNext(b, count);
    assert p.buf.data[p.buf.sent - |p.bytes|..p.buf.sent] == p.bytes;
  }

  /** A queue that is not empty can always go on: its front buffer has unsent bytes, bytes in
      flight, or is finished.
   */
  lemma NeverStuck(q: Queue)
    requires Wf(q) && Sane(q) && q != []
    ensures q[0].sent < |q[0].data| || InFlight(q) > 0 || Acknowledge(q, 0) == q[1..]
  {
  }

  /** Every piece written lowers the remaining work by its size, and at least by the buffers removed. */
  lemma WriteDecreases(q: Queue, count: nat)
    requires Wf(q) && Sane(q) && GetNext(q, count).bytes != []
    ensures Work(GetNext(q, count).queue) < Work(q)
  {
    GetNextMoves(q, count);
    AcknowledgeConserves(q, 0);
    var q1 := Acknowledge(q, 0);
    AcknowledgeShrinks(q, 0);
    var r := GetNext(q, count).queue;
    assert r[1..] == q1[1..];
    assert Unacked(r) == Unacked(q1);
  }

  /** So does every acknowledgement of bytes in flight, and every removal of a finished buffer. */
  lemma AckDecreases(q: Queue, count: nat)
    requires Wf(q) && Sane(q) && count <= InFlight(q)
    requires count > 0 || |Acknowledge(q, 0)| < |q|
    ensures Work(Acknowledge(q, count)) < Work(q)
  {
    AcknowledgeFlight(q, count);
    AcknowledgeConserves(q, count);
    AcknowledgeShrinks(q, count);
    FlightUnacked(q);
  }

  lemma FlightUnacked(q: Queue)
    requires Wf(q) && Sane(q)
    ensures InFlight(q) <= Unacked(q)
  {
  }

  lemma {:induction false} AcknowledgeShrinks(q: Queue, count: nat)
    requires Sane(q)
    ensures |Acknowledge(q, count)| <= |q|
    decreases |q|
  {
    if q != [] {
      var a := BufAck(q[0], count);
      if a.left > 0 { AcknowledgeShrinks(q[1..], a.left); }
    }
  }

  /** Queueing adds the new bytes at the end of the stream. */
  lemma {:induction false} UnsentSnoc(q: Queue, b: Buf)
    requires Sane(q) && b.Sane()
    ensures Sane(q + [b]) && Unsent(q + [b]) == Unsent(q) + b.data[b.sent..]
  {
    if q == [] {
      assert [b][1..] == [];
    } else {
      assert (q + [b])[1..] == q[1..] + [b];
      UnsentSnoc(q[1..], b);
    }
  }

  /** A buffer object. */
  class SendBuf {
    const data: seq<byte>
    var sent: nat
    var ack: nat

    constructor (data: seq<byte>)
      ensures View() == Buf(data, 0, 0)
    {
      this.data, sent, ack := data, 0, 0;
    }

    function View(): Buf
      reads this
    {
      Buf(data, sent, ack)
    }

    function ToSend(): nat
      requires View().Sane()
      reads this
    {
      |data| - sent
    }

    method Next(count: nat) returns (bytes: seq<byte>)
      requires View().Sane()
      modifies this
      ensures Piece(View(), bytes) == BufNext(old(View()), count)
    {
      var nn := ToSend();
      if count < nn {
        nn := count;
      }
      bytes := data[sent..sent + nn];
      sent := sent + nn;
    }

    method TakeBack(bytes: seq<byte>)
      requires View().Sane()
      modifies this
      ensures View() == BufRequeue(old(View()), bytes)
    {
      var nn := sent - |bytes|;
      if nn >= 0 {
        if data[nn..nn + |bytes|] == bytes {
          sent := nn;
        }
      }
    }

    method Ack(count: nat) returns (left: nat)
      modifies this
      ensures Acked(View(), left) == BufAck(old(View()), count)
    {
      var na := ack + count;
      if na > |data| {
        ack := |data|;
        left := na - |data|;
      } else {
        ack := na;
        left := 0;
      }
    }

    predicate IsAcknowledged()
      reads this
    {
      ack == |data|
    }
  }
}
