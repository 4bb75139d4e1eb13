/** The client object: its queue of buffer objects, and the request buffer in which frames are
    reassembled.
 */
module WebClient {
  import opened Bits
  import opened SendQueue
  import opened Connection
  import opened WsFrame
  import opened WsStream
  import WsCodec

  /** The values of a list of buffer objects. */
  ghost function Views(bufs: seq<SendBuf>): (q: Queue)
    reads bufs
    ensures |q| == |bufs|
  {
    if bufs == [] then [] else [bufs[0].View()] + Views(bufs[1..])
  }

  predicate Distinct(bufs: seq<SendBuf>) {
    forall i, j :: 0 <= i < j < |bufs| ==> bufs[i] != bufs[j]
  }

  lemma {:induction false} ViewsConcat(a: seq<SendBuf>, b: seq<SendBuf>)
    ensures Views(a + b) == Views(a) + Views(b)
  {
    if a == [] {
      assert a + b == b;
    } else {
      assert (a + b)[1..] == a[1..] + b;
      ViewsConcat(a[1..], b);
    }
  }

  /** The front object and the others. */
  lemma FrontView(bufs: seq<SendBuf>)
    requires bufs != [] && Distinct(bufs)
    ensures bufs[0] in bufs && bufs[0] !in bufs[1..] && Distinct(bufs[1..])
    ensures Views(bufs) == [bufs[0].View()] + Views(bufs[1..])
    ensures Views(bufs)[0] == bufs[0].View() && Views(bufs)[1..] == Views(bufs[1..])
    ensures Sane(Views(bufs)) ==> bufs[0].View().Sane()
  {
  }

  lemma AcknowledgeOne(q: Queue, count: nat)
    requires Sane(q)
    ensures Acknowledge(q, count) ==
              if q == [] then q else
                var a := BufAck(q[0], count);
                var rest := if a.buf.ack == |a.buf.data| then q[1..] else [a.buf] + q[1..];
                if a.left == 0 then rest else Acknowledge(q[1..], a.left)
  {
  }

  class ClientRec {
    const handle: nat
    var pcb: nat
    var closed: bool
    var websocket: bool
    var wsCloseSent: bool
    var sendbuf: seq<SendBuf>
    var rqst: seq<byte>
    var wshdr: WsCodec.Header

    ghost predicate Valid()
      reads this, sendbuf
    {
      Distinct(sendbuf) && Sane(Views(sendbuf))
    }

    ghost function View(): Client
      reads this, sendbuf
    {
      Client(pcb, closed, websocket, wsCloseSent, handle, Views(sendbuf))
    }

    constructor (pcb: nat, handle: nat)
      ensures Valid() && View() == NewConn(pcb, handle).client && this.handle == handle && rqst == [] && sendbuf == []
    {
      this.handle, this.pcb := handle, pcb;
      closed, websocket, wsCloseSent, sendbuf, rqst := false, false, false, [], [];
      wshdr := WsCodec.Header(0, 0, 0);
    }

    method MarkClosed()
      requires Valid()
      modifies this`pcb, this`closed
      ensures Valid() && View() == SetClosed(old(View()))
    {
      closed := true;
      pcb := NULL;
    }

    /** `setWSCloseSent`. */
    method MarkCloseSent()
      requires Valid()
      modifies this`wsCloseSent
      ensures Valid() && View() == old(View()).(wsCloseSent := true)
    {
      wsCloseSent := true;
    }

    /** `setWebSocket`. */
    method MarkWebSocket()
      requires Valid()
      modifies this`websocket
      ensures Valid() && View() == old(View()).(websocket := true)
    {
      websocket := true;
    }

    method QueueSend(data: seq<byte>)
      requires Valid()
      modifies this`sendbuf
      ensures Valid() && View() == old(View()).(queue := old(View()).queue + [Buf(data, 0, 0)])
      ensures |sendbuf| > 0 && fresh(sendbuf[|sendbuf| - 1]) && sendbuf[..|sendbuf| - 1] == old(sendbuf)
    {
      var b := new SendBuf(data);
      ViewsConcat(sendbuf, [b]);
      assert Views([b]) == [Buf(data, 0, 0)];
      sendbuf := sendbuf + [b];
    }

    /** The acknowledgement loop. */
    method DoAcknowledge(count: nat)
      requires Valid()
      modifies this`sendbuf, sendbuf
      ensures Valid() && View() == old(View()).(queue := Acknowledge(old(View()).queue, count))
      ensures forall b :: b in sendbuf ==> b in old(sendbuf)
      ensures forall b :: b in old(sendbuf) && b !in sendbuf ==> b.IsAcknowledged()
    {
      hide Acknowledge;
      ghost var goal := Acknowledge(Views(sendbuf), count);
      var left, done := count, false;
      while |sendbuf| > 0 && !done
        invariant Valid() && (forall b :: b in sendbuf ==> b in old(sendbuf))
        invariant forall b :: b in old(sendbuf) && b !in sendbuf ==> b.IsAcknowledged()
        invariant goal == if done then Views(sendbuf) else Acknowledge(Views(sendbuf), left)
        decreases |sendbuf|, !done
      {
        var sb, rest := sendbuf[0], sendbuf[1..];
        FrontView(sendbuf);
        ghost var q := Views(sendbuf);
        AcknowledgeOne(q, left);
        left := sb.Ack(left);
        assert Views(rest) == q[1..];
        FrontView(sendbuf);
        if sb.IsAcknowledged() {
          sendbuf := rest;
        }
        if left == 0 {
          done := true;
        }
      }
      AcknowledgeOne([], left);
    }

    /** `get_next`. */
    method TakeNext(count: nat) returns (bytes: seq<byte>)
      requires Valid()
      modifies this`sendbuf, sendbuf
      ensures Valid() && View() == old(View()).(queue := GetNext(old(View()).queue, count).queue)
      ensures bytes == GetNext(old(View()).queue, count).bytes
      ensures forall b :: b in sendbuf ==> b in old(sendbuf)
    {
      bytes := [];
      if count > 0 {
        DoAcknowledge(0);
        if |sendbuf| > 0 {
          var sb := sendbuf[0];
          ghost var rest, q := sendbuf[1..], Views(sendbuf);
          FrontView(sendbuf);
          if sb.ToSend() > 0 {
            bytes := sb.Next(count);
            assert Views(rest) == q[1..];
            FrontView(sendbuf);
          }
        }
      }
    }

    /** `requeue`. */
    method PutBack(bytes: seq<byte>)
      requires Valid()
      modifies sendbuf
      ensures Valid() && View() == old(View()).(queue := Requeue(old(View()).queue, bytes))
    {
      if |sendbuf| > 0 {
        ghost var rest, q := sendbuf[1..], Views(sendbuf);
        FrontView(sendbuf);
        sendbuf[0].TakeBack(bytes);
        assert Views(rest) == q[1..];
        FrontView(sendbuf);
        assert Views(sendbuf) == Requeue(q, bytes);
      }
    }

    /** `more_to_send`. */
    predicate MoreToSend()
      reads this
    {
      |sendbuf| > 0
    }

    /** `addToRqst`, called for at most 64 bytes at a time. */
    method AddToRqst(chunk: seq<byte>)
      modifies this`rqst
      ensures View() == old(View()) && Valid() == old(Valid())
      ensures rqst == old(rqst) + chunk
    {
      var ll := 0;
      assert old(rqst) + chunk[..0] == old(rqst);
      while ll < |chunk|
        invariant 0 <= ll <= |chunk| && rqst == old(rqst) + chunk[..ll]
      {
        var l := if |chunk| - ll < 64 then |chunk| - ll else 64;
        rqst := rqst + chunk[ll..ll + l];
        assert chunk[..ll + l] == chunk[..ll] + chunk[ll..ll + l];
        ll := ll + l;
      }
      assert chunk[..|chunk|] == chunk;
    }

    /** `clearRqst`. */
    method ClearRqst()
      modifies this`rqst
      ensures View() == old(View()) && Valid() == old(Valid())
      ensures rqst == []
    {
      rqst := [];
    }

    /** `rqstIsReady` on an upgraded connection: a complete frame is unmasked where it stands, and a
        packet with a wrapped length counts as complete.
     */
    method RqstIsReady() returns (ready: bool, outOfBounds: bool)
      modifies this`rqst, this`wshdr
      ensures View() == old(View()) && Valid() == old(Valid())
      ensures match Parse(old(rqst))
              case Incomplete => !ready && !outOfBounds && rqst == old(rqst)
              case OutOfBounds => !ready && outOfBounds && rqst == old(rqst)
              case Wrapped(opcode, start, length) =>
                ready && !outOfBounds && rqst == old(rqst) && wshdr == WsCodec.Header(opcode, start, length)
              case Ready(opcode, start, length, packet) =>
                ready && !outOfBounds && rqst == packet && wshdr == WsCodec.Header(opcode, start, length)
    {
      hide Parse;
      var status, header, packet := WsCodec.ParsePacket(rqst);
      wshdr, rqst := header, packet;
      ready, outOfBounds := status == WsCodec.Success, status == WsCodec.Status.OutOfBounds;
    }

    /** A parsed frame lies within the request buffer. */
    predicate Stands()
      reads this
    {
      2 <= wshdr.start && wshdr.start + wshdr.length <= |rqst| < 0xffff_fff0
    }

    /** What `process_websocket` takes from the header and the buffer. */
    function Front(): Message
      requires Stands()
      reads this
    {
      Message(wshdr.opcode, rqst[wshdr.start..wshdr.start + wshdr.length])
    }

    /** The messages still to come once the parser has looked at the buffer. */
    ghost function Ahead(ready: bool, cut: bool): Drained
      reads this
    {
      if ready && Stands() then WsStream.Then([Front()], Drain(rqst[wshdr.start + wshdr.length..]))
      else Drained([], rqst, cut)
    }

    /** `resetRqst` on an upgraded connection, with a 32-bit sum. */
    method ResetRqst()
      modifies this`rqst
      ensures View() == old(View()) && Valid() == old(Valid())
      ensures var end := (wshdr.start + wshdr.length) % U32;
              rqst == if end < |old(rqst)| then old(rqst)[end..] else []
    {
      var ii := (wshdr.start + wshdr.length) % U32;
      rqst := if ii < |rqst| then rqst[ii..] else [];
    }
  }
}
