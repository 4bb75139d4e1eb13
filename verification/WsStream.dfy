/** Reassembly of WebSocket frames from a TCP byte stream: the loop of `tcp_server_recv` on
    an upgraded connection, and why the way TCP cuts the stream into chunks cannot matter.
 */
module WsStream {
  import opened Bits
  import opened WsFrame

  /** What `process_websocket` receives for one frame. */
  datatype Message = Message(opcode: nat, payload: seq<byte>)

  /** Messages delivered, and the bytes left in the request buffer. `cut` is set when the
      parser met a declared length that wraps; nothing is said about the code beyond that point.
   */
  datatype Drained = Drained(messages: seq<Message>, rest: seq<byte>, cut: bool)

  function Then(before: seq<Message>, later: Drained): Drained {
    later.(messages := before + later.messages)
  }

  /** Parse, deliver and erase until no complete frame is left. */
  function Drain(buffer: seq<byte>): Drained
    decreases |buffer|
  {
    match Parse(buffer)
    case Incomplete => Drained([], buffer, false)
    case OutOfBounds => Drained([], buffer, true)
    case Wrapped(_, _, _) => Drained([], buffer, true)
    case Ready(opcode, start, length, packet) =>
      Then([Message(opcode, packet[start..start + length])], Drain(packet[start + length..]))
  }

  /** The receive callback on each chunk in turn, starting with `buffer` already held. */
  function Feed(buffer: seq<byte>, chunks: seq<seq<byte>>): Drained
    decreases |chunks|
  {
    if chunks == [] then Drained([], buffer, false) else
      var now := Drain(buffer + chunks[0]);
      if now.cut then now else Then(now.messages, Feed(now.rest, chunks[1..]))
  }

  function Join(chunks: seq<seq<byte>>): seq<byte> {
    if chunks == [] then [] else chunks[0] + Join(chunks[1..])
  }

  /** One round of the loop, given what the parser said. */
  lemma DrainReady(p: seq<byte>, r: Parsed)
    ensures Parse(p) == r && r.Ready? ==>
              Drain(p) == Then([Message(r.opcode, r.packet[r.start..r.start + r.length])],
                               Drain(r.packet[r.start + r.length..]))
  {
    hide Parse;
  }

  lemma {:induction false} DrainAppend(a: seq<byte>, b: seq<byte>)
    requires |a + b| < U32 || !Drain(a).cut
    ensures Drain(a).cut ==> Drain(a + b).cut && Drain(a + b).messages == Drain(a).messages
    ensures !Drain(a).cut ==> Drain(a + b) == Then(Drain(a).messages, Drain(Drain(a).rest + b))
    decreases |a|
  {
    hide Parse, ReadHead, Drain;
    ParseExtend(a, b);
    var r := Parse(a);
    if r.Ready? {
      var end := r.start + r.length;
      var packet := r.packet + b;
      assert packet[end..] == r.packet[end..] + b && packet[r.start..end] == r.packet[r.start..end];
      DrainReady(a, r);
      DrainReady(a + b, r.(packet := packet));
      DrainAppend(r.packet[end..], b);
      ThenAssociates([Message(r.opcode, r.packet[r.start..end])], Drain(r.packet[end..]).messages,
                     Drain(Drain(r.packet[end..]).rest + b));
    } else {
      DrainStops(a);
      DrainStops(a + b);
      ThenAssociates([], [], Drain(a + b));
    }
  }

  lemma ThenAssociates(a: seq<Message>, b: seq<Message>, later: Drained)
    ensures Then(a, Then(b, later)) == Then(a + b, later)
    ensures Then([], later) == later
  {
    assert a + (b + later.messages) == a + b + later.messages;
    assert [] + later.messages == later.messages;
  }

  lemma {:induction false} DrainRestIncomplete(a: seq<byte>)
    ensures !Drain(a).cut ==> Parse(Drain(a).rest).Incomplete?
    ensures |Drain(a).rest| <= |a|
    decreases |a|
  {
    hide Parse;
    var r := Parse(a);
    if r.Ready? {
      DrainReady(a, r);
      hide Drain;
      DrainRestIncomplete(r.packet[r.start + r.length..]);
    }
  }

  /** The payload lengths that the stream declares, one packet after another, fit 32 bits together
      with their headers.
   */
  predicate LengthsFit(stream: seq<byte>)
    decreases |stream|
  {
    match ReadHead(stream)
    case None => true
    case Some(h) =>
      && h.start + h.length < U32
      && (|stream| < h.start + h.length || LengthsFit(stream[h.start + h.length..]))
  }

  lemma FitsIff(stream: seq<byte>)
    ensures match ReadHead(stream)
            case None => LengthsFit(stream)
            case Some(h) =>
              var end := h.start + h.length;
              LengthsFit(stream) <==> end < U32 && (|stream| < end || LengthsFit(stream[end..]))
  {
    hide ReadHead;
  }

  /** What fits as a whole fits as far as it has arrived, and so does what is left of it. */
  lemma {:induction false} PrefixFits(a: seq<byte>, b: seq<byte>)
    requires LengthsFit(a + b)
    ensures LengthsFit(a) && !Drain(a).cut && LengthsFit(Drain(a).rest + b)
    decreases |a|
  {
    hide LengthsFit, ReadHead, Parse, Drain;
    HeadExtend(a, b);
    FitsIff(a);
    FitsIff(a + b);
    var r := Parse(a);
    if r.Ready? {
      DrainReady(a, r);
      ReadyRest(a);
      var end := r.start + r.length;
      assert (a + b)[end..] == a[end..] + b;
      PrefixFits(a[end..], b);
    } else {
      if r.Cut() { CutNeedsLength(a); }
      DrainStops(a);
    }
  }

  lemma CutNeedsLength(p: seq<byte>)
    requires Parse(p).Cut()
    ensures ReadHead(p).Some? && ReadHead(p).value.start + ReadHead(p).value.length >= U32
  {
    hide ReadHead, Unmask;
  }

  /** Any cutting of any byte stream is received like the whole stream at once. A stream that is
      cut off is so after the same messages.
   */
  lemma {:induction false} ChunkingIrrelevant(buffer: seq<byte>, chunks: seq<seq<byte>>)
    requires |buffer + Join(chunks)| < U32 || LengthsFit(buffer + Join(chunks))
    requires Parse(buffer).Incomplete?
    ensures var fed, whole := Feed(buffer, chunks), Drain(buffer + Join(chunks));
            && fed.messages == whole.messages && fed.cut == whole.cut
            && (!whole.cut ==> fed == whole)
    decreases |chunks|
  {
    if chunks == [] {
      assert buffer + Join(chunks) == buffer;
    } else {
      var a, b := buffer + chunks[0], Join(chunks[1..]);
      assert buffer + Join(chunks) == a + b;
      if LengthsFit(a + b) { PrefixFits(a, b); }
      DrainAppend(a, b);
      if !Drain(a).cut {
        DrainRestIncomplete(a);
        ChunkingIrrelevant(Drain(a).rest, chunks[1..]);
      }
    }
  }

  /** Exactly the streams whose declared lengths fit are received to their end. */
  lemma {:induction false} DrainCutIff(stream: seq<byte>)
    requires |stream| < U32
    ensures Drain(stream).cut <==> !LengthsFit(stream)
    decreases |stream|
  {
    hide Parse, Drain, LengthsFit, ReadHead;
    CutIff(stream);
    FitsIff(stream);
    var r := Parse(stream);
    if r.Ready? {
      DrainReady(stream, r);
      ReadyRest(stream);
      DrainCutIff(stream[r.start + r.length..]);
    } else {
      DrainStops(stream);
    }
  }

  lemma DrainStops(stream: seq<byte>)
    ensures !Parse(stream).Ready? ==> Drain(stream) == Drained([], stream, Parse(stream).Cut())
  {
    hide Parse;
  }

  lemma ReadyRest(p: seq<byte>)
    ensures var r := Parse(p);
            r.Ready? ==>
              && ReadHead(p).Some? && r.start == ReadHead(p).value.start && r.length == ReadHead(p).value.length
              && r.packet[r.start + r.length..] == p[r.start + r.length..]
  {
  }

  /** What the code goes on to do with a wrapped packet: `substr` hands over all that has arrived so
      far, and `resetRqst` erases the wrapped number of bytes.
   */
  function WrappedMessage(p: seq<byte>): Message
    requires Parse(p).Wrapped?
  {
    Message(Parse(p).opcode, p[Parse(p).start..])
  }

  function WrappedRest(p: seq<byte>): seq<byte>
    requires Parse(p).Wrapped?
  {
    var ii := (Parse(p).start + Parse(p).length) % U32;
    if ii < |p| then p[ii..] else []
  }

  lemma WrappedIs(p: seq<byte>)
    requires Parse(p).Wrapped?
    ensures ReadHead(p).Some?
    ensures Parse(p).start == ReadHead(p).value.start && Parse(p).length == ReadHead(p).value.length
  {
    hide ReadHead;
  }

  /** So the message then depends on where the stream was cut; and a packet whose sum is just 2^32
      is found again and again.
   */
  lemma WrappedGoesWrong(p: seq<byte>, more: seq<byte>)
    requires |p + more| < U32 && Parse(p).Wrapped?
    ensures Parse(p + more) == Parse(p)
    ensures WrappedMessage(p + more) == WrappedMessage(p) <==> more == []
    ensures WrappedRest(p) == p <==> Parse(p).start + Parse(p).length == U32
  {
    ParseExtend(p, more);
    hide ReadHead;
    CutIff(p);
    WrappedIs(p);
    LengthBound(p);
    hide Parse;
    assert (p + more)[Parse(p).start..] == p[Parse(p).start..] + more;
    assert |(p + more)[Parse(p).start..]| == |p[Parse(p).start..]| + |more|;
  }

  /** One chunk more. */
  lemma {:induction false} FeedSnoc(buffer: seq<byte>, chunks: seq<seq<byte>>, c: seq<byte>)
    requires !Feed(buffer, chunks).cut
    requires !Drain(Feed(buffer, chunks).rest + c).cut
    ensures Feed(buffer, chunks + [c])
            == Then(Feed(buffer, chunks).messages, Drain(Feed(buffer, chunks).rest + c))
    decreases |chunks|
  {
    hide Drain;
    if chunks == [] {
      assert chunks + [c] == [c] && [c][1..] == [];
      var now := Drain(buffer + c);
      assert now.messages + [] == now.messages && [] + now.messages == now.messages;
    } else {
      var now := Drain(buffer + chunks[0]);
      assert (chunks + [c])[1..] == chunks[1..] + [c];
      FeedSnoc(now.rest, chunks[1..], c);
      var f := Feed(now.rest, chunks[1..]);
      ThenAssociates(now.messages, f.messages, Drain(f.rest + c));
    }
  }

  predicate AreFrames(frames: seq<Frame>) {
    forall f :: f in frames ==> f.Valid()
  }

  function EncodeAll(frames: seq<Frame>): seq<byte>
    requires AreFrames(frames)
  {
    if frames == [] then [] else frames[0].Encode() + EncodeAll(frames[1..])
  }

  function Messages(frames: seq<Frame>): (r: seq<Message>)
    ensures |r| == |frames|
    ensures forall i :: 0 <= i < |frames| ==> r[i] == Message(frames[i].opcode, frames[i].payload)
  {
    seq(|frames|, i requires 0 <= i < |frames| => Message(frames[i].opcode, frames[i].payload))
  }

  lemma DrainOne(f: Frame, rest: seq<byte>)
    requires f.Valid()
    ensures Drain(f.Encode() + rest) == Then([Message(f.opcode, f.payload)], Drain(rest))
  {
    hide Parse, Drain, Frame.Header, Frame.Encode;
    var packet := f.Header() + f.payload + rest;
    var start, end := |f.Header()|, |f.Header()| + |f.payload|;
    assert packet[start..end] == f.payload && packet[end..] == rest;
    ParseEncode(f, rest);
    DrainReady(f.Encode() + rest, Ready(f.opcode, start, |f.payload|, packet));
  }

  lemma {:induction false} DrainFrames(frames: seq<Frame>, tail: seq<byte>)
    requires AreFrames(frames) && Parse(tail).Incomplete?
    ensures Drain(EncodeAll(frames) + tail) == Drained(Messages(frames), tail, false)
    decreases |frames|
  {
    hide Parse, Drain, Frame.Header, Frame.Encode, Frame.Valid;
    if frames == [] {
      assert EncodeAll(frames) + tail == tail;
      DrainStops(tail);
    } else {
      var f, rest := frames[0], EncodeAll(frames[1..]) + tail;
      assert f in frames;
      assert EncodeAll(frames) + tail == f.Encode() + rest;
      DrainOne(f, rest);
      DrainFrames(frames[1..], tail);
      assert Messages(frames) == [Message(f.opcode, f.payload)] + Messages(frames[1..]);
    }
  }

  lemma FrameFits(f: Frame, rest: seq<byte>)
    requires f.Valid() && LengthsFit(rest)
    ensures LengthsFit(f.Encode() + rest)
  {
    ParseEncode(f, rest);
    ReadyRest(f.Encode() + rest);
    assert |f.Header()| + |f.payload| < U32 && |f.Encode()| == |f.Header()| + |f.payload|;
    hide Parse, ReadHead, Frame.Header, Frame.Encode;
    assert (f.Encode() + rest)[|f.Header()| + |f.payload|..] == rest;
  }

  lemma {:induction false} FramesFit(frames: seq<Frame>, tail: seq<byte>)
    requires AreFrames(frames) && LengthsFit(tail)
    ensures LengthsFit(EncodeAll(frames) + tail)
    decreases |frames|
  {
    hide LengthsFit, Frame.Encode, Frame.Valid;
    if frames == [] {
      assert EncodeAll(frames) + tail == tail;
    } else {
      var f, rest := frames[0], EncodeAll(frames[1..]) + tail;
      assert f in frames;
      assert EncodeAll(frames) + tail == f.Encode() + rest;
      FramesFit(frames[1..], tail);
      FrameFits(f, rest);
    }
  }

  /** For valid frames followed by an incomplete one, and any cutting into chunks, the receiver
      delivers exactly those frames, in order, each unmasked once, and keeps the incomplete
      frame untouched.
   */
  lemma FramesDelivered(frames: seq<Frame>, next: Frame, k: nat, chunks: seq<seq<byte>>)
    requires AreFrames(frames) && next.Valid() && k < |next.Encode()|
    requires Join(chunks) == EncodeAll(frames) + next.Encode()[..k]
    ensures Feed([], chunks) == Drained(Messages(frames), next.Encode()[..k], false)
  {
    hide Drain, Parse, Frame.Encode, Frame.Header, Frame.Valid, LengthsFit;
    ParsePrefix(next, k);
    DrainFrames(frames, next.Encode()[..k]);
    StreamFits(frames, next, k);
    assert [] + Join(chunks) == Join(chunks);
    NothingParsed();
    ChunkingIrrelevant([], chunks);
  }

  lemma NothingParsed()
    ensures Parse([]).Incomplete? && LengthsFit([])
  {
  }

  lemma StreamFits(frames: seq<Frame>, next: Frame, k: nat)
    requires AreFrames(frames) && next.Valid() && k <= |next.Encode()|
    ensures LengthsFit(EncodeAll(frames) + next.Encode()[..k])
  {
    hide Drain, Parse, Frame.Encode, Frame.Header, Frame.Valid, LengthsFit;
    var e := next.Encode();
    NothingParsed();
    FramesFit([next], []);
    assert [next][1..] == [] && EncodeAll([next]) + [] == e + [];
    assert e + [] == e[..k] + e[k..];
    PrefixFits(e[..k], e[k..]);
    FramesFit(frames, e[..k]);
  }
}
