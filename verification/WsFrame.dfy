/** The WebSocket base frame of RFC 6455, section 5.2, as bytes on the wire, and what the
    server's parser makes of a byte buffer.
 */
module WsFrame {
  import opened Bits
  import opened Options

  const OPCODE_TEXT: nat := 1
  const OPCODE_CLOSE: nat := 8
  const OPCODE_PING: nat := 9
  const OPCODE_PONG: nat := 10

  /** How the payload length is written. The parser ignores the high half of the 64-bit form. */
  datatype LengthForm = Len7 | Len16 | Len64(high: seq<byte>)

  datatype Frame = Frame(fin: bool, rsv: nat, opcode: nat, form: LengthForm, key: Option<seq<byte>>, payload: seq<byte>)
  {
    predicate Valid() {
      && rsv < 8 && opcode < 16
      && (key.Some? ==> |key.value| == 4)
      && (match form
          case Len7 => |payload| < 126
          case Len16 => |payload| < 0x10000
          case Len64(high) => |high| == 4)
      && |Header()| + |payload| < U32
    }

    function LengthCode(): byte
      requires form.Len7? ==> |payload| < 126
    {
      match form
      case Len7 => |payload|
      case Len16 => 126
      case Len64(_) => 127
    }

    function Header(): seq<byte>
      requires rsv < 8 && opcode < 16
      requires form.Len7? ==> |payload| < 126
    {
      [(if fin then 128 else 0) + 16 * rsv + opcode, (if key.Some? then 128 else 0) + LengthCode()]
      + (match form
         case Len7 => []
         case Len16 => Big16(|payload|)
         case Len64(high) => high + Big32(|payload|))
      + (if key.Some? then key.value else [])
    }

    /** The frame as transmitted: the payload is masked when there is a key. */
    function Encode(): seq<byte>
      requires Valid()
    {
      Header() + (if key.Some? then XorKey(payload, key.value) else payload)
    }
  }

  function FromBig16(a: byte, b: byte): nat {
    0x100 * a + b
  }

  function FromBig32(a: byte, b: byte, c: byte, d: byte): nat {
    0x100_0000 * a + 0x1_0000 * b + 0x100 * c + d
  }

  /** Masking as in section 5.3: byte `i` is combined with key byte `i` modulo 4. */
  function XorKey(data: seq<byte>, key: seq<byte>): (r: seq<byte>)
    requires |key| == 4
    ensures |r| == |data|
  {
    seq(|data|, i requires 0 <= i < |data| => XorByte(data[i], key[i % 4]))
  }

  lemma XorKeyInvolutive(data: seq<byte>, key: seq<byte>)
    requires |key| == 4
    ensures XorKey(XorKey(data, key), key) == data
  {
    forall i | 0 <= i < |data|
      ensures XorKey(XorKey(data, key), key)[i] == data[i]
    {
      XorInvolutive(data[i], key[i % 4]);
    }
  }

  /** What the first bytes of a packet declare: where its payload starts and how long it is. */
  datatype Head = Head(opcode: nat, masked: bool, start: nat, length: nat)
  {
    predicate Fits(p: seq<byte>) { start <= |p| && (masked ==> 4 <= start) }
  }

  function LengthEnd(code: nat): nat {
    if code == 126 then 4 else if code == 127 then 10 else 2
  }

  function DeclaredLength(p: seq<byte>): nat
    requires |p| >= 2 && |p| >= LengthEnd(p[1] % 128)
  {
    if p[1] % 128 == 126 then FromBig16(p[2], p[3])
    else if p[1] % 128 == 127 then FromBig32(p[6], p[7], p[8], p[9])
    else p[1] % 128
  }

  function ReadHead(p: seq<byte>): (r: Option<Head>)
    ensures r.Some? ==> r.value.Fits(p) && 2 <= r.value.start <= 14
  {
    if |p| < 2 || |p| < LengthEnd(p[1] % 128) then None else
      var masked := p[1] >= 128;
      var start := LengthEnd(p[1] % 128) + (if masked then 4 else 0);
      if |p| < start then None else Some(Head(p[0] % 16, masked, start, DeclaredLength(p)))
  }

  /** The outcome of `WS::ParsePacket`. On success `packet` is the buffer after unmasking in place.
      When the 32-bit sum of header and declared length wraps, the completeness test passes although
      the buffer is too short: a masked packet is then unmasked beyond the buffer's end
      (`OutOfBounds`), and an unmasked one is reported as complete (`Wrapped`).
   */
  datatype Parsed = Incomplete | OutOfBounds | Wrapped(opcode: nat, start: nat, length: nat)
                  | Ready(opcode: nat, start: nat, length: nat, packet: seq<byte>)
  {
    /** No further claim is made about a stream from here on. */
    predicate Cut() { OutOfBounds? || Wrapped? }
  }

  function ReadPayload(p: seq<byte>, h: Head): Parsed
    requires h.Fits(p)
  {
    if |p| < (h.start + h.length) % U32 then Incomplete
    else if |p| < h.start + h.length then
      if h.masked then OutOfBounds else Wrapped(h.opcode, h.start, h.length)
    else Ready(h.opcode, h.start, h.length, if h.masked then Unmask(p, h) else p)
  }

  function Unmask(p: seq<byte>, h: Head): seq<byte>
    requires h.masked && h.Fits(p) && h.start + h.length <= |p|
  {
    p[..h.start] + XorKey(p[h.start..h.start + h.length], p[h.start - 4..h.start]) + p[h.start + h.length..]
  }

  function Parse(p: seq<byte>): (r: Parsed)
    ensures r.Ready? ==> 2 <= r.start && r.start + r.length <= |r.packet| == |p|
    ensures r.Wrapped? ==> 2 <= r.start <= |p| < r.start + r.length
    ensures var h := ReadHead(p);
            h.Some? && h.value.start + h.value.length < U32 && !r.Ready? ==> |p| < h.value.start + h.value.length
  {
    match ReadHead(p)
    case None => Incomplete
    case Some(h) => ReadPayload(p, h)
  }

  lemma Big16Inverse(n: nat)
    requires n < 0x1_0000
    ensures var b := Big16(n); FromBig16(b[0], b[1]) == n
  {
  }

  lemma Big32Inverse(n: nat)
    requires n < U32
    ensures var b := Big32(n); FromBig32(b[0], b[1], b[2], b[3]) == n
  {
    var a := n / 0x100;
    var b := a / 0x100;
    var c := b / 0x100;
    ModUnique(n, 0x1_0000, b, 0x100 * (a % 0x100) + n % 0x100);
    ModUnique(n, 0x100_0000, c, 0x1_0000 * (b % 0x100) + 0x100 * (a % 0x100) + n % 0x100);
  }

  /** The head of a frame is what its header bytes say, whatever follows them. */
  lemma HeadOfFrame(f: Frame, tail: seq<byte>)
    requires f.Valid()
    ensures ReadHead(f.Header() + tail)
            == Some(Head(f.opcode, f.key.Some?, |f.Header()|, |f.payload|))
  {
    HeaderShape(f);
    hide Frame.Header, FromBig16, FromBig32, Frame.LengthCode;
    var h := f.Header();
    var p := h + tail;
    assert forall k :: 0 <= k < |h| ==> p[k] == h[k];
  }

  /** The header's bytes, and what a reader makes of them. */
  lemma HeaderShape(f: Frame)
    requires f.Valid()
    ensures var h, code := f.Header(), f.LengthCode();
            && 2 <= LengthEnd(code) && |h| == LengthEnd(code) + (if f.key.Some? then 4 else 0)
            && h[0] % 16 == f.opcode && h[1] % 128 == code && (h[1] >= 128 <==> f.key.Some?)
            && |f.payload| == if code == 126 then FromBig16(h[2], h[3])
                              else if code == 127 then FromBig32(h[6], h[7], h[8], h[9]) else code
  {
    var h := f.Header();
    ModUnique(h[0], 16, (if f.fin then 8 else 0) + f.rsv, f.opcode);
    if f.form.Len64? { Big32Inverse(|f.payload|); }
    if f.form.Len16? { Big16Inverse(|f.payload|); }
    hide Big16, Big32, FromBig16, FromBig32;
  }

  lemma HeaderEndsWithKey(f: Frame)
    requires f.Valid()
    ensures f.key.Some? ==> |f.Header()| >= 4 && f.Header()[|f.Header()| - 4..] == f.key.value
  {
  }

  /** Completing a head on a buffer split at the payload. */
  lemma ReadPayloadOf(h: Head, front: seq<byte>, raw: seq<byte>, rest: seq<byte>)
    requires |front| == h.start && |raw| == h.length && h.start + h.length < U32
    requires h.masked ==> 4 <= h.start
    ensures ReadPayload(front + raw + rest, h)
            == Ready(h.opcode, h.start, h.length,
                     front + (if h.masked then XorKey(raw, front[h.start - 4..]) else raw) + rest)
  {
    var p := front + raw + rest;
    assert p[..h.start] == front && p[h.start..h.start + h.length] == raw && p[h.start + h.length..] == rest;
    if h.masked {
      assert p[h.start - 4..h.start] == front[h.start - 4..];
    }
  }

  /** Round trip: a frame followed by anything is recognised, delivered unmasked at `start`,
      and what follows it is left alone.
   */
  lemma ParseEncode(f: Frame, rest: seq<byte>)
    requires f.Valid()
    ensures Parse(f.Encode() + rest)
            == Ready(f.opcode, |f.Header()|, |f.payload|, f.Header() + f.payload + rest)
  {
    var front := f.Header();
    var raw := if f.key.Some? then XorKey(f.payload, f.key.value) else f.payload;
    assert f.Encode() + rest == front + (raw + rest) == front + raw + rest;
    HeadOfFrame(f, raw + rest);
    HeaderEndsWithKey(f);
    ReadPayloadOf(Head(f.opcode, f.key.Some?, |front|, |raw|), front, raw, rest);
    if f.key.Some? {
      XorKeyInvolutive(f.payload, f.key.value);
    }
  }

  /** Reading a head looks at no byte beyond it. */
  lemma HeadExtend(p: seq<byte>, more: seq<byte>)
    ensures ReadHead(p).Some? ==> ReadHead(p + more) == ReadHead(p)
  {
    if |p| >= 2 {
      var q := p + more;
      assert q[0] == p[0] && q[1] == p[1];
    }
  }

  /** A frame cut short is never taken for a complete one. */
  lemma ParsePrefix(f: Frame, k: nat)
    requires f.Valid() && k < |f.Encode()|
    ensures Parse(f.Encode()[..k]) == Incomplete
  {
    var e, n := f.Encode(), |f.Header()|;
    assert e == f.Header() + e[n..] && |e| == n + |f.payload| < U32;
    hide Frame.Header, Frame.Encode, Frame.Valid, ReadHead, Parse;
    HeadOfFrame(f, e[n..]);
    assert e == e[..k] + e[k..];
    CutShort(e[..k], e[k..], Head(f.opcode, f.key.Some?, n, |f.payload|));
  }

  lemma CutShort(p: seq<byte>, more: seq<byte>, h: Head)
    requires ReadHead(p + more) == Some(h)
    requires |p| < h.start + h.length < U32
    ensures Parse(p) == Incomplete
  {
    HeadExtend(p, more);
  }

  /** More input never changes a verdict other than `Incomplete`. */
  lemma ParseExtend(p: seq<byte>, more: seq<byte>)
    ensures Parse(p).Cut() && |p + more| < U32 ==> Parse(p + more) == Parse(p)
    ensures Parse(p).Ready? ==> Parse(p + more) == Parse(p).(packet := Parse(p).packet + more)
  {
    HeadExtend(p, more);
    if ReadHead(p).Some? {
      ReadPayloadExtend(p, ReadHead(p).value, more);
    }
  }

  lemma ReadPayloadExtend(p: seq<byte>, h: Head, more: seq<byte>)
    requires h.Fits(p)
    ensures var r := ReadPayload(p, h);
            && (r.Cut() && |p + more| < U32 ==> ReadPayload(p + more, h) == r)
            && (r.Ready? ==> ReadPayload(p + more, h) == r.(packet := r.packet + more))
  {
    var q, end := p + more, h.start + h.length;
    if end <= |p| {
      assert q[..h.start] == p[..h.start] && q[h.start..end] == p[h.start..end];
      assert q[end..] == p[end..] + more;
      if h.masked {
        assert q[h.start - 4..h.start] == p[h.start - 4..h.start];
        assert Unmask(q, h) == Unmask(p, h) + more;
      }
    }
  }

  /** Exactly when the sum wraps: whenever the head is there and declares a payload that does not
      fit behind it in 32 bits; no byte of the payload is needed.
   */
  lemma CutIff(p: seq<byte>)
    requires |p| < U32
    ensures Parse(p).Cut() <==> ReadHead(p).Some? && ReadHead(p).value.start + ReadHead(p).value.length >= U32
    ensures Parse(p).OutOfBounds? <==> Parse(p).Cut() && ReadHead(p).value.masked
  {
    if ReadHead(p).Some? { LengthBound(p); }
  }

  lemma LengthBound(p: seq<byte>)
    requires ReadHead(p).Some?
    ensures ReadHead(p).value.length < U32
  {
  }

  /** Ten bytes that are taken for a complete packet of 4,294,967,286 bytes, and fourteen bytes for
      which the parser unmasks beyond their end.
   */
  lemma CutExamples()
    ensures Parse([130, 127, 0, 0, 0, 0, 255, 255, 255, 246]) == Wrapped(2, 10, 0xffff_fff6)
    ensures Parse([130, 255, 0, 0, 0, 0, 255, 255, 255, 242, 1, 2, 3, 4]) == OutOfBounds
  {
    var p: seq<byte> := [130, 127, 0, 0, 0, 0, 255, 255, 255, 246];
    assert ReadHead(p) == Some(Head(2, false, 10, 0xffff_fff6));
    var q: seq<byte> := [130, 255, 0, 0, 0, 0, 255, 255, 255, 242, 1, 2, 3, 4];
    assert ReadHead(q) == Some(Head(2, true, 14, 0xffff_fff2));
  }

  /** The frame that a head and an unmasked payload describe. */
  function FrameAt(p: seq<byte>, payload: seq<byte>): Frame
    requires ReadHead(p).Some?
  {
    var h := ReadHead(p).value;
    Frame(p[0] >= 128, p[0] / 16 % 8, h.opcode,
          if p[1] % 128 == 126 then Len16 else if p[1] % 128 == 127 then Len64(p[2..6]) else Len7,
          if h.masked then Some(p[h.start - 4..h.start]) else None,
          payload)
  }

  lemma ThreeParts(p: seq<byte>, a: nat, b: nat)
    requires 2 <= a <= b <= |p|
    ensures p[..b] == [p[0], p[1]] + p[2..a] + p[a..b]
  {
    assert p[..b] == p[..a] + p[a..b];
    assert p[..a] == p[..2] + p[2..a] && p[..2] == [p[0], p[1]];
  }

  lemma HeadSound(p: seq<byte>, payload: seq<byte>)
    requires ReadHead(p).Some? && |payload| == ReadHead(p).value.length
    requires ReadHead(p).value.start + |payload| < U32
    ensures FrameAt(p, payload).Valid()
    ensures FrameAt(p, payload).Header() == p[..ReadHead(p).value.start]
  {
    var f, start := FrameAt(p, payload), ReadHead(p).value.start;
    var code := p[1] % 128;
    FirstBytes(p, payload);
    MiddleBytes(p, payload);
    ThreeParts(p, LengthEnd(code), start);
    hide Big16, Big32, DeclaredLength;
    assert p[LengthEnd(code)..start] == if f.key.Some? then f.key.value else [];
  }

  /** The first two bytes of a frame's header are those that its fields were read from. */
  lemma FirstBytes(p: seq<byte>, payload: seq<byte>)
    requires ReadHead(p).Some? && |payload| == ReadHead(p).value.length
    ensures var f := FrameAt(p, payload);
            && f.rsv < 8 && f.opcode < 16 && (f.form.Len7? ==> |payload| < 126)
            && p[0] == (if f.fin then 128 else 0) + 16 * f.rsv + f.opcode
            && p[1] == (if f.key.Some? then 128 else 0) + f.LengthCode()
  {
  }

  lemma MiddleBytes(p: seq<byte>, payload: seq<byte>)
    requires ReadHead(p).Some? && |payload| == ReadHead(p).value.length
    ensures p[2..LengthEnd(p[1] % 128)]
            == match FrameAt(p, payload).form
               case Len7 => []
               case Len16 => Big16(|payload|)
               case Len64(high) => high + Big32(|payload|)
    ensures FrameAt(p, payload).form.Len16? ==> |payload| < 0x1_0000
  {
    var code := p[1] % 128;
    var middle := p[2..LengthEnd(code)];
    if code == 127 {
      Big32Digits(p[6], p[7], p[8], p[9]);
      assert middle == p[2..6] + Big32(|payload|);
    } else if code == 126 {
      assert middle == Big16(|payload|);
    } else {
      assert middle == [];
    }
  }

  lemma Big32Digits(a: byte, b: byte, c: byte, d: byte)
    ensures Big32(FromBig32(a, b, c, d)) == [a, b, c, d]
  {
    var n := FromBig32(a, b, c, d);
    ModUnique(n, 0x100, 0x1_0000 * a + 0x100 * b + c, d);
    ModUnique(n, 0x1_0000, 0x100 * a + b, 0x100 * c + d);
    ModUnique(n, 0x100_0000, a, 0x1_0000 * b + 0x100 * c + d);
  }

  /** Nothing else is ever accepted: success means that the buffer begins with a valid frame. */
  lemma ParseSound(p: seq<byte>)
    ensures var r := Parse(p);
            r.Ready? && |p| < U32 ==>
              var f := FrameAt(p, r.packet[r.start..r.start + r.length]);
              && f.Valid() && |f.Header()| == r.start && f.opcode == r.opcode
              && p == f.Encode() + p[r.start + r.length..]
  {
    hide Frame.Header, Frame.Encode, Frame.Valid, Unmask, XorKey;
    if Parse(p).Ready? && |p| < U32 {
      var h := ReadHead(p).value;
      var payload := Parse(p).packet[h.start..h.start + h.length];
      HeadSound(p, payload);
      ReadPayloadSound(p, h, FrameAt(p, payload));
    }
  }

  lemma ReadPayloadSound(p: seq<byte>, h: Head, f: Frame)
    requires h.Fits(p) && h.start + h.length <= |p|
    requires f.Valid() && f.Header() == p[..h.start]
    requires f.key == if h.masked then Some(p[h.start - 4..h.start]) else None
    requires f.payload == (if h.masked then Unmask(p, h) else p)[h.start..h.start + h.length]
    ensures p == f.Encode() + p[h.start + h.length..]
  {
    hide Frame.Header, Frame.Valid, XorKey;
    var raw, end := p[h.start..h.start + h.length], h.start + h.length;
    assert p[..end] == p[..h.start] + raw;
    assert p == p[..end] + p[end..];
    if h.masked {
      assert f.payload == XorKey(raw, f.key.value);
      XorKeyInvolutive(raw, f.key.value);
    }
  }
}
