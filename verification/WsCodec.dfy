/** `WS::BuildPacket` and `WS::ParsePacket`: the printer and the in-place parser of
    WebSocket packets, each proved against the frame format.
 */
module WsCodec {
  import opened Bits
  import opened Options
  import opened WsFrame

  /** The frame that the printer produces: final, with the shortest length form, and masked
      only when asked to and when there is something to mask.
   */
  function BuiltFrame(opcode: nat, payload: seq<byte>, mask: bool, key: seq<byte>): Frame {
    Frame(true, 0, opcode,
          if |payload| < 126 then Len7 else if |payload| < 0x1_0000 then Len16 else Len64([0, 0, 0, 0]),
          if mask && |payload| > 0 then Some(key) else None,
          payload)
  }

  lemma BuiltFrameValid(opcode: nat, payload: seq<byte>, mask: bool, key: seq<byte>)
    requires opcode < 16 && |key| == 4 && |payload| + 14 < U32
    ensures BuiltFrame(opcode, payload, mask, key).Valid()
  {
  }

  /** The header of a packet byte by byte: the FIN bit and the opcode; the mask bit and the length code;
      and the length, most significant byte first, where the code does not hold it.
   */
  lemma PacketBytes(opcode: nat, payload: seq<byte>, mask: bool, key: seq<byte>)
    requires opcode < 16 && |key| == 4 && |payload| + 14 < U32
    ensures BuiltFrame(opcode, payload, mask, key).Valid()
    ensures var msg, n := BuiltFrame(opcode, payload, mask, key).Encode(), |payload|;
            && |msg| >= (if n < 126 then 2 else if n < 0x1_0000 then 4 else 10)
            && msg[0] == 128 + opcode && (msg[1] >= 128 <==> mask && n > 0)
            && msg[1] % 128 == (if n < 126 then n else if n < 0x1_0000 then 126 else 127)
            && (126 <= n < 0x1_0000 ==> n == 0x100 * (msg[2] as int) + msg[3] as int)
            && (0x1_0000 <= n ==> msg[2] == msg[3] == msg[4] == msg[5] == 0)
            && (0x1_0000 <= n ==> n == 0x100_0000 * (msg[6] as int) + 0x1_0000 * (msg[7] as int)
                                       + 0x100 * (msg[8] as int) + msg[9] as int)
  {
    BuiltFrameValid(opcode, payload, mask, key);
    HeaderBytes(opcode, payload, mask, key);
    var f := BuiltFrame(opcode, payload, mask, key);
    var h, rest := f.Header(), if mask && |payload| > 0 then XorKey(payload, key) else payload;
    assert f.Encode() == h + rest;
    hide Frame.Header, Frame.Encode, BuiltFrame, Frame.Valid, XorKey;
    Joined(h, rest);
  }

  /** What follows the length: the key, if the packet is masked, and the payload, each byte combined with
      its byte of the key.
   */
  lemma PacketPayload(opcode: nat, payload: seq<byte>, mask: bool, key: seq<byte>)
    requires opcode < 16 && |key| == 4 && |payload| + 14 < U32
    ensures BuiltFrame(opcode, payload, mask, key).Valid()
    ensures var msg, n := BuiltFrame(opcode, payload, mask, key).Encode(), |payload|;
            var start := (if n < 126 then 2 else if n < 0x1_0000 then 4 else 10) + (if mask && n > 0 then 4 else 0);
            && |msg| == start + n && (mask && n > 0 ==> msg[start - 4..start] == key)
            && forall i :: 0 <= i < n ==> msg[start + i] == if mask then XorByte(payload[i], key[i % 4]) else payload[i]
  {
    BuiltFrameValid(opcode, payload, mask, key);
    HeaderBytes(opcode, payload, mask, key);
    RestBytes(payload, mask, key);
    var f := BuiltFrame(opcode, payload, mask, key);
    var h, rest := f.Header(), if mask && |payload| > 0 then XorKey(payload, key) else payload;
    assert f.Encode() == h + rest;
    hide Frame.Header, Frame.Encode, BuiltFrame, Frame.Valid, XorKey, XorByte;
    Joined(h, rest);
  }

  lemma RestBytes(payload: seq<byte>, mask: bool, key: seq<byte>)
    requires |key| == 4
    ensures var rest := if mask && |payload| > 0 then XorKey(payload, key) else payload;
            && |rest| == |payload|
            && forall i :: 0 <= i < |payload| ==>
                 rest[i] == if mask then XorByte(payload[i], key[i % 4]) else payload[i]
  {
  }

  lemma Joined(h: seq<byte>, rest: seq<byte>)
    ensures forall i :: 0 <= i < |h| ==> (h + rest)[i] == h[i]
    ensures forall i :: 0 <= i < |rest| ==> (h + rest)[|h| + i] == rest[i]
    ensures |h| >= 4 ==> (h + rest)[|h| - 4..|h|] == h[|h| - 4..]
  {
  }

  lemma HeaderBytes(opcode: nat, payload: seq<byte>, mask: bool, key: seq<byte>)
    requires opcode < 16 && |key| == 4 && BuiltFrame(opcode, payload, mask, key).Valid()
    ensures var h, n := BuiltFrame(opcode, payload, mask, key).Header(), |payload|;
            && |h| == (if n < 126 then 2 else if n < 0x1_0000 then 4 else 10) + (if mask && n > 0 then 4 else 0)
            && h[0] == 128 + opcode && (h[1] >= 128 <==> mask && n > 0)
            && h[1] % 128 == (if n < 126 then n else if n < 0x1_0000 then 126 else 127)
            && (126 <= n < 0x1_0000 ==> n == 0x100 * (h[2] as int) + h[3] as int)
            && (0x1_0000 <= n ==> h[2] == h[3] == h[4] == h[5] == 0)
            && (0x1_0000 <= n ==> n == 0x100_0000 * (h[6] as int) + 0x1_0000 * (h[7] as int) + 0x100 * (h[8] as int)
                                       + h[9] as int)
            && (mask && n > 0 ==> h[|h| - 4..] == key)
  {
    var f := BuiltFrame(opcode, payload, mask, key);
    HeaderShape(f);
    HeaderEndsWithKey(f);
    FirstByte(opcode, payload, mask, key);
    hide Frame.Header;
  }

  lemma FirstByte(opcode: nat, payload: seq<byte>, mask: bool, key: seq<byte>)
    requires opcode < 16 && |key| == 4 && |payload| < U32
    ensures var h := BuiltFrame(opcode, payload, mask, key).Header();
            && h[0] == 128 + opcode
            && (|payload| >= 0x1_0000 ==> h[2] == h[3] == h[4] == h[5] == 0)
  {
  }

  /** An unmasked packet. */
  function Wire(first: byte, payload: seq<byte>): (msg: seq<byte>)
    requires |payload| < U32
    ensures |payload| < 126 ==> msg == [first, |payload|] + payload
  {
    var n := |payload|;
    [first]
    + (if n < 126 then [n]
       else if n < 0x1_0000 then [126, n / 0x100, n % 0x100]
       else [127, 0, 0, 0, 0, n / 0x100_0000, n / 0x1_0000 % 0x100, n / 0x100 % 0x100, n % 0x100])
    + payload
  }

  lemma WireIs(opcode: nat, payload: seq<byte>, key: seq<byte>)
    requires opcode < 16 && |key| == 4 && |payload| + 14 < U32
    ensures BuiltFrame(opcode, payload, false, key).Valid()
    ensures BuiltFrame(opcode, payload, false, key).Encode() == Wire(128 + opcode, payload)
  {
  }

  lemma EncodedIs(opcode: nat, payload: seq<byte>, mask: bool, key: seq<byte>)
    requires opcode < 16 && |key| == 4 && BuiltFrame(opcode, payload, mask, key).Valid()
    ensures BuiltFrame(opcode, payload, mask, key).Encode()
            == BuiltFrame(opcode, payload, mask, key).Header()
               + (if mask && payload != [] then XorKey(payload, key) else payload)
  {
  }

  lemma PacketStart(opcode: nat, payload: seq<byte>, mask: bool, key: seq<byte>)
    requires opcode < 16 && |key| == 4 && |payload| + 14 < U32
    ensures BuiltFrame(opcode, payload, mask, key).Valid()
    ensures var msg := BuiltFrame(opcode, payload, mask, key).Encode();
            && |msg| >= 2 && msg[0] == 128 + opcode && (msg[1] >= 128 <==> mask && payload != [])
            && (!mask ==> msg == Wire(128 + opcode, payload))
  {
    hide Wire;
    PacketBytes(opcode, payload, mask, key);
    if !mask { WireIs(opcode, payload, key); }
  }

  /** Unmasked examples of section 5.7 of RFC 6455: "Hello" as a text packet and as a ping. */
  lemma RfcExamples(key: seq<byte>)
    requires |key| == 4
    ensures var hello := [0x48, 0x65, 0x6c, 0x6c, 0x6f];
            && BuiltFrame(1, hello, false, key).Encode() == [0x81, 0x05, 0x48, 0x65, 0x6c, 0x6c, 0x6f]
            && BuiltFrame(9, hello, false, key).Encode() == [0x89, 0x05, 0x48, 0x65, 0x6c, 0x6c, 0x6f]
  {
    var hello: seq<byte> := [0x48, 0x65, 0x6c, 0x6c, 0x6f];
    hide Frame.Encode, Frame.Header, BuiltFrame;
    WireIs(1, hello, key);
    WireIs(9, hello, key);
  }

  /** And packets of 256 bytes and of 64 KiB. */
  lemma RfcLongExamples(key: seq<byte>, payload: seq<byte>)
    requires |key| == 4 && (|payload| == 256 || |payload| == 65536)
    ensures BuiltFrame(2, payload, false, key).Valid()
    ensures BuiltFrame(2, payload, false, key).Encode()
            == (if |payload| == 256 then [0x82, 0x7e, 0x01, 0x00] else [0x82, 0x7f, 0, 0, 0, 0, 0, 1, 0, 0]) + payload
  {
    hide Frame.Encode, Frame.Header, BuiltFrame;
    WireIs(2, payload, key);
  }

  /** The header bytes that both overloads of the printer assemble for a payload of `length`. */
  method BuildHeader(opcode: nat, ghost payload: seq<byte>, length: nat, maskBit: bool, key: seq<byte>)
    returns (hdr: seq<byte>)
    requires opcode < 16 && |key| == 4 && |payload| == length < U32
    ensures hdr == BuiltFrame(opcode, payload, maskBit, key).Header()
    ensures |hdr| >= 2 && hdr[0] == 128 + opcode
  {
    var code := if length < 126 then length else if length < 0x1_0000 then 126 else 127;
    hdr := [128 + opcode];
    hdr := hdr + [(if maskBit && length > 0 then 128 else 0) + code];
    if code == 126 {
      hdr := hdr + [length / 0x100 % 0x100];
      hdr := hdr + [length % 0x100];
    }
    if code == 127 {
      hdr := hdr + [0, 0, 0, 0];
      hdr := hdr + [length / 0x100_0000 % 0x100];
      hdr := hdr + [length / 0x1_0000 % 0x100];
      hdr := hdr + [length / 0x100 % 0x100];
      hdr := hdr + [length % 0x100];
    }
    if maskBit && length > 0 {
      hdr := hdr + key;
    }
  }

  /** The masking loop that the printer and the parser share. */
  method XorInPlace(buffer: seq<byte>, start: nat, length: nat, key: seq<byte>) returns (packet: seq<byte>)
    requires |key| == 4 && start + length <= |buffer|
    ensures packet == buffer[..start] + XorKey(buffer[start..start + length], key) + buffer[start + length..]
  {
    packet := buffer;
    var i := 0;
    while i < length
      invariant 0 <= i <= length && |packet| == |buffer|
      invariant forall k :: 0 <= k < |buffer| ==>
        packet[k] == if start <= k < start + i then XorByte(buffer[k], key[(k - start) % 4]) else buffer[k]
    {
      packet := packet[start + i := XorByte(packet[start + i], key[i % 4])];
      i := i + 1;
    }
  }

  /** The printer. `key` is the random masking key. */
  method BuildPacket(opcode: nat, payload: seq<byte>, mask: bool, key: seq<byte>) returns (msg: seq<byte>)
    requires opcode < 16 && |key| == 4 && |payload| + 14 < U32
    ensures BuiltFrame(opcode, payload, mask, key).Valid()
    ensures msg == BuiltFrame(opcode, payload, mask, key).Encode()
    ensures |msg| >= 2 && msg[0] == 128 + opcode && (msg[1] >= 128 <==> mask && payload != [])
    ensures !mask ==> msg == Wire(128 + opcode, payload)
  {
    PacketStart(opcode, payload, mask, key);
    EncodedIs(opcode, payload, mask, key);
    hide Frame.Header, Frame.Encode, Frame.Valid, BuiltFrame, Wire, XorKey;
    var hdr := BuildHeader(opcode, payload, |payload|, mask, key);
    var payloadIndex := |hdr|;
    msg := hdr + payload;
    SplitAgain(hdr, payload);
    if mask && |payload| > 0 {
      msg := XorInPlace(msg, payloadIndex, |payload|, key);
      assert hdr + XorKey(payload, key) + [] == hdr + XorKey(payload, key);
    }
  }

  lemma SplitAgain(a: seq<byte>, b: seq<byte>)
    ensures (a + b)[..|a|] == a && (a + b)[|a|..|a| + |b|] == b && (a + b)[|a| + |b|..] == []
  {
  }

  /** Round trip of printer and parser: whatever is built, in any length form, masked or not, and
      followed by anything, is parsed as one packet with the opcode and the payload.
   */
  lemma BuiltIsParsed(opcode: nat, payload: seq<byte>, mask: bool, key: seq<byte>, rest: seq<byte>)
    requires opcode < 16 && |key| == 4 && |payload| + 14 < U32
    ensures BuiltFrame(opcode, payload, mask, key).Valid()
    ensures var f := BuiltFrame(opcode, payload, mask, key);
            var start := |f.Header()|;
            var r := Parse(f.Encode() + rest);
            && r.Ready? && r.opcode == opcode && r.start == start && r.length == |payload|
            && r.packet[start..start + |payload|] == payload && r.packet[start + |payload|..] == rest
  {
    hide Parse, Frame.Encode, Frame.Header, Frame.Valid;
    BuiltFrameValid(opcode, payload, mask, key);
    var f := BuiltFrame(opcode, payload, mask, key);
    ParseEncode(f, rest);
    assert f.payload == payload && f.opcode == opcode;
  }

  /** The fields of `WebsocketPacketHeader_t` that are used after a successful parse. */
  datatype Header = Header(opcode: nat, start: nat, length: nat)

  datatype Status = Success | Fail | OutOfBounds

  /** The payload length and where its bytes end, if they have arrived. */
  method ParseLength(packet: seq<byte>) returns (ok: bool, payloadIndex: nat, length: nat)
    requires |packet| >= 2
    ensures ok <==> |packet| >= LengthEnd(packet[1] % 128)
    ensures ok ==> payloadIndex == LengthEnd(packet[1] % 128) && length == DeclaredLength(packet)
  {
    var code := packet[1] % 128;
    ok, payloadIndex, length := true, 2, code;
    if code == 126 {
      if |packet| < 4 {
        return false, payloadIndex, length;
      }
      length := FromBig16(packet[2], packet[3]);
      payloadIndex := 4;
    }
    if code == 127 {
      if |packet| < 10 {
        return false, payloadIndex, length;
      }
      length := FromBig32(packet[6], packet[7], packet[8], packet[9]);
      payloadIndex := 10;
    }
  }

  /** The parser. `buffer` is the packet string on entry and `packet` the same string on return. */
  method ParsePacket(buffer: seq<byte>) returns (status: Status, header: Header, packet: seq<byte>)
    ensures match Parse(buffer)
            case Incomplete => status == Fail && packet == buffer
            case OutOfBounds => status == Status.OutOfBounds && packet == buffer
            case Wrapped(opcode, start, length) =>
              status == Success && header == Header(opcode, start, length) && packet == buffer
            case Ready(opcode, start, length, unmasked) =>
              status == Success && header == Header(opcode, start, length) && packet == unmasked
  {
    hide XorKey, DeclaredLength, LengthEnd;
    header := Header(0, 0, 0);
    packet := buffer;
    if |packet| < 2 {
      return Fail, header, packet;
    }
    var maskBit := packet[1] >= 128;
    var ok, payloadIndex, length := ParseLength(packet);
    if !ok {
      return Fail, header, packet;
    }
    header := Header(packet[0] % 16, payloadIndex, length);
    if maskBit {
      if |packet| < payloadIndex + 4 {
        return Fail, header, packet;
      }
      var key := packet[payloadIndex..payloadIndex + 4];
      payloadIndex := payloadIndex + 4;
      if |packet| < (payloadIndex + length) % U32 {
        return Fail, header, packet;
      }
      if |packet| < payloadIndex + length {
        return Status.OutOfBounds, header, packet;
      }
      packet := XorInPlace(packet, payloadIndex, length, key);
    }
    if |packet| < (payloadIndex + length) % U32 {
      return Fail, header, packet;
    }
    header := header.(start := payloadIndex);
    status := Success;
  }
}
