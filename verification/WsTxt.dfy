/** `WS::BuildPacket` on a text buffer: the header is inserted in front of the payload in place. */
module WsTxt {
  import opened Bits
  import opened TxtBuffer
  import opened WsFrame
  import opened WsCodec

  /** The header of a packet for a payload of `length` bytes. */
  function HeaderSize(length: nat, masked: bool): nat {
    (if length < 126 then 2 else if length < 0x1_0000 then 4 else 10) + (if masked then 4 else 0)
  }

  lemma HeaderSizeIs(opcode: nat, payload: seq<byte>, mask: bool, key: seq<byte>)
    requires opcode < 16 && |key| == 4
    ensures |BuiltFrame(opcode, payload, mask, key).Header()| == HeaderSize(|payload|, mask && |payload| > 0)
    ensures 2 <= HeaderSize(|payload|, mask && |payload| > 0) <= 14
  {
  }

  /** The bytes of a buffer once `count` of them from `start` on are combined with the key. */
  predicate Masked(now: seq<byte>, before: seq<byte>, start: nat, count: nat, key: seq<byte>)
    requires |key| == 4
  {
    && |now| == |before|
    && forall k :: 0 <= k < |now| ==>
         now[k] == if start <= k < start + count then XorByte(before[k], key[(k - start) % 4]) else before[k]
  }

  lemma NotMasked(s: seq<byte>, start: nat, key: seq<byte>)
    requires |key| == 4
    ensures Masked(s, s, start, 0, key)
  {
  }

  /** The same packet as the string overload builds. `inserted` is the whole buffer once the header
      stands before the payload. When masking, the loop counts the header into the payload: it also
      changes as many bytes behind the packet, which must still be in the buffer, and the first of
      them is the terminator.
   */
  method BuildPacketInPlace(opcode: nat, msg: Txt, mask: bool, key: seq<byte>)
    returns (size: nat, ghost inserted: seq<byte>)
    requires msg.Valid() && opcode < 16 && |key| == 4 && msg.endptr + 14 + 2048 < U32
    requires mask && msg.endptr > 0 ==>
               var h := HeaderSize(msg.endptr, true);
               msg.endptr + 2 * h <= GrownSize(msg.bufsiz, msg.endptr + h)
    modifies msg, msg.buffer
    ensures size == msg.endptr < msg.buffer.Length == msg.bufsiz
    ensures BuiltFrame(opcode, old(msg.Contents()), mask, key).Valid()
    ensures msg.Contents() == BuiltFrame(opcode, old(msg.Contents()), mask, key).Encode()
    ensures size >= 2 && msg.Contents()[0] == 128 + opcode
    ensures msg.Contents()[1] >= 128 <==> mask && old(msg.Contents()) != []
    ensures !mask ==> msg.Contents() == Wire(128 + opcode, old(msg.Contents()))
    ensures var header, payload := BuiltFrame(opcode, old(msg.Contents()), mask, key).Header(), old(msg.Contents());
            && |inserted| == msg.buffer.Length && inserted[..size] == header + payload && inserted[size] == 0
            && Masked(msg.buffer[..], inserted, |header|, if mask && payload != [] then size else 0, key)
    ensures msg.buffer[msg.endptr] == if mask && old(msg.endptr) > 0 then key[old(msg.endptr) % 4] else 0
  {
    ghost var payload := msg.Contents();
    PacketStart(opcode, payload, mask, key);
    EncodedIs(opcode, payload, mask, key);
    hide Frame.Header, Frame.Encode, BuiltFrame, Frame.Valid, XorKey, Xor, XorByte, Wire, GrownSize, Masked;
    var masked := mask && msg.endptr > 0;
    var hdr := InsertHeader(opcode, msg, mask, key);
    inserted := msg.buffer[..];
    assert inserted[..msg.endptr] == msg.Contents();
    NotMasked(inserted, |hdr|, key);
    if masked {
      MaskText(msg, hdr, payload, inserted, key);
    }
    size := msg.endptr;
  }

  /** The header in front of the payload, and where the buffer ends then. */
  method InsertHeader(opcode: nat, msg: Txt, mask: bool, key: seq<byte>) returns (hdr: seq<byte>)
    requires msg.Valid() && opcode < 16 && |key| == 4 && msg.endptr + 14 + 2048 < U32
    modifies msg, msg.buffer
    ensures msg.Valid() && (msg.buffer == old(msg.buffer) || fresh(msg.buffer))
    ensures hdr == BuiltFrame(opcode, old(msg.Contents()), mask, key).Header() && |hdr| >= 2
    ensures |hdr| == HeaderSize(old(msg.endptr), mask && old(msg.endptr) > 0)
    ensures msg.Contents() == hdr + old(msg.Contents())
    ensures msg.bufsiz == GrownSize(old(msg.bufsiz), old(msg.endptr) + |hdr|)
  {
    hide Frame.Header, GrownSize;
    HeaderSizeIs(opcode, msg.Contents(), mask, key);
    hdr := BuildHeader(opcode, msg.Contents(), msg.endptr, mask, key);
    var payloadIndex := msg.Insert(0, hdr, |hdr|);
  }

  /** The masking loop of a packet in the buffer, which runs as far behind the packet as the header is
      long.
   */
  method MaskText(msg: Txt, hdr: seq<byte>, ghost payload: seq<byte>, ghost inserted: seq<byte>, key: seq<byte>)
    requires msg.Valid() && |key| == 4 && |hdr| >= 1 && payload != []
    requires msg.Contents() == hdr + payload && |hdr| + msg.endptr <= msg.buffer.Length && inserted == msg.buffer[..]
    modifies msg.buffer
    ensures msg.Contents() == hdr + XorKey(payload, key) && msg.buffer[msg.endptr] == key[|payload| % 4]
    ensures Masked(msg.buffer[..], inserted, |hdr|, msg.endptr, key)
  {
    hide XorKey, Xor;
    assert forall k :: 0 <= k < msg.endptr ==> msg.buffer[k] == (hdr + payload)[k];
    MaskInPlace(msg.buffer, |hdr|, msg.endptr, key);
    MaskedContents(msg.buffer[..msg.endptr], hdr, payload, key);
    XorZero(key[|payload| % 4]);
  }

  method MaskInPlace(buffer: array<byte>, start: nat, count: nat, key: seq<byte>)
    requires |key| == 4 && start + count <= buffer.Length
    modifies buffer
    ensures forall k :: 0 <= k < buffer.Length ==>
      buffer[k] == if start <= k < start + count then XorByte(old(buffer[k]), key[(k - start) % 4]) else old(buffer[k])
  {
    var i := 0;
    while i < count
      invariant 0 <= i <= count
      invariant forall k :: 0 <= k < buffer.Length ==>
        buffer[k] == if start <= k < start + i then XorByte(old(buffer[k]), key[(k - start) % 4]) else old(buffer[k])
    {
      buffer[start + i] := XorByte(buffer[start + i], key[i % 4]);
      i := i + 1;
    }
  }

  lemma MaskedContents(now: seq<byte>, hdr: seq<byte>, payload: seq<byte>, key: seq<byte>)
    requires |key| == 4 && |now| == |hdr| + |payload|
    requires forall k :: 0 <= k < |now| ==>
               now[k] == if |hdr| <= k then XorByte((hdr + payload)[k], key[(k - |hdr|) % 4]) else (hdr + payload)[k]
    ensures now == hdr + XorKey(payload, key)
  {
    hide Xor;
  }
}
