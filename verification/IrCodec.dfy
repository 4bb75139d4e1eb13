/** The encoding and decoding loops of the infrared transmitters and receivers, proved to
    compute the durations and messages of `IrProtocol`.
 */
module IrCodec {
  import opened Bits
  import opened IrProtocol

  lemma PairsSnoc(bits: seq<bool>, k: nat, base: nat, long: nat)
    requires k < |bits|
    ensures Pairs(bits[..k + 1], base, long) == Pairs(bits[..k], base, long) + [base, if bits[k] then long else base]
  {
    assert bits[..k + 1] == bits[..k] + [bits[k]];
    PairsOfConcat(bits[..k], [bits[k]], base, long);
    assert Pairs([bits[k]], base, long) == [base, if bits[k] then long else base] + Pairs([bits[k]][1..], base, long);
  }

  /** The eight bits of one data byte, least significant first; the byte is shifted out as they go. */
  method AppendByte(proto: Protocol, times: seq<nat>, data: byte) returns (longer: seq<nat>)
    requires !proto.Sony?
    ensures longer == times + Pairs(LowBits(data, 8), proto.Base(), 3 * proto.Base())
  {
    var d: nat := data;
    longer := times;
    var kk := 0;
    assert LowBits(data, 8)[..0] == [];
    while kk < 8
      invariant 0 <= kk <= 8
      invariant forall m: nat :: Bit(d, m) == Bit(data, kk + m)
      invariant longer == times + Pairs(LowBits(data, 8)[..kk], proto.Base(), 3 * proto.Base())
    {
      hide Pairs;
      longer := longer + [proto.Base()];
      assert Bit(d, 0) == Bit(data, kk + 0);
      if d % 2 == 0 {
        longer := longer + [proto.Base()];
      } else {
        longer := longer + [3 * proto.Base()];
      }
      PairsSnoc(LowBits(data, 8), kk, proto.Base(), 3 * proto.Base());
      assert forall m: nat :: Bit(d / 2, m) == Bit(d, m + 1);
      d := d / 2;
      kk := kk + 1;
    }
    assert LowBits(data, 8)[..8] == LowBits(data, 8);
  }

  /** The four bytes of a message: address, address check or high byte, function, its complement. */
  method MessageBytes(proto: Protocol, addr: nat, func: nat) returns (data: seq<byte>)
    requires !proto.Sony? && addr < 0x1_0000
    ensures data == DataBytes(proto, addr, func)
  {
    hide XorByte;
    var low: byte, f: byte := addr % 256, func % 256;
    XorFF(low);
    XorFF(f);
    if addr > 255 {
      data := [low, addr / 256 % 256];
    } else {
      data := [low, if proto.Nec? then XorByte(low, 0xff) else low];
    }
    data := data + [f];
    data := data + [XorByte(f, 0xff)];
  }

  /** `setMessageTimes` of the NEC and Samsung transmitters. */
  method SpaceMessageTimes(proto: Protocol, addr: nat, func: nat) returns (times: seq<nat>)
    requires !proto.Sony? && addr < 0x1_0000
    ensures times == Times(proto, addr, func)
  {
    hide LowBits, Pairs, WordOf, DataBytes, Times;
    var data := MessageBytes(proto, addr, func);
    SpaceTimes(proto, addr, func);
    var base, long := proto.Base(), 3 * proto.Base();
    ghost var bits := WordOf(data);
    times := [proto.SyncMark()];
    times := times + [proto.SyncSpace()];
    ghost var sync := times;
    assert bits[..0] == [] && Pairs(bits[..0], base, long) == [];
    var jj := 0;
    while jj < 4
      invariant 0 <= jj <= 4
      invariant times == sync + Pairs(bits[..8 * jj], base, long)
    {
      assert bits[..8 * jj + 8] == bits[..8 * jj] + bits[8 * jj..8 * jj + 8];
      PairsOfConcat(bits[..8 * jj], LowBits(data[jj], 8), base, long);
      times := AppendByte(proto, times, data[jj]);
      jj := jj + 1;
    }
    assert bits[..32] == bits;
    times := times + [proto.Base()];
  }

  /** A `uint16_t` mask after `k` shifts from 1. */
  predicate Mask16(mask: nat, k: nat) {
    mask == if k < 16 then Pow2(k) else 0
  }

  lemma Mask16Shift(mask: nat, k: nat)
    requires Mask16(mask, k)
    ensures Mask16(mask * 2 % 0x1_0000, k + 1)
  {
    Pow2Of16();
    if k < 15 { Pow2Grows(k + 1, 15); }
  }

  lemma Mask16Tests(x: nat, mask: nat, k: nat)
    requires Mask16(mask, k) && x < 0x1_0000
    ensures And(x, mask) == 0 <==> !Bit(x, k)
  {
    if k < 16 {
      AndPow2(x, k);
    } else {
      Pow2Of16();
      Pow2Grows(16, k);
      HighBitsZero(x, k);
      assert And(x, 0) == 0;
    }
  }

  /** One field of a Sony message. */
  method AppendField(times: seq<nat>, x: nat, count: nat) returns (longer: seq<nat>)
    requires x < 0x1_0000
    ensures longer == times + Pairs(LowBits(x, count), 600, 1200)
  {
    ghost var bits := LowBits(x, count);
    assert bits[..0] == [];
    longer := times;
    var jj, mask: nat := 0, 1;
    while jj < count
      invariant 0 <= jj <= count && Mask16(mask, jj)
      invariant longer == times + Pairs(bits[..jj], 600, 1200)
    {
      hide Pairs, And, LowBits, Mask16, Bit;
      Mask16Tests(x, mask, jj);
      if And(x, mask) == 0 {
        longer := longer + [600];
        longer := longer + [600];
      } else {
        longer := longer + [600];
        longer := longer + [2 * 600];
      }
      PairsSnoc(bits, jj, 600, 1200);
      Mask16Shift(mask, jj);
      jj, mask := jj + 1, mask * 2 % 0x1_0000;
    }
    assert bits[..count] == bits;
  }

  /** `setMessageTimes` of the Sony transmitter, whose local array has 42 entries. */
  method MarkMessageTimes(proto: Protocol, addr: nat, func: nat) returns (times: seq<nat>)
    requires proto.Sony? && addr < 0x1_0000 && func < 0x1_0000
    requires proto.addressSize + proto.valueSize <= 20
    ensures times == Times(proto, addr, func)
  {
    times := [4 * 600];
    times := AppendField(times, func, proto.valueSize);
    times := AppendField(times, addr, proto.addressSize);
    SonyTimes(proto, addr, func);
  }

  /** The inner decoding loop: eight spaces from index `from` make one byte. */
  method ReadByte(proto: Protocol, pulses: seq<nat>, from: nat) returns (data: byte)
    requires !proto.Sony? && |pulses| >= 67 && from + 16 <= 67
    ensures data == Number(SpaceBits(proto, pulses, from, 8))
  {
    ghost var bits := SpaceBits(proto, pulses, from, 8);
    assert bits[..0] == [];
    data := 0;
    var mask: nat, kk, ii := 1, 0, from;
    while kk < 8
      invariant 0 <= kk <= 8 && ii == from + 2 * kk
      invariant mask == if kk < 8 then Pow2(kk) else 0
      invariant data == Number(bits[..kk])
    {
      hide Number, Or, Pow2;
      SetBit(bits, kk, mask);
      if pulses[ii] > 2 * proto.Base() {
        data := Or(data, mask);
      }
      mask := mask * 2 % 256;
      kk, ii := kk + 1, ii + 2;
    }
    assert bits[..8] == bits;
  }

  lemma SetBit(bits: seq<bool>, k: nat, mask: nat)
    requires k < |bits| == 8 && mask == Pow2(k)
    ensures Number(bits[..k + 1]) == if bits[k] then Or(Number(bits[..k]), mask) else Number(bits[..k])
    ensures Number(bits[..k + 1]) < 256
    ensures mask * 2 % 256 == if k + 1 < 8 then Pow2(k + 1) else 0
  {
    ShiftMask(k);
    Pow2Grows(k + 1, 8);
    hide Number, Or, Pow2;
    assert bits[..k + 1] == bits[..k] + [bits[k]];
    NumberBound(bits[..k]);
    NumberBound(bits[..k + 1]);
    NumberSnoc(bits[..k], bits[k]);
    OrPow2(Number(bits[..k]), k);
  }

  lemma ShiftMask(k: nat)
    requires k < 8
    ensures Pow2(8) == 256 && Pow2(k) * 2 % 256 == if k < 7 then Pow2(k + 1) else 0
  {
    Pow2Is256();
    assert Pow2(7) == 128;
    if k < 7 { Pow2Grows(k + 1, 7); }
  }

  /** `decode` of the NEC and Samsung receivers. */
  method DecodeBySpaces(proto: Protocol, pulses: seq<nat>, address: nat) returns (ok: bool, addr: nat, func: nat)
    requires !proto.Sony?
    ensures Decoded(ok, addr, func) == Decode(proto, pulses, address)
  {
    ok, addr, func := false, 0, 0;
    if |pulses| < 3 {
      return;
    }
    var ii := 0;
    if Near(proto, pulses[ii], proto.SyncMark()) {
      ii := ii + 1;
    }
    if proto.Nec? && Near(proto, pulses[ii], 4 * proto.Base()) && Near(proto, pulses[ii + 1], proto.Base()) {
      return ii == 1, addr, func;
    }
    if Near(proto, pulses[ii], proto.SyncSpace()) {
      ii := ii + 1;
    }
    ii := ii + 1;
    if ii != 3 || |pulses| - ii < 64 {
      return;
    }
    hide Number, SpaceBits, XorByte;
    var d0 := ReadByte(proto, pulses, 3);
    var d1 := ReadByte(proto, pulses, 19);
    var d2 := ReadByte(proto, pulses, 35);
    var d3 := ReadByte(proto, pulses, 51);
    addr, func := d0, d2;
    if (proto.Nec? && XorByte(d0, d1) != 0xff) || (proto.Samsung? && d0 != d1) {
      addr := d0 as nat + d1 as nat * 256;
    }
    if XorByte(d2, d3) == 0xff {
      if addr == address || address == 0xffff {
        ok := true;
      }
    }
    BytesOfSpaces(proto, pulses);
  }

  lemma BytesOfSpaces(proto: Protocol, pulses: seq<nat>)
    requires |pulses| >= 67
    ensures var bits := SpaceBits(proto, pulses, 3, 32);
            && ByteAt(bits, 0) == Number(SpaceBits(proto, pulses, 3, 8))
            && ByteAt(bits, 1) == Number(SpaceBits(proto, pulses, 19, 8))
            && ByteAt(bits, 2) == Number(SpaceBits(proto, pulses, 35, 8))
            && ByteAt(bits, 3) == Number(SpaceBits(proto, pulses, 51, 8))
  {
    hide Number;
    var bits := SpaceBits(proto, pulses, 3, 32);
    assert bits[0..8] == SpaceBits(proto, pulses, 3, 8);
    assert bits[8..16] == SpaceBits(proto, pulses, 19, 8);
    assert bits[16..24] == SpaceBits(proto, pulses, 35, 8);
    assert bits[24..32] == SpaceBits(proto, pulses, 51, 8);
  }

  function Prepend(bits: seq<bool>, f: Field): Field {
    f.(bits := bits + f.bits)
  }

  /** One pair read: either the field ends there or it goes on after it. */
  lemma FieldStep(pulses: seq<nat>, from: nat, count: nat, read: seq<bool>)
    requires 0 < count && from + 2 * count <= |pulses|
    ensures var field := Prepend(read, MarkBits(pulses, from, count));
            var space, mark := ComparePulse(pulses[from], 600, 300), ComparePulse(pulses[from + 1], 600, 300);
            var long := ComparePulse(pulses[from + 1], 1200, 300);
            if space && (long || mark) then field == Prepend(read + [long], MarkBits(pulses, from + 2, count - 1))
            else field == Field(false, read)
  {
    var rest := MarkBits(pulses, from + 2, count - 1).bits;
    assert read + ([true] + rest) == read + [true] + rest;
    assert read + ([false] + rest) == read + [false] + rest;
    assert read + [] == read;
  }

  /** One of the two decoding loops of the Sony receiver. */
  method ReadField(pulses: seq<nat>, from: nat, count: nat) returns (ok: bool, value: nat)
    requires from + 2 * count <= |pulses|
    ensures var f := MarkBits(pulses, from, count); ok == f.ok && value == Value16(f.bits)
  {
    hide MarkBits, Value16, Or, ComparePulse, Prepend, Mask16;
    ghost var read: seq<bool> := [];
    ghost var field := MarkBits(pulses, from, count);
    FieldStart(field);
    value := 0;
    var mask: nat, jj, ii := 1, 0, from;
    while jj < count
      invariant 0 <= jj <= count && ii == from + 2 * jj && |read| == jj
      invariant Mask16(mask, jj) && value == Value16(read)
      invariant field == Prepend(read, MarkBits(pulses, ii, count - jj))
    {
      FieldStep(pulses, ii, count - jj, read);
      var space, mark := pulses[ii], pulses[ii + 1];
      if !ComparePulse(space, 600, 300) {
        return false, value;
      }
      var bit := ComparePulse(mark, 1200, 300);
      Value16Snoc(read, bit, mask);
      if bit {
        value := Or(value, mask);
      } else if !ComparePulse(mark, 600, 300) {
        return false, value;
      }
      read := read + [bit];
      Mask16Shift(mask, jj);
      jj, ii, mask := jj + 1, ii + 2, mask * 2 % 0x1_0000;
    }
    FieldEnd(pulses, ii, read);
    ok := true;
  }

  lemma FieldStart(f: Field)
    ensures Prepend([], f) == f && Value16([]) == 0 && Mask16(1, 0)
  {
    assert [] + f.bits == f.bits;
  }

  lemma FieldEnd(pulses: seq<nat>, from: nat, read: seq<bool>)
    requires from <= |pulses|
    ensures Prepend(read, MarkBits(pulses, from, 0)) == Field(true, read)
  {
    assert read + [] == read;
  }

  lemma Value16Snoc(bits: seq<bool>, b: bool, mask: nat)
    requires Mask16(mask, |bits|)
    ensures Value16(bits + [b]) == if b then Or(Value16(bits), mask) else Value16(bits)
  {
    if |bits| < 16 {
      NumberBound(bits);
      NumberSnoc(bits, b);
      OrPow2(Number(bits), |bits|);
    } else {
      assert (bits + [b])[..16] == bits[..16];
      OrZero(Value16(bits));
    }
  }

  /** `decode` of the Sony receiver. */
  method DecodeByMarks(proto: Protocol, pulses: seq<nat>, address: nat) returns (ok: bool, addr: nat, func: nat)
    requires proto.Sony?
    ensures Decoded(ok, addr, func) == Decode(proto, pulses, address)
  {
    ok, addr, func := false, 0, 0;
    if |pulses| < 1 {
      return;
    }
    var ii := 0;
    if ComparePulse(pulses[ii], 600 * 4, 300) {
      ii := ii + 1;
    }
    if ii != 1 || |pulses| - ii < (proto.addressSize + proto.valueSize) * 2 + 1 - 1 {
      return;
    }
    var valid;
    valid, func := ReadField(pulses, ii, proto.valueSize);
    if !valid {
      return;
    }
    ii := ii + 2 * proto.valueSize;
    valid, addr := ReadField(pulses, ii, proto.addressSize);
    if !valid {
      return;
    }
    if addr == address || address == 0xffff {
      ok := true;
    }
  }
}
