/** What any measured durations mean to the decoders, whether or not a transmitter would send them;
    and the encodings in numbers.
 */
module IrFrames {
  import opened Bits
  import opened IrProtocol

  // ----- NEC and Samsung

  /** The spaces carry these four bytes, least significant bit first: a long space is a set bit. */
  predicate Carries(pulses: seq<nat>, data: seq<byte>)
    requires |pulses| >= 67 && |data| == 4
  {
    forall j, k :: 0 <= j < 4 && 0 <= k < 8 ==> (pulses[3 + 2 * (8 * j + k)] > 1124 <==> Bit(data[j], k))
  }

  /** The synchronisation pair. */
  predicate InSync(proto: Protocol, pulses: seq<nat>)
    requires |pulses| >= 2 && !proto.Sony?
  {
    && (if proto.Nec? then 8711 < pulses[0] < 9273 else 4215 < pulses[0] < 4777)
    && 4215 < pulses[1] < 4777
  }

  /** NEC's repeat code. */
  predicate Repeats(proto: Protocol, pulses: seq<nat>)
    requires |pulses| >= 3
  {
    proto.Nec? && 8711 < pulses[0] < 9273 && 1967 < pulses[1] < 2529 && 281 < pulses[2] < 843
  }

  /** The address in the first two bytes. */
  function AddressIn(proto: Protocol, data: seq<byte>): nat
    requires |data| == 4
  {
    if data[1] == (if proto.Nec? then 255 - data[0] else data[0]) then data[0] as nat
    else data[0] as nat + 256 * data[1] as nat
  }

  lemma SpaceBit(proto: Protocol, pulses: seq<nat>, j: nat, k: nat)
    requires !proto.Sony? && |pulses| >= 67 && j < 4 && k < 8
    ensures SpaceBits(proto, pulses, 3, 32)[8 * j..8 * j + 8][k] == (pulses[3 + 2 * (8 * j + k)] > 1124)
  {
    var i := 8 * j + k;
    assert SpaceBits(proto, pulses, 3, 32)[i] == (pulses[3 + 2 * i] > 2 * proto.Base());
  }

  lemma CarriedByte(proto: Protocol, pulses: seq<nat>, data: seq<byte>, j: nat)
    requires !proto.Sony? && |pulses| >= 67 && |data| == 4 && Carries(pulses, data) && j < 4
    ensures ByteAt(SpaceBits(proto, pulses, 3, 32), j) == data[j]
  {
    var bits := SpaceBits(proto, pulses, 3, 32);
    forall k | 0 <= k < 8
      ensures bits[8 * j..8 * j + 8][k] == LowBits(data[j], 8)[k]
    {
      SpaceBit(proto, pulses, j, k);
    }
    hide LowBits, ByteAt;
    ByteOfLowBits(bits, j, data[j]);
  }

  /** Some bytes are always carried. */
  lemma SomeData(proto: Protocol, pulses: seq<nat>) returns (data: seq<byte>)
    requires !proto.Sony? && |pulses| >= 67
    ensures |data| == 4 && Carries(pulses, data)
  {
    hide SpaceBits, Number;
    var bits := SpaceBits(proto, pulses, 3, 32);
    data := [ByteAt(bits, 0), ByteAt(bits, 1), ByteAt(bits, 2), ByteAt(bits, 3)];
    forall j, k | 0 <= j < 4 && 0 <= k < 8
      ensures pulses[3 + 2 * (8 * j + k)] > 1124 <==> Bit(data[j], k)
    {
      BitOfNumber(bits[8 * j..8 * j + 8], k);
      SpaceBit(proto, pulses, j, k);
    }
  }

  lemma {:induction false} BitOfNumber(bits: seq<bool>, k: nat)
    requires k < |bits|
    ensures Bit(Number(bits), k) == bits[k]
  {
    var n := Number(bits[1..]);
    assert ((if bits[0] then 1 else 0) + 2 * n) / 2 == n;
    if k > 0 { BitOfNumber(bits[1..], k - 1); }
  }

  /** For any four bytes carried behind a synchronisation pair: the message is accepted if and only if
      the last byte is the complement of the third and the address is the receiver's, and these are
      the address and the function that are decoded.
   */
  lemma DecodeOfData(proto: Protocol, pulses: seq<nat>, data: seq<byte>, address: nat)
    requires !proto.Sony? && |pulses| >= 67 && |data| == 4 && InSync(proto, pulses) && Carries(pulses, data)
    ensures var addr := AddressIn(proto, data);
            Decode(proto, pulses, address)
            == Decoded(data[3] == 255 - data[2] && (addr == address || address == 0xffff), addr, data[2])
  {
    CarriedByte(proto, pulses, data, 0);
    CarriedByte(proto, pulses, data, 1);
    CarriedByte(proto, pulses, data, 2);
    CarriedByte(proto, pulses, data, 3);
    XorIsComplement(data[0], data[1]);
    XorIsComplement(data[2], data[3]);
    hide SpaceBits, ByteAt, XorByte, Carries;
  }

  /** Exactly what the NEC and Samsung decoders accept, of all durations. */
  lemma SpacesAcceptedIff(proto: Protocol, pulses: seq<nat>, address: nat)
    requires !proto.Sony?
    ensures Decode(proto, pulses, address).ok <==>
              && |pulses| >= 3
              && (Repeats(proto, pulses)
                  || (InSync(proto, pulses) && |pulses| >= 67
                      && exists data: seq<byte> ::
                           |data| == 4 && Carries(pulses, data) && data[3] == 255 - data[2]
                           && (address == 0xffff || address == AddressIn(proto, data))))
  {
    if |pulses| >= 67 && InSync(proto, pulses) {
      var data := SomeData(proto, pulses);
      DecodeOfData(proto, pulses, data, address);
      forall other: seq<byte> | |other| == 4 && Carries(pulses, other)
        ensures Decode(proto, pulses, address).ok
                <==> other[3] == 255 - other[2] && (address == 0xffff || address == AddressIn(proto, other))
      {
        DecodeOfData(proto, pulses, other, address);
      }
      hide DecodeSpaces, Carries, AddressIn;
    } else {
      hide SpaceBits, ByteAt, FromBytes, Carries, AddressIn;
    }
  }

  /** The durations of any four bytes, jittered, carry these bytes. */
  lemma JitteredCarries(proto: Protocol, data: seq<byte>, seen: seq<nat>)
    requires !proto.Sony? && |data| == 4
    requires Jittered([proto.SyncMark(), 4496] + Pairs(WordOf(data), 562, 1686) + [562], seen, 280)
    ensures |seen| == 67 && InSync(proto, seen) && Carries(seen, data)
  {
    var bits := WordOf(data);
    var p := Pairs(bits, 562, 1686);
    var times := [proto.SyncMark(), 4496] + p + [562];
    hide WordOf, Pairs;
    forall j, k | 0 <= j < 4 && 0 <= k < 8
      ensures seen[3 + 2 * (8 * j + k)] > 1124 <==> Bit(data[j], k)
    {
      var i := 8 * j + k;
      PairsAt(bits, 562, 1686, i);
      assert times[3 + 2 * i] == p[2 * i + 1];
      assert bits[i] == bits[8 * j..8 * j + 8][k] == LowBits(data[j], 8)[k];
    }
    assert times[0] == proto.SyncMark() && times[1] == 4496;
  }

  // ----- Sony

  /** Every mark is of its length, and every space is short or long. */
  predicate WellFormed(pulses: seq<nat>, from: nat, count: nat)
    requires from + 2 * count <= |pulses|
  {
    forall k :: 0 <= k < count ==>
      && 300 < pulses[from + 2 * k] < 900
      && 300 < pulses[from + 2 * k + 1] < 1500 && pulses[from + 2 * k + 1] != 900
  }

  /** The second durations carry the low `count` bits of `x`. */
  predicate CarriesBits(pulses: seq<nat>, from: nat, count: nat, x: nat)
    requires from + 2 * count <= |pulses|
  {
    forall k :: 0 <= k < count ==> (pulses[from + 2 * k + 1] > 900 <==> Bit(x, k))
  }

  lemma {:induction false} MarkBitsIff(pulses: seq<nat>, from: nat, count: nat)
    requires from + 2 * count <= |pulses|
    ensures var f := MarkBits(pulses, from, count);
            && (f.ok <==> WellFormed(pulses, from, count))
            && (f.ok ==> |f.bits| == count
                         && forall k :: 0 <= k < count ==> (f.bits[k] <==> pulses[from + 2 * k + 1] > 900))
    decreases count
  {
    if count > 0 {
      MarkBitsIff(pulses, from + 2, count - 1);
      WellFormedNext(pulses, from, count);
      var f, rest := MarkBits(pulses, from, count), MarkBits(pulses, from + 2, count - 1);
      if f.ok {
        forall k | 0 <= k < count
          ensures f.bits[k] <==> pulses[from + 2 * k + 1] > 900
        {
          if k > 0 {
            assert f.bits[k] == rest.bits[k - 1];
            assert from + 2 + 2 * (k - 1) + 1 == from + 2 * k + 1;
          }
        }
      }
    }
  }

  lemma WellFormedNext(pulses: seq<nat>, from: nat, count: nat)
    requires 0 < count && from + 2 * count <= |pulses|
    ensures WellFormed(pulses, from, count) <==>
              && 300 < pulses[from] < 900 && 300 < pulses[from + 1] < 1500 && pulses[from + 1] != 900
              && WellFormed(pulses, from + 2, count - 1)
  {
    if WellFormed(pulses, from + 2, count - 1) {
      forall k | 0 < k < count
        ensures 300 < pulses[from + 2 * k] < 900
        ensures 300 < pulses[from + 2 * k + 1] < 1500 && pulses[from + 2 * k + 1] != 900
      {
        var m := k - 1;
        assert from + 2 + 2 * m == from + 2 * k;
      }
    }
    if WellFormed(pulses, from, count) {
      forall k | 0 <= k < count - 1
        ensures 300 < pulses[from + 2 + 2 * k] < 900
        ensures 300 < pulses[from + 2 + 2 * k + 1] < 1500 && pulses[from + 2 + 2 * k + 1] != 900
      {
        var m := k + 1;
        assert from + 2 * m == from + 2 + 2 * k;
      }
      var zero := 0;
      assert from + 2 * zero == from;
    }
  }

  lemma FieldValue(pulses: seq<nat>, from: nat, count: nat, x: nat)
    requires from + 2 * count <= |pulses| && WellFormed(pulses, from, count) && CarriesBits(pulses, from, count, x)
    ensures Value16(MarkBits(pulses, from, count).bits) == x % Pow2(Min(16, count))
  {
    MarkBitsIff(pulses, from, count);
    assert MarkBits(pulses, from, count).bits == LowBits(x, count);
    Value16OfLowBits(x, count);
  }

  /** For any function and address carried by a full Sony message: it is accepted if and only if the
      synchronisation mark and every pair are well-formed and the address is the receiver's, both as
      far as sixteen bits hold them.
   */
  lemma MarksAcceptedIff(proto: Protocol, pulses: seq<nat>, addr: nat, func: nat, address: nat)
    requires proto.Sony? && |pulses| == 1 + 2 * (proto.valueSize + proto.addressSize)
    requires CarriesBits(pulses, 1, proto.valueSize, func)
    requires CarriesBits(pulses, 1 + 2 * proto.valueSize, proto.addressSize, addr)
    ensures var a, d := addr % Pow2(Min(16, proto.addressSize)), Decode(proto, pulses, address);
            && (d.ok <==> 2100 < pulses[0] < 2700
                          && WellFormed(pulses, 1, proto.valueSize)
                          && WellFormed(pulses, 1 + 2 * proto.valueSize, proto.addressSize)
                          && (address == 0xffff || address == a))
            && (d.ok ==> d.addr == a && d.func == func % Pow2(Min(16, proto.valueSize)))
  {
    hide MarkBits, WellFormed, CarriesBits, Value16, Pow2;
    var from := 1 + 2 * proto.valueSize;
    MarkBitsIff(pulses, 1, proto.valueSize);
    MarkBitsIff(pulses, from, proto.addressSize);
    if WellFormed(pulses, 1, proto.valueSize) { FieldValue(pulses, 1, proto.valueSize, func); }
    if WellFormed(pulses, from, proto.addressSize) { FieldValue(pulses, from, proto.addressSize, addr); }
  }

  // ----- the encodings in numbers

  /** The NEC and Samsung messages: sync pair, 32 pairs of a mark and a space whose length is the bit,
      least significant bit first, and a last mark. The bytes are the address, its complement (NEC) or
      copy (Samsung) or high byte, the function and its complement.
   */
  lemma SpaceTimesAre(proto: Protocol, addr: nat, func: nat, j: nat, k: nat)
    requires !proto.Sony? && addr < 0x1_0000 && j < 4 && k < 8
    ensures var times := Times(proto, addr, func);
            var data := [addr % 256, if addr > 255 then addr / 256 else if proto.Nec? then 255 - addr else addr,
                         func % 256, 255 - func % 256];
            && |times| == 67 && times[0] == (if proto.Nec? then 8992 else 4496) && times[1] == 4496
            && times[2 + 2 * (8 * j + k)] == 562
            && times[3 + 2 * (8 * j + k)] == (if Bit(data[j], k) then 1686 else 562)
            && times[66] == 562
  {
    SpaceTimes(proto, addr, func);
    var bits := Word(proto, addr, func);
    var data := DataBytes(proto, addr, func);
    var p, i := Pairs(bits, 562, 1686), 8 * j + k;
    PairsAt(bits, 562, 1686, i);
    assert bits[i] == bits[8 * j..8 * j + 8][k] == LowBits(data[j], 8)[k];
    hide Times, Pairs, WordOf, Word;
    assert Times(proto, addr, func)[2 + 2 * i] == p[2 * i] && Times(proto, addr, func)[3 + 2 * i] == p[2 * i + 1];
  }

  /** The Sony message: sync mark, and pairs for the bits of the function and then of the address. */
  lemma MarkTimesAre(proto: Protocol, addr: nat, func: nat, k: nat)
    requires proto.Sony? && addr < 0x1_0000 && k < proto.valueSize + proto.addressSize
    ensures var times, n := Times(proto, addr, func), proto.valueSize;
            && |times| == 1 + 2 * (n + proto.addressSize) && times[0] == 2400 && times[1 + 2 * k] == 600
            && times[2 + 2 * k] == if (if k < n then Bit(func, k) else Bit(addr, k - n)) then 1200 else 600
  {
    var bits := Word(proto, addr, func);
    var p := Pairs(bits, 600, 1200);
    PairsAt(bits, 600, 1200, k);
    assert Times(proto, addr, func) == [2400] + p;
    assert bits[k] == if k < proto.valueSize then Bit(func, k) else Bit(addr, k - proto.valueSize);
    hide Pairs, Times, Word, LowBits, Bit;
    assert ([2400] + p)[1 + 2 * k] == p[2 * k] && ([2400] + p)[2 + 2 * k] == p[2 * k + 1];
  }
}
