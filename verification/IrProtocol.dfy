/** The NEC, Samsung and Sony infrared encodings: which pulse durations stand for an
    (address, function) pair, and what a decoder makes of measured durations. All durations
    are in microseconds.
 */
module IrProtocol {
  import opened Bits

  datatype Protocol = Nec | Samsung | Sony(addressSize: nat, valueSize: nat)
  {
    predicate Valid() {
      Sony? ==> 1 <= addressSize + valueSize
    }

    /** NEC_BASE_PULSE, SAMSUNG_BASE_PULSE and SONY_BASE_PULSE. */
    function Base(): nat { if Sony? then 600 else 562 }

    function SyncMark(): nat {
      match this
      case Nec => 16 * Base()
      case Samsung => 8 * Base()
      case Sony(_, _) => 4 * Base()
    }

    function SyncSpace(): nat {
      if Sony? then Base() else 8 * Base()
    }

    /** The receiver's buffer size. */
    function MaxPulses(): nat {
      if Sony? then 2 * (addressSize + valueSize) + 1 else 67
    }

    /** The largest deviation that `compare_pulse` with half a base pulse accepts. */
    function Tolerance(): nat { Base() / 2 - 1 }
  }

  predicate ComparePulse(pulse: nat, nominal: nat, band: nat) {
    nominal - band < pulse < nominal + band
  }

  predicate Near(proto: Protocol, pulse: nat, nominal: nat) {
    ComparePulse(pulse, nominal, proto.Base() / 2)
  }

  /** One pair of durations for each bit; the second one is long when the bit is set. */
  function Pairs(bits: seq<bool>, base: nat, long: nat): (r: seq<nat>)
    ensures |r| == 2 * |bits|
  {
    if bits == [] then [] else [base, if bits[0] then long else base] + Pairs(bits[1..], base, long)
  }

  lemma {:induction false} PairsAt(bits: seq<bool>, base: nat, long: nat, k: nat)
    requires k < |bits|
    ensures Pairs(bits, base, long)[2 * k] == base
    ensures Pairs(bits, base, long)[2 * k + 1] == if bits[k] then long else base
  {
    if k > 0 { PairsAt(bits[1..], base, long, k - 1); }
  }

  lemma {:induction false} PairsOfConcat(a: seq<bool>, b: seq<bool>, base: nat, long: nat)
    ensures Pairs(a + b, base, long) == Pairs(a, base, long) + Pairs(b, base, long)
  {
    if a == [] {
      assert a + b == b;
    } else {
      assert (a + b)[1..] == a[1..] + b;
      PairsOfConcat(a[1..], b, base, long);
    }
  }

  /** The two address bytes. A short address is followed by its complement (NEC) or repeated (Samsung). */
  function AddressHigh(proto: Protocol, addr: nat): byte
    requires addr < 0x1_0000
  {
    if addr > 255 then addr / 256 else if proto.Nec? then 255 - addr else addr
  }

  function DataBytes(proto: Protocol, addr: nat, func: nat): (data: seq<byte>)
    requires addr < 0x1_0000
    ensures |data| == 4
  {
    [addr % 256, AddressHigh(proto, addr), func % 256, 255 - func % 256]
  }

  function WordOf(data: seq<byte>): (bits: seq<bool>)
    requires |data| == 4
    ensures |bits| == 32
    ensures forall j :: 0 <= j < 4 ==> bits[8 * j..8 * j + 8] == LowBits(data[j], 8)
  {
    LowBits(data[0], 8) + LowBits(data[1], 8) + LowBits(data[2], 8) + LowBits(data[3], 8)
  }

  /** The bits of a message in transmission order. */
  function Word(proto: Protocol, addr: nat, func: nat): seq<bool>
    requires addr < 0x1_0000
  {
    if proto.Sony? then LowBits(func, proto.valueSize) + LowBits(addr, proto.addressSize)
    else WordOf(DataBytes(proto, addr, func))
  }

  /** The on/off durations of a message, beginning and ending with a mark. */
  function Times(proto: Protocol, addr: nat, func: nat): seq<nat>
    requires addr < 0x1_0000
  {
    var bits := Word(proto, addr, func);
    if proto.Sony? then [proto.SyncMark()] + Pairs(bits, proto.Base(), 2 * proto.Base())
    else [proto.SyncMark(), proto.SyncSpace()] + Pairs(bits, proto.Base(), 3 * proto.Base()) + [proto.Base()]
  }

  /** The NEC code for "same message again". */
  const REPEAT_CODE: seq<nat> := [16 * 562, 4 * 562, 562]

  datatype Decoded = Decoded(ok: bool, addr: nat, func: nat)

  predicate Accepts(address: nat, addr: nat) {
    addr == address || address == 0xffff
  }

  /** NEC and Samsung bits are carried by the spaces. */
  function SpaceBits(proto: Protocol, pulses: seq<nat>, from: nat, count: nat): (bits: seq<bool>)
    requires from + 2 * count <= |pulses| + 1
    ensures |bits| == count
  {
    seq(count, k requires 0 <= k < count => pulses[from + 2 * k] > 2 * proto.Base())
  }

  /** Address and function from the four data bytes. */
  function FromBytes(proto: Protocol, d0: byte, d1: byte, d2: byte, d3: byte, address: nat): Decoded {
    var short := if proto.Nec? then XorByte(d0, d1) == 0xff else d0 == d1;
    var addr := if short then d0 else d0 + d1 * 256;
    Decoded(XorByte(d2, d3) == 0xff && Accepts(address, addr), addr, d2)
  }

  function ByteAt(bits: seq<bool>, j: nat): byte
    requires 8 * j + 8 <= |bits|
  {
    NumberBound(bits[8 * j..8 * j + 8]);
    Pow2Is256();
    Number(bits[8 * j..8 * j + 8])
  }

  function DecodeSpaces(proto: Protocol, pulses: seq<nat>, address: nat): Decoded
    requires !proto.Sony?
  {
    if |pulses| < 3 then Decoded(false, 0, 0) else
      var i1 := if Near(proto, pulses[0], proto.SyncMark()) then 1 else 0;
      if proto.Nec? && Near(proto, pulses[i1], 4 * proto.Base()) && Near(proto, pulses[i1 + 1], proto.Base()) then
        Decoded(i1 == 1, 0, 0)
      else
        var i3 := if Near(proto, pulses[i1], proto.SyncSpace()) then i1 + 2 else i1 + 1;
        if i3 != 3 || |pulses| < 67 then Decoded(false, 0, 0) else
          var bits := SpaceBits(proto, pulses, 3, 32);
          FromBytes(proto, ByteAt(bits, 0), ByteAt(bits, 1), ByteAt(bits, 2), ByteAt(bits, 3), address)
  }

  /** Sony bits are carried by the marks. Reading stops at the first malformed pair. */
  datatype Field = Field(ok: bool, bits: seq<bool>)

  function MarkBits(pulses: seq<nat>, from: nat, count: nat): Field
    requires from + 2 * count <= |pulses|
    decreases count
  {
    if count == 0 then Field(true, [])
    else if !ComparePulse(pulses[from], 600, 300) then Field(false, [])
    else if ComparePulse(pulses[from + 1], 1200, 300) then
      var rest := MarkBits(pulses, from + 2, count - 1); rest.(bits := [true] + rest.bits)
    else if ComparePulse(pulses[from + 1], 600, 300) then
      var rest := MarkBits(pulses, from + 2, count - 1); rest.(bits := [false] + rest.bits)
    else Field(false, [])
  }

  /** A value collected with a 16-bit mask: bits from the seventeenth on are lost. */
  function Value16(bits: seq<bool>): nat {
    Number(if |bits| <= 16 then bits else bits[..16])
  }

  function DecodeMarks(proto: Protocol, pulses: seq<nat>, address: nat): Decoded
    requires proto.Sony?
  {
    if |pulses| < 1 || !Near(proto, pulses[0], proto.SyncMark()) || |pulses| < proto.MaxPulses() then
      Decoded(false, 0, 0)
    else
      var value := MarkBits(pulses, 1, proto.valueSize);
      if !value.ok then Decoded(false, 0, Value16(value.bits)) else
        var addr := MarkBits(pulses, 1 + 2 * proto.valueSize, proto.addressSize);
        Decoded(addr.ok && Accepts(address, Value16(addr.bits)), Value16(addr.bits), Value16(value.bits))
  }

  function Decode(proto: Protocol, pulses: seq<nat>, address: nat): Decoded {
    if proto.Sony? then DecodeMarks(proto, pulses, address) else DecodeSpaces(proto, pulses, address)
  }

  /** `observed` is `times` with every duration off by at most `tolerance`. */
  predicate Jittered(times: seq<nat>, observed: seq<nat>, tolerance: nat) {
    && |observed| == |times|
    && forall i :: 0 <= i < |times| ==> times[i] - tolerance <= observed[i] <= times[i] + tolerance
  }

  /** A long address that reads back as a short one. */
  predicate Ambiguous(proto: Protocol, addr: nat)
    requires addr < 0x1_0000
  {
    addr > 255 && ((proto.Nec? && addr / 256 == 255 - addr % 256) || (proto.Samsung? && addr / 256 == addr % 256))
  }

  function Min(a: nat, b: nat): nat { if a <= b then a else b }

  /** What a receiver can know of a transmitted address and function. */
  function SentAddress(proto: Protocol, addr: nat): nat
    requires addr < 0x1_0000
  {
    if proto.Sony? then addr % Pow2(Min(16, proto.addressSize))
    else if Ambiguous(proto, addr) then addr % 256 else addr
  }

  function SentFunction(proto: Protocol, func: nat): nat {
    func % (if proto.Sony? then Pow2(Min(16, proto.valueSize)) else 256)
  }

  lemma {:induction false} MarkBitsOfPairs(bits: seq<bool>, pulses: seq<nat>, from: nat)
    requires from + 2 * |bits| <= |pulses|
    requires Jittered(Pairs(bits, 600, 1200), pulses[from..from + 2 * |bits|], 299)
    ensures MarkBits(pulses, from, |bits|) == Field(true, bits)
    decreases |bits|
  {
    if bits != [] {
      var p, seen, b := Pairs(bits, 600, 1200), pulses[from..from + 2 * |bits|], bits[1..];
      assert pulses[from] == seen[0] && pulses[from + 1] == seen[1] && p[0] == 600;
      assert seen[2..] == pulses[from + 2..from + 2 + 2 * |b|];
      JitteredSlice(p, seen, 299, 2, |p|);
      hide Pairs, Jittered;
      MarkBitsOfPairs(b, pulses, from + 2);
      assert bits == [bits[0]] + b;
    }
  }

  lemma JitteredSlice(times: seq<nat>, observed: seq<nat>, tolerance: nat, lo: nat, hi: nat)
    requires Jittered(times, observed, tolerance) && lo <= hi <= |times|
    ensures Jittered(times[lo..hi], observed[lo..hi], tolerance)
  {
  }

  lemma Value16OfLowBits(x: nat, n: nat)
    ensures Value16(LowBits(x, n)) == x % Pow2(Min(16, n))
  {
    var m := Min(16, n);
    assert (if |LowBits(x, n)| <= 16 then LowBits(x, n) else LowBits(x, n)[..16]) == LowBits(x, m);
    NumberOfLowBits(x, m);
  }

  lemma SonyTimes(proto: Protocol, addr: nat, func: nat)
    requires proto.Sony? && addr < 0x1_0000
    ensures Times(proto, addr, func)
            == [2400] + Pairs(LowBits(func, proto.valueSize), 600, 1200)
               + Pairs(LowBits(addr, proto.addressSize), 600, 1200)
  {
    hide Pairs, LowBits;
    PairsOfConcat(LowBits(func, proto.valueSize), LowBits(addr, proto.addressSize), 600, 1200);
  }

  lemma FieldsOfTimes(proto: Protocol, addr: nat, func: nat, observed: seq<nat>)
    requires proto.Sony? && addr < 0x1_0000
    requires Jittered(Times(proto, addr, func), observed, 299)
    ensures |observed| == proto.MaxPulses() && Near(proto, observed[0], 2400)
    ensures MarkBits(observed, 1, proto.valueSize) == Field(true, LowBits(func, proto.valueSize))
    ensures MarkBits(observed, 1 + 2 * proto.valueSize, proto.addressSize)
            == Field(true, LowBits(addr, proto.addressSize))
  {
    hide Times, Pairs, MarkBits, LowBits;
    var v, a := LowBits(func, proto.valueSize), LowBits(addr, proto.addressSize);
    var times := Times(proto, addr, func);
    var pv, pa := Pairs(v, 600, 1200), Pairs(a, 600, 1200);
    SonyTimes(proto, addr, func);
    var n := 1 + |pv|;
    assert times[1..n] == pv && times[n..|times|] == pa && times[0] == 2400;
    JitteredSlice(times, observed, 299, 1, n);
    JitteredSlice(times, observed, 299, n, |times|);
    hide Jittered;
    MarkBitsOfPairs(v, observed, 1);
    MarkBitsOfPairs(a, observed, n);
  }

  lemma DecodeMarksOfTimes(proto: Protocol, addr: nat, func: nat, observed: seq<nat>, address: nat)
    requires proto.Sony? && addr < 0x1_0000
    requires Jittered(Times(proto, addr, func), observed, proto.Tolerance())
    ensures Decode(proto, observed, address)
            == Decoded(Accepts(address, SentAddress(proto, addr)), SentAddress(proto, addr), SentFunction(proto, func))
  {
    FieldsOfTimes(proto, addr, func, observed);
    Value16OfLowBits(func, proto.valueSize);
    Value16OfLowBits(addr, proto.addressSize);
    hide Times, Pairs, MarkBits, LowBits, Jittered, Value16, Pow2;
  }

  lemma ByteOfLowBits(bits: seq<bool>, j: nat, x: byte)
    requires 8 * j + 8 <= |bits| && bits[8 * j..8 * j + 8] == LowBits(x, 8)
    ensures ByteAt(bits, j) == x
  {
    hide LowBits, Number, Pow2;
    NumberOfLowBits(x, 8);
    Pow2Is256();
  }

  lemma SpaceBitsOfTimes(proto: Protocol, addr: nat, func: nat, observed: seq<nat>)
    requires !proto.Sony? && addr < 0x1_0000
    requires Jittered(Times(proto, addr, func), observed, 280)
    ensures |observed| == 67 && SpaceBits(proto, observed, 3, 32) == Word(proto, addr, func)
    ensures Near(proto, observed[0], proto.SyncMark()) && Near(proto, observed[1], proto.SyncSpace())
  {
    var bits, times := Word(proto, addr, func), Times(proto, addr, func);
    var p := Pairs(bits, 562, 1686);
    SpaceTimes(proto, addr, func);
    hide Word, Times, Pairs;
    forall k | 0 <= k < 32
      ensures SpaceBits(proto, observed, 3, 32)[k] == bits[k]
    {
      PairsAt(bits, 562, 1686, k);
      assert times[2 * k + 3] == p[2 * k + 1];
    }
    assert times[0] == proto.SyncMark() && times[1] == proto.SyncSpace();
  }

  lemma SpaceTimes(proto: Protocol, addr: nat, func: nat)
    requires !proto.Sony? && addr < 0x1_0000
    ensures proto.Base() == 562 && |Word(proto, addr, func)| == 32
    ensures Word(proto, addr, func) == WordOf(DataBytes(proto, addr, func))
    ensures Times(proto, addr, func)
            == [proto.SyncMark(), proto.SyncSpace()] + Pairs(Word(proto, addr, func), 562, 1686) + [562]
  {
    hide Pairs;
  }

  lemma BytesOfWord(data: seq<byte>, j: nat)
    requires |data| == 4 && j < 4
    ensures ByteAt(WordOf(data), j) == data[j]
  {
    hide LowBits, WordOf;
    ByteOfLowBits(WordOf(data), j, data[j]);
  }

  lemma FromSentBytes(proto: Protocol, addr: nat, f: byte, address: nat)
    requires !proto.Sony? && addr < 0x1_0000
    ensures FromBytes(proto, addr % 256, AddressHigh(proto, addr), f, 255 - f, address)
            == Decoded(Accepts(address, SentAddress(proto, addr)), SentAddress(proto, addr), f)
  {
    hide XorByte, Pow2;
    XorIsComplement(addr % 256, AddressHigh(proto, addr));
    XorIsComplement(f, 255 - f);
  }

  /** NEC's repeat space is not its synchronisation space. */
  lemma FarSpaces(proto: Protocol)
    requires !proto.Sony?
    ensures forall x :: Near(proto, x, proto.SyncSpace()) && proto.Nec? ==> !Near(proto, x, 4 * proto.Base())
  {
  }

  lemma DecodeSpacesOfTimes(proto: Protocol, addr: nat, func: nat, observed: seq<nat>, address: nat)
    requires !proto.Sony? && addr < 0x1_0000
    requires Jittered(Times(proto, addr, func), observed, proto.Tolerance())
    ensures Decode(proto, observed, address)
            == Decoded(Accepts(address, SentAddress(proto, addr)), SentAddress(proto, addr), SentFunction(proto, func))
  {
    SpaceBitsOfTimes(proto, addr, func, observed);
    FarSpaces(proto);
    hide WordOf, Times, Jittered, SpaceBits, ByteAt, FromBytes, SentAddress, Near, Protocol.SyncMark;
    hide Protocol.SyncSpace;
    hide Protocol.Base, AddressHigh, Accepts;
    var data := DataBytes(proto, addr, func);
    BytesOfWord(data, 0);
    BytesOfWord(data, 1);
    BytesOfWord(data, 2);
    BytesOfWord(data, 3);
    FromSentBytes(proto, addr, func % 256, address);
  }

  /** Decoding survives any jitter within the tolerance, and recovers all that the protocol carries. */
  lemma DecodeTimes(proto: Protocol, addr: nat, func: nat, observed: seq<nat>, address: nat)
    requires addr < 0x1_0000 && Jittered(Times(proto, addr, func), observed, proto.Tolerance())
    ensures Decode(proto, observed, address)
            == Decoded(Accepts(address, SentAddress(proto, addr)), SentAddress(proto, addr), SentFunction(proto, func))
  {
    if proto.Sony? {
      DecodeMarksOfTimes(proto, addr, func, observed, address);
    } else {
      DecodeSpacesOfTimes(proto, addr, func, observed, address);
    }
  }

  /** The address arrives intact exactly when it is not ambiguous and fits the protocol's field. */
  lemma AddressIntact(proto: Protocol, addr: nat)
    requires addr < 0x1_0000
    ensures SentAddress(proto, addr) == addr
            <==> if proto.Sony? then addr < Pow2(Min(16, proto.addressSize)) else !Ambiguous(proto, addr)
  {
    if proto.Sony? {
      var p := Pow2(Min(16, proto.addressSize));
      if addr < p { ModUnique(addr, p, 0, addr); }
    }
  }
}
