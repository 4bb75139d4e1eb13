/** Bytes and the bit operations the sources apply to them.

    The target's `char` and `uint8_t` are both unsigned eight-bit values, so every string
    and packet of the model is a `seq<byte>`.
 */
module Bits {

  /** The number of values of `uint32_t` and, on the target, of `std::size_t`. */
  const U32: nat := 0x1_0000_0000

  type byte = x: int | 0 <= x < 256

  /** Big-endian bytes of a 16-bit and of a 32-bit number. */
  function Big16(n: nat): (r: seq<byte>)
    ensures |r| == 2
  {
    [n / 0x100 % 0x100, n % 0x100]
  }

  function Big32(n: nat): (r: seq<byte>)
    ensures |r| == 4
  {
    [n / 0x100_0000 % 0x100, n / 0x1_0000 % 0x100, n / 0x100 % 0x100, n % 0x100]
  }

  lemma Associate<T>(a: seq<T>, b: seq<T>, c: seq<T>)
    ensures a + b + c == a + (b + c)
  {
  }

  function Pow2(n: nat): (r: nat)
    ensures r >= 1
  {
    if n == 0 then 1 else 2 * Pow2(n - 1)
  }

  lemma {:induction false} Pow2Grows(m: nat, n: nat)
    requires m <= n
    ensures Pow2(m) <= Pow2(n)
  {
    if m < n { Pow2Grows(m, n - 1); }
  }

  lemma Pow2Of16()
    ensures Pow2(16) == 0x1_0000
  {
    Pow2Is256();
    assert Pow2(12) == 0x1000;
  }

  /** Bit `k` of `x`, counted from the least significant one. */
  predicate Bit(x: nat, k: nat) {
    if k == 0 then x % 2 == 1 else Bit(x / 2, k - 1)
  }

  /** The low `n` bits of `x`, least significant first. */
  function LowBits(x: nat, n: nat): (bits: seq<bool>)
    ensures |bits| == n
    ensures forall k :: 0 <= k < n ==> bits[k] == Bit(x, k)
  {
    if n == 0 then [] else
      var rest := LowBits(x / 2, n - 1);
      [x % 2 == 1] + rest
  }

  /** The number whose binary digits are `bits`, least significant first. */
  function Number(bits: seq<bool>): nat {
    if bits == [] then 0 else (if bits[0] then 1 else 0) + 2 * Number(bits[1..])
  }

  /** Reading the digits back truncates to their count. */
  lemma {:induction false} NumberOfLowBits(x: nat, n: nat)
    ensures Number(LowBits(x, n)) == x % Pow2(n)
  {
    if n > 0 {
      NumberOfLowBits(x / 2, n - 1);
      assert LowBits(x, n)[1..] == LowBits(x / 2, n - 1);
      ModHalf(x, Pow2(n - 1));
    }
  }

  lemma ModHalf(x: nat, p: nat)
    requires p > 0
    ensures x % (2 * p) == 2 * ((x / 2) % p) + x % 2
  {
    var y := x / 2;
    var q, r := y / p, 2 * (y % p) + x % 2;
    assert y == q * p + y % p;
    assert q * (2 * p) == 2 * (q * p);
    ModUnique(x, 2 * p, q, r);
  }

  lemma ModUnique(x: nat, m: nat, q: int, r: int)
    requires m > 0 && 0 <= r < m && x == q * m + r
    ensures x % m == r && x / m == q
  {
    var d := x / m - q;
    assert x == (x / m) * m + x % m;
    assert d * m == r - x % m by {
      assert d * m == (x / m) * m - q * m;
    }
    NonzeroMultiple(d, m);
  }

  lemma NonzeroMultiple(d: int, m: int)
    requires m > 0
    ensures d >= 1 ==> d * m >= m
    ensures d <= -1 ==> d * m <= -m
  {
    if d >= 1 {
      assert (d - 1) * m >= 0;
    } else if d <= -1 {
      assert (-d - 1) * m >= 0;
    }
  }

  /** Appending a more significant digit. */
  lemma {:induction false} NumberSnoc(bits: seq<bool>, b: bool)
    ensures Number(bits + [b]) == Number(bits) + (if b then Pow2(|bits|) else 0)
  {
    if bits == [] {
      assert [b][1..] == [];
    } else {
      assert (bits + [b])[1..] == bits[1..] + [b];
      NumberSnoc(bits[1..], b);
    }
  }

  lemma {:induction false} NumberBound(bits: seq<bool>)
    ensures Number(bits) < Pow2(|bits|)
  {
    if bits != [] { NumberBound(bits[1..]); }
  }

  /** Bitwise exclusive or. */
  function Xor(a: nat, b: nat): nat
    decreases a + b
  {
    if a == 0 && b == 0 then 0 else (a + b) % 2 + 2 * Xor(a / 2, b / 2)
  }

  lemma XorDigit(a: nat, b: nat)
    ensures Xor(a, b) == (a + b) % 2 + 2 * Xor(a / 2, b / 2)
    ensures Xor(a, b) / 2 == Xor(a / 2, b / 2)
  {
    if a == 0 && b == 0 { assert Xor(0, 0) == 0; }
  }

  lemma {:induction false} XorBound(a: nat, b: nat, n: nat)
    requires a < Pow2(n) && b < Pow2(n)
    ensures Xor(a, b) < Pow2(n)
  {
    XorDigit(a, b);
    if n > 0 { XorBound(a / 2, b / 2, n - 1); }
  }

  lemma {:induction false} XorBits(a: nat, b: nat, k: nat)
    ensures Bit(Xor(a, b), k) <==> Bit(a, k) != Bit(b, k)
    decreases k
  {
    hide Xor;
    XorDigit(a, b);
    if k > 0 { XorBits(a / 2, b / 2, k - 1); }
  }

  lemma ParityOfXor(a: nat, b: nat, h: nat)
    ensures ((a + b) % 2 + 2 * h + b) % 2 == a % 2
  {
    assert (a + b) % 2 + 2 * h + b == a + 2 * (b + h - (a + b) / 2);
  }

  /** Exclusive or with the same operand twice restores the first. */
  lemma {:induction false} XorInvolutive(a: nat, b: nat)
    ensures Xor(Xor(a, b), b) == a
    decreases a + b
  {
    if a == 0 && b == 0 {
      assert Xor(0, 0) == 0;
    } else {
      hide Xor;
      XorDigit(a, b);
      XorInvolutive(a / 2, b / 2);
      XorDigit(Xor(a, b), b);
      ParityOfXor(a, b, Xor(a / 2, b / 2));
    }
  }

  lemma {:induction false} XorCommutes(a: nat, b: nat)
    ensures Xor(a, b) == Xor(b, a)
    decreases a + b
  {
    XorDigit(a, b);
    if a != 0 || b != 0 {
      hide Xor;
      XorDigit(b, a);
      XorCommutes(a / 2, b / 2);
    }
  }

  lemma ParityOfOdd(a: nat, q: nat)
    ensures (a + (2 * q + 1)) % 2 == 1 - a % 2 && (2 * q + 1) / 2 == q
  {
  }

  lemma {:induction false} XorZero(b: nat)
    ensures Xor(0, b) == b
  {
    if b == 0 {
      assert Xor(0, 0) == 0;
    } else {
      hide Xor;
      XorDigit(0, b);
      XorZero(b / 2);
    }
  }

  /** Exclusive or with `n` one bits is the complement. */
  lemma {:induction false} XorOnes(a: nat, n: nat)
    requires a < Pow2(n)
    ensures Xor(a, Pow2(n) - 1) == Pow2(n) - 1 - a
  {
    if n > 0 {
      hide Xor;
      var half := Pow2(n - 1) - 1;
      assert Pow2(n) - 1 == 2 * half + 1;
      XorOnes(a / 2, n - 1);
      XorDigit(a, 2 * half + 1);
      ParityOfOdd(a, half);
    }
  }

  /** Bitwise and. */
  function And(a: nat, b: nat): nat {
    if a == 0 || b == 0 then 0 else (if a % 2 == 1 && b % 2 == 1 then 1 else 0) + 2 * And(a / 2, b / 2)
  }

  /** Bitwise or. */
  function Or(a: nat, b: nat): nat
    decreases a + b
  {
    if a == 0 && b == 0 then 0 else (if a % 2 == 1 || b % 2 == 1 then 1 else 0) + 2 * Or(a / 2, b / 2)
  }

  /** Testing a number against a one-bit mask tests that bit. */
  lemma {:induction false} AndPow2(x: nat, k: nat)
    ensures And(x, Pow2(k)) == if Bit(x, k) then Pow2(k) else 0
  {
    if x == 0 {
      ZeroHasNoBits(k);
    } else if k == 0 {
      assert And(x / 2, 0) == 0;
    } else {
      AndPow2(x / 2, k - 1);
      assert Pow2(k) / 2 == Pow2(k - 1);
    }
  }

  lemma {:induction false} ZeroHasNoBits(k: nat)
    ensures !Bit(0, k)
  {
    if k > 0 { ZeroHasNoBits(k - 1); }
  }

  lemma {:induction false} HighBitsZero(x: nat, k: nat)
    requires x < Pow2(k)
    ensures !Bit(x, k)
  {
    if k > 0 { HighBitsZero(x / 2, k - 1); }
  }

  lemma {:induction false} OrZero(x: nat)
    ensures Or(x, 0) == x
  {
    if x != 0 { OrZero(x / 2); }
  }

  /** Setting a bit above all the others adds it. */
  lemma {:induction false} OrPow2(x: nat, k: nat)
    requires x < Pow2(k)
    ensures Or(x, Pow2(k)) == x + Pow2(k)
  {
    if k == 0 {
      assert Or(0, 1) == 1 + 2 * Or(0, 0);
    } else {
      OrPow2(x / 2, k - 1);
      assert Pow2(k) / 2 == Pow2(k - 1);
    }
  }

  function XorByte(a: byte, b: byte): byte {
    XorBound(a, b, 8);
    Xor(a, b)
  }

  /** Bit by bit: set where the operands' bits differ. */
  lemma XorByteBits(a: byte, b: byte, k: nat)
    ensures Bit(XorByte(a, b), k) <==> Bit(a, k) != Bit(b, k)
  {
    XorBits(a, b, k);
  }

  lemma XorFF(a: byte)
    ensures XorByte(a, 0xff) == 255 - a
  {
    Pow2Is256();
    XorOnes(a, 8);
  }

  /** Two bytes are each other's complement exactly when their exclusive or is 0xff. */
  lemma XorIsComplement(a: byte, b: byte)
    ensures XorByte(a, b) == 255 <==> b == 255 - a
  {
    XorFF(a);
    XorFF(b);
    XorInvolutive(a, b);
    XorCommutes(255, b);
    XorInvolutive(255, a);
    XorCommutes(255, a);
    XorCommutes(a, b);
  }

  lemma Pow2Is256()
    ensures Pow2(8) == 256
  {
    assert Pow2(4) == 16;
  }
}
