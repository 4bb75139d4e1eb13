/** Decimal numbers as text. */
module Decimal {
  import opened Bits

  /** Decimal digits, as printed by "%d". */
  function Digits(n: nat): (r: seq<byte>)
    ensures r != [] && forall k :: 0 <= k < |r| ==> 48 <= r[k] < 58
  {
    if n < 10 then [48 + n] else Digits(n / 10) + [48 + n % 10]
  }

  function Value(digits: seq<byte>): int {
    if digits == [] then 0 else 10 * Value(digits[..|digits| - 1]) + digits[|digits| - 1] as int - 48
  }

  lemma {:induction false} ValueOfDigits(n: nat)
    ensures Value(Digits(n)) == n
  {
    var d := Digits(n);
    if n < 10 {
      assert d[..0] == [];
    } else {
      assert d[..|d| - 1] == Digits(n / 10);
      ValueOfDigits(n / 10);
    }
  }

  function Pow10(k: nat): nat {
    if k == 0 then 1 else 10 * Pow10(k - 1)
  }

  lemma {:induction false} DigitsShort(n: nat, k: nat)
    requires n < Pow10(k) && k >= 1
    ensures |Digits(n)| <= k
  {
    if n >= 10 { DigitsShort(n / 10, k - 1); }
  }

  lemma PrintedShort(n: nat)
    requires n < 0x8000_0000
    ensures |Digits(n)| <= 10
  {
    assert Pow10(5) == 100000;
    assert Pow10(10) == 10000000000;
    DigitsShort(n, 10);
  }

  predicate IsDigit(c: byte) { 48 <= c < 58 }

  /** The number written by the leading digits of `s`, as `strtoul` accumulates it. */
  function LeadingNumber(s: seq<byte>, sofar: nat): nat {
    if s == [] || !IsDigit(s[0]) then sofar else LeadingNumber(s[1..], 10 * sofar + (s[0] as nat - 48))
  }

  lemma {:induction false} LeadingNumberSnoc(s: seq<byte>, c: byte, sofar: nat)
    requires IsDigit(c) && forall k :: 0 <= k < |s| ==> IsDigit(s[k])
    ensures LeadingNumber(s + [c], sofar) == 10 * LeadingNumber(s, sofar) + (c as nat - 48)
  {
    if s == [] {
      assert ([] + [c])[1..] == [];
    } else {
      assert (s + [c])[1..] == s[1..] + [c];
      LeadingNumberSnoc(s[1..], c, 10 * sofar + (s[0] as nat - 48));
    }
  }

  /** Reading back a printed number. */
  lemma {:induction false} ReadPrinted(n: nat)
    ensures LeadingNumber(Digits(n), 0) == n
  {
    if n < 10 {
      assert Digits(n)[1..] == [];
    } else {
      ReadPrinted(n / 10);
      LeadingNumberSnoc(Digits(n / 10), 48 + n % 10, 0);
    }
  }
}
