/** Byte strings: searching, splicing and C strings. */
module Text {
  import opened Bits
  import opened Options

  const CRLF: seq<byte> := [13, 10]
  const BLANK_LINE: seq<byte> := [13, 10, 13, 10]

  /** The bytes of a string literal. */
  function Ascii(s: string): (r: seq<byte>)
    ensures |r| == |s| && forall i :: 0 <= i < |s| ==> r[i] == s[i] as int % 256
  {
    seq(|s|, i requires 0 <= i < |s| => s[i] as int % 256)
  }

  /** `s` with the `n` bytes at `offset` replaced by `r`. */
  function Splice(s: seq<byte>, offset: nat, n: nat, r: seq<byte>): seq<byte>
    requires offset + n <= |s|
  {
    s[..offset] + r + s[offset + n..]
  }

  /** The characters of a C string stored in `s`: those before the first NUL. */
  function CString(s: seq<byte>): (r: seq<byte>)
    ensures |r| <= |s| && r == s[..|r|] && 0 !in r
    ensures forall k :: 0 <= k < |r| ==> s[k] != 0
    ensures |r| < |s| ==> s[|r|] == 0
  {
    if s == [] || s[0] == 0 then [] else [s[0]] + CString(s[1..])
  }

  lemma {:induction false} CStringWithoutNul(s: seq<byte>)
    requires 0 !in s
    ensures CString(s) == s
  {
    if s != [] { CStringWithoutNul(s[1..]); }
  }

  predicate OccursAt(s: seq<byte>, p: seq<byte>, i: nat) {
    i + |p| <= |s| && s[i..i + |p|] == p
  }

  lemma OccursAfter(prefix: seq<byte>, s: seq<byte>, p: seq<byte>, j: nat)
    ensures OccursAt(prefix + s, p, |prefix| + j) <==> OccursAt(s, p, j)
  {
    if j + |p| <= |s| {
      assert (prefix + s)[|prefix| + j..|prefix| + j + |p|] == s[j..j + |p|];
    }
  }

  lemma OccursBefore(a: seq<byte>, b: seq<byte>, p: seq<byte>, j: nat)
    requires j + |p| <= |a|
    ensures OccursAt(a + b, p, j) <==> OccursAt(a, p, j)
  {
    assert (a + b)[j..j + |p|] == a[j..j + |p|];
  }

  lemma Mismatch(s: seq<byte>, p: seq<byte>, j: nat, k: nat)
    requires k < |p| && j + k < |s| && s[j + k] != p[k]
    ensures !OccursAt(s, p, j)
  {
    if j + |p| <= |s| {
      assert s[j..j + |p|][k] == s[j + k];
    }
  }

  /** The first occurrence of `p` in `s` at `from` or later. */
  function IndexFrom(s: seq<byte>, p: seq<byte>, from: nat): (r: Option<nat>)
    ensures r.Some? ==> from <= r.value && OccursAt(s, p, r.value)
    ensures forall i :: from <= i < (if r.Some? then r.value else |s| + 1) ==> !OccursAt(s, p, i)
    decreases |s| + 1 - from
  {
    if from + |p| > |s| then None
    else if OccursAt(s, p, from) then Some(from)
    else IndexFrom(s, p, from + 1)
  }

  function IndexOf(s: seq<byte>, p: seq<byte>): Option<nat> {
    IndexFrom(s, p, 0)
  }

  /** An occurrence with none before it is the first. */
  lemma IndexIs(s: seq<byte>, p: seq<byte>, from: nat, i: nat)
    requires from <= i && OccursAt(s, p, i)
    requires forall j :: from <= j < i ==> !OccursAt(s, p, j)
    ensures IndexFrom(s, p, from) == Some(i)
  {
  }

  lemma IndexAtMost(s: seq<byte>, p: seq<byte>, from: nat, i: nat)
    requires from <= i && OccursAt(s, p, i)
    ensures IndexFrom(s, p, from).Some? && IndexFrom(s, p, from).value <= i
  {
  }

  lemma IndexNone(s: seq<byte>, p: seq<byte>, from: nat)
    requires forall j :: from <= j <= |s| ==> !OccursAt(s, p, j)
    ensures IndexFrom(s, p, from) == None
  {
  }

  function Count(s: seq<byte>, c: byte): nat {
    multiset(s)[c]
  }

  lemma CountSplice(s: seq<byte>, offset: nat, n: nat, r: seq<byte>, c: byte)
    requires offset + n <= |s|
    ensures Count(Splice(s, offset, n, r), c) == Count(s, c) - Count(s[offset..offset + n], c) + Count(r, c)
  {
    assert s == s[..offset] + s[offset..offset + n] + s[offset + n..];
  }
}
