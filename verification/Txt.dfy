/** The growable text buffer: in-place edits by overlapping shifts, always NUL-terminated. */
module TxtBuffer {
  import opened Bits
  import opened Options
  import opened Text

  /** The buffer size after making room for `length` characters. */
  function GrownSize(bufsiz: nat, length: nat): nat {
    if length >= bufsiz then (length + 2048) / 2048 * 2048 else bufsiz
  }

  lemma GrownSizeIs(bufsiz: nat, length: nat)
    ensures length < GrownSize(bufsiz, length)
    ensures length >= bufsiz ==> GrownSize(bufsiz, length) == (length + 2048) / 2048 * 2048
    ensures length < bufsiz ==> GrownSize(bufsiz, length) == bufsiz
  {
  }

  lemma GapMade(now: seq<byte>, before: seq<byte>, offset: nat, amount: nat)
    requires offset <= |before| && |now| == |before| + amount
    requires forall k :: 0 <= k < offset ==> now[k] == before[k]
    requires forall k :: offset + amount <= k < |now| ==> now[k] == before[k - amount]
    ensures now[..offset] == before[..offset] && now[offset + amount..] == before[offset..]
  {
  }

  lemma GapClosed(now: seq<byte>, before: seq<byte>, offset: nat, amount: nat)
    requires offset + amount <= |before| && |now| == |before| - amount
    requires forall k :: 0 <= k < offset ==> now[k] == before[k]
    requires forall k :: offset <= k < |now| ==> now[k] == before[k + amount]
    ensures now == Splice(before, offset, amount, [])
  {
  }

  class Txt {
    var buffer: array<byte>
    var bufsiz: nat
    var endptr: nat

    ghost predicate Valid()
      reads this, buffer
    {
      buffer.Length == bufsiz && endptr < bufsiz && buffer[endptr] == 0
    }

    ghost function Contents(): seq<byte>
      requires endptr <= buffer.Length
      reads this, buffer
    {
      buffer[..endptr]
    }

    /** `data` is copied as by `strncpy`: up to a NUL, then padded with NULs. */
    constructor (data: seq<byte>, datalen: nat, size: nat)
      requires datalen <= |data| && datalen + 256 < U32
      ensures Valid() && fresh(buffer)
      ensures bufsiz == if size <= datalen then (datalen + 256) / 256 * 256 else size
      ensures var c := CString(data[..datalen]); Contents() == c + seq(datalen - |c|, _ => 0)
      ensures 0 !in data[..datalen] ==> Contents() == data[..datalen]
    {
      var n := if size <= datalen then (datalen + 256) / 256 * 256 else size;
      bufsiz := n;
      buffer := new byte[n];
      endptr := datalen;
      new;
      ghost var source := data[..datalen];
      ghost var c := CString(source);
      var i, ended := 0, false;
      while i < datalen
        invariant 0 <= i <= datalen && ended == (|c| < i)
        invariant buffer.Length == bufsiz == n && endptr == datalen && fresh(buffer)
        invariant forall k :: 0 <= k < i ==> buffer[k] == if k < |c| then source[k] else 0
      {
        if !ended && data[i] == 0 {
          assert source[i] == 0 && i >= |c|;
          ended := true;
        }
        buffer[i] := if ended then 0 else data[i];
        i := i + 1;
      }
      buffer[endptr] := 0;
      assert Contents() == c + seq(datalen - |c|, _ => 0);
      if 0 !in source {
        CStringWithoutNul(source);
      }
    }

    /** Moves the text to a larger buffer when this one is too small for `length` characters. */
    method Reserve(length: nat)
      requires Valid() && endptr <= length && length + 2048 < U32
      modifies this`buffer, this`bufsiz
      ensures Valid() && bufsiz == GrownSize(old(bufsiz), length) && length < bufsiz
      ensures buffer == old(buffer) || fresh(buffer)
      ensures Contents() == old(Contents())
    {
      GrownSizeIs(bufsiz, length);
      hide GrownSize;
      if length >= bufsiz {
        var newsz := length + 2048;
        newsz := newsz / 2048;
        newsz := newsz * 2048;
        var newbuf := new byte[newsz];
        forall k | 0 <= k < endptr + 1 {
          newbuf[k] := buffer[k];
        }
        buffer := newbuf;
        bufsiz := newsz;
      }
    }

    /** The backward loop: the characters from `offset` on move up. */
    method ShiftUp(offset: nat, amount: nat)
      requires offset <= endptr && endptr + amount <= buffer.Length
      modifies buffer
      ensures forall k :: 0 <= k < offset ==> buffer[k] == old(buffer[k])
      ensures forall k :: offset + amount <= k < endptr + amount ==> buffer[k] == old(buffer[k - amount])
    {
      var src, dst, nn, ii := endptr, endptr + amount, endptr - offset, 0;
      while ii < nn
        invariant 0 <= ii <= nn && src == endptr - ii && dst == src + amount
        invariant forall k :: 0 <= k < dst && k < endptr ==> buffer[k] == old(buffer[k])
        invariant forall k :: dst <= k < endptr + amount ==> buffer[k] == old(buffer[k - amount])
      {
        dst, src := dst - 1, src - 1;
        buffer[dst] := buffer[src];
        ii := ii + 1;
      }
    }

    /** Makes a gap of `amount` characters at `offset`, moving the buffer when it is too small. */
    method Expand(offset: nat, amount: nat)
      requires Valid() && offset <= endptr && endptr + amount + 2048 < U32
      modifies this, buffer
      ensures Valid() && endptr == old(endptr) + amount && bufsiz == GrownSize(old(bufsiz), endptr)
      ensures buffer == old(buffer) || fresh(buffer)
      ensures Contents()[..offset] == old(Contents())[..offset]
      ensures Contents()[offset + amount..] == old(Contents())[offset..]
    {
      hide GrownSize;
      Reserve(endptr + amount);
      ghost var before := buffer[..endptr];
      ShiftUp(offset, amount);
      endptr := endptr + amount;
      buffer[endptr] := 0;
      ghost var now := buffer[..endptr];
      assert forall k :: 0 <= k < offset ==> now[k] == before[k];
      assert forall k :: offset + amount <= k < |now| ==> now[k] == before[k - amount];
      GapMade(now, before, offset, amount);
    }

    /** Closes the gap of `amount` characters at `offset`. */
    method Contract(offset: nat, amount: nat)
      requires Valid() && offset + amount <= endptr
      modifies this`endptr, buffer
      ensures Valid() && endptr == old(endptr) - amount
      ensures Contents() == Splice(old(Contents()), offset, amount, [])
    {
      ghost var before := Contents();
      var src, dst, nn, ii := offset + amount, offset, endptr - offset - amount, 0;
      while ii < nn
        invariant 0 <= ii <= nn && src == offset + amount + ii && dst == offset + ii
        modifies buffer
        invariant forall k :: 0 <= k < offset ==> buffer[k] == before[k]
        invariant forall k :: offset <= k < dst ==> buffer[k] == before[k + amount]
        invariant forall k :: src <= k < endptr ==> buffer[k] == before[k]
      {
        buffer[dst] := buffer[src];
        dst, src, ii := dst + 1, src + 1, ii + 1;
      }
      endptr := endptr - amount;
      buffer[endptr] := 0;
      ghost var now := buffer[..endptr];
      assert forall k :: 0 <= k < offset ==> now[k] == before[k];
      assert forall k :: offset <= k < |now| ==> now[k] == before[k + amount];
      GapClosed(now, before, offset, amount);
    }

    /** The `memcpy` and the character loop that fill a gap. */
    method Fill(offset: nat, source: seq<byte>)
      requires Valid() && offset + |source| <= endptr
      modifies buffer
      ensures Valid() && Contents() == Splice(old(Contents()), offset, |source|, source)
    {
      ghost var before := Contents();
      var ii := 0;
      while ii < |source|
        invariant 0 <= ii <= |source| && Valid()
        modifies buffer
        invariant forall k :: 0 <= k < endptr ==>
          buffer[k] == if offset <= k < offset + ii then source[k - offset] else before[k]
      {
        buffer[offset + ii] := source[ii];
        ii := ii + 1;
      }
    }

    /** `insert`: a length of 0 stands for the length of the C string. */
    method Insert(offset: nat, str: seq<byte>, len: nat) returns (next: nat)
      requires Valid() && offset <= endptr && len <= |str| && endptr + |str| + 2048 < U32
      modifies this, buffer
      ensures Valid() && (buffer == old(buffer) || fresh(buffer))
      ensures var n := if len == 0 then |CString(str)| else len;
              && next == offset + n && Contents() == Splice(old(Contents()), offset, 0, str[..n])
              && bufsiz == GrownSize(old(bufsiz), endptr)
    {
      var n := if len == 0 then |CString(str)| else len;
      Expand(offset, n);
      ghost var gap := Contents();
      Fill(offset, str[..n]);
      SpliceGap(old(Contents()), gap, offset, 0, n, str[..n]);
      next := offset + n;
    }

    method Replace(offset: nat, size: nat, replacement: seq<byte>)
      requires Valid() && offset + size <= endptr && endptr + |replacement| + 2048 < U32
      modifies this, buffer
      ensures Valid() && (buffer == old(buffer) || fresh(buffer))
      ensures Contents() == Splice(old(Contents()), offset, size, CString(replacement))
    {
      var r := CString(replacement);
      ghost var before := Contents();
      if |r| > size {
        Expand(offset + size, |r| - size);
      } else if |r| < size {
        Contract(offset + |r|, size - |r|);
      }
      ghost var gap := Contents();
      Fill(offset, r);
      SpliceGap(before, gap, offset, size, |r|, r);
    }

    /** `strstr`. */
    method Find(str: seq<byte>) returns (r: Option<nat>)
      requires Valid()
      ensures r == IndexOf(CString(Contents()), CString(str))
    {
      r := IndexOf(CString(buffer[..endptr]), CString(str));
    }

    method Substitute(placeholder: seq<byte>, replacement: seq<byte>) returns (done: bool)
      requires Valid() && endptr + |replacement| + 2048 < U32
      modifies this, buffer
      ensures Valid() && (buffer == old(buffer) || fresh(buffer))
      ensures match IndexOf(CString(old(Contents())), CString(placeholder))
              case None => !done && Contents() == old(Contents())
              case Some(i) => done && i + |CString(placeholder)| <= |old(Contents())|
                              && Contents() == Splice(old(Contents()), i, |CString(placeholder)|, CString(replacement))
    {
      done := false;
      var found := Find(placeholder);
      if found.Some? {
        Replace(found.value, |CString(placeholder)|, replacement);
        done := true;
      }
    }
  }

  /** Filling the gap that a shift has left at `offset` splices. */
  lemma SpliceGap(before: seq<byte>, gap: seq<byte>, offset: nat, size: nat, n: nat, r: seq<byte>)
    requires offset + size <= |before| && |r| == n && |gap| == |before| - size + n
    requires gap[..offset] == before[..offset]
    requires gap[offset + n..] == before[offset + size..]
    ensures Splice(gap, offset, n, r) == Splice(before, offset, size, r)
  {
  }
}
