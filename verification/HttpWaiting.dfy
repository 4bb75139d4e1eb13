/** The branch of `parseRequest` for a buffer without a blank line: it looks for the start of a request
    and drops what stands before it, in a loop that need not end.
 */
module HttpWaiting {
  import opened Bits
  import opened Text

  const GET: seq<byte> := [71, 69, 84, 32]
  const POST: seq<byte> := [80, 79, 83, 84, 32]

  predicate IsLetter(s: seq<byte>, i: int) {
    0 <= i < |s| && (s[i] == GET[0] || s[i] == POST[0])
  }

  /** The first 'G' or 'P'. */
  function FirstLetter(s: seq<byte>): (r: nat)
    ensures r <= |s| && (r < |s| ==> IsLetter(s, r)) && forall k :: 0 <= k < r ==> !IsLetter(s, k)
  {
    if s == [] || IsLetter(s, 0) then 0 else
      assert forall k :: 0 < k < |s| ==> IsLetter(s, k) == IsLetter(s[1..], k - 1);
      1 + FirstLetter(s[1..])
  }

  /** "GET " or "POST " and at least one byte more. */
  predicate Starts(s: seq<byte>, i: nat) {
    || (i + 4 < |s| && s[i..i + 4] == GET)
    || (i + 5 < |s| && s[i..i + 5] == POST)
  }

  /** A letter that starts no request, with enough bytes behind it to tell. */
  predicate Skipped(s: seq<byte>, i: nat)
    requires i < |s|
  {
    !Starts(s, i) && ((s[i] == GET[0] && i + 4 < |s|) || (s[i] == POST[0] && i + 5 < |s|))
  }

  datatype Waiting = Endless | Kept(rqst: seq<byte>)

  /** What becomes of the buffer. `Endless` is a round of the loop that changes nothing. */
  function Await(s: seq<byte>): Waiting {
    var i := FirstLetter(s);
    if i == |s| then Kept([])
    else if Starts(s, i) then if i > 0 then Kept(s[i..]) else Endless
    else if Skipped(s, i) then Await(s[i + 1..])
    else Endless
  }

  /** The first letter that is not skipped. */
  predicate Stops(s: seq<byte>, i: nat) {
    && IsLetter(s, i) && !Skipped(s, i)
    && forall k: nat :: k < i && IsLetter(s, k) ==> Skipped(s, k)
  }

  lemma Behind(s: seq<byte>, n: nat, i: nat)
    requires n <= |s|
    ensures IsLetter(s[n..], i) <==> IsLetter(s, n + i)
    ensures Starts(s[n..], i) <==> Starts(s, n + i)
    ensures IsLetter(s, n + i) ==> (Skipped(s[n..], i) <==> Skipped(s, n + i))
  {
    var t := s[n..];
    if i + 4 <= |t| { assert t[i..i + 4] == s[n + i..n + i + 4]; }
    if i + 5 <= |t| { assert t[i..i + 5] == s[n + i..n + i + 5]; }
  }

  /** Behind a skipped letter everything is as it was. */
  lemma StopsBehind(s: seq<byte>, n: nat, i: nat)
    requires n <= |s| && forall k: nat :: k < n && IsLetter(s, k) ==> Skipped(s, k)
    ensures Stops(s, n + i) <==> Stops(s[n..], i)
  {
    hide IsLetter, Starts, Skipped;
    Behind(s, n, i);
    forall k: nat | k < i
      ensures IsLetter(s[n..], k) <==> IsLetter(s, n + k)
      ensures IsLetter(s, n + k) ==> k < |s[n..]| && n + k < |s| && (Skipped(s[n..], k) <==> Skipped(s, n + k))
    {
      Behind(s, n, k);
      InRange(s, n + k);
    }
    if Stops(s[n..], i) {
      forall k: nat | k < n + i && IsLetter(s, k)
        ensures k < |s| && Skipped(s, k)
      {
        InRange(s, k);
        if k >= n { assert IsLetter(s[n..], k - n); }
      }
    }
    if Stops(s, n + i) {
      forall k: nat | k < i && IsLetter(s[n..], k)
        ensures k < |s[n..]| && Skipped(s[n..], k)
      {
        assert IsLetter(s, n + k);
      }
    }
  }

  lemma InRange(s: seq<byte>, i: int)
    ensures IsLetter(s, i) ==> 0 <= i < |s|
  {
  }

  lemma {:induction false} AwaitNone(s: seq<byte>)
    requires forall i: nat :: !Stops(s, i)
    ensures Await(s) == Kept([])
    decreases |s|
  {
    hide Starts, Skipped, Await;
    AwaitOne(s);
    var f := FirstLetter(s);
    if f < |s| {
      assert !Stops(s, f);
      var n := f + 1;
      hide Stops;
      NotStarting(s, f);
      forall j: nat
        ensures !Stops(s[n..], j)
      {
        StopsBehind(s, n, j);
      }
      AwaitNone(s[n..]);
    }
  }

  lemma {:induction false} AwaitAt(s: seq<byte>, i: nat)
    requires Stops(s, i)
    ensures Await(s) == if Starts(s, i) && i > 0 && !IsLetter(s, i - 1) then Kept(s[i..]) else Endless
    decreases |s|
  {
    hide Starts, Skipped, Await;
    AwaitOne(s);
    var f := FirstLetter(s);
    if i > f {
      var n := f + 1;
      NotStarting(s, f);
      StopsBehind(s, n, i - n);
      AwaitAt(s[n..], i - n);
      Behind(s, n, i - n);
      assert s[n..][i - n..] == s[i..];
      if i > n { Behind(s, n, i - n - 1); }
    }
  }

  /** The loop, decided by the first letter that is not skipped: without one the buffer is cleared; at
      the start of a request that is neither the buffer's first byte nor right behind another letter,
      what precedes it is dropped; everywhere else the loop does not end.
   */
  lemma AwaitIs(s: seq<byte>)
    ensures (forall i: nat :: !Stops(s, i)) ==> Await(s) == Kept([])
    ensures forall i: nat :: Stops(s, i) ==>
              Await(s) == if Starts(s, i) && i > 0 && !IsLetter(s, i - 1) then Kept(s[i..]) else Endless
  {
    hide Stops, Starts, Await, IsLetter;
    if forall i: nat :: !Stops(s, i) { AwaitNone(s); }
    forall i: nat | Stops(s, i)
      ensures i <= |s|
      ensures Await(s) == if Starts(s, i) && i > 0 && !IsLetter(s, i - 1) then Kept(s[i..]) else Endless
    {
      StopsInside(s, i);
      AwaitAt(s, i);
    }
  }

  lemma StopsInside(s: seq<byte>, i: nat)
    requires Stops(s, i)
    ensures i < |s|
  {
  }

  lemma NotStarting(s: seq<byte>, i: nat)
    requires i < |s| && Skipped(s, i)
    ensures !Starts(s, i)
  {
  }

  /** Exactly when the loop does not end. */
  lemma EndlessIff(s: seq<byte>)
    ensures Await(s).Endless? <==>
              exists i: nat :: Stops(s, i) && (Starts(s, i) ==> i == 0 || IsLetter(s, i - 1))
  {
    hide Await, Stops, Starts, IsLetter;
    AwaitIs(s);
  }

  /** In particular for every request whose first line has arrived only in part. */
  lemma PartialRequest(s: seq<byte>)
    requires (|s| > 4 && s[..4] == Ascii("GET ")) || (|s| > 5 && s[..5] == Ascii("POST "))
    ensures Await(s) == Endless
  {
    Methods();
    hide Ascii;
    if s[0..4] == GET { assert s[0] == s[0..4][0]; } else { assert s[0] == s[0..5][0]; }
  }

  /** Bytes without 'G' and 'P', and then a request: they are dropped once a byte has arrived behind the
      method, and until then the loop does not end.
   */
  lemma RequestBehind(before: seq<byte>, name: seq<byte>, rest: seq<byte>)
    requires before != [] && forall k :: 0 <= k < |before| ==> before[k] !in [71, 80]
    requires name == Ascii("GET ") || name == Ascii("POST ")
    ensures Await(before + name + rest) == if rest == [] then Endless else Kept(name + rest)
  {
    Methods();
    hide Ascii, Await;
    var s, n := before + name + rest, |before|;
    assert s[n] == name[0] && s[n..n + |name|] == name && s[n..] == name + rest;
    assert forall k: nat :: k < n ==> s[k] == before[k];
    assert !IsLetter(s, n - 1);
    MethodAt(s, n, name);
    AwaitAt(s, n);
  }

  lemma MethodAt(s: seq<byte>, i: nat, name: seq<byte>)
    requires name == GET || name == POST
    requires i + |name| <= |s| && s[i..i + |name|] == name && forall k: nat :: k < i ==> !IsLetter(s, k)
    ensures Stops(s, i) && (Starts(s, i) <==> i + |name| < |s|)
  {
    assert s[i] == s[i..i + |name|][0];
  }

  lemma Methods()
    ensures Ascii("GET ") == GET && Ascii("POST ") == POST
  {
  }

  lemma AwaitOne(s: seq<byte>)
    ensures var i := FirstLetter(s);
            Await(s) == if i == |s| then Kept([])
                        else if Starts(s, i) then if i > 0 then Kept(s[i..]) else Endless
                        else if Skipped(s, i) then Await(s[i + 1..])
                        else Endless
  {
  }

  /** The loop, cut off at a round that changes nothing. */
  method AwaitRequest(rqst: seq<byte>) returns (endless: bool, left: seq<byte>)
    ensures match Await(rqst)
            case Endless => endless
            case Kept(kept) => !endless && left == kept
  {
    hide Starts, Skipped, Await;
    endless, left := false, rqst;
    var i1 := 0;
    while |left| > 0 && i1 < |left|
      invariant 0 <= i1
      invariant i1 == 0 ==> Await(rqst) == Await(left)
      invariant i1 > 0 ==> i1 == |left| && Await(rqst) == Kept(left)
      decreases |left|, |left| - i1
    {
      AwaitOne(left);
      var i2 := FirstLetter(left);
      if i2 < |left| {
        if Starts(left, i2) {
          if i2 == 0 {
            return true, left;
          }
          left := left[i2..];
          i1 := |left|;
        } else if Skipped(left, i2) {
          left := left[i2 + 1..];
        } else {
          return true, left;
        }
      } else {
        AwaitOne([]);
        left := [];
      }
    }
    AwaitOne([]);
  }
}
