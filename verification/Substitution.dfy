/** Repeated substitution: what the two loops of `send_websocket_js` make of a text, and when that
    is the path in place of every "/ws/".
 */
module Substitution {
  import opened Bits
  import opened Options
  import opened Text

  const SLASH: byte := 47
  const LESS: byte := 60

  /** "/ws/" */
  const WS_PATH: seq<byte> := [47, 119, 115, 47]
  /** "<ws>" */
  const MARKER: seq<byte> := [60, 119, 115, 62]

  /** What one substitution does to a text. */
  function Once(s: seq<byte>, p: seq<byte>, r: seq<byte>): seq<byte>
    requires IndexOf(s, p).Some?
  {
    Splice(s, IndexOf(s, p).value, |p|, r)
  }

  /** Substituting until nothing is found. It ends because each round removes a `c`. */
  function Rewrite(s: seq<byte>, p: seq<byte>, r: seq<byte>, c: byte): seq<byte>
    requires Count(r, c) < Count(p, c)
    decreases Count(s, c)
  {
    match IndexOf(s, p)
    case None => s
    case Some(i) =>
      CountSplice(s, i, |p|, r, c);
      Rewrite(Once(s, p, r), p, r, c)
  }

  /** Every occurrence of `p`, from left to right, replaced at once. */
  function ReplaceAll(s: seq<byte>, p: seq<byte>, r: seq<byte>): seq<byte>
    requires p != []
  {
    match IndexOf(s, p)
    case None => s
    case Some(i) => s[..i] + r + ReplaceAll(s[i + |p|..], p, r)
  }

  /** No occurrence of `p` starts inside `prefix`, whatever follows it. */
  ghost predicate Settled(prefix: seq<byte>, p: seq<byte>) {
    forall b, j :: 0 <= j < |prefix| ==> !OccursAt(prefix + b, p, j)
  }

  /** Once an occurrence is replaced by a text that starts with a character foreign to the pattern
      and does not contain the pattern's first character, everything up to it is settled.
   */
  lemma ReplacedIsSettled(prefix: seq<byte>, s: seq<byte>, p: seq<byte>, r: seq<byte>, i: nat)
    requires p != [] && r != [] && r[0] !in p && p[0] !in r
    requires Settled(prefix, p) && IndexOf(s, p) == Some(i)
    ensures Settled(prefix + s[..i] + r, p)
  {
    var n := |prefix| + i;
    forall b, j | 0 <= j < n + |r|
      ensures !OccursAt(prefix + s[..i] + r + b, p, j)
    {
      var t := prefix + s[..i] + r + b;
      if j >= n {
        assert t[j] == r[j - n] && r[j - n] in r;
        Mismatch(t, p, j, 0);
      } else if j + |p| > n {
        assert t[n] == r[0] && p[n - j] in p;
        Mismatch(t, p, j, n - j);
      } else {
        assert t == (prefix + s[..i]) + (r + b) && prefix + s == (prefix + s[..i]) + s[i..];
        OccursBefore(prefix + s[..i], r + b, p, j);
        OccursBefore(prefix + s[..i], s[i..], p, j);
        if j >= |prefix| {
          OccursAfter(prefix, s, p, j - |prefix|);
        }
      }
    }
  }

  /** When no occurrence starts inside `prefix`, the first one is found in the rest. */
  lemma FirstAfter(prefix: seq<byte>, s: seq<byte>, p: seq<byte>)
    requires forall j :: 0 <= j < |prefix| ==> !OccursAt(prefix + s, p, j)
    ensures IndexOf(prefix + s, p) == match IndexOf(s, p) case None => None case Some(i) => Some(|prefix| + i)
  {
    hide OccursAt, IndexFrom;
    var t, i := prefix + s, IndexOf(s, p);
    forall j: nat
      ensures OccursAt(t, p, |prefix| + j) <==> OccursAt(s, p, j)
    {
      OccursAfter(prefix, s, p, j);
    }
    if i.Some? {
      forall j | 0 <= j < |prefix| + i.value
        ensures !OccursAt(t, p, j)
      {
        if j >= |prefix| { assert !OccursAt(s, p, j - |prefix|); }
      }
      IndexIs(t, p, 0, |prefix| + i.value);
    } else {
      forall j | 0 <= j <= |t|
        ensures !OccursAt(t, p, j)
      {
        if j >= |prefix| { assert !OccursAt(s, p, j - |prefix|); }
      }
      IndexNone(t, p, 0);
    }
  }

  lemma RewriteOne(s: seq<byte>, p: seq<byte>, r: seq<byte>, c: byte)
    requires Count(r, c) < Count(p, c)
    ensures match IndexOf(s, p)
            case None => Rewrite(s, p, r, c) == s
            case Some(i) => Rewrite(s, p, r, c) == Rewrite(s[..i] + r + s[i + |p|..], p, r, c)
  {
    hide IndexFrom, Count;
  }

  lemma ReplaceOne(s: seq<byte>, p: seq<byte>, r: seq<byte>)
    requires p != []
    ensures match IndexOf(s, p)
            case None => ReplaceAll(s, p, r) == s
            case Some(i) => ReplaceAll(s, p, r) == s[..i] + r + ReplaceAll(s[i + |p|..], p, r)
  {
    hide IndexFrom;
  }

  lemma FirstAfterSettled(prefix: seq<byte>, s: seq<byte>, p: seq<byte>)
    requires Settled(prefix, p)
    ensures IndexOf(prefix + s, p) == match IndexOf(s, p) case None => None case Some(i) => Some(|prefix| + i)
  {
    hide IndexFrom, OccursAt;
    FirstAfter(prefix, s, p);
  }

  /** One round of the rewriting and of the simultaneous replacement, behind a finished prefix. */
  lemma RoundAfter(prefix: seq<byte>, s: seq<byte>, p: seq<byte>, r: seq<byte>, c: byte)
    requires Count(r, c) < Count(p, c) && p != []
    requires IndexOf(prefix + s, p) == match IndexOf(s, p) case None => None case Some(i) => Some(|prefix| + i)
    ensures match IndexOf(s, p)
            case None => Rewrite(prefix + s, p, r, c) == prefix + ReplaceAll(s, p, r)
            case Some(i) =>
              var next, rest := prefix + s[..i] + r, s[i + |p|..];
              && Rewrite(prefix + s, p, r, c) == Rewrite(next + rest, p, r, c)
              && prefix + ReplaceAll(s, p, r) == next + ReplaceAll(rest, p, r)
  {
    hide IndexFrom, Count, Rewrite, ReplaceAll;
    RewriteOne(prefix + s, p, r, c);
    ReplaceOne(s, p, r);
    var first := IndexOf(s, p);
    if first.Some? {
      var i := first.value;
      var next, rest := prefix + s[..i] + r, s[i + |p|..];
      assert (prefix + s)[..|prefix| + i] == prefix + s[..i] && (prefix + s)[|prefix| + i + |p|..] == rest;
      assert next + ReplaceAll(rest, p, r) == prefix + (s[..i] + r + ReplaceAll(rest, p, r));
    }
  }

  lemma {:induction false} RewriteSettled(prefix: seq<byte>, s: seq<byte>, p: seq<byte>, r: seq<byte>, c: byte)
    requires Count(r, c) < Count(p, c)
    requires p != [] && r != [] && r[0] !in p && p[0] !in r && Settled(prefix, p)
    ensures Rewrite(prefix + s, p, r, c) == prefix + ReplaceAll(s, p, r)
    decreases |s|
  {
    hide Settled, IndexFrom, Count, Rewrite, ReplaceAll;
    FirstAfterSettled(prefix, s, p);
    RoundAfter(prefix, s, p, r, c);
    var first := IndexOf(s, p);
    if first.Some? {
      var i := first.value;
      ReplacedIsSettled(prefix, s, p, r, i);
      RewriteSettled(prefix + s[..i] + r, s[i + |p|..], p, r, c);
    }
  }

  /** The repeated substitution replaces every occurrence exactly once. */
  lemma RewriteReplacesAll(s: seq<byte>, p: seq<byte>, r: seq<byte>, c: byte)
    requires Count(r, c) < Count(p, c)
    requires p != [] && r != [] && r[0] !in p && p[0] !in r
    ensures Rewrite(s, p, r, c) == ReplaceAll(s, p, r)
  {
    assert [] + s == s && [] + ReplaceAll(s, p, r) == ReplaceAll(s, p, r);
    RewriteSettled([], s, p, r, c);
  }

  lemma {:induction false} RewriteLeavesNone(s: seq<byte>, p: seq<byte>, r: seq<byte>, c: byte)
    requires Count(r, c) < Count(p, c)
    ensures IndexOf(Rewrite(s, p, r, c), p) == None
    decreases Count(s, c)
  {
    hide IndexFrom, Count, Rewrite;
    RewriteOne(s, p, r, c);
    var i := IndexOf(s, p);
    if i.Some? {
      CountSplice(s, i.value, |p|, r, c);
      RewriteLeavesNone(s[..i.value] + r + s[i.value + |p|..], p, r, c);
    }
  }

  /** A marker that begins before `s` would survive all replacements inside `s`. */
  lemma StraddleSurvives(prefix: seq<byte>, s: seq<byte>, r: seq<byte>, j: nat)
    requires j < |prefix| && OccursAt(prefix + s, MARKER, j)
    ensures OccursAt(prefix + ReplaceAll(s, MARKER, r), MARKER, j)
  {
    hide ReplaceAll;
    var t, after := prefix + s, ReplaceAll(s, MARKER, r);
    if j + 4 <= |prefix| {
      OccursBefore(prefix, s, MARKER, j);
      OccursBefore(prefix, after, MARKER, j);
    } else {
      var m := j + 4 - |prefix|;
      forall k | 0 <= k < m
        ensures s[k] != LESS
      {
        assert s[k] == t[j..j + 4][|prefix| + k - j];
      }
      ReplaceKeepsStart(s, r, m);
      assert prefix + s == (prefix + s[..m]) + s[m..] && prefix + after == (prefix + s[..m]) + after[m..];
      OccursBefore(prefix + s[..m], s[m..], MARKER, j);
      OccursBefore(prefix + s[..m], after[m..], MARKER, j);
    }
  }

  lemma ReplaceKeepsStart(s: seq<byte>, r: seq<byte>, m: nat)
    requires m <= |s| && forall k :: 0 <= k < m ==> s[k] != LESS
    ensures m <= |ReplaceAll(s, MARKER, r)| && ReplaceAll(s, MARKER, r)[..m] == s[..m]
  {
    hide IndexFrom, ReplaceAll;
    ReplaceOne(s, MARKER, r);
    var i := IndexOf(s, MARKER);
    if i.Some? && i.value < m {
      Mismatch(s, MARKER, i.value, 0);
    }
  }

  lemma FirstWhenClean(prefix: seq<byte>, s: seq<byte>, r: seq<byte>)
    requires IndexOf(prefix + ReplaceAll(s, MARKER, r), MARKER) == None
    ensures IndexOf(prefix + s, MARKER) == match IndexOf(s, MARKER) case None => None case Some(i) => Some(|prefix| + i)
  {
    hide ReplaceAll, OccursAt;
    forall j | 0 <= j < |prefix|
      ensures !OccursAt(prefix + s, MARKER, j)
    {
      assert !OccursAt(prefix + ReplaceAll(s, MARKER, r), MARKER, j);
      if OccursAt(prefix + s, MARKER, j) { StraddleSurvives(prefix, s, r, j); }
    }
    FirstAfter(prefix, s, MARKER);
  }

  lemma {:induction false} RewriteWhenClean(prefix: seq<byte>, s: seq<byte>, r: seq<byte>)
    requires Count(r, LESS) < Count(MARKER, LESS)
    requires IndexOf(prefix + ReplaceAll(s, MARKER, r), MARKER) == None
    ensures Rewrite(prefix + s, MARKER, r, LESS) == prefix + ReplaceAll(s, MARKER, r)
    decreases |s|
  {
    hide IndexFrom, Count, Rewrite, ReplaceAll;
    FirstWhenClean(prefix, s, r);
    RoundAfter(prefix, s, MARKER, r, LESS);
    var first := IndexOf(s, MARKER);
    if first.Some? {
      RewriteWhenClean(prefix + s[..first.value] + r, s[first.value + 4..], r);
    }
  }

  /** For any path without '<', the second loop of the script rewriting ends, and it has replaced
      every marker exactly once if and only if the text so produced contains no marker: a path
      that completes a marker with the characters around it is substituted once more.
   */
  lemma MarkersReplacedIff(s: seq<byte>, path: seq<byte>)
    requires LESS !in path
    ensures Count(path, LESS) < Count(MARKER, LESS)
    ensures Rewrite(s, MARKER, path, LESS) == ReplaceAll(s, MARKER, path)
            <==> IndexOf(ReplaceAll(s, MARKER, path), MARKER) == None
  {
    assert MARKER[0] in MARKER;
    RewriteLeavesNone(s, MARKER, path, LESS);
    if IndexOf(ReplaceAll(s, MARKER, path), MARKER) == None {
      assert [] + ReplaceAll(s, MARKER, path) == ReplaceAll(s, MARKER, path) && [] + s == s;
      RewriteWhenClean([], s, path);
    }
  }

  /** Two replacements through the marker amount to one, if the text had no marker to begin with. */
  lemma {:induction false} ThroughMarker(s: seq<byte>, path: seq<byte>)
    requires IndexOf(s, MARKER) == None
    ensures ReplaceAll(ReplaceAll(s, WS_PATH, MARKER), MARKER, path) == ReplaceAll(s, WS_PATH, path)
    decreases |s|
  {
    hide IndexFrom, ReplaceAll;
    ReplaceOne(s, WS_PATH, MARKER);
    ReplaceOne(s, WS_PATH, path);
    var first := IndexOf(s, WS_PATH);
    if first.None? {
      ReplaceOne(s, MARKER, path);
    } else {
      var i := first.value;
      var rest := s[i + 4..];
      var later := ReplaceAll(rest, WS_PATH, MARKER);
      NoneInSuffix(s, MARKER, i + 4);
      ThroughMarker(rest, path);
      FirstMarker(s, i, later);
      ReplaceOne(s[..i] + MARKER + later, MARKER, path);
      assert (s[..i] + MARKER + later)[i + 4..] == later && (s[..i] + MARKER + later)[..i] == s[..i];
    }
  }

  lemma NoneInSuffix(s: seq<byte>, p: seq<byte>, n: nat)
    requires n <= |s| && IndexOf(s, p) == None
    ensures IndexOf(s[n..], p) == None
  {
    assert s[..n] + s[n..] == s;
    forall j | 0 <= j <= |s[n..]|
      ensures !OccursAt(s[n..], p, j)
    {
      OccursAfter(s[..n], s[n..], p, j);
      assert !OccursAt(s, p, n + j);
    }
    IndexNone(s[n..], p, 0);
  }

  lemma FirstMarker(s: seq<byte>, i: nat, later: seq<byte>)
    requires i <= |s| && IndexOf(s, MARKER) == None
    ensures IndexOf(s[..i] + MARKER + later, MARKER) == Some(i)
  {
    var t := s[..i] + MARKER + later;
    assert t[i..i + 4] == MARKER;
    forall j | 0 <= j < i
      ensures !OccursAt(t, MARKER, j)
    {
      if j + 4 <= i {
        assert t == s[..i] + (MARKER + later) && s == s[..i] + s[i..];
        assert !OccursAt(s, MARKER, j);
        OccursBefore(s[..i], MARKER + later, MARKER, j);
        OccursBefore(s[..i], s[i..], MARKER, j);
      } else {
        assert t[i] == LESS;
        Mismatch(t, MARKER, j, i - j);
      }
    }
    IndexIs(t, MARKER, 0, i);
  }

  lemma CountsOfPatterns(path: seq<byte>)
    requires LESS !in path
    ensures Count(MARKER, SLASH) < Count(WS_PATH, SLASH) && Count(path, LESS) < Count(MARKER, LESS)
    ensures MARKER[0] !in WS_PATH && WS_PATH[0] !in MARKER && SLASH !in MARKER
    ensures 0 !in WS_PATH && 0 !in MARKER
  {
    assert WS_PATH[0] == SLASH && SLASH in WS_PATH && MARKER[0] in MARKER;
  }

  /** What both loops make of a text. */
  function BothLoops(s: seq<byte>, path: seq<byte>): seq<byte>
    requires LESS !in path
  {
    CountsOfPatterns(path);
    Rewrite(Rewrite(s, WS_PATH, MARKER, SLASH), MARKER, path, LESS)
  }

  /** The text holds `m` characters of the marker followed by "/ws/", and the path in place of that
      "/ws/" completes the marker.
   */
  predicate CompletesAt(s: seq<byte>, path: seq<byte>, k: nat, m: nat) {
    && 1 <= m <= 3 && OccursAt(s, MARKER[..m] + WS_PATH, k)
    && OccursAt(MARKER[..m] + path + s[k + m + 4..], MARKER, 0)
  }

  ghost predicate Completes(s: seq<byte>, path: seq<byte>) {
    exists k: nat, m: nat :: CompletesAt(s, path, k, m)
  }

  /** What follows the path decides nothing that the text behind the "/ws/" would not: a further
      "/ws/" there is too late for the marker.
   */
  lemma SameCompletion(m: nat, path: seq<byte>, rest: seq<byte>)
    requires 1 <= m <= 3 && path != [] && LESS !in path
    ensures OccursAt(MARKER[..m] + path + ReplaceAll(rest, WS_PATH, path), MARKER, 0)
            <==> OccursAt(MARKER[..m] + path + rest, MARKER, 0)
  {
    hide IndexFrom, ReplaceAll;
    ReplaceOne(rest, WS_PATH, path);
    var a := MARKER[..m] + path;
    var first := IndexOf(rest, WS_PATH);
    if first.Some? {
      var i := first.value;
      var later := path + ReplaceAll(rest[i + 4..], WS_PATH, path);
      var t, u := a + ReplaceAll(rest, WS_PATH, path), a + rest;
      assert rest == rest[..i] + rest[i..];
      assert t == (a + rest[..i]) + later && u == (a + rest[..i]) + rest[i..];
      if |a + rest[..i]| >= 4 {
        OccursBefore(a + rest[..i], later, MARKER, 0);
        OccursBefore(a + rest[..i], rest[i..], MARKER, 0);
      } else {
        assert rest[i..][0] == rest[i..i + 4][0] == SLASH;
        TooLate(m, path, rest[..i], later, rest[i..]);
      }
    }
  }

  lemma TooLate(m: nat, path: seq<byte>, c: seq<byte>, later: seq<byte>, rest: seq<byte>)
    requires 1 <= m <= 3 && path != [] && m + |path + c| < 4
    requires later != [] && later[0] == path[0] && rest != [] && rest[0] == SLASH
    ensures !OccursAt(MARKER[..m] + path + c + later, MARKER, 0)
    ensures !OccursAt(MARKER[..m] + path + c + rest, MARKER, 0)
  {
    var a := MARKER[..m] + path + c;
    assert (a + later)[m] == path[0] && (a + later)[|a|] == path[0] && (a + rest)[|a|] == SLASH;
    assert MARKER[m] != MARKER[|a|];
    Mismatch(a + rest, MARKER, 0, |a|);
    if path[0] == MARKER[m] { Mismatch(a + later, MARKER, 0, |a|); } else { Mismatch(a + later, MARKER, 0, m); }
  }

  /** A marker in the replaced text, across the first path or behind it. */
  lemma MarkerAround(s: seq<byte>, path: seq<byte>, i: nat, j: nat)
    requires IndexOf(s, MARKER) == None && LESS !in path && path != [] && IndexOf(s, WS_PATH) == Some(i)
    requires OccursAt(ReplaceAll(s, WS_PATH, path), MARKER, j)
    ensures (j < i < j + 4 && CompletesAt(s, path, j, i - j))
            || (i + |path| <= j && OccursAt(ReplaceAll(s[i + 4..], WS_PATH, path), MARKER, j - i - |path|))
  {
    FirstBounds(s, i);
    hide IndexFrom, ReplaceAll, OccursAt, CompletesAt;
    ReplaceOne(s, WS_PATH, path);
    var later := ReplaceAll(s[i + 4..], WS_PATH, path);
    if j + 4 <= i {
      BeforePath(s, i, path + later, j);
      Associate(s[..i], path, later);
    } else if j < i {
      AcrossPath(s, path, i, j, later);
    } else if j < i + |path| {
      InPath(s[..i], path, later, j);
    } else {
      OccursAfter(s[..i] + path, later, MARKER, j - i - |path|);
    }
  }

  lemma FirstBounds(s: seq<byte>, i: nat)
    requires IndexOf(s, WS_PATH) == Some(i)
    ensures i + 4 <= |s| && s[i..i + 4] == WS_PATH
  {
  }

  lemma InPath(before: seq<byte>, path: seq<byte>, later: seq<byte>, j: nat)
    requires LESS !in path && |before| <= j < |before| + |path|
    ensures !OccursAt(before + path + later, MARKER, j)
  {
    assert (before + path + later)[j] == path[j - |before|];
    Mismatch(before + path + later, MARKER, j, 0);
  }

  lemma BeforePath(s: seq<byte>, i: nat, later: seq<byte>, j: nat)
    requires j + 4 <= i <= |s| && IndexOf(s, MARKER) == None
    ensures !OccursAt(s[..i] + later, MARKER, j)
  {
    hide IndexFrom;
    assert s == s[..i] + s[i..];
    assert !OccursAt(s, MARKER, j);
    OccursBefore(s[..i], later, MARKER, j);
    OccursBefore(s[..i], s[i..], MARKER, j);
  }

  lemma AcrossPath(s: seq<byte>, path: seq<byte>, i: nat, j: nat, later: seq<byte>)
    requires j < i < j + 4 && i + 4 <= |s| && s[i..i + 4] == WS_PATH && LESS !in path && path != []
    requires later == ReplaceAll(s[i + 4..], WS_PATH, path) && OccursAt(s[..i] + path + later, MARKER, j)
    ensures CompletesAt(s, path, j, i - j)
  {
    hide IndexFrom, ReplaceAll;
    var t, m := s[..i] + path + later, i - j;
    assert t[j..j + 4][..m] == t[j..i] == s[j..i];
    assert t == s[..j] + (MARKER[..m] + path + later);
    OccursAfter(s[..j], MARKER[..m] + path + later, MARKER, 0);
    SameCompletion(m, path, s[i + 4..]);
    assert s[j..j + m + 4] == MARKER[..m] + WS_PATH;
  }

  /** And the other way: a completion leaves a marker in the replaced text. */
  lemma CompletionLeaves(s: seq<byte>, path: seq<byte>, k: nat, m: nat)
    requires path != [] && LESS !in path && CompletesAt(s, path, k, m)
    ensures IndexOf(ReplaceAll(s, WS_PATH, path), MARKER) != None
    decreases |s|
  {
    hide IndexFrom, ReplaceAll;
    var i := FirstPath(s, path, k, m);
    var rest := s[i + 4..];
    var later := ReplaceAll(rest, WS_PATH, path);
    var t := s[..i] + path + later;
    if i == k + m {
      assert s[k..k + m + 4][..m] == s[k..i];
      assert t == s[..k] + (MARKER[..m] + path + later);
      SameCompletion(m, path, rest);
      OccursAfter(s[..k], MARKER[..m] + path + later, MARKER, 0);
    } else {
      CompletionLeaves(rest, path, k - i - 4, m);
      var j := IndexOf(later, MARKER).value;
      assert t == (s[..i] + path) + later;
      OccursAfter(s[..i] + path, later, MARKER, j);
    }
  }

  lemma NoOverlap(s: seq<byte>, k: nat, m: nat, i: nat)
    requires 1 <= m <= 3 && OccursAt(s, MARKER[..m] + WS_PATH, k) && OccursAt(s, WS_PATH, i) && i <= k + m
    ensures i == k + m || i + 4 <= k
  {
    var a, b := s[k..k + m + 4], s[i..i + 4];
    assert a[0] == s[k] && (m > 1 ==> a[1] == s[k + 1]) && (m > 2 ==> a[2] == s[k + 2]);
    assert b[0] == s[i] && b[1] == s[i + 1] && b[2] == s[i + 2] && b[3] == s[i + 3];
  }

  /** The first "/ws/" is the completed one, or all of it lies before the marker's start. */
  lemma FirstPath(s: seq<byte>, path: seq<byte>, k: nat, m: nat) returns (i: nat)
    requires CompletesAt(s, path, k, m)
    ensures IndexOf(s, WS_PATH) == Some(i) && i + 4 <= |s|
    ensures ReplaceAll(s, WS_PATH, path) == s[..i] + path + ReplaceAll(s[i + 4..], WS_PATH, path)
    ensures i == k + m || (i + 4 <= k && CompletesAt(s[i + 4..], path, k - i - 4, m))
  {
    hide IndexFrom, ReplaceAll;
    var p := MARKER[..m] + WS_PATH;
    assert s[k..k + m + 4] == p;
    assert s[k + m..k + m + 4] == WS_PATH;
    IndexAtMost(s, WS_PATH, 0, k + m);
    i := IndexOf(s, WS_PATH).value;
    ReplaceOne(s, WS_PATH, path);
    NoOverlap(s, k, m, i);
    if i != k + m {
      var rest := s[i + 4..];
      assert s == s[..i + 4] + rest;
      OccursAfter(s[..i + 4], rest, p, k - i - 4);
      assert rest[k - i - 4 + m + 4..] == s[k + m + 4..];
    }
  }

  /** For a text without markers and a path without '<': a single pass leaves a marker exactly when
      the path completes one somewhere.
   */
  lemma {:induction false} CompletesIff(s: seq<byte>, path: seq<byte>)
    requires IndexOf(s, MARKER) == None && LESS !in path && path != []
    ensures IndexOf(ReplaceAll(s, WS_PATH, path), MARKER) == None <==> !Completes(s, path)
    decreases |s|
  {
    hide IndexFrom, ReplaceAll, CompletesAt;
    var t := ReplaceAll(s, WS_PATH, path);
    if Completes(s, path) {
      var k: nat, m: nat :| CompletesAt(s, path, k, m);
      CompletionLeaves(s, path, k, m);
    } else if IndexOf(t, MARKER) != None {
      ReplaceOne(s, WS_PATH, path);
      var i, j := IndexOf(s, WS_PATH).value, IndexOf(t, MARKER).value;
      MarkerAround(s, path, i, j);
      var rest := s[i + 4..];
      NoneInSuffix(s, MARKER, i + 4);
      CompletesIff(rest, path);
      MarkerSeen(ReplaceAll(rest, WS_PATH, path), j - i - |path|);
      var k: nat, m: nat :| CompletesAt(rest, path, k, m);
      CompletesLater(s, path, i + 4, k, m);
    }
  }

  lemma MarkerSeen(t: seq<byte>, j: nat)
    requires OccursAt(t, MARKER, j)
    ensures IndexOf(t, MARKER) != None
  {
  }

  lemma CompletesLater(s: seq<byte>, path: seq<byte>, n: nat, k: nat, m: nat)
    requires n <= |s| && CompletesAt(s[n..], path, k, m)
    ensures CompletesAt(s, path, n + k, m)
  {
    assert s == s[..n] + s[n..];
    OccursAfter(s[..n], s[n..], MARKER[..m] + WS_PATH, k);
    assert s[n..][k + m + 4..] == s[n + k + m + 4..];
  }

  /** For every text without markers and every path without '<': both loops end, and they have put
      the path in place of every "/ws/" and of nothing else if and only if the path completes no
      marker in the text.
   */
  lemma BothLoopsIff(s: seq<byte>, path: seq<byte>)
    requires IndexOf(s, MARKER) == None && LESS !in path && path != []
    ensures BothLoops(s, path) == ReplaceAll(s, WS_PATH, path) <==> !Completes(s, path)
  {
    hide IndexFrom, Rewrite, ReplaceAll, Count, CompletesAt, Completes;
    CountsOfPatterns(path);
    RewriteReplacesAll(s, WS_PATH, MARKER, SLASH);
    MarkersReplacedIff(ReplaceAll(s, WS_PATH, MARKER), path);
    ThroughMarker(s, path);
    CompletesIff(s, path);
  }

  /** A text without '<' is safe with every path, and so is a path that does not go on with "w", "s"
      or ">", such as one that begins with a slash, in every text.
   */
  lemma NothingCompletes(s: seq<byte>, path: seq<byte>)
    requires LESS !in s || (path != [] && path[0] !in MARKER)
    ensures !Completes(s, path)
  {
    hide CompletesAt;
    if Completes(s, path) {
      var k: nat, m: nat :| CompletesAt(s, path, k, m);
      CompletionParts(s, path, k, m);
    }
  }

  lemma CompletionParts(s: seq<byte>, path: seq<byte>, k: nat, m: nat)
    requires CompletesAt(s, path, k, m)
    ensures LESS in s && (path != [] ==> path[0] in MARKER)
  {
    assert s[k..k + m + 4][0] == s[k] == LESS;
    var t := MARKER[..m] + path + s[k + m + 4..];
    if path != [] {
      assert t[m] == path[0] && t[0..4][m] == t[m] == MARKER[m];
    }
  }

  lemma Patterns()
    ensures WS_PATH == Ascii("/ws/") && MARKER == Ascii("<ws>")
  {
  }

  /** A file and a path for which it fails: "</ws/" and "ws>". */
  lemma MarkerCompleted()
    ensures var s, path := [LESS] + WS_PATH, [119, 115, 62];
            && IndexOf(s, MARKER) == None && LESS !in path && path != []
            && BothLoops(s, path) != ReplaceAll(s, WS_PATH, path)
    ensures WS_PATH == Ascii("/ws/") && MARKER == Ascii("<ws>")
  {
    Patterns();
    var s, path := [LESS] + WS_PATH, [119, 115, 62];
    assert s == [60, 47, 119, 115, 47];
    forall j | 0 <= j <= |s|
      ensures !OccursAt(s, MARKER, j)
    {
      if j == 0 { Mismatch(s, MARKER, 0, 1); } else if j < 5 { Mismatch(s, MARKER, j, 0); }
    }
    IndexNone(s, MARKER, 0);
    assert MARKER[..1] == [LESS] && MARKER[..1] + path + s[0 + 1 + 4..] == MARKER;
    assert CompletesAt(s, path, 0, 1);
    hide IndexFrom, ReplaceAll, BothLoops;
    BothLoopsIff(s, path);
  }

  // ----- behind a head

  lemma {:induction false} RewriteBehind(head: seq<byte>, body: seq<byte>, p: seq<byte>, r: seq<byte>, c: byte)
    requires Count(r, c) < Count(p, c) && Settled(head, p)
    ensures Rewrite(head + body, p, r, c) == head + Rewrite(body, p, r, c)
    decreases Count(body, c)
  {
    hide IndexFrom, Count, Rewrite, Settled;
    FirstAfterSettled(head, body, p);
    RewriteOne(head + body, p, r, c);
    RewriteOne(body, p, r, c);
    var first := IndexOf(body, p);
    if first.Some? {
      var i := first.value;
      CountSplice(body, i, |p|, r, c);
      var next := body[..i] + r + body[i + |p|..];
      assert body[i..i + |p|] == p;
      assert (head + body)[..|head| + i] + r + (head + body)[|head| + i + |p|..] == head + next;
      RewriteBehind(head, next, p, r, c);
    }
  }

  /** A head that ends with a blank line and holds none of the pattern is settled, when the pattern
      has no line feed.
   */
  lemma HeadSettled(head: seq<byte>, p: seq<byte>)
    requires 10 !in p && p != [] && IndexOf(head + BLANK_LINE, p) == None
    ensures Settled(head + BLANK_LINE, p)
  {
    hide IndexFrom;
    var h := head + BLANK_LINE;
    forall b, j | 0 <= j < |h|
      ensures !OccursAt(h + b, p, j)
    {
      if j + |p| <= |h| {
        OccursBefore(h, b, p, j);
        assert !OccursAt(h, p, j);
      } else {
        var n := |h| - 1 - j;
        assert (h + b)[j + n] == 10 && p[n] in p;
        Mismatch(h + b, p, j, n);
      }
    }
  }

  lemma BothLoopsBehind(head: seq<byte>, body: seq<byte>, path: seq<byte>)
    requires LESS !in path
    requires IndexOf(head + BLANK_LINE, WS_PATH) == None && IndexOf(head + BLANK_LINE, MARKER) == None
    ensures BothLoops(head + BLANK_LINE + body, path) == head + BLANK_LINE + BothLoops(body, path)
  {
    hide IndexFrom, Rewrite, Count, Settled;
    CountsOfPatterns(path);
    HeadSettled(head, WS_PATH);
    HeadSettled(head, MARKER);
    RewriteBehind(head + BLANK_LINE, body, WS_PATH, MARKER, SLASH);
    RewriteBehind(head + BLANK_LINE, Rewrite(body, WS_PATH, MARKER, SLASH), MARKER, path, LESS);
  }
}
