/** `send_websocket_js`: the stored script is rewritten for another WebSocket path by repeated
    in-place substitution, and its Content-Length header is corrected.
 */
module ScriptRewrite {
  import opened Bits
  import opened Options
  import opened Text
  import opened Decimal
  import opened TxtBuffer
  import opened Substitution

  /** "Content-Length:" */
  const LENGTH_HEADER: seq<byte> := [67, 111, 110, 116, 101, 110, 116, 45, 76, 101, 110, 103, 116, 104, 58]

  /** A first occurrence that ends within `pre` does not depend on what follows. */
  lemma FirstWithin(pre: seq<byte>, b1: seq<byte>, b2: seq<byte>, p: seq<byte>, from: nat, i: nat)
    requires IndexFrom(pre + b1, p, from) == Some(i) && i + |p| <= |pre|
    ensures IndexFrom(pre + b2, p, from) == Some(i)
  {
    hide OccursAt, IndexFrom;
    forall j | 0 <= j <= i
      ensures OccursAt(pre + b2, p, j) <==> OccursAt(pre + b1, p, j)
    {
      OccursBefore(pre, b1, p, j);
      OccursBefore(pre, b2, p, j);
    }
    IndexIs(pre + b2, p, from, i);
  }

  /** A stored file: an HTTP head with a Content-Length line, a blank line and a body, in which the
      path to be replaced occurs only behind the blank line. `at` and `eol` delimit the length:
      the name with its colon and one space ends at `at + 16`, and the line at `eol`.
   */
  ghost predicate StoredFile(head: seq<byte>, body: seq<byte>, at: nat, eol: nat) {
    var file := head + BLANK_LINE + body;
    && at + 16 <= eol <= |head|
    && IndexOf(file, LENGTH_HEADER) == Some(at)
    && IndexFrom(file, CRLF, at + 16) == Some(eol)
    && IndexOf(file, BLANK_LINE) == Some(|head|)
    && IndexOf(file, MARKER) == None
    && (forall j :: 0 <= j < |head| + 4 ==> !OccursAt(file, WS_PATH, j))
    && 0 !in file
  }

  /** The file with another body and the length corrected. */
  function Rewritten(head: seq<byte>, newBody: seq<byte>, at: nat, eol: nat): seq<byte>
    requires at + 16 <= eol <= |head|
  {
    head[..at + 16] + Digits(|newBody|) + head[eol..] + BLANK_LINE + newBody
  }

  /** The three searches find the same places after the body has changed. */
  lemma HeadUnchanged(head: seq<byte>, body: seq<byte>, at: nat, eol: nat, newBody: seq<byte>)
    requires StoredFile(head, body, at, eol)
    ensures var text := head + BLANK_LINE + newBody;
            && IndexOf(text, LENGTH_HEADER) == Some(at)
            && IndexFrom(text, CRLF, at + 16) == Some(eol)
            && IndexOf(text, BLANK_LINE) == Some(|head|)
  {
    hide IndexFrom;
    var pre := head + BLANK_LINE;
    FirstWithin(pre, body, newBody, LENGTH_HEADER, 0, at);
    FirstWithin(pre, body, newBody, CRLF, at + 16, eol);
    FirstWithin(pre, body, newBody, BLANK_LINE, 0, |head|);
  }

  /** The corrected length: in the rewritten file the first Content-Length header still stands at
      `at`, its value is the number printed there, the first blank line follows the rest of the
      head, and the value equals the number of bytes behind that blank line.
   */
  lemma LengthIsCorrect(head: seq<byte>, body: seq<byte>, at: nat, eol: nat, newBody: seq<byte>)
    requires StoredFile(head, body, at, eol)
    ensures var sent := Rewritten(head, newBody, at, eol);
            var digits := Digits(|newBody|);
            var blank := |head| - (eol - at - 16) + |digits|;
            && IndexOf(sent, LENGTH_HEADER) == Some(at)
            && sent[at + 16..at + 16 + |digits|] == digits && Value(digits) == |newBody|
            && IndexOf(sent, BLANK_LINE) == Some(blank)
            && sent[blank + 4..] == newBody
    ensures LENGTH_HEADER == Ascii("Content-Length:")
  {
    HeaderName();
    hide IndexFrom, Digits, Value, StoredFile;
    ValueOfDigits(|newBody|);
    StoredBounds(head, body, at, eol);
    HeadUnchanged(head, body, at, eol, newBody);
    var front, second, last := head[..at + 16], head[at + 16..eol], head[eol..];
    assert head == front + second + last;
    NewDigits(front, second, last, Digits(|newBody|), newBody, at);
  }

  lemma HeaderName()
    ensures LENGTH_HEADER == Ascii("Content-Length:")
  {
  }

  lemma NewDigits(front: seq<byte>, second: seq<byte>, last: seq<byte>, digits: seq<byte>, body: seq<byte>, at: nat)
    requires digits != [] && forall k :: 0 <= k < |digits| ==> 48 <= digits[k] < 58
    requires |front| == at + 16
    requires IndexOf(front + second + last + BLANK_LINE + body, LENGTH_HEADER) == Some(at)
    requires IndexOf(front + second + last + BLANK_LINE + body, BLANK_LINE) == Some(|front + second + last|)
    ensures var sent := front + digits + last + BLANK_LINE + body;
            && IndexOf(sent, LENGTH_HEADER) == Some(at)
            && sent[|front|..|front| + |digits|] == digits
            && IndexOf(sent, BLANK_LINE) == Some(|front| + |digits| + |last|)
            && sent[|front| + |digits| + |last| + 4..] == body
  {
    hide IndexFrom;
    var later := last + BLANK_LINE + body;
    var text, sent := front + second + last + BLANK_LINE + body, front + digits + last + BLANK_LINE + body;
    assert text == front + (second + later);
    assert sent == front + (digits + later) == front + digits + later;
    FirstWithin(front, second + later, digits + later, LENGTH_HEADER, 0, at);
    BlankLineFound(front, second, last, digits, body);
  }

  lemma StoredBounds(head: seq<byte>, body: seq<byte>, at: nat, eol: nat)
    requires StoredFile(head, body, at, eol)
    ensures at + 16 <= eol <= |head|
  {
  }

  lemma BlankLineFound(first: seq<byte>, second: seq<byte>, last: seq<byte>, digits: seq<byte>, body: seq<byte>)
    requires digits != [] && forall k :: 0 <= k < |digits| ==> 48 <= digits[k] < 58
    requires IndexOf(first + second + last + BLANK_LINE + body, BLANK_LINE) == Some(|first + second + last|)
    ensures IndexOf(first + digits + (last + BLANK_LINE + body), BLANK_LINE) == Some(|first| + |digits| + |last|)
  {
    hide IndexFrom;
    var later, head := last + BLANK_LINE + body, |first + second + last|;
    var text := first + second + last + BLANK_LINE + body;
    assert text == first + (second + later) && text == (first + second) + later;
    var sent, blank := first + digits + later, |first| + |digits| + |last|;
    OccursAfter(first + digits, later, BLANK_LINE, |last|);
    OccursAfter(first + second, later, BLANK_LINE, |last|);
    forall j | 0 <= j < blank
      ensures !OccursAt(sent, BLANK_LINE, j)
    {
      NotBlank(first, second, digits, later, head, j);
    }
    IndexIs(sent, BLANK_LINE, 0, blank);
  }

  /** Changing the digits between `first` and `later` adds no blank line. */
  lemma NotBlank(first: seq<byte>, second: seq<byte>, digits: seq<byte>, later: seq<byte>, blank: nat, j: nat)
    requires digits != [] && forall k :: 0 <= k < |digits| ==> 48 <= digits[k] < 58
    requires |first| + |second| <= blank && j < blank - |second| + |digits|
    requires forall i :: 0 <= i < blank ==> !OccursAt(first + (second + later), BLANK_LINE, i)
    ensures !OccursAt(first + digits + later, BLANK_LINE, j)
  {
    hide OccursAt;
    var n, text, sent := |first|, first + (second + later), first + digits + later;
    assert sent == first + (digits + later) && text == (first + second) + later;
    if j + 4 <= n {
      OccursBefore(first, second + later, BLANK_LINE, j);
      OccursBefore(first, digits + later, BLANK_LINE, j);
    } else if j < n {
      assert sent[n] == digits[0];
      Mismatch(sent, BLANK_LINE, j, n - j);
    } else if j < n + |digits| {
      assert sent[j] == digits[j - n];
      Mismatch(sent, BLANK_LINE, j, 0);
    } else {
      var k := j - n - |digits|;
      assert !OccursAt(text, BLANK_LINE, n + |second| + k);
      OccursAfter(first + digits, later, BLANK_LINE, k);
      OccursAfter(first + second, later, BLANK_LINE, k);
    }
  }

  /** What `n` replacements by `x` characters can add. */
  function Growth(n: nat, x: nat): nat { n * x }

  lemma GrowthLess(a: nat, b: nat, x: nat)
    requires a <= b
    ensures Growth(a, x) <= Growth(b, x) && (a < b ==> Growth(a, x) + x <= Growth(b, x))
  {
    assert (b - a) * x == b * x - a * x;
    if a < b { assert (b - a - 1) * x >= 0 && (b - a) * x == (b - a - 1) * x + x; }
  }

  lemma CountAtMost(s: seq<byte>, c: byte)
    ensures Count(s, c) <= |s|
  {
  }

  /** One round of a substitution loop. `c` is the character that each round removes. */
  method SubstituteOnce(js: Txt, p: seq<byte>, r: seq<byte>, ghost c: byte) returns (more: bool)
    requires js.Valid() && 0 !in js.Contents() && 0 !in p && 0 !in r && Count(r, c) < Count(p, c)
    requires js.endptr + |r| + 2048 < U32
    modifies js, js.buffer
    ensures js.Valid() && (js.buffer == old(js.buffer) || fresh(js.buffer)) && 0 !in js.Contents()
    ensures js.endptr <= old(js.endptr) + |r|
    ensures Rewrite(js.Contents(), p, r, c) == Rewrite(old(js.Contents()), p, r, c)
    ensures if more then Count(js.Contents(), c) < Count(old(js.Contents()), c)
            else js.endptr == old(js.endptr) && js.Contents() == old(js.Contents()) == Rewrite(js.Contents(), p, r, c)
  {
    hide IndexFrom, Rewrite, Count;
    ghost var s := js.Contents();
    CStringWithoutNul(p);
    CStringWithoutNul(r);
    CStringWithoutNul(s);
    RewriteOne(s, p, r, c);
    more := js.Substitute(p, r);
    if more {
      ghost var i := IndexOf(s, p).value;
      CountSplice(s, i, |p|, r, c);
      assert s[i..i + |p|] == p;
    }
  }

  method SubstituteEach(js: Txt, p: seq<byte>, r: seq<byte>, ghost c: byte)
    requires js.Valid() && 0 !in js.Contents() && 0 !in p && 0 !in r && Count(r, c) < Count(p, c)
    requires js.endptr + Growth(js.endptr, |r|) + |r| + 2048 < U32
    modifies js, js.buffer
    ensures js.Valid() && (js.buffer == old(js.buffer) || fresh(js.buffer))
    ensures js.Contents() == Rewrite(old(js.Contents()), p, r, c) && 0 !in js.Contents()
    ensures js.endptr <= old(js.endptr) + Growth(old(js.endptr), |r|)
  {
    hide Rewrite, Count, Growth, Txt.Contents;
    ghost var start := js.Contents();
    ghost var limit := js.endptr + Growth(js.endptr, |r|);
    CountAtMost(start, c);
    ContentsLength(js);
    GrowthLess(Count(start, c), js.endptr, |r|);
    var more := true;
    while more
      invariant js.Valid() && (js.buffer == old(js.buffer) || fresh(js.buffer))
      invariant 0 !in js.Contents() && Rewrite(js.Contents(), p, r, c) == Rewrite(start, p, r, c)
      invariant js.endptr + Growth(Count(js.Contents(), c), |r|) <= limit
      invariant !more ==> js.Contents() == Rewrite(start, p, r, c)
      decreases Count(js.Contents(), c), more
    {
      ghost var before := Count(js.Contents(), c);
      more := SubstituteOnce(js, p, r, c);
      if more {
        GrowthLess(Count(js.Contents(), c), before, |r|);
      }
    }
  }

  lemma ContentsLength(js: Txt)
    requires js.Valid()
    ensures |js.Contents()| == js.endptr
  {
  }

  lemma SizesFit(n: nat, k: nat)
    requires (n * 5 + 1) * (k + 1) + 3000 < 0x8000_0000
    ensures Growth(n, 4) == 4 * n && n + 4 * n + k + 3000 < 0x8000_0001
    ensures forall m: nat :: m <= 5 * n ==> m + Growth(m, k) + k + 2999 < 0x8000_0000
  {
    assert (n * 5 + 1) * (k + 1) == 5 * n + 5 * n * k + k + 1;
    assert 5 * n * k >= 0;
    forall m: nat | m <= 5 * n
      ensures m + Growth(m, k) + k + 2999 < 0x8000_0000
    {
      assert (5 * n - m) * k >= 0;
    }
  }

  lemma TailIndex(s: seq<byte>, p: seq<byte>, from: nat, i: nat)
    requires IndexFrom(s, p, from) == Some(i) && from <= |s|
    ensures IndexOf(s[from..], p) == Some(i - from)
  {
    hide OccursAt, IndexFrom;
    assert s[..from] + s[from..] == s;
    forall j: nat
      ensures OccursAt(s[from..], p, j) <==> OccursAt(s, p, from + j)
    {
      OccursAfter(s[..from], s[from..], p, j);
    }
    forall j | 0 <= j < i - from
      ensures !OccursAt(s[from..], p, j)
    {
      assert !OccursAt(s, p, from + j);
    }
    IndexIs(s[from..], p, 0, i - from);
  }

  /** Both substitution loops. */
  method SubstitutePath(js: Txt, path: seq<byte>)
    requires js.Valid() && 0 !in js.Contents() && LESS !in path && 0 !in path
    requires (js.endptr * 5 + 1) * (|path| + 1) + 3000 < 0x8000_0000
    modifies js, js.buffer
    ensures js.Valid() && (js.buffer == old(js.buffer) || fresh(js.buffer))
    ensures js.Contents() == BothLoops(old(js.Contents()), path) && 0 !in js.Contents()
    ensures js.endptr + 2999 < 0x8000_0000
  {
    SizesFit(js.endptr, |path|);
    hide IndexFrom, Rewrite, Count, Growth;
    CountsOfPatterns(path);
    SubstituteEach(js, WS_PATH, MARKER, SLASH);
    SubstituteEach(js, MARKER, path, LESS);
  }

  lemma PatternsWithoutNul()
    ensures 0 !in LENGTH_HEADER && 0 !in BLANK_LINE
  {
  }

  /** Where the length stands, how long its line is, and where the body begins. */
  method FindLength(js: Txt, ghost at: nat, ghost eol: nat, ghost blank: nat) returns (ii: nat, ll: nat, jj: nat)
    requires js.Valid() && 0 !in js.Contents() && at + 16 <= eol <= blank
    requires IndexOf(js.Contents(), LENGTH_HEADER) == Some(at)
    requires IndexFrom(js.Contents(), CRLF, at + 16) == Some(eol)
    requires IndexOf(js.Contents(), BLANK_LINE) == Some(blank)
    ensures ii == at + 16 && ll == eol - ii && jj == blank + 4 <= js.endptr
  {
    ghost var text := js.Contents();
    assert blank + 4 <= |text|;
    hide IndexFrom, OccursAt, CString;
    CStringWithoutNul(text);
    PatternsWithoutNul();
    CStringWithoutNul(LENGTH_HEADER);
    CStringWithoutNul(BLANK_LINE);
    var found := js.Find(LENGTH_HEADER);
    ii := found.value + 16;
    TailIndex(text, CRLF, ii, eol);
    CStringWithoutNul(text[ii..]);
    assert js.buffer[ii..js.endptr] == text[ii..];
    found := IndexOf(CString(js.buffer[ii..js.endptr]), CRLF);
    ll := found.value;
    found := js.Find(BLANK_LINE);
    jj := found.value + 4;
  }

  /** The correction of the Content-Length header. */
  method CorrectLength(js: Txt, ghost at: nat, ghost eol: nat, ghost blank: nat)
    requires js.Valid() && 0 !in js.Contents() && js.endptr + 2999 < 0x8000_0000
    requires at + 16 <= eol <= blank
    requires IndexOf(js.Contents(), LENGTH_HEADER) == Some(at)
    requires IndexFrom(js.Contents(), CRLF, at + 16) == Some(eol)
    requires IndexOf(js.Contents(), BLANK_LINE) == Some(blank)
    modifies js, js.buffer
    ensures js.Valid() && blank + 4 <= |old(js.Contents())|
    ensures js.Contents() == old(js.Contents())[..at + 16] + Digits(|old(js.Contents())| - (blank + 4))
                             + old(js.Contents())[eol..]
  {
    hide IndexFrom, Digits, OccursAt, CString;
    var ii, ll, jj := FindLength(js, at, eol, blank);
    var numbuf := Digits(js.endptr - jj);
    PrintedShort(js.endptr - jj);
    CStringWithoutNul(numbuf);
    js.Replace(ii, ll, numbuf);
  }

  /** In a stored file the loops change nothing but the body. */
  lemma OnlyBody(head: seq<byte>, body: seq<byte>, at: nat, eol: nat, path: seq<byte>)
    requires StoredFile(head, body, at, eol) && LESS !in path
    ensures BothLoops(head + BLANK_LINE + body, path) == head + BLANK_LINE + BothLoops(body, path)
    ensures IndexOf(body, MARKER) == None
  {
    hide IndexFrom, BothLoops;
    var h := head + BLANK_LINE;
    assert (h + body)[|h|..] == body;
    NoneInSuffix(h + body, MARKER, |h|);
    forall j | 0 <= j <= |h|
      ensures !OccursAt(h, WS_PATH, j) && !OccursAt(h, MARKER, j)
    {
      if j + 4 <= |h| {
        OccursBefore(h, body, WS_PATH, j);
        OccursBefore(h, body, MARKER, j);
        assert !OccursAt(h + body, WS_PATH, j) && !OccursAt(h + body, MARKER, j);
      }
    }
    IndexNone(h, WS_PATH, 0);
    IndexNone(h, MARKER, 0);
    BothLoopsBehind(head, body, path);
  }

  /** The rewriting of a stored file held in `js`: the body that both loops make, and its length in
      the head. Every "/ws/" has become the path, and nothing else has, if and only if the path
      completes no marker in the body.
   */
  method RewriteFile(js: Txt, path: seq<byte>, ghost head: seq<byte>, ghost body: seq<byte>, ghost at: nat,
                     ghost eol: nat)
    requires js.Valid() && js.Contents() == head + BLANK_LINE + body && StoredFile(head, body, at, eol)
    requires path != [] && LESS !in path && 0 !in path
    requires (js.endptr * 5 + 1) * (|path| + 1) + 3000 < 0x8000_0000
    modifies js, js.buffer
    ensures js.Valid() && js.Contents() == Rewritten(head, BothLoops(body, path), at, eol)
    ensures BothLoops(body, path) == ReplaceAll(body, WS_PATH, path) <==> !Completes(body, path)
  {
    hide IndexFrom, ReplaceAll, BothLoops, Completes, Digits;
    ghost var newBody := BothLoops(body, path);
    OnlyBody(head, body, at, eol, path);
    BothLoopsIff(body, path);
    SubstitutePath(js, path);
    HeadUnchanged(head, body, at, eol, newBody);
    ghost var text := js.Contents();
    assert text == head + BLANK_LINE + newBody;
    CorrectLength(js, at, eol, |head|);
    assert text[..at + 16] == head[..at + 16] && text[eol..] == head[eol..] + BLANK_LINE + newBody;
  }

  /** `send_websocket_js` once the file is found: the bytes handed to the client. */
  method SendScript(data: seq<byte>, path: seq<byte>, ghost head: seq<byte>, ghost body: seq<byte>, ghost at: nat,
                    ghost eol: nat)
    returns (sent: seq<byte>)
    requires data == head + BLANK_LINE + body && StoredFile(head, body, at, eol)
    requires LESS !in path && 0 !in path
    requires (|data| * 5 + 1) * (|path| + 1) + 3000 < 0x8000_0000
    ensures if path == [] || path == WS_PATH then sent == data else
              && sent == Rewritten(head, BothLoops(body, path), at, eol)
              && (BothLoops(body, path) == ReplaceAll(body, WS_PATH, path) <==> !Completes(body, path))
  {
    hide IndexFrom, ReplaceAll, BothLoops, Completes, Digits;
    if path == [] || path == WS_PATH {
      return data;
    }
    SizesFit(|data|, |path|);
    var js := new Txt(data, |data|, |data| + 2 * |path|);
    assert data[..|data|] == data;
    RewriteFile(js, path, head, body, at, eol);
    sent := js.buffer[..js.endptr];
  }
}
