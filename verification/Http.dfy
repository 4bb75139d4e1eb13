/** Extraction of one complete HTTP request from the bytes received so far: the line scan of
    `parseRequest`, the header lookup behind Content-Length, and the erase of `resetRqst`.
 */
module Http {
  import opened Bits
  import opened Options
  import opened Text
  import opened Decimal
  import opened HttpWaiting

  const COLON: byte := 58
  const SPACE: byte := 32
  /** "Content-Length" */
  const CONTENT_LENGTH: seq<byte> := [67, 111, 110, 116, 101, 110, 116, 45, 76, 101, 110, 103, 116, 104]

  function Lower(c: byte): byte { if 65 <= c <= 90 then c + 32 else c }

  /** `strcasecmp` equality. */
  predicate SameName(a: seq<byte>, b: seq<byte>) {
    |a| == |b| && forall i :: 0 <= i < |a| ==> Lower(a[i]) == Lower(b[i])
  }

  predicate IsNamed(line: seq<byte>, name: seq<byte>) {
    var colon := IndexOf(line, [COLON]);
    colon.Some? && SameName(CString(line[..colon.value]), CString(name))
  }

  /** `headerIndex`: the first line with that name, from line `from` on. */
  function HeaderIndex(headers: seq<seq<byte>>, name: seq<byte>, from: nat): (r: Option<nat>)
    ensures r.Some? ==> from <= r.value < |headers| && IsNamed(headers[r.value], name)
    ensures forall i :: from <= i < (if r.Some? then r.value else |headers|) ==> !IsNamed(headers[i], name)
    decreases if from <= |headers| then |headers| - from else 0
  {
    if from >= |headers| then None
    else if IsNamed(headers[from], name) then Some(from)
    else HeaderIndex(headers, name, from + 1)
  }

  /** The first index from `i` on whose byte is not a space. */
  function SkipSpaces(s: seq<byte>, i: nat): (r: nat)
    requires i <= |s|
    ensures i <= r <= |s| && (forall k :: i <= k < r ==> s[k] == SPACE) && (r < |s| ==> s[r] != SPACE)
    decreases |s| - i
  {
    if i == |s| || s[i] != SPACE then i else SkipSpaces(s, i + 1)
  }

  /** The first index from `i` on that holds a CR or LF, or the end. */
  function ToLineBreak(s: seq<byte>, i: nat): (r: nat)
    requires i <= |s|
    ensures i <= r <= |s| && (forall k :: i <= k < r ==> s[k] != 13 && s[k] != 10)
    decreases |s| - i
  {
    if i == |s| || s[i] == 13 || s[i] == 10 then i else ToLineBreak(s, i + 1)
  }

  /** The value in a header line; none when the line has only spaces behind the colon, for which
      the code takes a substring at an impossible position and throws.
   */
  function HeaderValue(line: seq<byte>): Option<seq<byte>>
    requires IndexOf(line, [COLON]).Some?
  {
    var i2 := SkipSpaces(line, IndexOf(line, [COLON]).value + 1);
    if i2 == |line| then None else Some(line[i2..ToLineBreak(line, i2)])
  }

  function SkipBlanks(s: seq<byte>): seq<byte> {
    if s != [] && (s[0] == SPACE || 9 <= s[0] <= 13) then SkipBlanks(s[1..]) else s
  }

  /** `std::stoul`; none when it throws. */
  function Stoul(s: seq<byte>): Option<nat> {
    var t := SkipBlanks(s);
    var negative := t != [] && t[0] == 45;
    var digits := if t != [] && (t[0] == 43 || t[0] == 45) then t[1..] else t;
    if digits == [] || !IsDigit(digits[0]) then None else
      var n := LeadingNumber(digits, 0);
      if n >= U32 then None else Some(if negative then (U32 - n) % U32 else n)
  }

  /** The length that the code reads from the headers: 0 when there is none or it is no number;
      `None` when the value is missing and the code throws.
   */
  function ContentLength(headers: seq<seq<byte>>): Option<nat> {
    match HeaderIndex(headers, CONTENT_LENGTH, 0)
    case None => Some(0)
    case Some(i) =>
      if i == 0 then Some(0) else
        match HeaderValue(headers[i])
        case None => None
        case Some(value) => match Stoul(value) case None => Some(0) case Some(n) => Some(n)
  }

  predicate Scannable(rqst: seq<byte>, i: nat) {
    IndexFrom(rqst, BLANK_LINE, i).Some? || OccursAt(rqst, CRLF, i)
  }

  /** The scanned lines, and the position of the CRLF that ends the scan. */
  datatype Scan = Scan(headers: seq<seq<byte>>, end: nat)

  /** The lines from `i` up to an empty one. */
  function ScanLines(rqst: seq<byte>, i: nat): (r: Scan)
    requires Scannable(rqst, i)
    ensures OccursAt(rqst, CRLF, r.end)
    decreases |rqst| + 1 - i
  {
    LineBeforeBlank(rqst, i);
    var i2 := IndexFrom(rqst, CRLF, i).value;
    if i2 == i then Scan([], i) else
      BlankAfterLine(rqst, i);
      var later := ScanLines(rqst, i2 + 2);
      Scan([rqst[i..i2]] + later.headers, later.end)
  }

  lemma CrlfIsPair(s: seq<byte>, j: nat)
    ensures OccursAt(s, CRLF, j) <==> j + 2 <= |s| && s[j] == 13 && s[j + 1] == 10
  {
    if j + 2 <= |s| { assert s[j..j + 2] == [s[j], s[j + 1]]; }
  }

  lemma BlankIsTwo(s: seq<byte>, j: nat)
    ensures OccursAt(s, BLANK_LINE, j) <==> OccursAt(s, CRLF, j) && OccursAt(s, CRLF, j + 2)
  {
    CrlfIsPair(s, j);
    CrlfIsPair(s, j + 2);
    if j + 4 <= |s| { assert s[j..j + 4] == [s[j], s[j + 1], s[j + 2], s[j + 3]]; }
  }

  lemma LineBeforeBlank(rqst: seq<byte>, i: nat)
    requires Scannable(rqst, i)
    ensures IndexFrom(rqst, CRLF, i).Some?
  {
    hide OccursAt, IndexFrom;
    if OccursAt(rqst, CRLF, i) {
      IndexAtMost(rqst, CRLF, i, i);
    } else {
      var b := IndexFrom(rqst, BLANK_LINE, i).value;
      BlankIsTwo(rqst, b);
      IndexAtMost(rqst, CRLF, i, b);
    }
  }

  /** Behind a line that is not the last one there is an empty line or another blank line. */
  lemma BlankAfterLine(rqst: seq<byte>, i: nat)
    requires Scannable(rqst, i)
    requires IndexFrom(rqst, CRLF, i).Some? && IndexFrom(rqst, CRLF, i).value > i
    ensures var next := IndexFrom(rqst, CRLF, i).value + 2;
            next <= |rqst| && Scannable(rqst, next)
  {
    var i2 := IndexFrom(rqst, CRLF, i).value;
    assert OccursAt(rqst, CRLF, i2) && !OccursAt(rqst, CRLF, i);
    CrlfIsPair(rqst, i2);
    var b := IndexFrom(rqst, BLANK_LINE, i).value;
    BlankIsTwo(rqst, b);
    CrlfIsPair(rqst, b);
    assert OccursAt(rqst, BLANK_LINE, b) && i2 <= b && b != i2 + 1;
  }

  /** The lines followed by their line ends. */
  function JoinLines(lines: seq<seq<byte>>): seq<byte> {
    if lines == [] then [] else lines[0] + CRLF + JoinLines(lines[1..])
  }

  predicate IsLine(h: seq<byte>) {
    h != [] && forall j :: 0 <= j <= |h| ==> !OccursAt(h, CRLF, j)
  }

  predicate AreLines(lines: seq<seq<byte>>) {
    forall i :: 0 <= i < |lines| ==> IsLine(lines[i])
  }

  /** A line end is found right behind a line. */
  lemma LineFound(h: seq<byte>, rest: seq<byte>)
    requires IsLine(h)
    ensures IndexOf(h + CRLF + rest, CRLF) == Some(|h|)
  {
    var s := h + CRLF + rest;
    CrlfIsPair(s, |h|);
    forall j | 0 <= j < |h|
      ensures !OccursAt(s, CRLF, j)
    {
      assert !OccursAt(h, CRLF, j);
      CrlfIsPair(s, j);
      CrlfIsPair(h, j);
    }
    IndexIs(s, CRLF, 0, |h|);
  }

  lemma IndexShift(prefix: seq<byte>, s: seq<byte>, p: seq<byte>)
    ensures IndexFrom(prefix + s, p, |prefix|)
            == match IndexOf(s, p) case None => None case Some(i) => Some(|prefix| + i)
  {
    hide OccursAt, IndexFrom;
    var t := prefix + s;
    forall j: nat
      ensures OccursAt(t, p, |prefix| + j) <==> OccursAt(s, p, j)
    {
      OccursAfter(prefix, s, p, j);
    }
    match IndexOf(s, p)
    case Some(i) =>
      forall j | |prefix| <= j < |prefix| + i
        ensures !OccursAt(t, p, j)
      {
        assert !OccursAt(s, p, j - |prefix|);
      }
      IndexIs(t, p, |prefix|, |prefix| + i);
    case None =>
      forall j | |prefix| <= j <= |t|
        ensures !OccursAt(t, p, j)
      {
        assert !OccursAt(s, p, j - |prefix|);
      }
      IndexNone(t, p, |prefix|);
  }

  /** One step of the scan. */
  lemma ScanStep(rqst: seq<byte>, i: nat, i2: nat)
    requires Scannable(rqst, i) && IndexFrom(rqst, CRLF, i) == Some(i2)
    ensures if i2 == i then ScanLines(rqst, i) == Scan([], i) else
              && i < i2 && i2 + 2 <= |rqst| && Scannable(rqst, i2 + 2)
              && ScanLines(rqst, i)
                 == Scan([rqst[i..i2]] + ScanLines(rqst, i2 + 2).headers, ScanLines(rqst, i2 + 2).end)
  {
    hide IndexFrom;
    if i2 > i { BlankAfterLine(rqst, i); }
  }

  /** Round trip of the scan: whatever lines a request head is made of, the scan finds exactly
      them, and stops at the empty line behind them.
   */
  lemma {:induction false} ScanFindsLines(before: seq<byte>, lines: seq<seq<byte>>, tail: seq<byte>)
    requires AreLines(lines)
    ensures var rqst := before + JoinLines(lines) + CRLF + tail;
            && Scannable(rqst, |before|)
            && ScanLines(rqst, |before|) == Scan(lines, |before + JoinLines(lines)|)
    decreases |lines|
  {
    hide IndexFrom, OccursAt, ScanLines;
    var rqst := before + JoinLines(lines) + CRLF + tail;
    if lines == [] {
      assert rqst == before + (CRLF + tail);
      OccursAfter(before, CRLF + tail, CRLF, 0);
      CrlfIsPair(CRLF + tail, 0);
      IndexIs(rqst, CRLF, |before|, |before|);
      ScanStep(rqst, |before|, |before|);
    } else {
      var h, later := lines[0], lines[1..];
      var rest := JoinLines(later) + CRLF + tail;
      assert lines == [h] + later;
      HeadFirst(before, h, later, tail);
      LineFound(h, rest);
      IndexShift(before, h + CRLF + rest, CRLF);
      ScanFindsLines(before + h + CRLF, later, tail);
      BlankAhead(rqst, |before|, |before| + |h|);
      ScanStep(rqst, |before|, |before| + |h|);
    }
  }

  lemma HeadFirst(before: seq<byte>, h: seq<byte>, later: seq<seq<byte>>, tail: seq<byte>)
    ensures var joined := JoinLines([h] + later);
            var rqst := before + joined + CRLF + tail;
            && joined == h + CRLF + JoinLines(later)
            && rqst == before + (h + CRLF + (JoinLines(later) + CRLF + tail))
            && rqst == before + h + CRLF + JoinLines(later) + CRLF + tail
            && rqst[|before|..|before| + |h|] == h
  {
    assert ([h] + later)[1..] == later;
    var j := JoinLines(later);
    hide JoinLines;
    assert before + (h + CRLF + j) + CRLF + tail == before + (h + CRLF + (j + CRLF + tail));
  }

  lemma BlankAhead(rqst: seq<byte>, i: nat, i2: nat)
    requires i <= i2 && OccursAt(rqst, CRLF, i2)
    requires Scannable(rqst, i2 + 2)
    ensures IndexFrom(rqst, BLANK_LINE, i).Some?
  {
    hide OccursAt, IndexFrom;
    if OccursAt(rqst, CRLF, i2 + 2) {
      BlankIsTwo(rqst, i2);
      IndexAtMost(rqst, BLANK_LINE, i, i2);
    } else {
      IndexAtMost(rqst, BLANK_LINE, i, IndexFrom(rqst, BLANK_LINE, i2 + 2).value);
    }
  }

  /** The scan of any buffer: the lines are read off it in order, and the end of the scan is the
      first blank line, unless the buffer starts with an empty line.
   */
  lemma {:induction false} ScanSound(rqst: seq<byte>, i: nat)
    requires Scannable(rqst, i)
    ensures var r := ScanLines(rqst, i);
            && i <= r.end && rqst[i..r.end] == JoinLines(r.headers)
            && (r.headers == [] <==> OccursAt(rqst, CRLF, i))
            && (r.headers != [] ==> IndexFrom(rqst, BLANK_LINE, i) == Some(r.end - 2))
    decreases |rqst| + 1 - i
  {
    hide IndexFrom, ScanLines;
    LineBeforeBlank(rqst, i);
    var i2 := IndexFrom(rqst, CRLF, i).value;
    ScanStep(rqst, i, i2);
    if i2 == i {
      assert rqst[i..i] == [];
    } else {
      var later := ScanLines(rqst, i2 + 2);
      ScanSound(rqst, i2 + 2);
      FirstBlank(rqst, i, i2);
      assert rqst[i2..i2 + 2] == CRLF;
      assert rqst[i..later.end] == rqst[i..i2] + rqst[i2..i2 + 2] + rqst[i2 + 2..later.end];
      assert ([rqst[i..i2]] + later.headers)[1..] == later.headers;
    }
  }

  lemma FirstBlank(rqst: seq<byte>, i: nat, i2: nat)
    requires IndexFrom(rqst, CRLF, i) == Some(i2)
    ensures OccursAt(rqst, CRLF, i2 + 2) ==> IndexFrom(rqst, BLANK_LINE, i) == Some(i2)
    ensures !OccursAt(rqst, CRLF, i2 + 2) && IndexFrom(rqst, BLANK_LINE, i2 + 2).Some?
            ==> IndexFrom(rqst, BLANK_LINE, i) == IndexFrom(rqst, BLANK_LINE, i2 + 2)
  {
    hide OccursAt, IndexFrom;
    forall j | i <= j < i2 + 2
      ensures OccursAt(rqst, BLANK_LINE, j) <==> j == i2 && OccursAt(rqst, CRLF, i2 + 2)
    {
      BlankIsTwo(rqst, j);
      CrlfIsPair(rqst, i2);
      CrlfIsPair(rqst, j);
    }
    var later := IndexFrom(rqst, BLANK_LINE, i2 + 2);
    if OccursAt(rqst, CRLF, i2 + 2) {
      IndexIs(rqst, BLANK_LINE, i, i2);
    } else if later.Some? {
      IndexIs(rqst, BLANK_LINE, i, later.value);
    }
  }

  /** What `parseRequest` leaves behind for a buffer that holds a blank line. */
  datatype Parsed = Threw | Parsed(headers: seq<seq<byte>>, bodyOffset: nat, bodySize: nat, complete: bool)

  function ParseComplete(rqst: seq<byte>): Parsed
    requires IndexOf(rqst, BLANK_LINE).Some?
  {
    var scan := ScanLines(rqst, 0);
    match ContentLength(scan.headers)
    case None => Threw
    case Some(n) =>
      var offset := scan.end + 2;
      if |rqst| - offset >= n then Parsed(scan.headers, offset, n, true)
      else Parsed(scan.headers, offset, |rqst| - offset, false)
  }

  /** Line `i` is the first one of that name. */
  predicate FirstNamed(headers: seq<seq<byte>>, name: seq<byte>, i: nat) {
    && i < |headers| && IsNamed(headers[i], name)
    && forall j :: 0 <= j < i ==> !IsNamed(headers[j], name)
  }

  /** The first line of that name is not the request line, and has nothing but spaces behind its
      colon.
   */
  ghost predicate Lacks(headers: seq<seq<byte>>, name: seq<byte>) {
    exists i: nat :: FirstNamed(headers, name, i) && i > 0 && NoValue(headers[i])
  }

  /** A header line with nothing but spaces behind its colon. */
  predicate NoValue(line: seq<byte>) {
    var colon := IndexOf(line, [COLON]);
    colon.Some? && forall k :: colon.value < k < |line| ==> line[k] == SPACE
  }

  /** For every buffer with a blank line: the exception that nothing catches is thrown if and only
      if the first Content-Length line is not the request line and has no value.
   */
  lemma ThrewIff(rqst: seq<byte>)
    requires IndexOf(rqst, BLANK_LINE).Some?
    ensures var headers := ScanLines(rqst, 0).headers;
            ParseComplete(rqst).Threw? <==> Lacks(headers, CONTENT_LENGTH)
  {
    hide IndexFrom, ScanLines, IsNamed, Stoul;
    var headers := ScanLines(rqst, 0).headers;
    match HeaderIndex(headers, CONTENT_LENGTH, 0)
    case None =>
    case Some(i) =>
      assert FirstNamed(headers, CONTENT_LENGTH, i);
      assert forall j: nat :: FirstNamed(headers, CONTENT_LENGTH, j) ==> j == i;
      NoValueIff(headers[i]);
      NamedHasColon(headers[i], CONTENT_LENGTH);
  }

  lemma NamedHasColon(line: seq<byte>, name: seq<byte>)
    requires IsNamed(line, name)
    ensures IndexOf(line, [COLON]).Some?
  {
  }

  lemma NoValueIff(line: seq<byte>)
    ensures IndexOf(line, [COLON]).Some? ==> (HeaderValue(line) == None <==> NoValue(line))
  {
    var colon := IndexOf(line, [COLON]);
    if colon.Some? {
      assert line[colon.value..colon.value + 1] == [COLON];
    }
  }

  /** What `resetRqst` leaves in the buffer. */
  function Leftover(rqst: seq<byte>, p: Parsed): seq<byte>
    requires p.Parsed? && p.bodyOffset + p.bodySize <= |rqst|
  {
    if p.complete then rqst[p.bodyOffset + p.bodySize..] else []
  }

  /** Extraction: from a request made of lines, an empty line and a body of the announced length,
      followed by anything, exactly the lines and the body are delimited, and the reset leaves
      exactly what follows.
   */
  lemma RequestExtracted(lines: seq<seq<byte>>, body: seq<byte>, rest: seq<byte>)
    requires lines != [] && AreLines(lines) && ContentLength(lines) == Some(|body|)
    ensures var head := JoinLines(lines);
            var rqst := head + CRLF + body + rest;
            && |head| >= 2 && IndexOf(rqst, BLANK_LINE) == Some(|head| - 2)
            && var p := ParseComplete(rqst);
               && p == Parsed(lines, |head| + 2, |body|, true)
               && rqst[p.bodyOffset..p.bodyOffset + p.bodySize] == body
               && Leftover(rqst, p) == rest
  {
    hide IndexFrom, ScanLines, ContentLength;
    var head := JoinLines(lines);
    var rqst := head + CRLF + body + rest;
    assert rqst == [] + head + CRLF + (body + rest);
    ScanFindsLines([], lines, body + rest);
    ScanSound(rqst, 0);
    assert [] + head == head && |lines[0] + CRLF| >= 2;
  }

  /** For every buffer with a blank line: the request counts as complete if and only if at least as many
      bytes as announced stand behind the empty line; then the body is as long as announced, and
      otherwise all that has arrived.
   */
  lemma CompleteIff(rqst: seq<byte>)
    requires IndexOf(rqst, BLANK_LINE).Some? && ParseComplete(rqst).Parsed?
    ensures var p, scan := ParseComplete(rqst), ScanLines(rqst, 0);
            var n := ContentLength(scan.headers);
            && n.Some? && p.headers == scan.headers && p.bodyOffset == scan.end + 2 <= |rqst|
            && (p.complete <==> n.value <= |rqst| - p.bodyOffset)
            && p.bodySize == if p.complete then n.value else |rqst| - p.bodyOffset
  {
    hide IndexFrom, ScanLines, ContentLength;
  }

  /** A request of which the head and only a part of the body have arrived is incomplete, whatever the
      part.
   */
  lemma PartialBody(lines: seq<seq<byte>>, n: nat, part: seq<byte>)
    requires lines != [] && AreLines(lines) && ContentLength(lines) == Some(n) && |part| < n
    ensures var head := JoinLines(lines);
            && IndexOf(head + CRLF + part, BLANK_LINE) == Some(|head| - 2)
            && ParseComplete(head + CRLF + part) == Parsed(lines, |head| + 2, |part|, false)
  {
    hide IndexFrom, ScanLines, ContentLength, JoinLines;
    var head := JoinLines(lines);
    assert [] + head + CRLF + part == head + CRLF + part && |[] + head| == |head|;
    ScanFindsLines([], lines, part);
    ScanSound(head + CRLF + part, 0);
    EndOfHead(lines);
  }

  lemma EndOfHead(lines: seq<seq<byte>>)
    requires lines != []
    ensures |JoinLines(lines)| >= 2
  {
    assert |lines[0] + CRLF| >= 2;
  }

  /** A request cut short anywhere is not taken for a complete one: its head is not complete, or its
      body is not.
   */
  lemma RequestPrefix(lines: seq<seq<byte>>, body: seq<byte>, k: nat)
    requires lines != [] && AreLines(lines) && ContentLength(lines) == Some(|body|)
    requires k < |JoinLines(lines) + CRLF + body|
    ensures var rqst := (JoinLines(lines) + CRLF + body)[..k];
            if k < |JoinLines(lines)| + 2 then IndexOf(rqst, BLANK_LINE) == None
            else IndexOf(rqst, BLANK_LINE).Some? && ParseComplete(rqst)
                   == Parsed(lines, |JoinLines(lines)| + 2, k - |JoinLines(lines)| - 2, false)
  {
    hide IndexFrom, ScanLines, ContentLength, JoinLines, OccursAt;
    var head := JoinLines(lines);
    var whole := head + CRLF + body;
    if k < |head| + 2 {
      RequestExtracted(lines, body, []);
      assert head + CRLF + body + [] == whole;
      forall j | 0 <= j <= k
        ensures !OccursAt(whole[..k], BLANK_LINE, j)
      {
        NoBlankYet(whole, k, j, |head| - 2);
      }
      IndexNone(whole[..k], BLANK_LINE, 0);
    } else {
      var n := k - |head| - 2;
      assert whole[..k] == head + CRLF + body[..n];
      PartialBody(lines, |body|, body[..n]);
    }
  }

  lemma NoBlankYet(whole: seq<byte>, k: nat, j: nat, first: nat)
    requires k <= |whole| && IndexOf(whole, BLANK_LINE) == Some(first) && k < first + 4
    ensures !OccursAt(whole[..k], BLANK_LINE, j)
  {
    if OccursAt(whole[..k], BLANK_LINE, j) {
      assert whole[..k] + whole[k..] == whole;
      OccursBefore(whole[..k], whole[k..], BLANK_LINE, j);
    }
  }

  /** Two spellings of a name that differ only in the case of letters. */
  predicate Respelled(a: seq<byte>, b: seq<byte>) {
    && |a| == |b|
    && forall i :: 0 <= i < |a| ==>
         a[i] == b[i] || (97 <= a[i] <= 122 && b[i] == a[i] - 32) || (65 <= a[i] <= 90 && b[i] == a[i] + 32)
  }

  /** Exactly the lines with the name in some spelling before their first colon have that name. */
  lemma NamedIff(line: seq<byte>, name: seq<byte>)
    requires 0 !in name && COLON !in name
    requires 0 !in line
    ensures IsNamed(line, name) <==>
              exists given: seq<byte> :: Respelled(name, given) && given + [COLON] <= line
  {
    hide IndexFrom;
    assert CString(name) == name by { CStringWithoutNul(name); }
    var colon := IndexOf(line, [COLON]);
    if IsNamed(line, name) {
      var given := line[..colon.value];
      CStringWithoutNul(given);
      assert line[colon.value..colon.value + 1] == [COLON];
      assert line[colon.value] == COLON;
      assert given + [COLON] <= line;
      SameIffRespelled(name, given);
    }
    if given: seq<byte> :| Respelled(name, given) && given + [COLON] <= line {
      SameIffRespelled(name, given);
      NoColon(name, given);
      var rest := line[|given| + 1..];
      assert line == given + [COLON] + rest;
      ColonFound(given, rest);
      assert line[..|given|] == given;
      CStringWithoutNul(given);
    }
  }

  lemma NoColon(a: seq<byte>, b: seq<byte>)
    requires Respelled(a, b) && COLON !in a
    ensures COLON !in b
  {
    forall i | 0 <= i < |b|
      ensures b[i] != COLON
    {
      assert a[i] in a;
    }
  }

  lemma SameIffRespelled(a: seq<byte>, b: seq<byte>)
    ensures SameName(b, a) <==> Respelled(a, b)
  {
    forall i | 0 <= i < |a| && |a| == |b|
      ensures Lower(a[i]) == Lower(b[i]) <==>
                || a[i] == b[i] || (97 <= a[i] <= 122 && b[i] == a[i] - 32) || (65 <= a[i] <= 90 && b[i] == a[i] + 32)
    {
    }
  }

  /** Any request with such a line throws. */
  lemma RequestThrows(lines: seq<seq<byte>>, k: nat, tail: seq<byte>)
    requires AreLines(lines) && 0 < k < |lines| && FirstNamed(lines, CONTENT_LENGTH, k) && NoValue(lines[k])
    ensures var rqst := JoinLines(lines) + CRLF + tail;
            IndexOf(rqst, BLANK_LINE).Some? && ParseComplete(rqst).Threw?
  {
    hide IndexFrom, ContentLength, JoinLines, ScanLines, Scannable;
    var head := JoinLines(lines);
    var rqst := head + CRLF + tail;
    assert Lacks(lines, CONTENT_LENGTH);
    ScanFindsLines([], lines, tail);
    assert [] + head == head;
    ScanSound(rqst, 0);
    ThrewIff(rqst);
  }

  /** A buffer that does start with an empty line is taken for a request without lines and without
      body, however it goes on.
   */
  lemma LeadingCrlf(tail: seq<byte>)
    requires IndexOf(CRLF + tail, BLANK_LINE).Some?
    ensures ParseComplete(CRLF + tail) == Parsed([], 2, 0, true)
    ensures Leftover(CRLF + tail, ParseComplete(CRLF + tail)) == tail
  {
    hide IndexFrom;
    var rqst := CRLF + tail;
    assert OccursAt(rqst, CRLF, 0);
    IndexIs(rqst, CRLF, 0, 0);
    ScanSound(rqst, 0);
    ScanStep(rqst, 0, 0);
    NoAnnouncedLength([]);
    assert rqst[2..] == tail;
  }

  /** For every buffer: the body begins behind the first blank line unless the buffer starts with
      an empty line, and only then not.
   */
  lemma BodyOffsetIff(rqst: seq<byte>)
    requires IndexOf(rqst, BLANK_LINE).Some? && ParseComplete(rqst).Parsed?
    ensures ParseComplete(rqst).bodyOffset == IndexOf(rqst, BLANK_LINE).value + 4 <==> !OccursAt(rqst, CRLF, 0)
  {
    hide IndexFrom, ScanLines, ContentLength, OccursAt;
    ScanSound(rqst, 0);
    if OccursAt(rqst, CRLF, 0) {
      assert rqst[0..ScanLines(rqst, 0).end] == [];
    }
  }

  lemma ColonFound(name: seq<byte>, rest: seq<byte>)
    requires COLON !in name
    ensures IndexOf(name + [COLON] + rest, [COLON]) == Some(|name|)
  {
    var s := name + [COLON] + rest;
    assert s[|name|..|name| + 1] == [COLON];
    forall j | 0 <= j < |name|
      ensures !OccursAt(s, [COLON], j)
    {
      assert s[j..j + 1] == [name[j]] && name[j] in name;
    }
    IndexIs(s, [COLON], 0, |name|);
  }

  function Spaces(n: nat): (r: seq<byte>)
    ensures |r| == n && forall k :: 0 <= k < n ==> r[k] == SPACE
  {
    seq(n, _ => SPACE)
  }

  predicate AreBlanks(s: seq<byte>) {
    forall k :: 0 <= k < |s| ==> s[k] == SPACE || 9 <= s[k] <= 13
  }

  predicate AreDigits(s: seq<byte>) {
    s != [] && forall k :: 0 <= k < |s| ==> 48 <= s[k] <= 57
  }

  lemma {:induction false} BlanksSkipped(blanks: seq<byte>, rest: seq<byte>)
    requires AreBlanks(blanks) && (rest == [] || (rest[0] != SPACE && !(9 <= rest[0] <= 13)))
    ensures SkipBlanks(blanks + rest) == rest
    decreases |blanks|
  {
    if blanks == [] {
      assert blanks + rest == rest;
    } else {
      assert (blanks + rest)[1..] == blanks[1..] + rest && (blanks + rest)[0] == blanks[0];
      BlanksSkipped(blanks[1..], rest);
    }
  }

  lemma {:induction false} LeadingValue(d: seq<byte>)
    requires AreDigits(d)
    ensures LeadingNumber(d, 0) == Value(d)
  {
    var n := |d| - 1;
    assert d == d[..n] + [d[n]];
    assert IsDigit(d[n]);
    if n > 0 {
      LeadingValue(d[..n]);
      LeadingNumberSnoc(d[..n], d[n], 0);
    } else {
      assert d[1..] == [] && d[..0] == [];
    }
  }

  lemma {:induction false} LeadingStops(d: seq<byte>, tail: seq<byte>, sofar: nat)
    requires (forall k :: 0 <= k < |d| ==> IsDigit(d[k])) && (tail == [] || !IsDigit(tail[0]))
    ensures LeadingNumber(d + tail, sofar) == LeadingNumber(d, sofar)
    decreases |d|
  {
    if d == [] {
      assert d + tail == tail;
    } else {
      assert (d + tail)[1..] == d[1..] + tail && (d + tail)[0] == d[0];
      LeadingStops(d[1..], tail, 10 * sofar + (d[0] as nat - 48));
    }
  }

  /** `std::stoul` of blanks, a sign, digits and anything that is no digit: the digits' value, with a
      minus modulo 2^32, and an exception if it does not fit 32 bits.
   */
  lemma NumberRead(blanks: seq<byte>, sign: seq<byte>, d: seq<byte>, tail: seq<byte>)
    requires AreBlanks(blanks) && sign in [[], [43], [45]] && AreDigits(d) && (tail == [] || !IsDigit(tail[0]))
    ensures Stoul(blanks + sign + d + tail)
            == if Value(d) >= U32 then None else Some(if sign == [45] then (U32 - Value(d)) % U32 else Value(d))
  {
    var rest := sign + d + tail;
    assert blanks + sign + d + tail == blanks + rest;
    assert rest[0] == if sign == [] then d[0] else sign[0];
    BlanksSkipped(blanks, rest);
    LeadingValue(d);
    assert forall k :: 0 <= k < |d| ==> IsDigit(d[k]);
    LeadingStops(d, tail, 0);
    assert sign != [] ==> rest[1..] == d + tail;
    assert sign == [] ==> rest == d + tail;
    assert (d + tail)[0] == d[0];
    hide SkipBlanks, LeadingNumber, Value;
  }

  /** Without a digit behind blanks and sign there is an exception, which the code catches. */
  lemma NoNumber(blanks: seq<byte>, sign: seq<byte>, tail: seq<byte>)
    requires AreBlanks(blanks) && sign in [[], [43], [45]]
    requires tail == [] || (!IsDigit(tail[0]) && (sign == [] ==> tail[0] !in [43, 45, SPACE, 9, 10, 11, 12, 13]))
    ensures Stoul(blanks + sign + tail) == None
  {
    var rest := sign + tail;
    assert blanks + sign + tail == blanks + rest;
    BlanksSkipped(blanks, rest);
    assert sign != [] ==> rest[1..] == tail;
  }

  lemma StoulOfDigits(n: nat)
    requires n < U32
    ensures Stoul(Digits(n)) == Some(n)
  {
    var d := Digits(n);
    assert IsDigit(d[0]);
    ReadPrinted(n);
  }

  /** A header line with a number, in any letter case and with any spaces before the number. */
  lemma NumericHeader(name: seq<byte>, spaces: nat, n: nat)
    requires COLON !in name && 0 !in name && SameName(name, CONTENT_LENGTH) && n < U32
    ensures var line := name + [COLON] + (Spaces(spaces) + Digits(n));
            && IsNamed(line, CONTENT_LENGTH) && IndexOf(line, [COLON]).Some?
            && HeaderValue(line) == Some(Digits(n))
    ensures CONTENT_LENGTH == Ascii("Content-Length")
  {
    hide Digits, IndexFrom, SameName, SkipSpaces, ToLineBreak, Spaces, CString;
    LengthName();
    var d := Digits(n);
    var line := name + [COLON] + (Spaces(spaces) + d);
    ColonFound(name, Spaces(spaces) + d);
    NameOf(name, line);
    assert line == name + [COLON] + Spaces(spaces) + d;
    SkipToValue(name + [COLON], spaces, d);
    assert |name + [COLON]| == |name| + 1;
    assert line[|name| + 1 + spaces..|line|] == d;
  }

  lemma LengthName()
    ensures CONTENT_LENGTH == Ascii("Content-Length")
  {
  }

  lemma NameOf(name: seq<byte>, line: seq<byte>)
    requires 0 !in name && |name| <= |line| && line[..|name|] == name
    ensures CString(line[..|name|]) == name && CString(CONTENT_LENGTH) == CONTENT_LENGTH
  {
    CStringWithoutNul(name);
    assert 0 !in CONTENT_LENGTH;
    CStringWithoutNul(CONTENT_LENGTH);
  }

  lemma SkipToValue(prefix: seq<byte>, spaces: nat, d: seq<byte>)
    requires d != [] && d[0] != SPACE && forall k :: 0 <= k < |d| ==> d[k] != 13 && d[k] != 10
    ensures var line := prefix + Spaces(spaces) + d;
            && SkipSpaces(line, |prefix|) == |prefix| + spaces
            && ToLineBreak(line, |prefix| + spaces) == |line|
  {
    var line, from, to := prefix + Spaces(spaces) + d, |prefix|, |prefix| + spaces;
    assert forall k :: from <= k < to ==> line[k] == Spaces(spaces)[k - from];
    assert forall k :: to <= k < |line| ==> line[k] == d[k - to];
    assert line[to] == d[0];
    assert SkipSpaces(line, from) == to;
    BreakIs(line, to);
  }

  lemma {:induction false} BreakIs(s: seq<byte>, i: nat)
    requires i <= |s|
    ensures var r := ToLineBreak(s, i); r < |s| ==> s[r] == 13 || s[r] == 10
    decreases |s| - i
  {
    if i < |s| && s[i] != 13 && s[i] != 10 { BreakIs(s, i + 1); }
  }

  /** A head with a Content-Length line behind the request line announces that number. */
  lemma AnnouncedLength(lines: seq<seq<byte>>, k: nat, name: seq<byte>, spaces: nat, n: nat)
    requires 0 < k < |lines| && n < U32
    requires COLON !in name && 0 !in name && SameName(name, CONTENT_LENGTH)
    requires lines[k] == name + [COLON] + (Spaces(spaces) + Digits(n))
    requires forall i :: 0 <= i < k ==> !IsNamed(lines[i], CONTENT_LENGTH)
    ensures ContentLength(lines) == Some(n)
  {
    hide IndexFrom, Digits, HeaderValue, Stoul, IsNamed;
    NumericHeader(name, spaces, n);
    StoulOfDigits(n);
    var found := HeaderIndex(lines, CONTENT_LENGTH, 0);
    assert IsNamed(lines[k], CONTENT_LENGTH);
    assert found == Some(k);
  }

  /** A head without such a line announces an empty body. */
  lemma NoAnnouncedLength(lines: seq<seq<byte>>)
    requires forall i :: 0 <= i < |lines| ==> !IsNamed(lines[i], CONTENT_LENGTH)
    ensures ContentLength(lines) == Some(0)
  {
  }

  /** `headerIndex`. */
  method FindHeader(headers: seq<seq<byte>>, name: seq<byte>, from: nat) returns (r: Option<nat>)
    ensures r == HeaderIndex(headers, name, from)
  {
    hide IsNamed;
    r := None;
    var ii := from;
    while ii < |headers|
      invariant HeaderIndex(headers, name, from) == HeaderIndex(headers, name, ii)
    {
      if IsNamed(headers[ii], name) {
        return Some(ii);
      }
      ii := ii + 1;
    }
  }

  /** The value of Content-Length as `parseRequest` reads it. */
  method ReadLength(headers: seq<seq<byte>>) returns (length: Option<nat>)
    ensures length == ContentLength(headers)
  {
    hide IndexFrom, Stoul;
    var cl := 0;
    var index := FindHeader(headers, CONTENT_LENGTH, 0);
    if index.Some? && index.value > 0 {
      var value := HeaderValue(headers[index.value]);
      if value.None? {
        return None;
      }
      var number := Stoul(value.value);
      if number.Some? {
        cl := number.value;
      }
    }
    length := Some(cl);
  }

  /** The parsed request; `hasBody` says that the body pointer is set. */
  class HttpRequest {
    var headers: seq<seq<byte>>
    var bodyOffset: nat
    var bodySize: nat
    var hasBody: bool

    constructor ()
      ensures headers == [] && bodyOffset == bodySize == 0 && !hasBody
    {
      headers, bodyOffset, bodySize, hasBody := [], 0, 0, false;
    }

    ghost function View(): Parsed
      reads this
    {
      Parsed(headers, bodyOffset, bodySize, hasBody)
    }

    method Clear()
      modifies this
      ensures headers == [] && bodyOffset == bodySize == 0 && !hasBody
    {
      headers, bodyOffset, bodySize, hasBody := [], 0, 0, false;
    }

    /** `parseRequest(rqst, false)`: `left` is the buffer afterwards; `endless` that the call does not
        return.
     */
    method ParseRequest(rqst: seq<byte>) returns (threw: bool, endless: bool, complete: bool, left: seq<byte>)
      modifies this
      ensures if IndexOf(rqst, BLANK_LINE).Some? then
                && !endless && left == rqst
                && match ParseComplete(rqst)
                   case Threw => threw
                   case Parsed(hs, offset, size, whole) =>
                     !threw && View() == Parsed(hs, offset, size, whole) && complete == whole
              else
                && !threw && !complete && View() == Parsed([], 0, 0, false)
                && endless == Await(rqst).Endless? && (!endless ==> Await(rqst) == Kept(left))
    {
      hide IndexFrom, ParseComplete, Await;
      threw, endless, complete, left := false, false, false, rqst;
      if IndexOf(rqst, BLANK_LINE).Some? {
        threw, complete := ParseHead(rqst);
      } else {
        Clear();
        endless, left := AwaitRequest(rqst);
      }
    }

    /** The branch for a buffer that holds a blank line. */
    method ParseHead(rqst: seq<byte>) returns (threw: bool, complete: bool)
      requires IndexOf(rqst, BLANK_LINE).Some?
      modifies this
      ensures match ParseComplete(rqst)
              case Threw => threw
              case Parsed(hs, offset, size, whole) =>
                !threw && View() == Parsed(hs, offset, size, whole) && complete == whole
    {
      hide IndexFrom, ScanLines, ContentLength;
      threw := false;
      Clear();
      var i1 := 0;
      ghost var scan := ScanLines(rqst, 0);
      assert [] + scan.headers == scan.headers;
      LineBeforeBlank(rqst, 0);
      var i2 := IndexFrom(rqst, CRLF, 0).value;
      while i2 != i1
        invariant Scannable(rqst, i1) && IndexFrom(rqst, CRLF, i1) == Some(i2)
        invariant scan == Scan(headers + ScanLines(rqst, i1).headers, ScanLines(rqst, i1).end)
        invariant bodyOffset == bodySize == 0 && !hasBody
        decreases |rqst| - i1
      {
        ScanStep(rqst, i1, i2);
        var line := rqst[i1..i2];
        ghost var later := ScanLines(rqst, i2 + 2).headers;
        assert headers + ([line] + later) == headers + [line] + later;
        headers := headers + [line];
        i1 := i2 + 2;
        LineBeforeBlank(rqst, i1);
        i2 := IndexFrom(rqst, CRLF, i1).value;
      }
      ScanStep(rqst, i1, i2);
      assert headers + [] == headers;
      var length := ReadLength(headers);
      if length.None? {
        return true, false;
      }
      var cl := length.value;
      bodyOffset := i2 + 2;
      bodySize := |rqst| - bodyOffset;
      if bodySize >= cl {
        bodySize := cl;
        hasBody := true;
      }
      complete := hasBody;
    }

    /** `resetRqst` on a connection that is not upgraded. */
    method ResetRqst(rqst: seq<byte>) returns (left: seq<byte>)
      requires bodyOffset + bodySize <= |rqst|
      modifies this
      ensures left == Leftover(rqst, old(View()))
      ensures left == if old(hasBody) then rqst[old(bodyOffset) + old(bodySize)..] else []
      ensures headers == [] && bodyOffset == bodySize == 0 && !hasBody
    {
      left := if hasBody then rqst[bodyOffset + bodySize..] else [];
      Clear();
    }
  }
}
