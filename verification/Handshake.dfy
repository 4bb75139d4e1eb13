/** The opening handshake of a WebSocket connection (section 4.2 of RFC 6455): which requests the
    server answers by switching protocols.
 */
module Handshake {
  import opened Bits
  import opened Options
  import opened Text
  import opened Http

  /** `header` by name: empty when there is no such line or it is the request line; `None` when the
      line has no value and the code throws.
   */
  function HeaderOf(headers: seq<seq<byte>>, name: seq<byte>): Option<seq<byte>> {
    match HeaderIndex(headers, name, 0)
    case None => Some([])
    case Some(i) => if i == 0 then Some([]) else HeaderValue(headers[i])
  }

  datatype Answer = Throws | Rejected | Switching(response: seq<byte>)

  /** The values that `open_websocket` looks at. */
  datatype Fields = Fields(host: seq<byte>, key: seq<byte>, connection: seq<byte>, upgrade: seq<byte>,
                           version: seq<byte>, origin: bool)

  function ReadFields(headers: seq<seq<byte>>): Option<Fields> {
    match (HeaderOf(headers, Ascii("Host")), HeaderOf(headers, Ascii("Sec-WebSocket-Key")),
           HeaderOf(headers, Ascii("Connection")), HeaderOf(headers, Ascii("Upgrade")),
           HeaderOf(headers, Ascii("Sec-WebSocket-Version")))
    case (Some(host), Some(key), Some(connection), Some(upgrade), Some(version)) =>
      var origin := HeaderIndex(headers, Ascii("Origin"), 0);
      Some(Fields(host, key, connection, upgrade, version, origin.Some? && origin.value > 0))
    case _ => None
  }

  const SWITCHING: string :=
    "HTTP/1.1 101 Switching Protocols" + "\r\n" + "Upgrade: websocket" + "\r\n" + "Connection: Upgrade" + "\r\n"
    + "Sec-WebSocket-Accept: "

  const GUID: string := "258EAFA5-E914-47DA-95CA-C5AB0DC85B11"

  function Response(key: seq<byte>, accept: seq<byte> -> seq<byte>): seq<byte> {
    Ascii(SWITCHING) + accept(key + Ascii(GUID)) + BLANK_LINE
  }

  /** The answer to a request. `accept` is the Base64 form of the SHA-1 digest. */
  function Answered(headers: seq<seq<byte>>, accept: seq<byte> -> seq<byte>): Answer {
    match ReadFields(headers)
    case None => Throws
    case Some(f) =>
      if && IndexOf(f.connection, Ascii("Upgrade")).Some? && f.origin && f.upgrade == Ascii("websocket")
         && f.version == Ascii("13") && f.host != []
      then Switching(Response(f.key, accept))
      else Rejected
  }

  /** A header line as a client writes it. */
  function Line(name: seq<byte>, spaces: nat, value: seq<byte>): seq<byte> {
    name + [COLON] + (Spaces(spaces) + value)
  }

  predicate IsValue(value: seq<byte>) {
    value != [] && value[0] != SPACE && forall k :: 0 <= k < |value| ==> value[k] != 13 && value[k] != 10
  }

  lemma LineRead(name: seq<byte>, given: seq<byte>, spaces: nat, value: seq<byte>)
    requires COLON !in name && 0 !in name && 0 !in given && SameName(name, given) && IsValue(value)
    ensures var line := Line(name, spaces, value);
            IsNamed(line, given) && IndexOf(line, [COLON]).Some? && HeaderValue(line) == Some(value)
  {
    hide IndexFrom, SameName, SkipSpaces, ToLineBreak, Spaces, CString;
    var line := Line(name, spaces, value);
    ColonFound(name, Spaces(spaces) + value);
    assert line[..|name|] == name;
    CStringWithoutNul(name);
    CStringWithoutNul(given);
    assert line == name + [COLON] + Spaces(spaces) + value;
    SkipToValue(name + [COLON], spaces, value);
    assert |name + [COLON]| == |name| + 1;
    assert line[|name| + 1 + spaces..|line|] == value;
  }

  /** Round trip: a header behind the request line, in any letter case and with any spaces, is read
      as its value when no line before it has its name.
   */
  lemma HeaderRead(headers: seq<seq<byte>>, i: nat, name: seq<byte>, given: seq<byte>, spaces: nat, value: seq<byte>)
    requires COLON !in name && 0 !in name && 0 !in given && SameName(name, given) && IsValue(value)
    requires 0 < i < |headers| && headers[i] == Line(name, spaces, value)
    requires forall j :: 0 <= j < i ==> !IsNamed(headers[j], given)
    ensures HeaderOf(headers, given) == Some(value)
  {
    hide IsNamed, HeaderValue, Line;
    LineRead(name, given, spaces, value);
    var found := HeaderIndex(headers, given, 0);
    assert IsNamed(headers[i], given);
    assert found == Some(i);
  }

  /** A value stands in a line at `n`: behind the colon and any spaces, up to a line break or the end. */
  predicate Reads(line: seq<byte>, value: seq<byte>, n: nat) {
    var colon, end := IndexOf(line, [COLON]), n + |value|;
    && colon.Some? && colon.value < n < |line| && (forall k :: colon.value < k < n ==> line[k] == SPACE)
    && line[n] != SPACE && end <= |line| && line[n..end] == value
    && (forall k :: n <= k < end ==> line[k] != 13 && line[k] != 10)
    && (end < |line| ==> line[end] == 13 || line[end] == 10)
  }

  /** The first line of that name is not the request line, and has that value. */
  ghost predicate Gives(headers: seq<seq<byte>>, name: seq<byte>, value: seq<byte>) {
    exists i: nat, n: nat :: FirstNamed(headers, name, i) && i > 0 && Reads(headers[i], value, n)
  }

  lemma ReadsIff(line: seq<byte>, value: seq<byte>)
    requires IndexOf(line, [COLON]).Some?
    ensures HeaderValue(line) == Some(value) <==> exists n: nat :: Reads(line, value, n)
  {
    var colon := IndexOf(line, [COLON]).value;
    assert line[colon..colon + 1] == [COLON];
    hide IndexFrom, SkipSpaces, ToLineBreak;
    var n := SkipSpaces(line, colon + 1);
    BreakIs(line, n);
    var m := ToLineBreak(line, n);
    if HeaderValue(line) == Some(value) {
      assert Reads(line, value, n);
    }
    if k: nat :| Reads(line, value, k) {
      assert k == n;
      assert m == n + |value|;
    }
  }

  /** What `header` returns, in terms of the lines. */
  lemma HeaderOfIs(headers: seq<seq<byte>>, name: seq<byte>)
    ensures HeaderOf(headers, name) == None <==> Lacks(headers, name)
    ensures forall value :: value != [] ==> (HeaderOf(headers, name) == Some(value) <==> Gives(headers, name, value))
  {
    hide HeaderValue, IsNamed, NoValue, Reads, IndexFrom;
    var found := HeaderIndex(headers, name, 0);
    if found.Some? {
      var i := found.value;
      assert FirstNamed(headers, name, i);
      assert forall j: nat :: FirstNamed(headers, name, j) ==> j == i;
      NamedHasColon(headers[i], name);
      NoValueIff(headers[i]);
      forall value | value != []
        ensures HeaderOf(headers, name) == Some(value) <==> Gives(headers, name, value)
      {
        ReadsIff(headers[i], value);
      }
    }
  }

  /** The headers whose values the code reads. */
  const READ: seq<string> := ["Host", "Sec-WebSocket-Key", "Connection", "Upgrade", "Sec-WebSocket-Version"]

  /** The exception that nothing catches: exactly when one of these headers has no value. */
  lemma ThrowsIff(headers: seq<seq<byte>>, accept: seq<byte> -> seq<byte>)
    ensures Answered(headers, accept).Throws? <==> exists k :: 0 <= k < |READ| && Lacks(headers, Ascii(READ[k]))
  {
    hide Ascii, HeaderOf, Lacks, Gives, IndexOf, HeaderIndex, Response;
    HeaderOfIs(headers, Ascii(READ[0]));
    HeaderOfIs(headers, Ascii(READ[1]));
    HeaderOfIs(headers, Ascii(READ[2]));
    HeaderOfIs(headers, Ascii(READ[3]));
    HeaderOfIs(headers, Ascii(READ[4]));
  }

  /** Exactly these requests are switched, in terms of their lines: none of the headers read lacks a
      value, the version is 13, the upgrade is to "websocket", the connection names the upgrade, and
      a host and an origin are given.
   */
  lemma SwitchedIff(headers: seq<seq<byte>>, accept: seq<byte> -> seq<byte>)
    ensures Answered(headers, accept).Switching? <==>
              && !(exists k :: 0 <= k < |READ| && Lacks(headers, Ascii(READ[k])))
              && Gives(headers, Ascii("Upgrade"), Ascii("websocket"))
              && Gives(headers, Ascii("Sec-WebSocket-Version"), Ascii("13"))
              && (exists host :: host != [] && Gives(headers, Ascii("Host"), host))
              && (exists value :: Gives(headers, Ascii("Connection"), value) && Contains(value, Ascii("Upgrade")))
              && (exists i: nat :: FirstNamed(headers, Ascii("Origin"), i) && i > 0)
  {
    ThrowsIff(headers, accept);
    Literals();
    hide Ascii, HeaderOf, Lacks, Gives, IndexOf, HeaderIndex, Response, ReadFields, FirstNamed, Contains;
    FieldsAre(headers);
    HeaderOfIs(headers, Ascii("Upgrade"));
    HeaderOfIs(headers, Ascii("Sec-WebSocket-Version"));
    HeaderOfIs(headers, Ascii("Host"));
    HeaderOfIs(headers, Ascii("Connection"));
    OriginIff(headers);
    if ReadFields(headers).Some? {
      ContainsIff(ReadFields(headers).value.connection, Ascii("Upgrade"));
      NotIn([], Ascii("Upgrade"));
    }
  }

  ghost predicate Contains(s: seq<byte>, p: seq<byte>) {
    exists j: nat :: OccursAt(s, p, j)
  }

  lemma ContainsIff(s: seq<byte>, p: seq<byte>)
    ensures IndexOf(s, p).Some? <==> Contains(s, p)
  {
    hide OccursAt;
    if j: nat :| OccursAt(s, p, j) {
      IndexAtMost(s, p, 0, j);
    }
  }

  lemma NotIn(s: seq<byte>, p: seq<byte>)
    requires |s| < |p|
    ensures !Contains(s, p)
  {
  }

  lemma Literals()
    ensures Ascii("websocket") != [] && Ascii("13") != [] && |Ascii("Upgrade")| > 0
  {
  }

  /** The answer to a switched request carries the digest of the first key line's value. */
  lemma KeyAnswered(headers: seq<seq<byte>>, accept: seq<byte> -> seq<byte>)
    requires Answered(headers, accept).Switching?
    ensures exists key ::
              && Answered(headers, accept).response == Response(key, accept)
              && (if key != [] then Gives(headers, Ascii("Sec-WebSocket-Key"), key)
                  else forall k :: k != [] ==> !Gives(headers, Ascii("Sec-WebSocket-Key"), k))
  {
    hide Ascii, HeaderOf, Gives, IndexOf, HeaderIndex, Response, ReadFields, Lacks;
    FieldsAre(headers);
    HeaderOfIs(headers, Ascii("Sec-WebSocket-Key"));
    var key := ReadFields(headers).value.key;
    assert Answered(headers, accept).response == Response(key, accept);
  }

  lemma AsciiConcat(a: string, b: string)
    ensures Ascii(a + b) == Ascii(a) + Ascii(b)
  {
  }

  /** The response to a key, and what a client reads in it: the status line, the two headers that section
      4.2.2 of RFC 6455 asks for, and the digest of the key followed by the protocol's constant.
   */
  lemma ResponseReadBack(key: seq<byte>, accept: seq<byte> -> seq<byte>)
    requires var digest := accept(key + Ascii("258EAFA5-E914-47DA-95CA-C5AB0DC85B11")); IsValue(digest)
    ensures var digest := accept(key + Ascii("258EAFA5-E914-47DA-95CA-C5AB0DC85B11"));
            var lines := [Ascii("HTTP/1.1 101 Switching Protocols"), Ascii("Upgrade: websocket"),
                          Ascii("Connection: Upgrade"), Ascii("Sec-WebSocket-Accept: ") + digest];
            && Response(key, accept) == JoinLines(lines) + [13, 10]
            && Scannable(Response(key, accept), 0) && ScanLines(Response(key, accept), 0).headers == lines
  {
    var digest := accept(key + Ascii("258EAFA5-E914-47DA-95CA-C5AB0DC85B11"));
    FixedLines();
    SwitchingIs();
    hide Ascii;
    LinesScanned(Ascii("HTTP/1.1 101 Switching Protocols"), Ascii("Upgrade: websocket"), Ascii("Connection: Upgrade"),
                 Ascii("Sec-WebSocket-Accept: "), digest);
  }

  predicate Plain(s: seq<byte>) { s != [] && forall k :: 0 <= k < |s| ==> s[k] != 13 }

  lemma FixedLines()
    ensures Plain(Ascii("HTTP/1.1 101 Switching Protocols")) && Plain(Ascii("Upgrade: websocket"))
    ensures Plain(Ascii("Connection: Upgrade")) && Plain(Ascii("Sec-WebSocket-Accept: "))
  {
    hide Ascii, Plain;
    PlainAscii("HTTP/1.1 101 Switching Protocols");
    PlainAscii("Upgrade: websocket");
    PlainAscii("Connection: Upgrade");
    PlainAscii("Sec-WebSocket-Accept: ");
  }

  lemma PlainAscii(s: string)
    requires s != [] && forall i :: 0 <= i < |s| ==> 32 <= s[i] as int < 128
    ensures Plain(Ascii(s))
  {
  }

  lemma LinesScanned(a: seq<byte>, b: seq<byte>, c: seq<byte>, d: seq<byte>, digest: seq<byte>)
    requires Plain(a) && Plain(b) && Plain(c) && Plain(d) && IsValue(digest)
    ensures var lines := [a, b, c, d + digest];
            var response := a + CRLF + b + CRLF + c + CRLF + d + digest + BLANK_LINE;
            && response == JoinLines(lines) + [13, 10]
            && Scannable(response, 0) && ScanLines(response, 0).headers == lines
  {
    var lines := [a, b, c, d + digest];
    PlainLine(a);
    PlainLine(b);
    PlainLine(c);
    PlainLine(d + digest);
    FourLines(a, b, c, d + digest);
    hide IsLine, JoinLines, ScanLines, Scannable, IsValue, Plain;
    ScanFindsLines([], lines, []);
    var joined := JoinLines(lines);
    assert [] + joined + CRLF + [] == joined + CRLF;
    LastLine(a + CRLF + b + CRLF + c + CRLF, d, digest);
  }

  lemma LastLine(front: seq<byte>, d: seq<byte>, digest: seq<byte>)
    ensures front + d + digest + BLANK_LINE == front + (d + digest) + CRLF + [13, 10]
  {
  }

  lemma SwitchingIs()
    ensures Ascii(SWITCHING)
            == Ascii("HTTP/1.1 101 Switching Protocols") + CRLF + Ascii("Upgrade: websocket") + CRLF
               + Ascii("Connection: Upgrade") + CRLF + Ascii("Sec-WebSocket-Accept: ")
  {
    hide Ascii;
    SevenParts("HTTP/1.1 101 Switching Protocols", "Upgrade: websocket", "Connection: Upgrade",
               "Sec-WebSocket-Accept: ");
  }

  lemma SevenParts(a: string, b: string, c: string, d: string)
    ensures Ascii(a + "\r\n" + b + "\r\n" + c + "\r\n" + d)
            == Ascii(a) + CRLF + Ascii(b) + CRLF + Ascii(c) + CRLF + Ascii(d)
  {
    assert Ascii("\r\n") == CRLF;
    hide Ascii;
    AsciiConcat(a + "\r\n" + b + "\r\n" + c + "\r\n", d);
    AsciiConcat(a + "\r\n" + b + "\r\n" + c, "\r\n");
    AsciiConcat(a + "\r\n" + b + "\r\n", c);
    AsciiConcat(a + "\r\n" + b, "\r\n");
    AsciiConcat(a + "\r\n", b);
    AsciiConcat(a, "\r\n");
  }

  lemma PlainLine(s: seq<byte>)
    requires Plain(s)
    ensures IsLine(s)
  {
    forall j | 0 <= j <= |s|
      ensures !OccursAt(s, CRLF, j)
    {
      CrlfIsPair(s, j);
    }
  }

  lemma FourLines(a: seq<byte>, b: seq<byte>, c: seq<byte>, d: seq<byte>)
    ensures JoinLines([a, b, c, d]) == a + CRLF + b + CRLF + c + CRLF + d + CRLF
  {
    assert [a, b, c, d][1..] == [b, c, d] && [b, c, d][1..] == [c, d] && [c, d][1..] == [d] && [d][1..] == [];
    assert JoinLines([]) == [];
    assert JoinLines([d]) == d + CRLF;
    assert JoinLines([c, d]) == c + CRLF + (d + CRLF);
    assert JoinLines([b, c, d]) == b + CRLF + (c + CRLF + (d + CRLF));
  }

  /** A header written at line `i`. */
  datatype Written = Written(i: nat, name: seq<byte>, spaces: nat, value: seq<byte>)

  predicate Wrote(headers: seq<seq<byte>>, given: seq<byte>, w: Written) {
    && 0 < w.i < |headers| && headers[w.i] == Line(w.name, w.spaces, w.value)
    && COLON !in w.name && 0 !in w.name && SameName(w.name, given) && IsValue(w.value)
    && forall j :: 0 <= j < w.i ==> !IsNamed(headers[j], given)
  }

  lemma WroteRead(headers: seq<seq<byte>>, given: seq<byte>, w: Written)
    requires Wrote(headers, given, w)
    ensures HeaderOf(headers, given) == Some(w.value) && w.value != []
  {
    forall k | 0 <= k < |given|
      ensures given[k] != 0
    {
      assert w.name[k] in w.name;
    }
    HeaderRead(headers, w.i, w.name, given, w.spaces, w.value);
  }

  /** A client that writes its request as section 4.2.1 of RFC 6455 asks, in any letter case, with any
      spaces and among any other headers, is switched, with the digest of its key.
   */
  lemma RequestSwitched(headers: seq<seq<byte>>, accept: seq<byte> -> seq<byte>, host: Written, key: Written,
                        connection: Written, upgrade: Written, version: Written, origin: nat)
    requires Wrote(headers, Ascii("Host"), host) && Wrote(headers, Ascii("Sec-WebSocket-Key"), key)
    requires Wrote(headers, Ascii("Connection"), connection) && Contains(connection.value, Ascii("Upgrade"))
    requires Wrote(headers, Ascii("Upgrade"), upgrade) && upgrade.value == Ascii("websocket")
    requires Wrote(headers, Ascii("Sec-WebSocket-Version"), version) && version.value == Ascii("13")
    requires FirstNamed(headers, Ascii("Origin"), origin) && origin > 0
    ensures Answered(headers, accept) == Switching(Response(key.value, accept))
  {
    hide Ascii, HeaderOf, Wrote, IndexOf, HeaderIndex, Response, FirstNamed, Contains, IsValue, ReadFields;
    WroteRead(headers, Ascii("Host"), host);
    WroteRead(headers, Ascii("Sec-WebSocket-Key"), key);
    WroteRead(headers, Ascii("Connection"), connection);
    WroteRead(headers, Ascii("Upgrade"), upgrade);
    WroteRead(headers, Ascii("Sec-WebSocket-Version"), version);
    AllRead(headers);
    FieldsAre(headers);
    ContainsIff(connection.value, Ascii("Upgrade"));
    OriginIff(headers);
  }

  lemma AllRead(headers: seq<seq<byte>>)
    requires HeaderOf(headers, Ascii("Host")).Some? && HeaderOf(headers, Ascii("Sec-WebSocket-Key")).Some?
    requires HeaderOf(headers, Ascii("Connection")).Some? && HeaderOf(headers, Ascii("Upgrade")).Some?
    requires HeaderOf(headers, Ascii("Sec-WebSocket-Version")).Some?
    ensures ReadFields(headers).Some?
  {
    hide Ascii, HeaderOf, HeaderIndex;
  }

  lemma FieldsAre(headers: seq<seq<byte>>)
    ensures ReadFields(headers).Some? ==>
              var f := ReadFields(headers).value;
              && HeaderOf(headers, Ascii("Host")) == Some(f.host)
              && HeaderOf(headers, Ascii("Sec-WebSocket-Key")) == Some(f.key)
              && HeaderOf(headers, Ascii("Connection")) == Some(f.connection)
              && HeaderOf(headers, Ascii("Upgrade")) == Some(f.upgrade)
              && HeaderOf(headers, Ascii("Sec-WebSocket-Version")) == Some(f.version)
              && var o := HeaderIndex(headers, Ascii("Origin"), 0);
                 (f.origin <==> o.Some? && o.value > 0)
  {
    hide Ascii, HeaderOf, HeaderIndex;
  }

  lemma OriginIff(headers: seq<seq<byte>>)
    ensures HeaderIndex(headers, Ascii("Origin"), 0).Some? && HeaderIndex(headers, Ascii("Origin"), 0).value > 0 <==>
              exists i: nat :: FirstNamed(headers, Ascii("Origin"), i) && i > 0
  {
    hide Ascii, IsNamed;
    var o := HeaderIndex(headers, Ascii("Origin"), 0);
    if o.Some? {
      assert FirstNamed(headers, Ascii("Origin"), o.value);
    }
  }
}
