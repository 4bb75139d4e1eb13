/** The option list of a DHCP message (RFC 2132, section 2): the writers that append options
    at a pointer, and the search that walks the list.
 */
module DhcpOptions {
  import opened Bits
  import opened Options

  const OPT_SUBNET_MASK: byte := 1
  const OPT_ROUTER: byte := 3
  const OPT_DNS: byte := 6
  const OPT_REQUESTED_IP: byte := 50
  const OPT_LEASE_TIME: byte := 51
  const OPT_MSG_TYPE: byte := 53
  const OPT_SERVER_ID: byte := 54
  const OPT_END: byte := 255

  /** The bytes of the options field after the magic cookie. */
  const AREA: nat := 308

  /** The memory that starts there. An option cut off by the end of the field makes the code
      read a few of the bytes behind it, whatever they are.
   */
  predicate Readable(memory: seq<byte>) {
    |memory| >= AREA + 6
  }

  /** `opt_find` from offset `i` on. */
  function OptFind(memory: seq<byte>, code: byte, i: nat): (r: Option<nat>)
    requires Readable(memory)
    ensures r.Some? ==> i <= r.value < AREA && memory[r.value] == code != OPT_END
    decreases AREA - i
  {
    if i >= AREA || memory[i] == OPT_END then None
    else if memory[i] == code then Some(i)
    else OptFind(memory, code, i + 2 + memory[i + 1])
  }

  method FindOption(memory: seq<byte>, code: byte) returns (r: Option<nat>)
    requires Readable(memory)
    ensures r == OptFind(memory, code, 0)
  {
    var i := 0;
    while i < AREA && memory[i] != OPT_END
      invariant OptFind(memory, code, 0) == OptFind(memory, code, i)
      decreases AREA - i
    {
      if memory[i] == code {
        return Some(i);
      }
      i := i + 2 + memory[i + 1];
    }
    r := None;
  }

  datatype Entry = Entry(code: byte, value: seq<byte>)
  {
    predicate Valid() { code != OPT_END && |value| < 256 }

    function Bytes(): seq<byte>
      requires |value| < 256
    {
      [code, |value|] + value
    }
  }

  predicate AreEntries(entries: seq<Entry>) {
    forall i :: 0 <= i < |entries| ==> entries[i].Valid()
  }

  function Encode(entries: seq<Entry>): seq<byte>
    requires AreEntries(entries)
  {
    if entries == [] then [] else entries[0].Bytes() + Encode(entries[1..])
  }

  /** Where the first entry with the given code starts. */
  function FirstOffset(entries: seq<Entry>, code: byte): Option<nat> {
    if entries == [] then None
    else if entries[0].code == code then Some(0)
    else match FirstOffset(entries[1..], code)
         case None => None
         case Some(n) => Some(2 + |entries[0].value| + n)
  }

  /** The first entry with the given code. */
  function FirstEntry(entries: seq<Entry>, code: byte): Option<Entry> {
    if entries == [] then None
    else if entries[0].code == code then Some(entries[0])
    else FirstEntry(entries[1..], code)
  }

  function Shift(r: Option<nat>, n: nat): Option<nat> {
    match r case None => None case Some(k) => Some(n + k)
  }

  lemma {:induction false} FindInEncoded(before: seq<byte>, entries: seq<Entry>, code: byte, rest: seq<byte>)
    requires AreEntries(entries)
    requires var memory := before + Encode(entries) + [OPT_END] + rest;
             Readable(memory) && |before + Encode(entries)| < AREA
    ensures OptFind(before + Encode(entries) + [OPT_END] + rest, code, |before|)
            == Shift(FirstOffset(entries, code), |before|)
    decreases |entries|
  {
    hide OptFind, Entry.Bytes;
    var memory := before + Encode(entries) + [OPT_END] + rest;
    FindStep(memory, code, |before|);
    if entries == [] {
      assert memory[|before|] == OPT_END;
    } else {
      var e, later := entries[0], entries[1..];
      FirstEncoded(before, entries, rest);
      hide Encode;
      if e.code != code {
        FindInEncoded(before + e.Bytes(), later, code, rest);
      }
    }
  }

  lemma FindStep(memory: seq<byte>, code: byte, i: nat)
    requires Readable(memory) && i < AREA
    ensures OptFind(memory, code, i)
            == if memory[i] == OPT_END then None
               else if memory[i] == code then Some(i)
               else OptFind(memory, code, i + 2 + memory[i + 1])
  {
  }

  lemma FirstEncoded(before: seq<byte>, entries: seq<Entry>, rest: seq<byte>)
    requires AreEntries(entries) && entries != []
    ensures var e, later, memory := entries[0], entries[1..], before + Encode(entries) + [OPT_END] + rest;
            && memory == before + e.Bytes() + Encode(later) + [OPT_END] + rest
            && before + Encode(entries) == before + e.Bytes() + Encode(later)
            && |e.Bytes()| == 2 + |e.value| && AreEntries(later) && e.Valid()
            && memory[|before|] == e.code && memory[|before| + 1] == |e.value|
  {
    var e, later := entries[0], Encode(entries[1..]);
    assert Encode(entries) == e.Bytes() + later;
    hide Encode;
    assert before + (e.Bytes() + later) == before + e.Bytes() + later;
    FirstOf(before, e, later + [OPT_END] + rest);
    assert before + e.Bytes() + later + [OPT_END] + rest == before + e.Bytes() + (later + [OPT_END] + rest);
  }

  lemma FirstOf(before: seq<byte>, e: Entry, later: seq<byte>)
    requires e.Valid()
    ensures var memory := before + e.Bytes() + later;
            |e.Bytes()| == 2 + |e.value| && memory[|before|] == e.code && memory[|before| + 1] == |e.value|
  {
  }

  /** Round trip: whatever list of options is written, the search finds the first option of each
      code and nothing else, even when option values contain that code or the end mark.
   */
  lemma FindsFirst(entries: seq<Entry>, code: byte, rest: seq<byte>)
    requires AreEntries(entries) && |Encode(entries)| < AREA
    requires Readable(Encode(entries) + [OPT_END] + rest)
    ensures var memory, at := Encode(entries) + [OPT_END] + rest, FirstOffset(entries, code);
            && OptFind(memory, code, 0) == at
            && (at.None? <==> FirstEntry(entries, code).None?)
            && (at.Some? ==>
                  var e := FirstEntry(entries, code).value;
                  && at.value + 2 + |e.value| <= |Encode(entries)|
                  && memory[at.value + 1] == |e.value|
                  && memory[at.value + 2..at.value + 2 + |e.value|] == e.value)
  {
    hide Encode, OptFind, FirstOffset, FirstEntry;
    assert [] + Encode(entries) == Encode(entries);
    FindInEncoded([], entries, code, rest);
    EntryAtOffset(entries, code);
    var at := FirstOffset(entries, code);
    if at.Some? {
      ReadEntry(Encode(entries), [OPT_END] + rest, at.value, FirstEntry(entries, code).value);
      assert Encode(entries) + ([OPT_END] + rest) == Encode(entries) + [OPT_END] + rest;
    }
  }

  lemma ReadEntry(written: seq<byte>, rest: seq<byte>, at: nat, e: Entry)
    requires |e.value| < 256 && at + 2 + |e.value| <= |written|
    requires written[at..at + 2 + |e.value|] == e.Bytes()
    ensures var memory := written + rest;
            memory[at + 1] == |e.value| && memory[at + 2..at + 2 + |e.value|] == e.value
  {
    var seen := written[at..at + 2 + |e.value|];
    assert seen[1] == written[at + 1] && seen[2..] == written[at + 2..at + 2 + |e.value|];
  }

  lemma {:induction false} EntryAtOffset(entries: seq<Entry>, code: byte)
    requires AreEntries(entries)
    ensures var at, e := FirstOffset(entries, code), FirstEntry(entries, code);
            && (at.None? <==> e.None?)
            && (at.Some? ==>
                  && e.value.Valid() && at.value + 2 + |e.value.value| <= |Encode(entries)|
                  && Encode(entries)[at.value..at.value + 2 + |e.value.value|] == e.value.Bytes())
  {
    if entries != [] {
      var first, later := entries[0], entries[1..];
      EntryAtOffset(later, code);
      if first.code != code && FirstOffset(later, code).Some? {
        var n, skip := FirstOffset(later, code).value, |first.Bytes()|;
        var end := n + 2 + |FirstEntry(later, code).value.value|;
        assert Encode(entries)[skip + n..skip + end] == Encode(later)[n..end];
      }
    }
  }

  /** `opt_write_n`, and `opt_write_u8` and `opt_write_u32` with the value's bytes: writes at the
      pointer and returns the advanced pointer.
   */
  method WriteOption(area: array<byte>, at: nat, code: byte, data: seq<byte>) returns (next: nat)
    requires |data| < 256 && at + 2 + |data| <= area.Length
    modifies area
    ensures next == at + 2 + |data|
    ensures area[..next] == old(area[..at]) + Entry(code, data).Bytes()
    ensures forall k :: next <= k < area.Length ==> area[k] == old(area[k])
  {
    area[at] := code;
    area[at + 1] := |data|;
    var i := 0;
    while i < |data|
      invariant 0 <= i <= |data|
      invariant area[..at + 2 + i] == old(area[..at]) + [code, |data|] + data[..i]
      invariant forall k :: at + 2 + i <= k < area.Length ==> area[k] == old(area[k])
    {
      ghost var before := area[..at + 2 + i];
      area[at + 2 + i] := data[i];
      assert area[..at + 2 + i + 1] == before + [data[i]];
      assert data[..i + 1] == data[..i] + [data[i]];
      i := i + 1;
    }
    next := at + 2 + |data|;
    assert data[..|data|] == data;
  }

  const LEASE_TIME_S: nat := 24 * 60 * 60

  /** The options of every reply. */
  function ReplyOptions(msgType: byte, ip: seq<byte>, netmask: seq<byte>): seq<Entry> {
    [Entry(OPT_MSG_TYPE, [msgType]), Entry(OPT_SERVER_ID, ip), Entry(OPT_SUBNET_MASK, netmask),
     Entry(OPT_ROUTER, ip), Entry(OPT_DNS, ip), Entry(OPT_LEASE_TIME, Big32(LEASE_TIME_S))]
  }

  lemma {:induction false} EncodeSnoc(entries: seq<Entry>, e: Entry)
    requires AreEntries(entries) && e.Valid()
    ensures AreEntries(entries + [e]) && Encode(entries + [e]) == Encode(entries) + e.Bytes()
  {
    hide Encode, Entry.Bytes;
    if entries == [] {
      EncodeNone();
      EncodeCons(e, []);
      assert [e] + [] == [] + [e] && e.Bytes() + [] == [] + e.Bytes();
    } else {
      var first, later := entries[0], entries[1..];
      EncodeSnoc(later, e);
      EncodeCons(first, later);
      EncodeCons(first, later + [e]);
      assert [first] + later == entries && [first] + (later + [e]) == entries + [e];
      assert first.Bytes() + (Encode(later) + e.Bytes()) == first.Bytes() + Encode(later) + e.Bytes();
    }
  }

  lemma EncodeCons(e: Entry, later: seq<Entry>)
    requires e.Valid() && AreEntries(later)
    ensures AreEntries([e] + later) && Encode([e] + later) == e.Bytes() + Encode(later)
  {
    assert ([e] + later)[1..] == later;
  }

  /** One more option after those already written. */
  method AppendOption(area: array<byte>, at: nat, ghost entries: seq<Entry>, code: byte, data: seq<byte>)
    returns (next: nat, ghost longer: seq<Entry>)
    requires AreEntries(entries) && Entry(code, data).Valid() && at + 2 + |data| <= area.Length
    requires area[..at] == Encode(entries)
    modifies area
    ensures longer == entries + [Entry(code, data)] && AreEntries(longer)
    ensures next == at + 2 + |data| && area[..next] == Encode(longer)
    ensures forall k :: next <= k < area.Length ==> area[k] == old(area[k])
  {
    next := WriteOption(area, at, code, data);
    longer := entries + [Entry(code, data)];
    EncodeSnoc(entries, Entry(code, data));
  }

  /** The option part of a reply, written over the request's options. */
  method WriteReply(area: array<byte>, msgType: byte, ip: seq<byte>, netmask: seq<byte>) returns (length: nat)
    requires area.Length >= AREA && |ip| == |netmask| == 4
    modifies area
    ensures length == 34 && AreEntries(ReplyOptions(msgType, ip, netmask))
    ensures area[..length] == Encode(ReplyOptions(msgType, ip, netmask)) + [OPT_END]
    ensures forall k :: length <= k < area.Length ==> area[k] == old(area[k])
  {
    hide Encode, Entry.Bytes;
    ghost var es: seq<Entry> := [];
    assert area[..0] == Encode(es) by { EncodeNone(); }
    var opt;
    opt, es := AppendOption(area, 0, es, OPT_MSG_TYPE, [msgType]);
    opt, es := AppendOption(area, opt, es, OPT_SERVER_ID, ip);
    opt, es := AppendOption(area, opt, es, OPT_SUBNET_MASK, netmask);
    opt, es := AppendOption(area, opt, es, OPT_ROUTER, ip);
    opt, es := AppendOption(area, opt, es, OPT_DNS, ip);
    opt, es := AppendOption(area, opt, es, OPT_LEASE_TIME, Big32(LEASE_TIME_S));
    assert es == ReplyOptions(msgType, ip, netmask);
    area[opt] := OPT_END;
    length := opt + 1;
    assert area[..length] == area[..opt] + [OPT_END];
  }

  lemma EncodeNone()
    ensures Encode([]) == []
  {
  }

  /** Every option of a reply is recovered by the search. */
  lemma ReplyReadBack(msgType: byte, ip: seq<byte>, netmask: seq<byte>, rest: seq<byte>, k: nat)
    requires |ip| == |netmask| == 4 && k < 6
    requires AreEntries(ReplyOptions(msgType, ip, netmask))
    requires Readable(Encode(ReplyOptions(msgType, ip, netmask)) + [OPT_END] + rest)
    ensures var entries := ReplyOptions(msgType, ip, netmask);
            var memory := Encode(entries) + [OPT_END] + rest;
            var at := OptFind(memory, entries[k].code, 0);
            at.Some? && memory[at.value + 1] == |entries[k].value|
            && memory[at.value + 2..at.value + 2 + |entries[k].value|] == entries[k].value
  {
    var entries := ReplyOptions(msgType, ip, netmask);
    assert |Encode(entries)| == 33 && FirstEntry(entries, entries[k].code) == Some(entries[k]) by {
      ReplyShape(msgType, ip, netmask, k);
    }
    hide Encode, OptFind, FirstOffset, FirstEntry;
    FindsFirst(entries, entries[k].code, rest);
  }

  lemma ReplyShape(msgType: byte, ip: seq<byte>, netmask: seq<byte>, k: nat)
    requires |ip| == |netmask| == 4 && k < 6
    requires AreEntries(ReplyOptions(msgType, ip, netmask))
    ensures var entries := ReplyOptions(msgType, ip, netmask);
            |Encode(entries)| == 33 && FirstEntry(entries, entries[k].code) == Some(entries[k])
  {
    var e := ReplyOptions(msgType, ip, netmask);
    LengthStep(e);
    LengthStep(e[1..]);
    LengthStep(e[2..]);
    LengthStep(e[3..]);
    LengthStep(e[4..]);
    LengthStep(e[5..]);
    assert e[1..][1..] == e[2..] && e[2..][1..] == e[3..] && e[3..][1..] == e[4..];
    assert e[4..][1..] == e[5..] && e[5..][1..] == [];
    hide Encode;
    EncodeNone();
    FirstAt(e, k);
  }

  lemma LengthStep(entries: seq<Entry>)
    requires entries != [] && AreEntries(entries)
    ensures |Encode(entries)| == 2 + |entries[0].value| + |Encode(entries[1..])|
  {
  }

  lemma {:induction false} FirstAt(entries: seq<Entry>, k: nat)
    requires k < |entries| && forall i :: 0 <= i < k ==> entries[i].code != entries[k].code
    ensures FirstEntry(entries, entries[k].code) == Some(entries[k])
  {
    if k > 0 { FirstAt(entries[1..], k - 1); }
  }
}
