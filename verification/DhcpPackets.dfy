/** The DHCP server packet by packet: which packets are answered, by which address, and what becomes of
    the table (RFC 2131, section 4.3).
 */
module DhcpPackets {
  import opened Bits
  import opened Options
  import opened DhcpOptions
  import opened DhcpLeases
  import opened DhcpServer

  /** The packet is long enough and its first message type option has that value. */
  predicate IsType(size: nat, memory: seq<byte>, kind: byte)
    requires Readable(memory)
  {
    var m := OptFind(memory, 53, 0);
    size >= 243 && m.Some? && memory[m.value + 2] == kind
  }

  /** The address in the first requested-address option. */
  function Requested(memory: seq<byte>): Option<seq<byte>>
    requires Readable(memory)
  {
    match OptFind(memory, 50, 0)
    case None => None
    case Some(o) => Some(memory[o + 2..o + 6])
  }

  /** A request is acknowledged if and only if it asks for an address of the server's network whose
      last byte is 16 to 23, and the slot of that byte minus 16 is free or the client's own. The
      acknowledgement is of type 5 and carries exactly that address, and exactly that slot is bound to
      the client.
   */
  lemma RequestIff(leases: seq<Lease>, size: nat, memory: seq<byte>, ip: seq<byte>, head: Head, time: nat)
    requires Table(leases) && Readable(memory) && |ip| == 4 && IsType(size, memory, 3)
    ensures var s, asked := Serve(leases, size, memory, ip, head, time), Requested(memory);
            if && asked.Some? && asked.value[..3] == ip[..3] && 16 <= asked.value[3] < 24
               && (leases[asked.value[3] - 16].mac == MacOf(head) || leases[asked.value[3] - 16].mac == NO_MAC)
            then
              && s.reply.Some? && s.reply.value.msgType == 5 && s.reply.value.head[16..20] == asked.value
              && s.leases == leases[asked.value[3] - 16 := Lease(MacOf(head), ExpiryAt(time))]
            else s.reply == None && s.leases == leases
  {
    hide OptFind, ExpiryAt;
    var asked := Requested(memory);
    if asked.Some? {
      var o := OptFind(memory, 50, 0).value;
      assert asked.value[..3] == memory[o + 2..o + 5] && asked.value[3] == memory[o + 5];
      if asked.value[..3] == ip[..3] {
        assert asked.value == ip[..3] + [asked.value[3]];
      }
    }
  }

  /** A DISCOVER is answered if and only if the client is bound to a slot or some slot is free or has
      expired: by an offer of type 2 for the client's first slot, or else the first such slot. Of the
      table nothing changes but the first free or expired slot, up to the offered one, which is freed if
      it has expired.
   */
  lemma DiscoverIff(leases: seq<Lease>, size: nat, memory: seq<byte>, ip: seq<byte>, head: Head, time: nat)
    requires Table(leases) && Readable(memory) && |ip| == 4 && IsType(size, memory, 1)
    ensures var s, mac := Serve(leases, size, memory, ip, head, time), MacOf(head);
            if exists i :: 0 <= i < 8 && (leases[i].mac == mac || Open(leases[i], time)) then
              && s.reply.Some? && s.reply.value.msgType == 2
              && (var y := s.reply.value.head[16..20];
                 && y[..3] == ip[..3] && 16 <= y[3] < 24
                 && var i := y[3] - 16;
                    if leases[i].mac == mac then forall j :: 0 <= j < i ==> leases[j].mac != mac
                    else
                      && Open(leases[i], time) && (forall j :: 0 <= j < 8 ==> leases[j].mac != mac)
                      && (forall j :: 0 <= j < i ==> !Open(leases[j], time)))
              && forall j :: 0 <= j < 8 && s.leases[j] != leases[j] ==>
                   && Expired(leases[j].expiry, time) && s.leases[j] == leases[j].(mac := NO_MAC)
                   && j <= s.reply.value.head[19] as int - 16 && forall k :: 0 <= k < j ==> !Open(leases[k], time)
            else s.reply == None && s.leases == leases
  {
    hide OptFind, Expired;
    var mac := MacOf(head);
    var yi := Offered(leases, mac, time);
    var y := ip[..3] + [16 + yi];
    assert y[..3] == ip[..3];
    if i :| 0 <= i < 8 && (leases[i].mac == mac || Open(leases[i], time)) {
      assert yi < 8;
    }
  }

  /** Everything else is met with silence: short packets, no message type, any other type. */
  lemma OtherSilent(leases: seq<Lease>, size: nat, memory: seq<byte>, ip: seq<byte>, head: Head, time: nat)
    requires Table(leases) && Readable(memory) && |ip| == 4
    requires !IsType(size, memory, 1) && !IsType(size, memory, 3)
    ensures Serve(leases, size, memory, ip, head, time) == Served(leases, None)
  {
    hide OptFind;
  }

  /** Every reply is a boot reply that goes back to the asking client with its transaction. */
  lemma ReplyEchoes(leases: seq<Lease>, size: nat, memory: seq<byte>, ip: seq<byte>, head: Head, time: nat)
    requires Table(leases) && Readable(memory) && |ip| == 4
    requires Serve(leases, size, memory, ip, head, time).reply.Some?
    ensures var r := Serve(leases, size, memory, ip, head, time).reply.value;
            && r.head[0] == 2 && r.head[16..19] == ip[..3]
            && forall k :: 0 < k < 16 || 20 <= k < 240 ==> r.head[k] == head[k]
  {
    hide OptFind, Offered, Apply;
    assert forall last: byte :: (ip[..3] + [last])[..3] == ip[..3];
  }

  /** From offer to acknowledgement: a client that requests the address it was offered gets it, whatever
      other messages come in between, unless another client requests that address.
   */
  lemma OfferedIsAcknowledged(leases: seq<Lease>, ip: seq<byte>, size: nat, memory: seq<byte>, head: Head, time: nat,
                              between: seq<Event>, size2: nat, memory2: seq<byte>, head2: Head, time2: nat)
    requires Table(leases) && Readable(memory) && Readable(memory2) && |ip| == 4
    requires IsType(size, memory, 1) && Serve(leases, size, memory, ip, head, time).reply.Some?
    requires var offer := Serve(leases, size, memory, ip, head, time).reply.value;
             && IsType(size2, memory2, 3) && Requested(memory2) == Some(offer.head[16..20])
             && MacOf(head2) == MacOf(head)
             && forall e :: e in between && e.RequestMsg? && e.slot == (offer.head[19] - 16) % 256 ==>
                              e.mac == MacOf(head)
    ensures var first := Serve(leases, size, memory, ip, head, time);
            var offer := first.reply.value;
            var second := Serve(ApplyAll(first.leases, between), size2, memory2, ip, head2, time2);
            && second.reply.Some? && second.reply.value.msgType == 5
            && second.reply.value.head[16..20] == offer.head[16..20]
            && 16 <= offer.head[19] < 24 && second.leases[offer.head[19] - 16].mac == MacOf(head)
  {
    OfferIs(leases, size, memory, ip, head, time);
    hide Serve, IsType, Requested, ApplyAll, Discover, Offered, ExpiryAt, Grants;
    var first := Serve(leases, size, memory, ip, head, time);
    var y := first.reply.value.head[16..20];
    assert y[3] == first.reply.value.head[19];
    GrantHolds(first.leases, MacOf(head), y[3] - 16, between);
    var table := ApplyAll(first.leases, between);
    GrantsIs(table, MacOf(head), y[3] - 16);
    RequestIff(table, size2, memory2, ip, head2, time2);
  }

  lemma GrantsIs(leases: seq<Lease>, mac: Mac, slot: nat)
    requires Table(leases) && slot < 8
    ensures Grants(leases, mac, slot) <==> leases[slot].mac == mac || leases[slot].mac == NO_MAC
  {
  }

  /** An offer is for a slot that the client would be granted. */
  lemma OfferIs(leases: seq<Lease>, size: nat, memory: seq<byte>, ip: seq<byte>, head: Head, time: nat)
    requires Table(leases) && Readable(memory) && |ip| == 4
    requires IsType(size, memory, 1) && Serve(leases, size, memory, ip, head, time).reply.Some?
    ensures var s := Serve(leases, size, memory, ip, head, time);
            var y := s.reply.value.head[16..20];
            && y[..3] == ip[..3] && 16 <= y[3] < 24 && Grants(s.leases, MacOf(head), y[3] - 16)
  {
    hide OptFind, Expired, Discover, Offered;
    OfferedIsGranted(leases, MacOf(head), time);
    var y := ip[..3] + [16 + Offered(leases, MacOf(head), time)];
    assert y[..3] == ip[..3];
  }

  /** The option area of a reply, byte by byte; the announced lease time is the one that is granted. */
  lemma ReplyBytes(msgType: byte, ip: seq<byte>, netmask: seq<byte>)
    requires |ip| == |netmask| == 4
    ensures AreEntries(ReplyOptions(msgType, ip, netmask))
    ensures Encode(ReplyOptions(msgType, ip, netmask)) + [OPT_END]
            == [53, 1, msgType, 54, 4] + ip + [1, 4] + netmask + [3, 4] + ip + [6, 4] + ip
               + [51, 4, 0, 1, 0x51, 0x80, 255]
    ensures LEASE_MS == (1 * 0x1_0000 + 0x51 * 0x100 + 0x80) * 1000
  {
    var e := ReplyOptions(msgType, ip, netmask);
    SixEntries(e[0], e[1], e[2], e[3], e[4], e[5]);
    assert Big32(LEASE_TIME_S) == [0, 1, 0x51, 0x80];
    hide Encode;
    var (a, b, c) := ([53, 1, msgType], [54, 4] + ip, [1, 4] + netmask);
    assert a == e[0].Bytes() && b == e[1].Bytes() && c == e[2].Bytes();
  }

  lemma SixEntries(a: Entry, b: Entry, c: Entry, d: Entry, e: Entry, f: Entry)
    requires a.Valid() && b.Valid() && c.Valid() && d.Valid() && e.Valid() && f.Valid()
    ensures AreEntries([a, b, c, d, e, f])
    ensures Encode([a, b, c, d, e, f]) == a.Bytes() + b.Bytes() + c.Bytes() + d.Bytes() + e.Bytes() + f.Bytes()
  {
    hide Encode, Entry.Bytes;
    var all := [a, b, c, d, e, f];
    EncodeNone();
    EncodeSnoc([], a);
    EncodeSnoc([a], b);
    EncodeSnoc([a, b], c);
    EncodeSnoc([a, b, c], d);
    EncodeSnoc([a, b, c, d], e);
    EncodeSnoc([a, b, c, d, e], f);
    assert [] + [a] == [a] && [a] + [b] == [a, b] && [a, b] + [c] == [a, b, c];
    assert [a, b, c] + [d] == [a, b, c, d] && [a, b, c, d] + [e] == [a, b, c, d, e] && [a, b, c, d, e] + [f] == all;
    assert [] + a.Bytes() == a.Bytes();
  }
}
