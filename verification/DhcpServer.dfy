/** `dhcp_server_process`: one received packet against the lease table, which is updated in
    place, and the reply written over the request.
 */
module DhcpServer {
  import opened Bits
  import opened Options
  import opened DhcpOptions
  import opened DhcpLeases

  const BASE_IP: nat := 16
  const MIN_SIZE: nat := 240 + 3
  const DHCPDISCOVER: byte := 1
  const DHCPOFFER: byte := 2
  const DHCPREQUEST: byte := 3
  const DHCPACK: byte := 5

  /** What a packet asks for. `memory` is its option area and what lies behind it. */
  function Asks(size: nat, memory: seq<byte>, ip: seq<byte>, mac: Mac, time: nat): Option<Event>
    requires Readable(memory) && |ip| == 4
  {
    if size < MIN_SIZE then None else
      match OptFind(memory, OPT_MSG_TYPE, 0)
      case None => None
      case Some(m) =>
        if memory[m + 2] == DHCPDISCOVER then Some(DiscoverMsg(time, mac))
        else if memory[m + 2] != DHCPREQUEST then None
        else match OptFind(memory, OPT_REQUESTED_IP, 0)
             case None => None
             case Some(o) =>
               if memory[o + 2..o + 5] != ip[..3] then None
               else Some(RequestMsg(time, mac, (memory[o + 5] - BASE_IP) % 256))
  }

  /** The fields before the options: `op` first, `yiaddr` at 16, `chaddr` at 28, the magic cookie
      last.
   */
  type Head = h: seq<byte> | |h| == 240 witness seq(240, _ => 0)

  function MacOf(head: Head): Mac { head[28..34] }

  /** The request's fields sent back with another opcode and the client's new address: the
      transaction, the client's hardware address and everything else are echoed.
   */
  function ReplyHead(head: Head, yiaddr: seq<byte>): (r: Head)
    requires |yiaddr| == 4
    ensures r[0] == DHCPOFFER && r[16..20] == yiaddr && MacOf(r) == MacOf(head)
    ensures forall k :: 0 < k < 16 || 20 <= k < 240 ==> r[k] == head[k]
  {
    [DHCPOFFER] + head[1..16] + yiaddr + head[20..]
  }

  datatype Reply = Reply(msgType: byte, head: Head)

  /** The reply to a message: an offer, an acknowledgement, or silence. */
  function Answer(leases: seq<Lease>, e: Event, ip: seq<byte>, head: Head): Option<Reply>
    requires Table(leases) && |ip| == 4
  {
    match e
    case DiscoverMsg(time, mac) =>
      var yi := Offered(leases, mac, time);
      if yi < SLOTS then Some(Reply(DHCPOFFER, ReplyHead(head, ip[..3] + [BASE_IP + yi]))) else None
    case RequestMsg(time, mac, slot) =>
      if slot < SLOTS && Grants(leases, mac, slot)
      then Some(Reply(DHCPACK, ReplyHead(head, ip[..3] + [BASE_IP + slot])))
      else None
  }

  /** The table and the reply after one packet. */
  datatype Served = Served(leases: seq<Lease>, reply: Option<Reply>)

  function Serve(leases: seq<Lease>, size: nat, memory: seq<byte>, ip: seq<byte>, head: Head, time: nat): (s: Served)
    requires Table(leases) && Readable(memory) && |ip| == 4
    ensures Table(s.leases)
  {
    match Asks(size, memory, ip, MacOf(head), time)
    case None => Served(leases, None)
    case Some(e) => Served(Apply(leases, e), Answer(leases, e, ip, head))
  }

  class Server {
    const ip: seq<byte>
    const netmask: seq<byte>
    const lease: array<Lease>

    ghost predicate Valid() {
      |ip| == |netmask| == 4 && lease.Length == SLOTS
    }

    constructor (ip: seq<byte>, netmask: seq<byte>)
      requires |ip| == |netmask| == 4
      ensures Valid() && fresh(lease) && this.ip == ip && this.netmask == netmask
      ensures lease[..] == INITIAL.leases
    {
      this.ip, this.netmask := ip, netmask;
      lease := new Lease[SLOTS](_ => FREE);
    }

    /** The scan of the table for a DHCPDISCOVER. */
    method ScanForDiscover(mac: Mac, time: nat) returns (yi: nat)
      requires Valid()
      modifies lease
      ensures lease[..] == Discover(old(lease[..]), mac, time)
      ensures yi == Offered(old(lease[..]), mac, time)
    {
      hide Expired;
      ghost var was := lease[..];
      ghost var bound, open := FirstBound(was, mac, 0), FirstOpen(was, time, 0);
      yi := SLOTS;
      var i := 0;
      while i < SLOTS
        invariant 0 <= i <= SLOTS && i <= bound
        invariant yi == if open < i then open else SLOTS
        invariant lease[..] == if open < i && Expired(was[open].expiry, time)
                               then was[open := was[open].(mac := NO_MAC)] else was
      {
        if lease[i].mac == mac {
          yi := i;
          break;
        }
        if yi == SLOTS {
          if lease[i].mac == NO_MAC {
            yi := i;
          }
          if Expired(lease[i].expiry, time) {
            lease[i] := lease[i].(mac := NO_MAC);
            yi := i;
          }
        }
        i := i + 1;
      }
    }

    /** The table entry for a DHCPREQUEST. */
    method GrantRequest(mac: Mac, yi: nat, time: nat) returns (granted: bool)
      requires Valid() && yi < SLOTS
      modifies lease
      ensures lease[..] == Request(old(lease[..]), mac, yi, time)
      ensures granted == Grants(old(lease[..]), mac, yi)
    {
      hide ExpiryAt;
      granted := true;
      if lease[yi].mac == mac {
      } else if lease[yi].mac == NO_MAC {
        lease[yi] := lease[yi].(mac := mac);
      } else {
        return false;
      }
      lease[yi] := lease[yi].(expiry := ExpiryAt(time));
    }

    /** One packet: `head` and the option area with what lies behind it. */
    method Process(size: nat, head: Head, area: array<byte>, time: nat) returns (reply: Option<Reply>)
      requires Valid() && Readable(area[..])
      modifies lease, area
      ensures Served(lease[..], reply) == Serve(old(lease[..]), size, old(area[..]), ip, head, time)
      ensures match reply
              case None => area[..] == old(area[..])
              case Some(r) =>
                && AreEntries(ReplyOptions(r.msgType, ip, netmask))
                && area[..] == Encode(ReplyOptions(r.msgType, ip, netmask)) + [OPT_END] + old(area[34..])
    {
      hide OptFind, Discover, Offered, Expired, Encode;
      reply := None;
      if size < MIN_SIZE {
        return;
      }
      var mac := MacOf(head);
      var msg: Head := head[0 := DHCPOFFER];
      msg := msg[..16] + ip + msg[20..];
      var msgtype := FindOption(area[..], OPT_MSG_TYPE);
      if msgtype.None? {
        return;
      }
      var kind: byte;
      var yi: nat;
      if area[msgtype.value + 2] == DHCPDISCOVER {
        yi := ScanForDiscover(mac, time);
        if yi == SLOTS {
          return;
        }
        kind := DHCPOFFER;
      } else if area[msgtype.value + 2] == DHCPREQUEST {
        var o := FindOption(area[..], OPT_REQUESTED_IP);
        if o.None? {
          return;
        }
        if area[o.value + 2..o.value + 5] != ip[..3] {
          return;
        }
        yi := (area[o.value + 5] - BASE_IP) % 256;
        if yi >= SLOTS {
          return;
        }
        var granted := GrantRequest(mac, yi, time);
        if !granted {
          return;
        }
        kind := DHCPACK;
      } else {
        return;
      }
      var length := WriteReply(area, kind, ip, netmask);
      assert area[..] == area[..length] + area[length..];
      AddressIn(head, ip, BASE_IP + yi);
      reply := Some(Reply(kind, msg[19 := BASE_IP + yi]));
    }
  }

  lemma AddressIn(head: Head, ip: seq<byte>, last: byte)
    requires |ip| == 4
    ensures var msg := head[0 := DHCPOFFER];
            (msg[..16] + ip + msg[20..])[19 := last] == ReplyHead(head, ip[..3] + [last])
  {
  }
}
