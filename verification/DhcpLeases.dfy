/** The lease table of the DHCP server (RFC 2131, sections 2.2, 4.3.1 and 4.3.2), and how long
    an address stays with one client although the table keeps only sixteen bits of its expiry.
    True time is unbounded; the code sees its low 32 bits. All times are in milliseconds.
 */
module DhcpLeases {
  import opened Bits

  const SLOTS: nat := 8
  const LEASE_MS: nat := 24 * 60 * 60 * 1000

  type Mac = m: seq<byte> | |m| == 6 witness [0, 0, 0, 0, 0, 0]

  const NO_MAC: Mac := [0, 0, 0, 0, 0, 0]

  datatype Lease = Lease(mac: Mac, expiry: nat)

  /** The millisecond counter. */
  function Ticks(time: nat): nat { time % U32 }

  /** The recorded expiry of a lease granted at `time`: 65.536 seconds to the unit. */
  function ExpiryAt(time: nat): (e: nat)
    ensures e < 0x1_0000
  {
    (Ticks(time) + LEASE_MS) % U32 / 0x1_0000
  }

  /** The expiry test: a wrapped 32-bit difference taken as a signed number. */
  predicate Expired(expiry: nat, time: nat) {
    (expiry * 0x1_0000 + 0xffff - Ticks(time)) % U32 >= U32 / 2
  }

  /** The true time that a recorded expiry stands for. */
  function EndOfLease(granted: nat): (end: nat)
    ensures granted + LEASE_MS <= end <= granted + LEASE_MS + 0xffff
  {
    (granted + LEASE_MS) / 0x1_0000 * 0x1_0000 + 0xffff
  }

  lemma ModShift(a: int, k: int)
    ensures (a + k * U32) % U32 == a % U32
  {
    var q := (a + k * U32) / U32 - a / U32 - k;
    assert (a + k * U32) % U32 - a % U32 == -(q * U32);
  }

  lemma ExpiryIsEnd(granted: nat)
    ensures exists k :: ExpiryAt(granted) * 0x1_0000 + 0xffff == EndOfLease(granted) - k * U32
  {
    var x := granted + LEASE_MS;
    ModShift(Ticks(granted) + LEASE_MS, granted / U32);
    assert ExpiryAt(granted) == x % U32 / 0x1_0000;
    var k := x / U32;
    assert x == k * U32 + x % U32;
    assert x / 0x1_0000 == k * 0x1_0000 + x % U32 / 0x1_0000;
    assert ExpiryAt(granted) * 0x1_0000 + 0xffff == EndOfLease(granted) - k * U32;
  }

  lemma NegatedMod(a: int)
    ensures (-a - 1) % U32 == U32 - 1 - a % U32
  {
    var q := a / U32;
    ModShift(U32 - 1 - a % U32, -q - 1);
    assert -a - 1 == (U32 - 1 - a % U32) + (-q - 1) * U32;
  }

  /** Exactly when the test says "expired": from one millisecond after the end of the lease for
      2^31 milliseconds, and again after every wrap of the counter.
   */
  lemma ExpiredExactly(granted: nat, time: nat)
    ensures Expired(ExpiryAt(granted), time) <==> (time - EndOfLease(granted) - 1) % U32 < U32 / 2
  {
    var e, end := ExpiryAt(granted) * 0x1_0000 + 0xffff, EndOfLease(granted);
    ExpiryIsEnd(granted);
    var k :| e == end - k * U32;
    var w := time / U32;
    assert e - Ticks(time) == (end - time) + (w - k) * U32;
    ModShift(end - time, w - k);
    NegatedMod(end - time);
  }

  /** No lease is judged expired early, at any distance in time; and within 2^31 milliseconds of
      its recorded end it is judged expired at most 65,536 milliseconds late.
   */
  lemma ExpiryBounds(granted: nat, time: nat)
    requires granted <= time
    ensures Expired(ExpiryAt(granted), time) ==> time > EndOfLease(granted) >= granted + LEASE_MS
    ensures granted + LEASE_MS + 0x1_0000 <= time <= EndOfLease(granted) + U32 / 2 ==> Expired(ExpiryAt(granted), time)
  {
    ExpiredExactly(granted, time);
    var d := time - EndOfLease(granted) - 1;
    if d < 0 {
      ModShift(d, 1);
      assert d + U32 >= U32 / 2 && (d + U32) % U32 == d + U32;
    }
  }

  /** After 2^31 milliseconds the wrapped comparison forgets that a lease has expired. */
  lemma ForgottenExpiry(granted: nat)
    ensures !Expired(ExpiryAt(granted), EndOfLease(granted) + U32 / 2 + 1)
  {
    ExpiredExactly(granted, EndOfLease(granted) + U32 / 2 + 1);
  }

  predicate Table(leases: seq<Lease>) { |leases| == SLOTS }

  /** The first slot from `i` on that is bound to `mac`. */
  function FirstBound(leases: seq<Lease>, mac: Mac, i: nat): (r: nat)
    requires i <= |leases|
    ensures i <= r <= |leases| && (r < |leases| ==> leases[r].mac == mac)
    ensures forall j :: i <= j < r ==> leases[j].mac != mac
    decreases |leases| - i
  {
    if i == |leases| || leases[i].mac == mac then i else FirstBound(leases, mac, i + 1)
  }

  predicate Open(l: Lease, time: nat) {
    l.mac == NO_MAC || Expired(l.expiry, time)
  }

  /** The first slot from `i` on that is free or expired. */
  function FirstOpen(leases: seq<Lease>, time: nat, i: nat): (r: nat)
    requires i <= |leases|
    ensures i <= r <= |leases| && (r < |leases| ==> Open(leases[r], time))
    ensures forall j :: i <= j < r ==> !Open(leases[j], time)
    decreases |leases| - i
  {
    if i == |leases| || Open(leases[i], time) then i else FirstOpen(leases, time, i + 1)
  }

  /** The slot offered for a DHCPDISCOVER: the client's own, else the first free or expired one;
      `SLOTS` when there is none.
   */
  function Offered(leases: seq<Lease>, mac: Mac, time: nat): (r: nat)
    requires Table(leases)
    ensures r <= SLOTS
  {
    var bound := FirstBound(leases, mac, 0);
    if bound < SLOTS then bound else FirstOpen(leases, time, 0)
  }

  /** The table after a DHCPDISCOVER: the scan releases the first open slot before the client's
      own if its lease has expired, and changes nothing else.
   */
  function Discover(leases: seq<Lease>, mac: Mac, time: nat): (r: seq<Lease>)
    requires Table(leases)
    ensures Table(r)
  {
    var open := FirstOpen(leases, time, 0);
    if open < FirstBound(leases, mac, 0) && Expired(leases[open].expiry, time) then
      leases[open := leases[open].(mac := NO_MAC)]
    else leases
  }

  /** A DHCPREQUEST for a slot is granted when the slot is free or the client's own. */
  predicate Grants(leases: seq<Lease>, mac: Mac, slot: nat)
    requires Table(leases) && slot < SLOTS
  {
    leases[slot].mac == mac || leases[slot].mac == NO_MAC
  }

  function Request(leases: seq<Lease>, mac: Mac, slot: nat, time: nat): (r: seq<Lease>)
    requires Table(leases) && slot < SLOTS
    ensures Table(r)
  {
    if Grants(leases, mac, slot) then leases[slot := Lease(mac, ExpiryAt(time))] else leases
  }

  /** A DISCOVER releases at most one slot, and only an expired lease of another client. */
  lemma DiscoverReleases(leases: seq<Lease>, mac: Mac, time: nat, s: nat)
    requires Table(leases) && s < SLOTS && Discover(leases, mac, time)[s] != leases[s]
    ensures leases[s].mac != mac && leases[s].mac != NO_MAC && Expired(leases[s].expiry, time)
    ensures Discover(leases, mac, time)[s].mac == NO_MAC
    ensures forall j :: 0 <= j < SLOTS && j != s ==> Discover(leases, mac, time)[j] == leases[j]
  {
  }

  /** An offered slot that was offered to no one else in between can be requested. */
  lemma OfferedIsGranted(leases: seq<Lease>, mac: Mac, time: nat)
    requires Table(leases) && Offered(leases, mac, time) < SLOTS
    ensures Grants(Discover(leases, mac, time), mac, Offered(leases, mac, time))
  {
  }

  datatype Event = DiscoverMsg(time: nat, mac: Mac) | RequestMsg(time: nat, mac: Mac, slot: nat)

  /** The table after one message. */
  function Apply(leases: seq<Lease>, e: Event): (r: seq<Lease>)
    requires Table(leases)
    ensures Table(r)
  {
    match e
    case DiscoverMsg(time, mac) => Discover(leases, mac, time)
    case RequestMsg(time, mac, slot) => if slot < SLOTS then Request(leases, mac, slot, time) else leases
  }

  function ApplyAll(leases: seq<Lease>, events: seq<Event>): (r: seq<Lease>)
    requires Table(leases)
    ensures Table(r)
    decreases |events|
  {
    if events == [] then leases else Apply(ApplyAll(leases, events[..|events| - 1]), events[|events| - 1])
  }

  /** A slot that could be granted still can be after any messages, unless another client requested it. */
  lemma {:induction false} GrantHolds(leases: seq<Lease>, mac: Mac, slot: nat, events: seq<Event>)
    requires Table(leases) && slot < SLOTS && Grants(leases, mac, slot)
    requires forall e :: e in events && e.RequestMsg? && e.slot == slot ==> e.mac == mac
    ensures Grants(ApplyAll(leases, events), mac, slot)
    decreases |events|
  {
    hide Expired, ExpiryAt;
    if events != [] {
      var n := |events| - 1;
      assert events[n] in events;
      GrantHolds(leases, mac, slot, events[..n]);
    }
  }

  datatype Ack = Ack(time: nat, mac: Mac, slot: nat)

  /** The table, the acknowledgements sent so far, and when each slot was last acknowledged. */
  datatype World = World(leases: seq<Lease>, acks: seq<Ack>, last: seq<nat>, now: nat)

  const FREE: Lease := Lease(NO_MAC, 0)

  const INITIAL: World := World([FREE, FREE, FREE, FREE, FREE, FREE, FREE, FREE], [], [0, 0, 0, 0, 0, 0, 0, 0], 0)

  function Step(w: World, e: Event): World
    requires Table(w.leases) && |w.last| == SLOTS
  {
    var after := w.(leases := Apply(w.leases, e), now := e.time);
    if e.RequestMsg? && e.slot < SLOTS && Grants(w.leases, e.mac, e.slot) then
      after.(acks := w.acks + [Ack(e.time, e.mac, e.slot)], last := w.last[e.slot := e.time])
    else after
  }

  /** Time does not run backwards. */
  predicate Chronological(events: seq<Event>) {
    forall i, j :: 0 <= i <= j < |events| ==> events[i].time <= events[j].time
  }

  function Run(events: seq<Event>): (w: World)
    ensures Table(w.leases) && |w.last| == SLOTS
  {
    if events == [] then INITIAL else Step(Run(events[..|events| - 1]), events[|events| - 1])
  }

  /** What holds for one acknowledgement of the past: the client still has the address, or its
      lease is over.
   */
  predicate Settled(w: World, a: Ack)
    requires Table(w.leases) && |w.last| == SLOTS
  {
    && a.slot < SLOTS && a.time <= w.now
    && (a.mac != NO_MAC ==>
          || (w.leases[a.slot].mac == a.mac && a.time <= w.last[a.slot])
          || w.now > a.time + LEASE_MS)
  }

  predicate Inv(w: World) {
    && Table(w.leases) && |w.last| == SLOTS
    && (forall s :: 0 <= s < SLOTS ==>
          w.last[s] <= w.now && (w.leases[s].mac != NO_MAC ==> w.leases[s].expiry == ExpiryAt(w.last[s])))
    && (forall a :: a in w.acks ==> Settled(w, a))
  }

  lemma DiscoverKeeps(w: World, time: nat, mac: Mac)
    requires Inv(w) && w.now <= time
    ensures Inv(Step(w, DiscoverMsg(time, mac)))
  {
    var after := Step(w, DiscoverMsg(time, mac));
    hide Expired, ExpiryAt;
    forall a | a in w.acks
      ensures Settled(after, a)
    {
      assert Settled(w, a);
      if a.mac != NO_MAC && after.leases[a.slot] != w.leases[a.slot] {
        DiscoverReleases(w.leases, mac, time, a.slot);
        ExpiryBounds(w.last[a.slot], time);
      }
    }
  }

  lemma RequestKeeps(w: World, time: nat, mac: Mac, slot: nat)
    requires Inv(w) && w.now <= time
    ensures Inv(Step(w, RequestMsg(time, mac, slot)))
  {
    var after := Step(w, RequestMsg(time, mac, slot));
    hide Expired, ExpiryAt;
    forall a | a in w.acks
      ensures Settled(after, a)
    {
      assert Settled(w, a);
    }
  }

  lemma {:induction false} RunInv(events: seq<Event>)
    requires Chronological(events)
    ensures Inv(Run(events))
    ensures Run(events).now == if events == [] then 0 else events[|events| - 1].time
  {
    if events != [] {
      var before, e := events[..|events| - 1], events[|events| - 1];
      RunInv(before);
      match e
      case DiscoverMsg(time, mac) => DiscoverKeeps(Run(before), time, mac);
      case RequestMsg(time, mac, slot) => RequestKeeps(Run(before), time, mac, slot);
    }
  }

  /** Exclusive leases: whenever a client is acknowledged an address, every client to which that
      address was acknowledged before either is the same client, or got its last acknowledgement
      more than a whole lease time ago.
   */
  lemma ExclusiveLease(events: seq<Event>, e: Event, a: Ack)
    requires Chronological(events + [e])
    requires e.RequestMsg? && e.slot < SLOTS && Grants(Run(events).leases, e.mac, e.slot)
    requires a in Run(events).acks && a.slot == e.slot && a.mac != e.mac && a.mac != NO_MAC
    ensures Ack(e.time, e.mac, e.slot) in Run(events + [e]).acks
    ensures e.time > a.time + LEASE_MS
  {
    var all := events + [e];
    assert all[..|all| - 1] == events && all[|all| - 1] == e;
    assert Chronological(events) by {
      forall i, j | 0 <= i <= j < |events|
        ensures events[i].time <= events[j].time
      {
        assert all[i].time <= all[j].time;
      }
    }
    RunInv(events);
    assert Settled(Run(events), a);
    if events != [] {
      assert all[|events| - 1].time <= all[|events|].time;
    }
    var w := Step(Run(events), e);
    assert w.acks[|w.acks| - 1] == Ack(e.time, e.mac, e.slot);
  }

  /** The zero address is how the table marks a free slot, so a client that uses it as its MAC
      gets no exclusivity.
   */
  lemma ZeroMacNotExclusive() returns (events: seq<Event>, e: Event, a: Ack)
    ensures Chronological(events + [e]) && e.RequestMsg? && e.slot < SLOTS
    ensures Grants(Run(events).leases, e.mac, e.slot)
    ensures a in Run(events).acks && a.slot == e.slot && a.mac != e.mac && e.time <= a.time + LEASE_MS
  {
    events, e, a := [RequestMsg(0, NO_MAC, 0)], RequestMsg(1, [1, 0, 0, 0, 0, 0], 0), Ack(0, NO_MAC, 0);
    assert events[..0] == [] && Run([]) == INITIAL;
    assert Run(events) == Step(INITIAL, events[0]);
    assert Run(events).acks[0] == a;
  }
}
