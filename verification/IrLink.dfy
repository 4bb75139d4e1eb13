/** Transmitter, light and receiver together. */
module IrLink {
  import opened Bits
  import opened IrProtocol
  import opened IrReceiver
  import opened IrLed
  import opened IrTimers
  import opened IrFrames

  /** The edges of one message whose first mark starts at time `t` and whose on/off durations
      are `durations`. Every other edge ends a mark.
   */
  function FrameEdges(t: nat, durations: seq<nat>): (r: seq<Input>)
    ensures |r| == |durations| + 1
    ensures forall i :: 0 <= i <= |durations| ==> r[i] == Edge(t + Sum(durations[..i]), i % 2 == 1)
  {
    seq(|durations| + 1, i requires 0 <= i <= |durations| => Edge(t + Sum(durations[..i]), i % 2 == 1))
  }

  /** Several messages, each with its own start and its own measured durations. */
  function Seen(starts: seq<nat>, durations: seq<seq<nat>>): seq<Input>
    requires |starts| == |durations|
  {
    if starts == [] then [] else FrameEdges(starts[0], durations[0]) + Seen(starts[1..], durations[1..])
  }

  function EdgeIf(changed: bool, t: nat, level: bool): seq<Input> {
    if changed then [Edge(t, level)] else []
  }

  /** The edges of a waveform: an interrupt wherever the output changes. */
  function WaveEdges(t: nat, level: bool, segments: seq<Segment>): seq<Input>
    decreases |segments|
  {
    if segments == [] then [] else
      EdgeIf(segments[0].on != level, t, level)
      + WaveEdges(t + segments[0].duration, segments[0].on, segments[1..])
  }

  lemma {:induction false} RunConcat(r: Rx, a: seq<Input>, b: seq<Input>)
    ensures Run(r, a + b) == Out(Run(Run(r, a).rx, b).rx, Run(r, a).calls + Run(Run(r, a).rx, b).calls)
    decreases |b|
  {
    hide Step;
    if b == [] {
      assert a + b == a;
    } else {
      var front, last := b[..|b| - 1], b[|b| - 1];
      assert (a + b)[..|a + b| - 1] == a + front;
      RunConcat(r, a, front);
      var mid := Run(r, a);
      assert mid.calls + (Run(mid.rx, front).calls + Step(Run(mid.rx, front).rx, last).calls)
             == mid.calls + Run(mid.rx, front).calls + Step(Run(mid.rx, front).rx, last).calls;
    }
  }

  predicate Idle(r: Rx) {
    r.proto.Valid() && r.sync == 0 && r.pulses == [] && !r.bitTimer
  }

  /** The receiver after the first `j` durations of a message that began at `t`. */
  function Collecting(r: Rx, t: nat, durations: seq<nat>, j: nat): Rx
    requires j <= |durations|
  {
    if j == 0 then r.(prevTs := t) else
      StartTimeout(r.(pulses := durations[..1])).(
        prevTs := t + Sum(durations[..j]), sync := if j == 1 then 1 else 2, pulses := durations[..j])
  }

  /** Durations that the receiver's synchronisation accepts and that fit 32 bits. */
  predicate Synchronising(proto: Protocol, durations: seq<nat>) {
    && proto.Valid() && |durations| == proto.MaxPulses()
    && Near(proto, durations[0], proto.SyncMark()) && Near(proto, durations[1], proto.SyncSpace())
    && forall i :: 0 <= i < |durations| ==> durations[i] < U32
  }

  lemma SumNext(durations: seq<nat>, j: nat)
    requires j < |durations|
    ensures Sum(durations[..j + 1]) == Sum(durations[..j]) + durations[j]
  {
    assert durations[..j + 1][..j] == durations[..j];
  }

  lemma IntervalNext(t: nat, d: nat)
    requires d < U32
    ensures Interval(t, t + d) == d
  {
  }

  lemma StoreMark(r: Rx, ts: nat)
    requires r.sync == 0 && Near(r.proto, Interval(r.prevTs, ts), r.proto.SyncMark())
    ensures StoreTimestamp(r, ts, true)
            == Out(StartTimeout(r.(pulses := [Interval(r.prevTs, ts)], sync := 1, prevTs := ts)), [])
  {
    hide Near, Interval, Decode;
  }

  lemma StoreSpace(r: Rx, ts: nat)
    requires r.sync == 1 && Near(r.proto, Interval(r.prevTs, ts), r.proto.SyncSpace())
    ensures StoreTimestamp(r, ts, false)
            == Out(r.(pulses := r.pulses + [Interval(r.prevTs, ts)], sync := 2, prevTs := ts), [])
  {
    hide Near, Interval, Decode;
  }

  lemma StoreBit(r: Rx, ts: nat, falling: bool)
    requires r.sync == 2 && |r.pulses| + 1 < r.proto.MaxPulses()
    ensures StoreTimestamp(r, ts, falling)
            == Out(r.(pulses := r.pulses + [Interval(r.prevTs, ts)], prevTs := ts), [])
  {
    hide Near, Interval, Decode;
  }

  /** The edge that completes the buffer with `durations`. */
  lemma StoreLast(c: Rx, durations: seq<nat>, ts: nat, falling: bool)
    requires c.sync == 2 && |durations| == c.proto.MaxPulses()
    requires c.pulses + [Interval(c.prevTs, ts)] == durations
    ensures var d := Decode(c.proto, durations, c.address);
            StoreTimestamp(c, ts, falling)
            == Out(Reset(c).(rptAddr := d.addr, rptFunc := d.func, prevTs := ts),
                   [if d.ok then Received(ts, d.addr, d.func) else Failed])
  {
    hide Near, Interval, Decode;
  }

  lemma CollectingIs(r: Rx, t: nat, durations: seq<nat>, j: nat)
    requires 1 <= j <= |durations|
    ensures var c := Collecting(r, t, durations, j);
            && c.proto == r.proto && c.address == r.address && c.pulses == durations[..j]
            && c.sync == (if j == 1 then 1 else 2) && c.prevTs == t + Sum(durations[..j])
  {
    hide Sum;
  }

  lemma CollectingNext(r: Rx, t: nat, durations: seq<nat>, j: nat)
    requires 1 <= j < |durations|
    ensures Collecting(r, t, durations, j + 1)
            == Collecting(r, t, durations, j).(prevTs := t + Sum(durations[..j + 1]), sync := 2,
                                               pulses := durations[..j + 1])
  {
    hide Sum;
  }

  lemma SynchronisingAt(proto: Protocol, durations: seq<nat>, j: nat)
    requires Synchronising(proto, durations) && j < |durations|
    ensures durations[j] < U32 && |durations| == proto.MaxPulses() >= 3
    ensures j == 0 ==> Near(proto, durations[0], proto.SyncMark())
    ensures j == 1 ==> Near(proto, durations[1], proto.SyncSpace())
  {
    hide Near;
  }

  lemma SynchronisingLength(proto: Protocol, durations: seq<nat>)
    requires Synchronising(proto, durations)
    ensures |durations| == proto.MaxPulses() >= 3
  {
    hide Near;
  }

  lemma NextInterval(t: nat, durations: seq<nat>, j: nat)
    requires j < |durations| && durations[j] < U32
    ensures Interval(t + Sum(durations[..j]), t + Sum(durations[..j + 1])) == durations[j]
  {
    SumNext(durations, j);
    IntervalNext(t + Sum(durations[..j]), durations[j]);
  }

  lemma CollectFirst(r: Rx, t: nat, durations: seq<nat>)
    requires Idle(r) && 1 < |durations| && durations[0] < U32 && Near(r.proto, durations[0], r.proto.SyncMark())
    ensures StoreTimestamp(Collecting(r, t, durations, 0), t + Sum(durations[..1]), true)
            == Out(Collecting(r, t, durations, 1), [])
  {
    hide Near, Interval, StoreTimestamp;
    assert durations[..1] == [durations[0]] && [durations[0]][..0] == [];
    assert Sum(durations[..1]) == durations[0];
    hide Sum;
    IntervalNext(t, durations[0]);
    StoreMark(Collecting(r, t, durations, 0), t + durations[0]);
  }

  lemma CollectSecond(r: Rx, t: nat, durations: seq<nat>)
    requires 2 < |durations| && durations[1] < U32 && Near(r.proto, durations[1], r.proto.SyncSpace())
    ensures StoreTimestamp(Collecting(r, t, durations, 1), t + Sum(durations[..2]), false)
            == Out(Collecting(r, t, durations, 2), [])
  {
    hide Near, StoreTimestamp, Collecting, Interval, Sum;
    NextInterval(t, durations, 1);
    CollectingIs(r, t, durations, 1);
    CollectingNext(r, t, durations, 1);
    assert durations[..2] == durations[..1] + [durations[1]];
    StoreSpace(Collecting(r, t, durations, 1), t + Sum(durations[..2]));
  }

  lemma CollectLater(r: Rx, t: nat, durations: seq<nat>, j: nat, falling: bool)
    requires 2 <= j && j + 1 < |durations| == r.proto.MaxPulses() && durations[j] < U32
    ensures StoreTimestamp(Collecting(r, t, durations, j), t + Sum(durations[..j + 1]), falling)
            == Out(Collecting(r, t, durations, j + 1), [])
  {
    hide Near, StoreTimestamp, Collecting, Interval, Sum, Protocol.MaxPulses;
    NextInterval(t, durations, j);
    CollectingIs(r, t, durations, j);
    CollectingNext(r, t, durations, j);
    assert durations[..j + 1] == durations[..j] + [durations[j]];
    StoreBit(Collecting(r, t, durations, j), t + Sum(durations[..j + 1]), falling);
  }

  /** One edge inside a message, before the last. */
  lemma CollectNext(r: Rx, t: nat, durations: seq<nat>, j: nat)
    requires Idle(r) && Synchronising(r.proto, durations) && j + 1 < |durations|
    ensures StoreTimestamp(Collecting(r, t, durations, j), t + Sum(durations[..j + 1]), j % 2 == 0)
            == Out(Collecting(r, t, durations, j + 1), [])
  {
    hide Near, StoreTimestamp, Synchronising, Collecting, Interval, Sum;
    SynchronisingAt(r.proto, durations, j);
    if j == 0 {
      CollectFirst(r, t, durations);
    } else if j == 1 {
      CollectSecond(r, t, durations);
    } else {
      CollectLater(r, t, durations, j, j % 2 == 0);
    }
  }

  lemma LastInterval(t: nat, durations: seq<nat>, front: seq<nat>, d: nat)
    requires durations == front + [d] && d < U32
    ensures Interval(t + Sum(front), t + Sum(durations)) == d
  {
    assert durations[..|durations| - 1] == front;
    IntervalNext(t + Sum(front), d);
  }

  /** When all but the last duration are collected. */
  lemma CollectingAll(r: Rx, t: nat, durations: seq<nat>)
    requires Idle(r) && Synchronising(r.proto, durations)
    ensures |durations| >= 3
    ensures var c := Collecting(r, t, durations, |durations| - 1);
            && c.sync == 2 && c.proto == r.proto && c.address == r.address && |durations| == c.proto.MaxPulses()
            && c.pulses + [Interval(c.prevTs, t + Sum(durations))] == durations
  {
    hide Synchronising, Sum, Interval, Idle, Collecting, Near, Protocol.MaxPulses, Protocol.SyncMark;
    SynchronisingLength(r.proto, durations);
    var n := |durations|;
    SynchronisingAt(r.proto, durations, n - 1);
    var front, last := durations[..n - 1], durations[n - 1];
    assert durations == front + [last];
    LastInterval(t, durations, front, last);
    CollectingIs(r, t, durations, n - 1);
  }

  lemma RunSnoc(r: Rx, before: seq<Input>, i: Input)
    ensures var b := Run(r, before);
            Run(r, before + [i]) == Out(Step(b.rx, i).rx, b.calls + Step(b.rx, i).calls)
  {
    hide Step;
    assert (before + [i])[..|before|] == before;
  }

  lemma EdgeOfFrame(t: nat, durations: seq<nat>, j: nat)
    requires j <= |durations|
    ensures FrameEdges(t, durations)[..j + 1]
            == FrameEdges(t, durations)[..j] + [Edge(t + Sum(durations[..j]), j % 2 == 1)]
  {
    hide Sum;
  }

  lemma {:induction false} CollectRun(r: Rx, t: nat, durations: seq<nat>, j: nat)
    requires Idle(r) && Synchronising(r.proto, durations) && j < |durations|
    ensures Run(r, FrameEdges(t, durations)[..j + 1]) == Out(Collecting(r, t, durations, j), [])
    decreases j
  {
    hide StoreTimestamp, Collecting, Synchronising, FrameEdges, Sum, Idle;
    var edges := FrameEdges(t, durations);
    EdgeOfFrame(t, durations, j);
    RunSnoc(r, edges[..j], Edge(t + Sum(durations[..j]), j % 2 == 1));
    if j == 0 {
      FirstEdge(r, t, durations);
      SumOfNone(durations);
      assert edges[..0] == [];
    } else {
      CollectRun(r, t, durations, j - 1);
      hide Run;
      CollectNext(r, t, durations, j - 1);
    }
  }

  lemma SumOfNone(durations: seq<nat>)
    ensures durations[..0] == [] && Sum(durations[..0]) == 0
  {
  }

  lemma FirstEdge(r: Rx, t: nat, durations: seq<nat>)
    requires Idle(r)
    ensures StoreTimestamp(r, t, false) == Out(Collecting(r, t, durations, 0), [])
  {
  }

  /** One message into an idle receiver: exactly one report, at the end of the last mark, and
      the receiver is idle again.
   */
  lemma FrameRun(r: Rx, t: nat, durations: seq<nat>)
    requires Idle(r) && Synchronising(r.proto, durations)
    ensures var out, d := Run(r, FrameEdges(t, durations)), Decode(r.proto, durations, r.address);
            && out.calls == [if d.ok then Received(t + Sum(durations), d.addr, d.func) else Failed]
            && Idle(out.rx) && out.rx.proto == r.proto && out.rx.address == r.address
            && out.rx.rptAddr == d.addr && out.rx.rptFunc == d.func
  {
    hide StoreTimestamp, Near, Decode, Sum, Interval, Collecting, Synchronising;
    var n, edges := |durations|, FrameEdges(t, durations);
    CollectingAll(r, t, durations);
    CollectRun(r, t, durations, n - 1);
    StoreLast(Collecting(r, t, durations, n - 1), durations, t + Sum(durations), n % 2 == 1);
    assert durations[..n] == durations;
    assert edges[..n] == edges[..|edges| - 1];
    assert edges[n] == Edge(t + Sum(durations), n % 2 == 1);
  }

  lemma JitteredSynchronises(proto: Protocol, addr: nat, func: nat, seen: seq<nat>)
    requires proto.Valid() && addr < 0x1_0000
    requires Jittered(Times(proto, addr, func), seen, proto.Tolerance())
    ensures Synchronising(proto, seen)
  {
    var times, bits := Times(proto, addr, func), Word(proto, addr, func);
    var long := if proto.Sony? then 1200 else 1686;
    var p := Pairs(bits, proto.Base(), long);
    assert times == if proto.Sony? then [proto.SyncMark()] + p
                    else [proto.SyncMark(), proto.SyncSpace()] + p + [proto.Base()];
    PairsBounded(bits, proto.Base(), long);
    if proto.Sony? {
      PairsAt(bits, 600, 1200, 0);
      assert times[1] == p[2 * 0];
    }
    hide Word, Pairs, Times;
    forall i | 0 <= i < |seen|
      ensures seen[i] < U32
    {
      assert times[i] <= 16 * 562;
    }
  }

  lemma {:induction false} PairsBounded(bits: seq<bool>, base: nat, long: nat)
    requires base <= long
    ensures forall i :: 0 <= i < |Pairs(bits, base, long)| ==> base <= Pairs(bits, base, long)[i] <= long
  {
    if bits != [] { PairsBounded(bits[1..], base, long); }
  }

  lemma DataSynchronises(proto: Protocol, data: seq<byte>, seen: seq<nat>)
    requires !proto.Sony? && |data| == 4
    requires Jittered([proto.SyncMark(), 4496] + Pairs(WordOf(data), 562, 1686) + [562], seen, 280)
    ensures Synchronising(proto, seen)
  {
    var p := Pairs(WordOf(data), 562, 1686);
    var times := [proto.SyncMark(), 4496] + p + [562];
    PairsBounded(WordOf(data), 562, 1686);
    JitteredCarries(proto, data, seen);
    hide Pairs, WordOf;
    forall i | 0 <= i < |seen|
      ensures seen[i] < U32
    {
      assert times[i] <= 16 * 562;
    }
  }

  /** A frame of any four bytes, jittered and with bit timeouts between its edges, makes an idle receiver
      report exactly once: the address and the function if the last byte is the complement of the third
      and the address is the receiver's, an error otherwise.
   */
  lemma DataReported(r: Rx, data: seq<byte>, t: nat, seen: seq<nat>, inputs: seq<Input>)
    requires Idle(r) && !r.proto.Sony? && |data| == 4
    requires Jittered([r.proto.SyncMark(), 4496] + Pairs(WordOf(data), 562, 1686) + [562], seen, 280)
    requires EdgesOf(inputs) == FrameEdges(t, seen) && Spaced(r, inputs)
    ensures var addr := AddressIn(r.proto, data);
            Run(r, inputs).calls
            == [if data[3] == 255 - data[2] && (r.address == 0xffff || r.address == addr)
                then Received(t + Sum(seen), addr, data[2]) else Failed]
    ensures Idle(Run(r, inputs).rx)
  {
    hide Decode, Step, FrameEdges, Synchronising, Sum, Pairs, WordOf, Jittered, EdgesOf, Spaced, Run, Carries;
    DataSynchronises(r.proto, data, seen);
    JitteredCarries(r.proto, data, seen);
    DecodeOfData(r.proto, seen, data, r.address);
    FrameRun(r, t, seen);
    BitTimeoutsHarmless(r, inputs);
    PlainIdle(Run(r, inputs).rx, Run(r, EdgesOf(inputs)).rx);
  }

  /** The reports that `n` messages must cause. */
  predicate AllReceived(calls: seq<Callback>, n: nat, addr: nat, func: nat) {
    |calls| == n && forall c :: c in calls ==> c.Received? && c.addr == addr && c.func == func
  }

  lemma OneMessageReceived(r: Rx, addr: nat, func: nat, t: nat, seen: seq<nat>)
    requires Idle(r) && addr < 0x1_0000 && Accepts(r.address, SentAddress(r.proto, addr))
    requires Jittered(Times(r.proto, addr, func), seen, r.proto.Tolerance())
    ensures var out := Run(r, FrameEdges(t, seen));
            && out.calls == [Received(t + Sum(seen), SentAddress(r.proto, addr), SentFunction(r.proto, func))]
            && Idle(out.rx) && out.rx.proto == r.proto && out.rx.address == r.address
  {
    hide Times, Jittered, SentAddress, SentFunction, Decode, Step, FrameEdges, Synchronising, Sum;
    JitteredSynchronises(r.proto, addr, func, seen);
    DecodeTimes(r.proto, addr, func, seen, r.address);
    FrameRun(r, t, seen);
  }

  /** End to end: however often the same message is repeated, whenever the repetitions start,
      and however each duration of each of them is off by no more than the tolerance, an idle
      receiver for the address reports it exactly once per repetition.
   */
  lemma {:induction false} MessagesReceived(r: Rx, addr: nat, func: nat, starts: seq<nat>, seen: seq<seq<nat>>)
    requires Idle(r) && addr < 0x1_0000 && |starts| == |seen|
    requires Accepts(r.address, SentAddress(r.proto, addr))
    requires forall d :: d in seen ==> Jittered(Times(r.proto, addr, func), d, r.proto.Tolerance())
    ensures var out := Run(r, Seen(starts, seen));
            && AllReceived(out.calls, |starts|, SentAddress(r.proto, addr), SentFunction(r.proto, func))
            && Idle(out.rx) && out.rx.proto == r.proto && out.rx.address == r.address
    decreases |starts|
  {
    hide Times, Jittered, SentAddress, SentFunction, Idle, Step, FrameEdges, Sum, Accepts;
    if starts != [] {
      assert seen[0] in seen;
      OneMessageReceived(r, addr, func, starts[0], seen[0]);
      var first := Run(r, FrameEdges(starts[0], seen[0]));
      MessagesReceived(first.rx, addr, func, starts[1..], seen[1..]);
      RunConcat(r, FrameEdges(starts[0], seen[0]), Seen(starts[1..], seen[1..]));
    }
  }

  function LevelAfter(level: bool, segments: seq<Segment>): bool {
    if segments == [] then level else segments[|segments| - 1].on
  }

  lemma DurationFirst(a: seq<Segment>)
    requires a != []
    ensures Duration(a) == a[0].duration + Duration(a[1..])
  {
    DurationOfConcat([a[0]], a[1..]);
    assert [a[0]] + a[1..] == a && [a[0]][..0] == [];
  }

  lemma WaveUnfold(t: nat, level: bool, s: Segment, later: seq<Segment>)
    ensures WaveEdges(t, level, [s] + later)
            == EdgeIf(s.on != level, t, level) + WaveEdges(t + s.duration, s.on, later)
  {
    assert ([s] + later)[1..] == later;
  }

  lemma {:induction false} WaveConcat(t: nat, level: bool, a: seq<Segment>, b: seq<Segment>)
    ensures WaveEdges(t, level, a + b)
            == WaveEdges(t, level, a) + WaveEdges(t + Duration(a), LevelAfter(level, a), b)
    decreases |a|
  {
    hide Duration, WaveEdges, EdgeIf;
    if a == [] {
      WaveNone(t, level);
      assert a + b == b;
      assert [] + WaveEdges(t, level, b) == WaveEdges(t, level, b);
    } else {
      WaveConcatStep(t, level, a, b);
      var s, rest := a[0], a[1..];
      WaveConcat(t + s.duration, s.on, rest, b);
      var head, first := EdgeIf(s.on != level, t, level), WaveEdges(t + s.duration, s.on, rest);
      var last := WaveEdges(t + Duration(a), LevelAfter(level, a), b);
      assert head + (first + last) == head + first + last;
    }
  }

  lemma WaveNone(t: nat, level: bool)
    ensures WaveEdges(t, level, []) == [] && Duration([]) == 0
  {
  }

  lemma WaveConcatStep(t: nat, level: bool, a: seq<Segment>, b: seq<Segment>)
    requires a != []
    ensures var s, rest := a[0], a[1..];
            && WaveEdges(t, level, a) == EdgeIf(s.on != level, t, level) + WaveEdges(t + s.duration, s.on, rest)
            && WaveEdges(t, level, a + b) == EdgeIf(s.on != level, t, level) + WaveEdges(t + s.duration, s.on, rest + b)
            && t + Duration(a) == t + s.duration + Duration(rest)
            && LevelAfter(level, a) == LevelAfter(s.on, rest)
  {
    hide Duration, WaveEdges, EdgeIf;
    var s, rest := a[0], a[1..];
    DurationFirst(a);
    assert a == [s] + rest && a + b == [s] + (rest + b);
    WaveUnfold(t, level, s, rest);
    WaveUnfold(t, level, s, rest + b);
  }

  lemma {:induction false} WaveMarks(t: nat, times: seq<nat>, i: nat)
    requires i <= |times|
    ensures WaveEdges(t + Sum(times[..i]), i % 2 == 1, Marks(times, i)) == FrameEdges(t, times)[i..|times|]
    decreases |times| - i
  {
    hide Sum, FrameEdges, WaveEdges, Marks;
    var e := FrameEdges(t, times);
    if i < |times| {
      var m := Marks(times, i);
      assert m == [Segment(i % 2 == 0, times[i])] + Marks(times, i + 1);
      SumNext(times, i);
      WaveMarks(t, times, i + 1);
      WaveUnfold(t + Sum(times[..i]), i % 2 == 1, m[0], m[1..]);
      assert m[1..] == Marks(times, i + 1) && [m[0]] + m[1..] == m;
      assert e[i] == Edge(t + Sum(times[..i]), i % 2 == 1);
      assert e[i..|times|] == [e[i]] + e[i + 1..|times|];
    } else {
      WaveNone(t + Sum(times[..i]), i % 2 == 1);
      assert Marks(times, i) == [];
    }
  }

  /** Once off, the light shows no edge until it is switched on. */
  lemma WaveOff(t: nat, pause: nat, later: seq<Segment>)
    requires later == [] || later == [Segment(false, 1)]
    ensures WaveEdges(t, true, [Segment(false, pause)] + later) == [Edge(t, true)]
  {
    var tail := [Segment(false, pause)] + later;
    assert tail[1..] == later;
    assert WaveEdges(t + pause, false, later) == [] by {
      if later != [] { assert later[1..] == []; }
    }
  }

  /** The light of one message, whose last duration is a mark, has exactly the edges of the message. */
  lemma WaveFrame(t: nat, times: seq<nat>, interval: nat, more: bool)
    requires |times| % 2 == 1
    ensures WaveEdges(t, false, Frame(times, interval, more)) == FrameEdges(t, times)
    ensures !LevelAfter(false, Frame(times, interval, more))
  {
    hide Sum, Pause, FrameEdges, Marks, WaveEdges;
    var n, marks, e := |times|, Marks(times, 0), FrameEdges(t, times);
    var pause, later := Segment(false, Pause(times, interval, more)), if more then [Segment(false, 1)] else [];
    assert Frame(times, interval, more) == marks + ([pause] + later);
    assert times[..n] == times && e[..0] == [];
    SumOfNone(times);
    WaveMarks(t, times, 0);
    WaveConcat(t, false, marks, [pause] + later);
    DurationOfMarks(times);
    assert LevelAfter(false, marks);
    WaveOff(t + Sum(times), pause.duration, later);
    assert e[0..n] == e[..n] && e[..n + 1] == e;
    EdgeOfFrame(t, times, n);
  }

  /** The start times and durations of an undisturbed transmission. */
  function Starts(t: nat, period: nat, count: nat): (r: seq<nat>)
    ensures |r| == count
    decreases count
  {
    if count == 0 then [] else [t] + Starts(t + period, period, count - 1)
  }

  function Copies(times: seq<nat>, count: nat): (r: seq<seq<nat>>)
    ensures |r| == count && forall d :: d in r ==> d == times
  {
    if count == 0 then [] else [times] + Copies(times, count - 1)
  }

  /** What the transmitter's light shows: the message, `repeats + 1` times, one interval apart. */
  lemma {:induction false} WaveSchedule(t: nat, times: seq<nat>, interval: nat, repeats: nat)
    requires |times| % 2 == 1 && Sum(times) + 2 <= interval * 1000
    ensures WaveEdges(t, false, Schedule(times, interval, repeats))
            == Seen(Starts(t, interval * 1000, repeats + 1), Copies(times, repeats + 1))
    decreases repeats
  {
    hide Frame, FrameEdges, Sum;
    var period, n := interval * 1000, repeats + 1;
    assert Starts(t, period, n)[1..] == Starts(t + period, period, n - 1);
    assert Copies(times, n)[1..] == Copies(times, n - 1);
    WaveFrame(t, times, interval, repeats > 0);
    if repeats == 0 {
      assert Seen(Starts(t, period, n)[1..], Copies(times, n)[1..]) == [];
    } else {
      RepeatPeriod(times, interval);
      WaveConcat(t, false, Frame(times, interval, true), Schedule(times, interval, repeats - 1));
      WaveSchedule(t + period, times, interval, repeats - 1);
    }
  }

  lemma IdleShape(r: Rx)
    requires Idle(r)
    ensures Shape(r) && r.sync == 0
  {
  }

  /** The whole link. The light of a transmission shows the message `MinimumRepeats + 1` times, one
      repeat interval apart; and seen through any jitter within the tolerance, at whatever times
      the repetitions arrive, and with bit timeouts between the edges, it makes an idle receiver
      report the message that many times.
   */
  lemma EndToEnd(r: Rx, addr: nat, func: nat, t: nat, starts: seq<nat>, seen: seq<seq<nat>>, inputs: seq<Input>)
    requires Idle(r) && addr < 0x1_0000 && (r.proto.Sony? ==> r.proto.addressSize + r.proto.valueSize <= 20)
    requires Accepts(r.address, SentAddress(r.proto, addr))
    requires |starts| == |seen| == MinimumRepeats(r.proto) + 1
    requires forall d :: d in seen ==> Jittered(Times(r.proto, addr, func), d, r.proto.Tolerance())
    requires EdgesOf(inputs) == Seen(starts, seen) && Spaced(r, inputs)
    ensures var times, interval, n := Times(r.proto, addr, func), RepeatInterval(r.proto), MinimumRepeats(r.proto);
            && WaveEdges(t, false, Play(Led(times, interval, 0, n, false)).segments)
               == Seen(Starts(t, interval * 1000, n + 1), Copies(times, n + 1))
            && n + 1 == (if r.proto.Sony? then 3 else 1) && interval == (if r.proto.Sony? then 45 else 110)
            && AllReceived(Run(r, inputs).calls, n + 1, SentAddress(r.proto, addr), SentFunction(r.proto, func))
  {
    hide Jittered, SentAddress, SentFunction, Step, FrameEdges, Sum, Accepts, Run, Seen, WaveEdges, Play, Schedule;
    hide Pairs, WordOf, Idle, Shape, EdgesOf, Spaced;
    var times := Times(r.proto, addr, func);
    EncodingFits(r.proto, addr, func);
    assert |times| % 2 == 1;
    hide Times, Positive;
    PlaySchedule(Led(times, RepeatInterval(r.proto), 0, MinimumRepeats(r.proto), false));
    WaveSchedule(t, times, RepeatInterval(r.proto), MinimumRepeats(r.proto));
    MessagesReceived(r, addr, func, starts, seen);
    IdleShape(r);
    BitTimeoutsHarmless(r, inputs);
  }

  /** The windows of the synchronisation pair. */
  predicate IsSyncMark(proto: Protocol, mark: nat) {
    match proto
    case Nec => 8711 < mark < 9273
    case Samsung => 4215 < mark < 4777
    case Sony(_, _) => 2100 < mark < 2700
  }

  predicate IsSyncSpace(proto: Protocol, space: nat) {
    if proto.Sony? then 300 < space < 900 else 4215 < space < 4777
  }

  /** Exactly which pairs synchronise: an idle receiver that sees a mark and a space begins to collect if
      and only if both are in their windows, and is idle otherwise; and it reports a repeat if and only
      if it is for NEC, the mark is in its window and the space in that of the repeat code.
   */
  lemma SyncIff(r: Rx, t1: nat, t2: nat, t3: nat)
    requires Idle(r)
    ensures var mark, space := Interval(t1, t2), Interval(t2, t3);
            var out := Run(r, [Edge(t1, false)] + [Edge(t2, true)] + [Edge(t3, false)]);
            && (out.rx.sync == 2 <==> IsSyncMark(r.proto, mark) && IsSyncSpace(r.proto, space))
            && (out.rx.sync == 2 ==> out.rx.pulses == [mark, space])
            && (out.rx.sync != 2 ==> Idle(out.rx))
            && out.calls == if r.proto.Nec? && IsSyncMark(r.proto, mark) && 1967 < space < 2529
                            then [Callback.Repeated(t3, r.rptAddr, r.rptFunc)] else []
  {
    var (mark, space) := (Interval(t1, t2), Interval(t2, t3));
    Windows(r.proto, mark, space);
    hide Run, StoreTimestamp, Interval, IsSyncMark, IsSyncSpace, Near, Protocol.SyncMark, Protocol.SyncSpace;
    if IsSyncMark(r.proto, mark) {
      SyncFound(r, t1, t2, t3);
      SecondPulse(StartTimeout(r.(pulses := [mark], sync := 1, prevTs := t2)), t3);
    } else {
      SyncMissed(r, t1, t2, t3);
    }
  }

  lemma SyncMissed(r: Rx, t1: nat, t2: nat, t3: nat)
    requires Idle(r) && !Near(r.proto, Interval(t1, t2), r.proto.SyncMark())
    ensures Run(r, [Edge(t1, false)] + [Edge(t2, true)] + [Edge(t3, false)]) == Out(r.(prevTs := t3), [])
  {
    hide Run, StoreTimestamp, Interval, Near, Protocol.SyncMark;
    RunThree(r, t1, t2, t3);
    EdgeIgnored(r, t1, false);
    EdgeIgnored(r.(prevTs := t1), t2, true);
    EdgeIgnored(r.(prevTs := t2), t3, false);
  }

  lemma SyncFound(r: Rx, t1: nat, t2: nat, t3: nat)
    requires Idle(r) && Near(r.proto, Interval(t1, t2), r.proto.SyncMark())
    ensures Run(r, [Edge(t1, false)] + [Edge(t2, true)] + [Edge(t3, false)])
            == StoreTimestamp(StartTimeout(r.(pulses := [Interval(t1, t2)], sync := 1, prevTs := t2)), t3, false)
  {
    hide Run, StoreTimestamp, Interval, Near, Protocol.SyncMark;
    RunThree(r, t1, t2, t3);
    EdgeIgnored(r, t1, false);
    StoreMark(r.(prevTs := t1), t2);
    var r1 := StartTimeout(r.(pulses := [Interval(t1, t2)], sync := 1, prevTs := t2));
    assert [] + [] + StoreTimestamp(r1, t3, false).calls == StoreTimestamp(r1, t3, false).calls;
  }

  lemma RunThree(r: Rx, t1: nat, t2: nat, t3: nat)
    ensures var s1 := StoreTimestamp(r, t1, false);
            var s2 := StoreTimestamp(s1.rx, t2, true);
            var s3 := StoreTimestamp(s2.rx, t3, false);
            Run(r, [Edge(t1, false)] + [Edge(t2, true)] + [Edge(t3, false)])
            == Out(s3.rx, s1.calls + s2.calls + s3.calls)
  {
    var (a, b, c) := (Edge(t1, false), Edge(t2, true), Edge(t3, false));
    hide StoreTimestamp, Run;
    RunNothing(r);
    RunSnoc(r, [], a);
    assert [] + [a] == [a];
    RunSnoc(r, [a], b);
    RunSnoc(r, [a] + [b], c);
    assert [] + StoreTimestamp(r, t1, false).calls == StoreTimestamp(r, t1, false).calls;
  }

  lemma RunNothing(r: Rx)
    ensures Run(r, []) == Out(r, [])
  {
  }

  lemma Windows(proto: Protocol, mark: nat, space: nat)
    ensures IsSyncMark(proto, mark) <==> Near(proto, mark, proto.SyncMark())
    ensures IsSyncSpace(proto, space) <==> Near(proto, space, proto.SyncSpace())
    ensures proto.Nec? ==> (1967 < space < 2529 <==> Near(proto, space, 4 * proto.Base()))
    ensures proto.Nec? && IsSyncSpace(proto, space) ==> !(1967 < space < 2529)
  {
  }

  /** The rising edge after the first pulse. */
  lemma SecondPulse(r: Rx, ts: nat)
    requires r.sync == 1
    ensures var out, space := StoreTimestamp(r, ts, false), Interval(r.prevTs, ts);
            if Near(r.proto, space, r.proto.SyncSpace())
            then out == Out(r.(pulses := r.pulses + [space], sync := 2, prevTs := ts), [])
            else out == Out(Reset(r).(prevTs := ts),
                            if r.proto.Nec? && Near(r.proto, space, 4 * r.proto.Base())
                            then [Callback.Repeated(ts, r.rptAddr, r.rptFunc)] else [])
  {
    hide Near, Interval, Decode, Protocol.SyncSpace;
  }

  predicate SameKind(a: Protocol, b: Protocol) {
    a.Nec? == b.Nec? && a.Samsung? == b.Samsung?
  }

  /** No mark of one protocol can be taken for the synchronisation mark of another. */
  predicate NoSyncMark(proto: Protocol, durations: seq<nat>) {
    forall i :: 0 <= i < |durations| && i % 2 == 0 ==>
      durations[i] < U32 && !Near(proto, durations[i], proto.SyncMark())
  }

  lemma MarksDiffer(mine: Protocol, other: Protocol, addr: nat, func: nat, seen: seq<nat>)
    requires addr < 0x1_0000 && !SameKind(mine, other)
    requires Jittered(Times(other, addr, func), seen, other.Tolerance())
    ensures NoSyncMark(mine, seen)
  {
    var times, bits, base := Times(other, addr, func), Word(other, addr, func), other.Base();
    var long := if other.Sony? then 1200 else 1686;
    var p := Pairs(bits, base, long);
    assert times == (if other.Sony? then [other.SyncMark()] + p
                     else [other.SyncMark(), other.SyncSpace()] + p + [base]);
    hide Times, Pairs, Word;
    forall i | 0 <= i < |seen| && i % 2 == 0
      ensures times[i] == other.SyncMark() || times[i] == base || (other.Sony? && times[i] == 1200)
    {
      if i > 0 && (other.Sony? || i < |times| - 1) {
        PairsAt(bits, base, long, i / 2 - 1);
        assert times[i] == p[if other.Sony? then i - 1 else i - 2];
      }
    }
  }

  lemma {:induction false} FrameIgnored(r: Rx, t: nat, durations: seq<nat>, j: nat)
    requires Idle(r) && NoSyncMark(r.proto, durations) && j <= |durations|
    ensures Run(r, FrameEdges(t, durations)[..j + 1]) == Out(r.(prevTs := t + Sum(durations[..j])), [])
    decreases j
  {
    hide StoreTimestamp, NoSyncMark, FrameEdges, Sum, Idle;
    var edges := FrameEdges(t, durations);
    var ts, falling := t + Sum(durations[..j]), j % 2 == 1;
    EdgeOfFrame(t, durations, j);
    RunSnoc(r, edges[..j], Edge(ts, falling));
    IdleIs(r);
    if j == 0 {
      SumOfNone(durations);
      assert edges[..0] == [];
      EdgeIgnored(r, t, false);
    } else {
      FrameIgnored(r, t, durations, j - 1);
      hide Run;
      if falling {
        MarkAt(r.proto, durations, j - 1);
        NextInterval(t, durations, j - 1);
      }
      EdgeIgnored(r.(prevTs := t + Sum(durations[..j - 1])), ts, falling);
    }
  }

  lemma IdleIs(r: Rx)
    requires Idle(r)
    ensures r.sync == 0 && r.pulses == []
  {
  }

  lemma MarkAt(proto: Protocol, durations: seq<nat>, i: nat)
    requires NoSyncMark(proto, durations) && i < |durations| && i % 2 == 0
    ensures durations[i] < U32 && !Near(proto, durations[i], proto.SyncMark())
  {
  }

  lemma EdgeIgnored(r: Rx, ts: nat, falling: bool)
    requires r.sync == 0 && r.pulses == []
    requires falling ==> !Near(r.proto, Interval(r.prevTs, ts), r.proto.SyncMark())
    ensures StoreTimestamp(r, ts, falling) == Out(r.(prevTs := ts), [])
  {
    hide Near, Interval;
  }

  /** A message of the protocol, or NEC's repeat code, jittered within the protocol's tolerance. */
  ghost predicate FrameOf(proto: Protocol, seen: seq<nat>) {
    || (exists addr: nat, func: nat :: addr < 0x1_0000 && Jittered(Times(proto, addr, func), seen, proto.Tolerance()))
    || (proto.Nec? && Jittered(REPEAT_CODE, seen, proto.Tolerance()))
  }

  lemma ForeignMarks(mine: Protocol, other: Protocol, seen: seq<nat>)
    requires !SameKind(mine, other) && FrameOf(other, seen)
    ensures NoSyncMark(mine, seen)
  {
    if other.Nec? && Jittered(REPEAT_CODE, seen, other.Tolerance()) {
      var code := REPEAT_CODE;
      assert code[0] == 8992 && code[2] == 562;
    } else {
      hide Jittered, Times, NoSyncMark;
      var addr: nat, func: nat :| addr < 0x1_0000 && Jittered(Times(other, addr, func), seen, other.Tolerance());
      MarksDiffer(mine, other, addr, func, seen);
    }
  }

  /** After every single edge of foreign frames the receiver is idle and has reported nothing. */
  lemma {:induction false} ForeignEdges(r: Rx, other: Protocol, starts: seq<nat>, seen: seq<seq<nat>>, m: nat)
    requires Idle(r) && !SameKind(r.proto, other) && |starts| == |seen| && m <= |Seen(starts, seen)|
    requires forall d :: d in seen ==> FrameOf(other, d)
    ensures var out := Run(r, Seen(starts, seen)[..m]); out.calls == [] && Idle(out.rx)
    decreases |seen|
  {
    hide FrameOf, Step, Run, FrameEdges, Sum, NoSyncMark;
    RunNothing(r);
    if m > 0 {
      assert seen[0] in seen;
      ForeignMarks(r.proto, other, seen[0]);
      var edges, later := FrameEdges(starts[0], seen[0]), Seen(starts[1..], seen[1..]);
      if m <= |edges| {
        FrameIgnored(r, starts[0], seen[0], m - 1);
        assert (edges + later)[..m] == edges[..m];
      } else {
        FrameIgnored(r, starts[0], seen[0], |seen[0]|);
        assert edges[..|seen[0]| + 1] == edges;
        ForeignEdges(Run(r, edges).rx, other, starts[1..], seen[1..], m - |edges|);
        assert (edges + later)[..m] == edges + later[..m - |edges|];
        RunConcat(r, edges, later[..m - |edges|]);
      }
    }
  }

  /** Discrimination: an idle receiver sees any number of messages and repeat codes of another
      protocol, jittered and with bit timeouts between the edges, and after every one of these
      inputs it has reported nothing and is idle: it never takes a mark for its own.
   */
  lemma OtherProtocolIgnored(r: Rx, other: Protocol, starts: seq<nat>, seen: seq<seq<nat>>, inputs: seq<Input>,
                             n: nat)
    requires Idle(r) && !SameKind(r.proto, other) && |starts| == |seen|
    requires forall d :: d in seen ==> FrameOf(other, d)
    requires EdgesOf(inputs) == Seen(starts, seen) && Spaced(r, inputs) && n <= |inputs|
    ensures Run(r, inputs[..n]).calls == [] && Idle(Run(r, inputs[..n]).rx)
  {
    hide FrameOf, Step, Run, Seen, EdgesOf, Spaced, Idle, Shape, Plain;
    IdleShape(r);
    SpacedPrefix(r, inputs, n);
    EdgesPrefix(inputs, n);
    var edges := EdgesOf(inputs[..n]);
    assert edges == Seen(starts, seen)[..|edges|];
    ForeignEdges(r, other, starts, seen, |edges|);
    BitTimeoutsHarmless(r, inputs[..n]);
    PlainIdle(Run(r, inputs[..n]).rx, Run(r, edges).rx);
  }

  lemma PlainIdle(a: Rx, b: Rx)
    requires Idle(b) && Plain(a) == Plain(b) && Shape(a)
    ensures Idle(a)
  {
  }

  lemma StoreRepeat(r: Rx, ts: nat)
    requires r.sync == 1 && r.proto.Nec? && Near(r.proto, Interval(r.prevTs, ts), 4 * r.proto.Base())
    ensures StoreTimestamp(r, ts, false) == Out(Reset(r).(prevTs := ts), [Repeated(ts, r.rptAddr, r.rptFunc)])
  {
    hide Interval;
  }

  lemma FourEdges(t: nat, seen: seq<nat>)
    requires |seen| == 3
    ensures FrameEdges(t, seen) == [Edge(t, false)] + [Edge(t + Sum(seen[..1]), true)]
                                   + [Edge(t + Sum(seen[..2]), false)] + [Edge(t + Sum(seen[..3]), true)]
  {
    hide Sum, FrameEdges;
    var e := FrameEdges(t, seen);
    SumOfNone(seen);
    EdgeOfFrame(t, seen, 0);
    EdgeOfFrame(t, seen, 1);
    EdgeOfFrame(t, seen, 2);
    EdgeOfFrame(t, seen, 3);
    assert e[..0] == [] && e[..4] == e;
  }

  lemma RepeatEdges(r: Rx, t0: nat, t1: nat, t2: nat, t3: nat)
    requires Idle(r) && r.proto.Nec?
    requires Near(Nec, Interval(t0, t1), Nec.SyncMark()) && Near(Nec, Interval(t1, t2), 4 * Nec.Base())
    requires !Near(Nec, Interval(t2, t3), Nec.SyncMark())
    ensures var out := Run(r, [Edge(t0, false)] + [Edge(t1, true)] + [Edge(t2, false)] + [Edge(t3, true)]);
            && out.calls == [Repeated(t2, r.rptAddr, r.rptFunc)]
            && Idle(out.rx) && out.rx.rptAddr == r.rptAddr && out.rx.rptFunc == r.rptFunc
  {
    hide StoreTimestamp, Near, Interval, Run, Protocol.SyncMark;
    RunFour(r, [Edge(t0, false)] + [Edge(t1, true)] + [Edge(t2, false)] + [Edge(t3, true)],
            Edge(t0, false), Edge(t1, true), Edge(t2, false), Edge(t3, true));
    EdgeIgnored(r, t0, false);
    var r0 := r.(prevTs := t0);
    StoreMark(r0, t1);
    var r1 := StartTimeout(r0.(pulses := [Interval(t0, t1)], sync := 1, prevTs := t1));
    StoreRepeat(r1, t2);
    EdgeIgnored(Reset(r1).(prevTs := t2), t3, true);
  }

  lemma RepeatIntervals(t: nat, seen: seq<nat>)
    requires Jittered(REPEAT_CODE, seen, 280)
    ensures |seen| == 3
    ensures Near(Nec, Interval(t, t + Sum(seen[..1])), Nec.SyncMark())
    ensures Near(Nec, Interval(t + Sum(seen[..1]), t + Sum(seen[..2])), 4 * Nec.Base())
    ensures !Near(Nec, Interval(t + Sum(seen[..2]), t + Sum(seen[..3])), Nec.SyncMark())
  {
    var code := REPEAT_CODE;
    assert code[0] == 8992 && code[1] == 2248 && code[2] == 562;
    hide Interval, Sum;
    SumOfNone(seen);
    NextInterval(t, seen, 0);
    NextInterval(t, seen, 1);
    NextInterval(t, seen, 2);
  }

  /** A repeat code makes an idle receiver report the last message again, once. */
  lemma RepeatReceived(r: Rx, t: nat, seen: seq<nat>)
    requires Idle(r) && r.proto.Nec? && Jittered(REPEAT_CODE, seen, r.proto.Tolerance())
    ensures var out := Run(r, FrameEdges(t, seen));
            && out.calls == [Repeated(t + Sum(seen[..2]), r.rptAddr, r.rptFunc)]
            && Idle(out.rx) && out.rx.rptAddr == r.rptAddr && out.rx.rptFunc == r.rptFunc
  {
    hide Jittered, Near, Interval, FrameEdges, Sum, Run, Idle, Protocol.SyncMark;
    RepeatIntervals(t, seen);
    FourEdges(t, seen);
    RepeatEdges(r, t, t + Sum(seen[..1]), t + Sum(seen[..2]), t + Sum(seen[..3]));
  }

  lemma RunFour(r: Rx, e: seq<Input>, a: Input, b: Input, c: Input, d: Input)
    requires e == [a] + [b] + [c] + [d]
    ensures var s1 := Step(r, a);
            var s2 := Step(s1.rx, b);
            var s3 := Step(s2.rx, c);
            var s4 := Step(s3.rx, d);
            Run(r, e) == Out(s4.rx, s1.calls + s2.calls + s3.calls + s4.calls)
  {
    hide Step;
    RunSnoc(r, [], a);
    assert [] + [a] == [a];
    RunSnoc(r, [a], b);
    RunSnoc(r, [a] + [b], c);
    RunSnoc(r, [a] + [b] + [c], d);
  }

  /** A message and the repeat code after it: the repeat carries the message's address and function. */
  lemma RepeatAfterMessage(r: Rx, addr: nat, func: nat, t: nat, message: seq<nat>, later: nat, repeat: seq<nat>,
                           inputs: seq<Input>)
    requires Idle(r) && r.proto.Nec? && addr < 0x1_0000 && Accepts(r.address, SentAddress(r.proto, addr))
    requires Jittered(Times(r.proto, addr, func), message, r.proto.Tolerance())
    requires Jittered(REPEAT_CODE, repeat, r.proto.Tolerance())
    requires EdgesOf(inputs) == FrameEdges(t, message) + FrameEdges(later, repeat) && Spaced(r, inputs)
    ensures var a, f := SentAddress(r.proto, addr), SentFunction(r.proto, func);
            Run(r, inputs).calls == [Received(t + Sum(message), a, f), Repeated(later + Sum(repeat[..2]), a, f)]
  {
    IdleShape(r);
    hide Times, Jittered, SentAddress, SentFunction, Decode, Run, FrameEdges, Synchronising, Sum, EdgesOf, Spaced;
    hide Shape;
    JitteredSynchronises(r.proto, addr, func, message);
    DecodeTimes(r.proto, addr, func, message, r.address);
    FrameRun(r, t, message);
    RunConcat(r, FrameEdges(t, message), FrameEdges(later, repeat));
    RepeatReceived(Run(r, FrameEdges(t, message)).rx, later, repeat);
    BitTimeoutsHarmless(r, inputs);
  }
}
