/** The transmitter: an alarm machine that plays a list of on/off durations, pads it to the
    repeat interval and repeats it.
 */
module IrLed {
  import opened IrProtocol

  /** The transmitter's fields. `interval` is in milliseconds. */
  datatype Led = Led(times: seq<nat>, interval: nat, outIndex: nat, repeats: nat, duty: bool)
  {
    predicate Valid() { outIndex <= |times| + 1 }
  }

  /** The outcome of one alarm: the time to the next one, or 0 when the message is done. */
  datatype Next = Next(led: Led, delay: nat, done: bool)

  function Sum(s: seq<nat>): nat {
    if s == [] then 0 else Sum(s[..|s| - 1]) + s[|s| - 1]
  }

  function Pause(times: seq<nat>, interval: nat, more: bool): nat {
    var pause := interval * 1000 - Sum(times) - (if more then 1 else 0);
    if pause < 1 then 1 else pause
  }

  function SetNext(l: Led): (next: Next)
    requires l.Valid()
    ensures next.led.Valid() && (next.done <==> next.delay == 0)
  {
    var n := |l.times|;
    if l.outIndex < n && l.times[l.outIndex] > 0 then
      Next(l.(duty := l.outIndex % 2 == 0, outIndex := l.outIndex + 1), l.times[l.outIndex], false)
    else
      var at := if l.outIndex < n then l.outIndex + 1 else l.outIndex;
      var off := l.(duty := false, outIndex := at);
      if at == n then Next(off.(outIndex := n + 1), Pause(l.times, l.interval, l.repeats > 0), false)
      else if at > n && l.repeats > 0 then Next(off.(repeats := l.repeats - 1, outIndex := 0), 1, false)
      else Next(off, 0, true)
  }

  datatype Segment = Segment(on: bool, duration: nat)

  /** Everything that the alarms do until one of them returns 0. */
  datatype Played = Played(segments: seq<Segment>, led: Led, done: nat)

  function Before(s: Segment, p: Played): Played {
    p.(segments := [s] + p.segments)
  }

  function Play(l: Led): Played
    requires l.Valid()
    decreases l.repeats, |l.times| + 1 - l.outIndex
  {
    var next := SetNext(l);
    if next.delay == 0 then Played([], next.led, if next.done then 1 else 0)
    else Before(Segment(next.led.duty, next.delay), Play(next.led))
  }

  predicate Positive(times: seq<nat>) {
    forall i :: 0 <= i < |times| ==> times[i] > 0
  }

  /** The durations from index `from` on, as on and off segments. */
  function Marks(times: seq<nat>, from: nat): (r: seq<Segment>)
    requires from <= |times|
    ensures |r| == |times| - from
    ensures forall i :: 0 <= i < |r| ==> r[i] == Segment((from + i) % 2 == 0, times[from + i])
  {
    seq(|times| - from, i requires 0 <= i < |times| - from => Segment((from + i) % 2 == 0, times[from + i]))
  }

  /** One message followed by its pause; unless it is the last one, the restart takes one more microsecond. */
  function Frame(times: seq<nat>, interval: nat, more: bool): seq<Segment> {
    Marks(times, 0) + [Segment(false, Pause(times, interval, more))] + (if more then [Segment(false, 1)] else [])
  }

  /** The message and `repeats` repetitions of it. */
  function Schedule(times: seq<nat>, interval: nat, repeats: nat): seq<Segment> {
    if repeats == 0 then Frame(times, interval, false)
    else Frame(times, interval, true) + Schedule(times, interval, repeats - 1)
  }

  function Duration(s: seq<Segment>): nat {
    if s == [] then 0 else Duration(s[..|s| - 1]) + s[|s| - 1].duration
  }

  function After(segments: seq<Segment>, p: Played): Played {
    p.(segments := segments + p.segments)
  }

  lemma PlayOne(l: Led)
    requires l.outIndex < |l.times| && l.times[l.outIndex] > 0
    ensures var on := l.outIndex % 2 == 0;
            Play(l) == Before(Segment(on, l.times[l.outIndex]), Play(l.(outIndex := l.outIndex + 1, duty := on)))
  {
  }

  /** The alarms from index `outIndex` to the end of the durations. */
  lemma {:induction false} PlayMarks(l: Led)
    requires l.outIndex < |l.times| && Positive(l.times)
    ensures var end := l.(outIndex := |l.times|, duty := (|l.times| - 1) % 2 == 0);
            Play(l) == After(Marks(l.times, l.outIndex), Play(end))
    decreases |l.times| - l.outIndex
  {
    hide Play, Positive;
    var s := Segment(l.outIndex % 2 == 0, l.times[l.outIndex]);
    var next := l.(outIndex := l.outIndex + 1, duty := s.on);
    PositiveAt(l.times, l.outIndex);
    PlayOne(l);
    assert Marks(l.times, l.outIndex) == [s] + Marks(l.times, next.outIndex);
    if next.outIndex < |l.times| {
      PlayMarks(next);
      var end := next.(outIndex := |l.times|, duty := (|l.times| - 1) % 2 == 0);
      assert [s] + (Marks(l.times, next.outIndex) + Play(end).segments)
             == Marks(l.times, l.outIndex) + Play(end).segments;
    }
  }

  lemma PositiveAt(times: seq<nat>, i: nat)
    requires Positive(times) && i < |times|
    ensures times[i] > 0
  {
  }

  lemma PlayPause(l: Led)
    requires l.outIndex == |l.times| > 0
    ensures var pause := Segment(false, Pause(l.times, l.interval, l.repeats > 0));
            if l.repeats == 0 then Play(l) == Played([pause], l.(outIndex := |l.times| + 1, duty := false), 1)
            else Play(l) == After([pause, Segment(false, 1)],
                                  Play(l.(outIndex := 0, duty := false, repeats := l.repeats - 1)))
  {
    var over := l.(outIndex := |l.times| + 1, duty := false);
    var pause := Segment(false, Pause(l.times, l.interval, l.repeats > 0));
    assert Play(l) == Before(pause, Play(over));
    if l.repeats > 0 {
      var again := l.(outIndex := 0, duty := false, repeats := l.repeats - 1);
      assert Play(over) == Before(Segment(false, 1), Play(again));
      assert [pause] + ([Segment(false, 1)] + Play(again).segments)
             == [pause, Segment(false, 1)] + Play(again).segments;
    } else {
      assert Play(over) == Played([], over, 1);
    }
  }

  /** The whole transmission: the message is emitted exactly `repeats + 1` times, the output ends
      off, and the done callback comes exactly once.
   */
  lemma {:induction false} PlaySchedule(l: Led)
    requires l.outIndex == 0 && |l.times| > 0 && Positive(l.times)
    ensures Play(l) == Played(Schedule(l.times, l.interval, l.repeats),
                              l.(outIndex := |l.times| + 1, repeats := 0, duty := false), 1)
    decreases l.repeats
  {
    hide Play, Marks, Pause, Positive;
    PlayMarks(l);
    var end := l.(outIndex := |l.times|, duty := (|l.times| - 1) % 2 == 0);
    PlayPause(end);
    var marks, pause := Marks(l.times, 0), Segment(false, Pause(l.times, l.interval, l.repeats > 0));
    if l.repeats > 0 {
      var again := l.(duty := false, repeats := l.repeats - 1);
      PlaySchedule(again);
      var rest := Play(again).segments;
      assert marks + ([pause, Segment(false, 1)] + rest) == marks + [pause] + [Segment(false, 1)] + rest;
    } else {
      assert marks + [pause] + [] == marks + [pause];
    }
  }

  lemma {:induction false} DurationOfConcat(a: seq<Segment>, b: seq<Segment>)
    ensures Duration(a + b) == Duration(a) + Duration(b)
  {
    if b == [] {
      assert a + b == a;
    } else {
      assert (a + b)[..|a + b| - 1] == a + b[..|b| - 1];
      DurationOfConcat(a, b[..|b| - 1]);
    }
  }

  lemma {:induction false} DurationOfMarks(times: seq<nat>)
    ensures Duration(Marks(times, 0)) == Sum(times)
  {
    if times != [] {
      var front := times[..|times| - 1];
      assert Marks(times, 0)[..|times| - 1] == Marks(front, 0);
      DurationOfMarks(front);
    }
  }

  /** A repeated message takes exactly the repeat interval if and only if the message leaves
      room for the pause and the restart; else one microsecond for each of them more than it has. The
      last one needs no restart.
   */
  lemma RepeatPeriod(times: seq<nat>, interval: nat)
    ensures Duration(Frame(times, interval, true)) == interval * 1000 <==> Sum(times) + 2 <= interval * 1000
    ensures Sum(times) + 2 > interval * 1000 ==> Duration(Frame(times, interval, true)) == Sum(times) + 2
    ensures Duration(Frame(times, interval, false))
            == if Sum(times) + 1 <= interval * 1000 then interval * 1000 else Sum(times) + 1
  {
    LastPeriod(times, interval);
    var pause := Segment(false, Pause(times, interval, true));
    assert Frame(times, interval, true) == Marks(times, 0) + [pause, Segment(false, 1)];
    DurationOfConcat(Marks(times, 0), [pause, Segment(false, 1)]);
    DurationOfMarks(times);
    assert [pause, Segment(false, 1)][..1] == [pause];
    assert [pause][..0] == [];
  }

  lemma LastPeriod(times: seq<nat>, interval: nat)
    ensures Duration(Frame(times, interval, false))
            == if Sum(times) + 1 <= interval * 1000 then interval * 1000 else Sum(times) + 1
  {
    var pause := Segment(false, Pause(times, interval, false));
    assert Frame(times, interval, false) == Marks(times, 0) + [pause];
    DurationOfConcat(Marks(times, 0), [pause]);
    DurationOfMarks(times);
    assert [pause][..0] == [];
  }

  /** The first `j` of several frames. */
  function Repeated(times: seq<nat>, interval: nat, j: nat): seq<Segment> {
    if j == 0 then [] else Frame(times, interval, true) + Repeated(times, interval, j - 1)
  }

  /** Frame `j` of a transmission starts exactly `j` intervals after the first. */
  lemma {:induction false} FrameStart(times: seq<nat>, interval: nat, repeats: nat, j: nat)
    requires j <= repeats && Sum(times) + 2 <= interval * 1000
    ensures Schedule(times, interval, repeats)
            == Repeated(times, interval, j) + Schedule(times, interval, repeats - j)
    ensures Duration(Repeated(times, interval, j)) == j * (interval * 1000)
    decreases j
  {
    hide Frame;
    var all := Schedule(times, interval, repeats);
    if j == 0 {
      assert [] + all == all;
    } else {
      FrameStart(times, interval, repeats - 1, j - 1);
      RepeatPeriod(times, interval);
      var f, before := Frame(times, interval, true), Repeated(times, interval, j - 1);
      DurationOfConcat(f, before);
      hide Duration, Sum;
      MulStep(j, interval * 1000);
      assert f + (before + Schedule(times, interval, repeats - j))
             == f + before + Schedule(times, interval, repeats - j);
    }
  }

  lemma MulStep(k: nat, x: nat)
    requires k > 0
    ensures k * x == (k - 1) * x + x
  {
  }

  function RepeatInterval(proto: Protocol): nat { if proto.Sony? then 45 else 110 }

  function MinimumRepeats(proto: Protocol): nat { if proto.Sony? then 2 else 0 }

  lemma {:induction false} SumOfConcat(a: seq<nat>, b: seq<nat>)
    ensures Sum(a + b) == Sum(a) + Sum(b)
  {
    if b == [] {
      assert a + b == a;
    } else {
      assert (a + b)[..|a + b| - 1] == a + b[..|b| - 1];
      SumOfConcat(a, b[..|b| - 1]);
    }
  }

  lemma {:induction false} SumOfPairs(bits: seq<bool>, base: nat, long: nat)
    requires base <= long
    ensures Sum(Pairs(bits, base, long)) <= |bits| * (base + long)
  {
    if bits == [] {
      assert Pairs(bits, base, long) == [];
    } else {
      var x, rest := if bits[0] then long else base, Pairs(bits[1..], base, long);
      assert Pairs(bits, base, long) == [base] + [x] + rest;
      hide Pairs, Sum;
      SumOfPairs(bits[1..], base, long);
      SumOfConcat([base] + [x], rest);
      SumOfConcat([base], [x]);
      SumOfSingle(base);
      SumOfSingle(x);
      MulStep(|bits|, base + long);
    }
  }

  lemma SumOfSingle(x: nat)
    ensures Sum([x]) == x
  {
    assert [x][..0] == [];
  }

  lemma {:induction false} PairsPositive(bits: seq<bool>, base: nat, long: nat)
    requires 0 < base <= long
    ensures Positive(Pairs(bits, base, long))
  {
    if bits != [] { PairsPositive(bits[1..], base, long); }
  }

  lemma SpacesFit(proto: Protocol, bits: seq<bool>)
    requires !proto.Sony? && |bits| == 32
    ensures var times := [proto.SyncMark(), proto.SyncSpace()] + Pairs(bits, 562, 1686) + [562];
            Positive(times) && Sum(times) + 2 <= 110000
  {
    var p, a, b := Pairs(bits, 562, 1686), [proto.SyncMark()], [proto.SyncSpace()];
    SumOfPairs(bits, 562, 1686);
    PairsPositive(bits, 562, 1686);
    hide Pairs, Sum;
    assert [proto.SyncMark(), proto.SyncSpace()] == a + b;
    SumOfConcat(a + b + p, [562]);
    SumOfConcat(a + b, p);
    SumOfConcat(a, b);
    SumOfSingle(proto.SyncMark());
    SumOfSingle(proto.SyncSpace());
    SumOfSingle(562);
  }

  lemma MarksFit(bits: seq<bool>)
    requires |bits| <= 20
    ensures var times := [2400] + Pairs(bits, 600, 1200);
            Positive(times) && Sum(times) + 2 <= 45000
  {
    var p := Pairs(bits, 600, 1200);
    SumOfPairs(bits, 600, 1200);
    assert Sum(p) <= 20 * 1800;
    PairsPositive(bits, 600, 1200);
    hide Pairs, Sum;
    SumOfConcat([2400], p);
    SumOfSingle(2400);
  }

  /** Every encoding leaves room for its repeat interval. */
  lemma EncodingFits(proto: Protocol, addr: nat, func: nat)
    requires addr < 0x1_0000 && (proto.Sony? ==> proto.addressSize + proto.valueSize <= 20)
    ensures var times := Times(proto, addr, func);
            |times| > 0 && Positive(times) && Sum(times) + 2 <= RepeatInterval(proto) * 1000
  {
    var bits := Word(proto, addr, func);
    hide Pairs, WordOf, Sum, Positive;
    if proto.Sony? {
      MarksFit(bits);
    } else {
      SpacesFit(proto, bits);
    }
  }
}
