/** The edge-driven receiver: synchronisation, pulse collection, timeouts and callbacks.
    `Rx` and the functions on it describe what each interrupt does; the class
    `IrReceiverDevice.Receiver` does it in place.
 */
module IrReceiver {
  import opened Bits
  import opened IrProtocol

  /** The fields of a receiver; `pulses` are the durations stored so far, and a timer is true
      while its alarm is pending.
   */
  datatype Rx = Rx(proto: Protocol, address: nat, msgTimeout: nat, bitTimeout: nat,
                   pulses: seq<nat>, prevTs: nat, sync: nat, rptAddr: nat, rptFunc: nat,
                   msgTimer: bool, bitTimer: bool, prevCount: nat)

  datatype Callback = Received(ts: nat, addr: nat, func: nat)
                    | Repeated(ts: nat, addr: nat, func: nat)
                    | TimedOut(msg: bool, pulses: seq<nat>)
                    | Failed

  /** What the timeout callback answers, if there is one. */
  datatype Reply = NoHandler | Continue | Abandon

  datatype Out = Out(rx: Rx, calls: seq<Callback>)

  function NewReceiver(proto: Protocol, address: nat, msgTimeout: nat, bitTimeout: nat): Rx {
    Rx(proto, address, msgTimeout, bitTimeout, [], 0, 0, 0, 0, false, false, 0)
  }

  function Reset(r: Rx): Rx {
    r.(sync := 0, pulses := [], bitTimer := false, msgTimer := false)
  }

  /** The 32-bit difference of two timestamps. */
  function Interval(prevTs: nat, ts: nat): nat {
    (ts - prevTs) % U32
  }

  datatype Checked = Checked(rx: Rx, store: bool, calls: seq<Callback>)

  function CheckSync(r: Rx, ts: nat, falling: bool): Checked {
    var delta := Interval(r.prevTs, ts);
    if r.sync == 0 then
      if falling && Near(r.proto, delta, r.proto.SyncMark()) then
        Checked(r.(pulses := [delta], sync := 1), false, [])
      else Checked(r.(pulses := []), false, [])
    else if r.sync == 1 then
      if !falling && Near(r.proto, delta, r.proto.SyncSpace()) then
        Checked(r.(pulses := r.pulses + [delta], sync := 2), false, [])
      else
        Checked(Reset(r), false,
                if r.proto.Nec? && !falling && Near(r.proto, delta, 4 * r.proto.Base()) then
                  [Repeated(ts, r.rptAddr, r.rptFunc)]
                else [])
    else Checked(r, r.sync == 2, [])
  }

  function MessageComplete(r: Rx, ts: nat): Out {
    var d := Decode(r.proto, r.pulses, r.address);
    Out(Reset(r.(rptAddr := d.addr, rptFunc := d.func)),
        if d.ok then [Received(ts, d.addr, d.func)] else [Failed])
  }

  function StartTimeout(r: Rx): Rx {
    var m := r.(msgTimer := r.msgTimer || r.msgTimeout > 0);
    if r.bitTimeout > 0 then m.(bitTimer := true, prevCount := |r.pulses|) else m
  }

  /** One edge. `falling` is the end of a mark. */
  function StoreTimestamp(r: Rx, ts: nat, falling: bool): Out {
    var c := CheckSync(r, ts, falling);
    var d := if c.store && |c.rx.pulses| < r.proto.MaxPulses() then
               c.rx.(pulses := c.rx.pulses + [Interval(r.prevTs, ts)])
             else c.rx;
    var e := if c.store && |d.pulses| == r.proto.MaxPulses() then MessageComplete(d, ts) else Out(d, []);
    var f := e.rx.(prevTs := ts);
    Out(if r.sync == 0 && f.sync != 0 then StartTimeout(f) else f, c.calls + e.calls)
  }

  function Timeout(r: Rx, msg: bool, reply: Reply): Out {
    match reply
    case NoHandler => Out(Reset(r), [Failed])
    case Continue => Out(r, [TimedOut(msg, r.pulses)])
    case Abandon => Out(Reset(r), [TimedOut(msg, r.pulses)])
  }

  function TimeoutMsg(r: Rx, reply: Reply): Out {
    var t := Timeout(r, true, reply);
    t.(rx := t.rx.(msgTimer := false))
  }

  function TimeoutBit(r: Rx, reply: Reply): Out {
    var again := r.(bitTimer := r.bitTimer && r.bitTimeout > 0, prevCount := |r.pulses|);
    if r.sync == 0 then Out(r.(bitTimer := false), [])
    else if |r.pulses| == r.prevCount && r.sync == 2 then
      var t := Timeout(r, false, reply);
      if reply.Continue? then t.(rx := again) else t.(rx := t.rx.(bitTimer := false))
    else Out(again, [])
  }

  datatype Input = Edge(ts: nat, falling: bool) | MsgTimeout(reply: Reply) | BitTimeout(reply: Reply)

  function Step(r: Rx, i: Input): Out {
    match i
    case Edge(ts, falling) => StoreTimestamp(r, ts, falling)
    case MsgTimeout(reply) => TimeoutMsg(r, reply)
    case BitTimeout(reply) => TimeoutBit(r, reply)
  }

  function Run(r: Rx, inputs: seq<Input>): Out
    decreases |inputs|
  {
    if inputs == [] then Out(r, []) else
      var before := Run(r, inputs[..|inputs| - 1]);
      var last := Step(before.rx, inputs[|inputs| - 1]);
      Out(last.rx, before.calls + last.calls)
  }

  /** The time of the last edge in a history that started at time 0. */
  function LastEdge(inputs: seq<Input>): nat {
    if inputs == [] then 0
    else if inputs[|inputs| - 1].Edge? then inputs[|inputs| - 1].ts
    else LastEdge(inputs[..|inputs| - 1])
  }

  /** The intervals between the edges of a history. */
  function Intervals(inputs: seq<Input>): seq<nat> {
    if inputs == [] then [] else
      var before, last := inputs[..|inputs| - 1], inputs[|inputs| - 1];
      if last.Edge? then Intervals(before) + [Interval(LastEdge(before), last.ts)] else Intervals(before)
  }

  predicate IsSuffix(s: seq<nat>, of: seq<nat>) {
    |s| <= |of| && of[|of| - |s|..] == s
  }

  /** The stored pulses match the synchronisation state. */
  predicate Shape(r: Rx) {
    && r.proto.Valid() && r.sync <= 2
    && (r.sync == 0 ==> r.pulses == [] && !r.bitTimer)
    && (r.sync == 1 ==> |r.pulses| == 1)
    && (r.sync == 2 ==> 2 <= |r.pulses| < r.proto.MaxPulses())
    && (r.sync >= 1 ==> Near(r.proto, r.pulses[0], r.proto.SyncMark()))
    && (r.sync == 2 ==> Near(r.proto, r.pulses[1], r.proto.SyncSpace()))
  }

  /** The receiver holds exactly the most recent edge intervals. */
  predicate Tracks(r: Rx, inputs: seq<Input>) {
    r.prevTs == LastEdge(inputs) && IsSuffix(r.pulses, Intervals(inputs))
  }

  /** What one edge can do to the stored pulses. */
  lemma EdgeShape(r: Rx, ts: nat, falling: bool)
    requires Shape(r)
    ensures var now, delta := StoreTimestamp(r, ts, falling).rx, Interval(r.prevTs, ts);
            && Shape(now) && now.prevTs == ts && now.proto == r.proto && now.address == r.address
            && (now.pulses == [] || now.pulses == [delta] || now.pulses == r.pulses + [delta])
  {
    hide Near, Decode, Interval, Protocol.SyncMark, Protocol.SyncSpace, Protocol.Base;
    if r.sync == 0 {
    } else if r.sync == 1 {
      assert (r.pulses + [Interval(r.prevTs, ts)])[0] == r.pulses[0];
    } else {
      var s := r.pulses + [Interval(r.prevTs, ts)];
      assert s[0] == r.pulses[0] && s[1] == r.pulses[1];
    }
  }

  lemma TimerShape(r: Rx, i: Input)
    requires Shape(r) && !i.Edge?
    ensures var now := Step(r, i).rx;
            && Shape(now) && now.prevTs == r.prevTs && now.proto == r.proto && now.address == r.address
            && (now.pulses == [] || now.pulses == r.pulses)
  {
    hide Near, Decode, Protocol.MaxPulses;
  }

  lemma SuffixGrows(s: seq<nat>, of: seq<nat>, x: nat)
    requires IsSuffix(s, of)
    ensures IsSuffix(s + [x], of + [x]) && IsSuffix([x], of + [x]) && IsSuffix([], of)
  {
  }

  lemma StepKeeps(r: Rx, inputs: seq<Input>, i: Input)
    requires Shape(r) && Tracks(r, inputs)
    ensures Shape(Step(r, i).rx) && Tracks(Step(r, i).rx, inputs + [i])
    ensures Step(r, i).rx.proto == r.proto && Step(r, i).rx.address == r.address
  {
    hide Shape, StoreTimestamp, TimeoutMsg, TimeoutBit, IsSuffix;
    var now := inputs + [i];
    assert now[..|now| - 1] == inputs;
    if i.Edge? {
      EdgeShape(r, i.ts, i.falling);
    } else {
      TimerShape(r, i);
    }
    SuffixGrows(r.pulses, Intervals(inputs), Interval(r.prevTs, if i.Edge? then i.ts else 0));
    if i.Edge? {
      SuffixGrows([], Intervals(now), 0);
    }
  }

  /** Over every history, with timeouts anywhere: the buffer never overflows, holds the most
      recent intervals beginning with the synchronisation pair, and no bit timer outlives
      synchronisation.
   */
  lemma {:induction false} RunInvariant(r: Rx, inputs: seq<Input>)
    requires Shape(r) && r.pulses == [] && r.prevTs == 0
    ensures var now := Run(r, inputs).rx;
            && Shape(now) && Tracks(now, inputs) && now.proto == r.proto && now.address == r.address
            && |now.pulses| <= r.proto.MaxPulses()
            && (now.bitTimer ==> now.sync != 0)
    decreases |inputs|
  {
    hide Shape, Tracks, Step, Protocol.MaxPulses;
    ShapeBounds(Run(r, inputs).rx);
    if inputs == [] {
      NothingTracked(r);
    } else {
      var before, last := inputs[..|inputs| - 1], inputs[|inputs| - 1];
      RunInvariant(r, before);
      assert before + [last] == inputs;
      StepKeeps(Run(r, before).rx, before, last);
    }
  }

  lemma NothingTracked(r: Rx)
    requires r.pulses == [] && r.prevTs == 0
    ensures Tracks(r, [])
  {
  }

  lemma ShapeBounds(r: Rx)
    ensures Shape(r) ==> |r.pulses| <= r.proto.MaxPulses() && (r.bitTimer ==> r.sync != 0)
  {
  }

  /** A received message is the decoding of exactly the last `MaxPulses` intervals, which
      begin with the synchronisation pair and end with the edge at which it was reported.
   */
  predicate Justified(proto: Protocol, address: nat, inputs: seq<Input>, c: Callback) {
    var all, n := Intervals(inputs), proto.MaxPulses();
    c.Received? ==>
      && n <= |all| && LastEdge(inputs) == c.ts
      && var frame := all[|all| - n..];
         && n >= 3
         && Near(proto, frame[0], proto.SyncMark()) && Near(proto, frame[1], proto.SyncSpace())
         && Decode(proto, frame, address) == Decoded(true, c.addr, c.func)
  }

  /** A repeat is reported only by NEC, right after a mark and a space of the repeat code. */
  predicate RepeatJustified(proto: Protocol, inputs: seq<Input>, c: Callback) {
    var all := Intervals(inputs);
    c.Repeated? ==>
      && proto.Nec? && 2 <= |all| && LastEdge(inputs) == c.ts
      && Near(proto, all[|all| - 2], proto.SyncMark()) && Near(proto, all[|all| - 1], 4 * proto.Base())
  }

  /** What one edge can report: `s` is the stored pulses and the interval it ends. */
  predicate EdgeReports(r: Rx, s: seq<nat>, ts: nat, c: Callback) {
    && (c.Received? ==>
        && c.ts == ts && |s| == r.proto.MaxPulses() && r.sync == 2
        && Decode(r.proto, s, r.address) == Decoded(true, c.addr, c.func))
    && (c.Repeated? ==>
        && c.ts == ts && r.proto.Nec? && r.sync == 1 && |s| == 2
        && Near(r.proto, s[1], 4 * r.proto.Base()))
  }

  lemma EdgeCalls(r: Rx, ts: nat, falling: bool)
    requires Shape(r)
    ensures forall c :: c in StoreTimestamp(r, ts, falling).calls ==>
              EdgeReports(r, r.pulses + [Interval(r.prevTs, ts)], ts, c)
  {
    hide Near, Decode, Interval, Protocol.SyncMark, Protocol.SyncSpace, Protocol.Base;
  }

  lemma ReportJustified(r: Rx, now: seq<Input>, x: nat, c: Callback)
    requires Shape(r) && IsSuffix(r.pulses + [x], Intervals(now))
    requires EdgeReports(r, r.pulses + [x], LastEdge(now), c)
    ensures Justified(r.proto, r.address, now, c) && RepeatJustified(r.proto, now, c)
  {
    hide Near, Decode, Intervals, LastEdge, Protocol.SyncMark, Protocol.SyncSpace, Protocol.Base;
    var s, all := r.pulses + [x], Intervals(now);
    assert all[|all| - |s|..] == s;
    if r.sync == 2 {
      assert s[0] == r.pulses[0] && s[1] == r.pulses[1];
    } else if r.sync == 1 {
      assert s[0] == r.pulses[0];
    }
  }

  lemma StepJustified(r: Rx, inputs: seq<Input>, i: Input)
    requires Shape(r) && Tracks(r, inputs)
    ensures forall c :: c in Step(r, i).calls ==>
              Justified(r.proto, r.address, inputs + [i], c) && RepeatJustified(r.proto, inputs + [i], c)
  {
    hide Decode, StoreTimestamp, Shape, EdgeReports, Justified, RepeatJustified, IsSuffix;
    var now := inputs + [i];
    assert now[..|now| - 1] == inputs;
    if i.Edge? {
      var x := Interval(r.prevTs, i.ts);
      EdgeCalls(r, i.ts, i.falling);
      SuffixGrows(r.pulses, Intervals(inputs), x);
      forall c | c in Step(r, i).calls
        ensures Justified(r.proto, r.address, now, c) && RepeatJustified(r.proto, now, c)
      {
        ReportJustified(r, now, x, c);
      }
    } else {
      forall c | c in Step(r, i).calls
        ensures Justified(r.proto, r.address, now, c) && RepeatJustified(r.proto, now, c)
      {
        NotAnEdge(r, i, now, c);
      }
    }
  }

  lemma NotAnEdge(r: Rx, i: Input, now: seq<Input>, c: Callback)
    requires !i.Edge? && c in Step(r, i).calls
    ensures Justified(r.proto, r.address, now, c) && RepeatJustified(r.proto, now, c)
  {
    hide Decode, Intervals;
    assert !c.Received? && !c.Repeated?;
  }

  /** Receiver soundness over every history: whatever is reported at any moment is justified
      by the edges up to that moment.
   */
  lemma RunJustified(r: Rx, inputs: seq<Input>, next: Input)
    requires Shape(r) && r.pulses == [] && r.prevTs == 0
    ensures forall c :: c in Step(Run(r, inputs).rx, next).calls ==>
              && Justified(r.proto, r.address, inputs + [next], c)
              && RepeatJustified(r.proto, inputs + [next], c)
  {
    RunInvariant(r, inputs);
    StepJustified(Run(r, inputs).rx, inputs, next);
  }
}
