/** Bit timeouts that find a pulse since the last one change nothing that a message needs. */
module IrTimers {
  import opened IrProtocol
  import opened IrReceiver

  /** The edges of a history without its timeouts. */
  function EdgesOf(inputs: seq<Input>): seq<Input> {
    if inputs == [] then [] else
      var last := inputs[|inputs| - 1];
      EdgesOf(inputs[..|inputs| - 1]) + (if last.Edge? then [last] else [])
  }

  /** No message timeout; bit timeouts only if the receiver uses them, and never two without an
      edge between them.
   */
  predicate Spaced(r: Rx, inputs: seq<Input>) {
    forall i :: 0 <= i < |inputs| && !inputs[i].Edge? ==>
      inputs[i].BitTimeout? && r.bitTimeout > 0 && (i > 0 ==> inputs[i - 1].Edge?)
  }

  /** The edges seen so far are the first ones of the whole history. */
  lemma {:induction false} EdgesPrefix(inputs: seq<Input>, n: nat)
    requires n <= |inputs|
    ensures EdgesOf(inputs[..n]) <= EdgesOf(inputs)
    decreases |inputs|
  {
    if n < |inputs| {
      var front := inputs[..|inputs| - 1];
      assert front[..n] == inputs[..n];
      EdgesPrefix(front, n);
    } else {
      assert inputs[..n] == inputs;
    }
  }

  lemma SpacedPrefix(r: Rx, inputs: seq<Input>, n: nat)
    requires Spaced(r, inputs) && n <= |inputs|
    ensures Spaced(r, inputs[..n])
  {
  }

  /** A receiver apart from its timers. */
  function Plain(r: Rx): Rx { r.(msgTimer := false, bitTimer := false, prevCount := 0) }

  /** The pulse count of the last bit timeout is not ahead, and behind after an edge. */
  predicate Counted(r: Rx) {
    r.bitTimeout > 0 && r.sync != 0 ==> r.prevCount <= |r.pulses|
  }

  predicate Fresh(r: Rx) {
    r.bitTimeout > 0 && r.sync == 2 ==> r.prevCount < |r.pulses|
  }

  lemma EdgeSame(a: Rx, b: Rx, ts: nat, falling: bool)
    requires Plain(a) == Plain(b)
    ensures StoreTimestamp(a, ts, falling).calls == StoreTimestamp(b, ts, falling).calls
    ensures Plain(StoreTimestamp(a, ts, falling).rx) == Plain(StoreTimestamp(b, ts, falling).rx)
  {
    PlainEdge(a, ts, falling);
    PlainEdge(b, ts, falling);
  }

  lemma PlainEdge(a: Rx, ts: nat, falling: bool)
    ensures StoreTimestamp(a, ts, falling).calls == StoreTimestamp(Plain(a), ts, falling).calls
    ensures Plain(StoreTimestamp(a, ts, falling).rx) == Plain(StoreTimestamp(Plain(a), ts, falling).rx)
  {
  }

  lemma EdgeFresh(r: Rx, ts: nat, falling: bool)
    requires Shape(r) && Counted(r)
    ensures var now := StoreTimestamp(r, ts, falling).rx; Counted(now) && Fresh(now) && now.bitTimeout == r.bitTimeout
  {
  }

  lemma BitTimeoutPasses(r: Rx, reply: Reply)
    requires Shape(r) && Counted(r) && Fresh(r) && r.bitTimeout > 0
    ensures var out := TimeoutBit(r, reply);
            out.calls == [] && Plain(out.rx) == Plain(r) && Counted(out.rx) && out.rx.bitTimeout == r.bitTimeout
  {
  }

  /** With any spacing of bit timeouts between its edges, a history has the same callbacks and the
      same state, timers aside, as its edges alone.
   */
  lemma {:induction false} BitTimeoutsHarmless(r: Rx, inputs: seq<Input>)
    requires Shape(r) && r.sync == 0 && Spaced(r, inputs)
    ensures var a, b := Run(r, inputs), Run(r, EdgesOf(inputs));
            && a.calls == b.calls && Plain(a.rx) == Plain(b.rx) && Shape(a.rx) && Counted(a.rx)
            && a.rx.bitTimeout == r.bitTimeout
            && (inputs == [] || inputs[|inputs| - 1].Edge? ==> Fresh(a.rx))
    decreases |inputs|
  {
    if inputs != [] {
      var n := |inputs| - 1;
      var front, last := inputs[..n], inputs[n];
      assert forall i :: 0 <= i < n ==> front[i] == inputs[i];
      BitTimeoutsHarmless(r, front);
      var a, b := Run(r, front).rx, Run(r, EdgesOf(front)).rx;
      hide Shape, Counted, Fresh, Plain, StoreTimestamp, TimeoutBit;
      if last.Edge? {
        assert EdgesOf(inputs)[..|EdgesOf(front)|] == EdgesOf(front);
        EdgeSame(a, b, last.ts, last.falling);
        EdgeFresh(a, last.ts, last.falling);
        EdgeShape(a, last.ts, last.falling);
      } else {
        assert EdgesOf(inputs) == EdgesOf(front);
        assert n > 0 ==> inputs[n - 1].Edge?;
        BitTimeoutPasses(a, last.reply);
        TimerShape(a, last);
      }
    }
  }

  // ----- the alarms

  /** Whether a message timeout came since the first pulse of what is being collected. */
  predicate Fired(r: Rx, inputs: seq<Input>)
    decreases |inputs|
  {
    inputs != []
    && var n := |inputs| - 1;
       inputs[n].MsgTimeout? || (Run(r, inputs[..n]).rx.sync != 0 && Fired(r, inputs[..n]))
  }

  predicate Armed(r: Rx, fired: bool) {
    && (r.bitTimer <==> r.sync != 0 && r.bitTimeout > 0)
    && (r.msgTimer <==> r.sync != 0 && r.msgTimeout > 0 && !fired)
  }

  lemma EdgeArms(r: Rx, ts: nat, falling: bool, fired: bool)
    requires Shape(r) && Armed(r, fired) && Counted(r)
    ensures Armed(StoreTimestamp(r, ts, falling).rx, r.sync != 0 && fired)
  {
    hide Near, Decode, Interval, Protocol.SyncMark, Protocol.SyncSpace, Protocol.Base, Protocol.MaxPulses;
  }

  lemma TimerArms(r: Rx, i: Input, fired: bool)
    requires Shape(r) && Armed(r, fired) && Counted(r) && !i.Edge?
    ensures var now := Step(r, i).rx;
            Armed(now, i.MsgTimeout? || (r.sync != 0 && fired)) && Counted(now) && now.bitTimeout == r.bitTimeout
  {
    hide Shape;
  }

  /** The alarms over every history: from the first pulse on until the receiver is idle again the bit
      alarm is pending if there is a bit timeout, and the message alarm if there is a message timeout
      and none has come since; otherwise neither is.
   */
  lemma {:induction false} RunArmed(r: Rx, inputs: seq<Input>)
    requires Shape(r) && r.sync == 0 && !r.msgTimer
    ensures var now := Run(r, inputs).rx;
            && Shape(now) && Counted(now) && Armed(now, Fired(r, inputs))
            && now.bitTimeout == r.bitTimeout && now.msgTimeout == r.msgTimeout
    decreases |inputs|
  {
    if inputs != [] {
      var n := |inputs| - 1;
      RunArmed(r, inputs[..n]);
      var before := Run(r, inputs[..n]).rx;
      hide Shape, Counted, Armed, StoreTimestamp, TimeoutBit, TimeoutMsg;
      match inputs[n]
      case Edge(ts, falling) =>
        EdgeShape(before, ts, falling);
        EdgeFresh(before, ts, falling);
        EdgeArms(before, ts, falling, Fired(r, inputs[..n]));
      case _ =>
        TimerShape(before, inputs[n]);
        TimerArms(before, inputs[n], Fired(r, inputs[..n]));
      StepKeepsTimeouts(before, inputs[n]);
    }
  }

  lemma StepKeepsTimeouts(r: Rx, i: Input)
    ensures Step(r, i).rx.bitTimeout == r.bitTimeout && Step(r, i).rx.msgTimeout == r.msgTimeout
  {
    hide Near, Decode, Interval;
  }

  lemma {:induction false} EdgesFresh(r: Rx, edges: seq<Input>)
    requires Shape(r) && Counted(r) && forall e :: e in edges ==> e.Edge?
    ensures var now := Run(r, edges).rx;
            Shape(now) && Counted(now) && (edges != [] ==> Fresh(now)) && now.bitTimeout == r.bitTimeout
    decreases |edges|
  {
    if edges != [] {
      var n := |edges| - 1;
      assert edges[n] in edges;
      EdgesFresh(r, edges[..n]);
      hide Shape, Counted, Fresh, StoreTimestamp;
      EdgeShape(Run(r, edges[..n]).rx, edges[n].ts, edges[n].falling);
      EdgeFresh(Run(r, edges[..n]).rx, edges[n].ts, edges[n].falling);
    }
  }

  /** What a timeout that is reported leaves: everything as it was if the application goes on, and an
      idle receiver without alarms if it does not, or has no handler.
   */
  predicate Reported(r: Rx, msg: bool, reply: Reply, out: Out) {
    && out.calls == [if reply.NoHandler? then Failed else TimedOut(msg, r.pulses)]
    && if reply.Continue? then out.rx.sync == r.sync && out.rx.pulses == r.pulses
       else out.rx.sync == 0 && out.rx.pulses == [] && !out.rx.bitTimer && !out.rx.msgTimer
  }

  /** Silence, after any history: when a bit timeout is followed by edges and another bit timeout, the
      second one is reported if and only if there were no edges; and a message timeout always is.
   */
  lemma SilenceReported(r: Rx, before: seq<Input>, a: Reply, edges: seq<Input>, b: Reply)
    requires Shape(r) && r.sync == 0 && !r.msgTimer && r.bitTimeout > 0 && forall e :: e in edges ==> e.Edge?
    requires Run(Step(Run(r, before).rx, BitTimeout(a)).rx, edges).rx.sync == 2
    ensures var now := Run(Step(Run(r, before).rx, BitTimeout(a)).rx, edges).rx;
            && (if edges == [] then Reported(now, false, b, Step(now, BitTimeout(b)))
                else Step(now, BitTimeout(b)).calls == [])
            && Reported(now, true, b, Step(now, MsgTimeout(b)))
  {
    RunArmed(r, before);
    var x := Run(r, before).rx;
    TimerShape(x, BitTimeout(a));
    TimerArms(x, BitTimeout(a), Fired(r, before));
    EdgesFresh(Step(x, BitTimeout(a)).rx, edges);
    hide Shape, Fired;
  }
}
