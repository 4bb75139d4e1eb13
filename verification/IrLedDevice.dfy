/** The transmitter object, whose alarm handler updates its fields in place. */
module IrLedDevice {
  import opened IrProtocol
  import opened IrLed
  import IrCodec

  class Transmitter {
    const proto: Protocol
    var times: array<nat>
    var aTimes: nat
    var nTimes: nat
    var outIndex: nat
    var repeats: nat
    var duty: bool
    var timer: bool
    ghost var doneCalls: nat

    ghost predicate Valid()
      reads this, times
    {
      nTimes <= times.Length == aTimes && outIndex <= nTimes + 1
    }

    ghost function View(): Led
      requires Valid()
      reads this, times
    {
      Led(times[..nTimes], RepeatInterval(proto), outIndex, repeats, duty)
    }

    constructor (proto: Protocol, aTimes: nat)
      ensures Valid() && fresh(times) && this.proto == proto
      ensures View() == Led([], RepeatInterval(proto), 0, 0, false) && !timer && doneCalls == 0
    {
      this.proto, this.aTimes := proto, aTimes;
      nTimes, outIndex, repeats, duty, timer := 0, 0, 0, false, false;
      doneCalls := 0;
      times := new nat[aTimes];
    }

    method Stop()
      requires Valid()
      modifies this
      ensures Valid() && !timer && times == old(times) && doneCalls == old(doneCalls)
      ensures View() == old(View()).(outIndex := 0, repeats := 0, duty := false)
    {
      timer := false;
      outIndex := 0;
      repeats := 0;
      duty := false;
    }

    /** Copies the durations, into a larger buffer when they do not fit. */
    method SetOutputTimes(source: seq<nat>)
      requires Valid()
      modifies this, times
      ensures Valid() && !timer && (times == old(times) || fresh(times)) && doneCalls == old(doneCalls)
      ensures View() == Led(source, RepeatInterval(proto), 0, 0, false)
    {
      Stop();
      if |source| > aTimes {
        aTimes := |source| + 16;
        times := new nat[aTimes];
      }
      nTimes := |source|;
      var ii := 0;
      while ii < nTimes
        invariant 0 <= ii <= nTimes == |source| <= times.Length == aTimes
        invariant times == old(times) || fresh(times)
        invariant times[..ii] == source[..ii]
        invariant outIndex == repeats == 0 && !duty && !timer && doneCalls == old(doneCalls)
      {
        times[ii] := source[ii];
        ii := ii + 1;
      }
    }

    /** `setMessageTimes` of each protocol. */
    method SetMessageTimes(addr: nat, func: nat)
      requires Valid() && addr < 0x1_0000 && func < 0x1_0000
      requires proto.Sony? ==> proto.addressSize + proto.valueSize <= 20
      modifies this, times
      ensures Valid() && !timer && (times == old(times) || fresh(times)) && doneCalls == old(doneCalls)
      ensures View() == Led(Times(proto, addr, func), RepeatInterval(proto), 0, 0, false)
    {
      hide Times;
      var t;
      if proto.Sony? {
        t := IrCodec.MarkMessageTimes(proto, addr, func);
      } else {
        t := IrCodec.SpaceMessageTimes(proto, addr, func);
      }
      SetOutputTimes(t);
    }

    /** `set_next`: one alarm. The done callback is counted. */
    method DoSetNext() returns (delay: nat)
      requires Valid()
      modifies this
      ensures Valid() && times == old(times)
      ensures var next := SetNext(old(View()));
              && View() == next.led && delay == next.delay
              && timer == (old(timer) && !next.done)
              && doneCalls == old(doneCalls) + (if next.done then 1 else 0)
    {
      hide Sum;
      ghost var before := View();
      delay := 0;
      if outIndex < nTimes {
        duty := outIndex % 2 == 0;
        delay := times[outIndex];
        outIndex := outIndex + 1;
      }
      if delay == 0 {
        duty := false;
        if outIndex == nTimes {
          outIndex := outIndex + 1;
          delay := PauseTime(times[..nTimes], RepeatInterval(proto), repeats > 0);
        } else if outIndex > nTimes && repeats > 0 {
          repeats := repeats - 1;
          outIndex := 0;
          delay := 1;
        } else {
          timer := false;
          doneCalls := doneCalls + 1;
        }
      }
    }

    /** `transmit` followed by the alarms it sets off. */
    method Transmit() returns (segments: seq<Segment>)
      requires Valid() && Positive(times[..nTimes])
      modifies this
      ensures Valid() && !timer && !duty && times == old(times) && View().times == old(View()).times
      ensures if nTimes == 0 then segments == [] && doneCalls == old(doneCalls) else
                && segments == Schedule(times[..nTimes], RepeatInterval(proto), MinimumRepeats(proto))
                && doneCalls == old(doneCalls) + 1
    {
      segments := [];
      Stop();
      if nTimes > 0 {
        repeats := MinimumRepeats(proto);
        PlaySchedule(View());
        segments := PlayAlarms();
      }
    }

    /** `repeat`: the durations once more. */
    method Repeat() returns (segments: seq<Segment>)
      requires Valid() && Positive(times[..nTimes])
      modifies this
      ensures Valid() && !timer && !duty && times == old(times) && View().times == old(View()).times
      ensures if nTimes == 0 then segments == [] && doneCalls == old(doneCalls) else
                && segments == Frame(times[..nTimes], RepeatInterval(proto), false)
                && doneCalls == old(doneCalls) + 1
    {
      segments := [];
      Stop();
      if nTimes > 0 {
        PlaySchedule(View());
        segments := PlayAlarms();
      }
    }

    /** The NEC repeat code. */
    method RepeatCode() returns (segments: seq<Segment>)
      requires Valid() && proto.Nec?
      modifies this, times
      ensures Valid() && !timer && !duty && doneCalls == old(doneCalls) + 1
      ensures View().times == REPEAT_CODE == [8992, 2248, 562]
      ensures segments == Frame(REPEAT_CODE, RepeatInterval(proto), false)
    {
      var t := [proto.SyncMark()];
      t := t + [4 * proto.Base()];
      t := t + [proto.Base()];
      SetOutputTimes(t);
      segments := Repeat();
    }

    /** `start` and the alarm pool: the handler is called again after each delay until it returns 0. */
    method PlayAlarms() returns (segments: seq<Segment>)
      requires Valid()
      modifies this
      ensures Valid() && times == old(times)
      ensures var p := Play(old(View()));
              segments == p.segments && View() == p.led && doneCalls == old(doneCalls) + p.done && !timer
    {
      hide SetNext;
      segments := [];
      timer := true;
      ghost var all := Play(View());
      assert [] + all.segments == all.segments;
      var delay := DoSetNext();
      while delay > 0
        invariant Valid() && times == old(times)
        invariant delay > 0 ==> timer && doneCalls == old(doneCalls)
                                && all == After(segments + [Segment(duty, delay)], Play(View()))
        invariant delay == 0 ==> !timer && doneCalls >= old(doneCalls)
        invariant delay == 0 ==> all == Played(segments, View(), doneCalls - old(doneCalls))
        decreases if delay > 0 then 1 else 0, repeats, nTimes + 1 - outIndex
      {
        ghost var was := View();
        segments := segments + [Segment(duty, delay)];
        PlayUnfold(was, segments);
        delay := DoSetNext();
        if delay > 0 { NextDecreases(was); }
      }
    }
  }

  /** The alarm handler makes progress. */
  lemma NextDecreases(l: Led)
    requires l.Valid() && SetNext(l).delay > 0
    ensures var next := SetNext(l).led;
            && |next.times| == |l.times|
            && (next.repeats < l.repeats || (next.repeats == l.repeats && l.outIndex < next.outIndex))
  {
    hide Sum;
  }

  lemma PlayUnfold(l: Led, segments: seq<Segment>)
    requires l.Valid()
    ensures var next := SetNext(l);
            After(segments, Play(l)) == if next.delay == 0 then Played(segments, next.led, if next.done then 1 else 0)
                                        else After(segments + [Segment(next.led.duty, next.delay)], Play(next.led))
  {
    hide SetNext;
    var next := SetNext(l);
    assert segments + [] == segments;
    if next.delay > 0 {
      assert segments + ([Segment(next.led.duty, next.delay)] + Play(next.led).segments)
             == segments + [Segment(next.led.duty, next.delay)] + Play(next.led).segments;
    }
  }

  /** The summing loop of `set_next`. */
  method PauseTime(times: seq<nat>, interval: nat, more: bool) returns (pause: nat)
    ensures pause == Pause(times, interval, more)
  {
    var p: int := interval * 1000;
    assert times[..0] == [];
    var ii := 0;
    while ii < |times|
      invariant 0 <= ii <= |times| && p == interval * 1000 - Sum(times[..ii])
    {
      assert times[..ii + 1][..ii] == times[..ii];
      p := p - times[ii];
      ii := ii + 1;
    }
    assert times[..|times|] == times;
    if more {
      p := p - 1;
    }
    if p < 1 {
      p := 1;
    }
    pause := p;
  }
}
