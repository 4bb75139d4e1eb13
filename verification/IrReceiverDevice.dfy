/** The receiver object: interrupt handlers that update its fields and pulse buffer in place,
    each tied to the function of `IrReceiver` that says what it does. The callbacks that a
    handler would invoke are its result.
 */
module IrReceiverDevice {
  import opened IrProtocol
  import opened IrReceiver
  import IrCodec

  class Receiver {
    const proto: Protocol
    const address: nat
    const msgTimeout: nat
    const bitTimeout: nat
    const pulses: array<nat>
    var nPulse: nat
    var prevTs: nat
    var sync: nat
    var rptAddr: nat
    var rptFunc: nat
    var msgTimer: bool
    var bitTimer: bool
    var prevCount: nat

    ghost predicate Valid()
      reads this, pulses
    {
      nPulse <= pulses.Length == proto.MaxPulses()
    }

    ghost function View(): Rx
      requires Valid()
      reads this, pulses
    {
      Rx(proto, address, msgTimeout, bitTimeout, pulses[..nPulse], prevTs, sync, rptAddr, rptFunc,
         msgTimer, bitTimer, prevCount)
    }

    constructor (proto: Protocol, address: nat, msgTimeout: nat, bitTimeout: nat)
      requires proto.Valid()
      ensures Valid() && fresh(pulses) && View() == NewReceiver(proto, address, msgTimeout, bitTimeout)
      ensures Shape(View())
    {
      this.proto, this.address, this.msgTimeout, this.bitTimeout := proto, address, msgTimeout, bitTimeout;
      nPulse, prevTs, sync, rptAddr, rptFunc := 0, 0, 0, 0, 0;
      msgTimer, bitTimer, prevCount := false, false, 0;
      pulses := new nat[proto.MaxPulses()];
    }

    method DoReset()
      requires Valid()
      modifies this
      ensures Valid() && View() == Reset(old(View()))
    {
      sync := 0;
      nPulse := 0;
      bitTimer := false;
      msgTimer := false;
    }

    method Store(pulse: nat)
      requires Valid() && nPulse < proto.MaxPulses()
      modifies this, pulses
      ensures Valid() && View() == old(View()).(pulses := old(View()).pulses + [pulse])
    {
      pulses[nPulse] := pulse;
      nPulse := nPulse + 1;
    }

    /** `check_sync` of the three protocols. */
    method DoCheckSync(ts: nat, falling: bool) returns (store: bool, calls: seq<Callback>)
      requires Valid() && Shape(View())
      modifies this, pulses
      ensures Valid() && Checked(View(), store, calls) == CheckSync(old(View()), ts, falling)
    {
      store, calls := false, [];
      var delta := Interval(prevTs, ts);
      if sync == 0 {
        nPulse := 0;
        if falling {
          if Near(proto, delta, proto.SyncMark()) {
            Store(delta);
            sync := 1;
          }
        }
      } else if sync == 1 {
        if !falling && Near(proto, delta, proto.SyncSpace()) {
          sync := 2;
          Store(delta);
        } else {
          DoReset();
          if proto.Nec? && !falling && Near(proto, delta, 4 * proto.Base()) {
            calls := [Repeated(ts, rptAddr, rptFunc)];
          }
        }
      } else if sync == 2 {
        store := true;
      }
    }

    method DoMessageComplete(ts: nat) returns (calls: seq<Callback>)
      requires Valid()
      modifies this
      ensures Valid() && Out(View(), calls) == MessageComplete(old(View()), ts)
    {
      hide Decode;
      var ok;
      if proto.Sony? {
        ok, rptAddr, rptFunc := IrCodec.DecodeByMarks(proto, pulses[..nPulse], address);
      } else {
        ok, rptAddr, rptFunc := IrCodec.DecodeBySpaces(proto, pulses[..nPulse], address);
      }
      if ok {
        calls := [Received(ts, rptAddr, rptFunc)];
        DoReset();
      } else {
        calls := MessageError();
      }
    }

    method MessageError() returns (calls: seq<Callback>)
      requires Valid()
      modifies this
      ensures Valid() && View() == Reset(old(View())) && calls == [Failed]
    {
      calls := [Failed];
      DoReset();
    }

    method DoStartTimeout()
      requires Valid()
      modifies this
      ensures Valid() && View() == StartTimeout(old(View()))
    {
      if msgTimeout > 0 && !msgTimer {
        msgTimer := true;
      }
      if bitTimeout > 0 {
        prevCount := nPulse;
        bitTimer := true;
      }
    }

    /** The edge interrupt. */
    method DoStoreTimestamp(ts: nat, falling: bool) returns (calls: seq<Callback>)
      requires Valid() && Shape(View())
      modifies this, pulses
      ensures Valid() && Out(View(), calls) == StoreTimestamp(old(View()), ts, falling)
      ensures Shape(View())
    {
      hide CheckSync, MessageComplete, Shape;
      ghost var was := View();
      EdgeShape(was, ts, falling);
      var psy := sync;
      var store;
      store, calls := DoCheckSync(ts, falling);
      if store {
        if nPulse < proto.MaxPulses() {
          UnchangedWhenStoring(was, ts, falling);
          Store(Interval(prevTs, ts));
        }
        if nPulse == proto.MaxPulses() {
          var more := DoMessageComplete(ts);
          calls := calls + more;
        }
      }
      prevTs := ts;
      if psy == 0 && sync != 0 {
        DoStartTimeout();
      }
    }

    /** The message alarm. */
    method DoTimeoutMsg(reply: Reply) returns (calls: seq<Callback>)
      requires Valid() && Shape(View())
      modifies this
      ensures Valid() && Out(View(), calls) == TimeoutMsg(old(View()), reply) && Shape(View())
    {
      var again;
      again, calls := DoTimeout(true, reply);
      msgTimer := false;
    }

    /** The bit alarm. `again` says that the alarm is rescheduled. */
    method DoTimeoutBit(reply: Reply) returns (again: bool, calls: seq<Callback>)
      requires Valid() && Shape(View())
      modifies this
      ensures Valid() && Out(View(), calls) == TimeoutBit(old(View()), reply) && Shape(View())
      ensures bitTimer ==> again
    {
      again, calls := false, [];
      if sync != 0 {
        if nPulse == prevCount && sync == 2 {
          var continue_;
          continue_, calls := DoTimeout(false, reply);
          if continue_ {
            prevCount := nPulse;
            again := bitTimeout > 0;
          }
        } else {
          prevCount := nPulse;
          again := bitTimeout > 0;
        }
      }
      if !again {
        bitTimer := false;
      }
    }

    method DoTimeout(msg: bool, reply: Reply) returns (again: bool, calls: seq<Callback>)
      requires Valid()
      modifies this
      ensures Valid() && Out(View(), calls) == Timeout(old(View()), msg, reply) && again == reply.Continue?
    {
      again := false;
      if !reply.NoHandler? {
        calls := [TimedOut(msg, pulses[..nPulse])];
        again := reply.Continue?;
        if !again {
          DoReset();
        }
      } else {
        calls := MessageError();
      }
    }
  }

  lemma UnchangedWhenStoring(r: Rx, ts: nat, falling: bool)
    requires CheckSync(r, ts, falling).store
    ensures CheckSync(r, ts, falling).rx == r
  {
  }
}
