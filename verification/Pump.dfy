/** The message pump of src/common/main.c in its own form: static state updated in a loop, one
    method per message, refining the functions of `Protocol`. */
module Pump {
  import opened Words
  import opened FlashBase
  import opened Messages
  import Crc
  import F = Flash
  import P = Protocol

  class Bootloader {
    const devId: bv8
    const port: F.Port
    const writes: array<byte>
    var state: P.Mode
    var selPageAddr: nat
    var writeOffset: nat
    var timer: P.Timer       // the hardware behind src/common/timer.h

    ghost predicate Valid()
      reads this
    {
      && port.Valid()
      && writes.Length == F.PageSize(port.PlatformOf())
      && this !in port.Repr() && writes !in port.Repr()
      && writeOffset <= writes.Length && selPageAddr < 0x1_0000_0000
    }

    ghost function View(): (d: P.DeviceState)
      requires Valid()
      reads this, writes, port.Repr()
      ensures P.WellFormed(d)
    {
      P.Device(devId, state, selPageAddr, writeOffset, writes[..], port.View(), timer)
    }

    constructor (devId: bv8, port: F.Port, writes: array<byte>, timeout: nat)
      requires port.Valid() && writes !in port.Repr()
      requires writes.Length == F.PageSize(port.PlatformOf()) && forall i :: 0 <= i < writes.Length ==> writes[i] == 0
      requires port.View().IsLocked() && port.View().AtRest() && !port.View().Faulted() && port.View().Ops() == []
      ensures Valid() && this.port == port && this.writes == writes
      ensures P.Booted(View()) && View().timer == P.Armed(timeout)
    {
      this.devId, this.port, this.writes := devId, port, writes;
      state, selPageAddr, writeOffset := P.IDLE, 0, 0;
      timer := P.Armed(timeout);
    }

    /** The timeout interrupt. */
    method OnTimeout()
      requires Valid()
      modifies this`state
      ensures Valid() && View() == old(View()).(mode := P.DONE)
    {
      state := P.DONE;
    }

    method TimerStop()
      requires Valid()
      modifies this`timer
      ensures Valid() && View() == old(View()).(timer := P.Off)
    {
      timer := P.Off;
    }

    /** One tick of the one-shot timer. */
    method TimerTick()
      requires Valid()
      modifies this`state, this`timer
      ensures Valid() && View() == P.OnTick(old(View()))
    {
      if timer.Armed? {
        if timer.left <= 1 {
          timer := P.Off;
          OnTimeout();
        } else {
          timer := P.Armed(timer.left - 1);
        }
      }
    }

    // ----- one method per message -----

    method ProgReqReceived() returns (out: seq<Frame>)
      requires Valid()
      modifies this`state, this`timer
      ensures Valid() && (View(), out) == P.OnProgReq(old(View()))
    {
      if state == P.IDLE {
        TimerStop();
        state := P.LOCKED;
      }
      var platform := port.PlatformOf();
      out := [ReplyFrame(ProgReqResp, devId, P.GeometryReport(platform))];
    }

    method UnlockReceived() returns (out: seq<Frame>)
      requires Valid()
      modifies this`state, port.Repr()
      ensures Valid() && (View(), out) == P.OnUnlock(old(View()))
    {
      out := [];
      if state != P.IDLE {
        var unlocked := true;
        if state == P.LOCKED {
          unlocked := port.CallUnlock();
        }
        if unlocked {
          state := P.UNLOCKED;
          out := [ReplyFrame(Unlocked, devId, [])];
        }
      }
    }

    method SelectPageReceived(data: Payload) returns (out: seq<Frame>)
      requires Valid()
      modifies this`selPageAddr
      ensures Valid() && (View(), out) == P.OnSelectPage(old(View()), data)
    {
      hide F.MaskedPage, F.PageWriteable;
      out := [];
      if |data| == 4 {
        var newPageAddr := ReadU32LE(data);
        newPageAddr := F.MaskedPage(port.PlatformOf(), newPageAddr);
        if F.PageWriteable(port.PlatformOf(), newPageAddr) {
          selPageAddr := newPageAddr;
          out := [ReplyFrame(PageSelected, devId, U32LE(selPageAddr))];
        }
      }
    }

    method SeekReceived(data: Payload)
      requires Valid()
      modifies this`writeOffset
      ensures Valid() && View() == P.OnSeek(old(View()), data)
    {
      if |data| == 4 {
        var newOffset := ReadU32LE(data);
        if newOffset < writes.Length {
          writeOffset := newOffset;
        }
      }
    }

    method WriteReceived(data: Payload)
      requires Valid()
      modifies this`writeOffset, writes
      ensures Valid() && View() == P.OnWrite(old(View()), data)
    {
      hide Patch;
      ghost var from, before := writeOffset, writes[..];
      var i := 0;
      assert writes[..] == Patch(before, from, data, 0);
      while i < |data| && writeOffset < writes.Length
        invariant i <= |data| && writeOffset == from + i <= writes.Length
        invariant writes[..] == Patch(before, from, data, i)
      {
        writes[writeOffset] := data[i];
        writeOffset := writeOffset + 1;
        i := i + 1;
      }
    }

    method CheckWritesReceived() returns (out: seq<Frame>)
      requires Valid()
      ensures out == P.OnCheckWrites(View())
      ensures out == [ReplyFrame(WritesChecked, devId, U16LE(Crc.Crc16(writes[..])))]
    {
      var crc;
      if port.PlatformOf() == F.STM32 {
        crc := Crc.BitwiseCrc16(writes[..]);
      } else {
        crc := Crc.BytewiseCrc16(writes[..]);
      }
      out := [ReplyFrame(WritesChecked, devId, U16LE(crc))];
    }

    method CommitReceived() returns (out: seq<Frame>)
      requires Valid()
      modifies port.Repr()
      ensures Valid() && (View(), out) == P.OnCommit(old(View()))
    {
      hide F.BeginWrite, F.Fill, F.EndWrite;
      out := [];
      if state == P.UNLOCKED {
        var ok := port.CallBeginWrite(selPageAddr);
        if !ok {
          return;
        }
        var n := port.CallFill(0, writes[..]);
        ok := port.CallEndWrite();
        if !ok {
          return;
        }
        out := [ReplyFrame(WritesCommitted, devId, U32LE(selPageAddr))];
      }
    }

    method ProgDoneReceived() returns (out: seq<Frame>)
      requires Valid()
      modifies this`state
      ensures Valid() && (View(), out) == P.OnProgDone(old(View()))
    {
      out := [ReplyFrame(ProgDoneAck, devId, [])];
      state := P.DONE;
    }

    /** The switch on the message type. */
    method MessageReceived(frame: Frame) returns (out: seq<Frame>)
      requires Valid()
      modifies this, writes, port.Repr()
      ensures Valid() && (View(), out) == P.Handle(old(View()), frame)
    {
      hide P.OnProgReq, P.OnUnlock, P.OnSelectPage, P.OnSeek, P.OnWrite, P.OnCheckWrites, P.OnCommit, P.OnProgDone;
      hide Dispatch;
      out := [];
      match Dispatch(frame.id)
      case None =>
      case Some(ProgReq) => out := ProgReqReceived();
      case Some(Unlock) => out := UnlockReceived();
      case Some(SelectPage) => out := SelectPageReceived(frame.data);
      case Some(Seek) => SeekReceived(frame.data);
      case Some(Write) => WriteReceived(frame.data);
      case Some(CheckWrites) => out := CheckWritesReceived();
      case Some(CommitWrites) => out := CommitReceived();
      case Some(ProgDone) => out := ProgDoneReceived();
    }

    /** The main loop over everything that is received and every tick of the timer, and the lock
        that follows it. Frames handed to `cnCANSend` are collected in `out`. */
    method MessagePump(events: seq<P.Event>) returns (out: seq<Frame>)
      requires Valid()
      modifies this, writes, port.Repr()
      ensures Valid() && out == P.Run(old(View()), events).1
      ensures var d := P.Run(old(View()), events).0;
              View() == if d.mode == P.DONE then P.Finish(d) else d
    {
      hide P.Step, P.Handle, P.OnTick;
      ghost var start := View();
      var i := 0;
      out := [];
      while i < |events| && state != P.DONE
        invariant i <= |events| && Valid()
        invariant P.Run(start, events[..i]) == (View(), out)
      {
        ghost var before, sent := View(), out;
        var reply := [];
        match events[i] {
          case Received(frame) => reply := MessageReceived(frame);
          case Tick => TimerTick();
        }
        out := out + reply;
        P.StepAlive(before, events[i]);
        P.RunOne(before, events[i]);
        P.RunConcat(start, events[..i], [events[i]]);
        assert events[..i] + [events[i]] == events[..i + 1];
        i := i + 1;
      }
      assert events[..i] + events[i..] == events;
      P.RunConcat(start, events[..i], events[i..]);
      if state == P.DONE {
        P.DoneIsFinal(View(), events[i..]);
        var locked := port.CallLock();
      }
      assert out + [] == out;
    }
  }
}
