/** Any number of devices on one bus: everybody hears every frame, commands and replies alike, and
    the acceptance filters keep the sessions apart. */
module Bus {
  import opened Words
  import opened Messages
  import opened Protocol
  import opened Upload
  import Crc
  import F = Flash

  /** What happens on the bus, or in the timer of one device. */
  datatype BusEvent =
    | Commanded(target: bv8, command: Command, data: Payload)
    | Replied(sender: bv8, reply: Reply, data: Payload)
    | Carried(frame: Frame)   // any frame whatever, from any node
    | Ticked(dev: bv8)

  /** A frame reaches the pump only through the device's filter. */
  function Hear(d: DeviceState, f: Frame): (DeviceState, seq<Frame>)
    requires WellFormed(d)
  {
    if Accepts(d.devId, f.id) then Step(d, Received(f)) else (d, [])
  }

  function React(d: DeviceState, e: BusEvent): (DeviceState, seq<Frame>)
    requires WellFormed(d)
  {
    match e
    case Commanded(target, command, data) => Hear(d, CommandFrame(command, target, data))
    case Replied(sender, reply, data) => Hear(d, ReplyFrame(reply, sender, data))
    case Carried(f) => Hear(d, f)
    case Ticked(dev) => if dev == d.devId then Step(d, Tick) else (d, [])
  }

  predicate AllWellFormed(devices: seq<DeviceState>) {
    forall i :: 0 <= i < |devices| ==> WellFormed(devices[i])
  }

  function BusStep(devices: seq<DeviceState>, e: BusEvent): (after: seq<DeviceState>)
    requires AllWellFormed(devices)
    ensures |after| == |devices| && AllWellFormed(after)
    ensures forall i :: 0 <= i < |devices| ==> after[i] == React(devices[i], e).0
  {
    forall i | 0 <= i < |devices|
      ensures WellFormed(React(devices[i], e).0)
    {
      ReactWellFormed(devices[i], e);
    }
    seq(|devices|, i requires 0 <= i < |devices| => React(devices[i], e).0)
  }

  function BusRun(devices: seq<DeviceState>, events: seq<BusEvent>): (after: seq<DeviceState>)
    requires AllWellFormed(devices)
    ensures |after| == |devices|
    decreases |events|
  {
    if events == [] then devices else BusRun(BusStep(devices, events[0]), events[1..])
  }

  /** The events of device `dev` alone: the commands with its id, other frames that happen to pass its
      filter, and the ticks of its timer. */
  function Own(dev: bv8, events: seq<BusEvent>): seq<Event>
    decreases |events|
  {
    if events == [] then []
    else
      var rest := Own(dev, events[1..]);
      match events[0]
      case Commanded(target, command, data) =>
        if target == dev then [Received(CommandFrame(command, target, data))] + rest else rest
      case Replied(_, _, _) => rest
      case Carried(f) => if Accepts(dev, f.id) then [Received(f)] + rest else rest
      case Ticked(owner) => if owner == dev then [Tick] + rest else rest
  }

  lemma ReactWellFormed(d: DeviceState, e: BusEvent)
    requires WellFormed(d)
    ensures WellFormed(React(d, e).0) && React(d, e).0.devId == d.devId
  {
    hide Step, Accepts;
    match e
    case Commanded(target, command, data) => StepWellFormed(d, Received(CommandFrame(command, target, data)));
    case Replied(sender, reply, data) => StepWellFormed(d, Received(ReplyFrame(reply, sender, data)));
    case Carried(f) => StepWellFormed(d, Received(f));
    case Ticked(_) => StepWellFormed(d, Tick);
  }

  lemma ReactsToOwn(d: DeviceState, e: BusEvent)
    requires WellFormed(d)
    ensures React(d, e) == Run(d, Own(d.devId, [e]))
  {
    hide Step, Accepts, CommandId, ReplyId, DevMask;
    assert [e][1..] == [];
    match e
    case Commanded(target, command, data) =>
      CommandAddressing(command, target, d.devId);
      var r := Received(CommandFrame(command, target, data));
      RunOne(d, r);
      assert [r] + [] == [r];
    case Replied(sender, reply, data) =>
      ReplyNotAccepted(reply, sender, d.devId);
    case Carried(f) =>
      RunOne(d, Received(f));
      assert [Received(f)] + [] == [Received(f)];
    case Ticked(_) =>
      RunOne(d, Tick);
      assert [Tick] + [] == [Tick];
  }

  lemma OwnFirst(dev: bv8, events: seq<BusEvent>)
    requires events != []
    ensures Own(dev, events) == Own(dev, [events[0]]) + Own(dev, events[1..])
  {
    hide Accepts, CommandFrame;
    assert [events[0]][1..] == [];
  }

  /** Every device goes through exactly the states it would go through alone on the bus with the
      frames that pass its filter, whatever commands, replies and other frames are interleaved. */
  lemma {:induction false} NonInterference(devices: seq<DeviceState>, events: seq<BusEvent>, i: nat)
    requires AllWellFormed(devices) && i < |devices|
    ensures BusRun(devices, events)[i] == Run(devices[i], Own(devices[i].devId, events)).0
    decreases |events|
  {
    hide React, Own, Run;
    if events == [] {
      OwnNothing(devices[i]);
    } else {
      var d, e := devices[i], events[0];
      var d' := React(d, e).0;
      ReactWellFormed(d, e);
      ReactsToOwn(d, e);
      OwnFirst(d.devId, events);
      RunConcat(d, Own(d.devId, [e]), Own(d.devId, events[1..]));
      NonInterference(BusStep(devices, e), events[1..], i);
    }
  }

  lemma OwnNothing(d: DeviceState)
    requires WellFormed(d)
    ensures Run(d, Own(d.devId, [])) == (d, [])
  {
  }

  // ----- replies -----

  ghost predicate IsReplyOf(f: Frame, dev: bv8) {
    exists r: Reply, data: Payload :: f == ReplyFrame(r, dev, data)
  }

  lemma ReplyFrameIsReply(r: Reply, dev: bv8, data: Payload)
    ensures IsReplyOf(ReplyFrame(r, dev, data), dev)
  {
  }

  lemma PerformReplies(d: DeviceState, c: Command, data: Payload)
    requires WellFormed(d)
    ensures forall k :: 0 <= k < |Perform(d, c, data).1| ==> IsReplyOf(Perform(d, c, data).1[k], d.devId)
  {
    hide F.Commit, F.MaskedPage, F.PageWriteable, F.Unlock, ReplyFrame, GeometryReport, IsReplyOf;
    var dev := d.devId;
    match c
    case ProgReq => ReplyFrameIsReply(ProgReqResp, dev, GeometryReport(d.Platform()));
    case Unlock => ReplyFrameIsReply(Unlocked, dev, []);
    case SelectPage =>
      if |data| == 4 {
        ReplyFrameIsReply(PageSelected, dev, U32LE(F.MaskedPage(d.Platform(), ReadU32LE(data))));
      }
    case Seek =>
    case Write =>
    case CheckWrites => ReplyFrameIsReply(WritesChecked, dev, U16LE(Crc.Crc16(d.staging)));
    case CommitWrites => ReplyFrameIsReply(WritesCommitted, dev, U32LE(d.page));
    case ProgDone => ReplyFrameIsReply(ProgDoneAck, dev, []);
  }

  /** Everything a device sends is a reply that carries its own id. */
  lemma SendsReplies(d: DeviceState, e: Event)
    requires WellFormed(d)
    ensures forall k :: 0 <= k < |Step(d, e).1| ==> IsReplyOf(Step(d, e).1[k], d.devId)
  {
    hide Perform, Dispatch, IsReplyOf;
    if e.Received? && d.mode != DONE && Dispatch(e.frame.id).Some? {
      PerformReplies(d, Dispatch(e.frame.id).value, e.frame.data);
    }
  }

  /** So a device's replies, heard by all the others and by itself, change nothing and cause no more traffic. */
  lemma {:induction false} RepliesChangeNothing(sender: DeviceState, e: Event, listener: DeviceState)
    requires WellFormed(sender) && WellFormed(listener)
    ensures forall k :: 0 <= k < |Step(sender, e).1| ==> Hear(listener, Step(sender, e).1[k]) == (listener, [])
  {
    hide Step, Accepts, DevMask, ReplyId;
    SendsReplies(sender, e);
    forall k | 0 <= k < |Step(sender, e).1|
      ensures Hear(listener, Step(sender, e).1[k]) == (listener, [])
    {
      var f := Step(sender, e).1[k];
      assert IsReplyOf(f, sender.devId);
      var r: Reply, data: Payload :| f == ReplyFrame(r, sender.devId, data);
      ReplyNotAccepted(r, sender.devId, listener.devId);
    }
  }

  /** At most one of several devices with different ids reacts to a frame, whatever the frame is. */
  lemma AtMostOneHears(a: DeviceState, b: DeviceState, f: Frame)
    requires WellFormed(a) && WellFormed(b) && a.devId != b.devId
    ensures Hear(a, f) == (a, []) || Hear(b, f) == (b, [])
  {
    hide Step, Accepts;
    if Accepts(a.devId, f.id) && Accepts(b.devId, f.id) {
      FiltersDisjoint(f.id, a.devId, b.devId);
    }
  }

  // ----- uploads -----

  /** Any number of devices uploaded over one bus, their frames interleaved at will: each device that
      receives a complete session ends up, after its jump, with its own pages in its own flash. */
  lemma UploadsShareBus(devices: seq<DeviceState>, events: seq<BusEvent>, i: nat, jobs: seq<PageJob>)
    requires AllWellFormed(devices) && i < |devices|
    requires Booted(devices[i]) && CanUnlock(devices[i].flash)
    requires forall k :: 0 <= k < |jobs| ==> Uploadable(devices[i].Platform(), jobs[k])
    requires Own(devices[i].devId, events) == CompleteSession(devices[i].devId, jobs)
    ensures var (d, d') := (devices[i], BusRun(devices, events)[i]);
            && d'.mode == DONE && d'.Platform() == d.Platform() && Finish(d').flash.IsLocked()
            && Finish(d').flash.Mem() == Flashed(d.Platform(), d.flash.Mem(), jobs)
  {
    hide React, Own, Run, Uploadable, CanUnlock, CompleteSession, Flashed;
    NonInterference(devices, events, i);
    CompleteSessionFlashes(devices[i], jobs);
  }
}
