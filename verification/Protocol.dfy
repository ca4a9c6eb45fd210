/** The message pump of src/common/main.c as a function of its state: what one message does to the
    device, which replies it sends, and what the timeout interrupt does between two messages. */
module Protocol {
  import opened Words
  import opened FlashBase
  import opened Messages
  import Crc
  import F = Flash
  import Geometry

  datatype Mode = IDLE | LOCKED | UNLOCKED | DONE

  /** The bootloader timeout of src/common/timer.h: ticks left until `onTimeout` runs, once. */
  datatype Timer = Off | Armed(left: nat)

  datatype DeviceState = Device(
    devId: bv8,
    mode: Mode,
    page: nat,             // selPage.addr; 0 while no page was selected
    cursor: nat,           // selPage.writeOffset
    staging: seq<byte>,    // selPage.writes
    flash: F.Flash,
    timer: Timer)
  {
    function Platform(): F.Platform {
      flash.Platform()
    }
  }

  predicate WellFormed(d: DeviceState) {
    |d.staging| == F.PageSize(d.Platform()) && d.cursor <= |d.staging| && d.page < 0x1_0000_0000
  }

  /** Power-on state: nothing selected, zeroed buffer, flash locked and at rest, timeout running. */
  predicate Booted(d: DeviceState) {
    && WellFormed(d)
    && d.mode == IDLE && d.page == 0 && d.cursor == 0
    && (forall i :: 0 <= i < |d.staging| ==> d.staging[i] == 0)
    && d.flash.IsLocked() && d.flash.AtRest() && !d.flash.Faulted() && d.flash.Ops() == []
    && d.timer.Armed?
  }

  // ----- one message -----

  function GeometryReport(p: F.Platform): (data: Payload) {
    Geometry.Report(F.PageSize(p), F.FlashSize(p), F.Machine(p))
  }

  function OnProgReq(d: DeviceState): (DeviceState, seq<Frame>) {
    (if d.mode == IDLE then d.(timer := Off, mode := LOCKED) else d,
     [ReplyFrame(ProgReqResp, d.devId, GeometryReport(d.Platform()))])
  }

  function OnUnlock(d: DeviceState): (DeviceState, seq<Frame>) {
    var reply := [ReplyFrame(Unlocked, d.devId, [])];
    match d.mode
    case IDLE => (d, [])
    case LOCKED =>
      var (flash, ok) := F.Unlock(d.flash);
      if ok then (d.(flash := flash, mode := UNLOCKED), reply) else (d.(flash := flash), [])
    case _ => (d.(mode := UNLOCKED), reply)
  }

  function OnSelectPage(d: DeviceState, data: Payload): (DeviceState, seq<Frame>) {
    if |data| != 4 then (d, [])
    else
      var addr := F.MaskedPage(d.Platform(), ReadU32LE(data));
      if !F.PageWriteable(d.Platform(), addr) then (d, [])
      else (d.(page := addr), [ReplyFrame(PageSelected, d.devId, U32LE(addr))])
  }

  function OnSeek(d: DeviceState, data: Payload): DeviceState {
    if |data| == 4 && ReadU32LE(data) < F.PageSize(d.Platform()) then d.(cursor := ReadU32LE(data)) else d
  }

  /** How many of `size` bytes a WRITE at `cursor` stores. */
  function Stored(d: DeviceState, size: nat): (n: nat)
    requires WellFormed(d)
    ensures n <= size && d.cursor + n <= |d.staging|
  {
    if size <= |d.staging| - d.cursor then size else |d.staging| - d.cursor
  }

  function OnWrite(d: DeviceState, data: Payload): DeviceState
    requires WellFormed(d)
  {
    var n := Stored(d, |data|);
    d.(staging := Patch(d.staging, d.cursor, data, n), cursor := d.cursor + n)
  }

  function OnCheckWrites(d: DeviceState): seq<Frame> {
    [ReplyFrame(WritesChecked, d.devId, U16LE(Crc.Crc16(d.staging)))]
  }

  function OnCommit(d: DeviceState): (DeviceState, seq<Frame>)
    requires WellFormed(d)
  {
    if d.mode != UNLOCKED then (d, [])
    else
      var (flash, ok) := F.Commit(d.flash, d.page, d.staging);
      (d.(flash := flash), if ok then [ReplyFrame(WritesCommitted, d.devId, U32LE(d.page))] else [])
  }

  function OnProgDone(d: DeviceState): (DeviceState, seq<Frame>) {
    (d.(mode := DONE), [ReplyFrame(ProgDoneAck, d.devId, [])])
  }

  function Perform(d: DeviceState, c: Command, data: Payload): (DeviceState, seq<Frame>)
    requires WellFormed(d)
  {
    match c
    case ProgReq => OnProgReq(d)
    case Unlock => OnUnlock(d)
    case SelectPage => OnSelectPage(d, data)
    case Seek => (OnSeek(d, data), [])
    case Write => (OnWrite(d, data), [])
    case CheckWrites => (d, OnCheckWrites(d))
    case CommitWrites => OnCommit(d)
    case ProgDone => OnProgDone(d)
  }

  /** One received message: the switch of the pump. Unknown identifiers are ignored. */
  function Handle(d: DeviceState, f: Frame): (DeviceState, seq<Frame>)
    requires WellFormed(d)
  {
    match Dispatch(f.id)
    case None => (d, [])
    case Some(c) => Perform(d, c, f.data)
  }

  // ----- runs -----

  /** What happens around the pump between two evaluations of its loop condition. */
  datatype Event = Received(frame: Frame) | Tick

  function OnTick(d: DeviceState): DeviceState {
    match d.timer
    case Off => d
    case Armed(left) => if left <= 1 then d.(mode := DONE, timer := Off) else d.(timer := Armed(left - 1))
  }

  /** One turn of `while(state != DONE)`; a device that is done reacts to nothing. */
  function Step(d: DeviceState, e: Event): (DeviceState, seq<Frame>)
    requires WellFormed(d)
  {
    if d.mode == DONE then (d, [])
    else
      match e
      case Received(f) => Handle(d, f)
      case Tick => (OnTick(d), [])
  }

  function Run(d: DeviceState, events: seq<Event>): (result: (DeviceState, seq<Frame>))
    requires WellFormed(d)
    ensures WellFormed(result.0)
    decreases |events|
  {
    if events == [] then (d, [])
    else
      StepWellFormed(d, events[0]);
      var (d1, out1) := Step(d, events[0]);
      var (d2, out2) := Run(d1, events[1..]);
      (d2, out1 + out2)
  }

  /** The pump has quit: flash is locked before the jump to the user program. */
  function Finish(d: DeviceState): DeviceState {
    d.(flash := F.Lock(d.flash))
  }

  // ----- basic facts -----

  /** The answer to PROG_REQ, as a master decodes it: the page size of either target, as a logarithm,
      its number of pages, and its ELF machine type (40 for ARM, 83 for AVR). */
  lemma ReportedGeometry(p: F.Platform)
    ensures var (report, machine) := (GeometryReport(p), match p case STM32 => 40 case AVR => 83);
            && Pow2(report[0]) == F.PageSize(p)
            && ReadU16LE(report[1..3]) * F.PageSize(p) == F.FlashSize(p)
            && Geometry.ReportedSize(report) == F.FlashSize(p)
            && ReadU16LE(report[3..]) == machine
  {
    hide Geometry.ReportedSize, Geometry.Report, Pow2, ReadU16LE;
    PageSizes();
    match p
    case STM32 => Geometry.PowerReport(10, 0x400, 0x1_0000, 0x40, 40);
    case AVR => Geometry.PowerReport(7, 0x80, 0x8000, 0x100, 83);
  }

  lemma PageSizes()
    ensures Pow2(10) == 0x400 && Pow2(7) == 0x80
  {
  }

  /** What the messages that do not touch `state` can change. */
  lemma BodiesWellFormed(d: DeviceState, data: Payload)
    requires WellFormed(d)
    ensures var selected := OnSelectPage(d, data).0;
            WellFormed(selected) && selected == d.(page := selected.page)
    ensures WellFormed(OnSeek(d, data)) && OnSeek(d, data) == d.(cursor := OnSeek(d, data).cursor)
    ensures var written := OnWrite(d, data);
            WellFormed(written) && written == d.(cursor := written.cursor, staging := written.staging)
  {
    hide F.MaskedPage, F.PageWriteable, Patch;
  }

  /** 0 <= writeOffset <= page size, and nothing else goes out of shape, whatever arrives. */
  lemma StepWellFormed(d: DeviceState, e: Event)
    requires WellFormed(d)
    ensures WellFormed(Step(d, e).0)
    ensures Step(d, e).0.Platform() == d.Platform() && Step(d, e).0.devId == d.devId
  {
    hide F.Commit, F.Unlock, OnSelectPage, OnSeek, OnWrite, OnCheckWrites, Dispatch, GeometryReport, ReplyFrame;
    if e.Received? {
      BodiesWellFormed(d, e.frame.data);
    }
    F.UnlockKeepsPlatform(d.flash);
    F.CommitKeepsLock(d.flash, d.page, d.staging);
  }

  lemma {:induction false} RunConcat(d: DeviceState, a: seq<Event>, b: seq<Event>)
    requires WellFormed(d)
    ensures var (d1, out1) := Run(d, a);
            var (d2, out2) := Run(d1, b);
            Run(d, a + b) == (d2, out1 + out2)
    decreases |a|
  {
    hide Step;
    if a == [] {
      assert a + b == b && [] + Run(d, b).1 == Run(d, b).1;
    } else {
      assert (a + b)[0] == a[0] && (a + b)[1..] == a[1..] + b;
      StepWellFormed(d, a[0]);
      var (d1, out1) := Step(d, a[0]);
      RunConcat(d1, a[1..], b);
      var (d2, out2) := Run(d1, a[1..]);
      assert out1 + out2 + Run(d2, b).1 == out1 + (out2 + Run(d2, b).1);
    }
  }

  lemma RunOne(d: DeviceState, e: Event)
    requires WellFormed(d)
    ensures Run(d, [e]) == Step(d, e)
  {
    hide Step;
    StepWellFormed(d, e);
    var (d1, out) := Step(d, e);
    assert [e][1..] == [] && out + [] == out;
  }

  lemma RunFirst(d: DeviceState, e: Event, events: seq<Event>)
    requires WellFormed(d)
    ensures WellFormed(Step(d, e).0)
    ensures Run(d, [e] + events) == (Run(Step(d, e).0, events).0, Step(d, e).1 + Run(Step(d, e).0, events).1)
  {
    RunOne(d, e);
    RunConcat(d, [e], events);
  }

  lemma {:induction false} RunKeepsIdentity(d: DeviceState, events: seq<Event>)
    requires WellFormed(d)
    ensures Run(d, events).0.Platform() == d.Platform() && Run(d, events).0.devId == d.devId
    decreases |events|
  {
    hide Step;
    if events != [] {
      StepWellFormed(d, events[0]);
      RunKeepsIdentity(Step(d, events[0]).0, events[1..]);
    }
  }

  lemma StepAlive(d: DeviceState, e: Event)
    requires WellFormed(d) && d.mode != DONE
    ensures Step(d, e) == match e case Received(f) => Handle(d, f) case Tick => (OnTick(d), [])
  {
  }

  lemma {:induction false} DoneIsFinal(d: DeviceState, events: seq<Event>)
    requires WellFormed(d) && d.mode == DONE
    ensures Run(d, events) == (d, [])
    decreases |events|
  {
    if events != [] {
      var none: seq<Frame> := [];
      DoneIsFinal(d, events[1..]);
      assert Step(d, events[0]) == (d, none) && none + none == none;
    }
  }
}
