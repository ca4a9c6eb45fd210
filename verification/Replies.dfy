/** What a master may conclude from a reply, and from its absence. */
module Replies {
  import opened Words
  import opened Messages
  import opened Protocol
  import opened Session
  import opened FlashBase
  import opened Staging
  import opened Upload
  import Crc
  import F = Flash

  /** An UNLOCK is answered exactly when the session is unlocked afterwards, flash included; flash
      contents are not involved. */
  lemma UnlockAnswered(d: DeviceState, e: Event)
    requires Reached(d) && d.mode != DONE && IsCommand(e, Unlock)
    ensures var (d', out) := Step(d, e);
            && (out == [] || out == [ReplyFrame(Unlocked, d.devId, [])])
            && (out != [] <==> d'.mode == UNLOCKED)
            && (out != [] <==> !d'.flash.IsLocked())
            && d'.flash.Mem() == d.flash.Mem() && d'.flash.Ops() == d.flash.Ops()
  {
    hide F.Unlock, ReplyFrame, Dispatch;
    if d.flash.IsLocked() {
      F.UnlockEffect(d.flash);
    }
  }

  /** The start of an application page other than the last. */
  predicate Application(p: F.Platform, addr: nat) {
    F.AppPage(p, addr) && addr + F.PageSize(p) != F.AppEnd(p)
  }

  /** A SELECT_PAGE is answered exactly when the page of the requested address is one the device
      takes; the answer names that page, and it is selected from then on. Without an answer the
      selection is what it was. */
  lemma SelectPageAnswered(d: DeviceState, e: Event)
    requires Reached(d) && d.mode != DONE && IsCommand(e, SelectPage)
    ensures var (p, data) := (d.Platform(), e.frame.data);
            var (d', out) := Step(d, e);
            && (out != [] <==> |data| == 4 && PageAccepted(p, F.MaskedPage(p, ReadU32LE(data))))
            && (out == [] ==> d' == d)
            && (out != [] ==>
                && d' == d.(page := F.MaskedPage(p, ReadU32LE(data)))
                && out == [ReplyFrame(PageSelected, d.devId, U32LE(d'.page))])
    ensures |e.frame.data| == 4 && Application(d.Platform(), ReadU32LE(e.frame.data)) ==>
            Step(d, e).0.page == ReadU32LE(e.frame.data) && Step(d, e).1 != []
  {
    hide ReplyFrame, Dispatch, F.MaskedPage, F.PageWriteable, F.AppPage, F.PageAligned;
    var p := d.Platform();
    if |e.frame.data| == 4 {
      var addr := ReadU32LE(e.frame.data);
      if Application(p, addr) {
        F.MaskKeepsPage(p, addr);
        AppPageWriteable(p, addr);
      }
    }
  }

  /** A COMMIT is answered exactly when the session is unlocked and a page is selected. Without an
      answer no byte of flash has changed. With one the selected page of flash holds the buffer,
      unless that was the wrapping top page: then STM32's flash is as before, and on AVR the buffer
      has replaced the last page of the bootloader. */
  lemma CommitAnswered(d: DeviceState, e: Event)
    requires Reached(d) && d.mode != DONE && d.flash.AtRest() && IsCommand(e, CommitWrites)
    ensures var (d', out) := Step(d, e);
            var (p, before, after) := (d.Platform(), d.flash.Mem(), d'.flash.Mem());
            && (out != [] <==> d.mode == UNLOCKED && d.page != 0)
            && (out == [] ==> after == before)
            && (out != [] ==>
                && out == [ReplyFrame(WritesCommitted, d.devId, U32LE(d.page))]
                && d'.Platform() == p && |d.staging| == F.PageSize(p) && |before| == F.FlashSize(p)
                && (d.page != F.TopPage(p) ==>
                    F.AppPage(p, d.page) && after == Overlay(before, d.page - F.FlashStart(p), d.staging))
                && (d.page == F.TopPage(p) ==>
                    after == if p == F.STM32 then before
                             else Overlay(before, F.FlashSize(p) - F.PageSize(p), d.staging)))
  {
    hide F.Commit, F.PageWriteable, F.PageAligned, ReplyFrame, Dispatch, Overlay;
    CommitStep(d, e);
    if d.mode == UNLOCKED {
      if d.page == 0 {
        F.CommitNoPage(d.flash, d.staging);
      } else if d.page == F.TopPage(d.Platform()) {
        F.CommitTopPage(d.flash, d.staging);
      } else {
        SelectedIsAppPage(d.Platform(), d.page);
        CommitEffect(d);
      }
    }
  }

  /** CHECK_WRITES, PROG_REQ and PROG_DONE are always answered, SEEK and WRITE never; none of them
      touches flash. */
  lemma OthersAnswered(d: DeviceState, e: Event)
    requires Reached(d) && d.mode != DONE && e.Received?
    ensures var (d', out) := Step(d, e);
            && (IsCommand(e, CheckWrites) ==>
                out == [ReplyFrame(WritesChecked, d.devId, U16LE(Crc.Crc16(d.staging)))] && d' == d)
            && (IsCommand(e, ProgReq) ==>
                out == [ReplyFrame(ProgReqResp, d.devId, GeometryReport(d.Platform()))]
                && (d.mode != IDLE ==> d' == d) && d'.mode != IDLE && d'.flash == d.flash)
            && (IsCommand(e, ProgDone) ==>
                out == [ReplyFrame(ProgDoneAck, d.devId, [])] && d' == d.(mode := DONE))
            && (IsCommand(e, Seek) || IsCommand(e, Write) ==> out == [] && d'.flash == d.flash)
  {
    hide F.Commit, F.MaskedPage, F.PageWriteable, F.Unlock, Dispatch, GeometryReport, ReplyFrame, Crc.Crc16, U16LE;
  }

  /** Whatever a message is and however it is handled: there is at most one answer, it is sent under
      the device's own number, and it carries the identifier of the command with bit 24 set. So a master
      knows what each answer answers. */
  lemma AnswerMatchesCommand(d: DeviceState, c: Command, data: Payload)
    requires WellFormed(d)
    ensures var out := Perform(d, c, data).1;
            && |out| <= 1
            && (out != [] ==> out[0].id == CommandFrame(c, d.devId, data).id | 0x0100_0000)
  {
    hide F.Commit, F.MaskedPage, F.PageWriteable, F.Unlock, GeometryReport, Crc.Crc16, U32LE, U16LE, DevMask;
    AnswerLayout(c, d.devId);
  }

  // ----- what a reader of the bus knows -----

  /** The CRC in the answer to a CHECK_WRITES is the one a master computes from its own traffic, and
      the session goes on as if it had not been asked. */
  lemma {:induction false} CheckPredicted(d: DeviceState, events: seq<Event>, e: Event)
    requires Booted(d) && Run(d, events).0.mode != DONE && IsCommand(e, CheckWrites)
    ensures var (d', out) := Step(Run(d, events).0, e);
            && d' == Run(d, events).0
            && out == [ReplyFrame(WritesChecked, d.devId, U16LE(Crc.Crc16(Replica(F.PageSize(d.Platform()), events))))]
  {
    hide Run, Step, Crc.Crc16, Replica;
    BootedReached(d);
    RunReached(d, events);
    RunKeepsIdentity(d, events);
    StagingIsReplica(d, events);
    OthersAnswered(Run(d, events).0, e);
  }

  /** A page and what a COMMIT put there. */
  datatype PageImage = PageImage(page: nat, image: seq<byte>)

  /** What a COMMIT after these events commits, as a reader of the bus knows it: the replica of the
      buffer, into the page of the last accepted SELECT_PAGE. */
  function Entry(p: F.Platform, events: seq<Event>): PageImage {
    PageImage(LastSelected(p, 0, events), Replica(F.PageSize(p), events))
  }

  /** Does an acknowledged COMMIT put `image` into the page, from `before` to `after`? */
  predicate PutThere(p: F.Platform, before: seq<byte>, after: seq<byte>, entry: PageImage) {
    && F.AppPage(p, entry.page) && |entry.image| == F.PageSize(p) && |before| == F.FlashSize(p)
    && after == Overlay(before, entry.page - F.FlashStart(p), entry.image)
  }

  predicate AnsweredCommit(b: DeviceState, e: Event)
    requires WellFormed(b)
  {
    IsCommand(e, CommitWrites) && Step(b, e).1 != []
  }

  predicate StrayCommit(b: DeviceState, e: Event) {
    b.mode != DONE && IsCommand(e, CommitWrites) && b.mode == UNLOCKED && Stray(b.Platform(), b.page)
  }

  /** The acknowledged COMMITs of a run, in order. */
  ghost function CommitLog(d: DeviceState, events: seq<Event>): seq<PageImage>
    requires WellFormed(d)
    decreases |events|
  {
    if events == [] then []
    else
      var n := |events| - 1;
      var (p, before) := (d.Platform(), events[..n]);
      CommitLog(d, before) + if AnsweredCommit(Run(d, before).0, events[n]) then [Entry(p, before)] else []
  }

  predicate InFlash(p: F.Platform, log: seq<PageImage>) {
    forall k :: 0 <= k < |log| ==> F.AppPage(p, log[k].page) && |log[k].image| == F.PageSize(p)
  }

  function Replayed(p: F.Platform, mem: seq<byte>, log: seq<PageImage>): (m: seq<byte>)
    requires |mem| == F.FlashSize(p) && InFlash(p, log)
    ensures |m| == |mem|
  {
    if log == [] then mem
    else
      var last := log[|log| - 1];
      Overlay(Replayed(p, mem, log[..|log| - 1]), last.page - F.FlashStart(p), last.image)
  }

  lemma FlashAfterStep(b: DeviceState, e: Event)
    requires Reached(b) && b.flash.AtRest() && !StrayCommit(b, e)
    ensures if AnsweredCommit(b, e)
            then b.mode != DONE
                 && PutThere(b.Platform(), b.flash.Mem(), Step(b, e).0.flash.Mem(), PageImage(b.page, b.staging))
            else Step(b, e).0.flash.Mem() == b.flash.Mem()
  {
    hide Step, Overlay, F.AppPage, F.PageReplaced, F.PageAligned, F.PageWriteable, F.TopPage, F.PageSize;
    if b.mode == DONE {
      DoneIsFinal(b, [e]);
      RunOne(b, e);
    } else {
      StepOps(b, e);
      if IsCommand(e, CommitWrites) {
        CommitAnswered(b, e);
      }
    }
  }

  /** The device's own page and buffer are what a reader of the bus takes them for. */
  lemma EntryIsState(d: DeviceState, events: seq<Event>)
    requires Booted(d) && Run(d, events).0.mode != DONE
    ensures Entry(d.Platform(), events) == PageImage(Run(d, events).0.page, Run(d, events).0.staging)
  {
    hide Run, Replica, LastSelected;
    StagingIsReplica(d, events);
    RunSelects(d, events);
  }

  /** What the user program finds in flash after the jump: the old contents with the page of every
      acknowledged COMMIT replaced, in order, by the image that was on the bus; and flash is locked. */
  lemma {:induction false} FlashAtJump(d: DeviceState, events: seq<Event>)
    requires Booted(d) && !StrayCommitted(d, events)
    ensures var (p, log) := (d.Platform(), CommitLog(d, events));
            var g := Finish(Run(d, events).0).flash;
            && InFlash(p, log)
            && g.IsLocked() && g.Mem() == Replayed(p, d.flash.Mem(), log)
    decreases |events|
  {
    hide Step, Entry, Overlay, PutThere, AnsweredCommit, Stray, F.AppPage;
    FinishLocks(Run(d, events).0);
    if events != [] {
      var n, p := |events| - 1, d.Platform();
      var before, e := events[..n], events[n];
      var b, log := Run(d, before).0, CommitLog(d, before);
      assert events == before + [e];
      StrayCommittedConcat(d, before, [e]);
      StrayCommittedOne(b, e);
      BootedReached(d);
      RunReached(d, before);
      RunKeepsIdentity(d, before);
      RegionSafety(d, before);
      RunConcat(d, before, [e]);
      RunOne(b, e);
      FlashAtJump(d, before);
      FinishLocks(b);
      FlashAfterStep(b, e);
      if AnsweredCommit(b, e) {
        EntryIsState(d, before);
        ReplayedPush(p, d.flash.Mem(), log, Entry(p, before), Step(b, e).0.flash.Mem());
      } else {
        assert log + [] == log;
      }
    }
  }

  lemma ReplayedPush(p: F.Platform, mem: seq<byte>, log: seq<PageImage>, entry: PageImage, after: seq<byte>)
    requires |mem| == F.FlashSize(p) && InFlash(p, log)
    requires PutThere(p, Replayed(p, mem, log), after, entry)
    ensures InFlash(p, log + [entry]) && after == Replayed(p, mem, log + [entry])
  {
    hide F.AppPage, Overlay;
    assert (log + [entry])[..|log|] == log;
  }
}
