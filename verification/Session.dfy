/** Whole runs of the bootloader: its session states, the timeout between messages, and which part
    of the flash a run can touch. */
module Session {
  import opened Words
  import opened FlashBase
  import opened Messages
  import opened Protocol
  import F = Flash

  predicate IsCommand(e: Event, c: Command) {
    e.Received? && Dispatch(e.frame.id) == Some(c)
  }

  // ----- session states -----

  predicate PageAccepted(p: F.Platform, page: nat) {
    F.PageAligned(p, page) && page <= F.TopPage(p) && F.PageWriteable(p, page)
  }

  /** What every reachable state satisfies. */
  predicate Reached(d: DeviceState) {
    && WellFormed(d)
    && (d.mode == IDLE ==> d.timer.Armed?)
    && (d.mode == LOCKED || d.mode == UNLOCKED ==> d.timer.Off?)
    && (d.mode != DONE ==> (d.mode == UNLOCKED <==> !d.flash.IsLocked()))
    && (d.page == 0 || PageAccepted(d.Platform(), d.page))
  }

  lemma StagingIsEven(d: DeviceState)
    requires WellFormed(d)
    ensures |d.staging| % 2 == 0
  {
  }

  lemma StepKeepsReached(d: DeviceState, e: Event)
    requires Reached(d)
    ensures Reached(Step(d, e).0)
  {
    hide F.Commit, F.MaskedPage, F.PageWriteable, Patch, F.Unlock, F.PageAligned, Dispatch;
    hide OnCheckWrites, GeometryReport, ReplyFrame, WellFormed, F.TopPage;
    StepWellFormed(d, e);
    assert |d.staging| % 2 == 0 by { StagingIsEven(d); }
    F.CommitKeepsLock(d.flash, d.page, d.staging);
    if d.flash.IsLocked() {
      F.UnlockEffect(d.flash);
    }
  }

  /** From power-on, with interrupts between messages, UNLOCKED holds exactly when flash is unlocked,
      and the timeout runs exactly while the device is IDLE. */
  lemma {:induction false} RunReached(d: DeviceState, events: seq<Event>)
    requires Reached(d)
    ensures Reached(Run(d, events).0)
    decreases |events|
  {
    hide Step;
    if events != [] {
      StepKeepsReached(d, events[0]);
      RunReached(Step(d, events[0]).0, events[1..]);
    }
  }

  lemma BootedReached(d: DeviceState)
    requires Booted(d)
    ensures Reached(d)
  {
  }

  // ----- lifecycle -----

  function Ticks(events: seq<Event>): nat {
    if events == [] then 0 else (if events[0].Tick? then 1 else 0) + Ticks(events[1..])
  }

  predicate Without(events: seq<Event>, c: Command) {
    forall k :: 0 <= k < |events| ==> !IsCommand(events[k], c)
  }

  /** One event while IDLE: a PROG_DONE or the last tick ends it, and a tick brings the end one nearer. */
  lemma IdleStep(d: DeviceState, e: Event)
    requires Reached(d) && d.mode == IDLE && !IsCommand(e, ProgReq)
    ensures var d' := Step(d, e).0;
            && d'.flash == d.flash
            && (d'.mode == DONE <==> IsCommand(e, ProgDone) || (e.Tick? && d.timer.left <= 1))
            && (d'.mode == DONE && e.Tick? ==> d'.timer == Off)
            && (d'.mode != DONE ==>
                  d'.mode == IDLE && d'.timer == Armed(if e.Tick? then d.timer.left - 1 else d.timer.left))
  {
    hide F.MaskedPage, F.PageWriteable, Patch, Dispatch;
  }

  /** Without a PROG_REQ the flash is never touched, and the pump ends exactly when a PROG_DONE comes
      or the timer has run out: neither later nor earlier. */
  lemma {:induction false} TimeoutEndsSession(d: DeviceState, events: seq<Event>)
    requires Reached(d) && d.mode == IDLE && Without(events, ProgReq)
    ensures var d' := Run(d, events).0;
            && d'.flash == d.flash
            && (d'.mode == DONE <==>
                  !Without(events, ProgDone) || (Ticks(events) >= 1 && Ticks(events) >= d.timer.left))
            && (d'.mode == DONE && Without(events, ProgDone) ==> d'.timer == Off)
            && (d'.mode != DONE ==> d'.mode == IDLE && d'.timer == Armed(d.timer.left - Ticks(events)))
    decreases |events|
  {
    hide Step;
    if events != [] {
      IdleStep(d, events[0]);
      StepKeepsReached(d, events[0]);
      WithoutRest(events, ProgReq);
      WithoutRest(events, ProgDone);
      var d' := Step(d, events[0]).0;
      if d'.mode == DONE {
        DoneIsFinal(d', events[1..]);
      } else {
        TimeoutEndsSession(d', events[1..]);
      }
    }
  }

  lemma WithoutRest(events: seq<Event>, c: Command)
    requires events != []
    ensures Without(events, c) <==> !IsCommand(events[0], c) && Without(events[1..], c)
  {
    hide Dispatch;
    assert forall k :: 0 <= k < |events| - 1 ==> events[1..][k] == events[k + 1];
  }

  /** A PROG_REQ is accepted, the timeout called off and the geometry sent, exactly if it comes before
      the timer has run out and no PROG_DONE has come before it. */
  lemma {:induction false} AcceptedInTime(d: DeviceState, events: seq<Event>, e: Event)
    requires Reached(d) && d.mode == IDLE && Without(events, ProgReq) && IsCommand(e, ProgReq)
    ensures var (d', out) := Step(Run(d, events).0, e);
            && (d'.mode == LOCKED <==>
                  Without(events, ProgDone) && (Ticks(events) == 0 || Ticks(events) < d.timer.left))
            && (d'.mode == LOCKED ==>
                  d'.timer == Off && out == [ReplyFrame(ProgReqResp, d.devId, GeometryReport(d.Platform()))])
            && (d'.mode != LOCKED ==> d'.mode == DONE && out == [])
  {
    hide Run, Dispatch, GeometryReport, ReplyFrame;
    TimeoutEndsSession(d, events);
    RunReached(d, events);
    RunKeepsIdentity(d, events);
  }

  /** What an event cannot touch: each part of the state belongs to a few kinds of event, and a reply
      comes only with a message. */
  lemma StepFrame(d: DeviceState, e: Event)
    requires WellFormed(d)
    ensures var (d', out) := Step(d, e);
            && (d'.timer != d.timer ==> e.Tick? || (IsCommand(e, ProgReq) && d.mode == IDLE))
            && (d'.mode != d.mode ==>
                  e.Tick? || IsCommand(e, ProgReq) || IsCommand(e, Unlock) || IsCommand(e, ProgDone))
            && (d'.page != d.page ==> IsCommand(e, SelectPage))
            && (d'.cursor != d.cursor ==> IsCommand(e, Seek) || IsCommand(e, Write))
            && (d'.staging != d.staging ==> IsCommand(e, Write))
            && (d'.flash != d.flash ==> IsCommand(e, Unlock) || IsCommand(e, CommitWrites))
            && (out != [] ==> e.Received? && Dispatch(e.frame.id).Some?)
  {
    hide F.Commit, F.MaskedPage, F.PageWriteable, F.Unlock, Patch, Dispatch, OnCheckWrites, GeometryReport, ReplyFrame;
  }

  lemma ProgrammingStep(d: DeviceState, e: Event)
    requires Reached(d) && (d.mode == LOCKED || d.mode == UNLOCKED)
    ensures Step(d, e).0.mode == DONE <==> IsCommand(e, ProgDone)
    ensures Step(d, e).0.mode != IDLE
  {
    hide F.Commit, F.MaskedPage, F.PageWriteable, Patch, F.Unlock, Dispatch;
  }

  /** After a PROG_REQ was accepted no timeout ends the session any more: only PROG_DONE does. */
  lemma {:induction false} OnlyProgDoneEndsProgramming(d: DeviceState, events: seq<Event>)
    requires Reached(d) && (d.mode == LOCKED || d.mode == UNLOCKED)
    ensures Run(d, events).0.mode == DONE <==> !Without(events, ProgDone)
    ensures Run(d, events).0.mode != IDLE
    decreases |events|
  {
    hide Step;
    if events != [] {
      ProgrammingStep(d, events[0]);
      StepKeepsReached(d, events[0]);
      var d' := Step(d, events[0]).0;
      if d'.mode == DONE {
        DoneIsFinal(d', events[1..]);
      } else {
        OnlyProgDoneEndsProgramming(d', events[1..]);
        assert forall k :: 0 <= k < |events| - 1 ==> events[1..][k] == events[k + 1];
        assert Without(events, ProgDone) <==> Without(events[1..], ProgDone);
      }
    }
  }

  /** The user program is entered with flash locked and its contents as the pump left them. */
  lemma FinishLocks(d: DeviceState)
    requires WellFormed(d)
    ensures Finish(d).flash.IsLocked() && Finish(d).flash.Mem() == d.flash.Mem()
  {
  }

  // ----- the selected page -----

  /** The page selected after an event, as a reader of the bus would compute it. */
  function PageAfter(p: F.Platform, page: nat, e: Event): nat {
    if IsCommand(e, SelectPage) && |e.frame.data| == 4
       && F.PageWriteable(p, F.MaskedPage(p, ReadU32LE(e.frame.data)))
    then F.MaskedPage(p, ReadU32LE(e.frame.data))
    else page
  }

  function LastSelected(p: F.Platform, page: nat, events: seq<Event>): nat
    decreases |events|
  {
    if events == [] then page else LastSelected(p, PageAfter(p, page, events[0]), events[1..])
  }

  lemma StepSelects(d: DeviceState, e: Event)
    requires WellFormed(d)
    ensures Step(d, e).0.page == if d.mode == DONE then d.page else PageAfter(d.Platform(), d.page, e)
  {
    hide F.Commit, F.MaskedPage, F.PageWriteable, Patch, F.Unlock, Dispatch;
  }

  lemma {:induction false} RunSelects(d: DeviceState, events: seq<Event>)
    requires WellFormed(d) && Run(d, events).0.mode != DONE
    ensures Run(d, events).0.page == LastSelected(d.Platform(), d.page, events)
    decreases |events|
  {
    hide Step, PageAfter;
    if d.mode == DONE {
      DoneIsFinal(d, events);
    } else if events != [] {
      StepSelects(d, events[0]);
      StepWellFormed(d, events[0]);
      RunSelects(Step(d, events[0]).0, events[1..]);
    }
  }

  // ----- region safety -----

  /** Pages a COMMIT must not find selected: the page whose upper bound wraps and, on STM32, none. */
  predicate Stray(p: F.Platform, page: nat) {
    page == F.TopPage(p) || (page == 0 && p == F.STM32)
  }

  /** Does some COMMIT of an unlocked session find a stray page selected? */
  ghost predicate StrayCommitted(d: DeviceState, events: seq<Event>)
    requires WellFormed(d)
    decreases |events|
  {
    StepWellFormedFirst(d, events);
    events != [] && d.mode != DONE &&
    ((IsCommand(events[0], CommitWrites) && d.mode == UNLOCKED && Stray(d.Platform(), d.page)) ||
     StrayCommitted(Step(d, events[0]).0, events[1..]))
  }

  lemma StepWellFormedFirst(d: DeviceState, events: seq<Event>)
    requires WellFormed(d)
    ensures events != [] ==> WellFormed(Step(d, events[0]).0)
  {
    if events != [] {
      StepWellFormed(d, events[0]);
    }
  }

  lemma {:induction false} StrayCommittedConcat(d: DeviceState, a: seq<Event>, b: seq<Event>)
    requires WellFormed(d)
    ensures StrayCommitted(d, a + b) <==> StrayCommitted(d, a) || StrayCommitted(Run(d, a).0, b)
    decreases |a|
  {
    hide Step, Stray;
    if a == [] {
      assert a + b == b;
    } else if d.mode == DONE {
      DoneIsFinal(d, a);
    } else {
      assert (a + b)[0] == a[0] && (a + b)[1..] == a[1..] + b;
      StepWellFormed(d, a[0]);
      StrayCommittedConcat(Step(d, a[0]).0, a[1..], b);
    }
  }

  lemma StrayCommittedOne(d: DeviceState, e: Event)
    requires WellFormed(d)
    ensures StrayCommitted(d, [e]) <==>
            d.mode != DONE && IsCommand(e, CommitWrites) && d.mode == UNLOCKED && Stray(d.Platform(), d.page)
  {
    hide Step, Stray;
    StepWellFormed(d, e);
    assert [e][1..] == [];
    assert !StrayCommitted(Step(d, e).0, []);
  }

  /** The controller is only asked to erase or program inside the application region. */
  predicate SafeOp(p: F.Platform, op: Op) {
    match op
    case Erase(a) => F.AppPage(p, a)
    case Program(a) =>
      if p == F.AVR then F.AppPage(p, a) else F.AppStart(p) <= a && a + 2 <= F.AppEnd(p)
  }

  predicate SafelyExtends(p: F.Platform, before: seq<Op>, after: seq<Op>) {
    before <= after && forall k :: |before| <= k < |after| ==> SafeOp(p, after[k])
  }

  predicate BootloaderKept(p: F.Platform, before: seq<byte>, after: seq<byte>) {
    && |before| == |after| == F.FlashSize(p)
    && forall i :: 0 <= i < |before| && !(F.AppStart(p) <= F.FlashStart(p) + i < F.AppEnd(p)) ==> before[i] == after[i]
  }

  lemma PageOpsSafe(p: F.Platform, addr: nat)
    ensures (forall k :: 0 <= k < |F.PageOps(p, addr)| ==> SafeOp(p, F.PageOps(p, addr)[k])) <==> F.AppPage(p, addr)
  {
    var ops := F.PageOps(p, addr);
    if p == F.STM32 {
      forall k | 0 <= k < |ops| && F.AppPage(p, addr)
        ensures SafeOp(p, ops[k])
      {
        assert k > 0 ==> ops[k] == Program(addr + 2 * (k - 1));
      }
    }
    assert ops[0] == Erase(addr);
  }

  lemma SelectedIsAppPage(p: F.Platform, page: nat)
    requires PageAccepted(p, page)
    ensures F.AppPage(p, page) <==> page != F.TopPage(p)
  {
    F.PageWriteableExactly(p, page);
  }

  /** A COMMIT in an unlocked session: it stays inside the application region exactly when the
      selected page is not stray. */
  lemma CommitSafeExactly(d: DeviceState)
    requires Reached(d) && d.mode == UNLOCKED && d.flash.AtRest()
    ensures var g := OnCommit(d).0.flash;
            && (SafelyExtends(d.Platform(), d.flash.Ops(), g.Ops()) <==> !Stray(d.Platform(), d.page))
            && (!Stray(d.Platform(), d.page) ==> g.AtRest() && BootloaderKept(d.Platform(), d.flash.Mem(), g.Mem()))
  {
    hide F.Commit, F.PageOps, F.AppPage, SafeOp, F.PageWriteable, F.PageAligned, BootloaderKept, Overlay;
    var p, ops := d.Platform(), d.flash.Ops();
    var g := F.Commit(d.flash, d.page, d.staging).0;
    NothingKeepsBootloader(p, d.flash.Mem());
    if d.page == 0 {
      F.CommitNoPage(d.flash, d.staging);
      if p == F.STM32 {
        assert g.Ops()[|ops|] == Erase(0);
        assert !SafeOp(p, Erase(0)) by { NullIsUnsafe(); }
      }
    } else {
      SelectedIsAppPage(p, d.page);
      PageOpsSafe(p, d.page);
      if d.page == F.TopPage(p) {
        F.CommitTopPage(d.flash, d.staging);
      } else {
        F.CommitReplacesPage(d.flash, d.page, d.staging);
        AppPageKeepsBootloader(p, d.flash.Mem(), d.page, d.staging);
      }
      assert g.Ops() == ops + F.PageOps(p, d.page);
      forall k | 0 <= k < |F.PageOps(p, d.page)|
        ensures g.Ops()[|ops| + k] == F.PageOps(p, d.page)[k]
      {
      }
    }
  }

  lemma NothingKeepsBootloader(p: F.Platform, mem: seq<byte>)
    requires |mem| == F.FlashSize(p)
    ensures BootloaderKept(p, mem, mem)
  {
  }

  lemma NullIsUnsafe()
    ensures !SafeOp(F.STM32, Erase(0))
  {
  }

  lemma AppPageKeepsBootloader(p: F.Platform, mem: seq<byte>, page: nat, data: seq<byte>)
    requires F.AppPage(p, page) && |mem| == F.FlashSize(p) && |data| == F.PageSize(p)
    ensures BootloaderKept(p, mem, Overlay(mem, page - F.FlashStart(p), data))
  {
  }

  /** One step: unless it is a COMMIT of an unlocked session that finds a stray page selected, flash
      stays at rest, the controller is asked for nothing outside the application region, and the
      bootloader keeps its bytes. */
  lemma StepSafe(d: DeviceState, e: Event)
    requires Reached(d) && d.mode != DONE && d.flash.AtRest()
    requires !(IsCommand(e, CommitWrites) && d.mode == UNLOCKED && Stray(d.Platform(), d.page))
    ensures var d' := Step(d, e).0;
            && d'.flash.AtRest()
            && SafelyExtends(d.Platform(), d.flash.Ops(), d'.flash.Ops())
            && BootloaderKept(d.Platform(), d.flash.Mem(), d'.flash.Mem())
  {
    hide F.Commit, F.MaskedPage, F.PageWriteable, Patch, F.Unlock, Dispatch, SafeOp, F.PageAligned, F.PageOps, Stray;
    if IsCommand(e, CommitWrites) && d.mode == UNLOCKED {
      CommitSafeExactly(d);
    } else if d.flash.IsLocked() {
      F.UnlockEffect(d.flash);
    }
  }

  /** The only steps that ask the controller for anything are COMMITs of an unlocked session, and
      they ask for the page of the last accepted SELECT_PAGE. */
  lemma StepOps(d: DeviceState, e: Event)
    requires Reached(d) && d.mode != DONE && d.flash.AtRest()
    requires !(IsCommand(e, CommitWrites) && d.mode == UNLOCKED && Stray(d.Platform(), d.page))
    ensures var (g, d') := (d.flash, Step(d, e).0);
            && (d'.flash.Ops() != g.Ops() || d'.flash.Mem() != g.Mem() ==>
                && IsCommand(e, CommitWrites) && d.mode == UNLOCKED && F.AppPage(d.Platform(), d.page)
                && F.PageReplaced(g, d'.flash, d.page, d.staging))
  {
    hide F.Commit, F.MaskedPage, F.PageWriteable, Patch, F.Unlock, Dispatch;
    hide F.PageAligned, F.PageOps, F.AppPage, F.PageReplaced;
    if IsCommand(e, CommitWrites) && d.mode == UNLOCKED {
      if d.page == 0 {
        F.CommitNoPage(d.flash, d.staging);
      } else {
        SelectedIsAppPage(d.Platform(), d.page);
        F.CommitReplacesPage(d.flash, d.page, d.staging);
      }
    } else if d.flash.IsLocked() {
      F.UnlockEffect(d.flash);
    }
  }

  /** Over every run in which no COMMIT of an unlocked session found a stray page, flash is at rest,
      every page erased or programmed lies inside the application region, and the bootloader's bytes
      never change. */
  lemma {:induction false} RegionSafety(d: DeviceState, events: seq<Event>)
    requires Reached(d) && d.flash.AtRest()
    requires !StrayCommitted(d, events)
    ensures var d' := Run(d, events).0;
            && d'.flash.AtRest()
            && SafelyExtends(d.Platform(), d.flash.Ops(), d'.flash.Ops())
            && BootloaderKept(d.Platform(), d.flash.Mem(), d'.flash.Mem())
    decreases |events|
  {
    hide Step, SafeOp, Stray, F.AppStart, F.AppEnd, F.FlashStart, F.FlashSize;
    if d.mode == DONE {
      DoneIsFinal(d, events);
    } else if events != [] {
      StepSafe(d, events[0]);
      StepKeepsReached(d, events[0]);
      StepWellFormed(d, events[0]);
      RegionSafety(Step(d, events[0]).0, events[1..]);
    }
  }

  lemma {:induction false} OpsGrow(d: DeviceState, events: seq<Event>)
    requires Reached(d)
    ensures d.flash.Ops() <= Run(d, events).0.flash.Ops()
    decreases |events|
  {
    hide Step;
    if events != [] {
      StepOpsGrow(d, events[0]);
      StepKeepsReached(d, events[0]);
      OpsGrow(Step(d, events[0]).0, events[1..]);
    }
  }

  lemma StepOpsGrow(d: DeviceState, e: Event)
    requires Reached(d)
    ensures d.flash.Ops() <= Step(d, e).0.flash.Ops()
  {
    hide F.Commit, F.MaskedPage, F.PageWriteable, Patch, F.Unlock, Dispatch, F.PageAligned;
    F.CommitKeepsLock(d.flash, d.page, d.staging);
    if d.flash.IsLocked() {
      F.UnlockEffect(d.flash);
    }
  }

  /** The exact condition for region safety: a run asks the controller only for operations inside
      the application region if and only if no COMMIT of its unlocked session found a stray page. */
  lemma {:induction false} RegionSafeExactly(d: DeviceState, events: seq<Event>)
    requires Reached(d) && d.flash.AtRest()
    ensures SafelyExtends(d.Platform(), d.flash.Ops(), Run(d, events).0.flash.Ops()) <==> !StrayCommitted(d, events)
    decreases |events|
  {
    hide SafeOp, Stray;
    if d.mode == DONE {
      DoneIsFinal(d, events);
    } else if events != [] {
      hide Step;
      var e, p := events[0], d.Platform();
      var d' := Step(d, e).0;
      var end := Run(d, events).0.flash.Ops();
      StepKeepsReached(d, e);
      StepWellFormed(d, e);
      OpsGrow(d', events[1..]);
      StepOpsGrow(d, e);
      assert d'.flash.Ops() <= end;
      if IsCommand(e, CommitWrites) && d.mode == UNLOCKED && Stray(p, d.page) {
        CommitSafeExactly(d);
        CommitStep(d, e);
        var k :| |d.flash.Ops()| <= k < |d'.flash.Ops()| && !SafeOp(p, d'.flash.Ops()[k]);
        assert end[k] == d'.flash.Ops()[k];
      } else {
        StepSafe(d, e);
        RegionSafeExactly(d', events[1..]);
        SafelyExtendsCompose(p, d.flash.Ops(), d'.flash.Ops(), end);
      }
    }
  }

  lemma CommitStep(d: DeviceState, e: Event)
    requires WellFormed(d) && d.mode != DONE && IsCommand(e, CommitWrites)
    ensures Step(d, e) == OnCommit(d)
  {
  }

  lemma SafelyExtendsCompose(p: F.Platform, a: seq<Op>, b: seq<Op>, c: seq<Op>)
    requires SafelyExtends(p, a, b) && b <= c
    ensures SafelyExtends(p, a, c) <==> SafelyExtends(p, b, c)
  {
    hide SafeOp;
    if SafelyExtends(p, b, c) {
      forall k | |a| <= k < |c|
        ensures SafeOp(p, c[k])
      {
        if k < |b| {
          assert c[k] == b[k];
        }
      }
    }
  }
}
