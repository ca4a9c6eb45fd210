/** What flash holds after any schedule of statements and interrupt: between two messages, and wherever
    else the device may lose its power. */
module Schedules {
  import opened Words
  import opened FlashBase
  import opened Messages
  import opened Protocol
  import opened Session
  import opened Upload
  import opened Interleaving
  import opened Timeout
  import opened Linearization
  import opened Replies
  import F = Flash

  // ----- between two messages, and at the jump -----

  /** Between two messages, and when the user program is entered, flash holds the old contents with the
      page of every acknowledged COMMIT replaced, in order, by the image that was on the bus; without
      an accepted PROG_REQ, just the old contents. For the user program it is locked. */
  lemma FlashOfSchedule(c: Config, actions: seq<Action>)
    requires Started(c) && !Mid(After(c, actions).next) && !After(c, actions).strayed
    ensures var (p, b) := (c.d.Platform(), After(c, actions));
            var log := CommitLog(c.d, AsEvents(Fetched(c, actions)));
            && (b.accepted ==> InFlash(p, log) && b.d.flash.Mem() == Replayed(p, c.d.flash.Mem(), log))
            && (!b.accepted ==> b.d.flash.Mem() == c.d.flash.Mem())
            && (b.next.Jumped? ==> b.d.flash.IsLocked())
  {
    hide After, Run, Fetched, Frames, StrayCommitted, Ticks, CommitLog, Replayed, InFlash, AsEvents;
    var b := After(c, actions);
    AfterConsistent(c, actions);
    if b.accepted {
      AcceptedEvents(c, actions);
      var events := AsEvents(Fetched(c, actions));
      FlashAtJump(c.d, events);
      F.LockEffect(Run(c.d, events).0.flash);
    } else {
      UnacceptedUntouched(c, actions);
    }
  }

  lemma AcceptedEvents(c: Config, actions: seq<Action>)
    requires Started(c) && !Mid(After(c, actions).next) && After(c, actions).accepted
    ensures Stands(c, actions, AsEvents(Fetched(c, actions)))
  {
    hide After, Run, Fetched, Frames, StrayCommitted, Ticks, AsEvents;
    AfterConsistent(c, actions);
    AcceptedKept(After(c, actions));
    Linearizable(c, actions);
    var events :| Stands(c, actions, events);
    WithoutTicks(events);
  }

  lemma AcceptedKept(b: Config)
    requires Consistent(b) && b.accepted
    ensures !b.overwritten
  {
  }

  // ----- inside a message -----

  /** Between the calls of a COMMIT the driver has the selected page open, and if flash is unlocked and
      no stray page was found, that page is not stray. */
  predicate Committing(b: Config) {
    && (b.d.page == 0 || PageAccepted(b.d.Platform(), b.d.page))
    && (b.next.CommitFill? || b.next.CommitEnd? ==>
          F.CurPage(b.d.flash) == b.d.page && (!b.strayed ==> !FindsStray(b.d)))
  }

  lemma CommitCommitting(b: Config)
    requires WellFormed(b.d) && Committing(b) && CommitStatement(b.next)
    ensures Committing(ExecuteCommit(b))
  {
    hide F.BeginWrite, F.Fill, F.EndWrite, F.CurPage, ReplyFrame, PageAccepted, Stray, WellFormed;
    hide F.Flash.IsLocked, F.Flash.Platform, F.Flash.Mem;
    StagingIsEven(b.d);
    F.BeginOpens(b.d.flash, b.d.page);
    F.FillKeepsOpen(b.d.flash, b.d.staging);
    F.CallsRespectLock(b.d.flash, b.d.page, b.d.staging);
  }

  /** `e` is not inside a COMMIT, and its page is that of `b` or an accepted one. */
  predicate OutsideCommit(b: Config, e: Config) {
    && !e.next.CommitFill? && !e.next.CommitEnd? && e.d.Platform() == b.d.Platform()
    && (e.d.page == b.d.page || PageAccepted(e.d.Platform(), e.d.page))
  }

  lemma SessionOutsideCommit(b: Config)
    requires SessionStatement(b.next)
    ensures OutsideCommit(b, ExecuteSession(b))
  {
    hide F.Unlock, ReplyFrame, GeometryReport, PageAccepted, F.Flash.Platform;
    F.UnlockKeepsPlatform(b.d.flash);
  }

  lemma BodyOutsideCommit(b: Config)
    requires WellFormed(b.d) && BodyStatement(b.next)
    ensures OutsideCommit(b, ExecuteBody(b))
  {
    hide OnSelectPage, OnSeek, OnWrite, OnCheckWrites, PageAccepted;
    BodiesWellFormed(b.d, b.frame.data);
    SelectsAccepted(b.d, b.frame.data);
  }

  lemma LoopOutsideCommit(b: Config, input: Option<Frame>)
    requires !SessionStatement(b.next) && !CommitStatement(b.next) && !BodyStatement(b.next)
    ensures OutsideCommit(b, ExecuteLoop(b, input))
  {
    hide F.Lock, Dispatch, ReplyFrame, PageAccepted, F.Flash.Platform;
    F.LockEffect(b.d.flash);
  }

  lemma OtherCommitting(b: Config, a: Action)
    requires WellFormed(b.d) && Committing(b) && (a.Pump? ==> !CommitStatement(b.next))
    ensures Committing(Next(b, a))
  {
    hide ExecuteSession, ExecuteBody, ExecuteLoop, PageAccepted, Stray, F.CurPage;
    hide SessionStatement, CommitStatement, BodyStatement;
    if a.Pump? {
      if SessionStatement(b.next) {
        SessionOutsideCommit(b);
      } else if BodyStatement(b.next) {
        BodyOutsideCommit(b);
      } else {
        LoopOutsideCommit(b, a.input);
      }
    }
  }

  lemma SelectsAccepted(d: DeviceState, data: Payload)
    requires WellFormed(d)
    ensures var d' := OnSelectPage(d, data).0; d'.page == d.page || PageAccepted(d.Platform(), d'.page)
  {
    hide F.MaskedPage, F.PageWriteable, F.PageAligned;
  }

  lemma {:induction false} AfterCommitting(c: Config, actions: seq<Action>)
    requires Started(c)
    ensures Committing(After(c, actions))
  {
    hide Next, Committing;
    if actions == [] {
      StartedCommitting(c);
    } else {
      var n := |actions| - 1;
      var b, a := After(c, actions[..n]), actions[n];
      AfterCommitting(c, actions[..n]);
      if a.Pump? && CommitStatement(b.next) {
        CommitCommitting(b);
        PumpsCommit(b, a.input);
      } else {
        OtherCommitting(b, a);
      }
    }
  }

  lemma PumpsCommit(b: Config, input: Option<Frame>)
    requires WellFormed(b.d) && CommitStatement(b.next)
    ensures Next(b, Pump(input)) == ExecuteCommit(b)
  {
  }

  lemma StartedCommitting(c: Config)
    requires Started(c)
    ensures Committing(c)
  {
  }

  /** From `f` to `g` nothing has changed, or nothing but bytes of the application page at `page`. */
  predicate TornAt(page: nat, f: F.Flash, g: F.Flash) {
    && g.Platform() == f.Platform()
    && (g.Mem() == f.Mem() || (F.AppPage(f.Platform(), page) && F.SameOutside(f, g, page)))
  }

  lemma TornTwice(page: nat, f: F.Flash, g: F.Flash, h: F.Flash)
    requires TornAt(page, f, g) && TornAt(page, g, h)
    ensures TornAt(page, f, h)
  {
    hide F.AppPage, F.InPage;
  }

  lemma CommitTears(b: Config)
    requires Consistent(b) && Committing(b) && CommitStatement(b.next) && !ExecuteCommit(b).strayed
    ensures TornAt(b.d.page, b.d.flash, ExecuteCommit(b).d.flash)
    ensures ExecuteCommit(b).d.page == b.d.page
  {
    hide F.BeginWrite, F.Fill, F.EndWrite, F.CurPage, ReplyFrame, F.PageWriteable, F.PageAligned, F.AppPage;
    hide F.SameOutside, Dispatch, Accepted, Unaccepted;
    var f, p := b.d.flash, b.d.Platform();
    F.CallsRespectLock(f, b.d.page, b.d.staging);
    if !f.IsLocked() && !Stray(p, b.d.page) {
      if b.d.page == 0 {
        NoPageKeeps(f, b.d.staging);
      } else {
        SelectedIsAppPage(p, b.d.page);
        F.CallsInsidePage(f, b.d.page, b.d.staging);
      }
    }
  }

  lemma NoPageKeeps(f: F.Flash, data: seq<byte>)
    requires f.Platform() == F.AVR && |data| % 2 == 0
    ensures F.BeginWrite(f, 0).0.Mem() == f.Mem() && F.Fill(f, 0, data).0.Mem() == f.Mem()
    ensures F.CurPage(f) == 0 ==> F.EndWrite(f).0.Mem() == f.Mem()
  {
    F.CallsEffect(f, 0, data);
  }

  lemma StrayedStays(b: Config, a: Action)
    requires WellFormed(b.d) && b.strayed
    ensures Next(b, a).strayed
  {
    hide F.Unlock, F.BeginWrite, F.Fill, F.EndWrite, F.Lock, Dispatch, WellFormed;
    hide OnSelectPage, OnSeek, OnWrite, OnCheckWrites;
    hide FindsStray, ReplyFrame, GeometryReport;
  }

  /** Whatever is not a call of a COMMIT leaves flash alone; inside a message it leaves the selected
      page alone as well. */
  lemma OtherKeeps(b: Config, a: Action)
    requires Consistent(b) && (a.Pump? ==> !CommitStatement(b.next))
    ensures Untouched(b.d.flash, Next(b, a).d.flash)
    ensures Mid(Next(b, a).next) ==> Next(b, a).d.page == b.d.page
  {
    hide FirstOf, WellFormed;
    hide F.Unlock, F.Lock, Dispatch, OnSelectPage, OnSeek, OnWrite, OnCheckWrites, ReplyFrame, GeometryReport;
    hide ExecuteCommit;
    BodiesWellFormed(b.d, b.frame.data);
    F.LockEffect(b.d.flash);
    if b.d.flash.IsLocked() {
      F.UnlockEffect(b.d.flash);
    }
  }

  lemma UntouchedIsTorn(page: nat, f: F.Flash, g: F.Flash)
    requires Untouched(f, g)
    ensures TornAt(page, f, g)
  {
  }

  /** The part of the schedule up to the last moment between two messages. */
  ghost predicate Boundary(c: Config, actions: seq<Action>, k: nat)
    requires WellFormed(c.d)
  {
    var b := After(c, actions);
    && k <= |actions| && !Mid(After(c, actions[..k]).next)
    && Fetched(c, actions) == Fetched(c, actions[..k]) + if Mid(b.next) then [b.frame] else []
  }

  lemma StartedBetween(c: Config)
    requires Started(c)
    ensures !Mid(After(c, []).next)
  {
  }

  lemma MidFetchesNothing(b: Config, a: Action)
    requires Mid(b.next)
    ensures FetchedBy(b, a) == []
  {
  }

  lemma {:induction false} LastBoundary(c: Config, actions: seq<Action>) returns (k: nat)
    requires Started(c) && !After(c, actions).strayed
    ensures Boundary(c, actions, k) && !After(c, actions[..k]).strayed
    ensures TornAt(After(c, actions).d.page, After(c, actions[..k]).d.flash, After(c, actions).d.flash)
  {
    hide Next, Consistent, Committing, FetchedBy, TornAt, Fetched, Mid;
    var b' := After(c, actions);
    if !Mid(b'.next) {
      k := |actions|;
      assert actions[..k] == actions && Fetched(c, actions) + [] == Fetched(c, actions);
      UntouchedIsTorn(b'.d.page, b'.d.flash, b'.d.flash);
    } else {
      if actions == [] {
        StartedBetween(c);
      }
      var n := |actions| - 1;
      var b, a := After(c, actions[..n]), actions[n];
      assert actions == actions[..n] + [a];
      AfterConsistent(c, actions[..n]);
      AfterCommitting(c, actions[..n]);
      FetchedAppend(c, actions[..n], a);
      NextFrame(b, a);
      if b.strayed {
        StrayedStays(b, a);
      }
      if a.Pump? && CommitStatement(b.next) {
        PumpsCommit(b, a.input);
        CommitTears(b);
      } else {
        OtherKeeps(b, a);
        UntouchedIsTorn(b'.d.page, b.d.flash, b'.d.flash);
      }
      if Mid(b.next) {
        MidFetchesNothing(b, a);
        k := LastBoundary(c, actions[..n]);
        assert actions[..n][..k] == actions[..k];
        TornTwice(b'.d.page, After(c, actions[..k]).d.flash, b.d.flash, b'.d.flash);
      } else {
        k := n;
      }
    }
  }

  /** Wherever the device stops, at most one page is torn: flash is what it was at the last moment
      between two messages, which `FlashOfSchedule` gives, except for bytes of one application page, the
      one selected for the message in hand. */
  lemma OnePageTorn(c: Config, actions: seq<Action>)
    requires Started(c) && !After(c, actions).strayed
    ensures exists k: nat :: Boundary(c, actions, k)
              && TornAt(After(c, actions).d.page, After(c, actions[..k]).d.flash, After(c, actions).d.flash)
  {
    hide After, Fetched, TornAt, Mid;
    var k := LastBoundary(c, actions);
    assert Boundary(c, actions, k);
  }

  lemma PartsTear(b: Config, n: nat)
    requires Consistent(b) && Committing(b) && !b.strayed && 2 * n <= |b.d.staging|
    requires b.next.CommitFill? || b.next.CommitEnd?
    ensures TornAt(b.d.page, b.d.flash, F.PartOfFill(b.d.flash, b.d.staging, n))
    ensures TornAt(b.d.page, b.d.flash, F.PartOfEnd(b.d.flash))
  {
    hide F.PartOfFill, F.PartOfEnd, F.CurPage, F.PageWriteable, F.PageAligned, F.AppPage, F.InPage;
    hide Dispatch, Accepted, Unaccepted;
    var f, p := b.d.flash, b.d.Platform();
    if f.IsLocked() || b.d.page == 0 {
      F.PartsWithoutPage(f, b.d.staging, n);
    } else {
      SelectedIsAppPage(p, b.d.page);
      F.PartsInsidePage(f, b.d.page, b.d.staging, n);
    }
  }

  /** No more is torn when the device stops inside a call: after any number of the half-words of
      `cnFlashFill`, or between the erase and the write of `cnFlashEndWrite`. */
  lemma OnePageTornInside(c: Config, actions: seq<Action>, n: nat)
    requires Started(c) && !After(c, actions).strayed && 2 * n <= |After(c, actions).d.staging|
    requires After(c, actions).next.CommitFill? || After(c, actions).next.CommitEnd?
    ensures var b := After(c, actions);
            exists k: nat :: Boundary(c, actions, k)
              && TornAt(b.d.page, After(c, actions[..k]).d.flash, F.PartOfFill(b.d.flash, b.d.staging, n))
              && TornAt(b.d.page, After(c, actions[..k]).d.flash, F.PartOfEnd(b.d.flash))
  {
    hide After, Fetched, TornAt, Mid, Consistent, Committing, F.PartOfFill, F.PartOfEnd;
    var k := LastBoundary(c, actions);
    var b, f := After(c, actions), After(c, actions[..k]).d.flash;
    AfterConsistent(c, actions);
    AfterCommitting(c, actions);
    PartsTear(b, n);
    TornTwice(b.d.page, f, b.d.flash, F.PartOfFill(b.d.flash, b.d.staging, n));
    TornTwice(b.d.page, f, b.d.flash, F.PartOfEnd(b.d.flash));
    assert Boundary(c, actions, k);
  }

  lemma NextGrows(b: Config, a: Action)
    requires Consistent(b)
    ensures b.d.flash.Ops() <= Next(b, a).d.flash.Ops()
  {
    hide Next, Coherent;
    if a.Pump? && CommitStatement(b.next) {
      PumpsCommit(b, a.input);
      CommitGrows(b);
    } else {
      OtherKeeps(b, a);
    }
  }

  lemma CommitGrows(b: Config)
    requires Consistent(b) && CommitStatement(b.next)
    ensures b.d.flash.Ops() <= ExecuteCommit(b).d.flash.Ops()
  {
    hide F.BeginWrite, F.Fill, F.EndWrite, ReplyFrame, FindsStray, Coherent;
    StagingIsEven(b.d);
    F.CallsEffect(b.d.flash, b.d.page, b.d.staging);
  }

  lemma {:induction false} CompletedGrows(b: Config)
    requires Consistent(b)
    ensures b.d.flash.Ops() <= Completed(b).d.flash.Ops()
    decreases Rank(b.next)
  {
    hide Execute, Completed, Coherent;
    if Mid(b.next) {
      RankDecreases(b, None);
      CompletedOnce(b, None);
      NextConsistent(b, Pump(None));
      NextGrows(b, Pump(None));
      CompletedGrows(Execute(b, None));
    } else {
      CompletedAlready(b);
    }
  }

  /** Once the first call of a COMMIT is made it is settled whether the page was stray. */
  lemma {:induction false} StrayIsSettled(b: Config)
    requires WellFormed(b.d) && (b.next.CommitFill? || b.next.CommitEnd? || b.next.CommitReply? || b.next.LoopTest?)
    ensures Completed(b).strayed == b.strayed
    decreases Rank(b.next)
  {
    hide Execute, Completed;
    if Mid(b.next) {
      RankDecreases(b, None);
      CompletedOnce(b, None);
      LateCalls(b);
      StrayIsSettled(Execute(b, None));
    } else {
      CompletedAlready(b);
    }
  }

  lemma LateCalls(b: Config)
    requires WellFormed(b.d) && (b.next.CommitFill? || b.next.CommitEnd? || b.next.CommitReply?)
    ensures var e := Execute(b, None);
            e.strayed == b.strayed && (e.next.CommitEnd? || e.next.CommitReply? || e.next.LoopTest?)
  {
    hide F.Fill, F.EndWrite, ReplyFrame, WellFormed;
    StagingIsEven(b.d);
  }

  lemma TornKeepsBootloader(page: nat, f: F.Flash, g: F.Flash)
    requires TornAt(page, f, g)
    ensures BootloaderKept(f.Platform(), f.Mem(), g.Mem())
  {
    hide F.PageAligned;
  }

  lemma KeptTwice(p: F.Platform, a: seq<byte>, b: seq<byte>, c: seq<byte>)
    requires BootloaderKept(p, a, b) && BootloaderKept(p, b, c)
    ensures BootloaderKept(p, a, c)
  {
  }

  lemma SafePrefix(p: F.Platform, a: seq<Op>, b: seq<Op>, c: seq<Op>)
    requires a <= b <= c && SafelyExtends(p, a, c)
    ensures SafelyExtends(p, a, b)
  {
    hide SafeOp;
    forall k | |a| <= k < |b|
      ensures SafeOp(p, b[k])
    {
      assert b[k] == c[k];
    }
  }

  /** While no stray page was found, the record of operations is safe inside a message as well: when
      the message is handled to the end it is, and operations are only added on the way. */
  lemma {:induction false} OpsSafeAnywhere(c: Config, actions: seq<Action>)
    requires Started(c) && !After(c, actions).strayed
    ensures SafelyExtends(c.d.Platform(), c.d.flash.Ops(), After(c, actions).d.flash.Ops())
  {
    hide Next, Consistent, SafelyExtends, Fetched, Mid, Completed, BootloaderKept, SafeOp;
    var b' := After(c, actions);
    if !Mid(b'.next) {
      RegionSafeAlways(c, actions);
    } else {
      if actions == [] {
        StartedBetween(c);
      }
      var n, p := |actions| - 1, c.d.Platform();
      var b, a := After(c, actions[..n]), actions[n];
      AfterConsistent(c, actions[..n]);
      NextConsistent(b, a);
      if b.strayed {
        StrayedStays(b, a);
      }
      OpsSafeAnywhere(c, actions[..n]);
      if a.Pump? && CommitStatement(b.next) && !b.next.CommitTest? {
        PumpsCommit(b, a.input);
        LaterCommit(b);
        StrayIsSettled(b');
        CompletedGrows(b');
        NextGrows(b, a);
        SafelyExtendsPrefix(p, c.d.flash.Ops(), b.d.flash.Ops());
        var m := ReachesCompleted(c, actions, None);
        CompletedBetween(b');
        RegionSafeAlways(c, actions + Undisturbed(m, None));
        SafePrefix(p, c.d.flash.Ops(), b'.d.flash.Ops(), Completed(b').d.flash.Ops());
      } else if a.Pump? && b.next.CommitTest? {
        PumpsCommit(b, a.input);
        TestKeeps(b);
      } else {
        OtherKeeps(b, a);
      }
    }
  }

  lemma SafelyExtendsPrefix(p: F.Platform, a: seq<Op>, b: seq<Op>)
    requires SafelyExtends(p, a, b)
    ensures a <= b
  {
  }

  lemma LaterCommit(b: Config)
    requires Consistent(b) && CommitStatement(b.next) && !b.next.CommitTest? && Mid(ExecuteCommit(b).next)
    ensures var s := ExecuteCommit(b).next; s.CommitFill? || s.CommitEnd? || s.CommitReply?
  {
    hide F.BeginWrite, F.Fill, F.EndWrite, ReplyFrame, FindsStray, Coherent, WellFormed;
    StagingIsEven(b.d);
  }

  lemma TestKeeps(b: Config)
    requires WellFormed(b.d) && b.next.CommitTest?
    ensures ExecuteCommit(b).d == b.d
  {
  }

  lemma {:induction false} CompletedBetween(b: Config)
    requires WellFormed(b.d)
    ensures !Mid(Completed(b).next)
    decreases Rank(b.next)
  {
    hide Execute, Completed;
    if Mid(b.next) {
      RankDecreases(b, None);
      CompletedOnce(b, None);
      CompletedBetween(Execute(b, None));
    } else {
      CompletedAlready(b);
    }
  }

  lemma SizeTellsPlatform(p: F.Platform, before: F.Flash, f: F.Flash)
    requires BootloaderKept(p, before.Mem(), f.Mem())
    ensures f.Platform() == p
  {
  }

  /** Region safety at every statement of every schedule: as long as no COMMIT has found flash unlocked
      and a stray page selected, the controller was asked only for operations inside the application
      region and the bootloader has kept its bytes, wherever the device stops. */
  lemma RegionSafeAnywhere(c: Config, actions: seq<Action>)
    requires Started(c) && !After(c, actions).strayed
    ensures var (p, f, g) := (c.d.Platform(), c.d.flash, After(c, actions).d.flash);
            SafelyExtends(p, f.Ops(), g.Ops()) && BootloaderKept(p, f.Mem(), g.Mem())
  {
    hide After, Fetched, TornAt, Mid, SafelyExtends, BootloaderKept, Consistent;
    OpsSafeAnywhere(c, actions);
    var k := LastBoundary(c, actions);
    var f, g := After(c, actions[..k]).d.flash, After(c, actions).d.flash;
    RegionSafeAlways(c, actions[..k]);
    TornKeepsBootloader(After(c, actions).d.page, f, g);
    SizeTellsPlatform(c.d.Platform(), c.d.flash, f);
    KeptTwice(c.d.Platform(), c.d.flash.Mem(), f.Mem(), g.Mem());
  }
}
