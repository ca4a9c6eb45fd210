/** What the timeout interrupt ends, wherever in the pump it fires, and what becomes of a pump that an
    UNLOCK has taken back from DONE. */
module Timeout {
  import opened Messages
  import opened Protocol
  import opened Session
  import opened Interleaving
  import Crc
  import F = Flash

  /** The device after its timer has run out. */
  function Expired(d: DeviceState): DeviceState {
    d.(mode := DONE, timer := Off)
  }

  /** The answer to a PROG_REQ. */
  function Stats(d: DeviceState): Frame {
    ReplyFrame(ProgReqResp, d.devId, GeometryReport(d.Platform()))
  }

  /** What a message does to a device whose timer ran out just before, compared to just after. */
  lemma HandleExpired(d: DeviceState, f: Frame)
    requires WellFormed(d) && d.mode == IDLE && d.timer.Armed?
    ensures var ((before, out), (after, out')) := (Handle(Expired(d), f), Handle(d, f));
            match Dispatch(f.id)
            case Some(Unlock) => before == Expired(d).(mode := UNLOCKED)
            case Some(ProgReq) => before == Expired(d) && out == [Stats(d)]
            case _ => before == Expired(after) && out == out'
                      && after.timer == d.timer && (after.mode == IDLE || after.mode == DONE)
  {
    hide Dispatch, F.MaskedPage, F.PageWriteable, F.Unlock, F.Commit, GeometryReport, ReplyFrame, Crc.Crc16;
  }

  // ----- the message in hand -----

  /** The message that is being handled, or that `cnCANRecv` is about to find. */
  function InHand(c: Config, input: Option<Frame>): Option<Command> {
    if Mid(c.next) then Dispatch(c.frame.id)
    else if c.next.Receive? && input.Some? then Dispatch(input.value.id)
    else None
  }

  /** The statements up to the next loop test, without an interrupt. */
  function Turn(c: Config, input: Option<Frame>): Config
    requires WellFormed(c.d)
  {
    if c.next.Receive? then
      NextWellFormed(c, Pump(input));
      Completed(Execute(c, input))
    else Completed(c)
  }

  /** At the first statement of its handler a message has had no effect yet. */
  lemma Restart(c: Config)
    requires Consistent(c) && Mid(c.next) && (c.next.Switch? || c.next == FirstOf(Concerns(c.next)))
    ensures Completed(c) == Handled(c, c.frame)
  {
    hide Completed, Dispatch, Handled, ExecuteSession, ExecuteCommit, ExecuteBody, Accepted, Unaccepted;
    var s := c.(next := Switch);
    SwitchRefines(s);
    SwitchGoes(c);
    if !c.next.Switch? {
      CompletedOnce(s, None);
    }
  }

  lemma SwitchGoes(c: Config)
    requires WellFormed(c.d)
    requires c.next.Switch? || (Dispatch(c.frame.id) == Concerns(c.next) && c.next == FirstOf(Concerns(c.next)))
    ensures Handled(c.(next := Switch), c.frame) == Handled(c, c.frame)
    ensures !c.next.Switch? ==> Execute(c.(next := Switch), None) == c
  {
    hide Dispatch, Handle, FindsStray;
  }

  /** The interrupt fires while a message is handled in IDLE: an UNLOCK takes the device on to
      UNLOCKED, a PROG_REQ comes too late, and any other message has the effect it would have had. */
  lemma InterruptInside(c: Config)
    requires Consistent(c) && !c.accepted && c.d.mode == IDLE && Mid(c.next)
    ensures var (t, i) := (Completed(c), Completed(Interrupt(c)));
            && i.next.LoopTest? && !i.accepted && !i.strayed && !t.overwritten && !t.strayed
            && match Dispatch(c.frame.id)
               case Some(Unlock) => i.d == Expired(c.d).(mode := UNLOCKED) && i.overwritten
               case Some(ProgReq) => i.d == Expired(c.d) && !i.overwritten && i.out == c.out + [Stats(c.d)]
               case _ => i.d == Expired(t.d) && !i.overwritten && !t.accepted && i.out == t.out
                         && t.d.timer == c.d.timer && (t.d.mode == IDLE || t.d.mode == DONE)
  {
    hide Completed, Dispatch, Handle, FindsStray, Coherent, Stats;
    UnacceptedIdle(c);
    var i := Interrupt(c);
    HandleExpired(c.d, c.frame);
    InterruptConsistent(c);
    if c.next.ProgDoneSet? {
      CompletedOnce(c, None);
      CompletedAlready(Execute(c, None));
      CompletedOnce(i, None);
      CompletedAlready(Execute(i, None));
    } else {
      Restart(c);
      Restart(i);
    }
  }

  /** What `Consistent` says of a device that is IDLE and has not accepted a PROG_REQ. */
  lemma UnacceptedIdle(c: Config)
    requires Consistent(c) && !c.accepted && c.d.mode == IDLE
    ensures c.d.timer.Armed? && !c.overwritten && !c.strayed && !c.next.LockCall? && !c.next.Jumped?
    ensures Mid(c.next) ==> c.next.Switch? || c.next.ProgDoneSet? || c.next == FirstOf(Concerns(c.next))
    ensures c.next.ProgDoneSet? ==> Dispatch(c.frame.id) == Some(ProgDone)
  {
    hide Dispatch, WellFormed;
  }

  /** Before a PROG_REQ was accepted, and wherever the interrupt fires: the turn of the loop it fires
      in ends at the loop test, and the pump is DONE there if and only if no UNLOCK is in hand. With
      one in hand it is UNLOCKED instead, with its timer off. */
  lemma TimeoutEndsExactly(c: Config, input: Option<Frame>)
    requires Consistent(c) && !c.accepted && c.d.mode == IDLE
    ensures var t := Turn(Interrupt(c), input);
            && t.next.LoopTest? && t.d.timer.Off? && !t.accepted
            && (t.d.mode == DONE <==> InHand(c, input) != Some(Unlock))
            && (t.d.mode == UNLOCKED && t.overwritten <==> InHand(c, input) == Some(Unlock))
  {
    hide Completed, Dispatch, Handle, FindsStray, Coherent, Consistent;
    UnacceptedIdle(c);
    var i := Interrupt(c);
    ConsistentWellFormed(c);
    if Mid(c.next) {
      InterruptInside(c);
    } else if c.next.Receive? {
      if input.Some? {
        IterationRefinesHandle(i, input.value);
        HandleExpired(c.d, input.value);
      } else {
        CompletedAlready(Execute(i, input));
      }
    } else {
      CompletedAlready(i);
    }
  }

  /** In every schedule: a timer that has run out has made the device DONE, unless a PROG_REQ was
      accepted before or an UNLOCK has overwritten it. */
  lemma TimerOffExactly(c: Config, actions: seq<Action>)
    requires Started(c) && After(c, actions).d.timer.Off?
    ensures var b := After(c, actions); b.accepted || b.overwritten || b.d.mode == DONE
  {
    hide After;
    AfterConsistent(c, actions);
  }

  // ----- lifted to every schedule -----

  /** `n` statements without an interrupt; `input` is what `cnCANRecv` finds. */
  function Undisturbed(n: nat, input: Option<Frame>): seq<Action> {
    seq(n, _ => Pump(input))
  }

  lemma {:induction false} ReachesCompleted(c: Config, actions: seq<Action>, input: Option<Frame>) returns (n: nat)
    requires WellFormed(c.d)
    ensures After(c, actions + Undisturbed(n, input)) == Completed(After(c, actions))
    ensures Fetched(c, actions + Undisturbed(n, input)) == Fetched(c, actions)
    decreases Rank(After(c, actions).next)
  {
    hide After, Execute, Completed, Fetched;
    var b := After(c, actions);
    if !Mid(b.next) {
      n := 0;
      CompletedAlready(b);
      assert actions + Undisturbed(0, input) == actions;
    } else {
      RankDecreases(b, input);
      CompletedOnce(b, input);
      AfterAppend(c, actions, Pump(input));
      FetchedAppend(c, actions, Pump(input));
      assert Fetched(c, actions) + [] == Fetched(c, actions);
      var m := ReachesCompleted(c, actions + [Pump(input)], input);
      n := m + 1;
      assert actions + [Pump(input)] + Undisturbed(m, input) == actions + Undisturbed(n, input);
    }
  }

  lemma ReachesTurn(c: Config, actions: seq<Action>, input: Option<Frame>) returns (n: nat)
    requires WellFormed(c.d)
    ensures After(c, actions + Undisturbed(n, input)) == Turn(After(c, actions), input)
  {
    hide After, Execute, Completed;
    if After(c, actions).next.Receive? {
      AfterAppend(c, actions, Pump(input));
      var m := ReachesCompleted(c, actions + [Pump(input)], input);
      n := m + 1;
      assert actions + [Pump(input)] + Undisturbed(m, input) == actions + Undisturbed(n, input);
    } else {
      n := ReachesCompleted(c, actions, input);
    }
  }

  lemma ReachesJump(c: Config, actions: seq<Action>, input: Option<Frame>)
    requires WellFormed(c.d)
    requires After(c, actions).next.LoopTest? && After(c, actions).d.mode == DONE
    ensures After(c, actions + Undisturbed(2, input)).next.Jumped?
  {
    hide After;
    var p := Pump(input);
    AfterAppend(c, actions, p);
    AfterAppend(c, actions + [p], p);
    assert actions + Undisturbed(2, input) == actions + [p] + [p];
  }

  /** From any schedule that leaves the device IDLE: if the timeout fires now, the pump goes on to
      the jump by itself, unless an UNLOCK is in hand; then it goes on to UNLOCKED. */
  lemma TimeoutEndsPump(c: Config, actions: seq<Action>, input: Option<Frame>)
    requires Started(c) && After(c, actions).d.mode == IDLE && !After(c, actions).accepted
    ensures InHand(After(c, actions), input) != Some(Unlock) ==>
              exists n: nat :: After(c, actions + [Timeout] + Undisturbed(n, input)).next.Jumped?
    ensures InHand(After(c, actions), input) == Some(Unlock) ==>
              exists n: nat :: var b := After(c, actions + [Timeout] + Undisturbed(n, input));
                               b.next.LoopTest? && b.d.mode == UNLOCKED && b.overwritten
  {
    hide After, Turn, Consistent, InHand;
    var b := After(c, actions);
    AfterConsistent(c, actions);
    TimeoutEndsExactly(b, input);
    var fired := actions + [Timeout];
    AfterAppend(c, actions, Timeout);
    var n := ReachesTurn(c, fired, input);
    if InHand(b, input) != Some(Unlock) {
      ReachesJump(c, fired + Undisturbed(n, input), input);
      assert fired + Undisturbed(n, input) + Undisturbed(2, input) == fired + Undisturbed(n + 2, input);
    }
  }

  // ----- where the history comes from -----

  ghost predicate Contains(frames: seq<Frame>, c: Command) {
    exists k :: 0 <= k < |frames| && Dispatch(frames[k].id) == Some(c)
  }

  lemma ContainsMore(a: seq<Frame>, b: seq<Frame>, c: Command)
    requires Contains(a, c)
    ensures Contains(a + b, c)
  {
    hide Dispatch;
    var k :| 0 <= k < |a| && Dispatch(a[k].id) == Some(c);
    assert (a + b)[k] == a[k];
  }

  lemma NextOverwrites(b: Config, a: Action)
    requires WellFormed(b.d) && !b.overwritten && Next(b, a).overwritten
    ensures b.next.UnlockSet?
  {
    hide F.Unlock, F.BeginWrite, F.Fill, F.EndWrite, F.Lock, Dispatch, WellFormed;
    hide OnSelectPage, OnSeek, OnWrite, OnCheckWrites;
    hide FindsStray, ReplyFrame, GeometryReport;
  }

  lemma Handles(b: Config)
    requires Consistent(b) && Mid(b.next) && !b.next.Switch?
    ensures Dispatch(b.frame.id) == Concerns(b.next)
  {
    hide Dispatch, WellFormed, Accepted, Unaccepted;
  }

  /** Done while its timer still runs. */
  predicate Dismissed(d: DeviceState) {
    d.mode == DONE && d.timer.Armed?
  }

  lemma NextDismisses(b: Config, a: Action)
    requires WellFormed(b.d) && !Dismissed(b.d) && Dismissed(Next(b, a).d)
    ensures b.next.ProgDoneSet?
  {
    hide ExecuteCommit, ExecuteBody, F.Unlock, F.Lock, Dispatch, WellFormed, FirstOf, ReplyFrame, GeometryReport;
    if CommitStatement(b.next) {
      CommitKeepsMode(b);
    } else if BodyStatement(b.next) {
      BodyKeepsMode(b);
    }
  }

  lemma CommitKeepsMode(b: Config)
    requires WellFormed(b.d) && CommitStatement(b.next)
    ensures ExecuteCommit(b).d.mode == b.d.mode && ExecuteCommit(b).d.timer == b.d.timer
    ensures ExecuteCommit(b).overwritten == b.overwritten
  {
    hide F.BeginWrite, F.Fill, F.EndWrite, WellFormed, FindsStray, ReplyFrame;
    StagingIsEven(b.d);
  }

  lemma BodyKeepsMode(b: Config)
    requires WellFormed(b.d) && BodyStatement(b.next)
    ensures ExecuteBody(b).d.mode == b.d.mode && ExecuteBody(b).d.timer == b.d.timer
    ensures ExecuteBody(b).overwritten == b.overwritten
  {
    hide OnSelectPage, OnSeek, OnWrite, OnCheckWrites;
    BodiesWellFormed(b.d, b.frame.data);
  }

  /** Only a PROG_REQ is accepted, only an UNLOCK overwrites, and only a PROG_DONE makes the device
      DONE with its timer running. */
  lemma {:induction false} HistoryFetched(c: Config, actions: seq<Action>)
    requires Started(c)
    ensures After(c, actions).accepted ==> Contains(Fetched(c, actions), ProgReq)
    ensures After(c, actions).overwritten ==> Contains(Fetched(c, actions), Unlock)
    ensures Dismissed(After(c, actions).d) ==> Contains(Fetched(c, actions), ProgDone)
  {
    hide Next, FetchedBy, Dispatch, Contains, Consistent;
    if actions != [] {
      var n := |actions| - 1;
      var b, a, before := After(c, actions[..n]), actions[n], Fetched(c, actions[..n]);
      AfterConsistent(c, actions[..n]);
      HistoryFetched(c, actions[..n]);
      if Next(b, a).accepted && !b.accepted {
        NextAccepts(b, a);
        HeldCommand(c, actions[..n]);
      }
      if Next(b, a).overwritten && !b.overwritten {
        NextOverwrites(b, a);
        HeldCommand(c, actions[..n]);
      }
      if Dismissed(Next(b, a).d) && !Dismissed(b.d) {
        NextDismisses(b, a);
        HeldCommand(c, actions[..n]);
      }
      if Contains(before, ProgDone) {
        ContainsMore(before, FetchedBy(b, a), ProgDone);
      }
      if Contains(before, ProgReq) {
        ContainsMore(before, FetchedBy(b, a), ProgReq);
      }
      if Contains(before, Unlock) {
        ContainsMore(before, FetchedBy(b, a), Unlock);
      }
    }
  }

  lemma HeldCommand(c: Config, actions: seq<Action>)
    requires Started(c) && Mid(After(c, actions).next) && !After(c, actions).next.Switch?
    ensures Concerns(After(c, actions).next).Some?
    ensures Contains(Fetched(c, actions), Concerns(After(c, actions).next).value)
  {
    hide After, Fetched, Dispatch, Consistent;
    AfterConsistent(c, actions);
    InHandFetched(c, actions);
    Handles(After(c, actions));
  }

  // ----- a pump taken back from DONE -----

  lemma OverwrittenNext(b: Config, a: Action)
    requires Consistent(b) && (b.overwritten ==> b.d.mode == UNLOCKED)
    ensures Next(b, a).overwritten ==> Next(b, a).d.mode == UNLOCKED || (b.next.ProgDoneSet? && a.Pump?)
  {
    hide ExecuteCommit, ExecuteBody, F.Unlock, F.Lock, Dispatch, WellFormed, FirstOf, ReplyFrame, GeometryReport;
    if CommitStatement(b.next) {
      CommitKeepsMode(b);
    } else if BodyStatement(b.next) {
      BodyKeepsMode(b);
    }
  }

  /** Once an UNLOCK has overwritten the DONE of the timeout, nothing but a PROG_DONE ends the pump:
      no interrupt is left to do it. Until then flash stays locked and as it was. */
  lemma {:induction false} OverwrittenNeverEnds(c: Config, actions: seq<Action>)
    requires Started(c) && After(c, actions).overwritten
    requires !Contains(Fetched(c, actions), ProgDone)
    ensures var b := After(c, actions);
            && b.d.mode == UNLOCKED && !b.next.LockCall? && !b.next.Jumped?
            && b.d.timer.Off? && b.d.flash.IsLocked() && Untouched(c.d.flash, b.d.flash)
  {
    hide After, Next, Dispatch, Fetched, Contains;
    OverwrittenStays(c, actions);
    AfterConsistent(c, actions);
    UnacceptedUntouched(c, actions);
  }

  lemma {:induction false} OverwrittenStays(c: Config, actions: seq<Action>)
    requires Started(c) && After(c, actions).overwritten
    requires !Contains(Fetched(c, actions), ProgDone)
    ensures After(c, actions).d.mode == UNLOCKED && !After(c, actions).accepted
  {
    hide Next, Dispatch, FetchedBy, Coherent, Contains;
    var n := |actions| - 1;
    var b := After(c, actions[..n]);
    var before := Fetched(c, actions[..n]);
    AfterConsistent(c, actions);
    AfterConsistent(c, actions[..n]);
    OverwrittenUnaccepted(After(c, actions));
    if Contains(before, ProgDone) {
      ContainsMore(before, FetchedBy(b, actions[n]), ProgDone);
    }
    if b.overwritten {
      OverwrittenStays(c, actions[..n]);
    }
    if b.next.ProgDoneSet? {
      HeldCommand(c, actions[..n]);
    }
    OverwrittenNext(b, actions[n]);
  }

  lemma OverwrittenUnaccepted(b: Config)
    requires Consistent(b) && b.overwritten
    ensures !b.accepted
  {
  }

  /** And a PROG_DONE does end it, at the end of the turn that handles it. */
  lemma {:induction false} OverwrittenTurn(b: Config)
    requires Consistent(b) && b.overwritten && b.d.mode == UNLOCKED && Mid(b.next)
    ensures Completed(b).next.LoopTest?
    ensures Completed(b).d.mode == DONE <==> Dispatch(b.frame.id) == Some(ProgDone)
    decreases Rank(b.next)
  {
    hide Execute, Completed, Dispatch, Coherent;
    var e := Execute(b, None);
    RankDecreases(b, None);
    CompletedOnce(b, None);
    NextConsistent(b, Pump(None));
    OverwrittenNext(b, Pump(None));
    OverwrittenKept(b);
    if b.next.ProgDoneSet? {
      Handles(b);
    }
    if Mid(e.next) {
      OverwrittenTurn(e);
    } else {
      CompletedAlready(e);
    }
  }

  lemma OverwrittenKept(b: Config)
    requires Consistent(b) && b.overwritten && Mid(b.next)
    ensures Execute(b, None).overwritten
    ensures b.next.ProgDoneSet? ==> !Mid(Execute(b, None).next) && Execute(b, None).d.mode == DONE
    ensures Dispatch(b.frame.id) == Some(ProgDone) && !b.next.ProgDoneSet? ==> Mid(Execute(b, None).next)
  {
    hide F.Unlock, F.BeginWrite, F.Fill, F.EndWrite, F.Lock, Dispatch, WellFormed;
    hide OnSelectPage, OnSeek, OnWrite, OnCheckWrites;
    hide FindsStray, ReplyFrame, GeometryReport, Accepted, Unaccepted;
  }

  /** At the statement that answers an UNLOCK the session is UNLOCKED; flash is unlocked as well
      exactly if the UNLOCK did not overwrite a DONE. */
  lemma UnlockReplyExactly(c: Config, actions: seq<Action>)
    requires Started(c) && After(c, actions).next.UnlockReply?
    ensures var b := After(c, actions);
            && b.d.mode == UNLOCKED
            && (!b.d.flash.IsLocked() <==> !b.overwritten)
            && (!b.d.flash.IsLocked() <==> b.accepted)
  {
    hide After;
    AfterConsistent(c, actions);
  }

  // ----- the race -----

  /** The schedule in which an UNLOCK overwrites the DONE of the interrupt. */
  function RaceSchedule(dev: bv8): seq<Action> {
    var unlock := Pump(Some(CommandFrame(Unlock, dev, [])));
    [unlock, unlock, unlock] + [Timeout] + [unlock] + [unlock] + [unlock]
  }

  lemma FirstStatements(c: Config, f: Frame)
    requires WellFormed(c.d) && Dispatch(f.id) == Some(Unlock)
    ensures c.next.LoopTest? && c.d.mode != DONE ==> Execute(c, Some(f)) == c.(next := Receive)
    ensures c.next.Receive? ==> Execute(c, Some(f)) == c.(next := Switch, frame := f)
    ensures c.next.Switch? && c.frame == f ==> Execute(c, Some(f)) == c.(next := UnlockTest)
  {
    hide Dispatch;
  }

  lemma ThreeStatements(c: Config, f: Frame)
    requires Started(c) && Dispatch(f.id) == Some(Unlock)
    ensures After(c, [Pump(Some(f)), Pump(Some(f)), Pump(Some(f))]) == c.(next := UnlockTest, frame := f)
  {
    hide After, Dispatch, Execute;
    var unlock := Pump(Some(f));
    AfterNone(c);
    AfterAppend(c, [], unlock);
    AfterAppend(c, [unlock], unlock);
    AfterAppend(c, [unlock, unlock], unlock);
    assert [] + [unlock] == [unlock] && [unlock] + [unlock] == [unlock, unlock];
    assert [unlock, unlock] + [unlock] == [unlock, unlock, unlock];
    FirstStatements(c, f);
    FirstStatements(c.(next := Receive), f);
    FirstStatements(c.(next := Switch, frame := f), f);
  }

  /** An UNLOCK being handled when the timeout fires leaves the pump running in UNLOCKED, with
      flash locked: at statement level UNLOCKED alone does not mean that flash is unlocked. */
  lemma TimeoutOverwritten(c: Config)
    requires Started(c)
    ensures var b := After(c, RaceSchedule(c.d.devId));
            b.d.mode == UNLOCKED && b.d.flash.IsLocked() && b.d.timer.Off? && b.overwritten && b.next.UnlockReply?
  {
    hide After, Dispatch, CommandFrame, Execute;
    var f := CommandFrame(Unlock, c.d.devId, []);
    var unlock := Pump(Some(f));
    UnlockDispatched(c.d.devId);
    ThreeStatements(c, f);
    var s3 := [unlock, unlock, unlock];
    var c4 := c.(next := UnlockTest, frame := f, d := c.d.(mode := DONE, timer := Off));
    AfterAppend(c, s3, Timeout);
    assert After(c, s3 + [Timeout]) == c4;
    LateStatements(c4);
    LateStatements(c4.(next := UnlockLockedTest));
    LateStatements(c4.(next := UnlockSet));
    AfterAppend(c, s3 + [Timeout], unlock);
    AfterAppend(c, s3 + [Timeout] + [unlock], unlock);
    AfterAppend(c, s3 + [Timeout] + [unlock] + [unlock], unlock);
  }

  lemma LateStatements(c: Config)
    requires WellFormed(c.d) && c.d.mode == DONE
    ensures forall input ::
      && (c.next.UnlockTest? ==> Execute(c, input) == c.(next := UnlockLockedTest))
      && (c.next.UnlockLockedTest? ==> Execute(c, input) == c.(next := UnlockSet))
      && (c.next.UnlockSet? ==>
          Execute(c, input) == c.(next := UnlockReply, d := c.d.(mode := UNLOCKED), overwritten := true))
  {
  }

  lemma UnlockDispatched(dev: bv8)
    ensures Dispatch(CommandFrame(Unlock, dev, []).id) == Some(Unlock)
  {
    DispatchCommand(Unlock, dev);
  }

  lemma AfterNone(c: Config)
    requires WellFormed(c.d)
    ensures After(c, []) == c
  {
  }
}
