/** Every schedule of statements and interrupt has the effect of a run of `Protocol`: the messages in
    the order in which they were received, and the timeout between two of them. What is proved of
    runs so holds of schedules. */
module Linearization {
  import opened Messages
  import opened Protocol
  import opened Session
  import opened Interleaving
  import opened Timeout
  import opened Upload
  import F = Flash

  /** The messages among some events. */
  function Frames(events: seq<Event>): seq<Frame> {
    if events == [] then []
    else (if events[0].Received? then [events[0].frame] else []) + Frames(events[1..])
  }

  lemma {:induction false} FramesConcat(a: seq<Event>, b: seq<Event>)
    ensures Frames(a + b) == Frames(a) + Frames(b)
  {
    if a == [] {
      assert a + b == b;
    } else {
      assert (a + b)[0] == a[0] && (a + b)[1..] == a[1..] + b;
      FramesConcat(a[1..], b);
    }
  }

  lemma {:induction false} TicksConcat(a: seq<Event>, b: seq<Event>)
    ensures Ticks(a + b) == Ticks(a) + Ticks(b)
  {
    if a == [] {
      assert a + b == b;
    } else {
      assert (a + b)[0] == a[0] && (a + b)[1..] == a[1..] + b;
      TicksConcat(a[1..], b);
    }
  }

  lemma FramesOne(f: Frame)
    ensures Frames([Received(f)]) == [f] && Ticks([Received(f)]) == 0
  {
    assert [Received(f)][1..] == [];
  }

  /** As many ticks as an armed timer needs to run out. */
  function Expiry(left: nat): (ticks: seq<Event>)
    ensures |ticks| >= 1 && forall k :: 0 <= k < |ticks| ==> ticks[k] == Tick
  {
    seq(if left <= 1 then 1 else left, _ => Tick)
  }

  lemma {:induction false} OnlyTicks(d: DeviceState, ticks: seq<Event>)
    requires WellFormed(d) && forall k :: 0 <= k < |ticks| ==> ticks[k] == Tick
    ensures Frames(ticks) == [] && !StrayCommitted(d, ticks) && Run(d, ticks).1 == []
    decreases |ticks|
  {
    hide Step, Stray;
    if ticks != [] {
      var none: seq<Frame> := [];
      assert Step(d, ticks[0]).1 == none && none + none == none by { TickIsSilent(d); }
      StepWellFormed(d, ticks[0]);
      OnlyTicks(Step(d, ticks[0]).0, ticks[1..]);
    }
  }

  lemma TickIsSilent(d: DeviceState)
    requires WellFormed(d)
    ensures Step(d, Tick).1 == []
  {
  }

  lemma {:induction false} ExpiryRuns(d: DeviceState, left: nat)
    requires WellFormed(d) && d.mode != DONE && d.timer == Armed(left)
    ensures Run(d, Expiry(left)) == (Expired(d), [])
    decreases left
  {
    hide Step;
    var d1 := Step(d, Tick).0;
    var none: seq<Frame> := [];
    assert none + none == none;
    StepWellFormed(d, Tick);
    StepAlive(d, Tick);
    if left <= 1 {
      assert Expiry(left) == [Tick];
      RunOne(d, Tick);
    } else {
      assert Expiry(left) == [Tick] + Expiry(left - 1);
      RunFirst(d, Tick, Expiry(left - 1));
      ExpiryRuns(d1, left - 1);
    }
  }

  /** Equal, but for the timer of a device that is done: nobody looks at it any more. */
  predicate Same(a: DeviceState, b: DeviceState) {
    if a.mode == DONE then b == a.(timer := b.timer) else b == a
  }

  /** A message other than UNLOCK and PROG_REQ may come before the timeout as well as after. */
  lemma ThenExpiry(x: DeviceState, left: nat, f: Frame)
    requires WellFormed(x) && x.mode == IDLE && x.timer == Armed(left)
    requires Dispatch(f.id) != Some(Unlock) && Dispatch(f.id) != Some(ProgReq)
    ensures WellFormed(Handle(x, f).0)
    ensures Run(x, [Received(f)]) == Handle(x, f)
    ensures Run(x, [Received(f)] + Expiry(left)).1 == Handle(x, f).1
    ensures Same(Expired(Handle(x, f).0), Run(x, [Received(f)] + Expiry(left)).0)
    ensures !StrayCommitted(x, [Received(f)] + Expiry(left))
  {
    hide Handle, Step, Run, Dispatch, Stray, Expiry, StrayCommitted;
    var y := Handle(x, f).0;
    StepAlive(x, Received(f));
    StepWellFormed(x, Received(f));
    RunOne(x, Received(f));
    HandleExpired(x, f);
    RunConcat(x, [Received(f)], Expiry(left));
    if y.mode == DONE {
      DoneIsFinal(y, Expiry(left));
    } else {
      ExpiryRuns(y, left);
    }
    StrayCommittedConcat(x, [Received(f)], Expiry(left));
    StrayCommittedOne(x, Received(f));
    OnlyTicks(y, Expiry(left));
    assert Handle(x, f).1 + [] == Handle(x, f).1;
  }

  /** Any message after the timeout is ignored. */
  lemma ExpiryThen(x: DeviceState, left: nat, f: Frame)
    requires WellFormed(x) && x.mode == IDLE && x.timer == Armed(left)
    ensures Run(x, Expiry(left) + [Received(f)]) == (Expired(x), [])
    ensures !StrayCommitted(x, Expiry(left) + [Received(f)])
  {
    hide Run, Stray, Expiry, StrayCommitted;
    ExpiryRuns(x, left);
    RunConcat(x, Expiry(left), [Received(f)]);
    DoneIsFinal(Expired(x), [Received(f)]);
    StrayCommittedConcat(x, Expiry(left), [Received(f)]);
    OnlyTicks(x, Expiry(left));
    StrayCommittedOne(Expired(x), Received(f));
    var none: seq<Frame> := [];
    assert none + none == none;
  }

  // ----- the simulation -----

  /** The replies of a run, after `o`, and in a schedule possibly one more: the answer to a PROG_REQ
      that came too late to be accepted. */
  predicate Answers(o: seq<Frame>, t: Config, replies: seq<Frame>) {
    t.out == o + replies || (t.d.mode == DONE && !t.accepted && t.out == o + replies + [Stats(t.d)])
  }

  /** The events `early + late` stand for a schedule that has led from `d0` to `b`: with the message
      in hand completed they lead to the same device, the same replies after `o`, and the same history.
      `late` is the part that an interrupt, or a message fetched after it, can still rearrange. */
  ghost predicate Tracks(d0: DeviceState, o: seq<Frame>, b: Config, early: seq<Event>, late: seq<Event>)
    requires WellFormed(d0) && WellFormed(b.d)
  {
    var (x, (r, replies), t) := (Run(d0, early).0, Run(d0, early + late), Completed(b));
    && Same(t.d, if b.next.Jumped? then Finish(r) else r)
    && Answers(o, t, replies)
    && (t.accepted || t.d.mode != DONE ==> Ticks(early + late) == 0)
    && (t.strayed <==> StrayCommitted(d0, early + late))
    && (Mid(b.next) && b.d.mode == IDLE && !b.accepted ==> 
          && x == b.d && late == [Received(b.frame)] && t.out == o + replies
          && (Dispatch(b.frame.id) == Some(ProgReq) ==> b.out == o + Run(d0, early).1))
    && (b.next.Receive? && b.d.mode == DONE ==>
          && b.out == o + replies
          && x.mode == IDLE && x.timer.Armed? && b.d == Expired(x) && late == Expiry(x.timer.left))
  }

  /** A pending message read while the device is not DONE. */
  lemma TrackFetch(d0: DeviceState, o: seq<Frame>, b: Config, f: Frame, early: seq<Event>, late: seq<Event>)
    requires WellFormed(d0) && Consistent(b) && b.next.Receive? && b.d.mode != DONE
    requires Tracks(d0, o, b, early, late) && !b.overwritten
    ensures WellFormed(Execute(b, Some(f)).d)
    ensures Tracks(d0, o, Execute(b, Some(f)), early + late, [Received(f)])
  {
    hide Run, Handle, Completed, Dispatch, Stray, StrayCommitted, Ticks, Coherent;
    var e := Received(f);
    CompletedAlready(b);
    IterationRefinesHandle(b, f);
    RunConcat(d0, early + late, [e]);
    RunOne(b.d, e);
    StepAlive(b.d, e);
    StrayCommittedConcat(d0, early + late, [e]);
    StrayCommittedOne(b.d, e);
    if b.d.mode == UNLOCKED {
      UnlockedUnlessOverwritten(b);
    }
    TicksConcat(early + late, [e]);
    FramesOne(f);
  }

  lemma UnlockedUnlessOverwritten(b: Config)
    requires Consistent(b) && !b.overwritten && b.d.mode == UNLOCKED
    ensures !b.d.flash.IsLocked()
  {
  }

  /** A PROG_REQ fetched although the interrupt had fired after the loop test: the timeout comes
      first, and the run ignores the message. */
  lemma TrackLateProgReq(d0: DeviceState, o: seq<Frame>, b: Config, f: Frame, early: seq<Event>, late: seq<Event>)
    requires WellFormed(d0) && WellFormed(b.d) && !b.accepted && b.next.Receive? && b.d.mode == DONE
    requires Tracks(d0, o, b, early, late) && Dispatch(f.id) == Some(ProgReq)
    ensures WellFormed(Execute(b, Some(f)).d)
    ensures Tracks(d0, o, Execute(b, Some(f)), early, late + [Received(f)])
    ensures Frames(early + (late + [Received(f)])) == Frames(early + late) + [f]
  {
    hide Run, Handle, Completed, Dispatch, Stray, StrayCommitted, Ticks, Frames, Expiry, ReplyFrame, GeometryReport;
    var x, e := Run(d0, early).0, Received(f);
    CompletedAlready(b);
    IterationRefinesHandle(b, f);
    HandleExpired(x, f);
    ExpiryThen(x, x.timer.left, f);
    ExpiryRuns(x, x.timer.left);
    RunConcat(d0, early, late);
    RunConcat(d0, early, late + [e]);
    StrayCommittedConcat(d0, early, late);
    StrayCommittedConcat(d0, early, late + [e]);
    OnlyTicks(x, late);
    FramesOne(f);
    assert early + (late + [e]) == early + late + [e];
    FramesConcat(early + late, [e]);
  }

  /** Any other message but an UNLOCK: it comes first. */
  lemma TrackLateOther(d0: DeviceState, o: seq<Frame>, b: Config, f: Frame, early: seq<Event>, late: seq<Event>)
    requires WellFormed(d0) && WellFormed(b.d) && !b.accepted && b.next.Receive? && b.d.mode == DONE
    requires Tracks(d0, o, b, early, late) && Dispatch(f.id) != Some(Unlock) && Dispatch(f.id) != Some(ProgReq)
    ensures WellFormed(Execute(b, Some(f)).d)
    ensures Tracks(d0, o, Execute(b, Some(f)), early, [Received(f)] + late)
    ensures Frames(early + ([Received(f)] + late)) == Frames(early + late) + [f]
  {
    hide Run, Handle, Completed, Dispatch, Stray, StrayCommitted, Ticks, Frames, Expiry, Stats;
    var x, e := Run(d0, early).0, Received(f);
    var before, out := Run(d0, early).1, Handle(x, f).1;
    CompletedAlready(b);
    IterationRefinesHandle(b, f);
    HandleExpired(x, f);
    ThenExpiry(x, x.timer.left, f);
    ExpiryRuns(x, x.timer.left);
    RunConcat(d0, early, late);
    RunConcat(d0, early, [e] + late);
    assert before + [] == before && o + (before + out) == o + before + out;
    StrayCommittedConcat(d0, early, late);
    StrayCommittedConcat(d0, early, [e] + late);
    OnlyTicks(x, late);
    FramesOne(f);
    FramesConcat(early, late);
    FramesConcat(early, [e] + late);
    FramesConcat([e], late);
    assert Frames(early) + [] == Frames(early) && [f] + [] == [f];
  }

  /** The rest of the message in hand. */
  lemma TrackMid(d0: DeviceState, o: seq<Frame>, b: Config, input: Option<Frame>, early: seq<Event>, late: seq<Event>)
    requires WellFormed(d0) && Consistent(b) && Mid(b.next)
    requires Tracks(d0, o, b, early, late)
    ensures WellFormed(Execute(b, input).d)
    ensures Tracks(d0, o, Execute(b, input), early, late)
  {
    hide Run, Completed, StrayCommitted, Execute, Coherent;
    CompletedOnce(b, input);
    RankDecreases(b, input);
    IdleKept(b, input);
  }

  /** While the device stays IDLE, a message that is not handled to the end has changed nothing. */
  lemma IdleKept(b: Config, input: Option<Frame>)
    requires Consistent(b) && Mid(b.next)
    ensures var e := Execute(b, input);
            Mid(e.next) && e.d.mode == IDLE && !e.accepted ==>
              && e.d == b.d && e.frame == b.frame && b.d.mode == IDLE && !b.accepted
              && (Dispatch(b.frame.id) == Some(ProgReq) ==> e.out == b.out)
  {
    hide F.Unlock, F.BeginWrite, F.Fill, F.EndWrite, F.Lock, Dispatch, WellFormed;
    hide OnSelectPage, OnSeek, OnWrite, OnCheckWrites;
    hide FindsStray, ReplyFrame, GeometryReport;
  }

  /** The statements around a message. */
  lemma TrackAround(d0: DeviceState, o: seq<Frame>, b: Config, input: Option<Frame>,
                    early: seq<Event>, late: seq<Event>)
    requires WellFormed(d0) && Consistent(b) && !Mid(b.next) && (b.next.Receive? ==> input.None?)
    requires Tracks(d0, o, b, early, late)
    ensures WellFormed(Execute(b, input).d)
    ensures Tracks(d0, o, Execute(b, input), early, late)
  {
    hide Run, Completed, StrayCommitted, Accepted, Unaccepted, Execute, F.Lock;
    NextWellFormed(b, Pump(input));
    AroundEffect(b, input);
    CompletedAlready(b);
    CompletedAlready(Execute(b, input));
  }

  lemma AroundEffect(b: Config, input: Option<Frame>)
    requires Consistent(b) && !Mid(b.next) && (b.next.Receive? ==> input.None?)
    ensures var e := Execute(b, input);
            && !Mid(e.next) && e.accepted == b.accepted && e.strayed == b.strayed && e.out == b.out
            && e.d == (if b.next.LockCall? then Finish(b.d) else b.d)
            && (b.next.LockCall? ==> b.d.mode == DONE)
            && (e.next.Jumped? <==> b.next.LockCall? || b.next.Jumped?)
            && (e.next.Receive? ==> e.d.mode != DONE)
  {
    hide F.Lock, Accepted, Unaccepted, WellFormed, Dispatch;
    match b.next
    case LoopTest =>
    case Receive =>
    case LockCall =>
    case Jumped =>
  }

  /** The interrupt, between two messages. */
  lemma TrackExpiry(d0: DeviceState, o: seq<Frame>, b: Config, early: seq<Event>, late: seq<Event>)
    requires WellFormed(d0) && Consistent(b) && !b.accepted && b.d.mode == IDLE && !Mid(b.next)
    requires Tracks(d0, o, b, early, late) && b.d.timer.Armed?
    ensures Tracks(d0, o, Interrupt(b), early + late, Expiry(b.d.timer.left))
    ensures Frames(early + late + Expiry(b.d.timer.left)) == Frames(early + late)
  {
    hide Run, Completed, StrayCommitted, Expiry, Frames, Ticks, Coherent;
    var left := b.d.timer.left;
    UnacceptedIdle(b);
    CompletedAlready(b);
    CompletedAlready(Interrupt(b));
    ExpiryRuns(b.d, left);
    RunConcat(d0, early + late, Expiry(left));
    StrayCommittedConcat(d0, early + late, Expiry(left));
    OnlyTicks(b.d, Expiry(left));
    FramesConcat(early + late, Expiry(left));
    assert Frames(early + late) + [] == Frames(early + late);
  }

  /** The interrupt, inside a message. */
  lemma TrackInside(d0: DeviceState, o: seq<Frame>, b: Config, early: seq<Event>, late: seq<Event>)
    returns (late': seq<Event>)
    requires WellFormed(d0) && Consistent(b) && !b.accepted && b.d.mode == IDLE && Mid(b.next)
    requires Tracks(d0, o, b, early, late) && Dispatch(b.frame.id) != Some(Unlock)
    ensures Tracks(d0, o, Interrupt(b), early, late')
    ensures Frames(early + late') == Frames(early + late)
  {
    hide Run, Handle, Completed, Dispatch, Stray, StrayCommitted, Ticks, Frames, Expiry, Coherent;
    var f, x := b.frame, Run(d0, early).0;
    var e := Received(f);
    UnacceptedIdle(b);
    InterruptInside(b);
    var left := x.timer.left;
    late' := if Dispatch(f.id) == Some(ProgReq) then Expiry(left) + [e] else [e] + Expiry(left);
    if Dispatch(f.id) == Some(ProgReq) {
      ExpiryThen(x, left, f);
    } else {
      ThenExpiry(x, left, f);
    }
    RunConcat(d0, early, late);
    RunConcat(d0, early, late');
    StrayCommittedConcat(d0, early, late);
    StrayCommittedConcat(d0, early, late');
    StrayCommittedOne(x, e);
    OnlyTicks(x, Expiry(left));
    FramesOne(f);
    FramesConcat(early, late);
    FramesConcat(early, late');
    FramesConcat(Expiry(left), [e]);
    FramesConcat([e], Expiry(left));
    assert [] + [f] == [f] && [f] + [] == [f];
  }

  /** The interrupt when its assignment makes no difference: the device is done already, or an
      accepted PROG_REQ is about to overwrite it. */
  lemma TrackSwallowed(d0: DeviceState, o: seq<Frame>, b: Config, early: seq<Event>, late: seq<Event>)
    requires WellFormed(d0) && Consistent(b) && (b.accepted || b.d.mode != IDLE)
    requires Tracks(d0, o, b, early, late)
    ensures Tracks(d0, o, Interrupt(b), early, late)
  {
    hide Run, Completed, StrayCommitted, Dispatch;
    var i := Interrupt(b);
    if b.d.timer.Armed? {
      if b.accepted {
        assert b.next.ProgReqStopTimer?;
        CompletedOnce(b, None);
        CompletedOnce(i, None);
        CompletedOnce(Execute(b, None), None);
        CompletedOnce(Execute(i, None), None);
      } else {
        CompletedAlready(b);
        CompletedAlready(i);
      }
    }
  }

  lemma TrackNext(d0: DeviceState, o: seq<Frame>, b: Config, a: Action, early: seq<Event>, late: seq<Event>)
    returns (early': seq<Event>, late': seq<Event>)
    requires WellFormed(d0) && Consistent(b) && Tracks(d0, o, b, early, late)
    requires WellFormed(Next(b, a).d) && !Completed(b).overwritten && !Completed(Next(b, a)).overwritten
    ensures Tracks(d0, o, Next(b, a), early', late')
    ensures Frames(early' + late') == Frames(early + late) + FetchedBy(b, a)
  {
    hide Tracks, Completed, Execute, Interrupt, Frames, Dispatch, Coherent;
    early', late' := early, late;
    assert Frames(early + late) + [] == Frames(early + late);
    match a
    case Pump(input) =>
      if Mid(b.next) {
        TrackMid(d0, o, b, input, early, late);
      } else if b.next.Receive? && input.Some? {
        CompletedAlready(b);
        if b.d.mode != DONE {
          TrackFetch(d0, o, b, input.value, early, late);
          early', late' := early + late, [Received(input.value)];
          FramesConcat(early + late, late');
          FramesOne(input.value);
        } else {
          NoLateUnlock(b, input.value);
          if Dispatch(input.value.id) == Some(ProgReq) {
            TrackLateProgReq(d0, o, b, input.value, early, late);
            late' := late + [Received(input.value)];
          } else {
            TrackLateOther(d0, o, b, input.value, early, late);
            late' := [Received(input.value)] + late;
          }
        }
      } else {
        TrackAround(d0, o, b, input, early, late);
      }
    case Timeout =>
      if b.accepted || b.d.mode != IDLE {
        TrackSwallowed(d0, o, b, early, late);
      } else if Mid(b.next) {
        InterruptInside(b);
        late' := TrackInside(d0, o, b, early, late);
      } else {
        UnacceptedIdle(b);
        TrackExpiry(d0, o, b, early, late);
        early', late' := early + late, Expiry(b.d.timer.left);
      }
  }

  lemma NoLateUnlock(b: Config, f: Frame)
    requires Consistent(b) && b.next.Receive? && b.d.mode == DONE
    ensures WellFormed(Execute(b, Some(f)).d) && !b.accepted
    ensures !Completed(Execute(b, Some(f))).overwritten ==> Dispatch(f.id) != Some(Unlock)
  {
    hide Completed, Dispatch, Handle, FindsStray;
    IterationRefinesHandle(b, f);
  }

  lemma {:induction false} CompletedKeeps(b: Config)
    requires WellFormed(b.d) && b.overwritten
    ensures Completed(b).overwritten
    decreases Rank(b.next)
  {
    hide Execute;
    if Mid(b.next) {
      RankDecreases(b, None);
      CompletedOnce(b, None);
      OverwrittenRemains(b, Pump(None));
      CompletedKeeps(Execute(b, None));
    }
  }

  lemma OverwrittenRemains(b: Config, a: Action)
    requires WellFormed(b.d) && b.overwritten
    ensures Next(b, a).overwritten
  {
    hide F.Unlock, F.BeginWrite, F.Fill, F.EndWrite, F.Lock, Dispatch, WellFormed;
    hide OnSelectPage, OnSeek, OnWrite, OnCheckWrites;
    hide FindsStray, ReplyFrame, GeometryReport;
  }

  /** A DONE that is, or will be, overwritten stays so. */
  lemma OverwrittenPersists(b: Config, a: Action)
    requires Consistent(b) && Completed(b).overwritten
    ensures WellFormed(Next(b, a).d) && Completed(Next(b, a)).overwritten
  {
    hide Completed, Execute, Dispatch, Coherent;
    NextWellFormed(b, a);
    if b.overwritten {
      OverwrittenRemains(b, a);
      CompletedKeeps(Next(b, a));
    } else if !Mid(b.next) {
      CompletedAlready(b);
    } else if a.Pump? {
      CompletedOnce(b, a.input);
    } else if b.d.timer.Armed? {
      ArmedInside(b);
      if b.accepted {
        StopTimerCompletes(b);
      } else {
        InterruptInside(b);
      }
    }
  }

  lemma ArmedInside(b: Config)
    requires Consistent(b) && Mid(b.next) && b.d.timer.Armed?
    ensures if b.accepted then b.next.ProgReqStopTimer? && !b.overwritten else b.d.mode == IDLE
  {
    hide Dispatch;
  }

  lemma StopTimerCompletes(b: Config)
    requires WellFormed(b.d) && b.next.ProgReqStopTimer?
    ensures Completed(b).overwritten == b.overwritten
  {
    hide Completed, WellFormed, GeometryReport, ReplyFrame;
    CompletedOnce(b, None);
    var b1 := Execute(b, None);
    CompletedOnce(b1, None);
    var b2 := Execute(b1, None);
    CompletedOnce(b2, None);
    CompletedAlready(Execute(b2, None));
  }

  lemma {:induction false} Linearized(c: Config, actions: seq<Action>) returns (early: seq<Event>, late: seq<Event>)
    requires Started(c) && !Completed(After(c, actions)).overwritten
    ensures Tracks(c.d, c.out, After(c, actions), early, late)
    ensures Frames(early + late) == Fetched(c, actions)
  {
    hide Next, Completed, Tracks, Frames, FetchedBy, Consistent;
    if actions == [] {
      early, late := [], [];
      TracksNothing(c);
    } else {
      var n := |actions| - 1;
      var b := After(c, actions[..n]);
      AfterConsistent(c, actions[..n]);
      if Completed(b).overwritten {
        OverwrittenPersists(b, actions[n]);
        assert false;
      }
      early, late := Linearized(c, actions[..n]);
      early, late := TrackNext(c.d, c.out, b, actions[n], early, late);
    }
  }

  lemma TracksNothing(c: Config)
    requires Started(c)
    ensures Tracks(c.d, c.out, c, [], []) && Frames([] + []) == []
  {
    var none: seq<Event> := [];
    assert none + none == none;
    assert c.out + [] == c.out;
    CompletedAlready(c);
  }

  // ----- the theorems -----

  /** Between two messages, or after the loop: the events stand for the schedule. */
  ghost predicate Stands(c: Config, actions: seq<Action>, events: seq<Event>)
    requires WellFormed(c.d)
  {
    var (b, (r, replies)) := (After(c, actions), Run(c.d, events));
    && Frames(events) == Fetched(c, actions)
    && Same(b.d, if b.next.Jumped? then Finish(r) else r)
    && Answers(c.out, b, replies)
    && (b.accepted ==> Ticks(events) == 0)
    && (b.strayed <==> StrayCommitted(c.d, events))
  }

  /** Every schedule in which no UNLOCK has overwritten a DONE has, between two messages, the effect and
      the replies of a run: its messages in order, with the timeout between two of them. While the device is not
      DONE this holds for no other schedule. */
  lemma Linearizable(c: Config, actions: seq<Action>)
    requires Started(c) && !Mid(After(c, actions).next)
    ensures !After(c, actions).overwritten ==> exists events :: Stands(c, actions, events)
    ensures After(c, actions).d.mode != DONE ==>
            (!After(c, actions).overwritten <==> exists events :: Stands(c, actions, events))
  {
    hide After, Completed, Run, Fetched, Frames, StrayCommitted;
    var b := After(c, actions);
    AfterConsistent(c, actions);
    CompletedAlready(b);
    if !b.overwritten {
      var early, late := Linearized(c, actions);
      assert Stands(c, actions, early + late);
    } else if b.d.mode != DONE {
      forall events | Stands(c, actions, events)
        ensures false
      {
        NoRunOverwritten(c.d, events, b);
      }
    }
  }

  lemma NoRunOverwritten(d0: DeviceState, events: seq<Event>, b: Config)
    requires Reached(d0) && Consistent(b) && b.overwritten && b.d.mode != DONE
    ensures b.d != Run(d0, events).0
  {
    hide Run;
    RunReached(d0, events);
  }

  function AsEvents(frames: seq<Frame>): seq<Event> {
    seq(|frames|, i requires 0 <= i < |frames| => Received(frames[i]))
  }

  lemma {:induction false} WithoutTicks(events: seq<Event>)
    requires Ticks(events) == 0
    ensures events == AsEvents(Frames(events))
  {
    if events != [] {
      WithoutTicks(events[1..]);
      assert events == [events[0]] + events[1..];
    }
  }

  /** Once a PROG_REQ was accepted, the interrupt has left no trace: the schedule has the effect of
      the messages alone, and their replies. */
  lemma AcceptedIsRun(c: Config, actions: seq<Action>)
    requires Started(c) && !Mid(After(c, actions).next) && After(c, actions).accepted
    ensures var (b, (r, replies)) := (After(c, actions), Run(c.d, AsEvents(Fetched(c, actions))));
            Same(b.d, if b.next.Jumped? then Finish(r) else r) && b.out == c.out + replies
  {
    hide After, Run, Fetched, Frames, StrayCommitted, Ticks;
    AfterConsistent(c, actions);
    Linearizable(c, actions);
    var events :| Stands(c, actions, events);
    WithoutTicks(events);
  }

  /** Region safety of every schedule, exactly: the controller was asked only for operations inside
      the application region if and only if no COMMIT found flash unlocked and a stray page selected;
      then the bootloader has kept its bytes. */
  lemma RegionSafeAlways(c: Config, actions: seq<Action>)
    requires Started(c) && !Mid(After(c, actions).next)
    ensures var (p, f, b) := (c.d.Platform(), c.d.flash, After(c, actions));
            && (SafelyExtends(p, f.Ops(), b.d.flash.Ops()) <==> !b.strayed)
            && (!b.strayed ==> BootloaderKept(p, f.Mem(), b.d.flash.Mem()))
            && (!b.strayed && !b.overwritten ==> b.d.flash.AtRest())
  {
    hide After, Run, Fetched, Frames, StrayCommitted, Ticks, SafeOp, SafelyExtends, BootloaderKept;
    var b, d0 := After(c, actions), c.d;
    AfterConsistent(c, actions);
    Linearizable(c, actions);
    if b.overwritten {
      OverwrittenUnaccepted(b);
      UnacceptedUntouched(c, actions);
      UntouchedIsSafe(d0.flash, b.d.flash);
    } else {
      var events :| Stands(c, actions, events);
      BootedReached(d0);
      RegionSafeExactly(d0, events);
      F.LockEffect(Run(d0, events).0.flash);
      if !b.strayed {
        RegionSafety(d0, events);
      }
    }
  }

  lemma UntouchedIsSafe(f: F.Flash, g: F.Flash)
    requires Untouched(f, g)
    ensures SafelyExtends(f.Platform(), f.Ops(), g.Ops()) && BootloaderKept(f.Platform(), f.Mem(), g.Mem())
  {
    hide SafeOp;
  }

  /** An upload under any schedule, all or nothing: if the messages received are those of a complete
      session, the user program finds the uploaded flash when the PROG_REQ was in time, and every page
      was acknowledged; it finds the flash untouched otherwise. Flash is locked either way. */
  lemma UploadAllOrNothing(c: Config, actions: seq<Action>, jobs: seq<PageJob>)
    requires Started(c) && CanUnlock(c.d.flash) && After(c, actions).next.Jumped?
    requires forall k :: 0 <= k < |jobs| ==> Uploadable(c.d.Platform(), jobs[k])
    requires AsEvents(Fetched(c, actions)) == CompleteSession(c.d.devId, jobs)
    ensures var b := After(c, actions);
            && b.d.flash.IsLocked()
            && b.d.flash.Mem() ==
               (if b.accepted then Flashed(c.d.Platform(), c.d.flash.Mem(), jobs) else c.d.flash.Mem())
            && (b.accepted ==>
                  b.out == c.out + ([Stats(c.d)] + [ReplyFrame(Unlocked, c.d.devId, [])]
                                    + Acknowledgements(c.d.devId, jobs) + [ReplyFrame(ProgDoneAck, c.d.devId, [])]))
  {
    hide ReplyFrame, GeometryReport, Acknowledgements;
    hide After, Run, Fetched, Flashed, Uploadable, CanUnlock, CompleteSession, AsEvents;
    AfterConsistent(c, actions);
    if After(c, actions).accepted {
      AcceptedIsRun(c, actions);
      CompleteSessionFlashes(c.d, jobs);
    } else {
      UnacceptedUntouched(c, actions);
    }
  }
}
