/** The converse of `Linearization`: every run of messages is a schedule, and every upload happens in
    one of them. */
module Realization {
  import opened Words
  import opened Messages
  import opened Protocol
  import opened Session
  import opened Upload
  import opened Interleaving
  import opened Timeout
  import opened Linearization
  import F = Flash

  lemma TwoStatements(c: Config, actions: seq<Action>, f: Frame) returns (fetched: seq<Action>)
    requires WellFormed(c.d) && After(c, actions).next.LoopTest? && After(c, actions).d.mode != DONE
    ensures After(c, fetched) == After(c, actions).(next := Switch, frame := f)
    ensures Fetched(c, fetched) == Fetched(c, actions) + [f]
  {
    hide After, Fetched;
    var p := Pump(Some(f));
    var test := actions + [p];
    fetched := test + [p];
    AfterAppend(c, actions, p);
    FetchedAppend(c, actions, p);
    AfterAppend(c, test, p);
    FetchedAppend(c, test, p);
    assert Fetched(c, actions) + [] == Fetched(c, actions);
  }

  lemma OneMessage(c: Config, actions: seq<Action>, f: Frame) returns (handled: seq<Action>)
    requires WellFormed(c.d) && After(c, actions).next.LoopTest? && After(c, actions).d.mode != DONE
    ensures After(c, handled) == Handled(After(c, actions), f)
    ensures Fetched(c, handled) == Fetched(c, actions) + [f]
  {
    hide After, Fetched, Completed, Handle, Dispatch, FindsStray;
    var fetched := TwoStatements(c, actions, f);
    var n := ReachesCompleted(c, fetched, None);
    handled := fetched + Undisturbed(n, None);
    SwitchRefines(After(c, fetched));
  }

  /** Every run of messages is a schedule: without interrupts the pump receives exactly these messages
      and ends up in the same state, with the same replies sent. */
  lemma {:induction false} RunRealised(c: Config, frames: seq<Frame>) returns (actions: seq<Action>)
    requires WellFormed(c.d) && c.next.LoopTest?
    requires frames != [] ==> Run(c.d, AsEvents(frames[..|frames| - 1])).0.mode != DONE
    ensures Fetched(c, actions) == frames && After(c, actions).next.LoopTest?
    ensures var (b, (r, replies)) := (After(c, actions), Run(c.d, AsEvents(frames)));
            && b.d == r && b.out == c.out + replies
            && (c.accepted ==> b.accepted)
            && (frames != [] && c.d.mode == IDLE && Dispatch(frames[0].id) == Some(ProgReq) ==> b.accepted)
    decreases |frames|
  {
    hide After, Fetched, Run, Handle, Dispatch, FindsStray;
    if frames == [] {
      actions := [];
      NothingRealised(c);
    } else {
      var n := |frames| - 1;
      var before, f := frames[..n], frames[n];
      assert AsEvents(frames) == AsEvents(before) + [Received(f)];
      RunConcat(c.d, AsEvents(before), [Received(f)]);
      if n > 0 {
        assert AsEvents(before) == AsEvents(before[..n - 1]) + [Received(before[n - 1])];
        RunConcat(c.d, AsEvents(before[..n - 1]), [Received(before[n - 1])]);
        if Run(c.d, AsEvents(before[..n - 1])).0.mode == DONE {
          DoneIsFinal(Run(c.d, AsEvents(before[..n - 1])).0, [Received(before[n - 1])]);
        }
      }
      var done := RunRealised(c, before);
      var b := After(c, done);
      actions := OneMessage(c, done, f);
      RunOne(b.d, Received(f));
      StepAlive(b.d, Received(f));
      if n == 0 {
        NothingRealised(c);
      }
    }
  }

  lemma NothingRealised(c: Config)
    requires WellFormed(c.d)
    ensures After(c, []) == c && Fetched(c, []) == [] && AsEvents([]) == [] && Run(c.d, []) == (c.d, [])
    ensures c.out + [] == c.out
  {
  }

  predicate AllReceived(events: seq<Event>) {
    forall k :: 0 <= k < |events| ==> events[k].Received?
  }

  lemma {:induction false} ReceivedTicks(events: seq<Event>)
    requires AllReceived(events)
    ensures Ticks(events) == 0
  {
    if events != [] {
      ReceivedTicks(events[1..]);
    }
  }

  lemma {:induction false} UploadReceived(dev: bv8, jobs: seq<PageJob>)
    ensures AllReceived(UploadEvents(dev, jobs))
  {
    hide CommandFrame, U32LE;
    if jobs != [] {
      UploadReceived(dev, jobs[1..]);
      assert AllReceived(PageSession(dev, jobs[0]));
    }
  }

  lemma SessionReceived(dev: bv8, jobs: seq<PageJob>)
    ensures AllReceived(CompleteSession(dev, jobs))
  {
    hide UploadEvents, CommandFrame;
    UploadReceived(dev, jobs);
  }

  lemma SessionFrames(dev: bv8, jobs: seq<PageJob>, frames: seq<Frame>)
    requires AsEvents(frames) == CompleteSession(dev, jobs)
    ensures frames != [] && Dispatch(frames[0].id) == Some(ProgReq)
    ensures AsEvents(frames[..|frames| - 1])
         == [Sent(dev, ProgReq, []), Sent(dev, Unlock, [])] + UploadEvents(dev, jobs)
  {
    hide UploadEvents, Dispatch;
    DispatchCommand(ProgReq, dev);
    var all := AsEvents(frames);
    assert all[0] == Received(frames[0]) && all[0] == Sent(dev, ProgReq, []);
    assert all[..|all| - 1] == [Sent(dev, ProgReq, []), Sent(dev, Unlock, [])] + UploadEvents(dev, jobs);
    assert AsEvents(frames[..|frames| - 1]) == all[..|all| - 1];
  }

  lemma BeforeProgDone(d: DeviceState, jobs: seq<PageJob>)
    requires Booted(d) && CanUnlock(d.flash)
    requires forall k :: 0 <= k < |jobs| ==> Uploadable(d.Platform(), jobs[k])
    ensures var opening := [Sent(d.devId, ProgReq, []), Sent(d.devId, Unlock, [])];
            Run(d, opening + UploadEvents(d.devId, jobs)).0.mode == UNLOCKED
  {
    hide Step, F.Unlock, Uploadable, Run, Booted, CanUnlock, UploadEvents, GeometryReport, ReplyFrame;
    OpeningEffect(d);
    var request, unlock, uploads := Sent(d.devId, ProgReq, []), Sent(d.devId, Unlock, []), UploadEvents(d.devId, jobs);
    var d1 := Step(d, request).0;
    UploadFlashes(Step(d1, unlock).0, jobs);
    RunFirst(d1, unlock, uploads);
    RunFirst(d, request, [unlock] + uploads);
    assert [request, unlock] + uploads == [request] + ([unlock] + uploads);
  }

  /** For every upload there is a schedule that receives it, accepts its PROG_REQ and gets to the jump. */
  lemma UploadHappens(c: Config, jobs: seq<PageJob>)
    requires Started(c) && CanUnlock(c.d.flash)
    requires forall k :: 0 <= k < |jobs| ==> Uploadable(c.d.Platform(), jobs[k])
    ensures exists actions :: After(c, actions).next.Jumped? && After(c, actions).accepted
                              && AsEvents(Fetched(c, actions)) == CompleteSession(c.d.devId, jobs)
  {
    hide After, Fetched, Run, Uploadable, CanUnlock, UploadEvents, Frames, Ticks, Flashed;
    hide CompleteSession, AsEvents, Dispatch, Acknowledgements, ReplyFrame, GeometryReport;
    var dev := c.d.devId;
    var session := CompleteSession(dev, jobs);
    SessionReceived(dev, jobs);
    ReceivedTicks(session);
    WithoutTicks(session);
    var frames := Frames(session);
    SessionFrames(dev, jobs, frames);
    BeforeProgDone(c.d, jobs);
    CompleteSessionFlashes(c.d, jobs);
    var actions := RunRealised(c, frames);
    Jump(c, actions);
  }

  lemma Jump(c: Config, actions: seq<Action>)
    requires WellFormed(c.d) && After(c, actions).next.LoopTest? && After(c, actions).d.mode == DONE
    ensures var end := actions + Undisturbed(2, None);
            && After(c, end).next.Jumped? && After(c, end).accepted == After(c, actions).accepted
            && Fetched(c, end) == Fetched(c, actions)
  {
    hide After, Fetched;
    var p := Pump(None);
    AfterAppend(c, actions, p);
    FetchedAppend(c, actions, p);
    AfterAppend(c, actions + [p], p);
    FetchedAppend(c, actions + [p], p);
    assert actions + Undisturbed(2, None) == actions + [p] + [p];
    assert Fetched(c, actions) + [] == Fetched(c, actions);
  }
}
