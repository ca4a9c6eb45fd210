/** The pump of src/common/main.c one statement at a time, with the timeout interrupt free to fire
    between any two statements. */
module Interleaving {
  import opened Words
  import opened Messages
  import opened Protocol
  import opened Session
  import F = Flash

  /** The statement to be executed next. Every access to `state` is a statement of its own. */
  datatype Statement =
    | LoopTest | Receive | Switch
    | ProgReqTest | ProgReqStopTimer | ProgReqSet | ProgReqReply
    | UnlockTest | UnlockLockedTest | UnlockCall | UnlockSet | UnlockReply
    | SelectPageBody | SeekBody | WriteBody | CheckWritesBody
    | CommitTest | CommitBegin | CommitFill | CommitEnd | CommitReply
    | ProgDoneReply | ProgDoneSet
    | LockCall | Jumped

  /** The last three are history: a PROG_REQ has found the device IDLE; an UNLOCK has overwritten a
      DONE; a COMMIT has found flash unlocked and a stray page selected. */
  datatype Config = Config(
    d: DeviceState,
    next: Statement,
    frame: Frame,
    out: seq<Frame>,
    accepted: bool,
    overwritten: bool,
    strayed: bool)
  {
    function Goto(s: Statement): Config {
      this.(next := s)
    }

    function With(s: Statement, d': DeviceState): Config {
      this.(next := s, d := d')
    }

    function Send(r: Reply, data: Payload): Config {
      this.(out := out + [ReplyFrame(r, d.devId, data)])
    }
  }

  predicate SessionStatement(s: Statement) {
    s.ProgReqTest? || s.ProgReqStopTimer? || s.ProgReqSet? || s.ProgReqReply? || s.UnlockTest?
    || s.UnlockLockedTest? || s.UnlockCall? || s.UnlockSet? || s.UnlockReply?
  }

  predicate CommitStatement(s: Statement) {
    s.CommitTest? || s.CommitBegin? || s.CommitFill? || s.CommitEnd? || s.CommitReply?
  }

  predicate BodyStatement(s: Statement) {
    s.SelectPageBody? || s.SeekBody? || s.WriteBody? || s.CheckWritesBody?
  }

  /** Would a COMMIT that gets this far leave the application region? */
  predicate FindsStray(d: DeviceState) {
    !d.flash.IsLocked() && Stray(d.Platform(), d.page)
  }

  /** The statements of PROG_REQ and UNLOCK. */
  function ExecuteSession(c: Config): Config
    requires SessionStatement(c.next)
  {
    var d := c.d;
    match c.next
    case ProgReqTest => if d.mode == IDLE then c.(next := ProgReqStopTimer, accepted := true) else c.Goto(ProgReqReply)
    case ProgReqStopTimer => c.With(ProgReqSet, d.(timer := Off))
    case ProgReqSet => c.With(ProgReqReply, d.(mode := LOCKED))
    case ProgReqReply => c.Send(ProgReqResp, GeometryReport(d.Platform())).Goto(LoopTest)
    case UnlockTest => c.Goto(if d.mode != IDLE then UnlockLockedTest else LoopTest)
    case UnlockLockedTest => c.Goto(if d.mode == LOCKED then UnlockCall else UnlockSet)
    case UnlockCall =>
      var (flash, ok) := F.Unlock(d.flash);
      c.With(if ok then UnlockSet else LoopTest, d.(flash := flash))
    case UnlockSet =>
      c.With(UnlockReply, d.(mode := UNLOCKED)).(overwritten := c.overwritten || d.mode == DONE)
    case UnlockReply => c.Send(Unlocked, []).Goto(LoopTest)
  }

  /** The statements of COMMIT_WRITES. */
  function ExecuteCommit(c: Config): Config
    requires WellFormed(c.d) && CommitStatement(c.next)
  {
    var d := c.d;
    match c.next
    case CommitTest => c.Goto(if d.mode == UNLOCKED then CommitBegin else LoopTest)
    case CommitBegin =>
      var (flash, ok) := F.BeginWrite(d.flash, d.page);
      c.With(if ok then CommitFill else LoopTest, d.(flash := flash)).(strayed := c.strayed || FindsStray(d))
    case CommitFill => c.With(CommitEnd, d.(flash := F.Fill(d.flash, 0, d.staging).0))
    case CommitEnd =>
      var (flash, ok) := F.EndWrite(d.flash);
      c.With(if ok then CommitReply else LoopTest, d.(flash := flash))
    case CommitReply => c.Send(WritesCommitted, U32LE(d.page)).Goto(LoopTest)
  }

  /** The messages whose handling the interrupt cannot split: they do not look at `state`. */
  function ExecuteBody(c: Config): Config
    requires WellFormed(c.d) && BodyStatement(c.next)
  {
    var d := c.d;
    match c.next
    case SelectPageBody => var (d', out) := OnSelectPage(d, c.frame.data); c.With(LoopTest, d').(out := c.out + out)
    case SeekBody => c.With(LoopTest, OnSeek(d, c.frame.data))
    case WriteBody => c.With(LoopTest, OnWrite(d, c.frame.data))
    case CheckWritesBody => c.Goto(LoopTest).(out := c.out + OnCheckWrites(d))
  }

  /** Where the switch goes. */
  function FirstOf(command: Option<Command>): Statement {
    match command
    case None => LoopTest
    case Some(ProgReq) => ProgReqTest
    case Some(Unlock) => UnlockTest
    case Some(SelectPage) => SelectPageBody
    case Some(Seek) => SeekBody
    case Some(Write) => WriteBody
    case Some(CheckWrites) => CheckWritesBody
    case Some(CommitWrites) => CommitTest
    case Some(ProgDone) => ProgDoneReply
  }

  /** The loop around them, PROG_DONE, and what follows the loop. */
  function ExecuteLoop(c: Config, input: Option<Frame>): Config {
    var d := c.d;
    match c.next
    case LoopTest => c.Goto(if d.mode != DONE then Receive else LockCall)
    case Receive => if input.None? then c.Goto(LoopTest) else c.(next := Switch, frame := input.value)
    case Switch => c.Goto(FirstOf(Dispatch(c.frame.id)))
    case ProgDoneReply => c.Send(ProgDoneAck, []).Goto(ProgDoneSet)
    case ProgDoneSet => c.With(LoopTest, d.(mode := DONE))
    case LockCall => c.With(Jumped, d.(flash := F.Lock(d.flash)))
    case _ => c
  }

  /** Executes the next statement; `input` is what `cnCANRecv` finds, if that is the statement. */
  function Execute(c: Config, input: Option<Frame>): Config
    requires WellFormed(c.d)
  {
    if SessionStatement(c.next) then ExecuteSession(c)
    else if CommitStatement(c.next) then ExecuteCommit(c)
    else if BodyStatement(c.next) then ExecuteBody(c)
    else ExecuteLoop(c, input)
  }

  /** The timeout interrupt. It fires at most once, and never after `cnTimerStop`. */
  function Interrupt(c: Config): Config {
    if c.d.timer.Off? then c else c.(d := c.d.(mode := DONE, timer := Off))
  }

  datatype Action = Pump(input: Option<Frame>) | Timeout

  function Next(c: Config, a: Action): Config
    requires WellFormed(c.d)
  {
    match a
    case Pump(input) => Execute(c, input)
    case Timeout => Interrupt(c)
  }

  function After(c: Config, actions: seq<Action>): (c': Config)
    requires WellFormed(c.d)
    ensures WellFormed(c'.d)
  {
    if actions == [] then c
    else
      var n := |actions| - 1;
      NextWellFormed(After(c, actions[..n]), actions[n]);
      Next(After(c, actions[..n]), actions[n])
  }

  /** Statements left until the loop test at most; none between two iterations and after the loop. */
  function Rank(s: Statement): nat {
    match s
    case LoopTest | Receive | LockCall | Jumped => 0
    case Switch => 6
    case UnlockTest | CommitTest => 5
    case ProgReqTest | UnlockLockedTest | CommitBegin => 4
    case ProgReqStopTimer | UnlockCall | CommitFill => 3
    case ProgReqSet | UnlockSet | CommitEnd | ProgDoneReply => 2
    case ProgReqReply | UnlockReply | CommitReply | ProgDoneSet => 1
    case SelectPageBody | SeekBody | WriteBody | CheckWritesBody => 1
  }

  /** Is a message being handled? */
  predicate Mid(s: Statement) {
    Rank(s) > 0
  }

  /** One statement further in the same message, or back at the loop test. */
  predicate Advances(c: Config, c': Config) {
    Rank(c'.next) < Rank(c.next) && (Mid(c'.next) || c'.next.LoopTest?) && c'.frame == c.frame
  }

  lemma ExecuteSessionAdvances(c: Config)
    requires SessionStatement(c.next)
    ensures Advances(c, ExecuteSession(c))
  {
    hide F.Unlock, GeometryReport, ReplyFrame;
  }

  lemma ExecuteCommitAdvances(c: Config)
    requires WellFormed(c.d) && CommitStatement(c.next)
    ensures Advances(c, ExecuteCommit(c))
  {
    hide F.BeginWrite, F.Fill, F.EndWrite, FindsStray, ReplyFrame, WellFormed;
    StagingIsEven(c.d);
  }

  lemma ExecuteLoopAdvances(c: Config, input: Option<Frame>)
    requires Mid(c.next) && !SessionStatement(c.next) && !CommitStatement(c.next) && !BodyStatement(c.next)
    ensures ExecuteLoop(c, input) == ExecuteLoop(c, None) && Advances(c, ExecuteLoop(c, None))
  {
    hide Dispatch, ReplyFrame, F.Lock;
    match c.next
    case Switch =>
    case ProgDoneReply =>
    case ProgDoneSet =>
  }

  lemma ExecuteSessionWellFormed(c: Config)
    requires WellFormed(c.d) && SessionStatement(c.next)
    ensures WellFormed(ExecuteSession(c).d)
  {
    hide F.Unlock, GeometryReport, ReplyFrame;
    F.UnlockKeepsPlatform(c.d.flash);
  }

  lemma ExecuteCommitWellFormed(c: Config)
    requires WellFormed(c.d) && CommitStatement(c.next)
    ensures WellFormed(ExecuteCommit(c).d)
  {
    hide F.BeginWrite, F.Fill, F.EndWrite, FindsStray, ReplyFrame;
    F.CallsRespectLock(c.d.flash, c.d.page, c.d.staging);
  }

  lemma ExecuteBodyWellFormed(c: Config)
    requires WellFormed(c.d) && BodyStatement(c.next)
    ensures WellFormed(ExecuteBody(c).d) && Advances(c, ExecuteBody(c))
  {
    hide OnSelectPage, OnSeek, OnWrite, OnCheckWrites;
    BodiesWellFormed(c.d, c.frame.data);
  }

  lemma ExecuteLoopWellFormed(c: Config, input: Option<Frame>)
    requires WellFormed(c.d) && !SessionStatement(c.next) && !CommitStatement(c.next) && !BodyStatement(c.next)
    ensures WellFormed(ExecuteLoop(c, input).d)
  {
    hide Dispatch, ReplyFrame, F.Lock;
    F.LockEffect(c.d.flash);
  }

  lemma NextWellFormed(c: Config, a: Action)
    requires WellFormed(c.d)
    ensures WellFormed(Next(c, a).d)
  {
    hide ExecuteSession, ExecuteCommit, ExecuteBody, ExecuteLoop, SessionStatement, CommitStatement, BodyStatement;
    if a.Pump? {
      if SessionStatement(c.next) {
        ExecuteSessionWellFormed(c);
      } else if CommitStatement(c.next) {
        ExecuteCommitWellFormed(c);
      } else if BodyStatement(c.next) {
        ExecuteBodyWellFormed(c);
      } else {
        ExecuteLoopWellFormed(c, a.input);
      }
    }
  }

  // ----- one undisturbed iteration is one message -----

  lemma RankDecreases(c: Config, input: Option<Frame>)
    requires WellFormed(c.d) && Mid(c.next)
    ensures Execute(c, input) == Execute(c, None) && Advances(c, Execute(c, None))
  {
    hide ExecuteSession, ExecuteCommit, ExecuteBody, ExecuteLoop;
    if SessionStatement(c.next) {
      ExecuteSessionAdvances(c);
    } else if CommitStatement(c.next) {
      ExecuteCommitAdvances(c);
    } else if BodyStatement(c.next) {
      ExecuteBodyWellFormed(c);
    } else {
      ExecuteLoopAdvances(c, input);
    }
  }

  /** The message in hand handled to the end, without an interrupt. */
  function Completed(c: Config): Config
    requires WellFormed(c.d)
    decreases Rank(c.next)
  {
    if !Mid(c.next) then c
    else
      RankDecreases(c, None);
      NextWellFormed(c, Pump(None));
      Completed(Execute(c, None))
  }

  lemma CompletedOnce(c: Config, input: Option<Frame>)
    requires WellFormed(c.d) && Mid(c.next)
    ensures WellFormed(Execute(c, input).d)
    ensures Completed(c) == Completed(Execute(c, input))
  {
    hide Execute;
    RankDecreases(c, input);
    NextWellFormed(c, Pump(input));
  }

  lemma CompletedAlready(c: Config)
    requires WellFormed(c.d) && !Mid(c.next)
    ensures Completed(c) == c
  {
  }

  /** Back at the loop test, with the effect a message has according to `Protocol`. */
  function Finished(c: Config, effect: (DeviceState, seq<Frame>)): Config {
    c.(d := effect.0, out := c.out + effect.1, next := LoopTest)
  }

  lemma ProgReqRefines(c: Config)
    requires WellFormed(c.d) && c.next.ProgReqTest?
    ensures Completed(c) == Finished(c, OnProgReq(c.d)).(accepted := c.accepted || c.d.mode == IDLE)
  {
    hide GeometryReport, ReplyFrame, Completed, WellFormed;
    CompletedOnce(c, None);
    var c1 := Execute(c, None);
    CompletedOnce(c1, None);
    var c2 := Execute(c1, None);
    if c.d.mode == IDLE {
      CompletedOnce(c2, None);
      var c3 := Execute(c2, None);
      CompletedOnce(c3, None);
      CompletedAlready(Execute(c3, None));
    } else {
      CompletedAlready(c2);
    }
  }

  lemma UnlockCallRefines(c: Config)
    requires WellFormed(c.d) && c.next.UnlockCall? && c.d.mode == LOCKED
    ensures Completed(c) == Finished(c, OnUnlock(c.d))
  {
    hide F.Unlock, ReplyFrame, Completed, WellFormed;
    assert c.out + [] == c.out;
    CompletedOnce(c, None);
    var c1 := Execute(c, None);
    if c1.next.UnlockSet? {
      CompletedOnce(c1, None);
      var c2 := Execute(c1, None);
      CompletedOnce(c2, None);
      CompletedAlready(Execute(c2, None));
    } else {
      CompletedAlready(c1);
    }
  }

  lemma UnlockSetRefines(c: Config)
    requires WellFormed(c.d) && c.next.UnlockSet?
    ensures Completed(c) == Finished(c, (c.d.(mode := UNLOCKED), [ReplyFrame(Unlocked, c.d.devId, [])]))
                              .(overwritten := c.overwritten || c.d.mode == DONE)
  {
    hide ReplyFrame, Completed, WellFormed;
    CompletedOnce(c, None);
    var c1 := Execute(c, None);
    CompletedOnce(c1, None);
    CompletedAlready(Execute(c1, None));
  }

  lemma UnlockRefines(c: Config)
    requires WellFormed(c.d) && c.next.UnlockTest?
    ensures Completed(c) == Finished(c, OnUnlock(c.d)).(overwritten := c.overwritten || c.d.mode == DONE)
  {
    hide F.Unlock, ReplyFrame, Completed, WellFormed;
    CompletedOnce(c, None);
    var c1 := Execute(c, None);
    if c.d.mode == IDLE {
      CompletedAlready(c1);
      assert c.out + [] == c.out;
    } else {
      CompletedOnce(c1, None);
      var c2 := Execute(c1, None);
      if c.d.mode == LOCKED {
        UnlockCallRefines(c2);
      } else {
        UnlockSetRefines(c2);
      }
    }
  }

  lemma CommitFillRefines(c: Config)
    requires WellFormed(c.d) && c.next.CommitFill?
    ensures |c.d.staging| % 2 == 0
    ensures var (flash, ok) := F.EndWrite(F.Fill(c.d.flash, 0, c.d.staging).0);
            Completed(c) == Finished(c, (c.d.(flash := flash),
              if ok then [ReplyFrame(WritesCommitted, c.d.devId, U32LE(c.d.page))] else []))
  {
    hide F.Fill, F.EndWrite, ReplyFrame, Completed, WellFormed;
    StagingIsEven(c.d);
    assert c.out + [] == c.out;
    CompletedOnce(c, None);
    var c1 := Execute(c, None);
    CompletedOnce(c1, None);
    var c2 := Execute(c1, None);
    if c2.next.LoopTest? {
      CompletedAlready(c2);
    } else {
      CompletedOnce(c2, None);
      CompletedAlready(Execute(c2, None));
    }
  }

  lemma CommitBeginRefines(c: Config)
    requires WellFormed(c.d) && c.next.CommitBegin? && c.d.mode == UNLOCKED
    ensures Completed(c) == Finished(c, OnCommit(c.d)).(strayed := c.strayed || FindsStray(c.d))
  {
    hide F.BeginWrite, F.Fill, F.EndWrite, ReplyFrame, Completed, FindsStray, WellFormed;
    StagingIsEven(c.d);
    assert c.out + [] == c.out;
    CompletedOnce(c, None);
    var c1 := Execute(c, None);
    if c1.next.LoopTest? {
      CompletedAlready(c1);
    } else {
      CommitFillRefines(c1);
    }
  }

  lemma CommitRefines(c: Config)
    requires WellFormed(c.d) && c.next.CommitTest?
    ensures Completed(c) == Finished(c, OnCommit(c.d))
                              .(strayed := c.strayed || (c.d.mode == UNLOCKED && FindsStray(c.d)))
  {
    hide F.Commit, ReplyFrame, Completed, FindsStray, WellFormed;
    CompletedOnce(c, None);
    var c1 := Execute(c, None);
    if c.d.mode != UNLOCKED {
      CompletedAlready(c1);
      assert c.out + [] == c.out;
    } else {
      CommitBeginRefines(c1);
    }
  }

  lemma ProgDoneRefines(c: Config)
    requires WellFormed(c.d) && c.next.ProgDoneReply?
    ensures Completed(c) == Finished(c, OnProgDone(c.d))
  {
    hide ReplyFrame, Completed, WellFormed;
    CompletedOnce(c, None);
    var c1 := Execute(c, None);
    CompletedOnce(c1, None);
    CompletedAlready(Execute(c1, None));
  }

  lemma BodyRefines(c: Config)
    requires WellFormed(c.d)
    ensures c.next.SelectPageBody? ==> Completed(c) == Finished(c, OnSelectPage(c.d, c.frame.data))
    ensures c.next.SeekBody? ==> Completed(c) == Finished(c, (OnSeek(c.d, c.frame.data), []))
    ensures c.next.WriteBody? ==> Completed(c) == Finished(c, (OnWrite(c.d, c.frame.data), []))
    ensures c.next.CheckWritesBody? ==> Completed(c) == Finished(c, (c.d, OnCheckWrites(c.d)))
  {
    hide OnSelectPage, OnSeek, OnWrite, OnCheckWrites, Completed, WellFormed;
    assert c.out + [] == c.out;
    if c.next in {SelectPageBody, SeekBody, WriteBody, CheckWritesBody} {
      CompletedOnce(c, None);
      CompletedAlready(Execute(c, None));
    }
  }

  /** What one message does: the effect of `Protocol.Handle`, and the history. */
  function Handled(c: Config, f: Frame): Config
    requires WellFormed(c.d)
  {
    Finished(c, Handle(c.d, f)).(frame := f,
      accepted := c.accepted || (Dispatch(f.id) == Some(ProgReq) && c.d.mode == IDLE),
      overwritten := c.overwritten || (Dispatch(f.id) == Some(Unlock) && c.d.mode == DONE),
      strayed := c.strayed || (Dispatch(f.id) == Some(CommitWrites) && c.d.mode == UNLOCKED && FindsStray(c.d)))
  }

  lemma SwitchRefines(c: Config)
    requires WellFormed(c.d) && c.next.Switch?
    ensures Completed(c) == Handled(c, c.frame)
  {
    hide Dispatch, Completed, OnProgReq, OnUnlock, OnSelectPage, OnSeek, OnWrite, OnCheckWrites, OnCommit, OnProgDone;
    hide FindsStray;
    CompletedOnce(c, None);
    var c1 := Execute(c, None);
    match Dispatch(c.frame.id)
    case None =>
      CompletedAlready(c1);
      assert c.out + [] == c.out;
    case Some(command) =>
      match command
      case ProgReq => ProgReqRefines(c1);
      case Unlock => UnlockRefines(c1);
      case CommitWrites => CommitRefines(c1);
      case ProgDone => ProgDoneRefines(c1);
      case _ => BodyRefines(c1);
  }

  /** Whatever the mode, an undisturbed iteration that receives a message does to the device, and
      sends, exactly what `Protocol.Handle` says. */
  lemma IterationRefinesHandle(c: Config, f: Frame)
    requires WellFormed(c.d) && c.next.Receive?
    ensures WellFormed(Execute(c, Some(f)).d)
    ensures Completed(Execute(c, Some(f))) == Handled(c, f)
  {
    hide Completed, Dispatch, Handle, FindsStray;
    SwitchRefines(Execute(c, Some(f)));
  }

  // ----- every interleaving -----

  /** The pump at its first loop test. */
  predicate Started(c: Config) {
    Booted(c.d) && c.next.LoopTest? && !c.accepted && !c.overwritten && !c.strayed
  }

  /** Whose message a statement handles. */
  function Concerns(s: Statement): Option<Command> {
    match s
    case LoopTest | Receive | Switch | LockCall | Jumped => None
    case ProgReqTest | ProgReqStopTimer | ProgReqSet | ProgReqReply => Some(ProgReq)
    case UnlockTest | UnlockLockedTest | UnlockCall | UnlockSet | UnlockReply => Some(Unlock)
    case SelectPageBody => Some(SelectPage)
    case SeekBody => Some(Seek)
    case WriteBody => Some(Write)
    case CheckWritesBody => Some(CheckWrites)
    case CommitTest | CommitBegin | CommitFill | CommitEnd | CommitReply => Some(CommitWrites)
    case ProgDoneReply | ProgDoneSet => Some(ProgDone)
  }

  predicate AtLoop(s: Statement) {
    s.LoopTest? || s.LockCall? || s.Jumped?
  }

  /** No PROG_REQ has found the device IDLE. The timer runs while it is IDLE, and flash is locked. */
  predicate Unaccepted(c: Config) {
    && c.d.flash.IsLocked() && !c.strayed
    && !c.next.ProgReqStopTimer? && !c.next.ProgReqSet? && !c.next.UnlockCall?
    && (c.d.flash.Platform() == F.STM32 ==> !c.next.CommitFill? && !c.next.CommitEnd?)
    && (match c.d.mode
        case IDLE =>
          && c.d.timer.Armed? && !c.overwritten
          && (Mid(c.next) ==> c.next.Switch? || c.next.ProgDoneSet? || c.next == FirstOf(Concerns(c.next)))
        case LOCKED => false
        case UNLOCKED => c.d.timer.Off? && c.overwritten
        case DONE => (c.d.timer.Armed? || c.overwritten ==> AtLoop(c.next)))
  }

  /** A PROG_REQ has found the device IDLE. Until its handler has stopped the timer the interrupt may
      still fire; after that it is out of the game, and the lock follows the mode. */
  predicate Accepted(c: Config) {
    && !c.overwritten
    && if c.next.ProgReqStopTimer? || c.next.ProgReqSet? then
         && (c.d.mode == IDLE || c.d.mode == DONE) && c.d.flash.IsLocked()
         && (c.next.ProgReqSet? ==> c.d.timer.Off?)
       else
         && c.d.timer.Off? && c.d.mode != IDLE
         && (c.d.mode == LOCKED && !c.next.UnlockSet? ==> c.d.flash.IsLocked())
         && (c.d.mode == UNLOCKED || c.next.UnlockSet? ==> !c.d.flash.IsLocked())
         && (c.next.UnlockCall? ==> c.d.mode == LOCKED)
         && (c.d.mode == DONE ==> AtLoop(c.next))
  }

  /** What the statement to come, the mode, the timer and the lock have to do with each other. */
  predicate Coherent(c: Config) {
    && (Mid(c.next) && !c.next.Switch? ==> Dispatch(c.frame.id) == Concerns(c.next))
    && (c.next.LockCall? || c.next.Jumped? ==> c.d.mode == DONE)
    && (c.next.Jumped? ==> c.d.flash.IsLocked())
    && (c.next.UnlockReply? ==> c.d.mode == UNLOCKED)
    && if c.accepted then Accepted(c) else Unaccepted(c)
  }

  /** What holds after any number of statements and interrupts, in any order. */
  predicate Consistent(c: Config) {
    WellFormed(c.d) && Coherent(c)
  }

  lemma InterruptConsistent(c: Config)
    requires Consistent(c)
    ensures Coherent(Interrupt(c))
  {
  }

  lemma SessionStatementConsistent(c: Config)
    requires Consistent(c) && SessionStatement(c.next)
    ensures Coherent(ExecuteSession(c))
  {
    hide F.Unlock, GeometryReport, ReplyFrame, Dispatch;
    hide WellFormed;
    F.UnlockKeepsPlatform(c.d.flash);
    if c.d.flash.IsLocked() {
      F.UnlockEffect(c.d.flash);
    }
  }

  lemma CommitStatementConsistent(c: Config)
    requires Consistent(c) && CommitStatement(c.next)
    ensures Coherent(ExecuteCommit(c))
  {
    hide F.BeginWrite, F.Fill, F.EndWrite, ReplyFrame, Dispatch, Stray, WellFormed;
    hide F.Flash.IsLocked, F.Flash.Platform, F.Flash.Mem, F.Flash.Ops;
    assert |c.d.staging| % 2 == 0 by { StagingIsEven(c.d); }
    F.CallsRespectLock(c.d.flash, c.d.page, c.d.staging);
    if c.d.flash.IsLocked() {
      F.LockedStartsNothing(c.d.flash, c.d.page, c.d.staging);
    }
    match c.next
    case CommitTest =>
    case CommitBegin =>
    case CommitFill =>
    case CommitEnd =>
    case CommitReply =>
  }

  lemma BodyStatementConsistent(c: Config)
    requires Consistent(c) && BodyStatement(c.next)
    ensures Coherent(ExecuteBody(c))
  {
    hide OnSelectPage, OnSeek, OnWrite, OnCheckWrites, Dispatch, WellFormed;
    BodiesWellFormed(c.d, c.frame.data);
  }

  lemma SwitchConsistent(c: Config, input: Option<Frame>)
    requires Consistent(c) && c.next.Switch?
    ensures Coherent(ExecuteLoop(c, input))
  {
    hide Dispatch, WellFormed;
    var command := Dispatch(c.frame.id);
    assert FirstOf(command).LoopTest? || Concerns(FirstOf(command)) == command;
  }

  lemma LoopStatementConsistent(c: Config, input: Option<Frame>)
    requires Consistent(c) && !SessionStatement(c.next) && !CommitStatement(c.next) && !BodyStatement(c.next)
    requires !c.next.Switch?
    ensures Coherent(ExecuteLoop(c, input))
  {
    hide Dispatch, ReplyFrame, F.Lock, WellFormed;
    hide F.Flash.IsLocked, F.Flash.Platform, F.Flash.Mem, F.Flash.Ops;
    F.LockEffect(c.d.flash);
    match c.next
    case LoopTest =>
    case Receive =>
    case ProgDoneReply =>
    case ProgDoneSet =>
    case LockCall =>
    case Jumped =>
  }

  lemma NextConsistent(c: Config, a: Action)
    requires Consistent(c)
    ensures Consistent(Next(c, a))
  {
    hide ExecuteSession, ExecuteCommit, ExecuteBody, ExecuteLoop, Interrupt, Coherent;
    hide SessionStatement, CommitStatement, BodyStatement;
    NextWellFormed(c, a);
    match a
    case Pump(input) =>
      if SessionStatement(c.next) {
        SessionStatementConsistent(c);
      } else if CommitStatement(c.next) {
        CommitStatementConsistent(c);
      } else if BodyStatement(c.next) {
        BodyStatementConsistent(c);
      } else if c.next.Switch? {
        SwitchConsistent(c, input);
      } else {
        LoopStatementConsistent(c, input);
      }
    case Timeout => InterruptConsistent(c);
  }

  lemma ConsistentWellFormed(c: Config)
    requires Consistent(c)
    ensures WellFormed(c.d)
  {
  }

  lemma {:induction false} AfterConsistent(c: Config, actions: seq<Action>)
    requires Started(c)
    ensures Consistent(After(c, actions))
  {
    hide Next;
    if actions != [] {
      var n := |actions| - 1;
      AfterConsistent(c, actions[..n]);
      NextConsistent(After(c, actions[..n]), actions[n]);
    }
  }

  /** The `k`-th action is a PROG_REQ test that reads IDLE. */
  predicate AcceptsAt(c: Config, actions: seq<Action>, k: nat)
    requires WellFormed(c.d) && k < |actions|
  {
    var b := After(c, actions[..k]);
    actions[k].Pump? && b.next.ProgReqTest? && b.d.mode == IDLE
  }

  /** The `k`-th action is a `cnFlashUnlock` made in state LOCKED, and it succeeds. */
  predicate UnlocksAt(c: Config, actions: seq<Action>, k: nat)
    requires WellFormed(c.d) && k < |actions|
  {
    var b := After(c, actions[..k]);
    actions[k].Pump? && b.next.UnlockCall? && b.d.mode == LOCKED && F.Unlock(b.d.flash).1
  }

  lemma {:induction false} AcceptedBefore(c: Config, actions: seq<Action>) returns (i: nat)
    requires Started(c) && After(c, actions).accepted
    ensures i < |actions| && AcceptsAt(c, actions, i)
  {
    var n := |actions| - 1;
    var b := After(c, actions[..n]);
    if b.accepted {
      i := AcceptedBefore(c, actions[..n]);
      assert actions[..n][..i] == actions[..i];
    } else {
      i := n;
      NextAccepts(b, actions[n]);
    }
  }

  lemma NextAccepts(c: Config, a: Action)
    requires WellFormed(c.d) && !c.accepted && Next(c, a).accepted
    ensures a.Pump? && c.next.ProgReqTest? && c.d.mode == IDLE
  {
    hide F.Unlock, F.BeginWrite, F.Fill, F.EndWrite, Dispatch, OnSelectPage, OnSeek, OnWrite, OnCheckWrites;
    hide FindsStray, ReplyFrame, GeometryReport;
  }

  lemma CommitWhileLocked(c: Config)
    requires WellFormed(c.d) && CommitStatement(c.next) && c.d.flash.IsLocked()
    ensures F.LockRespected(c.d.flash, ExecuteCommit(c).d.flash)
  {
    hide F.BeginWrite, F.Fill, F.EndWrite, FindsStray, ReplyFrame;
    F.CallsRespectLock(c.d.flash, c.d.page, c.d.staging);
  }

  lemma NextWhileLocked(c: Config, a: Action)
    requires Consistent(c) && c.d.flash.IsLocked()
    ensures Next(c, a).d.flash.Mem() == c.d.flash.Mem()
    ensures !Next(c, a).d.flash.IsLocked() ==>
            a.Pump? && c.next.UnlockCall? && c.d.mode == LOCKED && c.accepted && F.Unlock(c.d.flash).1
  {
    hide ExecuteCommit, F.Unlock, F.Lock, Dispatch, OnSelectPage, OnSeek, OnWrite, OnCheckWrites;
    hide FirstOf, ReplyFrame, GeometryReport;
    BodiesWellFormed(c.d, c.frame.data);
    F.LockEffect(c.d.flash);
    F.UnlockEffect(c.d.flash);
    if CommitStatement(c.next) {
      CommitWhileLocked(c);
    }
  }

  lemma {:induction false} UnlockedBefore(c: Config, actions: seq<Action>) returns (j: nat)
    requires Started(c)
    requires !After(c, actions).d.flash.IsLocked() || After(c, actions).d.flash.Mem() != c.d.flash.Mem()
    ensures j < |actions| && UnlocksAt(c, actions, j) && After(c, actions[..j]).accepted
  {
    hide Next;
    var n := |actions| - 1;
    var b := After(c, actions[..n]);
    if !b.d.flash.IsLocked() || b.d.flash.Mem() != c.d.flash.Mem() {
      j := UnlockedBefore(c, actions[..n]);
      assert actions[..n][..j] == actions[..j];
    } else {
      j := n;
      AfterConsistent(c, actions[..n]);
      NextWhileLocked(b, actions[n]);
    }
  }

  /** In every interleaving the flash contents change only after a PROG_REQ whose test read IDLE
      and a later successful `cnFlashUnlock` made in state LOCKED. */
  lemma {:induction false} FlashChangeExplained(c: Config, actions: seq<Action>)
    requires Started(c)
    requires After(c, actions).d.flash.Mem() != c.d.flash.Mem()
    ensures exists i: nat, j: nat :: i < j < |actions| && AcceptsAt(c, actions, i) && UnlocksAt(c, actions, j)
  {
    hide After, Next;
    var j := UnlockedBefore(c, actions);
    var i := AcceptedBefore(c, actions[..j]);
    assert actions[..j][..i] == actions[..i];
    assert AcceptsAt(c, actions, i);
  }

  /** The same flash for a reader of its contents and of the record of operations. */
  predicate Untouched(f: F.Flash, g: F.Flash) {
    g.Platform() == f.Platform() && g.Mem() == f.Mem() && g.Ops() == f.Ops()
  }

  lemma UnacceptedCommitStep(c: Config)
    requires Consistent(c) && !c.accepted && CommitStatement(c.next)
    ensures Untouched(c.d.flash, ExecuteCommit(c).d.flash)
  {
    hide F.BeginWrite, F.Fill, F.EndWrite, Dispatch, ReplyFrame, Stray;
    F.CallsRespectLock(c.d.flash, c.d.page, c.d.staging);
    F.LockedStartsNothing(c.d.flash, c.d.page, c.d.staging);
  }

  lemma UnacceptedOtherStep(c: Config, input: Option<Frame>)
    requires Consistent(c) && !c.accepted && !CommitStatement(c.next)
    ensures Untouched(c.d.flash, Execute(c, input).d.flash)
  {
    hide F.Unlock, F.Lock, Dispatch, OnSelectPage, OnSeek, OnWrite, OnCheckWrites, ReplyFrame, GeometryReport;
    BodiesWellFormed(c.d, c.frame.data);
    F.LockEffect(c.d.flash);
  }

  lemma UnacceptedNext(c: Config, a: Action)
    requires Consistent(c) && !c.accepted
    ensures Untouched(c.d.flash, Next(c, a).d.flash)
  {
    hide ExecuteCommit, ExecuteSession, ExecuteBody, ExecuteLoop, Coherent;
    if a.Pump? {
      if CommitStatement(c.next) {
        UnacceptedCommitStep(c);
      } else {
        UnacceptedOtherStep(c, a.input);
      }
    }
  }

  lemma AcceptedStays(c: Config, a: Action)
    requires WellFormed(c.d) && c.accepted
    ensures Next(c, a).accepted
  {
    hide F.Unlock, F.BeginWrite, F.Fill, F.EndWrite, Dispatch, OnSelectPage, OnSeek, OnWrite, OnCheckWrites;
    hide FindsStray, ReplyFrame, GeometryReport, F.Lock;
  }

  /** As long as no PROG_REQ has found the device IDLE, whatever else happens, no operation is
      started and no byte of flash changes. */
  lemma {:induction false} UnacceptedUntouched(c: Config, actions: seq<Action>)
    requires Started(c) && !After(c, actions).accepted
    ensures Untouched(c.d.flash, After(c, actions).d.flash)
  {
    hide Next, Consistent;
    if actions != [] {
      var n := |actions| - 1;
      var b := After(c, actions[..n]);
      AfterConsistent(c, actions[..n]);
      if b.accepted {
        AcceptedStays(b, actions[n]);
      }
      UnacceptedUntouched(c, actions[..n]);
      UnacceptedNext(b, actions[n]);
    }
  }

  /** UNLOCKED means what it says exactly if a PROG_REQ was accepted before. */
  lemma UnlockedExactly(c: Config, actions: seq<Action>)
    requires Started(c) && After(c, actions).d.mode == UNLOCKED
    ensures !After(c, actions).d.flash.IsLocked() <==> After(c, actions).accepted
  {
    AfterConsistent(c, actions);
  }

  /** The jump to the user program happens with flash locked, in every interleaving. */
  lemma JumpsLocked(c: Config, actions: seq<Action>)
    requires Started(c) && After(c, actions).next.Jumped?
    ensures After(c, actions).d.flash.IsLocked()
  {
    AfterConsistent(c, actions);
  }

  /** Once an accepted PROG_REQ has reached its `state = LOCKED`, only PROG_DONE makes the device DONE. */
  lemma OnlyProgDoneEnds(c: Config, actions: seq<Action>, a: Action)
    requires Started(c)
    requires var b := After(c, actions);
             b.accepted && !b.next.ProgReqStopTimer? && !b.next.ProgReqSet? && b.d.mode != DONE
    ensures Next(After(c, actions), a).d.mode == DONE ==> a.Pump? && After(c, actions).next.ProgDoneSet?
  {
    hide F.Unlock, F.BeginWrite, F.Fill, F.EndWrite, Dispatch, OnSelectPage, OnSeek, OnWrite, OnCheckWrites, After;
    hide FindsStray, ReplyFrame, GeometryReport;
    AfterConsistent(c, actions);
    BodiesWellFormed(After(c, actions).d, After(c, actions).frame.data);
  }

  // ----- traces -----

  lemma AfterAppend(c: Config, actions: seq<Action>, a: Action)
    requires WellFormed(c.d)
    ensures After(c, actions + [a]) == Next(After(c, actions), a)
  {
    hide Next;
    assert (actions + [a])[..|actions|] == actions;
  }

  /** The messages that were received, in order. */
  function Fetched(c: Config, actions: seq<Action>): seq<Frame>
    requires WellFormed(c.d)
  {
    if actions == [] then []
    else
      var n := |actions| - 1;
      Fetched(c, actions[..n]) + FetchedBy(After(c, actions[..n]), actions[n])
  }

  function FetchedBy(b: Config, a: Action): seq<Frame> {
    if a.Pump? && a.input.Some? && b.next.Receive? then [a.input.value] else []
  }

  lemma FetchedAppend(c: Config, actions: seq<Action>, a: Action)
    requires WellFormed(c.d)
    ensures Fetched(c, actions + [a]) == Fetched(c, actions) + FetchedBy(After(c, actions), a)
  {
    hide After, FetchedBy;
    assert (actions + [a])[..|actions|] == actions;
  }

  lemma NextFrame(b: Config, a: Action)
    requires WellFormed(b.d)
    ensures Mid(Next(b, a).next) ==>
              if FetchedBy(b, a) == [] then Mid(b.next) && Next(b, a).frame == b.frame
              else FetchedBy(b, a) == [Next(b, a).frame]
  {
    hide ExecuteSession, ExecuteCommit, ExecuteBody;
    if a.Pump? && Mid(b.next) {
      RankDecreases(b, a.input);
    }
  }

  /** A message being handled is the last one received. */
  lemma {:induction false} InHandFetched(c: Config, actions: seq<Action>)
    requires Started(c) && Mid(After(c, actions).next)
    ensures Fetched(c, actions) != []
    ensures Fetched(c, actions)[|Fetched(c, actions)| - 1] == After(c, actions).frame
  {
    hide Next, FetchedBy;
    if actions != [] {
      var n := |actions| - 1;
      var b := After(c, actions[..n]);
      NextFrame(b, actions[n]);
      if FetchedBy(b, actions[n]) == [] {
        InHandFetched(c, actions[..n]);
        assert Fetched(c, actions) == Fetched(c, actions[..n]);
      }
    }
  }
}
