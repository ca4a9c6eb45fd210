/** The staging buffer as a replica of the WRITE traffic: last writer wins, at cursor positions a
    reader of the bus can compute. */
module Staging {
  import opened Words
  import opened Messages
  import opened Protocol
  import opened Session
  import opened Upload
  import F = Flash

  datatype ByteWrite = ByteWrite(at: nat, value: byte)

  /** The cursor after an event, in a buffer of `size` bytes. */
  function CursorAfter(size: nat, cursor: nat, e: Event): nat {
    if IsCommand(e, Seek) then
      if |e.frame.data| == 4 && ReadU32LE(e.frame.data) < size then ReadU32LE(e.frame.data) else cursor
    else if IsCommand(e, Write) then
      if cursor + |e.frame.data| <= size then cursor + |e.frame.data| else size
    else cursor
  }

  /** The bytes an event writes: those of a WRITE that fit before the end of the buffer. */
  function WritesOf(size: nat, cursor: nat, e: Event): seq<ByteWrite>
    requires cursor <= size
  {
    if !IsCommand(e, Write) then []
    else
      var n := if cursor + |e.frame.data| <= size then |e.frame.data| else size - cursor;
      seq(n, i requires 0 <= i < n => ByteWrite(cursor + i, e.frame.data[i]))
  }

  function Log(size: nat, cursor: nat, events: seq<Event>): seq<ByteWrite>
    requires cursor <= size
    decreases |events|
  {
    if events == [] then []
    else WritesOf(size, cursor, events[0]) + Log(size, CursorAfter(size, cursor, events[0]), events[1..])
  }

  function LastCursor(size: nat, cursor: nat, events: seq<Event>): nat
    decreases |events|
  {
    if events == [] then cursor else LastCursor(size, CursorAfter(size, cursor, events[0]), events[1..])
  }

  /** The latest value written at `i`. */
  function LastWrite(log: seq<ByteWrite>, i: nat): Option<byte> {
    if log == [] then None
    else if log[|log| - 1].at == i then Some(log[|log| - 1].value)
    else LastWrite(log[..|log| - 1], i)
  }

  function Or(o: Option<byte>, default: byte): byte {
    match o case None => default case Some(b) => b
  }

  lemma {:induction false} LastWriteConcat(a: seq<ByteWrite>, b: seq<ByteWrite>, i: nat)
    ensures LastWrite(a + b, i) == if LastWrite(b, i).Some? then LastWrite(b, i) else LastWrite(a, i)
  {
    if b == [] {
      assert a + b == a;
    } else {
      var n := |b| - 1;
      assert (a + b)[..|a + b| - 1] == a + b[..n];
      LastWriteConcat(a, b[..n], i);
    }
  }

  lemma {:induction false} LastWriteRange(log: seq<ByteWrite>, at: nat, i: nat)
    requires forall k :: 0 <= k < |log| ==> log[k].at == at + k
    ensures LastWrite(log, i) == if at <= i < at + |log| then Some(log[i - at].value) else None
  {
    if log != [] {
      LastWriteRange(log[..|log| - 1], at, i);
    }
  }

  lemma WriteOverlays(d: DeviceState, data: Payload, i: nat)
    requires WellFormed(d) && i < |d.staging|
    ensures var (d', n) := (OnWrite(d, data), Stored(d, |data|));
            && d'.cursor == d.cursor + n
            && d'.staging[i] == if d.cursor <= i < d.cursor + n then data[i - d.cursor] else d.staging[i]
  {
  }

  lemma StepOverlays(d: DeviceState, e: Event, i: nat)
    requires WellFormed(d) && d.mode != DONE && i < |d.staging|
    ensures var d' := Step(d, e).0;
            && WellFormed(d') && |d'.staging| == |d.staging|
            && d'.cursor == CursorAfter(|d.staging|, d.cursor, e)
            && d'.staging[i] == Or(LastWrite(WritesOf(|d.staging|, d.cursor, e), i), d.staging[i])
  {
    hide F.Commit, F.MaskedPage, F.PageWriteable, F.Unlock, Dispatch, OnWrite, LastWrite, WellFormed;
    hide OnCheckWrites, GeometryReport, ReplyFrame, F.TopPage;
    StepWellFormed(d, e);
    BufferSize(d);
    LastWriteRange(WritesOf(|d.staging|, d.cursor, e), d.cursor, i);
    if IsCommand(e, Write) {
      WriteOverlays(d, e.frame.data, i);
    } else {
      StepKeepsStaging(d, e);
    }
    BufferSize(Step(d, e).0);
  }

  lemma BufferSize(d: DeviceState)
    requires WellFormed(d)
    ensures |d.staging| == F.PageSize(d.Platform()) && d.cursor <= |d.staging|
  {
  }

  /** Is the pump still running when each of the events arrives? */
  ghost predicate AliveThrough(d: DeviceState, events: seq<Event>)
    requires WellFormed(d)
    decreases |events|
  {
    StepWellFormedFirst(d, events);
    events != [] ==> d.mode != DONE && AliveThrough(Step(d, events[0]).0, events[1..])
  }

  /** After any message sequence the buffer is the last-writer-wins overlay of the cursor history. */
  lemma {:induction false} StagingIsOverlay(d: DeviceState, events: seq<Event>, i: nat)
    requires WellFormed(d) && AliveThrough(d, events) && i < |d.staging|
    ensures var d' := Run(d, events).0;
            && |d'.staging| == |d.staging|
            && d'.cursor == LastCursor(|d.staging|, d.cursor, events) <= |d.staging|
            && d'.staging[i] == Or(LastWrite(Log(|d.staging|, d.cursor, events), i), d.staging[i])
    decreases |events|
  {
    hide Step, WritesOf, CursorAfter, LastWrite;
    if events == [] {
      NothingWritten(i);
    } else {
      var d1, size := Step(d, events[0]).0, |d.staging|;
      StepOverlays(d, events[0], i);
      StagingIsOverlay(d1, events[1..], i);
      LastWriteConcat(WritesOf(size, d.cursor, events[0]), Log(size, d1.cursor, events[1..]), i);
    }
  }

  lemma NothingWritten(i: nat)
    ensures LastWrite([], i) == None
  {
  }

  lemma {:induction false} RunningIsAlive(d: DeviceState, events: seq<Event>)
    requires WellFormed(d) && Run(d, events).0.mode != DONE
    ensures AliveThrough(d, events)
    decreases |events|
  {
    hide Step;
    if d.mode == DONE {
      DoneIsFinal(d, events);
    } else if events != [] {
      StepWellFormed(d, events[0]);
      RunningIsAlive(Step(d, events[0]).0, events[1..]);
    }
  }

  /** The buffer as a reader of the bus keeps it: zeroed at power-on, then what the WRITEs put there. */
  function Replica(size: nat, events: seq<Event>): (buffer: seq<byte>)
    ensures |buffer| == size
  {
    seq(size, i requires 0 <= i < size => Or(LastWrite(Log(size, 0, events), i), 0))
  }

  /** While the pump runs, the device's buffer is that replica. */
  lemma {:induction false} StagingIsReplica(d: DeviceState, events: seq<Event>)
    requires Booted(d) && Run(d, events).0.mode != DONE
    ensures Run(d, events).0.staging == Replica(F.PageSize(d.Platform()), events)
  {
    hide Run, LastWrite, Log;
    RunningIsAlive(d, events);
    RunKeepsIdentity(d, events);
    forall i | 0 <= i < |d.staging|
      ensures Run(d, events).0.staging[i] == Or(LastWrite(Log(|d.staging|, 0, events), i), 0)
    {
      StagingIsOverlay(d, events, i);
    }
  }

  /** With the cursor at the end, WRITEs are ignored until the next SEEK. */
  lemma {:induction false} FullBufferIgnoresWrites(d: DeviceState, events: seq<Event>)
    requires WellFormed(d) && d.cursor == |d.staging| && Without(events, Seek)
    ensures Run(d, events).0.cursor == d.cursor && Run(d, events).0.staging == d.staging
    decreases |events|
  {
    hide Step;
    if events != [] {
      FullBufferStep(d, events[0]);
      assert forall k :: 0 <= k < |events| - 1 ==> events[1..][k] == events[k + 1];
      FullBufferIgnoresWrites(Step(d, events[0]).0, events[1..]);
    }
  }

  lemma FullBufferStep(d: DeviceState, e: Event)
    requires WellFormed(d) && d.cursor == |d.staging| && !IsCommand(e, Seek)
    ensures WellFormed(Step(d, e).0)
    ensures Step(d, e).0.cursor == d.cursor && Step(d, e).0.staging == d.staging
  {
    hide F.Commit, F.MaskedPage, F.PageWriteable, F.Unlock, Dispatch;
    StepWellFormed(d, e);
  }

  /** A SEEK followed by a WRITE. */
  function SeekWrite(dev: bv8, at: Address, data: Payload): seq<Event> {
    [Sent(dev, Seek, U32LE(at)), Sent(dev, Write, data)]
  }

  function Placed(d: DeviceState, at: nat, data: Payload): (p: DeviceState)
    requires WellFormed(d) && at < |d.staging|
    ensures WellFormed(p) && p.mode == d.mode && p.devId == d.devId && |p.staging| == |d.staging|
  {
    OnWrite(d.(cursor := at), data)
  }

  lemma SeekWriteEffect(d: DeviceState, at: Address, data: Payload)
    requires WellFormed(d) && d.mode != DONE && at < |d.staging|
    ensures Run(d, SeekWrite(d.devId, at, data)) == (Placed(d, at, data), [])
  {
    hide Step, OnWrite, Run, CommandFrame, U32LE;
    var d1 := d.(cursor := at);
    SeekEffect(d, at);
    SentStep(d1, Write, data);
    RunOne(d1, Sent(d.devId, Write, data));
    RunFirst(d, Sent(d.devId, Seek, U32LE(at)), [Sent(d.devId, Write, data)]);
    assert SeekWrite(d.devId, at, data) == [Sent(d.devId, Seek, U32LE(at))] + [Sent(d.devId, Write, data)];
    var none: seq<Frame> := [];
    assert none + none == none;
  }

  /** Positioned writes to disjoint ranges commute in their effect on the buffer. */
  lemma {:induction false} DisjointWritesCommute(d: DeviceState, a: Address, x: Payload, b: Address, y: Payload)
    requires WellFormed(d) && d.mode != DONE && a < |d.staging| && b < |d.staging|
    requires a + |x| <= b || b + |y| <= a
    ensures Run(d, SeekWrite(d.devId, a, x) + SeekWrite(d.devId, b, y)).0.staging
         == Run(d, SeekWrite(d.devId, b, y) + SeekWrite(d.devId, a, x)).0.staging
  {
    hide Step, Run, SeekWrite, Placed;
    PlacedCommute(d, a, x, b, y);
    SeekWriteEffect(d, a, x);
    SeekWriteEffect(Placed(d, a, x), b, y);
    RunConcat(d, SeekWrite(d.devId, a, x), SeekWrite(d.devId, b, y));
    SeekWriteEffect(d, b, y);
    SeekWriteEffect(Placed(d, b, y), a, x);
    RunConcat(d, SeekWrite(d.devId, b, y), SeekWrite(d.devId, a, x));
  }

  lemma PlacedCommute(d: DeviceState, a: nat, x: Payload, b: nat, y: Payload)
    requires WellFormed(d) && a < |d.staging| && b < |d.staging|
    requires a + |x| <= b || b + |y| <= a
    ensures Placed(Placed(d, a, x), b, y).staging == Placed(Placed(d, b, y), a, x).staging
  {
  }
}
