/** Uploading firmware: what a master's page sessions leave in flash, end to end. */
module Upload {
  import opened Words
  import opened FlashBase
  import opened Messages
  import opened Protocol
  import opened Session
  import Crc
  import F = Flash

  type Address = a: nat | a < 0x1_0000_0000

  /** A page to replace, with its image cut into WRITE frames. */
  datatype PageJob = PageJob(addr: Address, chunks: seq<Payload>)

  function Flatten(chunks: seq<Payload>): seq<byte> {
    if chunks == [] then [] else chunks[0] + Flatten(chunks[1..])
  }

  predicate Uploadable(p: F.Platform, job: PageJob): (ok: bool)
    ensures ok ==> F.FlashStart(p) <= job.addr
    ensures ok ==> job.addr - F.FlashStart(p) + |Flatten(job.chunks)| <= F.FlashSize(p)
  {
    && job.addr != 0 && F.AppPage(p, job.addr) && job.addr + F.PageSize(p) != F.AppEnd(p)
    && |Flatten(job.chunks)| == F.PageSize(p)
  }

  function Sent(dev: bv8, c: Command, data: Payload): Event {
    Received(CommandFrame(c, dev, data))
  }

  function WriteEvents(dev: bv8, chunks: seq<Payload>): (es: seq<Event>)
    ensures |es| == |chunks| && forall k :: 0 <= k < |es| ==> es[k] == Sent(dev, Write, chunks[k])
  {
    seq(|chunks|, k requires 0 <= k < |chunks| => Sent(dev, Write, chunks[k]))
  }

  /** SELECT_PAGE, SEEK 0, WRITE*, COMMIT. */
  function PageSession(dev: bv8, job: PageJob): seq<Event>
  {
    [Sent(dev, SelectPage, U32LE(job.addr)), Sent(dev, Seek, U32LE(0))]
    + WriteEvents(dev, job.chunks)
    + [Sent(dev, CommitWrites, [])]
  }

  function Acknowledged(dev: bv8, job: PageJob): seq<Frame>
  {
    [ReplyFrame(PageSelected, dev, U32LE(job.addr)), ReplyFrame(WritesCommitted, dev, U32LE(job.addr))]
  }

  /** An unlocked session whose flash controller is at rest. */
  predicate Ready(d: DeviceState) {
    WellFormed(d) && d.mode == UNLOCKED && !d.flash.IsLocked() && d.flash.AtRest()
  }

  lemma SentStep(d: DeviceState, c: Command, data: Payload)
    requires WellFormed(d) && d.mode != DONE
    ensures Step(d, Sent(d.devId, c, data)) == Perform(d, c, data)
  {
    hide Perform, Dispatch;
    DispatchCommand(c, d.devId);
  }

  // ----- one page -----

  lemma PatchTwice(mem: seq<byte>, at: nat, a: seq<byte>, b: seq<byte>)
    requires at + |a| + |b| <= |mem|
    ensures Patch(Patch(mem, at, a, |a|), at + |a|, b, |b|) == Patch(mem, at, a + b, |a + b|)
  {
  }

  /** WRITE frames, however the data is split, append to the buffer at the cursor. */
  lemma {:induction false} WritesAppend(d: DeviceState, chunks: seq<Payload>)
    requires WellFormed(d) && d.mode != DONE
    requires d.cursor + |Flatten(chunks)| <= |d.staging|
    ensures Run(d, WriteEvents(d.devId, chunks)) == (Appended(d, Flatten(chunks)), [])
    decreases |chunks|
  {
    hide Step, Patch;
    if chunks == [] {
      assert Patch(d.staging, d.cursor, [], 0) == d.staging;
    } else {
      var chunk, rest := chunks[0], Flatten(chunks[1..]);
      var d1 := OnWrite(d, chunk);
      SentStep(d, Write, chunk);
      assert Step(d, Sent(d.devId, Write, chunk)) == (Appended(d, chunk), []);
      WritesAppend(d1, chunks[1..]);
      PatchTwice(d.staging, d.cursor, chunk, rest);
      RunFirst(d, Sent(d.devId, Write, chunk), WriteEvents(d.devId, chunks[1..]));
      assert WriteEvents(d.devId, chunks) == [Sent(d.devId, Write, chunk)] + WriteEvents(d.devId, chunks[1..]);
      var none: seq<Frame> := [];
      assert none + none == none;
    }
  }

  /** `data` written into the buffer at the cursor, which moves behind it. */
  function Appended(d: DeviceState, data: seq<byte>): DeviceState
    requires d.cursor + |data| <= |d.staging|
  {
    d.(staging := Patch(d.staging, d.cursor, data, |data|), cursor := d.cursor + |data|)
  }

  /** The whole state after one page session. */
  function AfterSession(d: DeviceState, job: PageJob): DeviceState
    requires Ready(d) && Uploadable(d.Platform(), job)
  {
    var image := Flatten(job.chunks);
    d.(page := job.addr, cursor := |image|, staging := image, flash := F.Commit(d.flash, job.addr, image).0)
  }

  lemma SelectEffect(d: DeviceState, addr: Address)
    requires WellFormed(d) && d.mode != DONE
    requires F.AppPage(d.Platform(), addr) && addr + F.PageSize(d.Platform()) != F.AppEnd(d.Platform())
    ensures Step(d, Sent(d.devId, SelectPage, U32LE(addr))) ==
            (d.(page := addr), [ReplyFrame(PageSelected, d.devId, U32LE(addr))])
  {
    hide Step, F.AppPage, F.PageWriteable, F.MaskedPage;
    SentStep(d, SelectPage, U32LE(addr));
    F.MaskKeepsPage(d.Platform(), addr);
    AppPageWriteable(d.Platform(), addr);
  }

  lemma SeekEffect(d: DeviceState, offset: nat)
    requires WellFormed(d) && d.mode != DONE && offset < |d.staging|
    ensures Step(d, Sent(d.devId, Seek, U32LE(offset))) == (d.(cursor := offset), [])
  {
    hide Step;
    SentStep(d, Seek, U32LE(offset));
  }

  function Committed(d: DeviceState): DeviceState
    requires WellFormed(d)
  {
    d.(flash := F.Commit(d.flash, d.page, d.staging).0)
  }

  lemma CommitEffect(d: DeviceState)
    requires Ready(d) && d.page != 0 && F.AppPage(d.Platform(), d.page)
    ensures OnCommit(d) == (Committed(d), [ReplyFrame(WritesCommitted, d.devId, U32LE(d.page))])
    ensures F.PageReplaced(d.flash, Committed(d).flash, d.page, d.staging)
    ensures Ready(Committed(d))
  {
    hide F.Commit, F.AppPage;
    F.CommitReplacesPage(d.flash, d.page, d.staging);
  }

  /** Four legs of a run put together. */
  lemma RunLegs(d: DeviceState, d1: DeviceState, d2: DeviceState, d3: DeviceState, d4: DeviceState,
                first: Event, second: Event, middle: seq<Event>, last: Event,
                r1: seq<Frame>, r2: seq<Frame>, r3: seq<Frame>, r4: seq<Frame>)
    requires WellFormed(d) && WellFormed(d1) && WellFormed(d2) && WellFormed(d3)
    requires Step(d, first) == (d1, r1) && Step(d1, second) == (d2, r2)
    requires Run(d2, middle) == (d3, r3) && Step(d3, last) == (d4, r4)
    ensures Run(d, [first, second] + middle + [last]) == (d4, r1 + r2 + r3 + r4)
  {
    hide Step, WellFormed;
    RunOne(d3, last);
    RunConcat(d2, middle, [last]);
    RunFirst(d1, second, middle + [last]);
    RunFirst(d, first, [second] + (middle + [last]));
    assert [first, second] + middle + [last] == [first] + ([second] + (middle + [last]));
    assert r1 + (r2 + (r3 + r4)) == r1 + r2 + r3 + r4;
  }

  lemma {:induction false} SessionEffect(d: DeviceState, job: PageJob)
    requires Ready(d) && Uploadable(d.Platform(), job)
    ensures Run(d, PageSession(d.devId, job)) == (AfterSession(d, job), Acknowledged(d.devId, job))
    ensures F.PageReplaced(d.flash, AfterSession(d, job).flash, job.addr, Flatten(job.chunks))
    ensures Ready(AfterSession(d, job))
  {
    hide Step, F.Commit, F.PageReplaced, F.AppPage, Patch, ReplyFrame, Run, OnCommit;
    var dev, addr, image := d.devId, job.addr, Flatten(job.chunks);
    var select, seek := Sent(dev, SelectPage, U32LE(addr)), Sent(dev, Seek, U32LE(0));
    var commit := Sent(dev, CommitWrites, []);

    var d1 := d.(page := addr);
    SelectEffect(d, addr);
    var d2 := d1.(cursor := 0);
    SeekEffect(d1, 0);
    var d3 := d2.(cursor := |image|, staging := image);
    WritesAppend(d2, job.chunks);
    assert Patch(d2.staging, 0, image, |image|) == image;
    SentStep(d3, CommitWrites, []);
    CommitEffect(d3);
    var selected := ReplyFrame(PageSelected, dev, U32LE(addr));
    var committed := ReplyFrame(WritesCommitted, dev, U32LE(addr));
    RunLegs(d, d1, d2, d3, AfterSession(d, job), select, seek, WriteEvents(dev, job.chunks), commit,
            [selected], [], [], [committed]);
    assert [selected] + [] + [] + [committed] == [selected, committed];
  }

  lemma AppPageWriteable(p: F.Platform, addr: nat)
    requires F.AppPage(p, addr) && addr + F.PageSize(p) != F.AppEnd(p)
    ensures F.PageWriteable(p, addr)
  {
    F.PageWriteableExactly(p, addr);
  }

  // ----- many pages -----

  function UploadEvents(dev: bv8, jobs: seq<PageJob>): seq<Event>
  {
    if jobs == [] then [] else PageSession(dev, jobs[0]) + UploadEvents(dev, jobs[1..])
  }

  function Acknowledgements(dev: bv8, jobs: seq<PageJob>): seq<Frame>
  {
    if jobs == [] then [] else Acknowledged(dev, jobs[0]) + Acknowledgements(dev, jobs[1..])
  }

  /** The flash contents with every page overwritten, in order. */
  function Flashed(p: F.Platform, mem: seq<byte>, jobs: seq<PageJob>): (m: seq<byte>)
    requires |mem| == F.FlashSize(p) && forall k :: 0 <= k < |jobs| ==> Uploadable(p, jobs[k])
    ensures |m| == |mem|
    decreases |jobs|
  {
    if |jobs| == 0 then mem
    else
      assert Uploadable(p, jobs[0]);
      Flashed(p, Overlay(mem, jobs[0].addr - F.FlashStart(p), Flatten(jobs[0].chunks)), jobs[1..])
  }

  /** Page sessions from any ready device leave exactly the uploaded pages in flash, in whatever
      frames their images travelled, and are acknowledged one by one. */
  lemma {:induction false} UploadFlashes(d: DeviceState, jobs: seq<PageJob>)
    requires Ready(d)
    requires forall k :: 0 <= k < |jobs| ==> Uploadable(d.Platform(), jobs[k])
    ensures var (d', out) := Run(d, UploadEvents(d.devId, jobs));
            && Ready(d') && d'.Platform() == d.Platform() && d'.devId == d.devId
            && d'.flash.Mem() == Flashed(d.Platform(), d.flash.Mem(), jobs)
            && d'.flash.Faulted() == d.flash.Faulted()
            && out == Acknowledgements(d.devId, jobs)
    decreases |jobs|
  {
    hide Step, F.Commit, PageSession, Acknowledged, AfterSession, Uploadable, Overlay;
    if jobs != [] {
      var d1 := AfterSession(d, jobs[0]);
      SessionEffect(d, jobs[0]);
      RunKeepsIdentity(d, PageSession(d.devId, jobs[0]));
      UploadFlashes(d1, jobs[1..]);
      RunConcat(d, PageSession(d.devId, jobs[0]), UploadEvents(d.devId, jobs[1..]));
    }
  }

  // ----- what the uploaded flash looks like, byte by byte -----

  lemma {:induction false} FlashedElsewhere(p: F.Platform, mem: seq<byte>, jobs: seq<PageJob>, i: nat)
    requires |mem| == F.FlashSize(p) && i < |mem|
    requires forall k :: 0 <= k < |jobs| ==> Uploadable(p, jobs[k]) && !F.InPage(p, jobs[k].addr, i)
    ensures Flashed(p, mem, jobs)[i] == mem[i]
    decreases |jobs|
  {
    if |jobs| > 0 {
      assert Uploadable(p, jobs[0]) && !F.InPage(p, jobs[0].addr, i);
      FlashedElsewhere(p, Overlay(mem, jobs[0].addr - F.FlashStart(p), Flatten(jobs[0].chunks)), jobs[1..], i);
    }
  }

  lemma PagesDisjoint(p: F.Platform, a: nat, b: nat, i: nat)
    requires F.PageAligned(p, a) && F.PageAligned(p, b) && a != b && F.InPage(p, a, i)
    ensures !F.InPage(p, b, i)
  {
  }

  /** Each page that is uploaded once holds its image, wherever in the upload it came. */
  lemma {:induction false} FlashedPage(p: F.Platform, mem: seq<byte>, jobs: seq<PageJob>, k: nat, j: nat)
    requires |mem| == F.FlashSize(p) && k < |jobs| && j < F.PageSize(p)
    requires forall k :: 0 <= k < |jobs| ==> Uploadable(p, jobs[k])
    requires forall m :: 0 <= m < |jobs| && m != k ==> jobs[m].addr != jobs[k].addr
    ensures Uploadable(p, jobs[k])
    ensures Flashed(p, mem, jobs)[jobs[k].addr - F.FlashStart(p) + j] == Flatten(jobs[k].chunks)[j]
    decreases |jobs|
  {
    hide Overlay;
    assert Uploadable(p, jobs[0]) && Uploadable(p, jobs[k]);
    var at, image := jobs[0].addr - F.FlashStart(p), Flatten(jobs[0].chunks);
    var mem1 := Overlay(mem, at, image);
    if k > 0 {
      FlashedPage(p, mem1, jobs[1..], k - 1, j);
    } else {
      forall m | 0 <= m < |jobs| - 1
        ensures Uploadable(p, jobs[1..][m]) && !F.InPage(p, jobs[1..][m].addr, at + j)
      {
        assert jobs[1..][m] == jobs[m + 1];
        PagesDisjoint(p, jobs[0].addr, jobs[m + 1].addr, at + j);
      }
      FlashedElsewhere(p, mem1, jobs[1..], at + j);
      OverlayByte(mem, at, image, j);
    }
  }

  lemma OverlayByte(mem: seq<byte>, at: nat, data: seq<byte>, j: nat)
    requires at + |data| <= |mem| && j < |data|
    ensures Overlay(mem, at, data)[at + j] == data[j]
  {
  }

  // ----- a complete session -----

  /** Is the controller able to open its lock? */
  predicate CanUnlock(f: F.Flash) {
    f.OnStm32? ==> f.s.keys.Closed?
  }

  function CompleteSession(dev: bv8, jobs: seq<PageJob>): seq<Event> {
    [Sent(dev, ProgReq, []), Sent(dev, Unlock, [])] + UploadEvents(dev, jobs) + [Sent(dev, ProgDone, [])]
  }

  lemma UnlockOpens(f: F.Flash)
    requires f.IsLocked() && f.AtRest() && CanUnlock(f)
    ensures var (g, ok) := F.Unlock(f);
            ok && !g.IsLocked() && g.AtRest() && g.Mem() == f.Mem() && g.Platform() == f.Platform()
  {
    F.UnlockEffect(f);
  }

  lemma OpeningEffect(d: DeviceState)
    requires Booted(d) && CanUnlock(d.flash)
    ensures var d1 := d.(timer := Off, mode := LOCKED);
            var d2 := d1.(flash := F.Unlock(d.flash).0, mode := UNLOCKED);
            && Step(d, Sent(d.devId, ProgReq, []))
               == (d1, [ReplyFrame(ProgReqResp, d.devId, GeometryReport(d.Platform()))])
            && Step(d1, Sent(d.devId, Unlock, [])) == (d2, [ReplyFrame(Unlocked, d.devId, [])])
            && Ready(d2) && d2.flash.Mem() == d.flash.Mem() && d2.Platform() == d.Platform()
  {
    hide Step, F.Unlock, ReplyFrame, GeometryReport;
    UnlockOpens(d.flash);
    SentStep(d, ProgReq, []);
    SentStep(d.(timer := Off, mode := LOCKED), Unlock, []);
  }

  /** From power-on to the jump into the user program: PROG_REQ, UNLOCK, the pages, PROG_DONE. */
  lemma {:induction false} CompleteSessionFlashes(d: DeviceState, jobs: seq<PageJob>)
    requires Booted(d) && CanUnlock(d.flash)
    requires forall k :: 0 <= k < |jobs| ==> Uploadable(d.Platform(), jobs[k])
    ensures var (d', out) := Run(d, CompleteSession(d.devId, jobs));
            && d'.mode == DONE
            && Finish(d').flash.IsLocked()
            && d'.Platform() == d.Platform()
            && Finish(d').flash.Mem() == Flashed(d.Platform(), d.flash.Mem(), jobs)
            && out == [ReplyFrame(ProgReqResp, d.devId, GeometryReport(d.Platform()))]
                      + [ReplyFrame(Unlocked, d.devId, [])]
                      + Acknowledgements(d.devId, jobs) + [ReplyFrame(ProgDoneAck, d.devId, [])]
  {
    hide Step, F.Unlock, Uploadable, ReplyFrame, GeometryReport, Run, Flashed, Booted, CanUnlock, UploadEvents;
    var dev := d.devId;
    OpeningEffect(d);
    var d1 := d.(timer := Off, mode := LOCKED);
    var d2 := d1.(flash := F.Unlock(d.flash).0, mode := UNLOCKED);
    UploadFlashes(d2, jobs);
    var d3 := Run(d2, UploadEvents(dev, jobs)).0;
    SentStep(d3, ProgDone, []);
    RunLegs(d, d1, d2, d3, d3.(mode := DONE),
            Sent(dev, ProgReq, []), Sent(dev, Unlock, []), UploadEvents(dev, jobs), Sent(dev, ProgDone, []),
            [ReplyFrame(ProgReqResp, dev, GeometryReport(d.Platform()))], [ReplyFrame(Unlocked, dev, [])],
            Acknowledgements(dev, jobs), [ReplyFrame(ProgDoneAck, dev, [])]);
    FinishLocks(d3.(mode := DONE));
  }

  // ----- a session that overwrites the bootloader -----

  /** PROG_REQ, UNLOCK, and a page session for the wrapping top page, but for its COMMIT. */
  function TopPageSession(dev: bv8, chunks: seq<Payload>): seq<Event> {
    [Sent(dev, ProgReq, []), Sent(dev, Unlock, [])]
    + ([Sent(dev, SelectPage, U32LE(0xFF80)), Sent(dev, Seek, U32LE(0))] + WriteEvents(dev, chunks))
  }

  lemma SelectTopEffect(d: DeviceState)
    requires WellFormed(d) && d.mode != DONE && d.Platform() == F.AVR
    ensures Step(d, Sent(d.devId, SelectPage, U32LE(0xFF80))) ==
            (d.(page := 0xFF80), [ReplyFrame(PageSelected, d.devId, U32LE(0xFF80))])
  {
    hide Step, F.PageWriteable, F.MaskedPage;
    SentStep(d, SelectPage, U32LE(0xFF80));
    F.TopPageSelectable(F.AVR);
  }

  lemma TopPageWritten(d: DeviceState, chunks: seq<Payload>)
    requires Ready(d) && d.Platform() == F.AVR && |Flatten(chunks)| == 0x80
    ensures var opening := [Sent(d.devId, SelectPage, U32LE(0xFF80)), Sent(d.devId, Seek, U32LE(0))];
            Run(d, opening + WriteEvents(d.devId, chunks)).0
            == d.(page := 0xFF80, cursor := 0x80, staging := Flatten(chunks))
  {
    hide Step, Run, Patch, ReplyFrame, U32LE;
    var dev, image := d.devId, Flatten(chunks);
    var select, seek := Sent(dev, SelectPage, U32LE(0xFF80)), Sent(dev, Seek, U32LE(0));
    var writes := WriteEvents(dev, chunks);
    SelectTopEffect(d);
    var d1 := d.(page := 0xFF80);
    SeekEffect(d1, 0);
    var d2 := d1.(cursor := 0);
    WritesAppend(d2, chunks);
    assert Patch(d2.staging, 0, image, |image|) == image;
    RunFirst(d1, seek, writes);
    RunFirst(d, select, [seek] + writes);
    assert [select, seek] + writes == [select] + ([seek] + writes);
  }

  /** On AVR such a session is ready to COMMIT with the top page selected. */
  lemma TopPageStaged(d: DeviceState, chunks: seq<Payload>)
    requires Booted(d) && d.Platform() == F.AVR && |Flatten(chunks)| == 0x80
    ensures var b := Run(d, TopPageSession(d.devId, chunks)).0;
            && Ready(b) && b.page == F.TopPage(F.AVR) && b.staging == Flatten(chunks)
            && b.devId == d.devId && b.Platform() == F.AVR && b.flash.Mem() == d.flash.Mem()
  {
    hide Step, F.Unlock, Run, Booted, CanUnlock, ReplyFrame, GeometryReport, U32LE, Flatten;
    var dev := d.devId;
    BootedBuffer(d);
    OpeningEffect(d);
    var request, unlock := Sent(dev, ProgReq, []), Sent(dev, Unlock, []);
    var rest := [Sent(dev, SelectPage, U32LE(0xFF80)), Sent(dev, Seek, U32LE(0))] + WriteEvents(dev, chunks);
    var d1 := d.(timer := Off, mode := LOCKED);
    var d2 := d1.(flash := F.Unlock(d.flash).0, mode := UNLOCKED);
    TopPageWritten(d2, chunks);
    RunFirst(d1, unlock, rest);
    RunFirst(d, request, [unlock] + rest);
    assert TopPageSession(dev, chunks) == [request] + ([unlock] + rest);
  }

  lemma BootedBuffer(d: DeviceState)
    requires Booted(d) && d.Platform() == F.AVR
    ensures |d.staging| == 0x80 && CanUnlock(d.flash)
  {
  }

  lemma TopPageCommit(b: DeviceState)
    requires Ready(b) && b.Platform() == F.AVR && b.page == F.TopPage(F.AVR)
    ensures OnCommit(b).1 == [ReplyFrame(WritesCommitted, b.devId, U32LE(0xFF80))]
    ensures |b.staging| == 0x80 && OnCommit(b).0.flash.Mem() == Overlay(b.flash.Mem(), 0x7F80, b.staging)
  {
    hide F.Commit, ReplyFrame, U32LE, Overlay;
    F.CommitTopPage(b.flash, b.staging);
  }

  /** The condition for region safety can fail, from power-on and with messages any master may send: on
      AVR a COMMIT of page 0xFF80 replaces the last page of the bootloader by an image of the master's
      choice, and is acknowledged. */
  lemma BootloaderOverwritten(d: DeviceState, chunks: seq<Payload>)
    requires Booted(d) && d.Platform() == F.AVR && |Flatten(chunks)| == 0x80
    ensures var (image, mem) := (Flatten(chunks), d.flash.Mem());
            var events := TopPageSession(d.devId, chunks) + [Sent(d.devId, CommitWrites, [])];
            var (d', out) := Run(d, events);
            && StrayCommitted(d, events)
            && d'.flash.Mem() == Overlay(mem, 0x7F80, image)
            && (BootloaderKept(F.AVR, mem, d'.flash.Mem()) <==> mem[0x7F80..] == image)
            && out != [] && out[|out| - 1] == ReplyFrame(WritesCommitted, d.devId, U32LE(0xFF80))
  {
    hide Step, Run, OnCommit, StrayCommitted, TopPageSession, ReplyFrame, BootloaderKept, Overlay, Booted, U32LE;
    hide DevMask, Dispatch, Flatten;
    var before, commit := TopPageSession(d.devId, chunks), Sent(d.devId, CommitWrites, []);
    TopPageStaged(d, chunks);
    StillWellFormed(d);
    var b := Run(d, before).0;
    SentStep(b, CommitWrites, []);
    TopPageCommit(b);
    RunConcat(d, before, [commit]);
    RunOne(b, commit);
    StrayCommittedConcat(d, before, [commit]);
    StrayCommittedOne(b, commit);
    DispatchCommand(CommitWrites, d.devId);
    LastPageKept(d.flash.Mem(), Flatten(chunks));
  }

  lemma StillWellFormed(d: DeviceState)
    requires Booted(d)
    ensures WellFormed(d)
  {
  }

  lemma LastPageKept(mem: seq<byte>, image: seq<byte>)
    requires |mem| == 0x8000 && |image| == 0x80
    ensures BootloaderKept(F.AVR, mem, Overlay(mem, 0x7F80, image)) <==> mem[0x7F80..] == image
  {
    var after := Overlay(mem, 0x7F80, image);
    assert after[0x7F80..] == image;
    if BootloaderKept(F.AVR, mem, after) {
      forall i | 0x7F80 <= i < 0x8000
        ensures mem[i] == after[i]
      {
      }
      assert mem[0x7F80..] == after[0x7F80..];
    } else {
      var i :| 0 <= i < 0x8000 && mem[i] != after[i];
      assert mem[0x7F80..][i - 0x7F80] != after[0x7F80..][i - 0x7F80];
    }
  }

  /** Sending a page session a second time changes neither buffer nor flash. */
  lemma {:induction false} ReplayIsIdempotent(d: DeviceState, job: PageJob)
    requires Ready(d) && Uploadable(d.Platform(), job)
    ensures var (d1, out1) := Run(d, PageSession(d.devId, job));
            var (d2, out2) := Run(d1, PageSession(d.devId, job));
            && d2 == d1.(flash := d2.flash) && d2.flash.Mem() == d1.flash.Mem()
            && d2.flash.Platform() == d1.flash.Platform() && d2.flash.AtRest() && out2 == out1
  {
    hide Step, F.Commit, Uploadable, Run, PageSession, Acknowledged, F.AppPage;
    SessionEffect(d, job);
    var d1 := AfterSession(d, job);
    SessionEffect(d1, job);
    OverlayTwice(d.flash.Mem(), job.addr - F.FlashStart(d.Platform()), Flatten(job.chunks), Flatten(job.chunks));
  }

  /** A session reached from power-on is ready for an upload, if no COMMIT of the
      unlocked session found a stray page. */
  lemma {:induction false} ReachedReady(d: DeviceState, events: seq<Event>)
    requires Booted(d) && !StrayCommitted(d, events)
    requires Run(d, events).0.mode == UNLOCKED
    ensures Ready(Run(d, events).0)
  {
    BootedReached(d);
    RunReached(d, events);
    RegionSafety(d, events);
  }

  // ----- checking before committing -----

  lemma {:induction false} StagingKept(d: DeviceState, events: seq<Event>)
    requires WellFormed(d) && Without(events, Write)
    ensures Run(d, events).0.staging == d.staging
    decreases |events|
  {
    hide Step;
    if events != [] {
      StepKeepsStaging(d, events[0]);
      StepWellFormed(d, events[0]);
      assert forall k :: 0 <= k < |events| - 1 ==> events[1..][k] == events[k + 1];
      StagingKept(Step(d, events[0]).0, events[1..]);
    }
  }

  lemma StepKeepsStaging(d: DeviceState, e: Event)
    requires WellFormed(d) && !IsCommand(e, Write)
    ensures Step(d, e).0.staging == d.staging
  {
    hide F.Commit, F.MaskedPage, F.PageWriteable, F.Unlock, Dispatch;
  }

  /** The bytes of the page at `addr`. */
  function PageBytes(f: F.Flash, addr: nat): seq<byte>
    requires F.AppPage(f.Platform(), addr)
  {
    f.Mem()[addr - F.FlashStart(f.Platform())..addr - F.FlashStart(f.Platform()) + F.PageSize(f.Platform())]
  }

  lemma CheckAnswer(d: DeviceState)
    ensures |OnCheckWrites(d)| == 1 && |OnCheckWrites(d)[0].data| == 2
    ensures ReadU16LE(OnCheckWrites(d)[0].data) == Crc.Crc16(d.staging)
  {
    hide Crc.Crc16;
  }

  /** An acknowledged COMMIT of any page but the top page has put the buffer there. */
  lemma CommitHolds(d: DeviceState)
    requires Reached(d) && d.flash.AtRest() && d.page != F.TopPage(d.Platform())
    ensures var (d', out) := OnCommit(d);
            out != [] ==>
              && out == [ReplyFrame(WritesCommitted, d.devId, U32LE(d.page))]
              && d'.Platform() == d.Platform() && F.AppPage(d.Platform(), d.page)
              && PageBytes(d'.flash, d.page) == d.staging
  {
    hide F.Commit, F.PageWriteable, F.PageAligned, F.AppPage, ReplyFrame, U32LE;
    if d.mode == UNLOCKED {
      if d.page == 0 {
        F.CommitNoPage(d.flash, d.staging);
      } else {
        SelectedIsAppPage(d.Platform(), d.page);
        CommitEffect(d);
        CommittedPage(d);
      }
    }
  }

  lemma CommittedPage(d: DeviceState)
    requires WellFormed(d) && F.AppPage(d.Platform(), d.page)
    requires F.PageReplaced(d.flash, Committed(d).flash, d.page, d.staging)
    ensures PageBytes(Committed(d).flash, d.page) == d.staging
  {
    hide F.Commit, F.PageAligned;
  }

  /** If a CHECK_WRITES was answered with some CRC and a later COMMIT is acknowledged, with no WRITE
      in between, the committed page of flash has that CRC; SEEKs and SELECT_PAGEs do not matter. */
  lemma {:induction false} CheckThenCommit(d: DeviceState, events: seq<Event>)
    requires Reached(d) && d.flash.AtRest()
    requires Without(events, Write) && !StrayCommitted(d, events)
    ensures var d1 := Run(d, events).0;
            var (d2, out) := OnCommit(d1);
            out != [] && d1.page != F.TopPage(d.Platform()) ==>
              && out == [ReplyFrame(WritesCommitted, d.devId, U32LE(d1.page))]
              && d2.Platform() == d.Platform() && F.AppPage(d.Platform(), d1.page)
              && Crc.Crc16(PageBytes(d2.flash, d1.page)) == ReadU16LE(OnCheckWrites(d)[0].data)
  {
    hide F.PageAligned, F.PageWriteable, F.AppPage, Crc.Crc16, Run, StrayCommitted, OnCommit, OnCheckWrites;
    hide PageBytes, ReplyFrame, SafelyExtends, BootloaderKept, Stray;
    var d1 := Run(d, events).0;
    RunReached(d, events);
    RegionSafety(d, events);
    RunKeepsIdentity(d, events);
    StagingKept(d, events);
    CheckAnswer(d);
    if d1.page != F.TopPage(d.Platform()) {
      CommitHolds(d1);
    }
  }
}
