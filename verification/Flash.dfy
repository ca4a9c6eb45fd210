/** The flash interface of src/common/flash.h over its two implementations. Which one is used is
    fixed when the program is linked (src/CMakeLists.txt), here when a `Port` is constructed. */
module Flash {
  import opened Words
  import opened FlashBase
  import Stm32Flash
  import AvrFlash

  datatype Platform = STM32 | AVR

  datatype Flash = OnStm32(s: Stm32Flash.State) | OnAvr(a: AvrFlash.State) {

    function Platform(): Platform {
      if OnStm32? then STM32 else AVR
    }

    function Mem(): (mem: seq<byte>)
      ensures |mem| == FlashSize(Platform())
    {
      if OnStm32? then s.mem else a.mem
    }

    predicate IsLocked() {
      if OnStm32? then s.locked else a.locked
    }

    /** No page is open, no operation is selected and nothing is staged in the controller. */
    predicate AtRest() {
      if OnStm32? then Stm32Flash.AtRest(s) else AvrFlash.AtRest(a)
    }

    /** Did the controller ever refuse an access? */
    predicate Faulted() {
      if OnStm32? then s.fault else a.fault
    }

    function Ops(): seq<Op> {
      if OnStm32? then s.ops else a.ops
    }
  }

  // ----- geometry (toolchain files, linker script, src/avr/flash.c) -----

  function PageSize(p: Platform): nat {
    match p case STM32 => 0x400 case AVR => 0x80
  }

  function FlashSize(p: Platform): nat {
    match p case STM32 => 0x1_0000 case AVR => 0x8000
  }

  function Machine(p: Platform): nat {
    match p case STM32 => 0x0028 case AVR => 0x0053
  }

  /** The address of the first byte of flash. */
  function FlashStart(p: Platform): nat {
    match p case STM32 => Stm32Flash.FLASH_START case AVR => 0
  }

  /** The application region: after the bootloader on STM32, before it on AVR. */
  function AppStart(p: Platform): nat {
    match p case STM32 => Stm32Flash.FLASH_START + Stm32Flash.BOOTLOADER_SIZE case AVR => 0
  }

  function AppEnd(p: Platform): nat {
    match p case STM32 => Stm32Flash.FLASH_END case AVR => AvrFlash.APP_END
  }

  /** The last page of the address space, where `addr + CN_FLASH_PAGE_SIZE` wraps to zero. */
  function TopPage(p: Platform): nat {
    match p case STM32 => Stm32Flash.TOP_PAGE case AVR => AvrFlash.TOP_PAGE
  }

  predicate PageAligned(p: Platform, addr: nat) {
    match p case STM32 => Stm32Flash.PageAligned(addr) case AVR => AvrFlash.PageAligned(addr)
  }

  /** A whole page inside the application region. */
  predicate AppPage(p: Platform, addr: nat) {
    PageAligned(p, addr) && AppStart(p) <= addr && addr + PageSize(p) <= AppEnd(p)
  }

  // ----- the interface -----

  predicate PageWriteable(p: Platform, addr: nat) {
    match p case STM32 => Stm32Flash.PageWriteable(addr) case AVR => AvrFlash.PageWriteable(addr)
  }

  function Unlock(f: Flash): (Flash, bool) {
    match f
    case OnStm32(s) => var (t, ok) := Stm32Flash.Unlock(s); (OnStm32(t), ok)
    case OnAvr(a) => var (t, ok) := AvrFlash.Unlock(a); (OnAvr(t), ok)
  }

  function Lock(f: Flash): Flash {
    match f
    case OnStm32(s) => OnStm32(Stm32Flash.Lock(s))
    case OnAvr(a) => OnAvr(AvrFlash.Lock(a))
  }

  function BeginWrite(f: Flash, addr: nat): (Flash, bool) {
    match f
    case OnStm32(s) => var (t, ok) := Stm32Flash.BeginWrite(s, addr); (OnStm32(t), ok)
    case OnAvr(a) => var (t, ok) := AvrFlash.BeginWrite(a, addr); (OnAvr(t), ok)
  }

  function Fill(f: Flash, offset: nat, data: seq<byte>): (Flash, nat)
    requires |data| % 2 == 0
  {
    match f
    case OnStm32(s) => var (t, n) := Stm32Flash.Fill(s, offset, data); (OnStm32(t), n)
    case OnAvr(a) => var (t, n) := AvrFlash.Fill(a, offset, data); (OnAvr(t), n)
  }

  function EndWrite(f: Flash): (Flash, bool) {
    match f
    case OnStm32(s) => var (t, ok) := Stm32Flash.EndWrite(s); (OnStm32(t), ok)
    case OnAvr(a) => var (t, ok) := AvrFlash.EndWrite(a); (OnAvr(t), ok)
  }

  /** Begin, fill at offset 0, end; stops at the first call that fails. */
  function Commit(f: Flash, addr: nat, data: seq<byte>): (Flash, bool)
    requires |data| % 2 == 0
  {
    var (begun, ok) := BeginWrite(f, addr);
    if !ok then (begun, false) else EndWrite(Fill(begun, 0, data).0)
  }

  // ----- the linked driver -----

  class Port {
    const stm32: Stm32Flash.Driver?
    const avr: AvrFlash.Driver?

    ghost predicate Valid() {
      (stm32 == null) != (avr == null) && (stm32 != null ==> stm32.Valid()) && (avr != null ==> avr.Valid())
    }

    ghost function Repr(): set<object> {
      (if stm32 != null then {stm32, stm32.mem} else {}) + (if avr != null then {avr, avr.mem, avr.buffer} else {})
    }

    function PlatformOf(): Platform {
      if stm32 != null then STM32 else AVR
    }

    ghost function View(): (f: Flash)
      requires Valid()
      reads Repr()
      ensures f.Platform() == PlatformOf()
    {
      if stm32 != null then OnStm32(stm32.View()) else OnAvr(avr.View())
    }

    constructor OfStm32(driver: Stm32Flash.Driver)
      requires driver.Valid()
      ensures Valid() && Repr() == {driver, driver.mem} && View() == OnStm32(driver.View())
    {
      stm32, avr := driver, null;
    }

    constructor OfAvr(driver: AvrFlash.Driver)
      requires driver.Valid()
      ensures Valid() && Repr() == {driver, driver.mem, driver.buffer} && View() == OnAvr(driver.View())
    {
      stm32, avr := null, driver;
    }

    method CallUnlock() returns (ok: bool)
      requires Valid()
      modifies Repr()
      ensures (View(), ok) == Unlock(old(View()))
    {
      if stm32 != null {
        ok := stm32.FlashUnlock();
      } else {
        ok := avr.FlashUnlock();
      }
    }

    method CallLock() returns (ok: bool)
      requires Valid()
      modifies Repr()
      ensures ok && View() == Lock(old(View()))
    {
      if stm32 != null {
        ok := stm32.FlashLock();
      } else {
        ok := avr.FlashLock();
      }
    }

    method CallBeginWrite(addr: nat) returns (ok: bool)
      requires Valid()
      modifies Repr()
      ensures (View(), ok) == BeginWrite(old(View()), addr)
    {
      if stm32 != null {
        ok := stm32.FlashBeginWrite(addr);
      } else {
        ok := avr.FlashBeginWrite(addr);
      }
    }

    method CallFill(offset: nat, data: seq<byte>) returns (n: nat)
      requires Valid() && |data| % 2 == 0
      modifies Repr()
      ensures (View(), n) == Fill(old(View()), offset, data)
    {
      if stm32 != null {
        n := stm32.FlashFill(offset, data);
      } else {
        n := avr.FlashFill(offset, data);
      }
    }

    method CallEndWrite() returns (ok: bool)
      requires Valid()
      modifies Repr()
      ensures (View(), ok) == EndWrite(old(View()))
    {
      if stm32 != null {
        ok := stm32.FlashEndWrite();
      } else {
        ok := avr.FlashEndWrite();
      }
    }
  }

  // ----- theorems: both drivers refine one "replace page" -----

  /** What the controller is asked to do for one page, in order. */
  function PageOps(p: Platform, addr: nat): seq<Op> {
    [Erase(addr)] + match p case STM32 => Stm32Flash.ProgramOps(addr, 0x200) case AVR => [Program(addr)]
  }

  lemma UnlockKeepsPlatform(f: Flash)
    ensures Unlock(f).0.Platform() == f.Platform()
  {
  }

  lemma LockEffect(f: Flash)
    ensures var g := Lock(f);
            g.IsLocked() && g.Mem() == f.Mem() && g.Ops() == f.Ops() && g.Platform() == f.Platform()
    ensures f.AtRest() ==> Lock(f).AtRest()
  {
  }

  lemma UnlockEffect(f: Flash)
    requires f.IsLocked()
    ensures var (g, ok) := Unlock(f);
            && g.IsLocked() == !ok && g.Mem() == f.Mem() && g.Ops() == f.Ops()
            && g.Platform() == f.Platform() && (f.AtRest() ==> g.AtRest()) && g.Faulted() == f.Faulted()
  {
    if f.OnStm32? {
      Stm32Flash.UnlockSucceeds(f.s);
    }
  }

  /** `g` is `f` after one page was replaced. */
  predicate PageReplaced(f: Flash, g: Flash, addr: nat, data: seq<byte>) {
    && g.Platform() == f.Platform()
    && FlashStart(f.Platform()) <= addr && addr - FlashStart(f.Platform()) + |data| <= FlashSize(f.Platform())
    && g.Mem() == Overlay(f.Mem(), addr - FlashStart(f.Platform()), data)
    && g.Ops() == f.Ops() + PageOps(f.Platform(), addr)
    && g.AtRest() && !g.IsLocked() && g.Faulted() == f.Faulted()
  }

  lemma Stm32ReplacesPage(s: Stm32Flash.State, addr: nat, data: seq<byte>)
    requires !s.locked && Stm32Flash.AtRest(s)
    requires AppPage(STM32, addr) && |data| == 0x400
    ensures var (t, ok) := Stm32Flash.Commit(s, addr, data);
            ok && PageReplaced(OnStm32(s), OnStm32(t), addr, data)
  {
    hide Stm32Flash.Commit, Overlay, Stm32Flash.ProgramOps;
    Stm32Flash.CommitReplacesPage(s, addr, data);
    assert s.ops + PageOps(STM32, addr) == s.ops + [Erase(addr)] + Stm32Flash.ProgramOps(addr, 0x200);
  }

  lemma AvrReplacesPage(a: AvrFlash.State, addr: nat, data: seq<byte>)
    requires !a.locked && AvrFlash.AtRest(a)
    requires addr != 0 && AppPage(AVR, addr) && |data| == 0x80
    ensures var (t, ok) := AvrFlash.Commit(a, addr, data);
            ok && PageReplaced(OnAvr(a), OnAvr(t), addr, data)
  {
    hide AvrFlash.Commit, Overlay, AvrFlash.PageIndex;
    AvrFlash.CommitReplacesPage(a, addr, data);
    AvrFlash.PageIndexOf(addr);
    assert PageOps(AVR, addr) == [Erase(addr), Program(addr)];
  }

  /** A selected page of flash is replaced by the data, byte for byte; every other byte is kept,
      nothing is programmed that was not erased, and the driver returns to rest. */
  lemma CommitReplacesPage(f: Flash, addr: nat, data: seq<byte>)
    requires !f.IsLocked() && f.AtRest()
    requires addr != 0 && AppPage(f.Platform(), addr) && |data| == PageSize(f.Platform())
    ensures var (g, ok) := Commit(f, addr, data); ok && PageReplaced(f, g, addr, data)
  {
    hide PageReplaced, Commit, AppPage, Stm32Flash.Commit, AvrFlash.Commit;
    match f
    case OnStm32(s) =>
      Stm32ReplacesPage(s, addr, data);
      CommitOfStm32(s, addr, data);
    case OnAvr(a) =>
      AvrReplacesPage(a, addr, data);
      CommitOfAvr(a, addr, data);
  }

  lemma CommitOfStm32(s: Stm32Flash.State, addr: nat, data: seq<byte>)
    requires |data| % 2 == 0
    ensures Commit(OnStm32(s), addr, data) == var (t, ok) := Stm32Flash.Commit(s, addr, data); (OnStm32(t), ok)
  {
  }

  lemma CommitOfAvr(a: AvrFlash.State, addr: nat, data: seq<byte>)
    requires |data| % 2 == 0
    ensures Commit(OnAvr(a), addr, data) == var (t, ok) := AvrFlash.Commit(a, addr, data); (OnAvr(t), ok)
  {
  }

  /** While flash is locked no call sequence changes it or starts an operation. */
  lemma CommitLocked(f: Flash, addr: nat, data: seq<byte>)
    requires f.IsLocked() && |data| % 2 == 0
    ensures var (g, ok) := Commit(f, addr, data);
            !ok && g.Platform() == f.Platform() && g.Mem() == f.Mem() && g.Ops() == f.Ops() && g.IsLocked()
  {
    match f
    case OnStm32(s) =>
      Stm32Flash.CommitLocked(s, addr, data);
      CommitOfStm32(s, addr, data);
    case OnAvr(a) =>
      AvrFlash.CommitLocked(a, addr, data);
      CommitOfAvr(a, addr, data);
  }

  lemma CommitKeepsLock(f: Flash, addr: nat, data: seq<byte>)
    requires |data| % 2 == 0
    ensures Commit(f, addr, data).0.IsLocked() == f.IsLocked()
    ensures Commit(f, addr, data).0.Platform() == f.Platform()
    ensures f.Ops() <= Commit(f, addr, data).0.Ops()
  {
    match f
    case OnStm32(s) =>
      Stm32Flash.CommitKeepsLock(s, addr, data);
      CommitOfStm32(s, addr, data);
    case OnAvr(a) =>
      AvrFlash.CommitKeepsLock(a, addr, data);
      CommitOfAvr(a, addr, data);
  }

  /** Address 0 is the "no page" sentinel. AVR ignores the COMMIT; STM32 erases at 0 and leaves PG set. */
  lemma CommitNoPage(f: Flash, data: seq<byte>)
    requires !f.IsLocked() && f.AtRest() && |data| == PageSize(f.Platform())
    ensures var (g, ok) := Commit(f, 0, data);
            && !ok && g.Platform() == f.Platform() && g.Mem() == f.Mem() && !g.IsLocked()
            && (f.OnAvr? ==> g == f)
            && (f.OnStm32? ==> !g.AtRest() && g.Ops() == f.Ops() + [Erase(0)])
  {
    match f
    case OnStm32(s) =>
      Stm32Flash.CommitUnselected(s, data);
      CommitOfStm32(s, 0, data);
    case OnAvr(a) =>
      AvrFlash.CommitPageZero(a, data);
      CommitOfAvr(a, 0, data);
  }

  /** The wrapping top page. STM32 erases and programs outside of the flash; AVR replaces the last
      page of its bootloader. Both report success. */
  lemma CommitTopPage(f: Flash, data: seq<byte>)
    requires !f.IsLocked() && f.AtRest() && |data| == PageSize(f.Platform())
    ensures var (g, ok) := Commit(f, TopPage(f.Platform()), data);
            && ok && g.Platform() == f.Platform() && g.AtRest() && !g.IsLocked()
            && g.Ops() == f.Ops() + PageOps(f.Platform(), TopPage(f.Platform()))
            && (f.OnStm32? ==> g.Mem() == f.Mem())
            && (f.OnAvr? ==> g.Mem() == Overlay(f.Mem(), AvrFlash.FLASH_SIZE - AvrFlash.PAGE_SIZE, data))
  {
    match f
    case OnStm32(s) =>
      Stm32Flash.CommitTopPage(s, data);
      CommitOfStm32(s, Stm32Flash.TOP_PAGE, data);
      assert s.ops + PageOps(STM32, Stm32Flash.TOP_PAGE)
          == s.ops + [Erase(Stm32Flash.TOP_PAGE)] + Stm32Flash.ProgramOps(Stm32Flash.TOP_PAGE, 0x200);
    case OnAvr(a) =>
      AvrFlash.TopPageIsBootloader();
      AvrFlash.CommitReplacesPage(a, AvrFlash.TOP_PAGE, data);
      CommitOfAvr(a, AvrFlash.TOP_PAGE, data);
      assert PageOps(AVR, AvrFlash.TOP_PAGE) == [Erase(AvrFlash.TOP_PAGE), Program(AvrFlash.TOP_PAGE)];
  }

  /** Which page starts the writeability test accepts. */
  lemma PageWriteableExactly(p: Platform, addr: nat)
    requires PageAligned(p, addr) && addr <= TopPage(p)
    ensures PageWriteable(p, addr) <==>
            (AppPage(p, addr) && addr + PageSize(p) != AppEnd(p)) || addr == TopPage(p)
  {
    match p
    case STM32 => Stm32Flash.PageWriteableExactly(addr);
    case AVR => AvrFlash.PageWriteableExactly(addr);
  }

  /** The requested address, truncated to the start of its page. */
  function MaskedPage(p: Platform, addr: nat): (page: nat)
    requires addr < 0x1_0000_0000
    ensures PageAligned(p, page) && page <= TopPage(p)
  {
    match p case STM32 => Stm32Flash.MaskedPage(addr) case AVR => AvrFlash.MaskedPage(addr)
  }

  lemma MaskKeepsPage(p: Platform, addr: nat)
    requires AppPage(p, addr)
    ensures addr < 0x1_0000_0000 && MaskedPage(p, addr) == addr
  {
    hide Stm32Flash.MaskedPage, AvrFlash.MaskedPage;
    match p
    case STM32 => Stm32Flash.MaskKeepsAligned(addr);
    case AVR => AvrFlash.MaskKeepsAligned(addr);
  }

  /** `g` is `f` with the lock where it was, and the same contents if that was closed. */
  predicate LockRespected(f: Flash, g: Flash) {
    g.Platform() == f.Platform() && g.IsLocked() == f.IsLocked() && (f.IsLocked() ==> g.Mem() == f.Mem())
  }

  /** Taken one by one, the calls of a COMMIT never move the lock, and change nothing while it is closed. */
  lemma CallsRespectLock(f: Flash, addr: nat, data: seq<byte>)
    requires |data| % 2 == 0
    ensures LockRespected(f, BeginWrite(f, addr).0)
    ensures LockRespected(f, Fill(f, 0, data).0)
    ensures LockRespected(f, EndWrite(f).0)
  {
    hide Stm32Flash.StoreHalfWords, AvrFlash.LoadWords, AvrFlash.Programmed, Overlay;
    match f
    case OnStm32(s) =>
      Stm32Flash.StoresKeepControl(s, Stm32Flash.Wrap(s.curPage + 0), data, |data| / 2);
      if s.locked {
        Stm32Flash.StoresLocked(s, Stm32Flash.Wrap(s.curPage + 0), data, |data| / 2);
      }
    case OnAvr(a) =>
      AvrFlash.LoadsKeepFlash(a, AvrFlash.Wrap(a.curPage + 0), data, AvrFlash.WordsThatFit(0, |data|));
  }

  /** On a locked flash no call of a COMMIT starts an operation. STM32's driver gives up at once;
      AVR's goes on to the end, and only fills the temporary buffer. */
  lemma LockedStartsNothing(f: Flash, addr: nat, data: seq<byte>)
    requires f.IsLocked() && |data| % 2 == 0
    ensures BeginWrite(f, addr).0.Ops() == f.Ops() && EndWrite(f).0.Ops() == f.Ops()
    ensures f.Platform() == STM32 ==> BeginWrite(f, addr) == (f, false)
    ensures f.Platform() == AVR ==> Fill(f, 0, data).0.Ops() == f.Ops()
  {
    hide AvrFlash.LoadWords, AvrFlash.Programmed, Overlay;
    if f.OnAvr? {
      AvrFlash.LoadsKeepFlash(f.a, AvrFlash.Wrap(f.a.curPage + 0), data, AvrFlash.WordsThatFit(0, |data|));
    }
  }

  /** A SELECT_PAGE of the wrapping top page is taken at its word. */
  lemma TopPageSelectable(p: Platform)
    ensures TopPage(p) < 0x1_0000_0000 && PageAligned(p, TopPage(p))
    ensures MaskedPage(p, TopPage(p)) == TopPage(p) && PageWriteable(p, TopPage(p))
  {
    hide Stm32Flash.MaskedPage, AvrFlash.MaskedPage;
    match p
    case STM32 => Stm32Flash.MaskKeepsAligned(Stm32Flash.TOP_PAGE);
    case AVR => AvrFlash.MaskKeepsAligned(AvrFlash.TOP_PAGE);
  }

  /** What each call of a COMMIT does to the contents and to the record of operations, whatever the
      state of the driver: on STM32 the page goes when it is erased, on AVR when it is written. */
  lemma CallsEffect(f: Flash, addr: nat, data: seq<byte>)
    requires |data| % 2 == 0
    ensures var g := BeginWrite(f, addr).0;
            && g.Platform() == f.Platform() && f.Ops() <= g.Ops()
            && (f.Platform() == AVR ==> g.Mem() == f.Mem())
            && (f.Platform() == STM32 && !f.IsLocked() ==> g.Ops() == f.Ops() + [Erase(addr)])
            && (f.Platform() == STM32 && AppPage(STM32, addr) ==>
                  g.Mem() == f.Mem() || g.Mem() == Overlay(f.Mem(), addr - FlashStart(STM32), Blank(0x400)))
    ensures var g := Fill(f, 0, data).0;
            && g.Platform() == f.Platform() && f.Ops() <= g.Ops()
            && (f.Platform() == AVR ==> g.Mem() == f.Mem())
    ensures var g := EndWrite(f).0;
            && g.Platform() == f.Platform() && f.Ops() <= g.Ops()
            && (f.Platform() == STM32 ==> g.Mem() == f.Mem())
  {
    hide Stm32Flash.StoreHalfWords, AvrFlash.LoadWords, AvrFlash.Programmed, Overlay, Blank;
    match f
    case OnStm32(s) =>
      Stm32Flash.StoresKeepControl(s, Stm32Flash.Wrap(s.curPage + 0), data, |data| / 2);
    case OnAvr(a) =>
      AvrFlash.LoadsKeepFlash(a, AvrFlash.Wrap(a.curPage + 0), data, AvrFlash.WordsThatFit(0, |data|));
  }

  /** The page the driver has open, 0 if none. */
  function CurPage(f: Flash): nat {
    match f case OnStm32(s) => s.curPage case OnAvr(a) => a.curPage
  }

  lemma BeginOpens(f: Flash, addr: nat)
    ensures var (g, ok) := BeginWrite(f, addr); ok ==> CurPage(g) == addr
  {
  }

  lemma FillKeepsOpen(f: Flash, data: seq<byte>)
    requires |data| % 2 == 0
    ensures CurPage(Fill(f, 0, data).0) == CurPage(f)
  {
    hide Stm32Flash.StoreHalfWords, AvrFlash.LoadWords;
    match f
    case OnStm32(s) => Stm32Flash.StoresKeepControl(s, Stm32Flash.Wrap(s.curPage + 0), data, |data| / 2);
    case OnAvr(a) =>
      AvrFlash.LoadsKeepFlash(a, AvrFlash.Wrap(a.curPage + 0), data, AvrFlash.WordsThatFit(0, |data|));
  }

  /** Is byte `i` of the flash part of the page that starts at `addr`? */
  predicate InPage(p: Platform, addr: nat, i: nat) {
    addr <= FlashStart(p) + i < addr + PageSize(p)
  }

  predicate SameOutside(f: Flash, g: Flash, page: nat) {
    && g.Platform() == f.Platform()
    && forall i :: 0 <= i < FlashSize(f.Platform()) && !InPage(f.Platform(), page, i) ==> g.Mem()[i] == f.Mem()[i]
  }

  /** The calls of a COMMIT of an application page leave every other page alone, one by one and
      whatever the state of the controller. */
  lemma CallsInsidePage(f: Flash, page: nat, data: seq<byte>)
    requires AppPage(f.Platform(), page) && |data| == PageSize(f.Platform())
    ensures SameOutside(f, BeginWrite(f, page).0, page)
    ensures CurPage(f) == page ==> SameOutside(f, Fill(f, 0, data).0, page)
    ensures CurPage(f) == page ==> SameOutside(f, EndWrite(f).0, page)
  {
    match f
    case OnStm32(s) => Stm32CallsInside(s, page, data);
    case OnAvr(a) => AvrCallsInside(a, page, data);
  }

  lemma Stm32CallsInside(s: Stm32Flash.State, page: nat, data: seq<byte>)
    requires AppPage(STM32, page) && |data| == 0x400
    ensures SameOutside(OnStm32(s), BeginWrite(OnStm32(s), page).0, page)
    ensures s.curPage == page ==> SameOutside(OnStm32(s), Fill(OnStm32(s), 0, data).0, page)
    ensures SameOutside(OnStm32(s), EndWrite(OnStm32(s)).0, page)
  {
    hide Stm32Flash.StoreHalfWords;
    if s.curPage == page {
      forall i | 0 <= i < |s.mem| && !InPage(STM32, page, i)
        ensures Stm32Flash.StoreHalfWords(s, page, data, 0x200).mem[i] == s.mem[i]
      {
        Stm32Flash.StoresInside(s, page, data, 0x200, i);
      }
    }
  }

  lemma AvrCallsInside(a: AvrFlash.State, page: nat, data: seq<byte>)
    requires AppPage(AVR, page) && |data| == 0x80
    ensures SameOutside(OnAvr(a), BeginWrite(OnAvr(a), page).0, page)
    ensures SameOutside(OnAvr(a), Fill(OnAvr(a), 0, data).0, page)
    ensures a.curPage == page ==> SameOutside(OnAvr(a), EndWrite(OnAvr(a)).0, page)
  {
    hide AvrFlash.LoadWords, AvrFlash.PageIndex;
    AvrFlash.LoadsKeepFlash(a, AvrFlash.Wrap(a.curPage + 0), data, AvrFlash.WordsThatFit(0, |data|));
    AvrFlash.PageIndexOf(page);
  }

  // ----- inside a call -----

  /** The flash after `n` of the half-words `cnFlashFill` stores on STM32. */
  function PartOfFill(f: Flash, data: seq<byte>, n: nat): Flash
    requires 2 * n <= |data|
  {
    match f
    case OnStm32(s) =>
      if s.curPage == 0 then f
      else OnStm32(Stm32Flash.StoreHalfWords(s, Stm32Flash.Wrap(s.curPage + 0), data, n))
    case OnAvr(_) => f
  }

  /** The flash between the erase and the write of `cnFlashEndWrite` on AVR. */
  function PartOfEnd(f: Flash): Flash {
    match f
    case OnStm32(_) => f
    case OnAvr(a) => if a.curPage == 0 || a.locked then f else OnAvr(AvrFlash.ErasePage(a, a.curPage))
  }

  lemma PartsInsidePage(f: Flash, page: nat, data: seq<byte>, n: nat)
    requires AppPage(f.Platform(), page) && |data| == PageSize(f.Platform()) && 2 * n <= |data|
    requires CurPage(f) == page
    ensures SameOutside(f, PartOfFill(f, data, n), page)
    ensures SameOutside(f, PartOfEnd(f), page)
  {
    hide Stm32Flash.StoreHalfWords, AvrFlash.PageIndex;
    match f
    case OnStm32(s) =>
      forall i | 0 <= i < |s.mem| && !InPage(STM32, page, i)
        ensures Stm32Flash.StoreHalfWords(s, page, data, n).mem[i] == s.mem[i]
      {
        Stm32Flash.StoresInside(s, page, data, n, i);
      }
    case OnAvr(a) => AvrFlash.PageIndexOf(page);
  }

  lemma PartsWithoutPage(f: Flash, data: seq<byte>, n: nat)
    requires 2 * n <= |data| && (f.IsLocked() || CurPage(f) == 0)
    ensures PartOfFill(f, data, n).Mem() == f.Mem() && PartOfFill(f, data, n).Platform() == f.Platform()
    ensures PartOfEnd(f) == f
  {
    if f.OnStm32? && f.IsLocked() {
      Stm32Flash.StoresLocked(f.s, Stm32Flash.Wrap(f.s.curPage + 0), data, n);
    }
  }

  // ----- the parts of the memory map, and filling at an offset -----

  /** The numbers behind the names: 64 pages of 1 KiB from 0x08000000 on with the bootloader in the first
      four, and 256 pages of 128 bytes with the bootloader in the last 32. */
  lemma MemoryMap(p: Platform)
    ensures PageSize(p) == if p == STM32 then 1024 else 128
    ensures FlashSize(p) == PageSize(p) * if p == STM32 then 64 else 256
    ensures FlashStart(p) == if p == STM32 then 0x0800_0000 else 0
    ensures AppStart(p) == FlashStart(p) + (if p == STM32 then 4 * 1024 else 0)
    ensures AppEnd(p) == FlashStart(p) + FlashSize(p) - (if p == STM32 then 0 else 32 * 128)
    ensures TopPage(p) + PageSize(p) == if p == STM32 then 0x1_0000_0000 else 0x1_0000
  {
  }

  /** The selected page is the one the address lies in; on AVR the upper half of the address is dropped. */
  lemma MaskedPageExactly(p: Platform, addr: nat)
    requires addr < 0x1_0000_0000
    ensures var (page, a) := (MaskedPage(p, addr), if p == STM32 then addr else addr % 0x1_0000);
            page % PageSize(p) == 0 && page <= a < page + PageSize(p)
  {
    hide Stm32Flash.MaskedPage, AvrFlash.MaskedPage;
  }

  /** `cnFlashFill` puts its data at the given offset: filling a page in two calls, the second where the
      first one ended, is filling it in one, and the counts add up. */
  lemma FillInPieces(f: Flash, offset: nat, a: seq<byte>, b: seq<byte>)
    requires |a| % 2 == 0 && |b| % 2 == 0 && CurPage(f) + offset + |a| < 0x1_0000_0000
    ensures |a + b| % 2 == 0
    ensures var (g, n) := Fill(f, offset, a);
            var (h, m) := Fill(g, offset + |a|, b);
            Fill(f, offset, a + b) == (h, n + m)
  {
    match f
    case OnStm32(s) => Stm32Flash.FillInPieces(s, offset, a, b);
    case OnAvr(s) => AvrFlash.FillInPieces(s, offset, a, b);
  }

  /** The count `cnFlashFill` returns: nothing without an open page; all of the data on STM32; on AVR the
      words that start before the end of the page. */
  lemma FillCounts(f: Flash, offset: nat, data: seq<byte>)
    requires |data| % 2 == 0
    ensures var n := Fill(f, offset, data).1;
            && n % 2 == 0 && n <= |data|
            && (CurPage(f) == 0 ==> n == 0)
            && (CurPage(f) != 0 && f.Platform() == STM32 ==> n == |data|)
            && (CurPage(f) != 0 && f.Platform() == AVR ==>
                  (n > 0 ==> offset + n - 2 < 128) && (n < |data| ==> offset + n >= 128))
  {
    hide Stm32Flash.StoreHalfWords, AvrFlash.LoadWords;
  }
}
