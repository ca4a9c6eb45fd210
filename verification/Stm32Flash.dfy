/** The STM32 flash driver (src/stm32/flash.c) on a register-level model of the flash controller:
    key sequence, LOCK/PER/STRT/PG, page erase to 0xFF and half-word programming of erased cells. */
module Stm32Flash {
  import opened Words
  import opened FlashBase

  const PAGE_SIZE: nat := 0x400
  const PAGE_MASK: nat := 0xFFFF_FC00
  const BOOTLOADER_SIZE: nat := 0x1000
  const FLASH_START: nat := 0x0800_0000
  const FLASH_SIZE: nat := 0x1_0000
  const FLASH_END: nat := FLASH_START + FLASH_SIZE
  const TOP_PAGE: nat := 0xFFFF_FC00

  const KEY1: nat := 0x4567_0123
  const KEY2: nat := 0xCDEF_89AB

  /** Arithmetic on the 32-bit `uintptr_t`. */
  function Wrap(addr: nat): nat {
    addr % 0x1_0000_0000
  }

  predicate PageAligned(addr: nat) {
    addr % 0x400 == 0
  }

  function PageStart(addr: nat): nat {
    addr - addr % 0x400
  }

  /** How far the unlock sequence got; a wrong key jams it until the next reset. */
  datatype Keys = Closed | HalfOpen | Jammed

  /** `mem` holds the flash from FLASH_START on; `fault` latches every access the controller refuses. */
  datatype Fpec = Fpec(
    mem: seq<byte>,
    keys: Keys,
    locked: bool,
    per: bool,
    pg: bool,
    ar: nat,
    curPage: nat,
    fault: bool,
    ops: seq<Op>)

  type State = f: Fpec | |f.mem| == FLASH_SIZE
    witness Fpec(Blank(FLASH_SIZE), Closed, true, false, false, 0, 0, false, [])

  // ----- the controller -----

  function WriteKey(s: State, key: nat): State {
    if s.keys.Jammed? then s
    else if s.keys.Closed? && key == KEY1 then s.(keys := HalfOpen)
    else if s.keys.HalfOpen? && key == KEY2 then s.(keys := Closed, locked := false)
    else s.(keys := Jammed, locked := true)
  }

  predicate InFlash(addr: nat, size: nat) {
    FLASH_START <= addr && addr + size <= FLASH_END
  }

  /** Setting STRT with PER set: the page around AR becomes 0xFF. Refused while PG is set too. */
  function StartErase(s: State): State {
    var page := PageStart(s.ar);
    var logged := s.(ops := s.ops + [Erase(s.ar)]);
    if !s.locked && s.per && !s.pg && InFlash(page, PAGE_SIZE) then
      logged.(mem := Overlay(s.mem, page - FLASH_START, Blank(PAGE_SIZE)))
    else
      logged.(fault := true)
  }

  /** A 16-bit store to flash with PG set. Only an erased half-word can be programmed. */
  function StoreHalfWord(s: State, addr: nat, lo: byte, hi: byte): State {
    var logged := s.(ops := s.ops + [Program(addr)]);
    if !s.locked && s.pg && addr % 2 == 0 && InFlash(addr, 2)
       && s.mem[addr - FLASH_START] == ERASED && s.mem[addr - FLASH_START + 1] == ERASED then
      logged.(mem := Overlay(s.mem, addr - FLASH_START, [lo, hi]))
    else
      logged.(fault := true)
  }

  // ----- what each driver call does -----

  predicate PageWriteable(addr: nat) {
    addr >= FLASH_START + BOOTLOADER_SIZE && Wrap(addr + PAGE_SIZE) < FLASH_END
  }

  function Unlock(s: State): (State, bool) {
    var t := WriteKey(WriteKey(s, KEY1), KEY2);
    (t, !t.locked)
  }

  function Lock(s: State): State {
    s.(locked := true)
  }

  function BeginWrite(s: State, addr: nat): (State, bool) {
    if s.locked then (s, false)
    else
      var erased := StartErase(s.(per := true, ar := addr));
      (erased.(per := false, pg := true, curPage := addr), true)
  }

  /** The first `n` half-words of `data` stored from `dest` on. */
  function StoreHalfWords(s: State, dest: nat, data: seq<byte>, n: nat): State
    requires 2 * n <= |data|
  {
    if n == 0 then s
    else
      var k := n - 1;
      StoreHalfWord(StoreHalfWords(s, dest, data, k), dest + 2 * k, data[2 * k], data[2 * k + 1])
  }

  lemma StoresOneMore(s: State, dest: nat, data: seq<byte>, k: nat, at: nat)
    requires at == 2 * k && at + 2 <= |data|
    ensures StoreHalfWords(s, dest, data, k + 1) ==
            StoreHalfWord(StoreHalfWords(s, dest, data, k), dest + at, data[at], data[at + 1])
  {
    hide StoreHalfWord;
  }

  function Fill(s: State, offset: nat, data: seq<byte>): (State, nat)
    requires |data| % 2 == 0
  {
    if s.curPage == 0 then (s, 0)
    else (StoreHalfWords(s, Wrap(s.curPage + offset), data, |data| / 2), |data|)
  }

  function EndWrite(s: State): (State, bool) {
    if s.curPage == 0 then (s, false)
    else (s.(pg := s.pg && s.locked, curPage := 0), true)
  }

  /** The call sequence of a COMMIT (src/common/main.c). */
  function Commit(s: State, addr: nat, data: seq<byte>): (State, bool)
    requires |data| % 2 == 0
  {
    var (begun, ok) := BeginWrite(s, addr);
    if !ok then (begun, false) else EndWrite(Fill(begun, 0, data).0)
  }

  /** Nothing is selected in CR and no page is open. */
  predicate AtRest(s: State) {
    !s.per && !s.pg && s.curPage == 0
  }

  // ----- the driver -----

  class Driver {
    const mem: array<byte>
    var keys: Keys
    var locked: bool
    var per: bool
    var pg: bool
    var ar: nat
    var busy: nat            // status polls left until SR.BSY clears
    var curPageAddr: nat
    ghost var fault: bool
    ghost var ops: seq<Op>

    ghost predicate Valid() {
      mem.Length == FLASH_SIZE
    }

    ghost function View(): State
      requires Valid()
      reads this, mem
    {
      Fpec(mem[..], keys, locked, per, pg, ar, curPageAddr, fault, ops)
    }

    constructor (contents: array<byte>, keys: Keys)
      requires contents.Length == FLASH_SIZE
      ensures Valid() && mem == contents
      ensures View() == Fpec(contents[..], keys, true, false, false, 0, 0, false, [])
    {
      mem := contents;
      this.keys := keys;
      locked, per, pg := true, false, false;
      ar, busy, curPageAddr := 0, 0, 0;
      fault, ops := false, [];
    }

    // ----- hardware side -----

    method WriteKeyr(key: nat)
      requires Valid()
      modifies this
      ensures Valid() && View() == WriteKey(old(View()), key) && busy == old(busy)
    {
      if keys.Jammed? {
      } else if keys.Closed? && key == KEY1 {
        keys := HalfOpen;
      } else if keys.HalfOpen? && key == KEY2 {
        keys, locked := Closed, false;
      } else {
        keys, locked := Jammed, true;
      }
    }

    /** The controller must not be busy; it then is for an arbitrary time. */
    method SetStrt()
      requires Valid() && busy == 0
      modifies this, mem
      ensures Valid() && View() == StartErase(old(View()))
    {
      ops := ops + [Erase(ar)];
      var page := PageStart(ar);
      if !locked && per && !pg && InFlash(page, PAGE_SIZE) {
        forall i | 0 <= i < PAGE_SIZE {
          mem[page - FLASH_START + i] := ERASED;
        }
        assert mem[..] == Overlay(old(mem[..]), page - FLASH_START, Blank(PAGE_SIZE));
      } else {
        fault := true;
      }
      busy := *;
    }

    method Store(addr: nat, lo: byte, hi: byte)
      requires Valid() && busy == 0
      modifies this, mem
      ensures Valid() && View() == StoreHalfWord(old(View()), addr, lo, hi)
    {
      ops := ops + [Program(addr)];
      var at := addr - FLASH_START;
      if !locked && pg && addr % 2 == 0 && InFlash(addr, 2) && mem[at] == ERASED && mem[at + 1] == ERASED {
        mem[at], mem[at + 1] := lo, hi;
        assert mem[..] == Overlay(old(mem[..]), at, [lo, hi]);
      } else {
        fault := true;
      }
      busy := *;
    }

    // ----- software side (src/stm32/flash.c) -----

    method FlashUnlock() returns (ok: bool)
      requires Valid()
      modifies this
      ensures Valid() && (View(), ok) == Unlock(old(View())) && busy == old(busy)
    {
      WriteKeyr(KEY1);
      WriteKeyr(KEY2);
      if locked {
        return false;
      }
      return true;
    }

    method FlashLock() returns (ok: bool)
      requires Valid()
      modifies this
      ensures Valid() && ok && View() == Lock(old(View())) && busy == old(busy)
    {
      locked := true;
      return locked;
    }

    method WaitForFlash()
      requires Valid()
      modifies this`busy
      ensures busy == 0
    {
      while busy != 0
        modifies this`busy
      {
        busy := busy - 1;
      }
    }

    method FlashBeginWrite(addr: nat) returns (ok: bool)
      requires Valid()
      modifies this, mem
      ensures Valid() && (View(), ok) == BeginWrite(old(View()), addr)
      ensures ok ==> busy == 0
    {
      if locked {
        return false;
      }
      WaitForFlash();
      per := true;
      ar := addr;
      SetStrt();
      WaitForFlash();
      per := false;
      pg := true;
      curPageAddr := addr;
      return true;
    }

    method FlashFill(offset: nat, data: seq<byte>) returns (bytesWritten: nat)
      requires Valid() && |data| % 2 == 0
      modifies this, mem
      ensures Valid() && (View(), bytesWritten) == Fill(old(View()), offset, data)
    {
      hide StoreHalfWord;
      if curPageAddr == 0 {
        return 0;
      }
      var dest := Wrap(curPageAddr + offset);
      ghost var start := View();
      bytesWritten := 0;
      ghost var n, words := 0, |data| / 2;
      while bytesWritten < |data|
        invariant bytesWritten == 2 * n && n <= words
        invariant View() == StoreHalfWords(start, dest, data, n)
      {
        WaitForFlash();
        Store(dest + bytesWritten, data[bytesWritten], data[bytesWritten + 1]);
        StoresOneMore(start, dest, data, n, bytesWritten);
        bytesWritten := bytesWritten + 2;
        n := n + 1;
      }
      WaitForFlash();
    }

    method FlashEndWrite() returns (ok: bool)
      requires Valid()
      modifies this
      ensures Valid() && (View(), ok) == EndWrite(old(View()))
    {
      if curPageAddr == 0 {
        return false;
      }
      WaitForFlash();
      if !locked {             // CR ignores writes while LOCK is set
        pg := false;
      }
      curPageAddr := 0;
      return true;
    }
  }

  // ----- what the controller refuses -----

  /** An erase happens if and only if LOCK is clear, PER is set without PG, and the page lies in flash.
      It sets that page to 0xFF; refused, it changes nothing. */
  lemma EraseExactly(s: State)
    requires !s.fault
    ensures var (t, page) := (StartErase(s), s.ar - s.ar % 1024);
            && (!t.fault <==> !s.locked && s.per && !s.pg && 0x0800_0000 <= page < 0x0801_0000)
            && (t.fault ==> t.mem == s.mem)
            && (!t.fault ==> forall i :: 0 <= i < |s.mem| ==>
                  t.mem[i] == if page <= 0x0800_0000 + i < page + 1024 then 0xFF else s.mem[i])
  {
  }

  /** A half-word is stored if and only if LOCK is clear, PG is set, and it is an erased half-word of
      flash; refused, nothing changes. */
  lemma StoreExactly(s: State, addr: nat, lo: byte, hi: byte)
    requires !s.fault
    ensures var (t, at) := (StoreHalfWord(s, addr, lo, hi), addr - 0x0800_0000);
            && (!t.fault <==> !s.locked && s.pg && addr % 2 == 0 && 0 <= at < 0x1_0000
                              && s.mem[at] == 0xFF && s.mem[at + 1] == 0xFF)
            && (t.fault ==> t.mem == s.mem)
            && (!t.fault ==> t.mem == s.mem[at := lo][at + 1 := hi])
  {
    var t, at := StoreHalfWord(s, addr, lo, hi), addr - 0x0800_0000;
    if !t.fault {
      assert |t.mem| == |s.mem| && t.mem == s.mem[at := lo][at + 1 := hi];
    }
  }

  /** CR cannot be written while LOCK is set: of the calls of a COMMIT only the driver's own page
      address changes. */
  lemma LockedControl(s: State, addr: nat)
    requires s.locked
    ensures BeginWrite(s, addr) == (s, false)
    ensures EndWrite(s) == (s.(curPage := 0), s.curPage != 0)
  {
  }

  // ----- theorems -----

  /** Unlocking succeeds exactly when the key sequence was not spoilt before. */
  lemma UnlockSucceeds(s: State)
    requires s.locked
    ensures Unlock(s) == if s.keys.Closed? then (s.(locked := false), true) else (s.(keys := Jammed), false)
  {
  }

  /** Two key writes open a locked controller if and only if they are the documented keys, in order, and
      the sequence was not spoilt before. */
  lemma KeysOpen(s: State, first: nat, second: nat)
    requires s.locked && !s.keys.HalfOpen?
    ensures !WriteKey(WriteKey(s, first), second).locked <==>
            s.keys.Closed? && first == 0x4567_0123 && second == 0xCDEF_89AB
  {
  }

  lemma PageStartAligned(addr: nat)
    ensures PageAligned(PageStart(addr))
    ensures addr < 0x1_0000_0000 ==> PageStart(addr) <= TOP_PAGE
  {
  }

  lemma MaskIsPageStart(addr: nat)
    requires addr < 0x1_0000_0000
    ensures BitAnd(addr, PAGE_MASK) == PageStart(addr)
    ensures PageAligned(PageStart(addr)) && PageStart(addr) <= TOP_PAGE
  {
    hide BitAnd;
    PageStartAligned(addr);
    Pow2Bytes();
    assert Pow2(10) == PAGE_SIZE;
    hide Pow2;
    AndMask(addr, 32, 10);
  }

  /** The requested address truncated with CN_FLASH_PAGE_MASK is the start of its page. */
  function MaskedPage(addr: nat): (page: nat)
    requires addr < 0x1_0000_0000
    ensures page == PageStart(addr) && PageAligned(page) && page <= TOP_PAGE
  {
    MaskIsPageStart(addr);
    BitAnd(addr, PAGE_MASK)
  }

  lemma MaskKeepsAligned(addr: nat)
    requires addr < 0x1_0000_0000 && PageAligned(addr)
    ensures MaskedPage(addr) == addr
  {
    hide MaskedPage;
  }

  /** The upper-bound test lets one page too many through, because its sum wraps, and it
      keeps the last page of the flash out. */
  lemma PageWriteableExactly(addr: nat)
    requires addr < 0x1_0000_0000 && PageAligned(addr)
    ensures PageWriteable(addr) <==>
            FLASH_START + BOOTLOADER_SIZE <= addr < FLASH_END - PAGE_SIZE || addr == TOP_PAGE
  {
  }

  function ProgramOps(dest: nat, n: nat): (o: seq<Op>)
    ensures |o| == n
  {
    seq(n, i requires 0 <= i < n => Program(dest + 2 * i))
  }

  lemma StoreExtendsPatch(s: State, dest: nat, data: seq<byte>, k: nat)
    requires 2 * k + 2 <= |data|
    requires !s.locked && s.pg && dest % 2 == 0 && InFlash(dest, 2 * k + 2)
    requires s.mem[dest - FLASH_START + 2 * k] == ERASED && s.mem[dest - FLASH_START + 2 * k + 1] == ERASED
    ensures StoreHalfWord(Stored(s, dest, data, k), dest + 2 * k, data[2 * k], data[2 * k + 1])
         == Stored(s, dest, data, k + 1)
  {
    PatchHalfWord(s.mem, dest - FLASH_START, data, k);
    assert s.ops + ProgramOps(dest, k + 1) == s.ops + ProgramOps(dest, k) + [Program(dest + 2 * k)];
  }

  /** `s` after `n` half-words went into erased cells. */
  function Stored(s: State, dest: nat, data: seq<byte>, n: nat): State
    requires 2 * n <= |data| && InFlash(dest, 2 * n)
  {
    s.(mem := Patch(s.mem, dest - FLASH_START, data, 2 * n), ops := s.ops + ProgramOps(dest, n))
  }

  lemma StoredNothing(s: State, dest: nat, data: seq<byte>)
    requires InFlash(dest, 0)
    ensures StoreHalfWords(s, dest, data, 0) == s == Stored(s, dest, data, 0)
  {
    assert Patch(s.mem, dest - FLASH_START, data, 0) == s.mem;
    assert s.ops + ProgramOps(dest, 0) == s.ops;
  }

  /** Half-words stored one after the other into erased cells. */
  lemma {:induction false} StoresPatch(s: State, dest: nat, data: seq<byte>, n: nat)
    requires 2 * n <= |data|
    requires !s.locked && s.pg && dest % 2 == 0 && InFlash(dest, 2 * n)
    requires forall i :: dest - FLASH_START <= i < dest - FLASH_START + 2 * n ==> s.mem[i] == ERASED
    ensures StoreHalfWords(s, dest, data, n) == Stored(s, dest, data, n)
  {
    hide StoreHalfWord, Stored, StoreHalfWords;
    if n == 0 {
      StoredNothing(s, dest, data);
    } else {
      var k := n - 1;
      StoresPatch(s, dest, data, k);
      StoresOneMore(s, dest, data, k, 2 * k);
      StoreExtendsPatch(s, dest, data, k);
    }
  }

  lemma FillPatches(s: State, addr: nat, data: seq<byte>)
    requires !s.locked && s.pg && s.curPage == addr
    requires PageAligned(addr) && InFlash(addr, PAGE_SIZE) && |data| == PAGE_SIZE
    requires forall i :: addr - FLASH_START <= i < addr - FLASH_START + PAGE_SIZE ==> s.mem[i] == ERASED
    ensures Fill(s, 0, data) == (Stored(s, addr, data, PAGE_SIZE / 2), PAGE_SIZE)
  {
    hide StoreHalfWord;
    StoresPatch(s, addr, data, |data| / 2);
  }

  /** On an unlocked controller at rest a COMMIT replaces exactly one page, programs erased
      half-words only, and returns every control bit to rest. */
  lemma CommitReplacesPage(s: State, addr: nat, data: seq<byte>)
    requires !s.locked && AtRest(s)
    requires PageAligned(addr) && InFlash(addr, PAGE_SIZE) && |data| == PAGE_SIZE
    ensures Commit(s, addr, data) ==
            (s.(mem := Overlay(s.mem, addr - FLASH_START, data),
                ar := addr,
                ops := s.ops + [Erase(addr)] + ProgramOps(addr, PAGE_SIZE / 2)), true)
  {
    var at := addr - FLASH_START;
    var erased := Overlay(s.mem, at, Blank(PAGE_SIZE));
    var begun := BeginWrite(s, addr).0;
    assert begun == s.(mem := erased, pg := true, ar := addr, curPage := addr, ops := s.ops + [Erase(addr)]);
    FillPatches(begun, addr, data);
    OverlayTwice(s.mem, at, Blank(PAGE_SIZE), data);
  }

  lemma CommitLocked(s: State, addr: nat, data: seq<byte>)
    requires s.locked && |data| % 2 == 0
    ensures Commit(s, addr, data) == (s, false)
  {
  }

  /** Before any page was selected an unlocked COMMIT still starts an erase, at address 0, and leaves PG set. */
  lemma CommitUnselected(s: State, data: seq<byte>)
    requires !s.locked && AtRest(s) && |data| % 2 == 0
    ensures Commit(s, 0, data) == (s.(ar := 0, pg := true, fault := true, ops := s.ops + [Erase(0)]), false)
  {
  }

  lemma {:induction false} StoresOutside(s: State, dest: nat, data: seq<byte>, n: nat)
    requires 2 * n <= |data| && dest >= FLASH_END
    ensures var t := StoreHalfWords(s, dest, data, n);
            t == s.(fault := t.fault, ops := s.ops + ProgramOps(dest, n))
  {
    if n == 0 {
      assert s.ops + ProgramOps(dest, 0) == s.ops;
    } else {
      StoresOutside(s, dest, data, n - 1);
      assert s.ops + ProgramOps(dest, n) == s.ops + ProgramOps(dest, n - 1) + [Program(dest + 2 * (n - 1))];
    }
  }

  /** A COMMIT to the wrapping top page reports success, faults, and leaves the flash as it was. */
  lemma CommitTopPage(s: State, data: seq<byte>)
    requires !s.locked && AtRest(s) && |data| == PAGE_SIZE
    ensures Commit(s, TOP_PAGE, data) ==
            (s.(ar := TOP_PAGE, fault := true,
                ops := s.ops + [Erase(TOP_PAGE)] + ProgramOps(TOP_PAGE, PAGE_SIZE / 2)), true)
  {
    var (begun, ok) := BeginWrite(s, TOP_PAGE);
    StoresOutside(begun, TOP_PAGE, data, PAGE_SIZE / 2);
    FaultSticks(begun, TOP_PAGE, data, PAGE_SIZE / 2);
  }

  lemma {:induction false} FaultSticks(s: State, dest: nat, data: seq<byte>, n: nat)
    requires 2 * n <= |data| && s.fault
    ensures StoreHalfWords(s, dest, data, n).fault
  {
    if n > 0 {
      FaultSticks(s, dest, data, n - 1);
    }
  }

  lemma {:induction false} StoresKeepControl(s: State, dest: nat, data: seq<byte>, n: nat)
    requires 2 * n <= |data|
    ensures var t := StoreHalfWords(s, dest, data, n);
            t == s.(mem := t.mem, fault := t.fault, ops := t.ops) && s.ops <= t.ops
  {
    if n > 0 {
      StoresKeepControl(s, dest, data, n - 1);
    }
  }

  /** No COMMIT, in whatever state, opens or closes the lock or forgets an operation. */
  lemma CommitKeepsLock(s: State, addr: nat, data: seq<byte>)
    requires |data| % 2 == 0
    ensures Commit(s, addr, data).0.locked == s.locked && s.ops <= Commit(s, addr, data).0.ops
  {
    hide StoreHalfWords;
    var begun := BeginWrite(s, addr).0;
    StoresKeepControl(begun, Wrap(begun.curPage + 0), data, |data| / 2);
  }

  lemma {:induction false} StoresLocked(s: State, dest: nat, data: seq<byte>, n: nat)
    requires 2 * n <= |data| && s.locked
    ensures StoreHalfWords(s, dest, data, n).mem == s.mem
  {
    hide Overlay;
    if n > 0 {
      StoresLocked(s, dest, data, n - 1);
      StoresKeepControl(s, dest, data, n - 1);
    }
  }

  /** Stores change no byte outside the stretch they are made to. */
  lemma {:induction false} StoresInside(s: State, dest: nat, data: seq<byte>, n: nat, i: nat)
    requires 2 * n <= |data| && i < |s.mem| && !(dest <= FLASH_START + i < dest + 2 * n)
    ensures StoreHalfWords(s, dest, data, n).mem[i] == s.mem[i]
  {
    hide StoreHalfWord;
    if n > 0 {
      var k := n - 1;
      StoresInside(s, dest, data, k, i);
      StoreInside(StoreHalfWords(s, dest, data, k), dest + 2 * k, data[2 * k], data[2 * k + 1], i);
    }
  }

  lemma StoreInside(s: State, addr: nat, lo: byte, hi: byte, i: nat)
    requires i < |s.mem| && !(addr <= FLASH_START + i < addr + 2)
    ensures StoreHalfWord(s, addr, lo, hi).mem[i] == s.mem[i]
  {
  }

  lemma {:induction false} StoresPrefix(s: State, dest: nat, a: seq<byte>, b: seq<byte>, n: nat)
    requires 2 * n <= |a|
    ensures StoreHalfWords(s, dest, a + b, n) == StoreHalfWords(s, dest, a, n)
  {
    hide StoreHalfWord;
    if n > 0 {
      StoresPrefix(s, dest, a, b, n - 1);
    }
  }

  /** Storing one piece after the other is storing them together. */
  lemma {:induction false} StoresConcat(s: State, dest: nat, a: seq<byte>, b: seq<byte>, h: nat, n: nat)
    requires 2 * h == |a| && 2 * n <= |b|
    ensures StoreHalfWords(s, dest, a + b, h + n)
         == StoreHalfWords(StoreHalfWords(s, dest, a, h), dest + |a|, b, n)
  {
    hide StoreHalfWord;
    if n == 0 {
      StoresPrefix(s, dest, a, b, h);
    } else {
      var k := n - 1;
      StoresConcat(s, dest, a, b, h, k);
      assert (a + b)[2 * (h + k)] == b[2 * k] && (a + b)[2 * (h + k) + 1] == b[2 * k + 1];
      assert dest + 2 * (h + k) == dest + |a| + 2 * k;
    }
  }

  lemma FillInPieces(s: State, offset: nat, a: seq<byte>, b: seq<byte>)
    requires |a| % 2 == 0 && |b| % 2 == 0 && s.curPage + offset + |a| < 0x1_0000_0000
    ensures |a + b| % 2 == 0
    ensures var (t, n) := Fill(s, offset, a);
            var (u, m) := Fill(t, offset + |a|, b);
            Fill(s, offset, a + b) == (u, n + m)
  {
    hide StoreHalfWords;
    var dest := s.curPage + offset;
    StoresKeepControl(s, Wrap(s.curPage + offset), a, |a| / 2);
    StoresConcat(s, dest, a, b, |a| / 2, |b| / 2);
  }
}
