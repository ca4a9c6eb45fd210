/** The AVR flash driver (src/avr/flash.c) on a model of self-programming: a temporary buffer of
    64 words, page erase to 0xFF, and a page write that can only clear bits and empties the buffer. */
module AvrFlash {
  import opened Words
  import opened FlashBase

  const PAGE_SIZE: nat := 0x80
  const PAGE_MASK: nat := 0xFF80
  const PAGE_WORDS: nat := 0x40
  const BOOTLOADER_SIZE: nat := 0x1000
  const FLASH_SIZE: nat := 0x8000
  const APP_END: nat := FLASH_SIZE - BOOTLOADER_SIZE
  const TOP_PAGE: nat := 0xFF80

  /** Arithmetic on the 16-bit `uintptr_t` and `unsigned`. */
  function Wrap(addr: nat): nat {
    addr % 0x1_0000
  }

  predicate PageAligned(addr: nat) {
    addr % 0x80 == 0
  }

  /** The flash has 15 address bits; the controller ignores the sixteenth. */
  function PageIndex(addr: nat): (at: nat)
    ensures at + PAGE_SIZE <= FLASH_SIZE
  {
    addr % 0x8000 / 0x80 * 0x80
  }

  function SlotIndex(addr: nat): (i: nat)
    ensures i < PAGE_WORDS
  {
    addr % 0x80 / 2
  }

  /** One word of the temporary buffer. An empty slot reads as 0xFFFF and can be loaded once. */
  datatype Slot = Empty | Loaded(lo: byte, hi: byte)

  datatype Spm = Spm(
    mem: seq<byte>,
    locked: bool,
    curPage: nat,
    buffer: seq<Slot>,
    fault: bool,
    ops: seq<Op>)

  type State = f: Spm | |f.mem| == FLASH_SIZE && |f.buffer| == PAGE_WORDS
    witness Spm(Blank(FLASH_SIZE), true, 0, EmptyBuffer(), false, [])

  function EmptyBuffer(): (b: seq<Slot>)
    ensures |b| == PAGE_WORDS && forall i :: 0 <= i < PAGE_WORDS ==> b[i].Empty?
  {
    seq(PAGE_WORDS, _ => Empty)
  }

  // ----- the controller -----

  function LoadWord(s: State, addr: nat, lo: byte, hi: byte): State {
    var i := SlotIndex(addr);
    if s.buffer[i].Empty? then s.(buffer := s.buffer[i := Loaded(lo, hi)]) else s.(fault := true)
  }

  function ErasePage(s: State, addr: nat): State {
    s.(mem := Overlay(s.mem, PageIndex(addr), Blank(PAGE_SIZE)), ops := s.ops + [Erase(addr)])
  }

  function BufferByte(buffer: seq<Slot>, j: nat): byte
    requires |buffer| == PAGE_WORDS && j < PAGE_SIZE
  {
    match buffer[j / 2]
    case Empty => ERASED
    case Loaded(lo, hi) => if j % 2 == 0 then lo else hi
  }

  /** Programming clears bits: the page is ANDed with the buffer. */
  function ProgrammedByte(current: byte, b: byte): byte {
    AndBelow(current, b);
    BitAnd(current, b)
  }

  lemma {:induction false} AndBelow(a: nat, b: nat)
    ensures BitAnd(a, b) <= a
  {
    if a != 0 && b != 0 {
      AndBelow(a / 2, b / 2);
    }
  }

  function Programmed(mem: seq<byte>, at: nat, buffer: seq<Slot>): (m: seq<byte>)
    requires at + PAGE_SIZE <= |mem| && |buffer| == PAGE_WORDS
    ensures |m| == |mem|
    ensures forall i :: 0 <= i < |mem| ==>
      m[i] == if at <= i < at + PAGE_SIZE then ProgrammedByte(mem[i], BufferByte(buffer, i - at)) else mem[i]
  {
    seq(|mem|, i requires 0 <= i < |mem| =>
      if at <= i < at + PAGE_SIZE then ProgrammedByte(mem[i], BufferByte(buffer, i - at)) else mem[i])
  }

  function WritePage(s: State, addr: nat): State {
    s.(mem := Programmed(s.mem, PageIndex(addr), s.buffer), buffer := EmptyBuffer(), ops := s.ops + [Program(addr)])
  }

  // ----- what each driver call does -----

  predicate PageWriteable(addr: nat) {
    Wrap(addr + PAGE_SIZE) < FLASH_SIZE - BOOTLOADER_SIZE
  }

  function Unlock(s: State): (State, bool) {
    (s.(locked := false), true)
  }

  function Lock(s: State): State {
    s.(locked := true)
  }

  function BeginWrite(s: State, addr: nat): (State, bool) {
    (s.(curPage := addr), true)
  }

  /** The first `n` words of `data` loaded from `base` on. */
  function LoadWords(s: State, base: nat, data: seq<byte>, n: nat): State
    requires 2 * n <= |data|
  {
    if n == 0 then s
    else
      var k := n - 1;
      LoadWord(LoadWords(s, base, data, k), Wrap(base + 2 * k), data[2 * k], data[2 * k + 1])
  }

  /** How many words of `size` bytes start between `offset` and the end of the page. */
  function WordsThatFit(offset: nat, size: nat): (n: nat)
    requires size % 2 == 0
    ensures 2 * n <= size
    ensures n > 0 ==> 2 * n - 2 + offset < PAGE_SIZE
    ensures 2 * n == size || 2 * n + offset >= PAGE_SIZE
  {
    if offset >= PAGE_SIZE then 0
    else
      var room := (PAGE_SIZE - offset + 1) / 2;
      if room < size / 2 then room else size / 2
  }

  function Fill(s: State, offset: nat, data: seq<byte>): (State, nat)
    requires |data| % 2 == 0
  {
    if s.curPage == 0 then (s, 0)
    else
      var n := WordsThatFit(offset, |data|);
      (LoadWords(s, Wrap(s.curPage + offset), data, n), 2 * n)
  }

  function EndWrite(s: State): (State, bool) {
    if s.curPage == 0 || s.locked then (s, false)
    else (WritePage(ErasePage(s, s.curPage), s.curPage).(curPage := 0), true)
  }

  /** The call sequence of a COMMIT (src/common/main.c). */
  function Commit(s: State, addr: nat, data: seq<byte>): (State, bool)
    requires |data| % 2 == 0
  {
    EndWrite(Fill(BeginWrite(s, addr).0, 0, data).0)
  }

  /** No page is open and the temporary buffer is empty. */
  predicate AtRest(s: State) {
    s.curPage == 0 && s.buffer == EmptyBuffer()
  }

  // ----- the driver -----

  class Driver {
    const mem: array<byte>
    const buffer: array<Slot>
    var flashLocked: bool
    var curPageAddr: nat
    ghost var fault: bool
    ghost var ops: seq<Op>

    ghost predicate Valid() {
      mem.Length == FLASH_SIZE && buffer.Length == PAGE_WORDS
    }

    ghost function View(): State
      requires Valid()
      reads this, mem, buffer
    {
      Spm(mem[..], flashLocked, curPageAddr, buffer[..], fault, ops)
    }

    constructor (contents: array<byte>)
      requires contents.Length == FLASH_SIZE
      ensures Valid() && mem == contents && fresh(buffer)
      ensures View() == Spm(contents[..], true, 0, EmptyBuffer(), false, [])
    {
      mem := contents;
      buffer := new Slot[PAGE_WORDS](_ => Empty);
      flashLocked, curPageAddr := true, 0;
      fault, ops := false, [];
      new;
      assert buffer[..] == EmptyBuffer();
    }

    // ----- hardware side (avr-libc's boot_page_* macros) -----

    method BootPageFill(addr: nat, lo: byte, hi: byte)
      requires Valid()
      modifies this, buffer
      ensures Valid() && View() == LoadWord(old(View()), addr, lo, hi)
    {
      var i := SlotIndex(addr);
      if buffer[i].Empty? {
        buffer[i] := Loaded(lo, hi);
      } else {
        fault := true;
      }
    }

    method BootPageErase(addr: nat)
      requires Valid()
      modifies this, mem
      ensures Valid() && View() == ErasePage(old(View()), addr)
    {
      var at := PageIndex(addr);
      forall j | 0 <= j < PAGE_SIZE {
        mem[at + j] := ERASED;
      }
      assert mem[..] == Overlay(old(mem[..]), at, Blank(PAGE_SIZE));
      ops := ops + [Erase(addr)];
    }

    method BootPageWrite(addr: nat)
      requires Valid()
      modifies this, mem, buffer
      ensures Valid() && View() == WritePage(old(View()), addr)
    {
      var at := PageIndex(addr);
      var words := buffer[..];
      forall i | at <= i < at + PAGE_SIZE {
        mem[i] := ProgrammedByte(mem[i], BufferByte(words, i - at));
      }
      assert mem[..] == Programmed(old(mem[..]), at, words);
      forall i | 0 <= i < PAGE_WORDS {
        buffer[i] := Empty;
      }
      assert buffer[..] == EmptyBuffer();
      ops := ops + [Program(addr)];
    }

    // ----- software side (src/avr/flash.c) -----

    method FlashUnlock() returns (ok: bool)
      requires Valid()
      modifies this
      ensures Valid() && (View(), ok) == Unlock(old(View()))
    {
      flashLocked := false;
      return true;
    }

    method FlashLock() returns (ok: bool)
      requires Valid()
      modifies this
      ensures Valid() && ok && View() == Lock(old(View()))
    {
      flashLocked := true;
      return true;
    }

    method FlashBeginWrite(addr: nat) returns (ok: bool)
      requires Valid()
      modifies this
      ensures Valid() && (View(), ok) == BeginWrite(old(View()), addr)
    {
      curPageAddr := addr;
      return true;
    }

    method FlashFill(offset: nat, data: seq<byte>) returns (bytesWritten: nat)
      requires Valid() && |data| % 2 == 0
      modifies this, buffer
      ensures Valid() && (View(), bytesWritten) == Fill(old(View()), offset, data)
    {
      hide LoadWord, WordsThatFit, Wrap;
      if curPageAddr == 0 {
        return 0;
      }
      ghost var start, n := View(), 0;
      ghost var base, last := Wrap(curPageAddr + offset), WordsThatFit(offset, |data|);
      var addr := Wrap(curPageAddr + offset);
      WrapNext(curPageAddr + offset);
      bytesWritten := 0;
      while bytesWritten < |data| && bytesWritten + offset < PAGE_SIZE
        invariant bytesWritten == 2 * n && n <= last && addr == Wrap(base + bytesWritten)
        invariant View() == LoadWords(start, base, data, n)
      {
        BootPageFill(addr, data[bytesWritten], data[bytesWritten + 1]);
        LoadsOneMore(start, base, data, n, bytesWritten);
        WrapNext(base + bytesWritten);
        bytesWritten, addr := bytesWritten + 2, Wrap(addr + 2);
        n := n + 1;
      }
    }

    method FlashEndWrite() returns (ok: bool)
      requires Valid()
      modifies this, mem, buffer
      ensures Valid() && (View(), ok) == EndWrite(old(View()))
    {
      hide Programmed, Overlay;
      if curPageAddr == 0 || flashLocked {
        return false;
      }
      BootPageErase(curPageAddr);
      BootPageWrite(curPageAddr);
      curPageAddr := 0;
      return true;
    }
  }

  lemma WrapNext(x: nat)
    ensures Wrap(Wrap(x)) == Wrap(x) && Wrap(Wrap(x) + 2) == Wrap(x + 2)
  {
  }

  lemma LoadsOneMore(s: State, base: nat, data: seq<byte>, k: nat, at: nat)
    requires at == 2 * k && at + 2 <= |data|
    ensures LoadWords(s, base, data, k + 1) ==
            LoadWord(LoadWords(s, base, data, k), Wrap(base + at), data[at], data[at + 1])
  {
    hide LoadWord;
  }

  // ----- what the controller does with its buffer -----

  /** Each word of the temporary buffer takes one load; a second one is refused. */
  lemma LoadsOnce(s: State, addr: nat, lo: byte, hi: byte)
    requires !s.fault
    ensures var (t, i) := (LoadWord(s, addr, lo, hi), addr % 128 / 2);
            && (t.fault <==> s.buffer[i] != Empty)
            && t.buffer == (if t.fault then s.buffer else s.buffer[i := Loaded(lo, hi)])
            && t.mem == s.mem
  {
  }

  /** A page write clears the bits that are clear in the buffer and sets none; words that were not
      loaded, and other pages, stay as they are. */
  lemma WriteOnlyClears(s: State, addr: nat, i: nat, k: nat)
    requires i < |s.mem|
    ensures var (t, at) := (WritePage(s, addr), addr % 0x8000 / 128 * 128);
            if !(at <= i < at + 128) || s.buffer[(i - at) / 2].Empty? then t.mem[i] == s.mem[i]
            else
              var word := s.buffer[(i - at) / 2];
              t.mem[i] / Pow2(k) % 2 == 1 <==>
                s.mem[i] / Pow2(k) % 2 == 1 && (if (i - at) % 2 == 0 then word.lo else word.hi) / Pow2(k) % 2 == 1
  {
    hide BitAnd, Pow2;
    var at := PageIndex(addr);
    if at <= i < at + 128 {
      var b := BufferByte(s.buffer, i - at);
      AndBit(s.mem[i], b, k);
      AndErased(s.mem[i]);
      AndCommutes(ERASED, s.mem[i]);
    }
  }

  // ----- theorems -----

  lemma MaskAligned(addr: nat)
    ensures Wrap(addr) >= addr % 0x80
    ensures PageAligned(Wrap(addr) - addr % 0x80) && Wrap(addr) - addr % 0x80 <= TOP_PAGE
  {
  }

  lemma MaskIsPageStart(addr: nat)
    ensures BitAnd(addr, PAGE_MASK) == Wrap(addr) - addr % 0x80
  {
    hide BitAnd;
    Pow2Bytes();
    assert Pow2(7) == PAGE_SIZE;
    hide Pow2;
    AndMask(addr, 16, 7);
  }

  /** CN_FLASH_PAGE_MASK keeps sixteen bits of the requested 32-bit address and drops the rest. */
  function MaskedPage(addr: nat): (page: nat)
    ensures page == Wrap(addr) - addr % 0x80 && PageAligned(page) && page <= TOP_PAGE
  {
    MaskAligned(addr);
    MaskIsPageStart(addr);
    BitAnd(addr, PAGE_MASK)
  }

  lemma MaskKeepsAligned(addr: nat)
    requires addr < 0x1_0000 && PageAligned(addr)
    ensures MaskedPage(addr) == addr
  {
    hide MaskedPage;
  }

  /** The upper-bound test lets one page too many through, because its sum wraps, and it
      keeps the last page of the application section out. */
  lemma PageWriteableExactly(addr: nat)
    requires addr < 0x1_0000 && PageAligned(addr)
    ensures PageWriteable(addr) <==> addr < APP_END - PAGE_SIZE || addr == TOP_PAGE
  {
  }

  function LoadedBuffer(data: seq<byte>, n: nat): (b: seq<Slot>)
    requires 2 * n <= |data| && n <= PAGE_WORDS
    ensures |b| == PAGE_WORDS
    ensures forall i :: 0 <= i < PAGE_WORDS ==> b[i] == if i < n then Loaded(data[2 * i], data[2 * i + 1]) else Empty
  {
    seq(PAGE_WORDS, i requires 0 <= i < PAGE_WORDS => if i < n then Loaded(data[2 * i], data[2 * i + 1]) else Empty)
  }

  lemma LoadExtendsBuffer(s: State, base: nat, data: seq<byte>, k: nat)
    requires base < 0x1_0000 && PageAligned(base)
    requires 2 * k + 2 <= |data| && k < PAGE_WORDS
    ensures LoadWord(s.(buffer := LoadedBuffer(data, k)), Wrap(base + 2 * k), data[2 * k], data[2 * k + 1])
         == s.(buffer := LoadedBuffer(data, k + 1))
  {
    assert SlotIndex(Wrap(base + 2 * k)) == k;
    assert LoadedBuffer(data, k)[k := Loaded(data[2 * k], data[2 * k + 1])] == LoadedBuffer(data, k + 1);
  }

  /** Words of one page fill distinct slots, so none is loaded twice. */
  lemma {:induction false} LoadsFillBuffer(s: State, base: nat, data: seq<byte>, n: nat)
    requires s.buffer == EmptyBuffer() && base < 0x1_0000 && PageAligned(base)
    requires 2 * n <= |data| && n <= PAGE_WORDS
    ensures LoadWords(s, base, data, n) == s.(buffer := LoadedBuffer(data, n))
  {
    hide LoadWord, LoadedBuffer;
    if n == 0 {
      assert LoadedBuffer(data, 0) == EmptyBuffer();
    } else {
      var k := n - 1;
      LoadsFillBuffer(s, base, data, k);
      LoadsOneMore(s, base, data, k, 2 * k);
      LoadExtendsBuffer(s, base, data, k);
    }
  }

  lemma ProgramErased(mem: seq<byte>, at: nat, data: seq<byte>)
    requires at + PAGE_SIZE <= |mem| && |data| == PAGE_SIZE
    ensures Programmed(Overlay(mem, at, Blank(PAGE_SIZE)), at, LoadedBuffer(data, PAGE_WORDS)) == Overlay(mem, at, data)
  {
    var erased, buffer := Overlay(mem, at, Blank(PAGE_SIZE)), LoadedBuffer(data, PAGE_WORDS);
    var x, y := Programmed(erased, at, buffer), Overlay(mem, at, data);
    forall i | 0 <= i < |mem|
      ensures x[i] == y[i]
    {
      if at <= i < at + PAGE_SIZE {
        assert BufferByte(buffer, i - at) == data[i - at];
        AndErased(data[i - at]);
      }
    }
  }

  lemma FillLoadsBuffer(s: State, addr: nat, data: seq<byte>)
    requires s.buffer == EmptyBuffer() && s.curPage == addr
    requires 0 < addr < 0x1_0000 && PageAligned(addr) && |data| == PAGE_SIZE
    ensures Fill(s, 0, data) == (s.(buffer := LoadedBuffer(data, PAGE_WORDS)), PAGE_SIZE)
  {
    hide LoadWords, LoadedBuffer, WordsThatFit;
    LoadsFillBuffer(s, addr, data, PAGE_WORDS);
  }

  /** With the software lock open and the buffer empty a COMMIT replaces exactly the page the
      controller decodes, and leaves buffer and driver at rest. */
  lemma CommitReplacesPage(s: State, addr: nat, data: seq<byte>)
    requires !s.locked && AtRest(s)
    requires 0 < addr < 0x1_0000 && PageAligned(addr) && |data| == PAGE_SIZE
    ensures Commit(s, addr, data) ==
            (s.(mem := Overlay(s.mem, PageIndex(addr), data), ops := s.ops + [Erase(addr), Program(addr)]), true)
  {
    hide Overlay, Programmed, LoadedBuffer, Fill, PageIndex, PageAligned;
    FillLoadsBuffer(s.(curPage := addr), addr, data);
    ProgramErased(s.mem, PageIndex(addr), data);
    assert s.ops + [Erase(addr)] + [Program(addr)] == s.ops + [Erase(addr), Program(addr)];
  }

  lemma PageIndexOf(addr: nat)
    requires PageAligned(addr)
    ensures PageIndex(addr) == addr % 0x8000
  {
  }

  /** The wrapping top page is decoded as the last page of the bootloader section. */
  lemma TopPageIsBootloader()
    ensures PageWriteable(TOP_PAGE) && PageIndex(TOP_PAGE) == FLASH_SIZE - PAGE_SIZE >= APP_END
  {
  }

  /** Page 0 passes the writeability test but is the "no page" sentinel: it is never programmed. */
  lemma CommitPageZero(s: State, data: seq<byte>)
    requires AtRest(s) && |data| % 2 == 0
    ensures PageWriteable(0) && Commit(s, 0, data) == (s, false)
    ensures BeginWrite(s, 0) == (s, true) && Fill(s, 0, data) == (s, 0) && EndWrite(s) == (s, false)
  {
  }

  lemma {:induction false} LoadsKeepFlash(s: State, base: nat, data: seq<byte>, n: nat)
    requires 2 * n <= |data|
    ensures var t := LoadWords(s, base, data, n);
            t == s.(buffer := t.buffer, fault := t.fault)
  {
    if n > 0 {
      LoadsKeepFlash(s, base, data, n - 1);
    }
  }

  /** The lock is only looked at when a write ends; until then a locked COMMIT touches the buffer only. */
  lemma CommitLocked(s: State, addr: nat, data: seq<byte>)
    requires s.locked && |data| % 2 == 0
    ensures var (t, ok) := Commit(s, addr, data);
            !ok && t == s.(curPage := addr, buffer := t.buffer, fault := t.fault)
  {
    hide LoadWords;
    var begun := s.(curPage := addr);
    LoadsKeepFlash(begun, Wrap(addr), data, WordsThatFit(0, |data|));
  }

  /** No COMMIT, in whatever state, opens or closes the lock or forgets an operation. */
  lemma CommitKeepsLock(s: State, addr: nat, data: seq<byte>)
    requires |data| % 2 == 0
    ensures Commit(s, addr, data).0.locked == s.locked && s.ops <= Commit(s, addr, data).0.ops
  {
    hide LoadWords;
    LoadsKeepFlash(s.(curPage := addr), Wrap(addr), data, WordsThatFit(0, |data|));
  }

  lemma {:induction false} LoadsPrefix(s: State, base: nat, a: seq<byte>, b: seq<byte>, n: nat)
    requires 2 * n <= |a|
    ensures LoadWords(s, base, a + b, n) == LoadWords(s, base, a, n)
  {
    hide LoadWord;
    if n > 0 {
      LoadsPrefix(s, base, a, b, n - 1);
    }
  }

  /** Loading one piece after the other is loading them together. */
  lemma {:induction false} LoadsConcat(s: State, base: nat, next: nat, a: seq<byte>, b: seq<byte>, h: nat, n: nat)
    requires 2 * h == |a| && 2 * n <= |b| && next == Wrap(base + |a|)
    ensures LoadWords(s, base, a + b, h + n) == LoadWords(LoadWords(s, base, a, h), next, b, n)
  {
    hide LoadWord, LoadWords, Wrap;
    if n == 0 {
      LoadsPrefix(s, base, a, b, h);
      LoadsNothing(LoadWords(s, base, a, h), next, b);
    } else {
      var k := n - 1;
      LoadsConcat(s, base, next, a, b, h, k);
      LoadsOneMore(s, base, a + b, h + k, 2 * (h + k));
      LoadsOneMore(LoadWords(s, base, a, h), next, b, k, 2 * k);
      WrapOn(base, next, |a|, 2 * k);
      assert (a + b)[2 * (h + k)] == b[2 * k] && (a + b)[2 * (h + k) + 1] == b[2 * k + 1];
    }
  }

  lemma WrapOn(base: nat, next: nat, x: nat, y: nat)
    requires next == Wrap(base + x)
    ensures Wrap(base + (x + y)) == Wrap(next + y)
  {
  }

  lemma FitInPieces(offset: nat, a: nat, b: nat)
    requires a % 2 == 0 && b % 2 == 0
    ensures WordsThatFit(offset, a + b) == WordsThatFit(offset, a) + WordsThatFit(offset + a, b)
    ensures 2 * WordsThatFit(offset, a) < a ==> WordsThatFit(offset + a, b) == 0
  {
  }

  lemma FillInPieces(s: State, offset: nat, a: seq<byte>, b: seq<byte>)
    requires |a| % 2 == 0 && |b| % 2 == 0
    ensures |a + b| % 2 == 0
    ensures var (t, n) := Fill(s, offset, a);
            var (u, m) := Fill(t, offset + |a|, b);
            Fill(s, offset, a + b) == (u, n + m)
  {
    hide LoadWords, WordsThatFit, Wrap;
    var base, next := Wrap(s.curPage + offset), Wrap(s.curPage + (offset + |a|));
    var n, m := WordsThatFit(offset, |a|), WordsThatFit(offset + |a|, |b|);
    FitInPieces(offset, |a|, |b|);
    LoadsKeepFlash(s, base, a, n);
    LoadsInPieces(s, offset, a, b, n, m);
    assert s.curPage + offset + |a| == s.curPage + (offset + |a|);
  }

  lemma LoadsInPieces(s: State, offset: nat, a: seq<byte>, b: seq<byte>, n: nat, m: nat)
    requires 2 * n <= |a| && 2 * m <= |b| && (m == 0 || 2 * n == |a|)
    ensures LoadWords(s, Wrap(s.curPage + offset), a + b, n + m)
         == LoadWords(LoadWords(s, Wrap(s.curPage + offset), a, n), Wrap(s.curPage + (offset + |a|)), b, m)
  {
    hide LoadWords;
    var base, next := Wrap(s.curPage + offset), Wrap(s.curPage + (offset + |a|));
    if m == 0 {
      LoadsPrefix(s, base, a, b, n);
      LoadsNothing(LoadWords(s, base, a, n), next, b);
    } else {
      LoadsConcat(s, base, next, a, b, n, m);
    }
  }

  lemma LoadsNothing(s: State, base: nat, data: seq<byte>)
    ensures LoadWords(s, base, data, 0) == s
  {
  }
}
