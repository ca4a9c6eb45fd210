/** The mailboxes of the STM32 CAN controller as src/stm32/can.c uses them: three to send from,
    one to receive in, with payloads packed into two 32-bit data registers. */
module Bxcan {
  import opened Words

  /** IR, DTR, DLR, DHR. */
  datatype Mailbox = Mailbox(ir: bv32, dtr: nat, dlr: nat, dhr: nat)

  // ----- packing -----

  /** Byte `i` of a frame of `len` bytes, zero beyond its end. */
  function PadByte(data: seq<byte>, len: nat, i: nat): byte
    requires len <= |data|
  {
    if i < len then data[i] else 0
  }

  /** Four bytes in a data register, the first one lowest. */
  function PackWord(b0: byte, b1: byte, b2: byte, b3: byte): (w: nat)
    ensures w < 0x1_0000_0000
  {
    0x100_0000 * (b3 as nat) + 0x1_0000 * (b2 as nat) + 0x100 * (b1 as nat) + b0
  }

  function Shift(k: nat): (scale: nat)
    requires k < 4
    ensures scale > 0
  {
    [1, 0x100, 0x1_0000, 0x100_0000][k]
  }

  /** Byte `k` of a data register. */
  function ExtractByte(w: nat, k: nat): byte
    requires k < 4
  {
    w / Shift(k) % 0x100
  }

  lemma SplitProduct(q: nat, b: nat, m: nat)
    requires m > 0 && b < 0x100
    ensures (0x100 * q + b) * m == q * (0x100 * m) + b * m
    ensures b * m + m <= 0x100 * m
  {
  }

  lemma ByteField(w: nat, m: nat)
    requires m > 0
    ensures w % (0x100 * m) - w % m == w / m % 0x100 * m
  {
    var h, r, d := w / m, w % m, 0x100 * m;
    var q, b := h / 0x100, h % 0x100;
    SplitProduct(q, b, m);
    var low := b * m + r;
    assert w == q * d + low;
    DivModUnique(w, d, q, low);
  }

  /** The mask-and-shift of `cnCANRecv` extracts byte `k`: the masks are 0xFF shifted by 8 * k. */
  lemma ExtractIsMask(w: nat, k: nat)
    requires k < 4
    ensures BitAnd(w, 0xFF * Shift(k)) == ExtractByte(w, k) * Shift(k)
  {
    hide BitAnd, Pow2;
    Pow2Bytes();
    ByteField(w, Shift(k));
    AndMask(w, 8 * k + 8, 8 * k);
  }

  lemma ExtractPacked(b0: byte, b1: byte, b2: byte, b3: byte, k: nat)
    requires k < 4
    ensures ExtractByte(PackWord(b0, b1, b2, b3), k) == [b0, b1, b2, b3][k]
  {
    var c0: nat, c1: nat, c2: nat, c3: nat := b0, b1, b2, b3;
    var w: nat := PackWord(b0, b1, b2, b3);
    if k == 0 {
      DivModUnique(w, 1, w, 0);
      DivModUnique(w, 0x100, 0x1_0000 * c3 + 0x100 * c2 + c1, c0);
    } else if k == 1 {
      DivModUnique(w, 0x100, 0x1_0000 * c3 + 0x100 * c2 + c1, c0);
      DivModUnique(0x1_0000 * c3 + 0x100 * c2 + c1, 0x100, 0x100 * c3 + c2, c1);
    } else if k == 2 {
      DivModUnique(w, 0x1_0000, 0x100 * c3 + c2, 0x100 * c1 + c0);
      DivModUnique(0x100 * c3 + c2, 0x100, c3, c2);
    } else {
      DivModUnique(w, 0x100_0000, c3, 0x1_0000 * c2 + 0x100 * c1 + c0);
      DivModUnique(c3, 0x100, 0, c3);
    }
  }

  /** IR with TXRQ clear, and with TXRQ set. */
  function IdleId(id: bv32): bv32 {
    id & 0xFFFFFFFE
  }

  function QueuedId(id: bv32): bv32 {
    id | 0x00000001
  }

  /** The identifier, IDE and RTR survive both. */
  lemma QueuedIdKeepsId(id: bv32)
    ensures QueuedId(IdleId(id)) & 0xFFFF_FFFE == id & 0xFFFF_FFFE
  {
  }

  /** What `cnCANSend` writes for a frame: `len` is cut to 8. */
  function Packed(id: bv32, len: nat, data: seq<byte>): Mailbox
    requires len <= |data|
  {
    var n := if len <= 8 then len else 8;
    Mailbox(QueuedId(IdleId(id)), n,
            PackWord(PadByte(data, n, 0), PadByte(data, n, 1), PadByte(data, n, 2), PadByte(data, n, 3)),
            PackWord(PadByte(data, n, 4), PadByte(data, n, 5), PadByte(data, n, 6), PadByte(data, n, 7)))
  }

  /** The four registers of a mailbox that waits to be sent: identifier, IDE and RTR as they were given
      and TXRQ set, the length, and the payload as two little-endian words, zero beyond its end. */
  lemma PackedRegisters(id: bv32, len: nat, data: seq<byte>)
    requires len <= |data|
    ensures var (m, n) := (Packed(id, len, data), if len <= 8 then len else 8);
            var padded := data[..n] + seq(8 - n, _ => 0);
            && m.ir == id | 1
            && m.dtr == n
            && m.dlr == ReadU32LE(padded[..4]) && m.dhr == ReadU32LE(padded[4..])
  {
    hide ReadU32LE, BitOr;
    IdleQueued(id);
  }

  lemma IdleQueued(id: bv32)
    ensures QueuedId(IdleId(id)) == id | 1
  {
  }

  /** Byte `k` of the payload in a mailbox. */
  function PayloadByte(m: Mailbox, k: nat): byte
    requires k < 8
  {
    if k < 4 then ExtractByte(m.dlr, k) else ExtractByte(m.dhr, k - 4)
  }

  /** `before` with bytes lo..n-1 of the payload stored, but never more than 8. */
  function Unpacked(before: seq<byte>, m: Mailbox, n: nat, lo: nat): (after: seq<byte>)
    requires n <= |before|
    ensures |after| == |before|
    ensures forall k :: 0 <= k < |before| ==>
      after[k] == if lo <= k < n && k < 8 then PayloadByte(m, k) else before[k]
  {
    seq(|before|, k requires 0 <= k < |before| => if lo <= k < n && k < 8 then PayloadByte(m, k) else before[k])
  }

  /** Packing and unpacking: every byte sent is the byte read back. */
  lemma PayloadRoundTrip(id: bv32, len: nat, data: seq<byte>, k: nat)
    requires len <= |data| && k < 8
    ensures PayloadByte(Packed(id, len, data), k) == if k < len then data[k] else 0
    ensures Packed(id, len, data).dtr % 16 == if len <= 8 then len else 8
  {
    hide ExtractByte, PackWord;
    var n := if len <= 8 then len else 8;
    if k < 4 {
      ExtractPacked(PadByte(data, n, 0), PadByte(data, n, 1), PadByte(data, n, 2), PadByte(data, n, 3), k);
    } else {
      ExtractPacked(PadByte(data, n, 4), PadByte(data, n, 5), PadByte(data, n, 6), PadByte(data, n, 7), k - 4);
    }
  }

  /** The four steps of filling a cleared register with `|=`, highest byte first. */
  lemma OrSteps(b0: byte, b1: byte, b2: byte, b3: byte)
    ensures BitOr(0, 0x100_0000 * (b3 as nat)) == PackWord(0, 0, 0, b3)
    ensures BitOr(PackWord(0, 0, 0, b3), 0x1_0000 * (b2 as nat)) == PackWord(0, 0, b2, b3)
    ensures BitOr(PackWord(0, 0, b2, b3), 0x100 * (b1 as nat)) == PackWord(0, b1, b2, b3)
    ensures BitOr(PackWord(0, b1, b2, b3), b0) == PackWord(b0, b1, b2, b3)
  {
    hide BitOr, PackWord;
    OrStep3(b3);
    OrStep2(b2, b3);
    OrStep1(b1, b2, b3);
    OrStep0(b0, b1, b2, b3);
  }

  lemma OrStep3(b3: byte)
    ensures BitOr(0, 0x100_0000 * (b3 as nat)) == PackWord(0, 0, 0, b3)
  {
    hide BitOr;
    OrZero(0x100_0000 * (b3 as nat));
  }

  lemma OrStep2(b2: byte, b3: byte)
    ensures BitOr(PackWord(0, 0, 0, b3), 0x1_0000 * (b2 as nat)) == PackWord(0, 0, b2, b3)
  {
    hide BitOr, Pow2;
    Pow2Bytes();
    OrByte(0x1_0000 * (b2 as nat), b3, 24, 0x100_0000);
  }

  lemma OrStep1(b1: byte, b2: byte, b3: byte)
    ensures BitOr(PackWord(0, 0, b2, b3), 0x100 * (b1 as nat)) == PackWord(0, b1, b2, b3)
  {
    hide BitOr, Pow2;
    Pow2Bytes();
    OrByte(0x100 * (b1 as nat), 0x100 * (b3 as nat) + b2, 16, 0x1_0000);
  }

  lemma OrStep0(b0: byte, b1: byte, b2: byte, b3: byte)
    ensures BitOr(PackWord(0, b1, b2, b3), b0) == PackWord(b0, b1, b2, b3)
  {
    hide BitOr, Pow2;
    Pow2Bytes();
    OrByte(b0, 0x1_0000 * (b3 as nat) + 0x100 * (b2 as nat) + b1, 8, 0x100);
  }

  // ----- pending mailboxes -----

  function Waits(m: Mailbox, pending: bool): multiset<Mailbox> {
    if pending then multiset{m} else multiset{}
  }

  function Waiting(box: seq<Mailbox>, pending: seq<bool>): multiset<Mailbox>
    requires |box| == |pending| == 3
  {
    Waits(box[0], pending[0]) + Waits(box[1], pending[1]) + Waits(box[2], pending[2])
  }

  lemma Rearrange(a: multiset<Mailbox>, b: multiset<Mailbox>, c: multiset<Mailbox>)
    ensures a + b + c == multiset{} + b + c + a
    ensures a + b + c == a + multiset{} + c + b
    ensures a + b + c == a + b + multiset{} + c
  {
  }

  /** What TXRQ makes of the registers `cnCANSend` has loaded. */
  lemma PackedIsQueued(id: bv32, len: nat, data: seq<byte>)
    requires len <= |data|
    ensures var n := if len <= 8 then len else 8;
            Packed(id, len, data) == Mailbox(QueuedId(IdleId(id)), n,
              PackWord(PadByte(data, n, 0), PadByte(data, n, 1), PadByte(data, n, 2), PadByte(data, n, 3)),
              PackWord(PadByte(data, n, 4), PadByte(data, n, 5), PadByte(data, n, 6), PadByte(data, n, 7)))
  {
    hide PackWord, PadByte, IdleId, QueuedId;
  }

  /** Queueing a frame in a free mailbox. */
  lemma WaitingMore(box: seq<Mailbox>, pending: seq<bool>, i: nat, m: Mailbox)
    requires |box| == |pending| == 3 && i < 3 && !pending[i]
    ensures Waiting(box[i := m], pending[i := true]) == Waiting(box, pending) + multiset{m}
  {
    var b, p := box[i := m], pending[i := true];
    Rearrange(Waits(b[0], p[0]), Waits(b[1], p[1]), Waits(b[2], p[2]));
  }

  /** What was pending before is pending still, with the same contents. */
  ghost predicate PendingKept(box: seq<Mailbox>, pending: seq<bool>, box': seq<Mailbox>, pending': seq<bool>) {
    && |box| == |pending| == |box'| == |pending'|
    && forall i :: 0 <= i < |box| && pending[i] ==> pending'[i] && box'[i] == box[i]
  }

  lemma FreeMailboxUsed(box: seq<Mailbox>, pending: seq<bool>, i: nat, m: Mailbox)
    requires |box| == |pending| && i < |box| && !pending[i]
    ensures PendingKept(box, pending, box[i := m], pending[i := true])
  {
  }

  lemma NothingUsed(box: seq<Mailbox>, pending: seq<bool>)
    requires |box| == |pending|
    ensures PendingKept(box, pending, box, pending)
  {
  }

  /** Emptying a mailbox. */
  lemma WaitingDone(box: seq<Mailbox>, pending: seq<bool>, i: nat)
    requires |box| == |pending| == 3 && i < 3 && pending[i]
    ensures Waiting(box, pending) == Waiting(box, pending[i := false]) + multiset{box[i]}
  {
    hide Waiting, Waits;
    WaitingMore(box, pending[i := false], i, box[i]);
    assert box[i := box[i]] == box && pending[i := false][i := true] == pending;
  }

  // ----- the controller and its driver -----

  class Controller {
    const outbox: array<Mailbox>   // OUTBOX[3]
    const pending: array<bool>     // mailbox i is waiting to be sent: TSR.TMEi is clear
    var code: nat                  // TSR.CODE
    var inbox: Mailbox             // INBOX[0], the head of FIFO 0
    var inboxCount: nat            // RF0R.FMP
    ghost var accepted: multiset<Mailbox>   // every frame `cnCANSend` took
    ghost var wire: multiset<Mailbox>       // every frame transmitted

    /** CODE names a free mailbox while there is one, and every frame taken from the application is
        on the wire or still in a pending mailbox, once. */
    ghost predicate Valid()
      reads this, outbox, pending
    {
      && outbox.Length == 3 && pending.Length == 3
      && code < 3
      && (!pending[0] || !pending[1] || !pending[2] ==> !pending[code])
      && accepted == wire + Waiting(outbox[..], pending[..])
    }

    predicate AllPending()
      requires pending.Length == 3
      reads this, pending
    {
      pending[0] && pending[1] && pending[2]
    }

    constructor (m: Mailbox)
      ensures Valid() && fresh(outbox) && fresh(pending)
      ensures !AllPending() && accepted == wire == multiset{} && inboxCount == 0
    {
      outbox := new Mailbox[3](_ => m);
      pending := new bool[3](_ => false);
      code, inbox, inboxCount := 0, m, 0;
      accepted, wire := multiset{}, multiset{};
    }

    /** Hardware: some mailbox finishes transmission, at any time. */
    method Transmit(i: nat)
      requires Valid() && i < 3 && pending[i]
      modifies this`code, this`wire, pending
      ensures Valid() && pending[..] == old(pending[..])[i := false]
      ensures wire == old(wire) + multiset{outbox[i]} && accepted == old(accepted)
    {
      hide Waiting;
      WaitingDone(outbox[..], pending[..], i);
      wire := wire + multiset{outbox[i]};
      pending[i] := false;
      code := i;
      assert pending[..] == old(pending[..])[i := false];
    }

    /** Hardware: TXRQ was set, the mailbox is queued and CODE moves to some free one. */
    method RequestTransmission(i: nat)
      requires outbox.Length == 3 && pending.Length == 3 && i < 3
      modifies this`code, pending, outbox
      ensures pending[..] == old(pending[..])[i := true]
      ensures outbox[..] == old(outbox[..])[i := old(outbox[i]).(ir := QueuedId(old(outbox[i]).ir))]
      ensures code < 3 && (!AllPending() ==> !pending[code])
    {
      outbox[i] := outbox[i].(ir := QueuedId(outbox[i].ir));
      pending[i] := true;
      code := *;
      if code >= 3 || pending[code] {
        code := if !pending[0] then 0 else if !pending[1] then 1 else 2;
      }
    }

    /** `cnCANSend`. A pending mailbox is never touched, -1 means that all three are pending, and
        otherwise the frame, cut to 8 bytes, waits in a mailbox that was free. */
    method Send(id: bv32, len: nat, data: seq<byte>) returns (sent: int)
      requires Valid() && len <= |data|
      modifies this`code, this`accepted, pending, outbox
      ensures Valid()
      ensures sent == -1 <==> old(AllPending())
      ensures sent == -1 ==> accepted == old(accepted)
      ensures sent != -1 ==>
        sent == (if len <= 8 then len else 8) && accepted == old(accepted) + multiset{Packed(id, len, data)}
      ensures sent != -1 ==>
        exists i :: 0 <= i < 3 && !old(pending[i]) && pending[i] && outbox[i].ir == id | 1 && outbox[i].dtr == sent
      ensures PendingKept(old(outbox[..]), old(pending[..]), outbox[..], pending[..])
    {
      hide Waiting, PackWord, PadByte, IdleId, QueuedId, PendingKept, Packed, ReadU32LE;
      if pending[0] && pending[1] && pending[2] {
        NothingUsed(outbox[..], pending[..]);
        return -1;
      }
      ghost var box, waiting := outbox[..], pending[..];
      var m := code;
      var n := if len <= 8 then len else 8;
      LoadMailbox(m, id, n, data);
      PackedIsQueued(id, len, data);
      PackedRegisters(id, len, data);
      RequestTransmission(m);
      assert outbox[..] == box[m := Packed(id, len, data)];
      WaitingMore(box, waiting, m, Packed(id, len, data));
      FreeMailboxUsed(box, waiting, m, Packed(id, len, data));
      accepted := accepted + multiset{outbox[m]};
      return n;
    }

    /** The registers of mailbox `m`, one after the other; TXRQ stays clear. */
    method LoadMailbox(m: nat, id: bv32, n: nat, data: seq<byte>)
      requires outbox.Length == 3 && m < 3 && n <= 8 && n <= |data|
      modifies outbox
      ensures outbox[..] == old(outbox[..])[m := Mailbox(IdleId(id), n,
        PackWord(PadByte(data, n, 0), PadByte(data, n, 1), PadByte(data, n, 2), PadByte(data, n, 3)),
        PackWord(PadByte(data, n, 4), PadByte(data, n, 5), PadByte(data, n, 6), PadByte(data, n, 7)))]
    {
      hide PackWord, PadByte, IdleId;
      outbox[m] := outbox[m].(ir := IdleId(id));
      outbox[m] := outbox[m].(dtr := n % 16);
      var dlr, dhr := FallThrough(data, n);
      outbox[m] := outbox[m].(dlr := dlr, dhr := dhr);
    }

    /** `cnCANRecv`. Up to `maxLen` bytes of the frame at the head of the FIFO are stored; nothing
        behind them is touched, although every case of the switch falls through to the next. */
    method Recv(maxLen: nat, data: array<byte>) returns (recvId: bv32, received: int)
      requires data.Length >= maxLen
      modifies this`inboxCount, this`inbox, data
      ensures received == -1 <==> old(inboxCount) == 0
      ensures received == -1 ==> inboxCount == 0 && inbox == old(inbox) && data[..] == old(data[..])
      ensures received != -1 ==>
        && recvId == old(inbox).ir && inboxCount == old(inboxCount) - 1
        && received == (if maxLen < old(inbox).dtr % 16 then maxLen else old(inbox).dtr % 16)
        && data[..] == Unpacked(old(data[..]), old(inbox), received, 0)
    {
      recvId := 0;
      if inboxCount == 0 {
        return recvId, -1;
      }
      recvId := inbox.ir;
      var payloadLen := inbox.dtr % 16;
      var n := if maxLen < payloadLen then maxLen else payloadLen;
      FallThroughInto(n, data);
      inboxCount, inbox := inboxCount - 1, *;   // RFOM releases the head; what follows it is up to the bus
      return recvId, n;
    }

    /** The switch of `cnCANRecv`: each case falls through to the next. */
    method FallThroughInto(n: nat, data: array<byte>)
      requires data.Length >= n
      modifies data
      ensures data[..] == Unpacked(old(data[..]), inbox, n, 0)
    {
      hide Unpacked, PayloadByte;
      ghost var before := data[..];
      assert data[..] == Unpacked(before, inbox, n, 8);
      Case(7, n, data, before);
      Case(6, n, data, before);
      Case(5, n, data, before);
      Case(4, n, data, before);
      Case(3, n, data, before);
      Case(2, n, data, before);
      Case(1, n, data, before);
      Case(0, n, data, before);
    }

    /** The label `case k + 1`: it is passed by every payload of more than `k` bytes. */
    method Case(k: nat, n: nat, data: array<byte>, ghost before: seq<byte>)
      requires k < 8 && data.Length >= n && |before| == data.Length
      requires data[..] == Unpacked(before, inbox, n, k + 1)
      modifies data
      ensures data[..] == Unpacked(before, inbox, n, k)
    {
      hide Unpacked, PayloadByte;
      if n > k {
        data[k] := PayloadByte(inbox, k);
      }
    }

    /** Hardware: a frame from the bus arrives in the empty FIFO. */
    method Deliver(m: Mailbox)
      requires Valid() && inboxCount == 0
      modifies this`inbox, this`inboxCount
      ensures Valid() && inbox == m && inboxCount == 1
    {
      inbox, inboxCount := m, 1;
    }
  }

  /** The switch of `cnCANSend`: each case falls through to the next. */
  method FallThrough(data: seq<byte>, n: nat) returns (dlr: nat, dhr: nat)
    requires n <= 8 && n <= |data|
    ensures dlr == PackWord(PadByte(data, n, 0), PadByte(data, n, 1), PadByte(data, n, 2), PadByte(data, n, 3))
    ensures dhr == PackWord(PadByte(data, n, 4), PadByte(data, n, 5), PadByte(data, n, 6), PadByte(data, n, 7))
  {
    hide BitOr, PackWord;
    ghost var p0, p1, p2, p3 := PadByte(data, n, 0), PadByte(data, n, 1), PadByte(data, n, 2), PadByte(data, n, 3);
    ghost var p4, p5, p6, p7 := PadByte(data, n, 4), PadByte(data, n, 5), PadByte(data, n, 6), PadByte(data, n, 7);
    OrSteps(p0, p1, p2, p3);
    OrSteps(p4, p5, p6, p7);
    PackZero();
    dhr, dlr := 0, 0;
    if n >= 8 { dhr := BitOr(dhr, 0x100_0000 * (data[7] as nat)); }
    assert dhr == PackWord(0, 0, 0, p7);
    if n >= 7 { dhr := BitOr(dhr, 0x1_0000 * (data[6] as nat)); }
    assert dhr == PackWord(0, 0, p6, p7);
    if n >= 6 { dhr := BitOr(dhr, 0x100 * (data[5] as nat)); }
    assert dhr == PackWord(0, p5, p6, p7);
    if n >= 5 { dhr := BitOr(dhr, data[4]); }
    assert dhr == PackWord(p4, p5, p6, p7);
    if n >= 4 { dlr := BitOr(dlr, 0x100_0000 * (data[3] as nat)); }
    assert dlr == PackWord(0, 0, 0, p3);
    if n >= 3 { dlr := BitOr(dlr, 0x1_0000 * (data[2] as nat)); }
    assert dlr == PackWord(0, 0, p2, p3);
    if n >= 2 { dlr := BitOr(dlr, 0x100 * (data[1] as nat)); }
    assert dlr == PackWord(0, p1, p2, p3);
    if n >= 1 { dlr := BitOr(dlr, data[0]); }
  }

  lemma PackZero()
    ensures PackWord(0, 0, 0, 0) == 0
  {
  }

  /** A frame sent and received with room for 8 bytes: the first min(len, 8) bytes and the
      identifier arrive, with IDE and RTR, and the rest of the receiver's buffer is left as it was. */
  lemma {:induction false} FrameRoundTrip(id: bv32, len: nat, data: seq<byte>, before: seq<byte>)
    requires len <= |data| && |before| >= 8
    ensures var m := Packed(id, len, data);
            && m.ir & 0xFFFF_FFFE == id & 0xFFFF_FFFE
            && m.dtr % 16 == (if len <= 8 then len else 8)
            && Unpacked(before, m, m.dtr % 16, 0) ==
               if len <= 8 then data[..len] + before[len..] else data[..8] + before[8..]
  {
    hide PayloadByte, Packed;
    var m := Packed(id, len, data);
    PayloadRoundTrip(id, len, data, 0);
    PackedId(id, len, data);
    var x := Unpacked(before, m, m.dtr % 16, 0);
    var y := if len <= 8 then data[..len] + before[len..] else data[..8] + before[8..];
    forall k | 0 <= k < |before|
      ensures x[k] == y[k]
    {
      if k < 8 {
        PayloadRoundTrip(id, len, data, k);
      }
    }
  }

  lemma PackedId(id: bv32, len: nat, data: seq<byte>)
    requires len <= |data|
    ensures Packed(id, len, data).ir & 0xFFFF_FFFE == id & 0xFFFF_FFFE
  {
    QueuedIdKeepsId(id);
  }
}
