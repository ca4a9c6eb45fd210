/** CRC-16/XMODEM: the bitwise loop of src/stm32/util.c and the per-byte loop of src/avr/util.c,
    both proved to leave the remainder of x^16 * message modulo x^16 + x^12 + x^5 + 1. */
module Crc {
  import opened Words
  import opened Gf2

  const INITVAL: nat := 0x0000
  const POLYNOMIAL: nat := 0x1021

  // ----- the computation -----

  /** One pass of the inner loop. */
  function Shift(c: nat): nat {
    var d := 2 * c;
    if d / 0x1_0000 % 2 == 1 then BitXor(d, POLYNOMIAL) % 0x1_0000 else d
  }

  function Shifts(c: nat, k: nat): nat {
    if k == 0 then c else Shift(Shifts(c, k - 1))
  }

  /** The effect of one byte: the body of the outer loop, and what avr-libc's
      `_crc_xmodem_update` computes. */
  function ByteStep(c: nat, b: byte): nat {
    Shifts(BitXor(c, 0x100 * (b as nat)), 8)
  }

  function CrcFrom(c: nat, data: seq<byte>): nat {
    if data == [] then c
    else ByteStep(CrcFrom(c, data[..|data| - 1]), data[|data| - 1])
  }

  function Crc16(data: seq<byte>): (crc: nat)
    ensures crc < 0x1_0000
  {
    CrcBelow(INITVAL, data);
    CrcFrom(INITVAL, data)
  }

  /** `cnCRC16` on STM32. The accumulator is a wide `int`; it is back below 2^16 after every
      inner step, although only one branch masks it. */
  method BitwiseCrc16(data: seq<byte>) returns (crc: nat)
    ensures crc == Crc16(data) < 0x1_0000
    ensures IsRemainder(MessageBits(data) + Zeros(16), GENERATOR, BitsOf(crc, 16))
  {
    crc := INITVAL;
    for n := 0 to |data|
      invariant crc == CrcFrom(INITVAL, data[..n]) < 0x1_0000
    {
      ghost var before := crc;
      MixBelow(crc, data[n]);
      crc := BitXor(crc, 0x100 * (data[n] as nat));
      ghost var mixed := crc;
      for i := 0 to 8
        invariant crc == Shifts(mixed, i) < 0x1_0000
      {
        ShiftBelow(crc);
        crc := 2 * crc;
        if crc / 0x1_0000 % 2 == 1 {
          crc := BitXor(crc, POLYNOMIAL) % 0x1_0000;
        }
      }
      assert crc == ByteStep(before, data[n]);
      assert data[..n + 1][..n] == data[..n];
    }
    assert data[..|data|] == data;
    CrcIsRemainder(data, BitsOf(crc, 16));
  }

  /** `cnCRC16` on AVR, given the byte step of avr-libc. */
  method BytewiseCrc16(data: seq<byte>) returns (crc: nat)
    ensures crc == Crc16(data) < 0x1_0000
    ensures IsRemainder(MessageBits(data) + Zeros(16), GENERATOR, BitsOf(crc, 16))
  {
    crc := 0x0000;
    for i := 0 to |data|
      invariant crc == CrcFrom(INITVAL, data[..i]) < 0x1_0000
    {
      ByteStepBelow(crc, data[i]);
      crc := ByteStep(crc, data[i]);
      assert data[..i + 1][..i] == data[..i];
    }
    assert data[..|data|] == data;
    CrcIsRemainder(data, BitsOf(crc, 16));
  }

  // ----- the accumulator stays 16 bits wide -----

  lemma ShiftBelow(c: nat)
    requires c < 0x1_0000
    ensures Shift(c) < 0x1_0000
  {
  }

  lemma {:induction false} ShiftsBelow(c: nat, k: nat)
    requires c < 0x1_0000
    ensures Shifts(c, k) < 0x1_0000
  {
    if k > 0 {
      ShiftsBelow(c, k - 1);
    }
  }

  lemma Pow2Word()
    ensures Pow2(16) == 0x1_0000 && Pow2(15) == 0x8000 && Pow2(8) == 0x100
  {
  }

  lemma MixBelow(c: nat, b: byte)
    requires c < 0x1_0000
    ensures BitXor(c, 0x100 * (b as nat)) < 0x1_0000
  {
    Pow2Word();
    XorBelow(c, 0x100 * (b as nat), 16);
  }

  lemma ByteStepBelow(c: nat, b: byte)
    requires c < 0x1_0000
    ensures ByteStep(c, b) < 0x1_0000
  {
    MixBelow(c, b);
    ShiftsBelow(BitXor(c, 0x100 * (b as nat)), 8);
  }

  lemma {:induction false} CrcBelow(c: nat, data: seq<byte>)
    requires c < 0x1_0000
    ensures CrcFrom(c, data) < 0x1_0000
  {
    if data != [] {
      var n := |data| - 1;
      CrcBelow(c, data[..n]);
      ByteStepBelow(CrcFrom(c, data[..n]), data[n]);
    }
  }

  // ----- the bits behind it -----

  function MessageBits(data: seq<byte>): (m: Bits)
    ensures |m| == 8 * |data|
  {
    if data == [] then []
    else MessageBits(data[..|data| - 1]) + BitsOf(data[|data| - 1], 8)
  }

  lemma BitNibble(x: nat, k: nat)
    ensures Bit(x, k + 4) == Bit(x / 16, k)
  {
    hide Bit;
    BitHalved(x, k + 3);
    BitHalved(x / 2, k + 2);
    BitHalved(x / 4, k + 1);
    BitHalved(x / 8, k);
  }

  lemma LowBits(x: nat)
    ensures Bit(x, 0) == (x % 2 == 1) && Bit(x, 1) == (x / 2 % 2 == 1)
    ensures Bit(x, 2) == (x / 4 % 2 == 1) && Bit(x, 3) == (x / 8 % 2 == 1)
  {
    assert Pow2(0) == 1 && Pow2(1) == 2 && Pow2(2) == 4 && Pow2(3) == 8;
  }

  /** Bit `k` of the lowest nibble of `x`. */
  lemma LowBit(x: nat, k: nat)
    requires k < 4
    ensures Bit(x, k) == ((if k == 0 then x else if k == 1 then x / 2 else if k == 2 then x / 4 else x / 8) % 2 == 1)
  {
    hide Bit;
    LowBits(x);
  }

  /** The bits set in 0x1021 are those of x^12 + x^5 + 1, nibble by nibble. */
  lemma TapBits(k: nat)
    requires k < 16
    ensures Bit(POLYNOMIAL, k) <==> k == 0 || k == 5 || k == 12
  {
    hide Bit, Pow2, BitXor;
    if k < 4 {
      LowBit(0x1021, k);
    } else {
      BitNibble(0x1021, k - 4);
      if k < 8 {
        LowBit(0x102, k - 4);
      } else {
        BitNibble(0x102, k - 8);
        if k < 12 {
          LowBit(0x10, k - 8);
        } else {
          BitNibble(0x10, k - 12);
          LowBit(0x1, k - 12);
        }
      }
    }
  }

  lemma PolynomialBits()
    ensures BitsOf(POLYNOMIAL, 16) == GENERATOR[1..] && GENERATOR[0]
  {
    forall i | 0 <= i < 16
      ensures BitsOf(POLYNOMIAL, 16)[i] == GENERATOR[i + 1]
    {
      assert BitsOf(POLYNOMIAL, 16)[i] == Bit(POLYNOMIAL, 15 - i);
      TapBits(15 - i);
    }
  }

  lemma DoubledBits(c: nat, width: nat)
    ensures BitsOf(2 * c, width + 1) == BitsOf(c, width + 1)[1..] + [false]
    ensures BitsOf(c, width + 1)[0] == Bit(c, width)
  {
    UnfoldBits(2 * c, width + 1);
    assert BitsOf(c, width) == BitsOf(c, width + 1)[1..];
  }

  lemma ShiftedOutBits(c: nat, d: nat, r: Register)
    requires d / 0x1_0000 % 2 == 1 && r[0]
    requires BitsOf(d, 16) == r[1..] + [false]
    ensures BitsOf(BitXor(d, POLYNOMIAL) % 0x1_0000, 16) == RegisterStep(r, false)
  {
    Pow2Word();
    var x := BitXor(d, POLYNOMIAL);
    BitsOfTruncated(x, 16);
    BitsOfXor(d, POLYNOMIAL, 16);
    PolynomialBits();
  }

  /** The inner loop is a register step on a zero message bit. */
  lemma ShiftBits(c: nat)
    requires c < 0x1_0000
    ensures BitsOf(Shift(c), 16) == RegisterStep(BitsOf(c, 16), false)
  {
    var r: Register := BitsOf(c, 16);
    var d := 2 * c;
    Pow2Word();
    DoubledBits(c, 15);
    DivTwice(d, 0x8000);
    if d / 0x1_0000 % 2 == 1 {
      ShiftedOutBits(c, d, r);
    } else {
      var shifted := r[1..] + [false];
      assert Xor(shifted, Scale(false, GENERATOR[1..])) == shifted;
    }
  }

  lemma {:induction false} ShiftsBits(c: nat, k: nat)
    requires c < 0x1_0000
    ensures BitsOf(Shifts(c, k), 16) == Divide(BitsOf(c, 16), Zeros(k))
  {
    if k > 0 {
      ShiftsBits(c, k - 1);
      ShiftsBelow(c, k - 1);
      ShiftBits(Shifts(c, k - 1));
      assert Zeros(k)[..k - 1] == Zeros(k - 1);
    }
  }

  /** XORing the byte into the high half first equals feeding its bits one by one. */
  lemma ByteStepBits(c: nat, b: byte)
    requires c < 0x1_0000
    ensures BitsOf(ByteStep(c, b), 16) == Divide(BitsOf(c, 16), BitsOf(b, 8))
  {
    var high := 0x100 * (b as nat);
    Pow2Word();
    BitsOfShifted(b, 8, 8);
    BitsOfXor(c, high, 16);
    MixBelow(c, b);
    ShiftsBits(BitXor(c, high), 8);
    Absorb(BitsOf(c, 16), BitsOf(b, 8));
  }

  lemma {:induction false} CrcBits(c: nat, data: seq<byte>)
    requires c < 0x1_0000
    ensures BitsOf(CrcFrom(c, data), 16) == Divide(BitsOf(c, 16), MessageBits(data))
  {
    if data != [] {
      var n := |data| - 1;
      CrcBits(c, data[..n]);
      CrcBelow(c, data[..n]);
      ByteStepBits(CrcFrom(c, data[..n]), data[n]);
      DivideConcat(BitsOf(c, 16), MessageBits(data[..n]), BitsOf(data[n], 8));
    }
  }

  lemma InitialRegister()
    ensures BitsOf(INITVAL, 16) == Zeros(16)
  {
    forall k: nat ensures !Bit(0, k) { assert 0 / Pow2(k) == 0; }
  }

  // ----- theorems -----

  /** The CRC is the one remainder of x^16 * message modulo the generator. */
  lemma {:induction false} CrcIsRemainder(data: seq<byte>, r: Bits)
    ensures IsRemainder(MessageBits(data) + Zeros(16), GENERATOR, r) <==> r == BitsOf(Crc16(data), 16)
  {
    var p, m := MessageBits(data) + Zeros(16), MessageBits(data);
    InitialRegister();
    CrcBits(INITVAL, data);
    DivideDivides(m);
    assert IsDivision(p, GENERATOR, Quotient(m), BitsOf(Crc16(data), 16));
    if IsRemainder(p, GENERATOR, r) {
      var q :| IsDivision(p, GENERATOR, q, r);
      RemainderUnique(p, GENERATOR, q, r, Quotient(m), BitsOf(Crc16(data), 16));
    }
  }

  /** The CRC of a concatenation continues from the CRC of its prefix. */
  lemma {:induction false} CrcConcat(c: nat, a: seq<byte>, b: seq<byte>)
    ensures CrcFrom(c, a + b) == CrcFrom(CrcFrom(c, a), b)
  {
    if b == [] {
      assert a + b == a;
    } else {
      var n := |b| - 1;
      assert (a + b)[..|a + b| - 1] == a + b[..n];
      CrcConcat(c, a, b[..n]);
    }
  }

  lemma SameBits(a: nat, b: nat)
    requires a < 0x1_0000 && b < 0x1_0000 && BitsOf(a, 16) == BitsOf(b, 16)
    ensures a == b
  {
    Pow2Word();
    BitsOfInjective(a, b, 16);
  }

  function XorBytes(a: seq<byte>, b: seq<byte>): (x: seq<byte>)
    requires |a| == |b|
    ensures |x| == |a|
  {
    seq(|a|, i requires 0 <= i < |a| => XorByte(a[i], b[i]))
  }

  function XorByte(a: byte, b: byte): byte {
    assert BitXor(a, b) < 0x100 by {
      Pow2Word();
      XorBelow(a, b, 8);
    }
    BitXor(a, b)
  }

  lemma {:induction false} MessageBitsXor(a: seq<byte>, b: seq<byte>)
    requires |a| == |b|
    ensures MessageBits(XorBytes(a, b)) == Xor(MessageBits(a), MessageBits(b))
  {
    if a != [] {
      var n := |a| - 1;
      MessageBitsXor(a[..n], b[..n]);
      assert XorBytes(a, b)[..n] == XorBytes(a[..n], b[..n]);
      BitsOfXor(a[n], b[n], 8);
    }
  }

  /** The CRC is linear over GF(2). */
  lemma {:induction false} CrcLinear(a: seq<byte>, b: seq<byte>)
    requires |a| == |b|
    ensures Crc16(XorBytes(a, b)) == BitXor(Crc16(a), Crc16(b))
  {
    CrcBelow(INITVAL, a);
    CrcBelow(INITVAL, b);
    CrcBelow(INITVAL, XorBytes(a, b));
    CrcBits(INITVAL, a);
    CrcBits(INITVAL, b);
    CrcBits(INITVAL, XorBytes(a, b));
    InitialRegister();
    MessageBitsXor(a, b);
    DivideLinear(Zeros(16), Zeros(16), MessageBits(a), MessageBits(b));
    assert Xor(Zeros(16), Zeros(16)) == Zeros(16);
    BitsOfXor(Crc16(a), Crc16(b), 16);
    Pow2Word();
    XorBelow(Crc16(a), Crc16(b), 16);
    SameBits(Crc16(XorBytes(a, b)), BitXor(Crc16(a), Crc16(b)));
  }

  /** Exactly which errors go undetected: those whose difference the generator divides. */
  lemma {:induction false} CrcCollision(a: seq<byte>, b: seq<byte>)
    requires |a| == |b|
    ensures Crc16(a) == Crc16(b) <==>
            IsRemainder(MessageBits(XorBytes(a, b)) + Zeros(16), GENERATOR, Zeros(16))
  {
    CrcLinear(a, b);
    CrcIsRemainder(XorBytes(a, b), Zeros(16));
    XorZero(Crc16(a), Crc16(b));
    InitialRegister();
    CrcBelow(INITVAL, XorBytes(a, b));
    if BitsOf(Crc16(XorBytes(a, b)), 16) == Zeros(16) {
      SameBits(Crc16(XorBytes(a, b)), 0);
    }
  }

  lemma {:induction false} XorZero(a: nat, b: nat)
    ensures BitXor(a, b) == 0 <==> a == b
  {
    if a != 0 || b != 0 {
      XorZero(a / 2, b / 2);
    }
  }

  lemma {:induction false} MessageBitsInjective(a: seq<byte>, b: seq<byte>)
    requires |a| == |b| && MessageBits(a) == MessageBits(b)
    ensures a == b
  {
    if a != [] {
      var n := |a| - 1;
      var x, y := MessageBits(a), MessageBits(b);
      assert MessageBits(a[..n]) == x[..8 * n] && MessageBits(b[..n]) == y[..8 * n];
      assert BitsOf(a[n], 8) == x[8 * n..] && BitsOf(b[n], 8) == y[8 * n..];
      MessageBitsInjective(a[..n], b[..n]);
      Pow2Word();
      BitsOfInjective(a[n], b[n], 8);
      assert a == a[..n] + [a[n]] && b == b[..n] + [b[n]];
    }
  }

  lemma BurstLeavesMark(prefix: Bits, v: Bits, w: Bits, suffix: Bits)
    requires |v| == |w| <= 16
    requires Divide(Zeros(16), prefix + v + suffix) == Divide(Zeros(16), prefix + w + suffix)
    ensures v == w
  {
    var r := Divide(Zeros(16), prefix);
    DivideConcat(Zeros(16), prefix + v, suffix);
    DivideConcat(Zeros(16), prefix + w, suffix);
    DivideConcat(Zeros(16), prefix, v);
    DivideConcat(Zeros(16), prefix, w);
    DivideInjective(Divide(r, v), Divide(r, w), suffix);
    WindowInjective(r, v, w);
  }

  lemma SplitWindow(x: Bits, lo: nat, hi: nat)
    requires lo <= hi <= |x|
    ensures x == x[..lo] + x[lo..hi] + x[hi..]
  {
  }

  /** Messages that differ only within 16 consecutive bits, wherever these start, have different CRCs. */
  lemma {:induction false} BurstDetected(a: seq<byte>, b: seq<byte>, start: nat)
    requires |a| == |b|
    requires forall i :: 0 <= i < 8 * |a| && !(start <= i < start + 16) ==> MessageBits(a)[i] == MessageBits(b)[i]
    ensures Crc16(a) == Crc16(b) <==> a == b
  {
    hide MessageBits, Divide, BitsOf;
    if Crc16(a) == Crc16(b) {
      var x, y, n := MessageBits(a), MessageBits(b), 8 * |a|;
      var lo := if start < n then start else n;
      var hi := if lo + 16 < n then lo + 16 else n;
      SplitWindow(x, lo, hi);
      SplitWindow(y, lo, hi);
      assert x[..lo] == y[..lo];
      assert x[hi..] == y[hi..];
      InitialRegister();
      CrcBits(INITVAL, a);
      CrcBits(INITVAL, b);
      BurstLeavesMark(x[..lo], x[lo..hi], y[lo..hi], x[hi..]);
      MessageBitsInjective(a, b);
    }
  }

  lemma TwoBytesBits(hi: byte, lo: byte)
    ensures MessageBits([hi, lo]) == BitsOf(hi, 8) + BitsOf(lo, 8)
  {
    var pair := [hi, lo];
    assert pair[..1] == [hi] && [hi][..0] == [];
    assert MessageBits([hi]) == [] + BitsOf(hi, 8);
  }

  /** Dividing a register's own contents leaves nothing. */
  lemma DivideItself(r: Register)
    ensures Divide(r, r) == Zeros(16)
  {
    var zero: Register := Zeros(16);
    Absorb(r, r);
    assert Xor(r, r + Zeros(0)) == zero;
    InitialRegister();
    ShiftsZero(16);
    ShiftsBits(0, 16);
  }

  /** A buffer followed by its own CRC, high byte first, has CRC zero. */
  lemma {:induction false} CrcSelfCheck(data: seq<byte>)
    ensures Crc16(data) < 0x1_0000
    ensures Crc16(data + [Crc16(data) / 0x100, Crc16(data) % 0x100]) == 0
  {
    hide MessageBits, Divide, BitsOf, Pow2;
    CrcBelow(INITVAL, data);
    var c := Crc16(data);
    var hi: byte, lo: byte := c / 0x100, c % 0x100;
    CrcConcat(INITVAL, data, [hi, lo]);
    CrcBits(c, [hi, lo]);
    TwoBytesBits(hi, lo);
    assert BitsOf(c, 16) == BitsOf(hi, 8) + BitsOf(lo, 8) by {
      Pow2Word();
      JoinBits(hi, lo, 8, 8);
    }
    DivideItself(BitsOf(c, 16));
    InitialRegister();
    CrcBelow(c, [hi, lo]);
    SameBits(CrcFrom(c, [hi, lo]), 0);
  }

  lemma {:induction false} JoinBits(hi: nat, lo: nat, high: nat, low: nat)
    requires lo < Pow2(low)
    ensures BitsOf(hi * Pow2(low) + lo, high + low) == BitsOf(hi, high) + BitsOf(lo, low)
  {
    if low == 0 {
      assert hi * Pow2(0) + lo == hi;
    } else {
      var x := hi * Pow2(low) + lo;
      assert x == 2 * (hi * Pow2(low - 1)) + lo;
      assert x / 2 == hi * Pow2(low - 1) + lo / 2 && x % 2 == lo % 2;
      UnfoldBits(x, high + low);
      UnfoldBits(lo, low);
      JoinBits(hi, lo / 2, high, low - 1);
    }
  }

  lemma {:induction false} ShiftsZero(k: nat)
    ensures Shifts(0, k) == 0
  {
    if k > 0 {
      ShiftsZero(k - 1);
    }
  }

  lemma ShiftLow(c: nat)
    requires c < 0x8000
    ensures Shift(c) == 2 * c
  {
  }

  /** XORing operands with no common bit adds them. */
  lemma {:induction false} XorDisjoint(high: nat, low: nat, k: nat)
    requires low < Pow2(k)
    ensures BitXor(high * Pow2(k), low) == high * Pow2(k) + low
  {
    hide BitXor;
    if k == 0 {
      XorNothing(high);
    } else {
      Product2(high, Pow2(k - 1));
      XorDisjoint(high, low / 2, k - 1);
      XorDoubled(high * Pow2(k - 1), low);
    }
  }

  lemma {:induction false} XorNothing(a: nat)
    ensures BitXor(a, 0) == a == BitXor(0, a)
  {
    if a > 0 {
      XorNothing(a / 2);
    }
  }

  lemma XorDoubled(a: nat, low: nat)
    ensures BitXor(2 * a, low) == 2 * BitXor(a, low / 2) + low % 2
  {
  }

  lemma ShiftTop()
    ensures Shift(0x8000) == 0x1021
  {
    hide BitXor, Pow2;
    Pow2Word();
    XorDisjoint(1, 0x1021, 16);
  }

  lemma {:induction false} ShiftsLow(c: nat, k: nat)
    requires c * Pow2(k) < 0x1_0000
    ensures Shifts(c, k) == c * Pow2(k)
  {
    hide Shift;
    if k > 0 {
      assert c * Pow2(k) == 2 * (c * Pow2(k - 1));
      ShiftsLow(c, k - 1);
      ShiftLow(c * Pow2(k - 1));
    }
  }

  /** The CRC of the byte 1 is x^16 reduced once: x^12 + x^5 + 1. */
  lemma CrcOfOne()
    ensures Crc16([0x01]) == 0x1021
  {
    hide Shift, BitXor;
    assert [0x01][..0] == [];
    XorNothing(0x100);
    Pow2Word();
    assert Pow2(7) == 0x80;
    ShiftsLow(0x100, 7);
    ShiftTop();
    assert Shifts(0x100, 8) == Shift(Shifts(0x100, 7));
  }
}
