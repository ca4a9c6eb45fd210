/** Machine words as natural numbers: the bitwise operators of C on unsigned operands,
    and the little-endian readers and writers of src/common/util.h. */
module Words {

  type byte = x: int | 0 <= x < 0x100

  const ERASED: byte := 0xFF

  function Pow2(n: nat): (p: nat)
    ensures p > 0
  {
    if n == 0 then 1 else 2 * Pow2(n - 1)
  }

  /** C's `a & b`. */
  function BitAnd(a: nat, b: nat): nat {
    if a == 0 || b == 0 then 0
    else 2 * BitAnd(a / 2, b / 2) + if a % 2 == 1 && b % 2 == 1 then 1 else 0
  }

  /** C's `a | b`. */
  function BitOr(a: nat, b: nat): nat {
    if a == 0 && b == 0 then 0
    else 2 * BitOr(a / 2, b / 2) + if a % 2 == 1 || b % 2 == 1 then 1 else 0
  }

  /** C's `a ^ b`. */
  function BitXor(a: nat, b: nat): nat {
    if a == 0 && b == 0 then 0
    else 2 * BitXor(a / 2, b / 2) + if a % 2 != b % 2 then 1 else 0
  }

  lemma DivModUnique(a: int, d: int, q: int, r: int)
    requires d > 0 && 0 <= r < d && a == q * d + r
    ensures a / d == q && a % d == r
  {
    var q', r' := a / d, a % d;
    assert a == d * q' + r';
    if q > q' {
      MulAtLeast(q - q', d);
    } else if q < q' {
      MulAtLeast(q' - q, d);
    }
  }

  lemma MulAtLeast(x: int, d: int)
    requires x >= 1 && d > 0
    ensures x * d >= d
  {
  }

  /** Splitting the lowest bit off a remainder modulo an even number. */
  lemma ModTwice(a: nat, m: nat)
    requires m > 0
    ensures a % (2 * m) == 2 * (a / 2 % m) + a % 2
  {
    var h := a / 2;
    var q := h / m;
    assert h == q * m + h % m;
    assert a == q * (2 * m) + (2 * (h % m) + a % 2);
    DivModUnique(a, 2 * m, q, 2 * (h % m) + a % 2);
  }

  lemma DivTwice(x: nat, m: nat)
    requires m > 0
    ensures x / 2 / m == x / (2 * m)
  {
    var h := x / 2;
    var q := h / m;
    assert h == q * m + h % m;
    assert x == q * (2 * m) + (2 * (h % m) + x % 2);
    DivModUnique(x, 2 * m, q, 2 * (h % m) + x % 2);
  }

  /** `&` works bit by bit. */
  lemma {:induction false} AndBit(a: nat, b: nat, k: nat)
    ensures BitAnd(a, b) / Pow2(k) % 2 == 1 <==> a / Pow2(k) % 2 == 1 && b / Pow2(k) % 2 == 1
  {
    hide BitAnd;
    AndHalved(a, b);
    if k == 0 {
      DivOne(a, b, BitAnd(a, b));
    } else {
      AndBit(a / 2, b / 2, k - 1);
      DivTwice(a, Pow2(k - 1));
      DivTwice(b, Pow2(k - 1));
      DivTwice(BitAnd(a, b), Pow2(k - 1));
    }
  }

  /** So does `|`. */
  lemma {:induction false} OrBit(a: nat, b: nat, k: nat)
    ensures BitOr(a, b) / Pow2(k) % 2 == 1 <==> a / Pow2(k) % 2 == 1 || b / Pow2(k) % 2 == 1
  {
    hide BitOr;
    OrHalved(a, b);
    if k == 0 {
      DivOne(a, b, BitOr(a, b));
    } else {
      OrBit(a / 2, b / 2, k - 1);
      DivTwice(a, Pow2(k - 1));
      DivTwice(b, Pow2(k - 1));
      DivTwice(BitOr(a, b), Pow2(k - 1));
    }
  }

  lemma DivOne(a: nat, b: nat, c: nat)
    ensures a / 1 == a && b / 1 == b && c / 1 == c
  {
  }

  lemma OrHalved(a: nat, b: nat)
    ensures BitOr(a, b) / 2 == BitOr(a / 2, b / 2)
    ensures BitOr(a, b) % 2 == 1 <==> a % 2 == 1 || b % 2 == 1
  {
  }

  lemma AndHalved(a: nat, b: nat)
    ensures BitAnd(a, b) / 2 == BitAnd(a / 2, b / 2)
    ensures BitAnd(a, b) % 2 == 1 <==> a % 2 == 1 && b % 2 == 1
  {
  }

  /** ANDing with a mask of ones at bits k..n-1 keeps exactly those bits. */
  lemma {:induction false} AndMask(a: nat, n: nat, k: nat)
    requires k <= n
    ensures Pow2(n) >= Pow2(k)
    ensures BitAnd(a, Pow2(n) - Pow2(k)) == a % Pow2(n) - a % Pow2(k)
  {
    hide BitAnd;
    if k == 0 {
      AndOnes(n, a);
      ModOne(a);
    } else {
      AndMask(a / 2, n - 1, k - 1);
      AndDoubledMask(a, Pow2(n - 1), Pow2(k - 1));
    }
  }

  lemma ModOne(a: nat)
    ensures a % 1 == 0
  {
  }

  lemma AndDoubledMask(a: nat, p: nat, q: nat)
    requires p >= q > 0 && BitAnd(a / 2, p - q) == a / 2 % p - a / 2 % q
    ensures BitAnd(a, 2 * p - 2 * q) == a % (2 * p) - a % (2 * q)
  {
    hide BitAnd;
    ModTwice(a, p);
    ModTwice(a, q);
    AndHalves(a, 2 * p - 2 * q, p - q);
  }

  /** ANDing with all-ones truncates. */
  lemma {:induction false} AndOnes(n: nat, a: nat)
    ensures BitAnd(a, Pow2(n) - 1) == a % Pow2(n)
  {
    hide BitAnd;
    if n == 0 {
      ModOne(a);
      AndNothing(a);
    } else {
      AndOnes(n - 1, a / 2);
      AndDoubledOnes(a, Pow2(n - 1));
    }
  }

  lemma AndNothing(a: nat)
    ensures BitAnd(a, 0) == 0
  {
  }

  lemma AndDoubledOnes(a: nat, p: nat)
    requires p > 0 && BitAnd(a / 2, p - 1) == a / 2 % p
    ensures BitAnd(a, 2 * p - 1) == a % (2 * p)
  {
    hide BitAnd;
    ModTwice(a, p);
    AndHalves(a, 2 * p - 1, p - 1);
  }

  lemma AndHalves(a: nat, b: nat, half: nat)
    requires half == b / 2
    ensures BitAnd(a, b) == 2 * BitAnd(a / 2, half) + if a % 2 == 1 && b % 2 == 1 then 1 else 0
  {
  }

  /** ORing operands with no common bit adds them. */
  lemma {:induction false} OrDisjoint(high: nat, low: nat, k: nat)
    requires low < Pow2(k)
    ensures BitOr(high * Pow2(k), low) == high * Pow2(k) + low == BitOr(low, high * Pow2(k))
  {
    hide BitOr;
    if k == 0 {
      OrZero(high);
    } else {
      Product2(high, Pow2(k - 1));
      OrDisjoint(high, low / 2, k - 1);
      OrDoubled(high * Pow2(k - 1), low);
    }
  }

  lemma Product2(a: int, b: int)
    ensures a * (2 * b) == 2 * (a * b)
  {
  }

  lemma OrDoubled(a: nat, low: nat)
    ensures BitOr(2 * a, low) == 2 * BitOr(a, low / 2) + low % 2
    ensures BitOr(low, 2 * a) == 2 * BitOr(low / 2, a) + low % 2
  {
  }

  lemma {:induction false} OrZero(a: nat)
    ensures BitOr(a, 0) == a == BitOr(0, a)
  {
    if a > 0 {
      OrZero(a / 2);
    }
  }

  /** Programming flash can only clear bits: an erased byte takes any value. */
  lemma AndErased(b: byte)
    ensures BitAnd(ERASED, b) == b
  {
    hide BitAnd, Pow2;
    Pow2Bytes();
    AndOnes(8, b);
    AndCommutes(ERASED, b);
  }

  lemma {:induction false} AndCommutes(a: nat, b: nat)
    ensures BitAnd(a, b) == BitAnd(b, a)
  {
    if a != 0 && b != 0 {
      AndCommutes(a / 2, b / 2);
    }
  }

  // ----- little-endian words (src/common/util.h) -----

  lemma Pow2Bytes()
    ensures Pow2(0) == 1 && Pow2(8) == 0x100 && Pow2(16) == 0x1_0000 && Pow2(24) == 0x100_0000
    ensures Pow2(32) == 0x1_0000_0000
  {
    Pow2Sum(16, 8);
    Pow2Sum(16, 16);
  }

  lemma {:induction false} Pow2Sum(m: nat, n: nat)
    ensures Pow2(m + n) == Pow2(m) * Pow2(n)
  {
    if n > 0 {
      Pow2Sum(m, n - 1);
    }
  }

  /** ORing a shifted byte above the `k` bits already assembled. */
  lemma OrByte(low: nat, high: nat, k: nat, scale: nat)
    requires Pow2(k) == scale && low < scale
    ensures BitOr(low, scale * high) == scale * high + low == BitOr(scale * high, low)
  {
    OrDisjoint(high, low, k);
  }

  function ReadU16LE(bytes: seq<byte>): (u: nat)
    requires |bytes| >= 2
    ensures u == 0x100 * (bytes[1] as nat) + bytes[0]
  {
    Pow2Bytes();
    OrByte(bytes[0], bytes[1], 8, 0x100);
    BitOr(bytes[0], 0x100 * (bytes[1] as nat))
  }

  function ReadU32LE(bytes: seq<byte>): (u: nat)
    requires |bytes| >= 4
    ensures u == 0x100_0000 * (bytes[3] as nat) + 0x1_0000 * (bytes[2] as nat) + 0x100 * (bytes[1] as nat) + bytes[0]
  {
    Pow2Bytes();
    var u8 := bytes[0];
    var u16 := BitOr(u8, 0x100 * (bytes[1] as nat));
    OrByte(u8, bytes[1], 8, 0x100);
    var u24 := BitOr(u16, 0x1_0000 * (bytes[2] as nat));
    OrByte(u16, bytes[2], 16, 0x1_0000);
    OrByte(u24, bytes[3], 24, 0x100_0000);
    BitOr(u24, 0x100_0000 * (bytes[3] as nat))
  }

  /** The two bytes `cnWriteU16LE` stores. */
  function U16LE(u: nat): (bytes: seq<byte>)
    requires u < 0x1_0000
    ensures |bytes| == 2 && ReadU16LE(bytes) == u
  {
    [u % 0x100, u / 0x100]
  }

  /** The four bytes `cnWriteU32LE` stores. */
  function U32LE(u: nat): (bytes: seq<byte>)
    requires u < 0x1_0000_0000
    ensures |bytes| == 4 && ReadU32LE(bytes) == u
  {
    var u24: nat := u / 0x100;
    var u16: nat := u24 / 0x100;
    [u % 0x100, u24 % 0x100, u16 % 0x100, u16 / 0x100]
  }

  lemma U32LEInverse(bytes: seq<byte>)
    requires |bytes| == 4
    ensures ReadU32LE(bytes) < 0x1_0000_0000
    ensures U32LE(ReadU32LE(bytes)) == bytes
  {
    var b0: nat, b1: nat, b2: nat, b3: nat := bytes[0], bytes[1], bytes[2], bytes[3];
    var u16: nat := 0x100 * b3 + b2;
    var u24: nat := 0x100 * u16 + b1;
    var u: nat := 0x100 * u24 + b0;
    assert ReadU32LE(bytes) == u;
    assert u / 0x100 == u24 && u24 / 0x100 == u16 && u16 / 0x100 == b3;
    assert u % 0x100 == b0 && u24 % 0x100 == b1 && u16 % 0x100 == b2;
  }
}
