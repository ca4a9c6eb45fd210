/** Polynomials over GF(2) as bit sequences, highest power first, and the 16-bit division
    register that leaves the remainder of a message. */
module Gf2 {
  import opened Words

  type Bits = seq<bool>
  type Register = r: Bits | |r| == 16 witness Zeros(16)

  /** x^16 + x^12 + x^5 + 1 (ITU-T Recommendation V.41, section 2). */
  const GENERATOR: Bits :=
    [true, false, false, false, true, false, false, false, false, false, false, true, false, false, false, false, true]

  function Zeros(n: nat): (z: Bits)
    ensures |z| == n && forall i :: 0 <= i < n ==> !z[i]
  {
    seq(n, _ => false)
  }

  /** Polynomial addition, which is also subtraction. */
  function Xor(a: Bits, b: Bits): (c: Bits)
    requires |a| == |b|
    ensures |c| == |a| && forall i :: 0 <= i < |a| ==> c[i] == (a[i] != b[i])
  {
    seq(|a|, i requires 0 <= i < |a| => a[i] != b[i])
  }

  /** `g` when `b` is 1, and zero otherwise. */
  function Scale(b: bool, g: Bits): (s: Bits)
    ensures |s| == |g| && forall i :: 0 <= i < |g| ==> s[i] == (b && g[i])
  {
    if b then g else Zeros(|g|)
  }

  /** Polynomial product by Horner's rule: (x*q' + b) * g == x*(q' * g) + b*g. */
  ghost function Mul(q: Bits, g: Bits): (p: Bits)
    requires |g| > 0
    ensures |p| == |q| + |g| - 1
  {
    if q == [] then Zeros(|g| - 1)
    else
      var n := |q| - 1;
      Xor(Mul(q[..n], g) + [false], Zeros(n) + Scale(q[n], g))
  }

  /** `r` is a remainder of `p` on division by `g`: p == q * g + r with deg r < deg g. */
  ghost predicate IsRemainder(p: Bits, g: Bits, r: Bits) {
    |g| > 0 && |r| == |g| - 1 && exists q: Bits :: IsDivision(p, g, q, r)
  }

  ghost predicate IsDivision(p: Bits, g: Bits, q: Bits, r: Bits) {
    |g| > 0 && |r| == |g| - 1 && |p| == |q| + |r| && p == Xor(Mul(q, g), Zeros(|q|) + r)
  }

  /** The bits of `x`, most significant first. */
  function BitsOf(x: nat, width: nat): (b: Bits)
    ensures |b| == width
  {
    seq(width, i requires 0 <= i < width => Bit(x, width - 1 - i))
  }

  /** The coefficient of 2^k in `x`. */
  predicate Bit(x: nat, k: nat) {
    x / Pow2(k) % 2 == 1
  }

  // ----- numbers and their bits -----

  lemma BitHalved(x: nat, k: nat)
    ensures Bit(x, k + 1) == Bit(x / 2, k)
  {
    DivTwice(x, Pow2(k));
  }

  lemma UnfoldBits(x: nat, width: nat)
    requires width > 0
    ensures BitsOf(x, width) == BitsOf(x / 2, width - 1) + [x % 2 == 1]
  {
    var b, c := BitsOf(x, width), BitsOf(x / 2, width - 1) + [x % 2 == 1];
    forall i | 0 <= i < width
      ensures b[i] == c[i]
    {
      if i < width - 1 {
        BitHalved(x, width - 2 - i);
      } else {
        assert Pow2(0) == 1 && x / 1 == x;
        assert b[i] == Bit(x, 0);
      }
    }
  }

  lemma {:induction false} BitsOfXor(a: nat, b: nat, width: nat)
    ensures BitsOf(BitXor(a, b), width) == Xor(BitsOf(a, width), BitsOf(b, width))
  {
    if width > 0 {
      UnfoldBits(a, width);
      UnfoldBits(b, width);
      UnfoldBits(BitXor(a, b), width);
      BitsOfXor(a / 2, b / 2, width - 1);
      assert BitXor(a, b) / 2 == BitXor(a / 2, b / 2);
    }
  }

  lemma {:induction false} BitsOfInjective(a: nat, b: nat, width: nat)
    requires a < Pow2(width) && b < Pow2(width)
    requires BitsOf(a, width) == BitsOf(b, width)
    ensures a == b
  {
    if width > 0 {
      UnfoldBits(a, width);
      UnfoldBits(b, width);
      var x, y := BitsOf(a, width), BitsOf(b, width);
      assert x[..width - 1] == BitsOf(a / 2, width - 1) && y[..width - 1] == BitsOf(b / 2, width - 1);
      assert x[width - 1] == (a % 2 == 1) && y[width - 1] == (b % 2 == 1);
      BitsOfInjective(a / 2, b / 2, width - 1);
    }
  }

  lemma {:induction false} BitsOfTruncated(a: nat, width: nat)
    ensures BitsOf(a % Pow2(width), width) == BitsOf(a, width)
  {
    if width > 0 {
      ModTwice(a, Pow2(width - 1));
      UnfoldBits(a, width);
      UnfoldBits(a % Pow2(width), width);
      BitsOfTruncated(a / 2, width - 1);
    }
  }

  lemma {:induction false} BitsOfShifted(a: nat, k: nat, width: nat)
    ensures BitsOf(a * Pow2(k), width + k) == BitsOf(a, width) + Zeros(k)
  {
    if k > 0 {
      assert a * Pow2(k) == 2 * (a * Pow2(k - 1));
      UnfoldBits(a * Pow2(k), width + k);
      BitsOfShifted(a, k - 1, width);
      assert Zeros(k) == Zeros(k - 1) + [false];
    } else {
      assert a * Pow2(0) == a;
    }
  }

  lemma {:induction false} XorBelow(a: nat, b: nat, width: nat)
    requires a < Pow2(width) && b < Pow2(width)
    ensures BitXor(a, b) < Pow2(width)
  {
    if width > 0 {
      XorBelow(a / 2, b / 2, width - 1);
    }
  }

  // ----- the division register -----

  /** One message bit enters the register; the low 16 coefficients of the generator are
      subtracted when a 1 is shifted out. */
  function RegisterStep(r: Register, b: bool): Register {
    Xor(r[1..] + [false], Scale(r[0] != b, GENERATOR[1..]))
  }

  function Divide(r: Register, message: Bits): Register {
    if message == [] then r
    else RegisterStep(Divide(r, message[..|message| - 1]), message[|message| - 1])
  }

  lemma {:induction false} DivideConcat(r: Register, a: Bits, b: Bits)
    ensures Divide(r, a + b) == Divide(Divide(r, a), b)
  {
    if b == [] {
      assert a + b == a;
    } else {
      var n := |b| - 1;
      assert (a + b)[..|a + b| - 1] == a + b[..n];
      DivideConcat(r, a, b[..n]);
    }
  }

  lemma {:induction false} DivideFirst(r: Register, message: Bits)
    requires message != []
    ensures Divide(r, message) == Divide(RegisterStep(r, message[0]), message[1..])
  {
    assert message == [message[0]] + message[1..];
    DivideConcat(r, [message[0]], message[1..]);
    assert [message[0]][..0] == [];
    assert Divide(r, [message[0]]) == RegisterStep(r, message[0]);
  }

  lemma RegisterStepLinear(r: Register, s: Register, a: bool, b: bool)
    ensures RegisterStep(Xor(r, s), a != b) == Xor(RegisterStep(r, a), RegisterStep(s, b))
  {
    hide Xor, Scale;
  }

  lemma {:induction false} DivideLinear(r: Register, s: Register, a: Bits, b: Bits)
    requires |a| == |b|
    ensures Divide(Xor(r, s), Xor(a, b)) == Xor(Divide(r, a), Divide(s, b))
  {
    hide RegisterStep, Xor;
    if a != [] {
      var n := |a| - 1;
      assert Xor(a, b)[..n] == Xor(a[..n], b[..n]);
      DivideLinear(r, s, a[..n], b[..n]);
      RegisterStepLinear(Divide(r, a[..n]), Divide(s, b[..n]), a[n], b[n]);
    } else {
      assert Xor(a, b) == [];
    }
  }

  /** The quotient bits the register produces. */
  ghost function Quotient(message: Bits): (q: Bits)
    ensures |q| == |message|
  {
    if message == [] then []
    else
      var n := |message| - 1;
      Quotient(message[..n]) + [Divide(Zeros(16), message[..n])[0] != message[n]]
  }

  /** The schoolbook step on the product found so far: the generator is subtracted once more if a 1
      is shifted out of the register. */
  lemma SubtractOnce(m: Bits, b: bool, product: Bits, n: nat, r: Register)
    requires |m| == n && |product| == n + 16
    requires m + Zeros(16) == Xor(product, Zeros(n) + r)
    ensures m + [b] + Zeros(16)
         == Xor(Xor(product + [false], Zeros(n) + Scale(r[0] != b, GENERATOR)), Zeros(n + 1) + RegisterStep(r, b))
  {
    hide Xor, Zeros, Scale, RegisterStep;
    var t, r' := r[0] != b, RegisterStep(r, b);
    var next := Xor(product + [false], Zeros(n) + Scale(t, GENERATOR));
    var before, after := m + Zeros(16), m + [b] + Zeros(16);
    forall i | 0 <= i < n + 17
      ensures after[i] == Xor(next, Zeros(n + 1) + r')[i]
    {
      assert next[i] == ((product + [false])[i] != (Zeros(n) + Scale(t, GENERATOR))[i]);
      if i < n + 16 {
        assert before[i] == (product[i] != (Zeros(n) + r)[i]);
      }
      if i < n {
        assert after[i] == before[i];
      } else if i == n {
        assert before[n] == Zeros(16)[0] && product[n] == r[0];
      } else {
        RegisterBit(r, b, i - n);
      }
    }
  }

  lemma RegisterBit(r: Register, b: bool, j: nat)
    requires 0 < j <= 16
    ensures RegisterStep(r, b)[j - 1] == ((r[1..] + [false])[j - 1] != Scale(r[0] != b, GENERATOR)[j])
  {
    hide Xor, Scale;
  }

  /** One more message bit gives one more quotient bit. */
  lemma DivisionStep(m: Bits, b: bool, q: Bits, r: Register)
    requires IsDivision(m + Zeros(16), GENERATOR, q, r)
    ensures IsDivision(m + [b] + Zeros(16), GENERATOR, q + [r[0] != b], RegisterStep(r, b))
  {
    hide Xor, Zeros, Scale, RegisterStep;
    assert (q + [r[0] != b])[..|q|] == q;
    SubtractOnce(m, b, Mul(q, GENERATOR), |q|, r);
  }

  /** Started at zero, the register divides x^16 * message by the generator. */
  lemma {:induction false} DivideDivides(message: Bits)
    ensures IsDivision(message + Zeros(16), GENERATOR, Quotient(message), Divide(Zeros(16), message))
  {
    hide IsDivision, Zeros, RegisterStep;
    if message == [] {
      NothingDivides();
      assert message + Zeros(16) == Zeros(16);
    } else {
      var n := |message| - 1;
      DivideDivides(message[..n]);
      DivisionStep(message[..n], message[n], Quotient(message[..n]), Divide(Zeros(16), message[..n]));
      assert message[..n] + [message[n]] == message;
    }
  }

  lemma NothingDivides()
    ensures IsDivision(Zeros(16), GENERATOR, [], Zeros(16))
  {
    hide Xor, Zeros;
    assert Zeros(16) == Xor(Mul([], GENERATOR), Zeros(0) + Zeros(16));
  }

  /** Quotient and remainder are unique, for a divisor with leading coefficient 1. */
  lemma {:induction false} DivisionUnique(g: Bits, q1: Bits, q2: Bits, high: nat)
    requires |g| > 0 && g[0]
    requires |q1| == |q2| == high
    requires Mul(q1, g)[..high] == Mul(q2, g)[..high]
    ensures q1 == q2
  {
    hide Xor, Zeros, Scale;
    if high > 0 {
      var n := high - 1;
      var p1, p2 := Mul(q1[..n], g), Mul(q2[..n], g);
      forall i | 0 <= i < n
        ensures p1[i] == p2[i]
      {
        assert Mul(q1, g)[..high][i] == p1[i] && Mul(q2, g)[..high][i] == p2[i];
      }
      assert p1[..n] == p2[..n];
      DivisionUnique(g, q1[..n], q2[..n], n);
      assert Mul(q1, g)[..high][n] == ((p1 + [false])[n] != q1[n]);
      assert Mul(q2, g)[..high][n] == ((p2 + [false])[n] != q2[n]);
      assert q1 == q1[..n] + [q1[n]] && q2 == q2[..n] + [q2[n]];
    }
  }

  lemma RemainderUnique(p: Bits, g: Bits, q1: Bits, r1: Bits, q2: Bits, r2: Bits)
    requires |g| > 0 && g[0]
    requires IsDivision(p, g, q1, r1) && IsDivision(p, g, q2, r2)
    ensures q1 == q2 && r1 == r2
  {
    var m1, m2, n := Mul(q1, g), Mul(q2, g), |q1|;
    forall i | 0 <= i < n
      ensures m1[i] == p[i] == m2[i]
    {
      assert p[i] == (m1[i] != (Zeros(n) + r1)[i]) && p[i] == (m2[i] != (Zeros(n) + r2)[i]);
    }
    assert m1[..n] == m2[..n];
    DivisionUnique(g, q1, q2, n);
    forall i | 0 <= i < |r1|
      ensures r1[i] == r2[i]
    {
      assert p[n + i] == (m1[n + i] != (Zeros(n) + r1)[n + i]) && p[n + i] == (m2[n + i] != (Zeros(n) + r2)[n + i]);
    }
  }

  // ----- injectivity -----

  /** The constant term of the generator is 1, so a step can be undone. */
  lemma StepInjective(r: Register, s: Register, b: bool)
    requires RegisterStep(r, b) == RegisterStep(s, b)
    ensures r == s
  {
    var x, y := RegisterStep(r, b), RegisterStep(s, b);
    assert x[15] == (r[0] != b) && y[15] == (s[0] != b);
    forall i | 1 <= i < 16
      ensures r[i] == s[i]
    {
      assert x[i - 1] == (r[i] != Scale(r[0] != b, GENERATOR[1..])[i - 1]);
      assert y[i - 1] == (s[i] != Scale(s[0] != b, GENERATOR[1..])[i - 1]);
    }
  }

  lemma {:induction false} DivideInjective(r: Register, s: Register, message: Bits)
    requires Divide(r, message) == Divide(s, message)
    ensures r == s
  {
    if message != [] {
      var n := |message| - 1;
      StepInjective(Divide(r, message[..n]), Divide(s, message[..n]), message[n]);
      DivideInjective(r, s, message[..n]);
    }
  }

  lemma AbsorbStep(r: Register, b: bool, rest: Bits, pad: nat)
    requires 1 + |rest| + pad == 16
    ensures RegisterStep(Xor(r, [b] + rest + Zeros(pad)), false) == Xor(RegisterStep(r, b), rest + Zeros(pad + 1))
  {
    hide Xor, Zeros, Scale;
    var window := [b] + rest + Zeros(pad);
    var mixed: Register := Xor(r, window);
    var x, y := RegisterStep(mixed, false), Xor(RegisterStep(r, b), rest + Zeros(pad + 1));
    assert mixed[0] == (r[0] != b);
    var feedback := Scale(mixed[0], GENERATOR[1..]);
    forall i | 0 <= i < 16
      ensures x[i] == y[i]
    {
      assert x[i] == ((mixed[1..] + [false])[i] != feedback[i]);
      assert RegisterStep(r, b)[i] == ((r[1..] + [false])[i] != feedback[i]);
      assert i < 15 ==> window[i + 1] == (rest + Zeros(pad + 1))[i];
    }
  }

  /** Up to 16 message bits can be XORed into the register first and shifted through afterwards. */
  lemma {:induction false} Absorb(r: Register, w: Bits)
    requires |w| <= 16
    ensures Divide(r, w) == Divide(Xor(r, w + Zeros(16 - |w|)), Zeros(|w|))
    decreases |w|
  {
    hide Xor, Zeros, Scale, RegisterStep;
    if |w| == 0 {
      assert Xor(r, w + Zeros(16)) == r;
    } else {
      var rest, pad := w[1..], 16 - |w|;
      var mixed: Register := Xor(r, w + Zeros(pad));
      var stepped: Register := Xor(RegisterStep(r, w[0]), rest + Zeros(pad + 1));
      calc {
        Divide(r, w);
        { DivideFirst(r, w); }
        Divide(RegisterStep(r, w[0]), rest);
        { Absorb(RegisterStep(r, w[0]), rest); }
        Divide(stepped, Zeros(|rest|));
        { assert w == [w[0]] + rest; AbsorbStep(r, w[0], rest, pad); }
        Divide(RegisterStep(mixed, false), Zeros(|rest|));
        { assert Zeros(|w|)[1..] == Zeros(|rest|); DivideFirst(mixed, Zeros(|w|)); }
        Divide(mixed, Zeros(|w|));
      }
    }
  }

  /** No two windows of up to 16 bits leave the same register. */
  lemma WindowInjective(r: Register, v: Bits, w: Bits)
    requires |v| == |w| <= 16
    requires Divide(r, v) == Divide(r, w)
    ensures v == w
  {
    var pad := Zeros(16 - |v|);
    Absorb(r, v);
    Absorb(r, w);
    DivideInjective(Xor(r, v + pad), Xor(r, w + pad), Zeros(|v|));
    forall i | 0 <= i < |v|
      ensures v[i] == w[i]
    {
      assert Xor(r, v + pad)[i] == (r[i] != v[i]) && Xor(r, w + pad)[i] == (r[i] != w[i]);
    }
  }
}
