/** The integer logarithm of src/common/util.h and the geometry a device reports after a PROG_REQ. */
module Geometry {
  import opened Words

  /** `__builtin_ctz`, for a non-zero argument. */
  function TrailingZeros(n: nat): nat
    requires n > 0
  {
    if n % 2 == 1 then 0 else 1 + TrailingZeros(n / 2)
  }

  /** `cnLog2I` as built by gcc and clang. */
  function Log2I(n: nat): int {
    if n == 0 then -1 else TrailingZeros(n)
  }

  /** The position of the highest set bit. */
  function HighestBit(n: nat): int {
    if n == 0 then -1 else 1 + HighestBit(n / 2)
  }

  /** `cnLog2I` as built by any other compiler. */
  method ShiftLog2I(n: nat) returns (lg2: int)
    ensures lg2 == HighestBit(n)
    ensures n > 0 ==> lg2 >= 0 && Pow2(lg2) <= n < 2 * Pow2(lg2)
  {
    lg2 := -1;
    var rest := n;
    while rest != 0
      invariant HighestBit(n) == lg2 + 1 + HighestBit(rest)
    {
      rest := rest / 2;
      lg2 := lg2 + 1;
    }
    HighestBitBounds(n);
  }

  lemma {:induction false} HighestBitBounds(n: nat)
    ensures n > 0 ==> HighestBit(n) >= 0 && Pow2(HighestBit(n)) <= n < 2 * Pow2(HighestBit(n))
  {
    if n > 0 {
      HighestBitBounds(n / 2);
    }
  }

  ghost predicate IsPowerOfTwo(n: nat) {
    exists k: nat :: n == Pow2(k)
  }

  lemma {:induction false} TrailingZerosOfPower(k: nat)
    ensures TrailingZeros(Pow2(k)) == k
  {
    if k > 0 {
      TrailingZerosOfPower(k - 1);
    }
  }

  /** The number of trailing zeros, by what it counts: that power of two divides n, and the next does not. */
  lemma {:induction false} TrailingZerosCounts(n: nat)
    requires n > 0
    ensures exists odd: nat :: odd % 2 == 1 && n == Pow2(TrailingZeros(n)) * odd
  {
    if n % 2 == 1 {
      assert n == Pow2(0) * n;
    } else {
      TrailingZerosCounts(n / 2);
      var odd: nat :| odd % 2 == 1 && n / 2 == Pow2(TrailingZeros(n / 2)) * odd;
      Doubled(Pow2(TrailingZeros(n / 2)), odd, n / 2);
    }
  }

  lemma Doubled(p: nat, q: nat, half: nat)
    requires half == p * q
    ensures 2 * half == 2 * p * q
  {
  }

  lemma PowerOfTwoExactly(n: nat)
    requires n > 0
    ensures IsPowerOfTwo(n) <==> n == Pow2(TrailingZeros(n))
  {
    if IsPowerOfTwo(n) {
      var k: nat :| n == Pow2(k);
      TrailingZerosOfPower(k);
    }
  }

  lemma {:induction false} TrailingBelowHighest(n: nat)
    requires n > 0
    ensures TrailingZeros(n) <= HighestBit(n)
    ensures TrailingZeros(n) == HighestBit(n) <==> n == Pow2(TrailingZeros(n))
  {
    if n == 1 {
      assert HighestBit(1) == 1 + HighestBit(0);
    } else {
      TrailingBelowHighest(n / 2);
      HighestBitBounds(n / 2);
    }
  }

  /** The two forms of the logarithm agree exactly on zero and the powers of two. */
  lemma Log2FormsAgree(n: nat)
    ensures Log2I(n) == HighestBit(n) <==> n == 0 || IsPowerOfTwo(n)
  {
    if n > 0 {
      TrailingBelowHighest(n);
      PowerOfTwoExactly(n);
    }
  }

  // ----- the report -----

  /** log2 of the page size, number of pages, ELF machine; each truncated to its field. */
  function Report(pageSize: nat, flashSize: nat, machine: nat): (bytes: seq<byte>)
    requires pageSize > 0
    ensures |bytes| == 5
  {
    [TrailingZeros(pageSize) % 0x100] + U16LE(flashSize / pageSize % 0x1_0000) + U16LE(machine % 0x1_0000)
  }

  /** The flash size a master computes from a report. */
  function ReportedSize(bytes: seq<byte>): nat
    requires |bytes| == 5
  {
    Pow2(bytes[0]) * ReadU16LE(bytes[1..3])
  }

  lemma {:induction false} Pow2Monotone(m: nat, n: nat)
    requires m <= n
    ensures Pow2(m) <= Pow2(n)
  {
    if m < n {
      Pow2Monotone(m, n - 1);
    }
  }

  /** A product of smaller factors is equal only if both factors are. */
  lemma ProductEqual(a: nat, b: nat, c: nat, d: nat)
    requires a <= b && c <= d && 0 < b && 0 < d
    ensures a * c == b * d <==> a == b && c == d
  {
    assert a * c <= a * d;
    if a < b {
      assert a * d < b * d;
    } else if c < d {
      assert b * c < b * d;
    }
  }

  /** The logarithm of a 32-bit page size is below 32, and the power it stands for divides the size. */
  lemma LogFits(pageSize: nat)
    requires 0 < pageSize < 0x1_0000_0000
    ensures TrailingZeros(pageSize) < 32 && Pow2(TrailingZeros(pageSize)) <= pageSize
  {
    var k := TrailingZeros(pageSize);
    TrailingBelowHighest(pageSize);
    HighestBitBounds(pageSize);
    Pow2Monotone(k, HighestBit(pageSize));
    Pow2Bytes();
    if k >= 32 {
      Pow2Monotone(32, k);
    }
  }

  lemma ReportFields(pageSize: nat, flashSize: nat, pages: nat, machine: nat)
    requires 0 < pageSize < 0x1_0000_0000 && machine < 0x1_0000
    requires flashSize / pageSize == pages
    ensures var report := Report(pageSize, flashSize, machine);
            && report[0] == TrailingZeros(pageSize)
            && ReadU16LE(report[1..3]) == pages % 0x1_0000
            && ReadU16LE(report[3..]) == machine
  {
    hide TrailingZeros, Pow2, Report;
    LogFits(pageSize);
    ReportSplit(pageSize, flashSize, machine);
  }

  lemma ReportSplit(pageSize: nat, flashSize: nat, machine: nat)
    requires pageSize > 0
    ensures var report := Report(pageSize, flashSize, machine);
            && report[0] == TrailingZeros(pageSize) % 0x100
            && report[1..3] == U16LE(flashSize / pageSize % 0x1_0000)
            && report[3..] == U16LE(machine % 0x1_0000)
  {
    hide TrailingZeros, U16LE;
  }

  lemma DecodedSize(report: seq<byte>, log: nat, count: nat, pageSize: nat, pages: nat)
    requires |report| == 5 && report[0] == log && ReadU16LE(report[1..3]) == count
    requires Pow2(log) <= pageSize && count <= pages && 0 < pages
    ensures ReportedSize(report) == pageSize * pages <==> Pow2(log) == pageSize && count == pages
  {
    hide Pow2, ReadU16LE;
    ProductEqual(Pow2(log), pageSize, count, pages);
  }

  /** The master recovers the flash size exactly when the page size is a power of two and the
      number of pages fits its 16-bit field. */
  lemma {:induction false} ReportRoundTrip(pageSize: nat, pages: nat, machine: nat)
    requires 0 < pageSize < 0x1_0000_0000 && 0 < pages && machine < 0x1_0000
    ensures ReportedSize(Report(pageSize, pageSize * pages, machine)) == pageSize * pages <==>
            IsPowerOfTwo(pageSize) && pages < 0x1_0000
    ensures ReadU16LE(Report(pageSize, pageSize * pages, machine)[3..]) == machine
  {
    hide TrailingZeros, Pow2, Report, ReportedSize, IsPowerOfTwo, ReadU16LE;
    DivModUnique(pageSize * pages, pageSize, pages, 0);
    ReportDecodes(pageSize, pageSize * pages, pages, machine);
    var report := Report(pageSize, pageSize * pages, machine);
    DecodedSize(report, TrailingZeros(pageSize), pages % 0x1_0000, pageSize, pages);
  }

  /** The fields of a report, and when they tell the whole truth. */
  lemma ReportDecodes(pageSize: nat, flashSize: nat, pages: nat, machine: nat)
    requires 0 < pageSize < 0x1_0000_0000 && machine < 0x1_0000 && flashSize / pageSize == pages
    ensures var (report, log) := (Report(pageSize, flashSize, machine), TrailingZeros(pageSize));
            && report[0] == log && Pow2(log) <= pageSize
            && ReadU16LE(report[1..3]) == pages % 0x1_0000
            && ReadU16LE(report[3..]) == machine
    ensures Pow2(TrailingZeros(pageSize)) == pageSize && pages % 0x1_0000 == pages <==>
            IsPowerOfTwo(pageSize) && pages < 0x1_0000
  {
    hide TrailingZeros, Pow2, Report, IsPowerOfTwo, ReadU16LE;
    LogFits(pageSize);
    ReportFields(pageSize, flashSize, pages, machine);
    PowerOfTwoExactly(pageSize);
  }

  /** What is in the report of a flash whose page size is a power of two. */
  lemma PowerReport(log: nat, pageSize: nat, flashSize: nat, pages: nat, machine: nat)
    requires pageSize == Pow2(log) && pageSize < 0x1_0000_0000 && flashSize == pageSize * pages
    requires 0 < pages < 0x1_0000 && machine < 0x1_0000
    ensures var report := Report(pageSize, flashSize, machine);
            && report[0] == log && ReportedSize(report) == flashSize
            && ReadU16LE(report[1..3]) == pages && ReadU16LE(report[3..]) == machine
  {
    hide TrailingZeros, Pow2, Report, ReportedSize, ReadU16LE;
    assert IsPowerOfTwo(pageSize);
    TrailingZerosOfPower(log);
    DivModUnique(flashSize, pageSize, pages, 0);
    ReportFields(pageSize, flashSize, pages, machine);
    ReportRoundTrip(pageSize, pages, machine);
  }
}
