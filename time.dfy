// Model of `udivdi3` in src/kernel/time/time.c: 64-bit unsigned division by
// restoring binary long division, one dividend bit per iteration, from bit 63
// down to bit 0.
module Udiv {
  import opened Bits

  /** `uint64_t`. */
  type U64 = x: nat | x < 0x1_0000_0000_0000_0000

  /** `x << 1` on a `uint64_t`: the bit shifted out of position 63 is dropped. */
  function ShiftLeft1(x: U64): (r: U64)
    ensures x < Word64 / 2 ==> r == 2 * x
    ensures x >= Word64 / 2 ==> r == 2 * x - Word64
  {
    if x < Word64 / 2 then
      DivModUnique(x * 2, Word64, 0, x * 2);
      (x * 2) % Word64
    else
      DivModUnique(x * 2, Word64, 1, x * 2 - Word64);
      (x * 2) % Word64
  }

  /** `(n >> i) & 1`: bit i of n. */
  function BitAt(n: nat, i: nat): (b: nat)
    ensures b <= 1
  {
    (n / Pow2(i)) % 2
  }

  /** `x | (1 << i)`: sets bit i, which adds 2^i exactly when that bit was clear. */
  function OrBit(x: nat, i: nat): (r: nat)
    ensures BitAt(r, i) == 1
    ensures r % Pow2(i) == x % Pow2(i) && r / Pow2(i + 1) == x / Pow2(i + 1)
  {
    if BitAt(x, i) == 1 then x
    else
      SetClearBit(x, i);
      x + Pow2(i)
  }

  /** Adding 2^i to a number whose bit i is clear sets that bit and touches no other. */
  lemma SetClearBit(x: nat, i: nat)
    requires BitAt(x, i) == 0
    ensures BitAt(x + Pow2(i), i) == 1
    ensures (x + Pow2(i)) % Pow2(i) == x % Pow2(i)
    ensures (x + Pow2(i)) / Pow2(i + 1) == x / Pow2(i + 1)
  {
    var p := Pow2(i);
    DivRecompose(x, p);
    var q := x / p;
    DivModUnique(x + p, p, q + 1, x % p);
    assert p * 2 == Pow2(i + 1) by { Pow2Add(i, 1); }
    DivDiv(x + p, p, 2);
    DivDiv(x, p, 2);
  }

  /** `x | b` for a single low bit b: bit 0 becomes b or stays, the bits above it stay. */
  function OrLow(x: nat, b: nat): (r: nat)
    requires b <= 1
    ensures r / 2 == x / 2
    ensures r % 2 == if b == 1 then 1 else x % 2
  {
    assert Pow2(0) == 1 && Pow2(1) == 2;
    if b == 1 then OrBit(x, 0) else x
  }

  /**
   * `udivdi3(n, d)`. For d > 0 it is floor division; for d == 0 the test
   * `r >= d` holds at every bit, so every bit of the quotient is set.
   * Loop invariant (with m the dividend's bits above position i, `n >> (i+1)`):
   * q holds the quotient bits already decided, m / d, in positions above i and
   * zeros below, and r is m % d; the shift of r never drops a set bit because
   * r <= m < 2^(63-i).
   */
  method Udivdi3(n: U64, d: U64) returns (q: U64)
    ensures d > 0 ==> q == n / d
    ensures d == 0 ==> q == Word64 - 1
  {
    Pow2Values();
    var quo: nat := 0;
    var r: nat := 0;
    var i: int := 63;
    DivModUnique(n, Pow2(64), 0, n);
    assert Decided(n, d, 64, quo, r);
    while i >= 0
      invariant -1 <= i <= 63
      invariant Decided(n, d, i + 1, quo, r)
    {
      UdivStep(n, d, i, quo, r);
      r := OrLow(ShiftLeft1(r), BitAt(n, i));
      if r >= d {
        r := r - d;
        quo := OrBit(quo, i);
      }
      i := i - 1;
    }
    DivModUnique(n, Pow2(0), n, 0);
    q := quo;
  }

  /**
   * The loop invariant once the bits of n from position j up are processed
   * (m = n >> j): m fits in 64 - j bits and r <= m; for d > 0, q holds m / d
   * shifted into place and r == m % d; for d == 0 every bit of q from j up is
   * set and r == m.
   */
  ghost predicate Decided(n: U64, d: U64, j: nat, quo: nat, r: nat) {
    && j <= 64
    && n / Pow2(j) < Pow2(64 - j)
    && r <= n / Pow2(j)
    && (d > 0 ==> quo == (n / Pow2(j)) / d * Pow2(j) && r == (n / Pow2(j)) % d)
    && (d == 0 ==> Pow2(j) <= Word64 && quo == Word64 - Pow2(j) && r == n / Pow2(j))
  }

  /** One iteration of the loop for bit i keeps the invariant, one position lower. */
  lemma UdivStep(n: U64, d: U64, i: nat, quo: nat, r: nat)
    requires i <= 63 && Decided(n, d, i + 1, quo, r)
    ensures r < Word64
    ensures var r1 := OrLow(ShiftLeft1(r), BitAt(n, i));
      && quo < Word64 && (r1 >= d ==> OrBit(quo, i) < Word64)
      && Decided(n, d, i, if r1 >= d then OrBit(quo, i) else quo, if r1 >= d then r1 - d else r1)
  {
    ShiftInBit(n, d, i, quo, r);
    if d > 0 {
      StepDivides(n, d, i, quo, r);
      var x := n / Pow2(i);
      assert x % d <= x by {
        DivRecompose(x, d);
      }
    } else {
      AllOnesAbove(i);
      Pow2Monotone(i, 64);
    }
  }

  /**
   * Shifting the next bit of n into r: `r << 1` drops nothing, `| bit` adds
   * it, and the bits of n from i up still fit in 64 - i bits.
   */
  lemma ShiftInBit(n: U64, d: U64, i: nat, quo: nat, r: nat)
    requires i <= 63 && Decided(n, d, i + 1, quo, r)
    ensures r < Word64 && OrLow(ShiftLeft1(r), BitAt(n, i)) == 2 * r + BitAt(n, i)
    ensures n / Pow2(i) == 2 * (n / Pow2(i + 1)) + BitAt(n, i)
    ensures n / Pow2(i) < Pow2(64 - i) && Pow2(64 - i) <= Word64
  {
    Pow2Values();
    Pow2Monotone(63 - i, 64);
    Pow2Monotone(64 - i, 64);
    assert 64 - (i + 1) == 63 - i;
    NoBitDropped(r, i);
    HalfStep(n, i);
    Pow2Add(63 - i, 1);
    assert 64 - i == (63 - i) + 1;
  }

  lemma StepDivides(n: U64, d: U64, i: nat, quo: nat, r: nat)
    requires i <= 63 && d > 0 && Decided(n, d, i + 1, quo, r)
    requires n / Pow2(i) == 2 * (n / Pow2(i + 1)) + BitAt(n, i)
    ensures var r1 := 2 * r + BitAt(n, i);
      && (r1 >= d ==> quo + Pow2(i) == OrBit(quo, i))
      && (n / Pow2(i)) / d * Pow2(i) == (if r1 >= d then quo + Pow2(i) else quo)
      && (n / Pow2(i)) % d == (if r1 >= d then r1 - d else r1)
      && (n / Pow2(i)) / d * Pow2(i) < Word64
  {
    var m := n / Pow2(i + 1);
    assert m / d >= 0 by {
      DivRecompose(m, d);
    }
    var k: nat := m / d;
    var b := BitAt(n, i);
    assert quo == k * Pow2(i + 1) && r == m % d;
    DivStep(m, b, d);
    QuotientBelow(n, d, i);
    if 2 * r + b >= d {
      assert (n / Pow2(i)) / d == 2 * k + 1;
      QuotientShift(k, 1, i);
      QuotientBitClear(k, i);
    } else {
      assert (n / Pow2(i)) / d == 2 * k;
      QuotientShift(k, 0, i);
    }
  }

  /** The quotient bits decided so far never exceed n, which is below 2^64. */
  lemma QuotientBelow(n: U64, d: nat, j: nat)
    requires d > 0
    ensures (n / Pow2(j)) / d * Pow2(j) < Word64
  {
    var p := Pow2(j);
    var m := n / p;
    DivRecompose(n, p);
    DivRecompose(m, d);
    var k := m / d;
    assert k * d <= m && m * p <= n;
    ScaledQuotientBelow(n, m, k, d, p);
  }

  /** If m == k * d + _ and n == m * p + _, then k * p <= n. */
  lemma ScaledQuotientBelow(n: nat, m: nat, k: nat, d: nat, p: nat)
    requires d > 0 && p > 0
    requires k * d <= m && m * p <= n
    ensures k * p <= n
  {
    MulMonotone(k, k * d, p);
    if k > 0 {
      MulAtLeast(d, k);
      assert k * d == d * k;
    }
    MulMonotone(k * d, m, p);
  }

  /** Taking one more bit of the dividend: `n >> i == ((n >> (i+1)) << 1) | bit i`. */
  lemma HalfStep(n: nat, i: nat)
    ensures n / Pow2(i) == 2 * (n / Pow2(i + 1)) + BitAt(n, i)
  {
    DivDiv(n, Pow2(i), 2);
    assert Pow2(i + 1) == Pow2(i) * 2;
  }

  /** While r is below 2^(63-i), `r << 1` keeps every bit and leaves bit 0 clear. */
  lemma NoBitDropped(r: nat, i: nat)
    requires i <= 63 && r < Pow2(63 - i)
    ensures r * 2 + 1 < Word64 && ShiftLeft1(r) == r * 2 && BitAt(r * 2, 0) == 0
  {
    Pow2Values();
    Pow2Monotone(63 - i, 63);
    Pow2Add(63, 1);
    DivModUnique(r * 2, Word64, 0, r * 2);
  }

  /** The restoring step: with b the next dividend bit, the new remainder is 2r + b, less d once if that reaches d. */
  lemma DivStep(m: nat, b: nat, d: nat)
    requires b <= 1 && d > 0
    ensures 2 * (m % d) + b >= d ==> (2 * m + b) / d == 2 * (m / d) + 1 && (2 * m + b) % d == 2 * (m % d) + b - d
    ensures 2 * (m % d) + b < d ==> (2 * m + b) / d == 2 * (m / d) && (2 * m + b) % d == 2 * (m % d) + b
  {
    var r0 := 2 * (m % d) + b;
    assert 2 * m + b == (2 * (m / d)) * d + r0;
    if r0 >= d {
      DivModUnique(2 * m + b, d, 2 * (m / d) + 1, r0 - d);
    } else {
      DivModUnique(2 * m + b, d, 2 * (m / d), r0);
    }
  }

  /** `(2k + c) << i == (k << (i+1)) + (c << i)`: the decided quotient moves up one place. */
  lemma QuotientShift(k: nat, c: nat, i: nat)
    ensures (2 * k + c) * Pow2(i) == k * Pow2(i + 1) + c * Pow2(i)
  {
    var p := Pow2(i);
    assert Pow2(i + 1) == 2 * p;
    assert (2 * k + c) * p == k * (2 * p) + c * p;
  }

  /** Bit i of `k << (i+1)` is clear, so setting it adds 2^i. */
  lemma QuotientBitClear(k: nat, i: nat)
    ensures OrBit(k * Pow2(i + 1), i) == k * Pow2(i + 1) + Pow2(i)
  {
    var x := k * Pow2(i + 1);
    assert x == (2 * k) * Pow2(i);
    assert BitAt(x, i) == 0 by { DivModUnique(x, Pow2(i), 2 * k, 0); }
  }

  /** With every bit above i set, bit i is still clear. */
  lemma AllOnesAbove(i: nat)
    requires i <= 63
    ensures Pow2(i + 1) <= Word64 && OrBit(Word64 - Pow2(i + 1), i) == Word64 - Pow2(i)
  {
    Pow2Values();
    Pow2Monotone(i + 1, 64);
    Pow2Add(63 - i, i + 1);
    var p, w := Pow2(63 - i), Pow2(i + 1);
    assert Word64 == p * w;
    MulPred(p, w);
    QuotientBitClear(p - 1, i);
  }
}
