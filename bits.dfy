// Arithmetic shared by the models of time.c and printk.c: powers of two and
// the uniqueness of Euclidean division, which is how shifts and masks on
// unsigned words are reasoned about once they are written as `/`, `%` and `*`.
module Bits {

  /** 2 to the power k, i.e. the value of `1 << k` on an unbounded word. */
  function Pow2(k: nat): (r: nat)
    ensures r > 0
  {
    if k == 0 then 1 else 2 * Pow2(k - 1)
  }

  /** 2^64, the modulus of `uint64_t` arithmetic. */
  const Word64: nat := 0x1_0000_0000_0000_0000

  /** 2^32, the modulus of `unsigned int` arithmetic on the kernel's target. */
  const Word32: nat := 0x1_0000_0000

  lemma {:induction false} Pow2Add(a: nat, b: nat)
    ensures Pow2(a + b) == Pow2(a) * Pow2(b)
  {
    if a > 0 {
      Pow2Add(a - 1, b);
      assert Pow2(a + b) == 2 * Pow2(a - 1 + b);
    }
  }

  lemma Pow2Values()
    ensures Pow2(4) == 16 && Pow2(32) == Word32 && Pow2(64) == Word64
  {
    assert Pow2(1) == 2 * Pow2(0) == 2;
    Pow2Add(1, 1);
    Pow2Add(2, 2);
    assert Pow2(4) == 16;
    Pow2Add(4, 4);
    assert Pow2(8) == 0x100;
    Pow2Add(8, 8);
    assert Pow2(16) == 0x1_0000;
    Pow2Add(16, 16);
    assert Pow2(32) == Word32;
    Pow2Add(32, 32);
  }

  lemma Pow2Monotone(a: nat, b: nat)
    requires a <= b
    ensures Pow2(a) <= Pow2(b)
  {
    Pow2Add(a, b - a);
    assert Pow2(b) == Pow2(a) * Pow2(b - a);
  }

  lemma MulAtLeast(k: int, m: int)
    requires k >= 1 && m > 0
    ensures k * m >= m
  {
    var j := k - 1;
    assert k * m == j * m + m;
  }

  lemma MulMonotone(a: int, b: int, c: int)
    requires a <= b && c >= 0
    ensures a * c <= b * c
  {
    assert b * c - a * c == (b - a) * c;
  }

  lemma DivRecompose(x: nat, m: nat)
    requires m > 0
    ensures x == (x / m) * m + x % m && 0 <= x % m < m && x / m >= 0
  {
  }

  lemma MulPred(p: int, w: int)
    ensures (p - 1) * w == p * w - w
  {
  }

  /** Euclidean division is unique: a quotient and a remainder in range are the ones `/` and `%` give. */
  lemma DivModUnique(x: int, m: int, q: int, r: int)
    requires m > 0 && 0 <= r < m && x == q * m + r
    ensures x / m == q && x % m == r
  {
    var q0, r0 := x / m, x % m;
    assert x == q0 * m + r0;
    assert (q0 - q) * m == r - r0 by {
      assert (q0 - q) * m == q0 * m - q * m;
    }
    if q0 > q {
      MulAtLeast(q0 - q, m);
    } else if q0 < q {
      MulAtLeast(q - q0, m);
    }
  }

  /** Dividing by a then by b is dividing by a * b (a right shift split in two). */
  lemma DivDiv(x: nat, a: nat, b: nat)
    requires a > 0 && b > 0
    ensures x / (a * b) == (x / a) / b
  {
    var q, r := x / a, x % a;
    var q2, r2 := q / b, q % b;
    NestedRemainder(x, a, b, q, r, q2, r2);
    DivModUnique(x, a * b, q2, a * r2 + r);
  }

  lemma NestedRemainder(x: int, a: int, b: int, q: int, r: int, q2: int, r2: int)
    requires a > 0 && b > 0 && 0 <= r < a && 0 <= r2 < b
    requires x == q * a + r && q == q2 * b + r2
    ensures x == q2 * (a * b) + (a * r2 + r) && 0 <= a * r2 + r < a * b
  {
    MulDistrib(q2 * b, r2, a);
    MulAssoc(q2, b, a);
    MulBelow(a, r2, b);
  }

  lemma MulDistrib(u: int, v: int, w: int)
    ensures (u + v) * w == u * w + w * v
  {
  }

  lemma MulAssoc(u: int, v: int, w: int)
    ensures (u * v) * w == u * (w * v)
  {
  }

  /** a * r2 + r stays below a * b when r2 < b and r < a. */
  lemma MulBelow(a: int, r2: int, b: int)
    requires a > 0 && 0 <= r2 < b
    ensures 0 <= a * r2 && a * r2 + a <= a * b
  {
    MulAtLeast(b - r2, a);
    assert (b - r2) * a == a * b - a * r2;
  }
}
