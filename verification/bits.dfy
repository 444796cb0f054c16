/**
 * Powers of two and the lowest set bit of a positive integer, shared by the
 * farm's round count and the MPI merge tree.
 */
module Bits {

  function Pow2(k: nat): (r: nat)
    ensures r >= 1
  {
    if k == 0 then 1 else 2 * Pow2(k - 1)
  }

  /** Powers of two grow with the exponent. */
  lemma {:induction false} Pow2Monotone(a: nat, b: nat)
    requires a <= b
    ensures Pow2(a) <= Pow2(b)
    decreases b
  {
    if a < b {
      Pow2Monotone(a, b - 1);
    }
  }

  /** The exponent of the largest power of two dividing `x`. */
  function LowExp(x: nat): nat
    requires x > 0
    decreases x
  {
    if x % 2 == 1 then 0 else 1 + LowExp(x / 2)
  }

  /** `lowbit(x)`: the largest power of two dividing `x`. */
  function LowBit(x: nat): nat
    requires x > 0
  {
    Pow2(LowExp(x))
  }

  /** The remainder is determined by any decomposition `x == m * q + r` with `0 <= r < m`. */
  lemma ModUnique(x: nat, m: nat, q: nat, r: nat)
    requires m > 0 && r < m && x == m * q + r
    ensures x % m == r && x / m == q
  {
    MulGap(m, q, x / m);
    MulGap(m, x / m, q);
  }

  /** Distinct multiples of `m` lie at least `m` apart. */
  lemma MulGap(m: nat, a: int, b: int)
    requires m > 0
    ensures a < b ==> m * a + m <= m * b
  {
    if a < b {
      var d: nat := b - a - 1;
      MulNonneg(m, d);
      assert m * b == m * a + m * (d + 1);
      assert m * (d + 1) == m * d + m;
    }
  }

  /** `x` is `lowbit(x)` times an odd number. */
  lemma {:induction false} LowFactor(x: nat) returns (q: nat)
    requires x > 0
    ensures x == Pow2(LowExp(x)) * q && q % 2 == 1
    decreases x
  {
    if x % 2 == 1 {
      q := x;
    } else {
      var h := x / 2;
      var q' := LowFactor(h);
      q := q';
      assert x == 2 * h;
      assert Pow2(LowExp(x)) == 2 * Pow2(LowExp(h));
    }
  }

  /** The lowest set bit of `2^k * q`, `q` odd, is bit `k`. */
  lemma {:induction false} LowExpOfOddMultiple(k: nat, q: nat)
    requires q % 2 == 1
    ensures LowExp(Pow2(k) * q) == k
    decreases k
  {
    if k > 0 {
      var x := Pow2(k) * q;
      assert x == 2 * (Pow2(k - 1) * q);
      ModUnique(x, 2, Pow2(k - 1) * q, 0);
      LowExpOfOddMultiple(k - 1, q);
    } else {
      assert Pow2(0) * q == q;
    }
  }

  /** A positive multiple of `2^k` has its lowest set bit at `k` or above. */
  lemma {:induction false} LowExpOfMultiple(k: nat, t: nat)
    requires t > 0
    ensures LowExp(Pow2(k) * t) >= k
    decreases k
  {
    if k > 0 {
      var x := Pow2(k) * t;
      assert x == 2 * (Pow2(k - 1) * t);
      ModUnique(x, 2, Pow2(k - 1) * t, 0);
      LowExpOfMultiple(k - 1, t);
    }
  }

  /**
   * Below the lowest set bit of `x` the group `2^(k+1)` divides `x`; at the
   * lowest set bit, `x` leaves remainder `2^k`.
   */
  lemma ModAtLowBit(x: nat, k: nat)
    requires x > 0 && k <= LowExp(x)
    ensures k < LowExp(x) ==> x % Pow2(k + 1) == 0
    ensures k == LowExp(x) ==> x % Pow2(k + 1) == Pow2(k)
  {
    var q := LowFactor(x);
    if k < LowExp(x) {
      BelowLowBit(x, q, k);
    } else {
      AtLowBit(x, q, k);
    }
  }

  lemma BelowLowBit(x: nat, q: nat, k: nat)
    requires x > 0 && k < LowExp(x) && x == Pow2(LowExp(x)) * q
    ensures x % Pow2(k + 1) == 0
  {
    var j := LowExp(x);
    var g := Pow2(k + 1);
    Pow2Split(k + 1, j);
    var c := Pow2(j - (k + 1));
    assert Pow2(j) == g * c;
    MulAssoc(g, c, q);
    ModUnique(x, g, c * q, 0);
  }

  lemma AtLowBit(x: nat, q: nat, k: nat)
    requires x > 0 && q % 2 == 1 && x == Pow2(k) * q
    ensures x % Pow2(k + 1) == Pow2(k)
  {
    var p := Pow2(k);
    var h := q / 2;
    assert q == 2 * h + 1;
    assert p * q == p * (2 * h) + p;
    MulAssoc(2, p, h);
    assert p * (2 * h) == (2 * p) * h;
    ModUnique(x, 2 * p, h, p);
  }

  lemma MulAssoc(a: nat, b: nat, c: nat)
    ensures (a * b) * c == a * (b * c)
  {
  }

  /** `2^b == 2^a * 2^(b - a)`. */
  lemma {:induction false} Pow2Split(a: nat, b: nat)
    requires a <= b
    ensures Pow2(b) == Pow2(a) * Pow2(b - a)
    decreases b
  {
    if a < b {
      Pow2Split(a, b - 1);
      assert Pow2(b) == 2 * Pow2(b - 1);
      assert Pow2(b - a) == 2 * Pow2(b - 1 - a);
    }
  }

  /** `lowbit(x) <= x`, so `x - lowbit(x)` is a natural number. */
  lemma LowBitBound(x: nat)
    requires x > 0
    ensures LowBit(x) <= x
  {
    var q := LowFactor(x);
    var l := LowBit(x);
    var d: nat := q - 1;
    MulNonneg(l, d);
    assert x == l * (d + 1);
    assert l * (d + 1) == l * d + l;
  }

  lemma MulNonneg(a: nat, b: nat)
    ensures a * b >= 0
  {
  }

  /** Removing the lowest set bit leaves a multiple of the next power of two. */
  lemma OddMinusOne(a: nat, q: nat)
    requires q % 2 == 1
    ensures a * q - a == (2 * a) * ((q - 1) / 2)
  {
    var h := (q - 1) / 2;
    assert q == 2 * h + 1;
    assert a * q == a * (2 * h) + a;
    MulAssoc(a, 2, h);
    MulAssoc(2, a, h);
  }

  /** Clearing the lowest set bit leaves zero or a number whose lowest set bit is higher. */
  lemma ClearLowBit(x: nat)
    requires x > 0
    ensures LowBit(x) <= x && (x - LowBit(x) == 0 || LowExp(x - LowBit(x)) > LowExp(x))
  {
    LowBitBound(x);
    var j := LowExp(x);
    var q := LowFactor(x);
    var h := (q - 1) / 2;
    OddMinusOne(Pow2(j), q);
    var m := Pow2(j + 1) * h;
    assert x - LowBit(x) == m;
    if h > 0 {
      LowExpOfMultiple(j + 1, h);
    }
  }
}
