/** Facts about quotients and remainders that the solver does not find on its own. */
module Arith {

  lemma MulGrows(d: nat, k: int)
    ensures k >= 1 ==> d * k >= d
    ensures k <= -1 ==> d * k + d <= 0
  {
  }

  /** Quotient and remainder are unique. */
  lemma DivModUnique(v: int, d: nat, q: int, r: nat)
    requires r < d && v == d * q + r
    ensures v / d == q && v % d == r
  {
    MulGrows(d, v / d - q);
    assert d * (v / d - q) == r - v % d;
  }

  /** 2 to the power k. */
  function Pow2(k: nat): (p: nat)
    ensures 0 < p
  {
    if k == 0 then 1 else 2 * Pow2(k - 1)
  }

  lemma {:induction false} Pow2Adds(j: nat, k: nat)
    ensures Pow2(j + k) == Pow2(j) * Pow2(k)
  {
    if j > 0 {
      Pow2Adds(j - 1, k);
      DoubledProduct(Pow2(j - 1), Pow2(k));
    }
  }

  lemma DoubledProduct(p: nat, q: nat)
    ensures 2 * (p * q) == (2 * p) * q
  {
  }

  lemma DivTwice(v: nat, d: nat, e: nat)
    requires 0 < d && 0 < e
    ensures 0 < d * e && v / (d * e) == v / d / e
  {
    var q := v / d;
    DivTwiceOf(d, e, q, v - d * q, q / e, q - e * (q / e));
  }

  lemma DivTwiceOf(d: nat, e: nat, q: nat, m: nat, p: nat, r: nat)
    requires m < d && r < e && q == e * p + r
    ensures 0 < d * e && (d * q + m) / (d * e) == p
  {
    Regroup(d, e, p, r);
    RestFits(d, e, r, m);
    DivModUnique(d * q + m, d * e, p, d * r + m);
  }

  lemma Regroup(d: nat, e: nat, p: nat, r: nat)
    ensures d * (e * p + r) == (d * e) * p + d * r
  {
  }

  lemma RestFits(d: nat, e: nat, r: nat, m: nat)
    requires m < d && r < e
    ensures 0 <= d * r + m < d * e
  {
    assert d * e == d * r + d * (e - r);
    MulGrows(d, e - r);
  }

  /** Bit i of the number n. */
  function Bit(n: nat, i: nat): nat {
    n / Pow2(i) % 2
  }

  /** k * m, by repeated addition: what the solver may unfold of a product of two variables. */
  function Times(k: nat, m: nat): nat {
    if k == 0 then 0 else Times(k - 1, m) + m
  }

  lemma {:induction false} TimesIsProduct(k: nat, m: nat)
    ensures Times(k, m) == k * m
  {
    if k > 0 {
      TimesIsProduct(k - 1, m);
    }
  }

  lemma {:induction false} TimesGrows(a: nat, b: nat, m: nat)
    ensures a <= b ==> Times(a, m) <= Times(b, m)
    ensures a < b ==> Times(a, m) + m <= Times(b, m)
    decreases b
  {
    if a < b {
      TimesGrows(a, b - 1, m);
    }
  }

  /** Division with remainder. */
  lemma Divided(v: nat, d: nat)
    requires d > 0
    ensures Times(v / d, d) + v % d == v && v % d < d
  {
    TimesIsProduct(v / d, d);
  }

  lemma DividedUnique(v: nat, d: nat, q: nat, r: nat)
    requires r < d && v == Times(q, d) + r
    ensures v / d == q && v % d == r
  {
    TimesIsProduct(q, d);
    DivModUnique(v, d, q, r);
  }

  predicate PowerOfTwo(n: nat) {
    n == 1 || (n % 2 == 0 && 0 < n && PowerOfTwo(n / 2))
  }

  /** x & m and x & ~m, bit by bit. */
  function And(x: nat, m: nat): nat {
    if x == 0 then 0 else 2 * And(x / 2, m / 2) + x % 2 * (m % 2)
  }

  function AndNot(x: nat, m: nat): nat {
    if x == 0 then 0 else 2 * AndNot(x / 2, m / 2) + x % 2 * (1 - m % 2)
  }

  /** A mask of n - 1 leaves the remainder of the division by a power of two, its complement takes it off. */
  lemma {:induction false} MaskIsRemainder(x: nat, n: nat)
    requires PowerOfTwo(n)
    ensures And(x, n - 1) == x % n && AndNot(x, n - 1) == x - x % n
    decreases n
  {
    if n == 1 {
      NoMask(x);
    } else {
      MaskIsRemainder(x / 2, n / 2);
      var k := n / 2;
      assert (n - 1) / 2 == k - 1 && (n - 1) % 2 == 1;
      Halves(x, k);
    }
  }

  lemma {:induction false} NoMask(x: nat)
    ensures And(x, 0) == 0 && AndNot(x, 0) == x
  {
    if x > 0 {
      NoMask(x / 2);
    }
  }

  lemma Halves(x: nat, k: nat)
    requires 0 < k
    ensures x % (2 * k) == 2 * (x / 2 % k) + x % 2
  {
    var q, r := x / 2 / k, x / 2 % k;
    assert x == 2 * (k * q + r) + x % 2;
    assert 2 * (k * q) == (2 * k) * q;
    DivModUnique(x, 2 * k, q, 2 * r + x % 2);
  }
}
