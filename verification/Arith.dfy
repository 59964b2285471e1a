/** Facts about Euclidean division and remainder on natural numbers that the
    index arithmetic of the slab decomposition relies on. On non-negative
    operands Dafny's `/` and `%` agree with C++'s truncating operators. */
module Arith {

  lemma MulPositiveAtLeast(c: int, m: int)
    requires c >= 1 && m > 0
    ensures c * m >= m
  {
    assert c * m == (c - 1) * m + m;
  }

  /** Division and remainder are determined by any representation
      `x == q * m + r` with `0 <= r < m`. */
  lemma DivModUnique(x: int, q: int, r: int, m: int)
    requires m > 0 && 0 <= r < m && x == q * m + r
    ensures x / m == q && x % m == r
  {
    var q', r' := x / m, x % m;
    assert x == q' * m + r';
    assert (q - q') * m == r' - r by {
      assert q * m - q' * m == (q - q') * m;
    }
    if q - q' >= 1 {
      MulPositiveAtLeast(q - q', m);
    } else if q' - q >= 1 {
      MulPositiveAtLeast(q' - q, m);
    }
  }

  /** A natural number is its quotient times `m` plus its remainder. */
  lemma DivModParts(v: nat, m: nat)
    requires m > 0
    ensures v / m >= 0 && 0 <= v % m < m && v == (v / m) * m + v % m
  {
  }

  /** Adding a multiple of `m` shifts the quotient and keeps the remainder. */
  lemma DivModAddMultiple(a: nat, m: nat, b: nat)
    requires m > 0
    ensures (a * m + b) / m == a + b / m
    ensures (a * m + b) % m == b % m
  {
    var q, r := b / m, b % m;
    assert a * m + b == (a + q) * m + r;
    DivModUnique(a * m + b, a + q, r, m);
  }

  /** Multiplication distributes over addition. */
  lemma MulAddDistrib(a: int, b: int, m: int)
    ensures (a + b) * m == a * m + b * m
  {
  }

  /** Multiplying by a non-negative factor keeps the order. */
  lemma MulLeMono(a: int, b: int, m: int)
    requires a <= b && m >= 0
    ensures a * m <= b * m
  {
    MulAddDistrib(a, b - a, m);
  }

  /** Upper bound of a mixed-radix number with digits below `m`. */
  lemma MixedRadixBound(hi: nat, lo: nat, m: nat, n: nat)
    requires lo < m && hi < n
    ensures hi * m + lo < n * m
  {
    MulAddDistrib(hi, 1, m);
    MulLeMono(hi + 1, n, m);
  }

  /** The three digits of `hi * m * m + mid * m + lo` in base `m` are
      `lo`, `mid` and `hi`, least significant first. */
  lemma MixedRadixDecode(hi: nat, mid: nat, lo: nat, m: nat)
    requires mid < m && lo < m
    ensures var v := hi * m * m + mid * m + lo;
      && v % m == lo && (v / m) % m == mid && v / (m * m) == hi
  {
    var v := hi * m * m + mid * m + lo;
    var q := hi * m + mid;
    MulAddDistrib(hi * m, mid, m);
    DivModUnique(v, q, lo, m);
    DivModUnique(q, hi, mid, m);
    MixedRadixBound(mid, lo, m, m);
    assert hi * m * m == hi * (m * m);
    DivModUnique(v, hi, mid * m + lo, m * m);
  }

  /** Every natural number is the mixed-radix number of its own three
      base-`m` digits. */
  lemma MixedRadixEncode(v: nat, m: nat)
    requires m > 0
    ensures v == (v / (m * m)) * m * m + ((v / m) % m) * m + v % m
  {
    var q := v / m;
    DivModParts(v, m);
    DivModParts(q, m);
    var hi, mid, lo := q / m, q % m, v % m;
    MulAddDistrib(hi * m, mid, m);
    assert v == hi * m * m + mid * m + lo;
    MixedRadixDecode(hi, mid, lo, m);
  }

  /** The quotient by `k` of a number below `k * n` is below `n`. */
  lemma QuotientBound(v: nat, k: nat, n: nat)
    requires k > 0 && v < k * n
    ensures v / k < n
  {
    var hi := v / k;
    assert hi * k <= v;
    assert k * n == n * k;
    MulCancelLess(hi, n, k);
  }

  /** A product inequality with a common positive factor cancels. */
  lemma MulCancelLess(a: int, b: int, m: int)
    requires m > 0 && a * m < b * m
    ensures a < b
  {
    assert (b - a) * m > 0;
  }
}
