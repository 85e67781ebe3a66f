/** Integer facts about division that the block geometry relies on. */
module Arith {

  /** Euclidean division is unique: q and m are the quotient and remainder of q*d + m. */
  lemma DivModUnique(k: int, d: int, q: int, m: int)
    requires d > 0 && 0 <= m < d && k == q * d + m
    ensures k / d == q && k % d == m
  {
    var q', m' := k / d, k % d;
    assert k == q' * d + m';
    assert (q - q') * d == m' - m;
    if q > q' {
      MulAtLeast(q - q', d);
    } else if q < q' {
      MulAtLeast(q' - q, d);
    }
  }

  lemma MulAtLeast(a: int, d: int)
    requires a >= 1 && d > 0
    ensures a * d >= d
  {
  }

  /** A number below a*b has a quotient by b below a. */
  lemma QuotientBelow(k: int, a: int, b: int)
    requires 0 <= k < a * b && b > 0
    ensures 0 <= k / b < a
  {
    var q := k / b;
    if q >= a {
      assert q * b >= a * b by { MulMonotone(a, q, b); }
    }
  }

  lemma MulMonotone(a: int, q: int, b: int)
    requires 0 <= a <= q && b >= 0
    ensures a * b <= q * b
  {
  }

  /** A product below which some number lies has a positive second factor. */
  lemma PositiveFactor(k: int, a: int, b: int)
    requires 0 <= k < a * b && a >= 0 && b >= 0
    ensures b > 0 && a > 0
  {
  }

  /** The last element of row r, column c < b, still lies below (r+1)*b. */
  lemma RowMajorBelow(r: int, c: int, b: int, a: int)
    requires 0 <= r < a && 0 <= c < b
    ensures r * b + c < a * b
  {
    MulMonotone(r + 1, a, b);
  }

  // ----------------------------------------------------------------------
  // Ratios of counts, as exact reals
  // ----------------------------------------------------------------------

  lemma PositiveProduct(a: real, b: real)
    requires a > 0.0 && b > 0.0
    ensures a * b > 0.0
  {
  }

  /** Comparing `y / x` with `t` is comparing `y` with `t * x`, for a positive `x`. */
  lemma QuotientCompare(y: real, x: real, t: real)
    requires x > 0.0
    ensures y / x > t <==> y > t * x
    ensures y / x < t <==> y < t * x
  {
    var r := y / x;
    assert r * x == y;
    if r > t {
      PositiveProduct(r - t, x);
      assert (r - t) * x == r * x - t * x;
    } else if r < t {
      PositiveProduct(t - r, x);
      assert (t - r) * x == t * x - r * x;
    } else {
      assert r * x == t * x;
    }
  }

  /** How the ratio `m / n` of two counts compares with one half and with one. */
  lemma RatioFacts(m: nat, n: nat)
    requires n > 0
    ensures m as real / n as real > 0.5 <==> 2 * m > n
    ensures m as real / n as real < 0.5 <==> 2 * m < n
    ensures m as real / n as real < 1.0 <==> m < n
    ensures m as real / n as real > 1.0 <==> m > n
  {
    QuotientCompare(m as real, n as real, 0.5);
    QuotientCompare(m as real, n as real, 1.0);
    assert (2 * m) as real == 2.0 * (m as real);
  }
}
