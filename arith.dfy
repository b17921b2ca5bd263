/** Small facts of real arithmetic that the solver does not find on its own
    (products and quotients with symbolic factors). */
module RealArith {

  lemma ScaleMonotone(x: real, y: real, c: real)
    requires x <= y && c >= 0.0
    ensures x * c <= y * c
  {
    assert (y - x) * c >= 0.0;
  }

  lemma ScaleStrict(x: real, y: real, c: real)
    requires x < y && c > 0.0
    ensures x * c < y * c
  {
    assert (y - x) * c > 0.0;
  }

  /** A fraction in [0, 1] of a non-negative amount is at most that amount. */
  lemma FractionOf(p: real, delta: real)
    requires 0.0 <= p <= 1.0 && delta >= 0.0
    ensures 0.0 <= p * delta <= delta
  {
    ScaleMonotone(0.0, p, delta);
    ScaleMonotone(p, 1.0, delta);
  }

  lemma ProductPositive(p: real, q: real)
    requires p > 0.0 && q > 0.0
    ensures p * q > 0.0
  {
  }

  lemma QuotientBelowOne(x: real, u: real)
    ensures 0.0 <= x < u ==> 0.0 <= x / u < 1.0
  {
    if 0.0 <= x < u {
      var q := x / u;
      assert q * u == x;
      if q >= 1.0 {
        ScaleMonotone(1.0, q, u);
      }
      if q < 0.0 {
        ScaleMonotone(q, 0.0, u);
      }
    }
  }

  lemma QuotientZeroIff(x: real, u: real)
    requires u > 0.0
    ensures x / u == 0.0 <==> x == 0.0
  {
    var q := x / u;
    assert q * u == x;
  }

  lemma QuotientAtLeast(x: real, n: real, c: real)
    requires n > 0.0 && x >= n * c
    ensures x / n >= c
  {
    var m := x / n;
    assert m * n == x;
    if m < c {
      ScaleStrict(m, c, n);
    }
  }

  lemma QuotientPositive(x: real, n: real)
    requires n > 0.0 && x > 0.0
    ensures x / n > 0.0
  {
    var m := x / n;
    assert m * n == x;
    if m <= 0.0 {
      ScaleMonotone(m, 0.0, n);
    }
  }

  lemma QuotientNearOne(n: real, e: real)
    requires 0.0 < e < 1.0
    ensures n >= 1.0 ==> n / (n + e) > 1.0 - e
  {
    if n >= 1.0 {
      QuotientNearOneAt(n, e);
    }
  }

  lemma QuotientNearOneAt(n: real, e: real)
    requires n >= 1.0 && 0.0 < e < 1.0
    ensures n / (n + e) > 1.0 - e
  {
    var q := n / (n + e);
    var d := n + e;
    assert q * d == n;
    var lower := (1.0 - e) * d;
    assert lower == n - e * (d - 1.0);
    assert e * (d - 1.0) > 0.0;
    assert lower < n;
    if q <= 1.0 - e {
      ScaleMonotone(q, 1.0 - e, d);
    }
  }

  /** One step of a running sum of precision times recall increase stays
      between 0 and the recall reached. */
  lemma AreaStep(before: real, p: real, rPrev: real, rNext: real)
    requires 0.0 <= before <= rPrev <= rNext && 0.0 <= p <= 1.0
    ensures 0.0 <= before + p * (rNext - rPrev) <= rNext
  {
    var d := rNext - rPrev;
    FractionOf(p, d);
    var m := p * d;
    assert 0.0 <= m <= d;
  }

  lemma QuotientSum(a: real, b: real, d: real)
    requires d != 0.0
    ensures a / d + b / d == (a + b) / d
  {
  }
}
