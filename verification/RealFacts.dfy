/** The few facts about products and quotients of reals that the solver needs pointed out. */
module RealFacts {
  lemma ProductNonNegative(a: real, b: real)
    requires a >= 0.0 && b >= 0.0
    ensures a * b >= 0.0
  {
  }

  lemma ProductMonotone(a: real, b: real, c: real, d: real)
    requires 0.0 <= a <= b && 0.0 <= c <= d
    ensures 0.0 <= a * c <= b * d
  {
    ProductNonNegative(a, c);
    ProductNonNegative(a, d - c);
    ProductNonNegative(b - a, d);
    assert a * (d - c) == a * d - a * c;
    assert (b - a) * d == b * d - a * d;
  }

  lemma SquareZero(a: real)
    ensures a * a >= 0.0 && (a * a == 0.0 <==> a == 0.0)
  {
    if a == 0.0 {
      assert a * a == 0.0;
    } else {
      var b := if a < 0.0 then -a else a;
      ProductNonNegative(b, b);
      assert a * a == b * b && b * b / b == b;
    }
  }

  lemma QuotientTimes(a: real, b: real)
    requires b != 0.0
    ensures a / b * b == a
  {
  }

  lemma QuotientMonotone(a: real, b: real, d: real)
    requires d > 0.0 && a <= b
    ensures a / d <= b / d
  {
    QuotientTimes(a, d);
    QuotientTimes(b, d);
    var x, y := a / d, b / d;
    if x > y {
      assert (x - y) * d > 0.0;
      assert (x - y) * d == x * d - y * d;
    }
  }

  lemma ProductNonPositive(a: real, b: real)
    requires a <= 0.0 && b >= 0.0
    ensures a * b <= 0.0
  {
    ProductNonNegative(-a, b);
    assert (-a) * b == -(a * b);
  }

  lemma FactorPositive(a: real, b: real)
    requires b > 0.0 && a * b > 0.0
    ensures a > 0.0
  {
    if a <= 0.0 {
      ProductNonPositive(a, b);
    }
  }

  lemma CancelFactor(a: real, b: real, d: real)
    requires d != 0.0 && a * d == b * d
    ensures a == b
  {
    assert (a - b) * d == 0.0;
  }

  /** Dividing a reciprocal by a positive total. */
  lemma ShareOfReciprocal(r: real, s: real, total: real)
    requires r > 0.0 && r * s == 1.0 && total > 0.0
    ensures r / total > 0.0 && r / total * s == 1.0 / total
  {
    var q := r / total;
    QuotientTimes(r, total);
    FactorPositive(q, total);
    QuotientTimes(1.0, total);
    assert q * s * total == q * total * s;
    CancelFactor(q * s, 1.0 / total, total);
  }

  lemma QuotientIs(a: real, b: real, q: real)
    requires b != 0.0 && q * b == a
    ensures a / b == q
  {
  }
}
