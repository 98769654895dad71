/** Products, quotients and remainders of integers. */
module IntFacts {
  lemma TwiceProduct(x: int, p: int)
    ensures x * (2 * p) == 2 * (x * p)
  {
  }

  lemma ProductGap(d: nat, q: int, q': int)
    requires q < q'
    ensures d * q + d <= d * q'
  {
    assert d * (q' - q - 1) >= 0;
    assert d * (q' - q - 1) == d * q' - d * q - d;
  }

  lemma ModUnique(y: int, d: nat, q: int, r: nat)
    requires d > 0 && y == d * q + r && r < d
    ensures y % d == r && y / d == q
  {
    var q', r' := y / d, y % d;
    assert y == d * q' + r';
    if q' > q {
      ProductGap(d, q, q');
    } else if q' < q {
      ProductGap(d, q', q);
    }
  }

  /** Halving after dividing is dividing by twice as much. */
  lemma HalfDiv(x: nat, a: nat)
    requires a > 0
    ensures x / (2 * a) == x / a / 2
  {
    var q, r := x / a, x % a;
    var q2, r2 := q / 2, q % 2;
    assert x == a * q + r;
    assert a * (2 * q2 + r2) == 2 * (a * q2) + a * r2;
    assert (2 * a) * q2 == 2 * (a * q2);
    assert a * r2 == if r2 == 0 then 0 else a;
    ModUnique(x, 2 * a, q2, a * r2 + r);
  }

  /** Halving and reducing by m shows all but the last of the low bits. */
  lemma HalfMod(y: nat, m: nat)
    requires m > 0
    ensures y % (2 * m) == 2 * (y / 2 % m) + y % 2
  {
    var h := y / 2;
    var q, r := h / m, h % m;
    assert h == m * q + r;
    assert (2 * m) * q == 2 * (m * q);
    ModUnique(y, 2 * m, q, 2 * r + y % 2);
  }
}
