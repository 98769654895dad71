/** Variogram models.  The real functions of the math library are a parameter, known by their laws only. */
module Variogram {
  import opened RealFacts

  datatype SamplePoint = SamplePoint(x: real, y: real, value: real)

  datatype Maths = Maths(sqrt: real -> real, exp: real -> real, cos: real -> real, sin: real -> real)

  ghost predicate SqrtLaw(f: Maths) {
    forall x :: x >= 0.0 ==> f.sqrt(x) >= 0.0 && f.sqrt(x) * f.sqrt(x) == x
  }

  ghost predicate ExpLaw(f: Maths) {
    && f.exp(0.0) == 1.0
    && (forall x :: f.exp(x) > 0.0)
    && forall x, y :: x <= y ==> f.exp(x) <= f.exp(y)
  }

  /** Powers multiply when exponents add. */
  ghost predicate ExpSums(f: Maths) {
    forall x, y :: f.exp(x + y) == f.exp(x) * f.exp(y)
  }

  ghost predicate CircleLaw(f: Maths) {
    forall a :: f.cos(a) * f.cos(a) + f.sin(a) * f.sin(a) == 1.0
  }

  datatype Model = Spherical | Exponential | Gaussian | Unknown

  datatype Params = Params(model: Model, nugget: real, sill: real, range: real, anisoAngle: real, anisoRatio: real)

  /** Parameters for which no division by zero can happen; only two of the models divide by the range whatever it is. */
  predicate Usable(v: Params) {
    v.anisoRatio != 0.0 && (v.model == Exponential || v.model == Gaussian ==> v.range != 0.0)
  }

  /** The bell of the Gaussian model. */
  function Bell(f: Maths, hr: real): real {
    f.exp(-3.0 * hr * hr)
  }

  /** The rise of the spherical model. */
  function Rise(hr: real): real {
    1.5 * hr - 0.5 * hr * hr * hr
  }

  function Gamma(v: Params, f: Maths, h: real): real
    requires Usable(v)
  {
    if h <= 0.0 then 0.0
    else match v.model
      case Spherical =>
        if h >= v.range then v.nugget + v.sill
        else
          var hr := h / v.range;
          v.nugget + v.sill * Rise(hr)
      case Exponential =>
        var hr := h / v.range;
        v.nugget + v.sill * (1.0 - f.exp(-3.0 * hr))
      case Gaussian =>
        var hr := h / v.range;
        v.nugget + v.sill * (1.0 - Bell(f, hr))
      case Unknown => v.nugget + v.sill
  }

  function Euclid(f: Maths, dx: real, dy: real): real {
    f.sqrt(dx * dx + dy * dy)
  }

  /** The part of a step that goes along the axis of anisotropy, and the part that goes across it. */
  function Along(v: Params, f: Maths, dx: real, dy: real): real {
    dx * f.cos(v.anisoAngle) + dy * f.sin(v.anisoAngle)
  }

  function Across(v: Params, f: Maths, dx: real, dy: real): real {
    -dx * f.sin(v.anisoAngle) + dy * f.cos(v.anisoAngle)
  }

  function AnisotropicDistance(v: Params, f: Maths, dx: real, dy: real): real
    requires Usable(v)
  {
    if v.anisoRatio == 1.0 then Euclid(f, dx, dy)
    else Euclid(f, Along(v, f, dx, dy), Across(v, f, dx, dy) / v.anisoRatio)
  }

  // ---------- Laws ----------

  lemma SqrtZero(f: Maths, x: real)
    requires SqrtLaw(f) && x >= 0.0
    ensures f.sqrt(x) == 0.0 <==> x == 0.0
  {
    SquareZero(f.sqrt(x));
  }

  /** A point is at distance zero from itself, and its variogram there is zero. */
  lemma GammaAtZero(v: Params, f: Maths)
    requires Usable(v) && SqrtLaw(f)
    ensures AnisotropicDistance(v, f, 0.0, 0.0) == 0.0
    ensures Gamma(v, f, AnisotropicDistance(v, f, 0.0, 0.0)) == 0.0
  {
    SqrtZero(f, 0.0);
    assert Along(v, f, 0.0, 0.0) == 0.0 && Across(v, f, 0.0, 0.0) == 0.0;
    assert 0.0 / v.anisoRatio == 0.0;
  }

  /** The law of Pythagoras. */
  lemma EuclidIsLength(f: Maths, dx: real, dy: real)
    requires SqrtLaw(f)
    ensures Euclid(f, dx, dy) >= 0.0 && Euclid(f, dx, dy) * Euclid(f, dx, dy) == dx * dx + dy * dy
  {
    SquareZero(dx);
    SquareZero(dy);
  }

  /** Steps u along the axis of anisotropy and w across it: those across count for their quotient by the ratio. */
  lemma AnisotropyAcross(v: Params, f: Maths, u: real, w: real, dx: real, dy: real)
    requires Usable(v) && SqrtLaw(f) && CircleLaw(f)
    requires var c, s := f.cos(v.anisoAngle), f.sin(v.anisoAngle); dx == u * c - w * s && dy == u * s + w * c
    ensures var d, q := AnisotropicDistance(v, f, dx, dy), w / v.anisoRatio; d >= 0.0 && d * d == u * u + q * q
  {
    hide Euclid, Along, Across;
    TurnedParts(v, f, u, w, dx, dy);
    if v.anisoRatio == 1.0 {
      EuclidIsLength(f, dx, dy);
      assert w / 1.0 == w;
    } else {
      EuclidIsLength(f, u, w / v.anisoRatio);
    }
  }

  lemma TurnedParts(v: Params, f: Maths, u: real, w: real, dx: real, dy: real)
    requires CircleLaw(f)
    requires var c, s := f.cos(v.anisoAngle), f.sin(v.anisoAngle); dx == u * c - w * s && dy == u * s + w * c
    ensures Along(v, f, dx, dy) == u && Across(v, f, dx, dy) == w && dx * dx + dy * dy == u * u + w * w
  {
    TurnBack(u, w, f.cos(v.anisoAngle), f.sin(v.anisoAngle), dx, dy);
  }

  /** Turning by an angle and back again. */
  lemma TurnBack(u: real, w: real, c: real, s: real, x: real, y: real)
    requires c * c + s * s == 1.0 && x == u * c - w * s && y == u * s + w * c
    ensures x * c + y * s == u && -x * s + y * c == w && x * x + y * y == u * u + w * w
  {
    assert x * c + y * s == u * (c * c + s * s);
    assert -x * s + y * c == w * (c * c + s * s);
    assert x * x + y * y == (u * u + w * w) * (c * c + s * s);
  }

  /** Dissimilarity never shrinks with distance, in any of the models, and never exceeds nugget plus sill. */
  lemma GammaMonotone(v: Params, f: Maths, g: real, h: real)
    requires Usable(v) && v.range >= 0.0 && v.nugget >= 0.0 && v.sill >= 0.0
    requires ExpLaw(f) && g <= h
    ensures 0.0 <= Gamma(v, f, g) <= Gamma(v, f, h) <= v.nugget + v.sill
  {
    hide Gamma, Curve, ExpLaw, Usable;
    GammaIsCurve(v, f, g);
    GammaIsCurve(v, f, h);
    if g > 0.0 {
      CurveMonotone(v, f, g, h);
      ProductMonotone(v.sill, v.sill, Curve(v, f, g), Curve(v, f, h));
      ProductMonotone(v.sill, v.sill, Curve(v, f, h), 1.0);
    } else if h > 0.0 {
      ProductMonotone(v.sill, v.sill, Curve(v, f, h), 1.0);
    }
  }

  /** What multiplies the sill in Gamma, for a positive distance: the share of the sill that is reached. */
  ghost function Curve(v: Params, f: Maths, h: real): (share: real)
    requires Usable(v) && v.range >= 0.0 && ExpLaw(f) && h > 0.0
    ensures 0.0 <= share <= 1.0
  {
    hide ExpLaw, Rise, Bell;
    match v.model
    case Spherical =>
      if h >= v.range then 1.0
      else
        Ratio(h, v.range); RiseMonotone(h / v.range, 1.0);
        Rise(h / v.range)
    case Exponential =>
      Ratio(h, v.range); DecayRange(f, h / v.range);
      1.0 - f.exp(-3.0 * (h / v.range))
    case Gaussian =>
      Ratio(h, v.range); DecayRange(f, h / v.range);
      1.0 - Bell(f, h / v.range)
    case Unknown => 1.0
  }

  lemma GammaIsCurve(v: Params, f: Maths, h: real)
    requires Usable(v) && v.range >= 0.0 && ExpLaw(f)
    ensures Gamma(v, f, h) == if h <= 0.0 then 0.0 else v.nugget + v.sill * Curve(v, f, h)
  {
    if h > 0.0 {
      match v.model
      case Spherical =>
        if h >= v.range {
          assert v.sill * 1.0 == v.sill;
        } else {
          var hr := h / v.range;
          assert Curve(v, f, h) == Rise(hr);
        }
      case Exponential =>
      case Gaussian =>
      case Unknown =>
        assert v.sill * 1.0 == v.sill;
    }
  }

  lemma Ratio(h: real, range: real)
    requires range > 0.0 && h >= 0.0
    ensures h / range >= 0.0 && (h < range ==> h / range <= 1.0)
  {
    QuotientMonotone(0.0, h, range);
    if h < range {
      QuotientMonotone(h, range, range);
      assert range / range == 1.0;
    }
  }

  lemma RiseMonotone(a: real, b: real)
    requires 0.0 <= a <= b <= 1.0
    ensures 0.0 <= Rise(a) <= Rise(b) <= 1.0
  {
    RiseStep(a, b);
    RiseStep(b, 1.0);
    RiseStep(0.0, a);
  }

  lemma RiseStep(a: real, b: real)
    requires 0.0 <= a <= b <= 1.0
    ensures Rise(a) <= Rise(b)
  {
    var q := a * a + a * b + b * b;
    ProductMonotone(a, 1.0, a, 1.0);
    ProductMonotone(a, 1.0, b, 1.0);
    ProductMonotone(b, 1.0, b, 1.0);
    ProductNonNegative(b - a, 1.5 - 0.5 * q);
    assert (b - a) * q == b * b * b - a * a * a;
  }

  lemma DecayRange(f: Maths, hr: real)
    requires ExpLaw(f) && hr >= 0.0
    ensures 0.0 <= 1.0 - f.exp(-3.0 * hr) <= 1.0 && 0.0 <= 1.0 - Bell(f, hr) <= 1.0
  {
    ExponentFalls(0.0, hr);
    assert -3.0 * 0.0 == 0.0 && -3.0 * 0.0 * 0.0 == 0.0;
    assert f.exp(-3.0 * hr) <= f.exp(0.0) && f.exp(-3.0 * hr * hr) <= f.exp(0.0);
  }

  lemma ExponentFalls(gr: real, hr: real)
    requires 0.0 <= gr <= hr
    ensures -3.0 * hr <= -3.0 * gr
    ensures -3.0 * hr * hr <= -3.0 * gr * gr
  {
    ProductMonotone(gr, hr, gr, hr);
    assert -3.0 * hr * hr == -3.0 * (hr * hr) && -3.0 * gr * gr == -3.0 * (gr * gr);
  }

  lemma SphericalRises(v: Params, f: Maths, g: real, h: real)
    requires v.model == Spherical && Usable(v) && v.range >= 0.0 && ExpLaw(f) && 0.0 < g <= h
    ensures Curve(v, f, g) <= Curve(v, f, h)
  {
    if v.range > 0.0 {
      Ratio(g, v.range);
      Ratio(h, v.range);
    }
    if h < v.range {
      QuotientMonotone(g, h, v.range);
      RiseMonotone(g / v.range, h / v.range);
    } else if g < v.range {
      RiseMonotone(g / v.range, 1.0);
    }
  }

  lemma DecayFalls(f: Maths, gr: real, hr: real)
    requires ExpLaw(f) && 0.0 <= gr <= hr
    ensures f.exp(-3.0 * hr) <= f.exp(-3.0 * gr) && Bell(f, hr) <= Bell(f, gr)
  {
    ExponentFalls(gr, hr);
  }

  lemma CurveMonotone(v: Params, f: Maths, g: real, h: real)
    requires Usable(v) && v.range >= 0.0 && ExpLaw(f) && 0.0 < g <= h
    ensures Curve(v, f, g) <= Curve(v, f, h)
  {
    hide ExpLaw, Bell;
    if v.model == Spherical {
      SphericalRises(v, f, g, h);
    } else if v.model != Unknown {
      Ratio(g, v.range);
      QuotientMonotone(g, h, v.range);
      DecayFalls(f, g / v.range, h / v.range);
    }
  }

  // ---------- Which curve each model is ----------

  /**
   How steep the spherical model is: between two distances up to the range, it rises by no less than the slope
   1.5 (1 - b^2) at the farther one and no more than the slope 1.5 (1 - a^2) at the nearer one, for shares a and b of
   the range.
   */
  lemma SphericalSlope(v: Params, f: Maths, g: real, h: real)
    requires v.model == Spherical && Usable(v) && v.sill >= 0.0 && 0.0 < g <= h <= v.range
    ensures var a, b, rise := g / v.range, h / v.range, Gamma(v, f, h) - Gamma(v, f, g);
      v.sill * (1.5 * (1.0 - b * b) * (b - a)) <= rise <= v.sill * (1.5 * (1.0 - a * a) * (b - a))
  {
    hide Rise, Gamma;
    var a, b := g / v.range, h / v.range;
    Ratio(g, v.range);
    Ratio(h, v.range);
    QuotientMonotone(g, h, v.range);
    SphericalIs(v, f, g);
    SphericalIs(v, f, h);
    RiseSlope(a, b);
    Scale(v.sill, 1.5 * (1.0 - b * b) * (b - a), Rise(b) - Rise(a));
    Scale(v.sill, Rise(b) - Rise(a), 1.5 * (1.0 - a * a) * (b - a));
    assert v.sill * (Rise(b) - Rise(a)) == v.sill * Rise(b) - v.sill * Rise(a);
  }

  /** It starts at the nugget, with the slope 1.5, lies above the chord to the sill, and stays there from the range on. */
  lemma SphericalEnds(v: Params, f: Maths, h: real)
    requires v.model == Spherical && Usable(v) && v.sill >= 0.0 && v.range > 0.0 && h > 0.0
    ensures h <= v.range ==>
      var b := h / v.range; v.nugget + v.sill * b <= Gamma(v, f, h) <= v.nugget + v.sill * (1.5 * b)
    ensures h >= v.range ==> Gamma(v, f, h) == v.nugget + v.sill
  {
    hide Rise;
    if h <= v.range {
      var b := h / v.range;
      Ratio(h, v.range);
      SphericalIs(v, f, h);
      RiseEnds(b);
      Scale(v.sill, b, Rise(b));
      Scale(v.sill, Rise(b), 1.5 * b);
    }
  }

  lemma Scale(s: real, x: real, y: real)
    requires s >= 0.0 && x <= y
    ensures s * x <= s * y
  {
    ProductNonNegative(s, y - x);
    assert s * (y - x) == s * y - s * x;
  }

  lemma SphericalIs(v: Params, f: Maths, h: real)
    requires v.model == Spherical && Usable(v) && 0.0 < h <= v.range
    ensures Gamma(v, f, h) == v.nugget + v.sill * Rise(h / v.range)
  {
    if h == v.range {
      assert h / v.range == 1.0 && Rise(1.0) == 1.0;
      assert v.sill * 1.0 == v.sill;
    }
  }

  lemma RiseSlope(a: real, b: real)
    requires 0.0 <= a <= b
    ensures 1.5 * (1.0 - b * b) * (b - a) <= Rise(b) - Rise(a) <= 1.5 * (1.0 - a * a) * (b - a)
  {
    ProductMonotone(a, a, a, b);
    ProductMonotone(a, b, b, b);
    ProductMonotone(a, b, a, b);
    var d, q := b - a, a * a + a * b + b * b;
    assert d * q == b * b * b - a * a * a;
    assert Rise(b) - Rise(a) == 1.5 * d - 0.5 * (d * q);
    RiseStepSlope(d, a * a, q, b * b, Rise(b) - Rise(a));
  }

  lemma RiseStepSlope(d: real, aa: real, q: real, bb: real, rise: real)
    requires d >= 0.0 && 3.0 * aa <= q <= 3.0 * bb && rise == 1.5 * d - 0.5 * (d * q)
    ensures 1.5 * (1.0 - bb) * d <= rise <= 1.5 * (1.0 - aa) * d
  {
    Scale(d, q, 3.0 * bb);
    Scale(d, 3.0 * aa, q);
    assert 1.5 * (1.0 - bb) * d == 1.5 * d - 0.5 * (d * (3.0 * bb));
    assert 1.5 * (1.0 - aa) * d == 1.5 * d - 0.5 * (d * (3.0 * aa));
  }

  lemma RiseEnds(b: real)
    requires 0.0 <= b <= 1.0
    ensures b <= Rise(b) <= 1.5 * b
  {
    ProductMonotone(b, 1.0, b, 1.0);
    Scale(b, b * b, 1.0);
    ProductNonNegative(b, b * b);
    assert Rise(b) == 1.5 * b - 0.5 * (b * (b * b));
  }

  /** No dissimilarity at no distance; all of it, at any other, under an unknown model. */
  lemma GammaElse(v: Params, f: Maths, h: real)
    requires Usable(v)
    ensures h <= 0.0 ==> Gamma(v, f, h) == 0.0
    ensures h > 0.0 && v.model == Unknown ==> Gamma(v, f, h) == v.nugget + v.sill
  {
  }

  /** What is missing of the sill and the nugget at distance h. */
  function Missing(v: Params, f: Maths, h: real): real
    requires Usable(v)
  {
    v.nugget + v.sill - Gamma(v, f, h)
  }

  /** In the exponential model the missing shares multiply when distances add, and at the range exp(-3) is missing. */
  lemma ExponentialShares(v: Params, f: Maths, g: real, h: real)
    requires v.model == Exponential && Usable(v) && ExpSums(f) && g > 0.0 && h > 0.0
    ensures Missing(v, f, g + h) * v.sill == Missing(v, f, g) * Missing(v, f, h)
    ensures v.range > 0.0 ==> Missing(v, f, v.range) == v.sill * f.exp(-3.0)
  {
    hide Gamma, ExpSums;
    var x, y, z := g / v.range, h / v.range, (g + h) / v.range;
    QuotientIs(g + h, v.range, x + y);
    ExponentialMissing(v, f, g, x);
    ExponentialMissing(v, f, h, y);
    ExponentialMissing(v, f, g + h, x + y);
    PowersMultiply(f, -3.0 * x, -3.0 * y, -3.0 * (x + y));
    SharesMultiply(v.sill, f.exp(-3.0 * x), f.exp(-3.0 * y), f.exp(-3.0 * (x + y)));
    if v.range > 0.0 {
      QuotientIs(v.range, v.range, 1.0);
      ExponentialMissing(v, f, v.range, 1.0);
      assert -3.0 * 1.0 == -3.0;
    }
  }

  lemma ExponentialMissing(v: Params, f: Maths, h: real, x: real)
    requires v.model == Exponential && Usable(v) && h > 0.0 && x == h / v.range
    ensures Missing(v, f, h) == v.sill * f.exp(-3.0 * x)
  {
    assert v.sill * (1.0 - f.exp(-3.0 * x)) == v.sill - v.sill * f.exp(-3.0 * x);
  }

  lemma PowersMultiply(f: Maths, x: real, y: real, z: real)
    requires ExpSums(f) && z == x + y
    ensures f.exp(z) == f.exp(x) * f.exp(y)
  {
  }

  lemma SharesMultiply(s: real, x: real, y: real, z: real)
    requires z == x * y
    ensures (s * z) * s == (s * x) * (s * y)
  {
  }

  /** In the Gaussian model they multiply when squared distances add. */
  lemma GaussianShares(v: Params, f: Maths, g: real, h: real, k: real)
    requires v.model == Gaussian && Usable(v) && ExpSums(f) && g > 0.0 && h > 0.0 && k > 0.0 && k * k == g * g + h * h
    ensures Missing(v, f, k) * v.sill == Missing(v, f, g) * Missing(v, f, h)
    ensures v.range > 0.0 ==> Missing(v, f, v.range) == v.sill * f.exp(-3.0)
  {
    hide Gamma, ExpSums, Bell;
    var x, y, z := g / v.range, h / v.range, k / v.range;
    SquaredQuotients(g, h, k, v.range, x, y, z);
    GaussianMissing(v, f, g, x);
    GaussianMissing(v, f, h, y);
    GaussianMissing(v, f, k, z);
    BellIs(f, x);
    BellIs(f, y);
    BellIs(f, z);
    PowersMultiply(f, -3.0 * (x * x), -3.0 * (y * y), -3.0 * (z * z));
    SharesMultiply(v.sill, Bell(f, x), Bell(f, y), Bell(f, z));
    if v.range > 0.0 {
      QuotientIs(v.range, v.range, 1.0);
      GaussianMissing(v, f, v.range, 1.0);
      BellIs(f, 1.0);
      assert -3.0 * (1.0 * 1.0) == -3.0;
    }
  }

  lemma GaussianMissing(v: Params, f: Maths, h: real, x: real)
    requires v.model == Gaussian && Usable(v) && h > 0.0 && x == h / v.range
    ensures Missing(v, f, h) == v.sill * Bell(f, x)
  {
    hide Bell;
    assert v.sill * (1.0 - Bell(f, x)) == v.sill - v.sill * Bell(f, x);
  }

  lemma BellIs(f: Maths, x: real)
    ensures Bell(f, x) == f.exp(-3.0 * (x * x))
  {
    assert -3.0 * x * x == -3.0 * (x * x);
  }

  lemma SquaredQuotients(g: real, h: real, k: real, d: real, x: real, y: real, z: real)
    requires d != 0.0 && x == g / d && y == h / d && z == k / d && k * k == g * g + h * h
    ensures z * z == x * x + y * y
  {
    QuotientTimes(g, d);
    QuotientTimes(h, d);
    QuotientTimes(k, d);
    SquaresScale(x, y, z, d, g, h, k, z * z, x * x + y * y, d * d);
  }

  lemma SquaresScale(x: real, y: real, z: real, d: real, g: real, h: real, k: real, zz: real, ss: real, dd: real)
    requires x * d == g && y * d == h && z * d == k && k * k == g * g + h * h && d != 0.0
    requires zz == z * z && ss == x * x + y * y && dd == d * d
    ensures zz == ss
  {
    SquareZero(d);
    assert zz * dd == (z * d) * (z * d);
    assert ss * dd == (x * d) * (x * d) + (y * d) * (y * d);
    CancelFactor(zz, ss, dd);
  }
}
