/** What the kriging variance is: the mean squared error of the estimate, under the variogram, and that none is less. */
module KrigingError {
  import opened RealFacts
  import opened LinearSystem
  import opened Variogram
  import opened KrigingLaws

  /** The weighted variogram from the first k samples to the target. */
  function ToTarget(v: Params, f: Maths, pts: seq<SamplePoint>, tx: real, ty: real, w: seq<real>, k: nat): real
    requires Usable(v) && k <= |pts| && k <= |w|
  {
    if k == 0 then 0.0
    else ToTarget(v, f, pts, tx, ty, w, k - 1) + w[k - 1] * Separation(v, f, pts[k - 1].x - tx, pts[k - 1].y - ty)
  }

  /** The weighted variogram from the first k samples to sample i. */
  function ToSample(v: Params, f: Maths, pts: seq<SamplePoint>, w: seq<real>, i: nat, k: nat): real
    requires Usable(v) && i < |pts| && k <= |pts| && k <= |w|
  {
    if k == 0 then 0.0
    else ToSample(v, f, pts, w, i, k - 1) + w[k - 1] * Separation(v, f, pts[i].x - pts[k - 1].x, pts[i].y - pts[k - 1].y)
  }

  /** The variogram between the first k samples, weighted by a, and all samples, weighted by b. */
  function Between(v: Params, f: Maths, pts: seq<SamplePoint>, a: seq<real>, b: seq<real>, k: nat): real
    requires Usable(v) && k <= |pts| && k <= |a| && |pts| <= |b|
  {
    if k == 0 then 0.0
    else Between(v, f, pts, a, b, k - 1) + a[k - 1] * ToSample(v, f, pts, b, k - 1, |pts|)
  }

  /** The mean squared error at the target of an estimate with these weights. */
  function SquaredError(v: Params, f: Maths, pts: seq<SamplePoint>, tx: real, ty: real, w: seq<real>): real
    requires Usable(v) && |pts| <= |w|
  {
    2.0 * ToTarget(v, f, pts, tx, ty, w, |pts|) - Between(v, f, pts, w, w, |pts|)
  }

  // ---------- The variance is the error ----------

  lemma {:induction false} RowIsSum(v: Params, f: Maths, pts: seq<SamplePoint>, tx: real, ty: real, w: seq<real>,
                                    i: nat, k: nat)
    requires Usable(v) && SqrtLaw(f) && i < |pts| && k <= |pts| < |w|
    ensures Dot(KrigingRow(v, f, pts, tx, ty, i), w, k) == ToSample(v, f, pts, w, i, k)
  {
    hide Separation;
    if k > 0 {
      RowIsSum(v, f, pts, tx, ty, w, i, k - 1);
      assert KrigingRow(v, f, pts, tx, ty, i)[k - 1] == Coefficient(v, f, pts, i, k - 1);
      if i == k - 1 {
        NoSeparation(v, f, pts[i].x - pts[i].x, pts[i].y - pts[i].y);
      }
    }
  }

  lemma NoSeparation(v: Params, f: Maths, dx: real, dy: real)
    requires Usable(v) && SqrtLaw(f) && dx == 0.0 && dy == 0.0
    ensures Separation(v, f, dx, dy) == 0.0
  {
    GammaAtZero(v, f);
  }

  /** What row i of the equations says. */
  lemma RowSays(v: Params, f: Maths, pts: seq<SamplePoint>, tx: real, ty: real, w: seq<real>, i: nat)
    requires Usable(v) && SqrtLaw(f) && i < |pts|
    requires Solves(KrigingSystem(v, f, pts, tx, ty), |pts| + 1, w)
    ensures ToSample(v, f, pts, w, i, |pts|) + w[|pts|] == Separation(v, f, pts[i].x - tx, pts[i].y - ty)
  {
    hide Separation;
    var n, m := |pts|, KrigingSystem(v, f, pts, tx, ty);
    assert RowHolds(m[i], n + 1, w) && m[i] == KrigingRow(v, f, pts, tx, ty, i);
    assert m[i][n] == Coefficient(v, f, pts, i, n) && m[i][n + 1] == Target(v, f, pts, tx, ty, i);
    RowIsSum(v, f, pts, tx, ty, w, i, n);
    assert Dot(m[i], w, n + 1) == Dot(m[i], w, n) + 1.0 * w[n];
  }

  /** Weighing the equations by a: what is between a and the solution, but for the multiplier, is towards the target. */
  lemma {:induction false} WeighedRows(v: Params, f: Maths, pts: seq<SamplePoint>, tx: real, ty: real, w: seq<real>,
                                       a: seq<real>, k: nat)
    requires Usable(v) && SqrtLaw(f) && k <= |pts| && k <= |a|
    requires Solves(KrigingSystem(v, f, pts, tx, ty), |pts| + 1, w)
    ensures Between(v, f, pts, a, w, k) + w[|pts|] * Dot(Ones(|a|), a, k) == ToTarget(v, f, pts, tx, ty, a, k)
  {
    hide Separation, KrigingSystem, Solves, ToSample, Ones, Dot;
    SolutionSize(v, f, pts, tx, ty, w);
    OnesSum(a, k);
    if k > 0 {
      WeighedRows(v, f, pts, tx, ty, w, a, k - 1);
      RowSays(v, f, pts, tx, ty, w, k - 1);
      WeighedRow(a[k - 1], ToSample(v, f, pts, w, k - 1, |pts|), w[|pts|], Dot(Ones(|a|), a, k - 1),
                 Between(v, f, pts, a, w, k - 1), ToTarget(v, f, pts, tx, ty, a, k - 1),
                 Separation(v, f, pts[k - 1].x - tx, pts[k - 1].y - ty));
    } else {
      assert w[|pts|] * 0.0 == 0.0;
    }
  }

  lemma OnesSum(a: seq<real>, k: nat)
    requires k <= |a|
    ensures Dot(Ones(|a|), a, k) == if k == 0 then 0.0 else Dot(Ones(|a|), a, k - 1) + a[k - 1]
  {
  }

  lemma SolutionSize(v: Params, f: Maths, pts: seq<SamplePoint>, tx: real, ty: real, w: seq<real>)
    requires Usable(v) && Solves(KrigingSystem(v, f, pts, tx, ty), |pts| + 1, w)
    ensures |w| == |pts| + 1
  {
  }

  lemma WeighedRow(x: real, s: real, m: real, sum: real, b: real, t: real, g: real)
    requires b + m * sum == t && s + m == g
    ensures b + x * s + m * (sum + x) == t + x * g
  {
    assert m * (sum + x) == m * sum + x * m && x * (s + m) == x * s + x * m;
  }

  lemma {:induction false} TargetsAreSummed(v: Params, f: Maths, pts: seq<SamplePoint>, tx: real, ty: real,
                                            w: seq<real>, k: nat)
    requires Usable(v) && k <= |pts| < |w|
    ensures Dot(w, Targets(v, f, pts, tx, ty), k) == ToTarget(v, f, pts, tx, ty, w, k)
  {
    hide Separation;
    if k > 0 {
      TargetsAreSummed(v, f, pts, tx, ty, w, k - 1);
      assert Targets(v, f, pts, tx, ty)[k - 1] == Target(v, f, pts, tx, ty, k - 1);
    }
  }

  /** The variance of a solution is the mean squared error of its estimate. */
  lemma VarianceIsError(v: Params, f: Maths, pts: seq<SamplePoint>, tx: real, ty: real, w: seq<real>)
    requires Usable(v) && SqrtLaw(f)
    requires Solves(KrigingSystem(v, f, pts, tx, ty), |pts| + 1, w)
    ensures VarianceOf(v, f, pts, tx, ty, w) == SquaredError(v, f, pts, tx, ty, w)
  {
    hide Separation, Solves, KrigingSystem;
    SolutionSize(v, f, pts, tx, ty, w);
    var n := |pts|;
    WeighedRows(v, f, pts, tx, ty, w, w, n);
    WeightsSumToOne(v, f, pts, tx, ty, w);
    DotPrefix(Ones(n + 1), w, Ones(n), w[..n], n);
    TargetsAreSummed(v, f, pts, tx, ty, w, n);
    assert w[n] * 1.0 == w[n];
  }

  // ---------- And it is the least ----------

  function Difference(a: seq<real>, b: seq<real>, n: nat): (d: seq<real>)
    requires n <= |a| && n <= |b|
    ensures |d| == n
  {
    seq(n, i requires 0 <= i < n => a[i] - b[i])
  }

  /** The variogram does not see which of two places is which. */
  lemma SeparationIsEven(v: Params, f: Maths, dx: real, dy: real)
    requires Usable(v)
    ensures Separation(v, f, dx, dy) == Separation(v, f, -dx, -dy)
  {
    hide Gamma, Euclid, Along, Across;
    PartsAreOdd(v, f, dx, dy);
    EuclidIsEven(f, dx, dy);
    EuclidIsEven(f, Along(v, f, dx, dy), Across(v, f, dx, dy) / v.anisoRatio);
  }

  lemma PartsAreOdd(v: Params, f: Maths, dx: real, dy: real)
    requires Usable(v)
    ensures Along(v, f, -dx, -dy) == -Along(v, f, dx, dy)
    ensures Across(v, f, -dx, -dy) / v.anisoRatio == -(Across(v, f, dx, dy) / v.anisoRatio)
  {
    OddTurn(dx, dy, f.cos(v.anisoAngle), f.sin(v.anisoAngle));
    OddQuotient(Across(v, f, dx, dy), v.anisoRatio);
  }

  lemma EuclidIsEven(f: Maths, x: real, y: real)
    ensures Euclid(f, -x, -y) == Euclid(f, x, y)
  {
    assert (-x) * (-x) == x * x && (-y) * (-y) == y * y;
  }

  lemma OddTurn(x: real, y: real, c: real, s: real)
    ensures (-x) * c + (-y) * s == -(x * c + y * s) && -(-x) * s + (-y) * c == -(-x * s + y * c)
  {
  }

  lemma OddQuotient(x: real, d: real)
    requires d != 0.0
    ensures (-x) / d == -(x / d)
  {
    QuotientIs(-x, d, -(x / d));
  }

  lemma {:induction false} ToTargetDiffers(v: Params, f: Maths, pts: seq<SamplePoint>, tx: real, ty: real,
                                           a: seq<real>, b: seq<real>, k: nat)
    requires Usable(v) && k <= |pts| <= |a| && |pts| <= |b|
    ensures ToTarget(v, f, pts, tx, ty, Difference(a, b, |pts|), k)
         == ToTarget(v, f, pts, tx, ty, a, k) - ToTarget(v, f, pts, tx, ty, b, k)
  {
    hide Separation;
    if k > 0 {
      ToTargetDiffers(v, f, pts, tx, ty, a, b, k - 1);
      Distributes(a[k - 1], b[k - 1], Separation(v, f, pts[k - 1].x - tx, pts[k - 1].y - ty));
    }
  }

  lemma Distributes(a: real, b: real, x: real)
    ensures (a - b) * x == a * x - b * x
  {
  }

  lemma {:induction false} ToSampleDiffers(v: Params, f: Maths, pts: seq<SamplePoint>, a: seq<real>, b: seq<real>,
                                           i: nat, k: nat)
    requires Usable(v) && i < |pts| && k <= |pts| <= |a| && |pts| <= |b|
    ensures ToSample(v, f, pts, Difference(a, b, |pts|), i, k)
         == ToSample(v, f, pts, a, i, k) - ToSample(v, f, pts, b, i, k)
  {
    hide Separation;
    if k > 0 {
      ToSampleDiffers(v, f, pts, a, b, i, k - 1);
      Distributes(a[k - 1], b[k - 1], Separation(v, f, pts[i].x - pts[k - 1].x, pts[i].y - pts[k - 1].y));
    }
  }

  /** Between is linear on either side. */
  lemma {:induction false} BetweenDiffers(v: Params, f: Maths, pts: seq<SamplePoint>, a: seq<real>, b: seq<real>,
                                          c: seq<real>, k: nat)
    requires Usable(v) && k <= |pts| <= |a| && |pts| <= |b| && |pts| <= |c|
    ensures Between(v, f, pts, Difference(a, b, |pts|), c, k)
         == Between(v, f, pts, a, c, k) - Between(v, f, pts, b, c, k)
    ensures Between(v, f, pts, c, Difference(a, b, |pts|), k)
         == Between(v, f, pts, c, a, k) - Between(v, f, pts, c, b, k)
  {
    hide ToSample;
    if k > 0 {
      BetweenDiffers(v, f, pts, a, b, c, k - 1);
      ToSampleDiffers(v, f, pts, a, b, k - 1, |pts|);
      Distributes(a[k - 1], b[k - 1], ToSample(v, f, pts, c, k - 1, |pts|));
      var x, y := ToSample(v, f, pts, a, k - 1, |pts|), ToSample(v, f, pts, b, k - 1, |pts|);
      assert c[k - 1] * (x - y) == c[k - 1] * x - c[k - 1] * y;
    }
  }

  /** The part of Between that a and the first k weights of b make. */
  function Part(v: Params, f: Maths, pts: seq<SamplePoint>, a: seq<real>, b: seq<real>, j: nat, k: nat): real
    requires Usable(v) && j <= |pts| && j <= |a| && k <= |pts| && k <= |b|
  {
    if j == 0 then 0.0 else Part(v, f, pts, a, b, j - 1, k) + a[j - 1] * ToSample(v, f, pts, b, j - 1, k)
  }

  lemma {:induction false} PartGrows(v: Params, f: Maths, pts: seq<SamplePoint>, a: seq<real>, b: seq<real>, j: nat, k: nat)
    requires Usable(v) && j <= |pts| <= |a| && k < |pts| <= |b|
    ensures Part(v, f, pts, a, b, j, k + 1) == Part(v, f, pts, a, b, j, k) + b[k] * ToSample(v, f, pts, a, k, j)
  {
    hide Separation;
    if j > 0 {
      PartGrows(v, f, pts, a, b, j - 1, k);
      var dx, dy := pts[j - 1].x - pts[k].x, pts[j - 1].y - pts[k].y;
      assert pts[k].x - pts[j - 1].x == -dx && pts[k].y - pts[j - 1].y == -dy;
      SeparationIsEven(v, f, dx, dy);
      GrowthStep(a[j - 1], b[k], Separation(v, f, dx, dy), ToSample(v, f, pts, b, j - 1, k), ToSample(v, f, pts, a, k, j - 1));
    }
  }

  lemma GrowthStep(a: real, b: real, g: real, s: real, t: real)
    ensures a * (s + b * g) == a * s + a * (b * g)
    ensures b * (t + a * g) == b * t + a * (b * g)
  {
    assert b * (a * g) == a * (b * g);
  }

  /** The sums over two sets of weights may be taken in either order. */
  lemma {:induction false} PartSwaps(v: Params, f: Maths, pts: seq<SamplePoint>, a: seq<real>, b: seq<real>, k: nat)
    requires Usable(v) && k <= |pts| <= |a| && |pts| <= |b|
    ensures Part(v, f, pts, a, b, |pts|, k) == Part(v, f, pts, b, a, k, |pts|)
  {
    hide ToSample;
    if k == 0 {
      PartOfNothing(v, f, pts, a, b, |pts|);
    } else {
      PartSwaps(v, f, pts, a, b, k - 1);
      PartGrows(v, f, pts, a, b, |pts|, k - 1);
    }
  }

  lemma {:induction false} PartOfNothing(v: Params, f: Maths, pts: seq<SamplePoint>, a: seq<real>, b: seq<real>, j: nat)
    requires Usable(v) && j <= |pts| <= |a| && |pts| <= |b|
    ensures Part(v, f, pts, a, b, j, 0) == 0.0
  {
    if j > 0 {
      PartOfNothing(v, f, pts, a, b, j - 1);
    }
  }

  lemma {:induction false} PartIsBetween(v: Params, f: Maths, pts: seq<SamplePoint>, a: seq<real>, b: seq<real>, j: nat)
    requires Usable(v) && j <= |pts| <= |a| && |pts| <= |b|
    ensures Part(v, f, pts, a, b, j, |pts|) == Between(v, f, pts, a, b, j)
  {
    hide ToSample;
    if j > 0 {
      PartIsBetween(v, f, pts, a, b, j - 1);
    }
  }

  lemma BetweenSwaps(v: Params, f: Maths, pts: seq<SamplePoint>, a: seq<real>, b: seq<real>)
    requires Usable(v) && |pts| <= |a| && |pts| <= |b|
    ensures Between(v, f, pts, a, b, |pts|) == Between(v, f, pts, b, a, |pts|)
  {
    hide Between, Part;
    PartSwaps(v, f, pts, a, b, |pts|);
    PartIsBetween(v, f, pts, a, b, |pts|);
    PartIsBetween(v, f, pts, b, a, |pts|);
  }

  lemma {:induction false} OnesDiffer(a: seq<real>, b: seq<real>, n: nat, k: nat)
    requires k <= n <= |a| && n <= |b|
    ensures Dot(Ones(n), Difference(a, b, n), k) == Dot(Ones(|a|), a, k) - Dot(Ones(|b|), b, k)
  {
    if k > 0 {
      OnesDiffer(a, b, n, k - 1);
    }
  }

  /**
   Best unbiased estimate: other weights that add up to one have an error that differs from the kriging variance by
   the negated variogram of the differences.  That is never negative for a variogram that some field can have.
   */
  lemma KrigingIsBest(v: Params, f: Maths, pts: seq<SamplePoint>, tx: real, ty: real, w: seq<real>, u: seq<real>)
    requires Usable(v) && SqrtLaw(f)
    requires Solves(KrigingSystem(v, f, pts, tx, ty), |pts| + 1, w)
    requires |u| == |pts| && Sum(u) == 1.0
    ensures |w| > |pts|
    ensures var d := Difference(u, w, |pts|);
      SquaredError(v, f, pts, tx, ty, u) == SquaredError(v, f, pts, tx, ty, w) - Between(v, f, pts, d, d, |pts|)
  {
    hide Separation, Solves, KrigingSystem, Between, ToTarget, ToSample, Dot, Sum, Difference;
    SolutionSize(v, f, pts, tx, ty, w);
    var n := |pts|;
    var d := Difference(u, w, n);
    DifferenceSums(v, f, pts, tx, ty, w, u);
    WeighedRows(v, f, pts, tx, ty, w, d, n);
    assert w[n] * 0.0 == 0.0;
    ToTargetDiffers(v, f, pts, tx, ty, u, w, n);
    BetweenDiffers(v, f, pts, u, w, d, n);
    BetweenDiffers(v, f, pts, u, w, w, n);
    BetweenDiffers(v, f, pts, u, w, u, n);
    BetweenSwaps(v, f, pts, u, w);
    BetweenSwaps(v, f, pts, d, w);
  }

  /** Weights that both add up to one differ by weights that add up to nothing. */
  lemma DifferenceSums(v: Params, f: Maths, pts: seq<SamplePoint>, tx: real, ty: real, w: seq<real>, u: seq<real>)
    requires Usable(v) && Solves(KrigingSystem(v, f, pts, tx, ty), |pts| + 1, w)
    requires |u| == |pts| && Sum(u) == 1.0
    ensures Dot(Ones(|pts|), Difference(u, w, |pts|), |pts|) == 0.0
  {
    var n := |pts|;
    WeightsSumToOne(v, f, pts, tx, ty, w);
    DotPrefix(Ones(n + 1), w, Ones(n), w[..n], n);
    OnesDiffer(u, w, n, n);
  }
}
