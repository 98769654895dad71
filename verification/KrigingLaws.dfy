/** The kriging equations and what any solution of them promises. */
module KrigingLaws {
  import opened RealFacts
  import opened LinearSystem
  import opened QuickSelect
  import opened Variogram

  function Separation(v: Params, f: Maths, dx: real, dy: real): real
    requires Usable(v)
  {
    Gamma(v, f, AnisotropicDistance(v, f, dx, dy))
  }

  /** Entry (i, j) of the coefficient matrix: pairwise variogram values bordered by ones. */
  function Coefficient(v: Params, f: Maths, pts: seq<SamplePoint>, i: nat, j: nat): real
    requires Usable(v) && i <= |pts| && j <= |pts|
  {
    if i < |pts| && j < |pts| then
      if i == j then 0.0 else Separation(v, f, pts[i].x - pts[j].x, pts[i].y - pts[j].y)
    else if i < |pts| || j < |pts| then 1.0
    else 0.0
  }

  function Target(v: Params, f: Maths, pts: seq<SamplePoint>, tx: real, ty: real, i: nat): real
    requires Usable(v) && i <= |pts|
  {
    if i < |pts| then Separation(v, f, pts[i].x - tx, pts[i].y - ty) else 1.0
  }

  function KrigingRow(v: Params, f: Maths, pts: seq<SamplePoint>, tx: real, ty: real, i: nat): (row: seq<real>)
    requires Usable(v) && i <= |pts|
    ensures |row| == |pts| + 2
  {
    seq(|pts| + 1, j requires 0 <= j <= |pts| => Coefficient(v, f, pts, i, j)) + [Target(v, f, pts, tx, ty, i)]
  }

  function KrigingSystem(v: Params, f: Maths, pts: seq<SamplePoint>, tx: real, ty: real): (m: Matrix)
    requires Usable(v)
    ensures Shape(m, |pts| + 1)
  {
    seq(|pts| + 1, i requires 0 <= i <= |pts| => KrigingRow(v, f, pts, tx, ty, i))
  }

  function Values(pts: seq<SamplePoint>): (r: seq<real>)
    ensures |r| == |pts|
  {
    seq(|pts|, i requires 0 <= i < |pts| => pts[i].value)
  }

  function Ones(n: nat): (r: seq<real>)
    ensures |r| == n
  {
    seq(n, _ => 1.0)
  }

  function Sum(w: seq<real>): real {
    Dot(Ones(|w|), w, |w|)
  }

  function Unit(n: nat, k: nat): (r: seq<real>)
    ensures |r| == n
  {
    seq(n, i => if i == k then 1.0 else 0.0)
  }

  predicate At(p: SamplePoint, tx: real, ty: real) {
    p.x == tx && p.y == ty
  }

  // ---------- Unbiasedness ----------

  lemma {:induction false} DotPrefix(row: seq<real>, x: seq<real>, row': seq<real>, x': seq<real>, k: nat)
    requires k <= |row| && k <= |x| && k <= |row'| && k <= |x'|
    requires forall j :: 0 <= j < k ==> row[j] == row'[j] && x[j] == x'[j]
    ensures Dot(row, x, k) == Dot(row', x', k)
  {
    if k > 0 {
      DotPrefix(row, x, row', x', k - 1);
    }
  }

  /** The last equation makes the weights add up to one. */
  lemma WeightsSumToOne(v: Params, f: Maths, pts: seq<SamplePoint>, tx: real, ty: real, w: seq<real>)
    requires Usable(v)
    requires Solves(KrigingSystem(v, f, pts, tx, ty), |pts| + 1, w)
    ensures Sum(w[..|pts|]) == 1.0
  {
    var n := |pts|;
    var m := KrigingSystem(v, f, pts, tx, ty);
    assert RowHolds(m[n], n + 1, w);
    assert m[n] == KrigingRow(v, f, pts, tx, ty, n);
    assert m[n][n] == 0.0 && m[n][n + 1] == 1.0;
    assert forall j :: 0 <= j < n ==> m[n][j] == 1.0;
    assert Dot(m[n], w, n + 1) == Dot(m[n], w, n) + 0.0 * w[n];
    DotPrefix(m[n], w, Ones(n), w[..n], n);
  }

  /** Weights that add up to one reproduce a constant field. */
  lemma {:induction false} DotConstant(w: seq<real>, vals: seq<real>, c: real, k: nat)
    requires k <= |w| && k <= |vals| && forall j :: 0 <= j < k ==> vals[j] == c
    ensures Dot(w, vals, k) == c * Dot(Ones(|w|), w, k)
  {
    if k > 0 {
      DotConstant(w, vals, c, k - 1);
      assert w[k - 1] * c == c * (1.0 * w[k - 1]);
      assert c * (Dot(Ones(|w|), w, k - 1) + 1.0 * w[k - 1]) == c * Dot(Ones(|w|), w, k - 1) + c * (1.0 * w[k - 1]);
    }
  }

  // ---------- Exactness ----------

  lemma {:induction false} DotUnitVector(row: seq<real>, n: nat, k: nat, j: nat)
    requires j <= |row| && j <= n
    ensures Dot(row, Unit(n, k), j) == if k < j then row[k] else 0.0
  {
    if j > 0 {
      DotUnitVector(row, n, k, j - 1);
      assert row[j - 1] * Unit(n, k)[j - 1] == if j - 1 == k then row[k] else 0.0;
    }
  }

  /** At a sample point the right-hand side is a column of the matrix, so a unit vector solves the system. */
  lemma UnitSolves(v: Params, f: Maths, pts: seq<SamplePoint>, tx: real, ty: real, k: nat)
    requires Usable(v) && SqrtLaw(f) && k < |pts| && At(pts[k], tx, ty)
    ensures Solves(KrigingSystem(v, f, pts, tx, ty), |pts| + 1, Unit(|pts| + 1, k))
  {
    var n := |pts|;
    var m := KrigingSystem(v, f, pts, tx, ty);
    GammaAtZero(v, f);
    forall i | 0 <= i <= n ensures RowHolds(m[i], n + 1, Unit(n + 1, k)) {
      DotUnitVector(m[i], n + 1, k, n + 1);
      assert m[i] == KrigingRow(v, f, pts, tx, ty, i);
      assert m[i][k] == Coefficient(v, f, pts, i, k);
      assert m[i][n + 1] == Target(v, f, pts, tx, ty, i);
      assert i == k ==> pts[i].x - tx == 0.0 && pts[i].y - ty == 0.0;
    }
  }

  /** Two samples at one place make the equations singular: then there is no unique solution. */
  lemma SolvedMeansDistinct(v: Params, f: Maths, pts: seq<SamplePoint>, tx: real, ty: real, w: seq<real>, i: nat, j: nat)
    requires Usable(v) && SqrtLaw(f)
    requires UniqueSolution(KrigingSystem(v, f, pts, tx, ty), |pts| + 1, w)
    requires i < j < |pts|
    ensures !At(pts[i], pts[j].x, pts[j].y)
  {
    if At(pts[i], pts[j].x, pts[j].y) {
      var n := |pts| + 1;
      var m := KrigingSystem(v, f, pts, tx, ty);
      var w' := w[i := w[i] + 1.0][j := w[j] - 1.0];
      assert w'[i] == w[i] + 1.0;
      GammaAtZero(v, f);
      forall r | 0 <= r < n ensures RowHolds(m[r], n, w') {
        assert RowHolds(m[r], n, w);
        assert m[r] == KrigingRow(v, f, pts, tx, ty, r);
        assert m[r][i] == Coefficient(v, f, pts, r, i) && m[r][j] == Coefficient(v, f, pts, r, j);
        assert pts[i].x - pts[j].x == 0.0 && pts[i].y - pts[j].y == 0.0;
        assert pts[j].x - pts[i].x == 0.0 && pts[j].y - pts[i].y == 0.0;
        assert m[r][i] == m[r][j];
        DotMoved(m[r], w, i, j, n);
      }
      assert Solves(m, n, w');
    }
  }

  /** Moving one unit of weight between two equal entries does not change a row's sum. */
  lemma {:induction false} DotMoved(row: seq<real>, w: seq<real>, i: nat, j: nat, k: nat)
    requires i < j < |w| && k <= |w| && k <= |row| && j < |row| && row[i] == row[j]
    ensures Dot(row, w[i := w[i] + 1.0][j := w[j] - 1.0], k)
            == Dot(row, w, k) + (if i < k then row[i] else 0.0) - (if j < k then row[j] else 0.0)
  {
    if k > 0 {
      DotMoved(row, w, i, j, k - 1);
      var w' := w[i := w[i] + 1.0][j := w[j] - 1.0];
      assert row[k - 1] * (w[k - 1] + 1.0) == row[k - 1] * w[k - 1] + row[k - 1];
      assert row[k - 1] * (w[k - 1] - 1.0) == row[k - 1] * w[k - 1] - row[k - 1];
    }
  }

  /** The value and the variance a weight vector gives. */
  function ValueOf(pts: seq<SamplePoint>, w: seq<real>): real
    requires |w| >= |pts|
  {
    Dot(w, Values(pts), |pts|)
  }

  function Targets(v: Params, f: Maths, pts: seq<SamplePoint>, tx: real, ty: real): (r: seq<real>)
    requires Usable(v)
    ensures |r| == |pts| + 1
  {
    seq(|pts| + 1, i requires 0 <= i <= |pts| => Target(v, f, pts, tx, ty, i))
  }

  function VarianceOf(v: Params, f: Maths, pts: seq<SamplePoint>, tx: real, ty: real, w: seq<real>): real
    requires Usable(v) && |w| == |pts| + 1
  {
    Dot(w, Targets(v, f, pts, tx, ty), |pts|) + w[|pts|]
  }

  lemma {:induction false} DotCommutes(a: seq<real>, b: seq<real>, k: nat)
    requires k <= |a| && k <= |b|
    ensures Dot(a, b, k) == Dot(b, a, k)
  {
    if k > 0 {
      DotCommutes(a, b, k - 1);
    }
  }

  /** Where a sample lies, a solved system returns the sample, with no uncertainty. */
  lemma ExactAtSample(v: Params, f: Maths, pts: seq<SamplePoint>, tx: real, ty: real, w: seq<real>, k: nat)
    requires Usable(v) && SqrtLaw(f) && k < |pts| && At(pts[k], tx, ty)
    requires UniqueSolution(KrigingSystem(v, f, pts, tx, ty), |pts| + 1, w)
    ensures w == Unit(|pts| + 1, k)
    ensures ValueOf(pts, w) == pts[k].value
    ensures VarianceOf(v, f, pts, tx, ty, w) == 0.0
  {
    var n := |pts|;
    UnitSolves(v, f, pts, tx, ty, k);
    assert w == Unit(n + 1, k);
    DotCommutes(w, Values(pts), n);
    DotUnitVector(Values(pts), n + 1, k, n);
    DotCommutes(w, Targets(v, f, pts, tx, ty), n);
    DotUnitVector(Targets(v, f, pts, tx, ty), n + 1, k, n);
    GammaAtZero(v, f);
    assert pts[k].x - tx == 0.0 && pts[k].y - ty == 0.0;
  }

  // ---------- Inverse-distance weights ----------

  /** Weights that are positive, add up to one and fall with the square of the distance. */
  ghost predicate InverseSquare(f: Maths, pts: seq<SamplePoint>, tx: real, ty: real, w: seq<real>) {
    && |w| == |pts|
    && (forall i :: 0 <= i < |w| ==> w[i] > 0.0)
    && Sum(w) == 1.0
    && forall i, j :: 0 <= i < |pts| && 0 <= j < |pts| ==>
         w[i] * Spread(f, pts[i], tx, ty) == w[j] * Spread(f, pts[j], tx, ty)
  }

  /** The squared distance, as the code computes it from the distance. */
  function Spread(f: Maths, p: SamplePoint, tx: real, ty: real): real {
    var d := Euclid(f, p.x - tx, p.y - ty);
    d * d
  }

  /** A weighted mean lies between the least and the greatest value. */
  lemma {:induction false} DotBetween(w: seq<real>, vals: seq<real>, lo: real, hi: real, k: nat)
    requires k <= |w| && k <= |vals|
    requires forall j :: 0 <= j < k ==> w[j] >= 0.0 && lo <= vals[j] <= hi
    ensures lo * Dot(Ones(|w|), w, k) <= Dot(w, vals, k) <= hi * Dot(Ones(|w|), w, k)
  {
    if k > 0 {
      DotBetween(w, vals, lo, hi, k - 1);
      var s, x, y := Dot(Ones(|w|), w, k - 1), w[k - 1], vals[k - 1];
      ProductNonNegative(x, y - lo);
      ProductNonNegative(x, hi - y);
      assert x * (y - lo) == x * y - lo * x && x * (hi - y) == hi * x - x * y;
      assert lo * (s + 1.0 * x) == lo * s + lo * x && hi * (s + 1.0 * x) == hi * s + hi * x;
    }
  }

  // ---------- Dropping the far candidates ----------

  function Points(items: seq<DistItem>): (r: seq<SamplePoint>)
    ensures |r| == |items|
  {
    seq(|items|, i requires 0 <= i < |items| => items[i].pt)
  }

  function Without<T>(s: seq<T>, k: nat): (r: seq<T>)
    requires k < |s|
    ensures |r| == |s| - 1
  {
    s[..k] + s[k + 1..]
  }

  lemma WithoutOne<T>(s: seq<T>, k: nat)
    requires k < |s|
    ensures multiset(s) == multiset{s[k]} + multiset(Without(s, k))
    ensures multiset(Without(s, k)) == multiset(s) - multiset{s[k]}
  {
    assert s == s[..k] + [s[k]] + s[k + 1..];
  }

  lemma PlaceOf<T>(a: seq<T>, b: seq<T>) returns (k: nat)
    requires a != [] && multiset(a) == multiset(b)
    ensures k < |b| && b[k] == a[0]
  {
    assert a[0] in multiset(a);
    assert a[0] in b;
    k :| 0 <= k < |b| && b[k] == a[0];
  }

  lemma PointsWithout(items: seq<DistItem>, k: nat)
    requires k < |items|
    ensures multiset(Points(items)) == multiset{items[k].pt} + multiset(Points(Without(items, k)))
  {
    WithoutOne(Points(items), k);
    assert Points(Without(items, k)) == Without(Points(items), k);
  }

  /** Rearranging items rearranges their points. */
  lemma {:induction false} PointsRearranged(a: seq<DistItem>, b: seq<DistItem>)
    requires multiset(a) == multiset(b)
    ensures multiset(Points(a)) == multiset(Points(b))
    decreases |a|
  {
    hide Points, Without;
    if a == [] {
      assert |multiset(b)| == 0;
      assert b == [];
    } else {
      var k := PlaceOf(a, b);
      WithoutOne(a, 0);
      WithoutOne(b, k);
      PointsRearranged(Without(a, 0), Without(b, k));
      PointsWithout(a, 0);
      PointsWithout(b, k);
    }
  }

  /** kept and dropped make up the candidates, and nothing kept is farther than anything dropped. */
  ghost predicate Nearest(f: Maths, tx: real, ty: real, candidates: seq<SamplePoint>, kept: seq<SamplePoint>,
                          dropped: seq<SamplePoint>)
  {
    && multiset(candidates) == multiset(kept + dropped)
    && forall i, j :: 0 <= i < |kept| && 0 <= j < |dropped| ==>
         Euclid(f, kept[i].x - tx, kept[i].y - ty) <= Euclid(f, dropped[j].x - tx, dropped[j].y - ty)
  }

  lemma ZeroDistance(f: Maths, dx: real, dy: real)
    requires SqrtLaw(f)
    ensures Euclid(f, dx, dy) >= 0.0
    ensures Euclid(f, dx, dy) == 0.0 <==> dx == 0.0 && dy == 0.0
  {
    SquareZero(dx);
    SquareZero(dy);
    SqrtZero(f, dx * dx + dy * dy);
  }

  /** If the system solves, a sample at the target cannot have been dropped. */
  lemma TargetSampleKept(v: Params, f: Maths, tx: real, ty: real, candidates: seq<SamplePoint>,
                         kept: seq<SamplePoint>, dropped: seq<SamplePoint>, w: seq<real>, c: nat) returns (k: nat)
    requires Usable(v) && SqrtLaw(f) && Nearest(f, tx, ty, candidates, kept, dropped)
    requires |kept| >= 2 && UniqueSolution(KrigingSystem(v, f, kept, tx, ty), |kept| + 1, w)
    requires c < |candidates| && At(candidates[c], tx, ty)
    ensures k < |kept| && kept[k] == candidates[c]
  {
    var p := candidates[c];
    assert p in multiset(candidates) && p in multiset(kept + dropped) && p in kept + dropped;
    var i :| 0 <= i < |kept + dropped| && (kept + dropped)[i] == p;
    if i >= |kept| {
      assert dropped[i - |kept|] == p && p.x - tx == 0.0 && p.y - ty == 0.0;
      ZeroDistance(f, p.x - tx, p.y - ty);
      ZeroDistance(f, kept[0].x - tx, kept[0].y - ty);
      ZeroDistance(f, kept[1].x - tx, kept[1].y - ty);
      SolvedMeansDistinct(v, f, kept, tx, ty, w, 0, 1);
      assert false;
    }
    k := i;
  }
}
