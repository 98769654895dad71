/** Ordinary kriging: neighbour selection, the kriging equations, and the inverse-distance fallback. */
module Kriging {
  import opened Options
  import opened RealFacts
  import opened FlatIndex
  import opened LinearSystem
  import opened Elimination
  import opened GaussJordan
  import opened QuickSelect
  import opened Variogram
  import opened KrigingLaws
  import opened KrigingError

  const MAX_KRIGING_NEIGHBORS := 24
  const MIN_KRIGING_NEIGHBORS := 4
  const COINCIDENT := 0.000000000001

  /** A variance of None stands for NaN. */
  datatype KrigingResult = KrigingResult(value: real, variance: Option<real>, weights: seq<real>, numNeighbors: nat)

  datatype Outcome = Estimated(result: KrigingResult) | InsufficientNeighbors(n: nat)

  /** The result comes from solving the kriging equations over pts; w solves them. */
  ghost predicate IsKriged(v: Params, f: Maths, pts: seq<SamplePoint>, tx: real, ty: real, w: seq<real>, res: KrigingResult)
    requires Usable(v)
  {
    && UniqueSolution(KrigingSystem(v, f, pts, tx, ty), |pts| + 1, w)
    && res.weights == w[..|pts|] && res.numNeighbors == |pts|
    && res.value == ValueOf(pts, w)
    && res.variance == Some(var s := VarianceOf(v, f, pts, tx, ty, w); if s < 0.0 then 0.0 else s)
  }

  /** Place k is the first sample so close to the target that it is taken over as it is. */
  ghost predicate Coincident(f: Maths, pts: seq<SamplePoint>, tx: real, ty: real, k: nat) {
    && k < |pts| && Euclid(f, pts[k].x - tx, pts[k].y - ty) < COINCIDENT
    && forall i :: 0 <= i < k ==> Euclid(f, pts[i].x - tx, pts[i].y - ty) >= COINCIDENT
  }

  /** The result is an inverse-distance estimate over pts. */
  ghost predicate IsWeighted(f: Maths, pts: seq<SamplePoint>, tx: real, ty: real, res: KrigingResult) {
    if exists k: nat :: Coincident(f, pts, tx, ty, k) then
      exists k: nat :: Coincident(f, pts, tx, ty, k) && res == KrigingResult(pts[k].value, Some(0.0), [1.0], 1)
    else
      && InverseSquare(f, pts, tx, ty, res.weights)
      && res.value == ValueOf(pts, res.weights)
      && res.variance == None && res.numNeighbors == |pts|
  }

  class OrdinaryKriging {
    const params: Params
    const f: Maths

    constructor (params: Params, f: Maths)
      ensures this.params == params && this.f == f
    {
      this.params, this.f := params, f;
    }

    /** The maxN candidates nearest the target, in no particular order. */
    method SelectNeighbors(tx: real, ty: real, candidates: seq<SamplePoint>, maxN: nat)
      returns (result: seq<SamplePoint>, ghost dropped: seq<SamplePoint>)
      requires maxN <= |candidates|
      ensures |result| == maxN
      ensures Nearest(f, tx, ty, candidates, result, dropped)
    {
      hide Nearest, Euclid;
      var items := new DistItem[|candidates|];
      var i := 0;
      while i < |candidates|
        invariant 0 <= i <= |candidates|
        invariant forall k :: 0 <= k < i ==>
          items[k] == DistItem(candidates[k], Euclid(f, candidates[k].x - tx, candidates[k].y - ty))
      {
        var c := candidates[i];
        items[i] := DistItem(c, Euclid(f, c.x - tx, c.y - ty));
        i := i + 1;
      }
      ghost var before := items[..];
      assert Points(before) == candidates;
      QuickSelectItems(items, 0, items.Length - 1, maxN);
      ghost var s := items[..];
      ghost var ps := Points(s);
      SelectionIsNearest(before, s, f, tx, ty, maxN);
      result := [];
      i := 0;
      while i < maxN
        invariant 0 <= i <= maxN
        invariant result == ps[..i]
      {
        result := result + [items[i].pt];
        i := i + 1;
      }
      dropped := ps[maxN..];
    }

    /** Inverse-distance weighting, or the first sample the target coincides with. */
    method FallbackIDW(tx: real, ty: real, neighbors: seq<SamplePoint>) returns (res: KrigingResult)
      requires neighbors != [] && SqrtLaw(f)
      ensures IsWeighted(f, neighbors, tx, ty, res)
    {
      hide Euclid, RawWeights, InverseSquare, Scaled, Dot;
      var n := |neighbors|;
      var wSum, wVal := 0.0, 0.0;
      var weights: seq<real> := [];
      RawStart(f, neighbors, tx, ty);
      var i := 0;
      while i < n
        invariant 0 <= i <= n && |weights| == i
        invariant RawWeights(f, neighbors, tx, ty, weights) && RawSums(neighbors, weights, wSum, wVal)
      {
        var dist := Euclid(f, neighbors[i].x - tx, neighbors[i].y - ty);
        if dist < COINCIDENT {
          FirstCoincident(f, neighbors, tx, ty, weights);
          return KrigingResult(neighbors[i].value, Some(0.0), [1.0], 1);
        }
        ProductMonotone(COINCIDENT, dist, COINCIDENT, dist);
        var w := 1.0 / (dist * dist);
        QuotientTimes(1.0, dist * dist);
        RawWeightsStep(f, neighbors, tx, ty, weights, i, dist, w);
        RawSumsStep(neighbors, weights, wSum, wVal, i, w);
        wSum := wSum + w;
        wVal := wVal + w * neighbors[i].value;
        weights := weights + [w];
        i := i + 1;
      }
      NormalisedIsInverseSquare(f, neighbors, tx, ty, weights, wSum, wVal);
      weights := Normalise(weights, wSum);
      return KrigingResult(wVal / wSum, None, weights, n);
    }

    /** Writes row i of the coefficient matrix, and the i-th one of the bottom border. */
    method FillRow(a: array<real>, neighbors: seq<SamplePoint>, i: nat)
      requires Usable(params) && i < |neighbors| && a.Length == (|neighbors| + 1) * (|neighbors| + 1)
      modifies a
      ensures forall r, c {:trigger Ix(|neighbors| + 1, r, c)} :: 0 <= r <= |neighbors| && 0 <= c <= |neighbors| ==>
        Ix(|neighbors| + 1, r, c) < a.Length &&
        a[Ix(|neighbors| + 1, r, c)] ==
          if r == i || (r == |neighbors| && c == i) then Coefficient(params, f, neighbors, r, c)
          else old(a[Ix(|neighbors| + 1, r, c)])
    {
      hide Ix, Coefficient;
      var n := |neighbors|;
      var size := n + 1;
      IxFacts(size, size);
      var j := 0;
      while j < n
        invariant 0 <= j <= n
        invariant forall r, c {:trigger Ix(size, r, c)} :: 0 <= r <= n && 0 <= c <= n ==>
          a[Ix(size, r, c)] ==
            if r == i && c < j then Coefficient(params, f, neighbors, r, c) else old(a[Ix(size, r, c)])
      {
        InnerCoefficient(params, f, neighbors, i, j);
        if i == j {
          a[Ix(size, i, j)] := 0.0;
        } else {
          var dx, dy := neighbors[i].x - neighbors[j].x, neighbors[i].y - neighbors[j].y;
          var h := AnisotropicDistance(params, f, dx, dy);
          a[Ix(size, i, j)] := Gamma(params, f, h);
        }
        j := j + 1;
      }
      BorderCoefficient(params, f, neighbors, i);
      a[Ix(size, i, n)] := 1.0;
      a[Ix(size, n, i)] := 1.0;
    }

    /** The flat coefficient matrix. */
    method BuildCoefficients(neighbors: seq<SamplePoint>) returns (a: array<real>)
      requires Usable(params)
      ensures fresh(a) && a.Length == (|neighbors| + 1) * (|neighbors| + 1)
      ensures forall r, c {:trigger Ix(|neighbors| + 1, r, c)} :: 0 <= r <= |neighbors| && 0 <= c <= |neighbors| ==>
        Ix(|neighbors| + 1, r, c) < a.Length &&
        a[Ix(|neighbors| + 1, r, c)] == Coefficient(params, f, neighbors, r, c)
    {
      hide Ix, Coefficient;
      var n := |neighbors|;
      var size := n + 1;
      IxFacts(size, size);
      a := new real[size * size](_ => 0.0);
      var i := 0;
      while i < n
        invariant 0 <= i <= n
        invariant forall r, c {:trigger Ix(size, r, c)} :: 0 <= r <= n && 0 <= c <= n && (r < i || (r == n && c < i)) ==>
          a[Ix(size, r, c)] == Coefficient(params, f, neighbors, r, c)
      {
        FillRow(a, neighbors, i);
        i := i + 1;
      }
      CornerCoefficient(params, f, neighbors);
      a[Ix(size, n, n)] := 0.0;
    }

    /** The right-hand side. */
    method BuildTargets(tx: real, ty: real, neighbors: seq<SamplePoint>) returns (b: array<real>)
      requires Usable(params)
      ensures fresh(b) && b.Length == |neighbors| + 1
      ensures forall i :: 0 <= i <= |neighbors| ==> b[i] == Target(params, f, neighbors, tx, ty, i)
    {
      b := new real[|neighbors| + 1];
      var i := 0;
      while i < |neighbors|
        invariant 0 <= i <= |neighbors|
        invariant forall k :: 0 <= k < i ==> b[k] == Target(params, f, neighbors, tx, ty, k)
      {
        var dx, dy := neighbors[i].x - tx, neighbors[i].y - ty;
        var h := AnisotropicDistance(params, f, dx, dy);
        b[i] := Gamma(params, f, h);
        i := i + 1;
      }
      b[|neighbors|] := 1.0;
    }

    /**
     Estimates the field at the target.  The ghost results say how: from which samples,
     and whether the equations could be solved, with which weights.
     */
    method Interpolate(tx: real, ty: real, neighbors: seq<SamplePoint>)
      returns (res: Outcome, ghost used: seq<SamplePoint>, ghost dropped: seq<SamplePoint>,
               ghost solved: bool, ghost w: seq<real>)
      requires Usable(params) && SqrtLaw(f)
      ensures res.InsufficientNeighbors? <==> |neighbors| < 4
      ensures res.InsufficientNeighbors? ==> res.n == |neighbors|
      ensures res.Estimated? ==>
        && Nearest(f, tx, ty, neighbors, used, dropped)
        && |used| == (if |neighbors| > 24 then 24 else |neighbors|)
      ensures res.Estimated? ==> (solved <==> Accepts(KrigingSystem(params, f, used, tx, ty), |used| + 1))
      ensures res.Estimated? && solved ==>
        && IsKriged(params, f, used, tx, ty, w, res.result)
        && res.result.variance == Some(var e := SquaredError(params, f, used, tx, ty, w); if e < 0.0 then 0.0 else e)
      ensures res.Estimated? && !solved ==> IsWeighted(f, used, tx, ty, res.result)
    {
      hide Accepts, UniqueSolution, Nearest, IsWeighted, ValueOf, VarianceOf, SystemOf, KrigingSystem, Coefficient, Target,
           SquaredError;
      var n := |neighbors|;
      if n < MIN_KRIGING_NEIGHBORS {
        used, dropped, solved, w := [], [], false, [];
        return InsufficientNeighbors(n), used, dropped, solved, w;
      }
      var chosen := neighbors;
      dropped := [];
      NearestAll(f, tx, ty, neighbors);
      if n > MAX_KRIGING_NEIGHBORS {
        chosen, dropped := SelectNeighbors(tx, ty, neighbors, MAX_KRIGING_NEIGHBORS);
        n := |chosen|;
      }
      used := chosen;
      var a := BuildCoefficients(chosen);
      var b := BuildTargets(tx, ty, chosen);
      SystemIs(params, f, chosen, tx, ty, a[..], b[..]);
      var solution := SolveLinearSystem(a, b, n + 1);
      if solution.Singular? {
        solved, w := false, [];
        var fallback := FallbackIDW(tx, ty, chosen);
        return Estimated(fallback), used, dropped, solved, w;
      }
      solved, w := true, solution.value;
      UniqueHasLength(KrigingSystem(params, f, chosen, tx, ty), n + 1, w);
      VarianceIsError(params, f, chosen, tx, ty, w);
      var value, krigingVar := Combine(tx, ty, chosen, solution.value, b);
      if krigingVar < 0.0 {
        krigingVar := 0.0;
      }
      return Estimated(KrigingResult(value, Some(krigingVar), solution.value[..n], n)), used, dropped, solved, w;
    }

    /** The weighted value and the kriging variance of a solution. */
    method Combine(tx: real, ty: real, chosen: seq<SamplePoint>, w: seq<real>, b: array<real>)
      returns (value: real, krigingVar: real)
      requires Usable(params) && |w| == b.Length == |chosen| + 1
      requires forall i :: 0 <= i <= |chosen| ==> b[i] == Target(params, f, chosen, tx, ty, i)
      ensures value == ValueOf(chosen, w) && krigingVar == VarianceOf(params, f, chosen, tx, ty, w)
    {
      hide Target;
      var n := |chosen|;
      value, krigingVar := 0.0, 0.0;
      var i := 0;
      while i < n
        invariant 0 <= i <= n && value == Dot(w, Values(chosen), i)
      {
        value := value + w[i] * chosen[i].value;
        i := i + 1;
      }
      i := 0;
      while i < n
        invariant 0 <= i <= n && krigingVar == Dot(w, Targets(params, f, chosen, tx, ty), i)
      {
        assert Targets(params, f, chosen, tx, ty)[i] == b[i];
        krigingVar := krigingVar + w[i] * b[i];
        i := i + 1;
      }
      krigingVar := krigingVar + w[n];
    }
  }

  lemma UniqueHasLength(m: Matrix, n: nat, w: seq<real>)
    requires UniqueSolution(m, n, w)
    ensures |w| == n && Solves(m, n, w)
  {
  }

  lemma NearestAll(f: Maths, tx: real, ty: real, pts: seq<SamplePoint>)
    ensures Nearest(f, tx, ty, pts, pts, [])
  {
    assert pts + [] == pts;
  }

  // ---------- What every estimate promises ----------

  /** Unbiasedness: the weights add up to one, however the estimate was made. */
  lemma EstimateWeightsSumToOne(v: Params, f: Maths, pts: seq<SamplePoint>, tx: real, ty: real,
                                solved: bool, w: seq<real>, res: KrigingResult)
    requires Usable(v)
    requires if solved then IsKriged(v, f, pts, tx, ty, w, res) else IsWeighted(f, pts, tx, ty, res)
    ensures Sum(res.weights) == 1.0
  {
    if solved {
      WeightsSumToOne(v, f, pts, tx, ty, w);
    } else if exists k: nat :: Coincident(f, pts, tx, ty, k) {
      assert Dot(Ones(1), [1.0], 1) == Dot(Ones(1), [1.0], 0) + 1.0;
    }
  }

  /** A constant field is reproduced, however the estimate was made. */
  lemma EstimateKeepsConstants(v: Params, f: Maths, pts: seq<SamplePoint>, tx: real, ty: real,
                               solved: bool, w: seq<real>, res: KrigingResult, c: real)
    requires Usable(v)
    requires if solved then IsKriged(v, f, pts, tx, ty, w, res) else IsWeighted(f, pts, tx, ty, res)
    requires forall k :: 0 <= k < |pts| ==> pts[k].value == c
    ensures res.value == c
  {
    EstimateWeightsSumToOne(v, f, pts, tx, ty, solved, w, res);
    var n := |pts|;
    if solved {
      DotPrefix(w, Values(pts), w[..n], Values(pts), n);
      DotConstant(w[..n], Values(pts), c, n);
    } else if !exists k: nat :: Coincident(f, pts, tx, ty, k) {
      DotConstant(res.weights, Values(pts), c, n);
    }
  }

  /** The fallback never leaves the range of the sample values. */
  lemma WeightedBetween(f: Maths, pts: seq<SamplePoint>, tx: real, ty: real, res: KrigingResult, lo: real, hi: real)
    requires IsWeighted(f, pts, tx, ty, res)
    requires forall k :: 0 <= k < |pts| ==> lo <= pts[k].value <= hi
    ensures lo <= res.value <= hi
  {
    if !exists k: nat :: Coincident(f, pts, tx, ty, k) {
      DotBetween(res.weights, Values(pts), lo, hi, |pts|);
    }
  }

  /** Exact interpolation: at a candidate's place a solved estimate is that candidate's value, with variance zero. */
  lemma KrigedIsExact(v: Params, f: Maths, tx: real, ty: real, candidates: seq<SamplePoint>,
                      used: seq<SamplePoint>, dropped: seq<SamplePoint>, w: seq<real>, res: KrigingResult, c: nat)
    requires Usable(v) && SqrtLaw(f) && Nearest(f, tx, ty, candidates, used, dropped) && |used| >= 2
    requires IsKriged(v, f, used, tx, ty, w, res)
    requires c < |candidates| && At(candidates[c], tx, ty)
    ensures res.value == candidates[c].value && res.variance == Some(0.0)
  {
    var k := TargetSampleKept(v, f, tx, ty, candidates, used, dropped, w, c);
    ExactAtSample(v, f, used, tx, ty, w, k);
  }

  /** The fallback at a candidate's place takes over some candidate within the coincidence distance. */
  lemma WeightedIsNearlyExact(f: Maths, tx: real, ty: real, candidates: seq<SamplePoint>, used: seq<SamplePoint>,
                              dropped: seq<SamplePoint>, res: KrigingResult, c: nat) returns (k: nat)
    requires SqrtLaw(f) && Nearest(f, tx, ty, candidates, used, dropped) && used != []
    requires IsWeighted(f, used, tx, ty, res)
    requires c < |candidates| && At(candidates[c], tx, ty)
    ensures k < |used| && Euclid(f, used[k].x - tx, used[k].y - ty) < 0.000000000001
    ensures res.value == used[k].value && res.variance == Some(0.0)
  {
    var j := SomeUsedIsClose(f, tx, ty, candidates, used, dropped, c);
    var first := FirstClose(f, used, tx, ty, j);
    k :| Coincident(f, used, tx, ty, k) && res == KrigingResult(used[k].value, Some(0.0), [1.0], 1);
  }

  /** The fallback takes over the first sample less than 1e-12 away, if there is one. */
  lemma TakenOver(f: Maths, pts: seq<SamplePoint>, tx: real, ty: real, res: KrigingResult, k: nat)
    requires IsWeighted(f, pts, tx, ty, res) && k < |pts|
    requires Euclid(f, pts[k].x - tx, pts[k].y - ty) < 0.000000000001
    requires forall i :: 0 <= i < k ==> Euclid(f, pts[i].x - tx, pts[i].y - ty) >= 0.000000000001
    ensures res == KrigingResult(pts[k].value, Some(0.0), [1.0], 1)
  {
    hide Euclid;
    assert Coincident(f, pts, tx, ty, k);
  }

  lemma SomeUsedIsClose(f: Maths, tx: real, ty: real, candidates: seq<SamplePoint>, used: seq<SamplePoint>,
                        dropped: seq<SamplePoint>, c: nat) returns (j: nat)
    requires SqrtLaw(f) && Nearest(f, tx, ty, candidates, used, dropped) && used != []
    requires c < |candidates| && At(candidates[c], tx, ty)
    ensures j < |used| && Euclid(f, used[j].x - tx, used[j].y - ty) < COINCIDENT
  {
    hide Euclid;
    var p := candidates[c];
    assert p in multiset(candidates) && p in multiset(used + dropped) && p in used + dropped;
    var i :| 0 <= i < |used + dropped| && (used + dropped)[i] == p;
    assert p.x - tx == 0.0 && p.y - ty == 0.0;
    ZeroDistance(f, p.x - tx, p.y - ty);
    j := if i < |used| then i else 0;
    assert i >= |used| ==> dropped[i - |used|] == p;
  }

  lemma FirstClose(f: Maths, pts: seq<SamplePoint>, tx: real, ty: real, j: nat) returns (k: nat)
    requires j < |pts| && Euclid(f, pts[j].x - tx, pts[j].y - ty) < COINCIDENT
    ensures Coincident(f, pts, tx, ty, k)
  {
    k := 0;
    while Euclid(f, pts[k].x - tx, pts[k].y - ty) >= COINCIDENT
      invariant k <= j
      invariant forall i :: 0 <= i < k ==> Euclid(f, pts[i].x - tx, pts[i].y - ty) >= COINCIDENT
      decreases j - k
    {
      k := k + 1;
    }
  }

  lemma InnerCoefficient(v: Params, f: Maths, pts: seq<SamplePoint>, i: nat, j: nat)
    requires Usable(v) && i < |pts| && j < |pts|
    ensures Coefficient(v, f, pts, i, j) ==
            if i == j then 0.0 else Separation(v, f, pts[i].x - pts[j].x, pts[i].y - pts[j].y)
  {
  }

  lemma BorderCoefficient(v: Params, f: Maths, pts: seq<SamplePoint>, i: nat)
    requires Usable(v) && i < |pts|
    ensures Coefficient(v, f, pts, i, |pts|) == Coefficient(v, f, pts, |pts|, i) == 1.0
  {
  }

  lemma CornerCoefficient(v: Params, f: Maths, pts: seq<SamplePoint>)
    requires Usable(v)
    ensures Coefficient(v, f, pts, |pts|, |pts|) == 0.0
  {
  }

  lemma SystemIs(v: Params, f: Maths, pts: seq<SamplePoint>, tx: real, ty: real, a: seq<real>, b: seq<real>)
    requires Usable(v) && |b| == |pts| + 1 && |a| == |b| * |b|
    requires forall r, c {:trigger Ix(|b|, r, c)} :: 0 <= r < |b| && 0 <= c < |b| ==>
      Ix(|b|, r, c) < |a| && a[Ix(|b|, r, c)] == Coefficient(v, f, pts, r, c)
    requires forall i :: 0 <= i < |b| ==> b[i] == Target(v, f, pts, tx, ty, i)
    ensures SystemOf(a, b, |b|) == KrigingSystem(v, f, pts, tx, ty)
  {
    hide Ix, Coefficient, Target;
    var n := |b|;
    var m, m' := SystemOf(a, b, n), KrigingSystem(v, f, pts, tx, ty);
    forall r | 0 <= r < n ensures m[r] == m'[r] {
      var row := View(a, n, n)[r];
      assert m[r] == row + [b[r]] && m'[r] == KrigingRow(v, f, pts, tx, ty, r);
      forall c | 0 <= c < n ensures row[c] == Coefficient(v, f, pts, r, c) {
        assert Ix(n, r, c) < |a|;
      }
    }
  }

  lemma RawStart(f: Maths, pts: seq<SamplePoint>, tx: real, ty: real)
    ensures RawWeights(f, pts, tx, ty, []) && RawSums(pts, [], 0.0, 0.0)
  {
  }

  lemma FirstCoincident(f: Maths, pts: seq<SamplePoint>, tx: real, ty: real, raw: seq<real>)
    requires RawWeights(f, pts, tx, ty, raw) && |raw| < |pts|
    requires Euclid(f, pts[|raw|].x - tx, pts[|raw|].y - ty) < COINCIDENT
    ensures Coincident(f, pts, tx, ty, |raw|)
  {
  }

  lemma SelectionIsNearest(before: seq<DistItem>, s: seq<DistItem>, f: Maths, tx: real, ty: real, n: nat)
    requires multiset(s) == multiset(before) && n <= |s| && Separated(s, 0, n, n, |s|)
    requires forall k :: 0 <= k < |before| ==>
      before[k].dist == Euclid(f, before[k].pt.x - tx, before[k].pt.y - ty)
    ensures Nearest(f, tx, ty, Points(before), Points(s)[..n], Points(s)[n..])
  {
    hide Euclid;
    PointsRearranged(before, s);
    DistancesKept(before, s, f, tx, ty);
    assert Points(s)[..n] + Points(s)[n..] == Points(s);
    forall i, j | 0 <= i < n && 0 <= j < |s| - n
      ensures var a, b := Points(s)[..n][i], Points(s)[n..][j];
        Euclid(f, a.x - tx, a.y - ty) <= Euclid(f, b.x - tx, b.y - ty)
    {
      assert s[i].dist <= s[n + j].dist;
    }
  }

  lemma DistancesKept(before: seq<DistItem>, s: seq<DistItem>, f: Maths, tx: real, ty: real)
    requires multiset(before) == multiset(s)
    requires forall k :: 0 <= k < |before| ==>
      before[k].dist == Euclid(f, before[k].pt.x - tx, before[k].pt.y - ty)
    ensures forall k :: 0 <= k < |s| ==> s[k].dist == Euclid(f, s[k].pt.x - tx, s[k].pt.y - ty)
  {
    forall k | 0 <= k < |s| ensures s[k].dist == Euclid(f, s[k].pt.x - tx, s[k].pt.y - ty) {
      assert s[k] in multiset(s) && s[k] in multiset(before) && s[k] in before;
    }
  }

  /** Raw weights of the first samples, none of them coincident. */
  ghost predicate RawWeights(f: Maths, pts: seq<SamplePoint>, tx: real, ty: real, raw: seq<real>) {
    && |raw| <= |pts|
    && (forall k :: 0 <= k < |raw| ==> Euclid(f, pts[k].x - tx, pts[k].y - ty) >= COINCIDENT)
    && (forall k :: 0 <= k < |raw| ==> raw[k] > 0.0 && raw[k] * Spread(f, pts[k], tx, ty) == 1.0)
  }

  /** The running sums of the raw weights and of the weighted values. */
  ghost predicate RawSums(pts: seq<SamplePoint>, raw: seq<real>, wSum: real, wVal: real) {
    && |raw| <= |pts|
    && wSum == Dot(Ones(|raw|), raw, |raw|) && wSum >= 0.0 && (raw != [] ==> wSum > 0.0)
    && wVal == Dot(raw, Values(pts), |raw|)
  }

  lemma RawWeightsStep(f: Maths, pts: seq<SamplePoint>, tx: real, ty: real, raw: seq<real>, i: nat, d: real, w: real)
    requires RawWeights(f, pts, tx, ty, raw) && i == |raw| < |pts|
    requires d == Euclid(f, pts[i].x - tx, pts[i].y - ty) && d >= COINCIDENT && w * (d * d) == 1.0
    ensures RawWeights(f, pts, tx, ty, raw + [w]) && w > 0.0
  {
    hide Euclid;
    ProductMonotone(COINCIDENT, d, COINCIDENT, d);
    FactorPositive(w, d * d);
    assert Spread(f, pts[i], tx, ty) == d * d;
    assert (raw + [w])[i] == w && (raw + [w])[..i] == raw;
  }

  lemma RawSumsStep(pts: seq<SamplePoint>, raw: seq<real>, wSum: real, wVal: real, i: nat, w: real)
    requires RawSums(pts, raw, wSum, wVal) && i == |raw| < |pts| && w > 0.0
    ensures RawSums(pts, raw + [w], wSum + w, wVal + w * pts[i].value)
  {
    hide Dot;
    var next := raw + [w];
    assert next[i] == w && next[..i] == raw;
    DotSnoc(Ones(i), raw, Ones(i + 1), next, i, 1.0, w);
    DotSnoc(raw, Values(pts), next, Values(pts), i, w, pts[i].value);
  }

  lemma DotSnoc(a: seq<real>, b: seq<real>, a': seq<real>, b': seq<real>, k: nat, x: real, y: real)
    requires k <= |a| && k <= |b| && k < |a'| && k < |b'| && a'[k] == x && b'[k] == y
    requires forall j :: 0 <= j < k ==> a[j] == a'[j] && b[j] == b'[j]
    ensures Dot(a', b', k + 1) == Dot(a, b, k) + x * y
  {
    DotPrefix(a, b, a', b', k);
  }

  lemma NormalisedSum(raw: seq<real>, total: real)
    requires total > 0.0 && total == Dot(Ones(|raw|), raw, |raw|)
    ensures Sum(Scaled(raw, total)) == 1.0
  {
    var w, n := Scaled(raw, total), |raw|;
    DotScaled(raw, total, Ones(n), n);
    DotCommutes(w, Ones(n), n);
    DotCommutes(raw, Ones(n), n);
    CancelFactor(Sum(w), 1.0, total);
  }

  lemma NormalisedValue(raw: seq<real>, total: real, vals: seq<real>, sum: real)
    requires total > 0.0 && |raw| == |vals| && sum == Dot(raw, vals, |raw|)
    ensures sum / total == Dot(Scaled(raw, total), vals, |raw|)
  {
    DotScaled(raw, total, vals, |raw|);
    QuotientIs(sum, total, Dot(Scaled(raw, total), vals, |raw|));
  }

  /** Dividing inverse squares by their sum gives weights that add up to one. */
  lemma NormalisedIsInverseSquare(f: Maths, pts: seq<SamplePoint>, tx: real, ty: real, raw: seq<real>, total: real, wVal: real)
    requires |raw| == |pts| && pts != [] && RawWeights(f, pts, tx, ty, raw) && RawSums(pts, raw, total, wVal)
    ensures InverseSquare(f, pts, tx, ty, Scaled(raw, total))
    ensures wVal / total == ValueOf(pts, Scaled(raw, total))
    ensures forall k: nat :: !Coincident(f, pts, tx, ty, k)
  {
    hide Spread, Euclid, Dot;
    NormalisedSum(raw, total);
    NormalisedValue(raw, total, Values(pts), wVal);
    var w := Scaled(raw, total);
    forall k | 0 <= k < |pts| ensures w[k] > 0.0 && w[k] * Spread(f, pts[k], tx, ty) == 1.0 / total {
      ShareOfReciprocal(raw[k], Spread(f, pts[k], tx, ty), total);
    }
  }

  method Normalise(raw: seq<real>, total: real) returns (weights: seq<real>)
    requires total != 0.0
    ensures weights == Scaled(raw, total)
  {
    weights := raw;
    var i := 0;
    while i < |raw|
      invariant 0 <= i <= |raw| && |weights| == |raw|
      invariant forall k :: 0 <= k < |raw| ==> weights[k] == if k < i then raw[k] / total else raw[k]
    {
      weights := weights[i := weights[i] / total];
      i := i + 1;
    }
  }
}
