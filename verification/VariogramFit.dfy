/** The empirical variogram of a set of samples, and the parameters fitted to it. */
module VariogramFit {
  import opened RealFacts
  import opened Variogram

  datatype Pair = Pair(dist: real, diffSq: real)

  // ---------- Lags ----------

  /** The pair is nearer than maxDist, and its distance lies in lag i of the given width. */
  predicate InLag(p: Pair, i: int, width: real, maxDist: real) {
    0.0 < p.dist < maxDist && i as real * width <= p.dist < (i + 1) as real * width
  }

  function CountIn(pairs: seq<Pair>, i: int, width: real, maxDist: real): nat {
    if pairs == [] then 0
    else CountIn(pairs[..|pairs| - 1], i, width, maxDist) + if InLag(pairs[|pairs| - 1], i, width, maxDist) then 1 else 0
  }

  function TotalIn(pairs: seq<Pair>, i: int, width: real, maxDist: real): real {
    if pairs == [] then 0.0
    else TotalIn(pairs[..|pairs| - 1], i, width, maxDist)
         + if InLag(pairs[|pairs| - 1], i, width, maxDist) then pairs[|pairs| - 1].diffSq else 0.0
  }

  /** Half the mean squared difference of the pairs in lag i: the classical estimate of the variogram there. */
  function Estimate(pairs: seq<Pair>, i: int, width: real, maxDist: real): real {
    var n := CountIn(pairs, i, width, maxDist);
    if n == 0 then 0.0 else TotalIn(pairs, i, width, maxDist) / (2.0 * n as real)
  }

  /** Samples that all differ alike: where the squared differences of a lag are D, its estimate is half of D. */
  lemma EstimateOfEqual(pairs: seq<Pair>, i: int, width: real, maxDist: real, d: real)
    requires CountIn(pairs, i, width, maxDist) > 0
    requires forall k :: 0 <= k < |pairs| && InLag(pairs[k], i, width, maxDist) ==> pairs[k].diffSq == d
    ensures Estimate(pairs, i, width, maxDist) == d / 2.0
  {
    var n := CountIn(pairs, i, width, maxDist);
    EqualTotal(pairs, i, width, maxDist, d);
    assert d * n as real == d / 2.0 * (2.0 * n as real);
    QuotientIs(d * n as real, 2.0 * n as real, d / 2.0);
  }

  lemma {:induction false} EqualTotal(pairs: seq<Pair>, i: int, width: real, maxDist: real, d: real)
    requires forall k :: 0 <= k < |pairs| && InLag(pairs[k], i, width, maxDist) ==> pairs[k].diffSq == d
    ensures TotalIn(pairs, i, width, maxDist) == d * CountIn(pairs, i, width, maxDist) as real
  {
    hide InLag;
    if pairs != [] {
      var n := |pairs| - 1;
      EqualTotal(pairs[..n], i, width, maxDist, d);
      var c := CountIn(pairs[..n], i, width, maxDist);
      assert d * (c + 1) as real == d * c as real + d;
    }
  }

  /** Truncating dist / width gives the one lag a distance lies in. */
  lemma LagOf(dist: real, width: real, i: int)
    requires width > 0.0
    ensures i as real * width <= dist < (i + 1) as real * width <==> i == (dist / width).Floor
  {
    QuotientTimes(dist, width);
    Scaled(i as real, dist / width, width, dist);
    Scaled((i + 1) as real, dist / width, width, dist);
  }

  lemma Scaled(a: real, q: real, width: real, dist: real)
    requires width > 0.0 && q * width == dist
    ensures a <= q <==> a * width <= dist
  {
    assert (q - a) * width == dist - a * width;
    if a <= q {
      ProductNonNegative(q - a, width);
    } else {
      ProductPositive(a - q, width);
      assert (a - q) * width == a * width - dist;
    }
  }

  lemma ProductPositive(a: real, b: real)
    requires a > 0.0 && b > 0.0
    ensures a * b > 0.0
  {
  }

  lemma NoLag(p: Pair, width: real, maxDist: real)
    requires p.dist <= 0.0 || p.dist >= maxDist
    ensures forall i :: !InLag(p, i, width, maxDist)
  {
  }

  lemma OneLag(p: Pair, width: real, maxDist: real)
    requires width > 0.0 && 0.0 < p.dist < maxDist
    ensures forall i :: InLag(p, i, width, maxDist) <==> i == (p.dist / width).Floor
  {
    forall i ensures InLag(p, i, width, maxDist) <==> i == (p.dist / width).Floor {
      LagOf(p.dist, width, i);
    }
  }

  /** A distance below maxDist lies in one of the lags. */
  lemma LagInRange(dist: real, width: real, maxDist: real, n: nat)
    requires n > 0 && width == maxDist / n as real && 0.0 < dist < maxDist
    ensures width > 0.0 && 0 <= (dist / width).Floor < n
  {
    QuotientTimes(maxDist, n as real);
    FactorPositive(width, n as real);
    QuotientTimes(dist, width);
    Scaled(n as real, dist / width, width, dist);
    Scaled(0.0, dist / width, width, dist);
    assert 0.0 * width == 0.0;
  }

  function LagCentre(i: int, width: real): real {
    (i as real + 0.5) * width
  }

  /** A lag's centre is halfway from its lower to its upper end. */
  lemma CentreIsHalfway(i: int, width: real)
    ensures LagCentre(i, width) - i as real * width == (i + 1) as real * width - LagCentre(i, width)
  {
    assert (i + 1) as real * width == i as real * width + width;
    assert LagCentre(i, width) == i as real * width + 0.5 * width;
  }

  /** The lags after a further pair, as functions of the lags before. */
  lemma LagsGrow(pairs: seq<Pair>, p: Pair, width: real, maxDist: real, i: int)
    ensures !InLag(p, i, width, maxDist) ==>
      && CountIn(pairs + [p], i, width, maxDist) == CountIn(pairs, i, width, maxDist)
      && TotalIn(pairs + [p], i, width, maxDist) == TotalIn(pairs, i, width, maxDist)
    ensures InLag(p, i, width, maxDist) ==>
      && CountIn(pairs + [p], i, width, maxDist) == CountIn(pairs, i, width, maxDist) + 1
      && TotalIn(pairs + [p], i, width, maxDist) == TotalIn(pairs, i, width, maxDist) + p.diffSq
  {
    assert (pairs + [p])[..|pairs|] == pairs;
  }

  class EmpiricalVariogram {
    const numLags: nat
    const lagWidth: real
    const maxDist: real
    const lags: array<real>
    const gamma: array<real>
    const counts: array<nat>
    /** Every pair added so far. */
    ghost var pairs: seq<Pair>

    ghost predicate Valid()
      reads this, lags, counts
    {
      && lags.Length == gamma.Length == counts.Length == numLags && gamma != lags
      && (numLags > 0 ==> lagWidth == maxDist / numLags as real)
      && (forall i :: 0 <= i < numLags ==> lags[i] == LagCentre(i, lagWidth))
      && forall i :: 0 <= i < numLags ==> counts[i] == CountIn(pairs, i, lagWidth, maxDist)
    }

    ghost predicate Summed()
      requires Valid()
      reads this, lags, counts, gamma
    {
      forall i :: 0 <= i < numLags ==> gamma[i] == TotalIn(pairs, i, lagWidth, maxDist)
    }

    ghost predicate Averaged()
      requires Valid()
      reads this, lags, counts, gamma
    {
      forall i :: 0 <= i < numLags ==> gamma[i] == Estimate(pairs, i, lagWidth, maxDist)
    }

    constructor (numLags: nat, maxDist: real)
      ensures Valid() && Summed() && pairs == [] && this.numLags == numLags && this.maxDist == maxDist
      ensures fresh(lags) && fresh(gamma) && fresh(counts)
    {
      hide LagCentre;
      this.numLags := numLags;
      this.maxDist := maxDist;
      var width := if numLags == 0 then 0.0 else maxDist / numLags as real;
      lagWidth := width;
      lags := new real[numLags](i => LagCentre(i, width));
      gamma := new real[numLags](_ => 0.0);
      counts := new nat[numLags](_ => 0);
      pairs := [];
    }

    /** Adds a pair to its lag; pairs at distance zero or too far apart have none. */
    method AddPair(dist: real, valueDiffSq: real)
      requires Valid() && Summed()
      modifies this`pairs, gamma, counts
      ensures Valid() && Summed() && pairs == old(pairs) + [Pair(dist, valueDiffSq)]
    {
      hide CountIn, TotalIn, LagCentre, InLag;
      ghost var p := Pair(dist, valueDiffSq);
      forall i {
        LagsGrow(pairs, p, lagWidth, maxDist, i);
      }
      pairs := pairs + [p];
      // Without lags the width is infinite, and the quotient below is lag 0, which does not exist.
      if numLags == 0 {
        return;
      }
      if dist <= 0.0 || dist >= maxDist {
        NoLag(p, lagWidth, maxDist);
        return;
      }
      LagInRange(dist, lagWidth, maxDist, numLags);
      var lagIdx := (dist / lagWidth).Floor;
      if lagIdx >= numLags {
        return;
      }
      OneLag(p, lagWidth, maxDist);
      gamma[lagIdx] := gamma[lagIdx] + valueDiffSq;
      counts[lagIdx] := counts[lagIdx] + 1;
    }

    /** Turns sums into estimates. */
    method Finalize()
      requires Valid() && Summed()
      modifies gamma
      ensures Valid() && Averaged()
    {
      for i := 0 to numLags
        invariant Valid()
        invariant forall k :: 0 <= k < i ==> gamma[k] == Estimate(pairs, k, lagWidth, maxDist)
        invariant forall k :: i <= k < numLags ==> gamma[k] == TotalIn(pairs, k, lagWidth, maxDist)
      {
        if counts[i] > 0 {
          gamma[i] := gamma[i] / (2.0 * counts[i] as real);
        } else {
          EmptyTotal(pairs, i, lagWidth, maxDist);
        }
      }
    }
  }

  lemma {:induction false} EmptyTotal(pairs: seq<Pair>, i: int, width: real, maxDist: real)
    requires CountIn(pairs, i, width, maxDist) == 0
    ensures TotalIn(pairs, i, width, maxDist) == 0.0
  {
    if pairs != [] {
      EmptyTotal(pairs[..|pairs| - 1], i, width, maxDist);
    }
  }

  // ---------- Fitting ----------

  function MaxGamma(g: seq<real>, c: seq<nat>): (m: real)
    requires |g| == |c|
    ensures m >= 0.0
    ensures forall i :: 0 <= i < |g| && c[i] > 0 ==> g[i] <= m
    ensures m > 0.0 ==> exists i :: 0 <= i < |g| && c[i] > 0 && g[i] == m
  {
    if g == [] then 0.0
    else
      var m, last := MaxGamma(g[..|g| - 1], c[..|g| - 1]), |g| - 1;
      if c[last] > 0 && g[last] > m then g[last] else m
  }

  function Populated(c: seq<nat>): nat {
    if c == [] then 0 else Populated(c[..|c| - 1]) + if c[|c| - 1] > 0 then 1 else 0
  }

  /** The first lag that holds a pair. */
  ghost predicate IsFirst(c: seq<nat>, i: int) {
    0 <= i < |c| && c[i] > 0 && forall k :: 0 <= k < i ==> c[k] == 0
  }

  /**
   The parameters fitted to an estimate g with counts c. With three lags and a positive maximum, nugget and sill
   share 1.1 times the maximum, the nugget being half the first estimate; the range is never anything but a third
   of the greatest distance, and the anisotropy ratio is never anything but 0.
   */
  ghost predicate Fits(v: Params, g: seq<real>, c: seq<nat>, maxDist: real, model: Model)
    requires |g| == |c|
  {
    && v.model == model && v.range == maxDist / 3.0 && v.anisoAngle == 0.0 && v.anisoRatio == 0.0
    && if Populated(c) < 3 || MaxGamma(g, c) <= 0.0 then v.nugget == 0.01 && v.sill == 1.0
       else
         && v.nugget + v.sill == 1.1 * MaxGamma(g, c) && v.nugget <= 0.5 * MaxGamma(g, c)
         && exists i :: IsFirst(c, i) && v.nugget == 0.5 * g[i]
  }

  method EstimateNugget(ev: EmpiricalVariogram) returns (nugget: real)
    requires ev.Valid()
    ensures if Populated(ev.counts[..]) > 0 then exists i :: IsFirst(ev.counts[..], i) && nugget == 0.5 * ev.gamma[i]
            else nugget == 0.01
  {
    for i := 0 to ev.numLags
      invariant forall k :: 0 <= k < i ==> ev.counts[k] == 0
    {
      if ev.counts[i] > 0 {
        assert IsFirst(ev.counts[..], i);
        SomePopulated(ev.counts[..], i);
        return ev.gamma[i] * 0.5;
      }
    }
    NonePopulated(ev.counts[..]);
    return 0.01;
  }

  lemma {:induction false} SomePopulated(c: seq<nat>, i: nat)
    requires i < |c| && c[i] > 0
    ensures Populated(c) > 0
  {
    if i < |c| - 1 {
      SomePopulated(c[..|c| - 1], i);
    }
  }

  lemma {:induction false} NonePopulated(c: seq<nat>)
    requires forall k :: 0 <= k < |c| ==> c[k] == 0
    ensures Populated(c) == 0
  {
    if c != [] {
      NonePopulated(c[..|c| - 1]);
    }
  }

  /** Lag i is the first one whose estimate reaches the target. */
  ghost predicate FirstReaching(ev: EmpiricalVariogram, target: real, i: int)
    requires ev.Valid()
    reads ev, ev.lags, ev.counts, ev.gamma
  {
    && 0 <= i < ev.numLags && ev.counts[i] > 0 && ev.gamma[i] >= target
    && forall k :: 0 <= k < i && ev.counts[k] > 0 ==> ev.gamma[k] < target
  }

  method EstimateRange(ev: EmpiricalVariogram, nugget: real, sill: real) returns (range: real)
    requires ev.Valid()
    ensures var target := nugget + 0.95 * (sill - nugget);
      || (exists i :: FirstReaching(ev, target, i) && range == LagCentre(i, ev.lagWidth))
      || ((forall i :: 0 <= i < ev.numLags && ev.counts[i] > 0 ==> ev.gamma[i] < target) && range == ev.maxDist / 3.0)
  {
    var target := nugget + 0.95 * (sill - nugget);
    for i := 0 to ev.numLags
      invariant forall k :: 0 <= k < i && ev.counts[k] > 0 ==> ev.gamma[k] < target
    {
      if ev.counts[i] > 0 && ev.gamma[i] >= target {
        assert FirstReaching(ev, target, i);
        return ev.lags[i];
      }
    }
    return ev.maxDist / 3.0;
  }

  /** The largest estimate of a populated lag, and how many lags are populated. */
  method Survey(ev: EmpiricalVariogram) returns (maxGamma: real, validLags: nat)
    requires ev.Valid()
    ensures maxGamma == MaxGamma(ev.gamma[..], ev.counts[..]) && validLags == Populated(ev.counts[..])
  {
    hide CountIn, TotalIn, LagCentre;
    maxGamma, validLags := 0.0, 0;
    ghost var g, c := ev.gamma[..], ev.counts[..];
    for i := 0 to ev.numLags
      invariant maxGamma == MaxGamma(g[..i], c[..i]) && validLags == Populated(c[..i])
    {
      assert g[..i + 1][..i] == g[..i] && c[..i + 1][..i] == c[..i];
      if ev.counts[i] > 0 {
        if ev.gamma[i] > maxGamma {
          maxGamma := ev.gamma[i];
        }
        validLags := validLags + 1;
      }
    }
    assert g[..|g|] == g && c[..|c|] == c;
  }

  method FitFromEmpirical(ev: EmpiricalVariogram, model: Model) returns (v: Params)
    requires ev.Valid() && forall i :: 0 <= i < ev.numLags ==> ev.gamma[i] >= 0.0
    ensures Fits(v, ev.gamma[..], ev.counts[..], ev.maxDist, model) && v.nugget >= 0.0 && v.sill > 0.0
  {
    hide CountIn, TotalIn, LagCentre, Usable, Populated;
    var maxGamma, validLags := Survey(ev);
    if validLags < 3 || maxGamma <= 0.0 {
      return Params(model, 0.01, 1.0, ev.maxDist / 3.0, 0.0, 0.0);
    }
    var nugget := EstimateNugget(ev);
    var sill := maxGamma * 1.1;
    if sill <= nugget {
      sill := nugget + 0.1;
    }
    var practicalRange := EstimateRange(ev, nugget, sill);
    return Params(model, nugget, sill - nugget, practicalRange, 0.0, 0.0);
  }

  // ---------- Collecting pairs ----------

  function PairOf(f: Maths, samples: seq<SamplePoint>, i: nat, j: nat): Pair
    requires i < |samples| && j < |samples|
  {
    var dx, dy, dv := samples[i].x - samples[j].x, samples[i].y - samples[j].y, samples[i].value - samples[j].value;
    Pair(Euclid(f, dx, dy), dv * dv)
  }

  /** A pair is as far apart as its samples lie, and has the square of what they differ by. */
  lemma PairIs(f: Maths, samples: seq<SamplePoint>, i: nat, j: nat)
    requires SqrtLaw(f) && i < |samples| && j < |samples|
    ensures var p, a, b := PairOf(f, samples, i, j), samples[i], samples[j];
      && p.dist >= 0.0 && p.dist * p.dist == (a.x - b.x) * (a.x - b.x) + (a.y - b.y) * (a.y - b.y)
      && p.diffSq == (a.value - b.value) * (a.value - b.value)
  {
    hide Euclid;
    EuclidIsLength(f, samples[i].x - samples[j].x, samples[i].y - samples[j].y);
  }

  /** The pairs of sample i with samples j, j + step, and so on. */
  function RowPairs(f: Maths, samples: seq<SamplePoint>, i: nat, j: nat, step: nat): seq<Pair>
    requires i < |samples| && step > 0
    decreases |samples| - j
  {
    if j >= |samples| then [] else [PairOf(f, samples, i, j)] + RowPairs(f, samples, i, j + step, step)
  }

  function AllPairs(f: Maths, samples: seq<SamplePoint>, i: nat, step: nat): seq<Pair>
    requires step > 0
    decreases |samples| - i
  {
    if i >= |samples| then [] else RowPairs(f, samples, i, i + 1, step) + AllPairs(f, samples, i + step, step)
  }

  function StepFor(n: nat): (step: nat)
    ensures step > 0
  {
    if n * (n - 1) / 2 > 5000 && n > 200 then n / 200 else 1
  }

  /** Of fewer than 400 samples all are used, of more every so many that 200 to 399 remain. */
  lemma StepIs(n: nat)
    ensures n < 400 ==> StepFor(n) == 1
    ensures n >= 200 ==> StepFor(n) * 200 <= n < StepFor(n) * 200 + 200
  {
    if n > 200 {
      assert n * (n - 1) >= 201 * 200;
    }
  }

  lemma {:induction false} RowHas(f: Maths, samples: seq<SamplePoint>, i: nat, j: nat)
    requires i < |samples|
    ensures |RowPairs(f, samples, i, j, 1)| == if j < |samples| then |samples| - j else 0
    ensures forall k :: j <= k < |samples| ==> PairOf(f, samples, i, k) in RowPairs(f, samples, i, j, 1)
    decreases |samples| - j
  {
    hide PairOf;
    if j < |samples| {
      RowHas(f, samples, i, j + 1);
    }
  }

  /** With step one every two samples make a pair, and there is no other pair. */
  lemma {:induction false} EveryPairOnce(f: Maths, samples: seq<SamplePoint>, i: nat)
    requires i <= |samples|
    ensures var m := |samples| - i; 2 * |AllPairs(f, samples, i, 1)| == m * (m - 1)
    ensures forall j, k :: i <= j < k < |samples| ==> PairOf(f, samples, j, k) in AllPairs(f, samples, i, 1)
    decreases |samples| - i
  {
    hide PairOf, RowPairs;
    if i < |samples| {
      RowHas(f, samples, i, i + 1);
      EveryPairOnce(f, samples, i + 1);
      var m := |samples| - i;
      assert m * (m - 1) == (m - 1) * (m - 2) + 2 * (m - 1);
    }
  }

  ghost predicate Squares(pairs: seq<Pair>) {
    forall k :: 0 <= k < |pairs| ==> pairs[k].diffSq >= 0.0
  }

  lemma {:induction false} RowSquares(f: Maths, samples: seq<SamplePoint>, i: nat, j: nat, step: nat)
    requires i < |samples| && step > 0
    ensures Squares(RowPairs(f, samples, i, j, step))
    decreases |samples| - j
  {
    if j < |samples| {
      SquareZero(samples[i].value - samples[j].value);
      RowSquares(f, samples, i, j + step, step);
    }
  }

  lemma {:induction false} AllSquares(f: Maths, samples: seq<SamplePoint>, i: nat, step: nat)
    requires step > 0
    ensures Squares(AllPairs(f, samples, i, step))
    decreases |samples| - i
  {
    if i < |samples| {
      RowSquares(f, samples, i, i + 1, step);
      AllSquares(f, samples, i + step, step);
    }
  }

  lemma {:induction false} TotalNonNegative(pairs: seq<Pair>, i: int, width: real, maxDist: real)
    requires Squares(pairs)
    ensures TotalIn(pairs, i, width, maxDist) >= 0.0
  {
    if pairs != [] {
      TotalNonNegative(pairs[..|pairs| - 1], i, width, maxDist);
    }
  }

  lemma EstimateNonNegative(pairs: seq<Pair>, i: int, width: real, maxDist: real)
    requires Squares(pairs)
    ensures Estimate(pairs, i, width, maxDist) >= 0.0
  {
    var n := CountIn(pairs, i, width, maxDist);
    TotalNonNegative(pairs, i, width, maxDist);
    if n > 0 {
      QuotientMonotone(0.0, TotalIn(pairs, i, width, maxDist), 2.0 * n as real);
    }
  }

  method AddRow(ev: EmpiricalVariogram, f: Maths, samples: seq<SamplePoint>, i: nat, step: nat)
    requires ev.Valid() && ev.Summed() && i < |samples| && step > 0
    modifies ev`pairs, ev.gamma, ev.counts
    ensures ev.Valid() && ev.Summed() && ev.pairs == old(ev.pairs) + RowPairs(f, samples, i, i + 1, step)
  {
    var j := i + 1;
    while j < |samples|
      invariant ev.Valid() && ev.Summed() && j >= 0
      invariant ev.pairs + RowPairs(f, samples, i, j, step) == old(ev.pairs) + RowPairs(f, samples, i, i + 1, step)
      decreases |samples| - j
    {
      ghost var p, rest := ev.pairs, RowPairs(f, samples, i, j + step, step);
      var pair := PairOf(f, samples, i, j);
      ev.AddPair(pair.dist, pair.diffSq);
      assert ev.pairs == p + [pair];
      assert p + ([pair] + rest) == ev.pairs + rest;
      j := j + step;
    }
  }

  method AddAllPairs(ev: EmpiricalVariogram, f: Maths, samples: seq<SamplePoint>, step: nat)
    requires ev.Valid() && ev.Summed() && ev.pairs == [] && step > 0
    modifies ev`pairs, ev.gamma, ev.counts
    ensures ev.Valid() && ev.Summed() && ev.pairs == AllPairs(f, samples, 0, step)
  {
    hide RowPairs;
    var i := 0;
    while i < |samples|
      invariant i >= 0 && ev.Valid() && ev.Summed()
      invariant ev.pairs + AllPairs(f, samples, i, step) == AllPairs(f, samples, 0, step)
      decreases |samples| - i
    {
      ghost var p, row, rest := ev.pairs, RowPairs(f, samples, i, i + 1, step), AllPairs(f, samples, i + step, step);
      AddRow(ev, f, samples, i, step);
      assert p + (row + rest) == ev.pairs + rest;
      i := i + step;
    }
    assert ev.pairs + [] == ev.pairs;
  }

  lemma EstimatesNonNegative(ev: EmpiricalVariogram)
    requires ev.Valid() && ev.Averaged() && Squares(ev.pairs)
    ensures forall k :: 0 <= k < ev.numLags ==> ev.gamma[k] >= 0.0
  {
    hide Estimate;
    forall k | 0 <= k < ev.numLags ensures ev.gamma[k] >= 0.0 {
      EstimateNonNegative(ev.pairs, k, ev.lagWidth, ev.maxDist);
    }
  }

  /**
   The variogram fitted to samples, through all pairs of few samples or a regular subset of the pairs of many;
   ev is the empirical variogram it was fitted to. With the ratio left at 0, no anisotropic distance can be
   computed with the result.
   */
  method FitVariogram(f: Maths, samples: seq<SamplePoint>, model: Model, maxDist: real, numLags: nat)
    returns (v: Params, ev: EmpiricalVariogram)
    ensures ev.Valid() && ev.Averaged() && ev.numLags == numLags && ev.maxDist == maxDist
    ensures ev.pairs == AllPairs(f, samples, 0, StepFor(|samples|))
    ensures Fits(v, ev.gamma[..], ev.counts[..], maxDist, model) && v.nugget >= 0.0 && v.sill > 0.0
    ensures !Usable(v)
  {
    hide AllPairs, CountIn, Estimate, TotalIn;
    ev := new EmpiricalVariogram(numLags, maxDist);
    var step := StepFor(|samples|);
    AddAllPairs(ev, f, samples, step);
    ev.Finalize();
    AllSquares(f, samples, 0, step);
    EstimatesNonNegative(ev);
    v := FitFromEmpirical(ev, model);
  }
}
