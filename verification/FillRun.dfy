/** What a filling run is: one decision after another about the void cells, each on the grid the ones before left. */
module FillRun {
  import opened Options
  import opened RealFacts
  import opened FlatIndex
  import opened Elimination
  import opened Variogram
  import opened KrigingLaws
  import opened Kriging
  import opened Grid

  const WEIGHT_TOLERANCE := 0.000000000001

  datatype FillerConfig = FillerConfig(cellSize: real, searchRadius: int, minPointsForKriging: int,
                                       enableFallbackIDW: bool, maxInterpolatePerTick: int)

  /** What became of one void cell. */
  datatype Attempt = TooFewNeighbors | Failed | Kriged(value: real) | Weighted(value: real)
  {
    predicate Fills() {
      Kriged? || Weighted?
    }
  }

  /** How an estimate came about: from which samples, and with which weights if the equations were solved. */
  datatype How = How(used: seq<SamplePoint>, dropped: seq<SamplePoint>, solved: bool, w: seq<real>, res: KrigingResult)

  datatype Step = Step(place: nat, attempt: Attempt, point: Point3D, how: How)

  // ---------- Inverse-distance weights of the filler ----------

  /** The squared distance. */
  function Gap(q: SamplePoint, x: real, y: real): real {
    (q.x - x) * (q.x - x) + (q.y - y) * (q.y - y)
  }

  function Weight(q: SamplePoint, x: real, y: real): real {
    var d := Gap(q, x, y) * Gap(q, x, y);
    if d == 0.0 then 0.0 else 1.0 / d
  }

  function WeightSum(nb: seq<SamplePoint>, x: real, y: real): real {
    if nb == [] then 0.0 else WeightSum(nb[..|nb| - 1], x, y) + Weight(nb[|nb| - 1], x, y)
  }

  function WeightedSum(nb: seq<SamplePoint>, x: real, y: real): real {
    if nb == [] then 0.0
    else WeightedSum(nb[..|nb| - 1], x, y) + Weight(nb[|nb| - 1], x, y) * nb[|nb| - 1].value
  }

  /** Sample k is the first one so close that it is taken over as it is. */
  ghost predicate FirstOnSpot(nb: seq<SamplePoint>, x: real, y: real, k: nat) {
    k < |nb| && Gap(nb[k], x, y) < WEIGHT_TOLERANCE && NoneOnSpot(nb[..k], x, y)
  }

  ghost predicate NoneOnSpot(nb: seq<SamplePoint>, x: real, y: real) {
    forall i :: 0 <= i < |nb| ==> Gap(nb[i], x, y) >= WEIGHT_TOLERANCE
  }

  /** The first sample on the spot, else the mean weighted by the inverse fourth power, else nothing. */
  ghost predicate IdwGives(nb: seq<SamplePoint>, x: real, y: real, r: Option<real>) {
    if !NoneOnSpot(nb, x, y) then exists k: nat :: FirstOnSpot(nb, x, y, k) && r == Some(nb[k].value)
    else if WeightSum(nb, x, y) < WEIGHT_TOLERANCE then r == None
    else r.Some? && r.value * WeightSum(nb, x, y) == WeightedSum(nb, x, y)
  }

  ghost predicate ValuesBetween(nb: seq<SamplePoint>, lo: real, hi: real) {
    forall k :: 0 <= k < |nb| ==> lo <= nb[k].value <= hi
  }

  lemma WeightNonNegative(q: SamplePoint, x: real, y: real)
    ensures Weight(q, x, y) >= 0.0
  {
    var g := Gap(q, x, y);
    SquareZero(g);
    if g * g != 0.0 {
      QuotientMonotone(0.0, 1.0, g * g);
    }
  }

  lemma {:induction false} SumsBetween(nb: seq<SamplePoint>, x: real, y: real, lo: real, hi: real)
    requires ValuesBetween(nb, lo, hi)
    ensures WeightSum(nb, x, y) >= 0.0
    ensures lo * WeightSum(nb, x, y) <= WeightedSum(nb, x, y) <= hi * WeightSum(nb, x, y)
  {
    hide Weight, WeightSum, WeightedSum;
    if nb == [] {
      NothingToWeigh(x, y);
      assert lo * 0.0 == 0.0 && hi * 0.0 == 0.0;
    } else {
      var n := |nb| - 1;
      var init, last := nb[..n], nb[n];
      SumsBetween(init, x, y, lo, hi);
      LastWeight(nb, x, y);
      WeightNonNegative(last, x, y);
      BetweenStep(lo, hi, WeightSum(init, x, y), WeightedSum(init, x, y), Weight(last, x, y), last.value);
    }
  }

  lemma NothingToWeigh(x: real, y: real)
    ensures WeightSum([], x, y) == 0.0 && WeightedSum([], x, y) == 0.0
  {
  }

  lemma LastWeight(nb: seq<SamplePoint>, x: real, y: real)
    requires nb != []
    ensures var init, last := nb[..|nb| - 1], nb[|nb| - 1];
      && WeightSum(nb, x, y) == WeightSum(init, x, y) + Weight(last, x, y)
      && WeightedSum(nb, x, y) == WeightedSum(init, x, y) + Weight(last, x, y) * last.value
  {
  }

  lemma BetweenStep(lo: real, hi: real, s: real, v: real, w: real, x: real)
    requires lo * s <= v <= hi * s && w >= 0.0 && lo <= x <= hi
    ensures lo * (s + w) <= v + w * x <= hi * (s + w)
  {
    ProductNonNegative(w, x - lo);
    ProductNonNegative(w, hi - x);
    assert w * (x - lo) == w * x - lo * w && w * (hi - x) == hi * w - w * x;
    assert lo * (s + w) == lo * s + lo * w && hi * (s + w) == hi * s + hi * w;
  }

  /** The weighted depth lies between the least and the greatest neighbour. */
  lemma IdwBetween(nb: seq<SamplePoint>, x: real, y: real, v: real, lo: real, hi: real)
    requires IdwGives(nb, x, y, Some(v)) && ValuesBetween(nb, lo, hi)
    ensures lo <= v <= hi
  {
    if NoneOnSpot(nb, x, y) {
      SumsBetween(nb, x, y, lo, hi);
      Divided(lo, hi, v, WeightSum(nb, x, y), WeightedSum(nb, x, y));
    }
  }

  lemma Divided(lo: real, hi: real, v: real, s: real, t: real)
    requires s > 0.0 && v * s == t && lo * s <= t <= hi * s
    ensures lo <= v <= hi
  {
    QuotientIs(t, s, v);
    QuotientIs(lo * s, s, lo);
    QuotientIs(hi * s, s, hi);
    QuotientMonotone(lo * s, t, s);
    QuotientMonotone(t, hi * s, s);
  }

  /**
   How the weights fall: between two samples off the spot, each counts with the squared square of the other's distance.
   */
  lemma TwoSamples(p: SamplePoint, q: SamplePoint, x: real, y: real, v: real, a: real, b: real)
    requires a == (p.x - x) * (p.x - x) + (p.y - y) * (p.y - y) && b == (q.x - x) * (q.x - x) + (q.y - y) * (q.y - y)
    requires a >= 0.000000000001 && b >= 0.000000000001 && IdwGives([p, q], x, y, Some(v))
    ensures v * (a * a + b * b) == p.value * (b * b) + q.value * (a * a)
  {
    hide Weight, Gap, WeightSum, WeightedSum;
    assert Gap(p, x, y) == a && Gap(q, x, y) == b by {
      GapIs(p, x, y, a);
      GapIs(q, x, y, b);
    }
    assert [p, q][..1] == [p] && [p][..0] == [];
    LastWeight([p, q], x, y);
    LastWeight([p], x, y);
    NothingToWeigh(x, y);
    WeightIs(p, x, y, a, a * a);
    WeightIs(q, x, y, b, b * b);
    Weighed(v, p.value, q.value, Weight(p, x, y), Weight(q, x, y), a * a, b * b);
  }

  lemma GapIs(q: SamplePoint, x: real, y: real, g: real)
    requires g == (q.x - x) * (q.x - x) + (q.y - y) * (q.y - y)
    ensures Gap(q, x, y) == g
  {
  }

  lemma WeightIs(q: SamplePoint, x: real, y: real, g: real, gg: real)
    requires g == Gap(q, x, y) && g > 0.0 && gg == g * g
    ensures Weight(q, x, y) * gg == 1.0 && gg > 0.0
  {
    hide Gap;
    SquareZero(g);
    QuotientTimes(1.0, gg);
  }

  lemma Weighed(v: real, s: real, t: real, u: real, w: real, a: real, b: real)
    requires u * a == 1.0 && w * b == 1.0 && v * (u + w) == u * s + w * t
    ensures v * (a + b) == s * b + t * a
  {
    assert v * (a + b) == (v * (u + w)) * (a * b) by {
      assert (u + w) * (a * b) == (u * a) * b + (w * b) * a;
      assert (v * (u + w)) * (a * b) == v * ((u + w) * (a * b));
    }
    assert (u * s + w * t) * (a * b) == s * b * (u * a) + t * a * (w * b);
  }

  /** The first sample less than a millionth of a unit away is taken over as it is. */
  lemma OnTheSpot(nb: seq<SamplePoint>, x: real, y: real, k: nat, r: Option<real>)
    requires IdwGives(nb, x, y, r) && k < |nb| && Gap(nb[k], x, y) < 0.000000000001
    requires forall i :: 0 <= i < k ==> Gap(nb[i], x, y) >= 0.000000000001
    ensures r == Some(nb[k].value)
  {
    hide Gap;
    assert !NoneOnSpot(nb, x, y);
    var j: nat :| FirstOnSpot(nb, x, y, j) && r == Some(nb[j].value);
    FirstIsBefore(nb, x, y, j, k);
  }

  lemma FirstIsBefore(nb: seq<SamplePoint>, x: real, y: real, j: nat, k: nat)
    requires FirstOnSpot(nb, x, y, j) && k < |nb| && Gap(nb[k], x, y) < WEIGHT_TOLERANCE
    ensures j <= k
  {
    hide Gap;
  }

  // ---------- One decision ----------

  /** res is an estimate at (x, y) from the nearest of the neighbours. */
  ghost predicate Estimates(params: Params, f: Maths, x: real, y: real, nb: seq<SamplePoint>, how: How)
    requires Usable(params)
  {
    && Nearest(f, x, y, nb, how.used, how.dropped)
    && |how.used| == (if |nb| > MAX_KRIGING_NEIGHBORS then MAX_KRIGING_NEIGHBORS else |nb|)
    && (how.solved <==> Accepts(KrigingSystem(params, f, how.used, x, y), |how.used| + 1))
    && if how.solved then IsKriged(params, f, how.used, x, y, how.w, how.res)
       else IsWeighted(f, how.used, x, y, how.res)
  }

  /** What the filler makes of a void centred at (x, y) with the given neighbours. */
  ghost predicate Decides(cfg: FillerConfig, params: Params, f: Maths, x: real, y: real, nb: seq<SamplePoint>,
                          a: Attempt, how: How)
    requires Usable(params)
  {
    if |nb| < cfg.minPointsForKriging then a == TooFewNeighbors
    else if |nb| >= MIN_KRIGING_NEIGHBORS then
      a.Kriged? && Estimates(params, f, x, y, nb, how) && a.value == how.res.value
    else if !cfg.enableFallbackIDW then a == Failed
    else (a == Failed && IdwGives(nb, x, y, None)) || (a.Weighted? && IdwGives(nb, x, y, Some(a.value)))
  }

  /** The point put into a void cell; the position fields are those the code copies. */
  function PointFor(x: real, y: real, value: real, nb: seq<SamplePoint>, now: nat): Point3D {
    var p := Point3D(0.0, 0.0, value, x, y, 0.0, 128, now);
    if |nb| > 0 then p.(latitude := nb[0].x, longitude := nb[0].y) else p
  }

  /** Where every neighbour says c, so does the point put in. */
  lemma DecidesConstant(cfg: FillerConfig, params: Params, f: Maths, x: real, y: real, nb: seq<SamplePoint>,
                        a: Attempt, how: How, c: real)
    requires Usable(params) && Decides(cfg, params, f, x, y, nb, a, how) && a.Fills()
    requires ValuesBetween(nb, c, c)
    ensures a.value == c
  {
    if a.Kriged? {
      forall k | 0 <= k < |how.used| ensures how.used[k].value == c {
        UsedIsNeighbor(f, x, y, nb, how.used, how.dropped, k);
      }
      EstimateKeepsConstants(params, f, how.used, x, y, how.solved, how.w, how.res, c);
    } else {
      IdwBetween(nb, x, y, a.value, c, c);
    }
  }

  lemma UsedIsNeighbor(f: Maths, x: real, y: real, nb: seq<SamplePoint>, used: seq<SamplePoint>,
                       dropped: seq<SamplePoint>, k: nat)
    requires Nearest(f, x, y, nb, used, dropped) && k < |used|
    ensures used[k] in nb
  {
    assert (used + dropped)[k] == used[k];
    assert used[k] in multiset(used + dropped);
    assert used[k] in multiset(nb);
  }

  // ---------- Runs ----------

  /** The cells after a run of decisions. */
  function After(before: seq<CellState>, steps: seq<Step>): (r: seq<CellState>)
    ensures |r| == |before|
  {
    if steps == [] then before
    else
      var prev, s := After(before, steps[..|steps| - 1]), steps[|steps| - 1];
      if s.attempt.Fills() && s.place < |prev| then prev[s.place := FilledWith(prev[s.place], s.point)] else prev
  }

  /** The decision is right for the grid as it stands. */
  ghost predicate StepOk(grid: SpatialGrid, cfg: FillerConfig, params: Params, f: Maths, now: nat,
                         prev: seq<CellState>, s: Step)
    requires grid.Valid() && |prev| == |grid.cells| && Usable(params)
  {
    && s.place < |grid.cells|
    && var c, nb := grid.cells[s.place],
         grid.Around(prev, s.place / grid.numRowsY, s.place % grid.numRowsY, cfg.searchRadius);
    && Decides(cfg, params, f, c.centerX, c.centerY, nb, s.attempt, s.how)
    && (s.attempt.Fills() ==> s.point == PointFor(c.centerX, c.centerY, s.attempt.value, nb, now))
  }

  /** The decisions are about the first void cells in order, each right for the grid as the ones before left it. */
  ghost predicate RunOk(grid: SpatialGrid, cfg: FillerConfig, params: Params, f: Maths, now: nat,
                        before: seq<CellState>, steps: seq<Step>)
    requires grid.Valid() && |before| == |grid.cells| && Usable(params)
  {
    var places := VoidPlaces(before, |before|);
    && |steps| <= |places|
    && forall i :: 0 <= i < |steps| ==>
         steps[i].place == places[i] && StepOk(grid, cfg, params, f, now, After(before, steps[..i]), steps[i])
  }

  function Filled(steps: seq<Step>): nat {
    if steps == [] then 0
    else Filled(steps[..|steps| - 1]) + if steps[|steps| - 1].attempt.Fills() then 1 else 0
  }

  function FilledByKriging(steps: seq<Step>): (n: nat)
    ensures n <= Filled(steps)
  {
    if steps == [] then 0
    else FilledByKriging(steps[..|steps| - 1]) + if steps[|steps| - 1].attempt.Kriged? then 1 else 0
  }

  /** How many decisions counted against the budget. */
  function Tried(steps: seq<Step>): (n: nat)
    ensures Filled(steps) <= n <= |steps|
  {
    if steps == [] then 0
    else Tried(steps[..|steps| - 1]) + if steps[|steps| - 1].attempt == TooFewNeighbors then 0 else 1
  }

  function PointsOf(steps: seq<Step>): (r: seq<Point3D>)
    ensures |r| == Filled(steps)
  {
    if steps == [] then []
    else
      PointsOf(steps[..|steps| - 1]) + if steps[|steps| - 1].attempt.Fills() then [steps[|steps| - 1].point] else []
  }

  function Budget(cfg: FillerConfig, voids: nat): nat {
    if cfg.maxInterpolatePerTick <= 0 then voids else cfg.maxInterpolatePerTick
  }

  /** A run stops early only when its budget is used up. */
  ghost predicate WithinBudget(cfg: FillerConfig, voids: nat, steps: seq<Step>) {
    Tried(steps) <= Budget(cfg, voids) && |steps| <= voids && (|steps| < voids ==> Tried(steps) == Budget(cfg, voids))
  }

  lemma RunPrefix(grid: SpatialGrid, cfg: FillerConfig, params: Params, f: Maths, now: nat,
                  before: seq<CellState>, steps: seq<Step>)
    requires grid.Valid() && |before| == |grid.cells| && Usable(params) && steps != []
    requires RunOk(grid, cfg, params, f, now, before, steps)
    ensures RunOk(grid, cfg, params, f, now, before, steps[..|steps| - 1])
    ensures var n := |steps| - 1;
      && n < |VoidPlaces(before, |before|)| && steps[n].place == VoidPlaces(before, |before|)[n]
      && StepOk(grid, cfg, params, f, now, After(before, steps[..n]), steps[n])
  {
    hide StepOk, After, VoidPlaces;
    var init := steps[..|steps| - 1];
    forall i | 0 <= i < |init|
      ensures init[i].place == VoidPlaces(before, |before|)[i]
              && StepOk(grid, cfg, params, f, now, After(before, init[..i]), init[i])
    {
      assert init[..i] == steps[..i];
    }
  }

  lemma RunStep(grid: SpatialGrid, cfg: FillerConfig, params: Params, f: Maths, now: nat,
                before: seq<CellState>, steps: seq<Step>, s: Step)
    requires grid.Valid() && |before| == |grid.cells| && Usable(params)
    requires RunOk(grid, cfg, params, f, now, before, steps)
    requires |steps| < |VoidPlaces(before, |before|)| && s.place == VoidPlaces(before, |before|)[|steps|]
    requires StepOk(grid, cfg, params, f, now, After(before, steps), s)
    ensures RunOk(grid, cfg, params, f, now, before, steps + [s])
  {
    hide StepOk, After, VoidPlaces;
    var all := steps + [s];
    forall i | 0 <= i < |all|
      ensures all[i].place == VoidPlaces(before, |before|)[i]
              && StepOk(grid, cfg, params, f, now, After(before, all[..i]), all[i])
    {
      if i < |steps| {
        assert all[..i] == steps[..i];
      } else {
        assert all[..i] == steps;
      }
    }
  }

  lemma RunStart(grid: SpatialGrid, cfg: FillerConfig, params: Params, f: Maths, now: nat, before: seq<CellState>)
    requires grid.Valid() && |before| == |grid.cells| && Usable(params)
    ensures RunOk(grid, cfg, params, f, now, before, []) && After(before, []) == before
    ensures Filled([]) == FilledByKriging([]) == Tried([]) == 0 && PointsOf([]) == []
    ensures |VoidPlaces(before, |before|)| == VoidCount(before)
  {
    VoidPlacesFacts(before, |before|);
    assert before[..|before|] == before;
  }

  lemma CountsStep(before: seq<CellState>, steps: seq<Step>, s: Step)
    ensures var all := steps + [s];
      && Filled(all) == Filled(steps) + (if s.attempt.Fills() then 1 else 0)
      && FilledByKriging(all) == FilledByKriging(steps) + (if s.attempt.Kriged? then 1 else 0)
      && Tried(all) == Tried(steps) + (if s.attempt == TooFewNeighbors then 0 else 1)
      && PointsOf(all) == PointsOf(steps) + (if s.attempt.Fills() then [s.point] else [])
      && After(before, all) == (var prev := After(before, steps);
           if s.attempt.Fills() && s.place < |prev| then prev[s.place := FilledWith(prev[s.place], s.point)] else prev)
  {
    var all := steps + [s];
    assert all[..|all| - 1] == steps && all[|all| - 1] == s;
  }

  // ---------- What every run does ----------

  /** The decisions are about different void cells, in order. */
  ghost predicate InGridOrder(before: seq<CellState>, steps: seq<Step>) {
    && (forall i :: 0 <= i < |steps| ==> steps[i].place < |before| && before[steps[i].place].isVoid)
    && forall i, j :: 0 <= i < j < |steps| ==> steps[i].place < steps[j].place
  }

  lemma RunInGridOrder(grid: SpatialGrid, cfg: FillerConfig, params: Params, f: Maths, now: nat,
                       before: seq<CellState>, steps: seq<Step>)
    requires grid.Valid() && |before| == |grid.cells| && Usable(params)
    requires RunOk(grid, cfg, params, f, now, before, steps)
    ensures InGridOrder(before, steps)
  {
    hide StepOk, VoidPlaces;
    VoidPlacesFacts(before, |before|);
  }

  ghost predicate Touched(steps: seq<Step>, k: nat) {
    exists i :: 0 <= i < |steps| && steps[i].attempt.Fills() && steps[i].place == k
  }

  /** Cells that no decision fills stay as they are. */
  lemma {:induction false} Untouched(before: seq<CellState>, steps: seq<Step>, k: nat)
    requires k < |before| && !Touched(steps, k)
    ensures After(before, steps)[k] == before[k]
    decreases |steps|
  {
    hide FilledWith;
    if steps != [] {
      var n := |steps| - 1;
      assert forall i :: 0 <= i < n ==> steps[..n][i] == steps[i];
      Untouched(before, steps[..n], k);
    }
  }

  /** A cell that is filled is filled once, as it was before the run. */
  lemma {:induction false} FilledOnce(before: seq<CellState>, steps: seq<Step>, i: nat)
    requires InGridOrder(before, steps) && i < |steps| && steps[i].attempt.Fills()
    ensures After(before, steps)[steps[i].place] == FilledWith(before[steps[i].place], steps[i].point)
    decreases |steps|
  {
    hide FilledWith;
    var n := |steps| - 1;
    var init := steps[..n];
    assert forall j :: 0 <= j < n ==> init[j] == steps[j];
    if i < n {
      FilledOnce(before, init, i);
    } else {
      Untouched(before, init, steps[n].place);
    }
  }

  /** Every fill takes one void away. */
  lemma {:induction false} FillsTakeVoids(before: seq<CellState>, steps: seq<Step>)
    requires InGridOrder(before, steps)
    ensures VoidCount(After(before, steps)) + Filled(steps) == VoidCount(before)
    decreases |steps|
  {
    hide VoidCount, FilledWith;
    if steps != [] {
      var n := |steps| - 1;
      var init := steps[..n];
      assert forall j :: 0 <= j < n ==> init[j] == steps[j];
      FillsTakeVoids(before, init);
      Untouched(before, init, steps[n].place);
      if steps[n].attempt.Fills() {
        FillTakesVoid(After(before, init), steps[n]);
      }
    }
  }

  lemma FillTakesVoid(prev: seq<CellState>, s: Step)
    requires s.place < |prev| && prev[s.place].isVoid
    ensures VoidCount(prev[s.place := FilledWith(prev[s.place], s.point)]) == VoidCount(prev) - 1
  {
    VoidCountFilled(prev, s.place, FilledWith(prev[s.place], s.point));
  }

  /** Fill accounting: within a positive budget, voids left are those not filled, cells that had data stay as they were. */
  lemma RunAccounts(grid: SpatialGrid, cfg: FillerConfig, params: Params, f: Maths, now: nat,
                    before: seq<CellState>, steps: seq<Step>)
    requires grid.Valid() && |before| == |grid.cells| && Usable(params)
    requires RunOk(grid, cfg, params, f, now, before, steps) && WithinBudget(cfg, VoidCount(before), steps)
    ensures cfg.maxInterpolatePerTick > 0 ==> Filled(steps) <= cfg.maxInterpolatePerTick
    ensures VoidCount(After(before, steps)) == VoidCount(before) - Filled(steps)
    ensures forall k :: 0 <= k < |before| && !before[k].isVoid ==> After(before, steps)[k] == before[k]
    ensures forall k :: 0 <= k < |before| && before[k].isVoid ==>
      After(before, steps)[k] == before[k] || (After(before, steps)[k].hasData && !After(before, steps)[k].isVoid)
  {
    hide RunOk, After, VoidCount, FilledWith, Filled, Tried;
    RunInGridOrder(grid, cfg, params, f, now, before, steps);
    FillsTakeVoids(before, steps);
    forall k | 0 <= k < |before|
      ensures After(before, steps)[k] == before[k]
        || (before[k].isVoid && After(before, steps)[k].hasData && !After(before, steps)[k].isVoid)
    {
      if Touched(steps, k) {
        var i :| 0 <= i < |steps| && steps[i].attempt.Fills() && steps[i].place == k;
        FilledOnce(before, steps, i);
        FilledIsData(before[k], steps[i].point);
      } else {
        Untouched(before, steps, k);
      }
    }
  }

  lemma {:induction false} RunGrows(before: seq<CellState>, steps: seq<Step>, grid: SpatialGrid)
    ensures grid.Grown(before, After(before, steps))
    decreases |steps|
  {
    if steps != [] {
      RunGrows(before, steps[..|steps| - 1], grid);
    }
  }

  /** A run that saw all voids filled every one that had enough samples around it from the start. */
  lemma EnoughIsFilled(grid: SpatialGrid, cfg: FillerConfig, params: Params, f: Maths, now: nat,
                       before: seq<CellState>, steps: seq<Step>, k: nat)
    requires grid.Valid() && |before| == |grid.cells| && Usable(params)
    requires RunOk(grid, cfg, params, f, now, before, steps) && |steps| == VoidCount(before)
    requires k < |before| && before[k].isVoid
    requires var n := |grid.Around(before, k / grid.numRowsY, k % grid.numRowsY, cfg.searchRadius)|;
      n >= cfg.minPointsForKriging && n >= MIN_KRIGING_NEIGHBORS
    ensures After(before, steps)[k].hasData && !After(before, steps)[k].isVoid
  {
    hide After, Decides, FilledWith, VoidCount, VoidPlaces, Usable;
    var i := DecisionAbout(before, k);
    var prev := After(before, steps[..i]);
    assert StepOk(grid, cfg, params, f, now, prev, steps[i]);
    RunGrows(before, steps[..i], grid);
    MoreAround(grid, before, prev, k / grid.numRowsY, k % grid.numRowsY, cfg.searchRadius);
    var c, nb := grid.cells[k], grid.Around(prev, k / grid.numRowsY, k % grid.numRowsY, cfg.searchRadius);
    EnoughIsKriged(cfg, params, f, c.centerX, c.centerY, nb, steps[i].attempt, steps[i].how);
    RunInGridOrder(grid, cfg, params, f, now, before, steps);
    FilledOnce(before, steps, i);
    FilledIsData(before[k], steps[i].point);
  }

  lemma DecisionAbout(before: seq<CellState>, k: nat) returns (i: nat)
    requires k < |before| && before[k].isVoid
    ensures |VoidPlaces(before, |before|)| == VoidCount(before)
    ensures i < VoidCount(before) && VoidPlaces(before, |before|)[i] == k
  {
    VoidPlacesFacts(before, |before|);
    assert before[..|before|] == before;
    i :| 0 <= i < |VoidPlaces(before, |before|)| && VoidPlaces(before, |before|)[i] == k;
  }

  lemma MoreAround(grid: SpatialGrid, s: seq<CellState>, t: seq<CellState>, cx: int, cy: int, radius: int)
    requires grid.Valid() && |s| == |grid.cells| && grid.Grown(s, t)
    ensures |grid.Around(s, cx, cy, radius)| <= |grid.Around(t, cx, cy, radius)|
  {
    grid.BoxGrows(s, t, cx - radius, cx + radius, cy - radius, cy + radius);
  }

  lemma EnoughIsKriged(cfg: FillerConfig, params: Params, f: Maths, x: real, y: real, nb: seq<SamplePoint>,
                       a: Attempt, how: How)
    requires Usable(params) && Decides(cfg, params, f, x, y, nb, a, how)
    requires |nb| >= cfg.minPointsForKriging && |nb| >= MIN_KRIGING_NEIGHBORS
    ensures a.Kriged?
  {
  }

  lemma FilledIsData(c: CellState, p: Point3D)
    ensures FilledWith(c, p).hasData && !FilledWith(c, p).isVoid
  {
  }

  // ---------- Flat bottoms ----------

  ghost predicate AllDepths(points: seq<Point3D>, c: real) {
    forall p :: p in points ==> p.depth == c
  }

  ghost predicate FlatCell(cell: CellState, c: real) {
    AllDepths(cell.points, c) && (cell.hasData ==> cell.avgDepth == c)
  }

  /** No point anywhere in the grid, and no cell's average, is at another depth. */
  ghost predicate Flat(states: seq<CellState>, c: real) {
    forall k :: 0 <= k < |states| ==> FlatCell(states[k], c)
  }

  /** On a flat bottom all samples say the same depth. */
  lemma AroundIsFlat(grid: SpatialGrid, states: seq<CellState>, cx: int, cy: int, radius: int, c: real)
    requires grid.Valid() && |states| == |grid.cells| && Flat(states, c)
    ensures ValuesBetween(grid.Around(states, cx, cy, radius), c, c)
  {
    hide Ix, Placed, Ceil;
    var nb := grid.Around(states, cx, cy, radius);
    forall k | 0 <= k < |nb| ensures nb[k].value == c {
      grid.AroundIsSampled(states, cx, cy, radius, nb[k]);
      var nx: int, ny: int :|
        -radius <= nx - cx <= radius && -radius <= ny - cy <= radius && nb[k] in grid.SamplesAt(states, nx, ny);
      assert FlatCell(states[Ix(grid.numRowsY, nx, ny)], c);
    }
  }

  /** A flat bottom is filled flat. */
  lemma {:induction false} RunIsFlat(grid: SpatialGrid, cfg: FillerConfig, params: Params, f: Maths, now: nat,
                                     before: seq<CellState>, steps: seq<Step>, c: real)
    requires grid.Valid() && |before| == |grid.cells| && Usable(params)
    requires RunOk(grid, cfg, params, f, now, before, steps) && Flat(before, c)
    ensures Flat(After(before, steps), c) && AllDepths(PointsOf(steps), c)
    decreases |steps|
  {
    hide RunOk, Decides, ValuesBetween, Usable;
    if steps != [] {
      var n := |steps| - 1;
      RunPrefix(grid, cfg, params, f, now, before, steps);
      RunIsFlat(grid, cfg, params, f, now, before, steps[..n], c);
      var prev, s := After(before, steps[..n]), steps[n];
      if s.attempt.Fills() {
        var cx, cy := s.place / grid.numRowsY, s.place % grid.numRowsY;
        AroundIsFlat(grid, prev, cx, cy, cfg.searchRadius, c);
        var cell := grid.cells[s.place];
        DecidesConstant(cfg, params, f, cell.centerX, cell.centerY, grid.Around(prev, cx, cy, cfg.searchRadius),
                        s.attempt, s.how, c);
      }
    }
  }
}
