/** Filling void cells by interpolation from the cells around them, within a budget. */
module VoidFiller {
  import opened Options
  import opened RealFacts
  import opened FlatIndex
  import opened Elimination
  import opened Variogram
  import opened KrigingLaws
  import opened Kriging
  import opened Grid
  import opened FillRun

  datatype PatchFillResult = PatchFillResult(
    patchID: nat, voidCellsInPatch: nat, filledCells: nat, skippedCells: int,
    krigingCount: nat, idwCount: nat, filledPoints: seq<Point3D>)

  /** Weights falling with the fourth power of the distance; None when there is nothing to weigh. */
  method FallbackIDW(x: real, y: real, neighbors: seq<SamplePoint>) returns (r: Option<real>)
    ensures IdwGives(neighbors, x, y, r)
  {
    hide WeightSum, WeightedSum, Weight;
    var n := |neighbors|;
    if n == 0 {
      NothingToWeigh(x, y);
      return None;
    }
    var wSum, wVal := 0.0, 0.0;
    NothingToWeigh(x, y);
    assert neighbors[..0] == [];
    var i := 0;
    while i < n
      invariant 0 <= i <= n && NoneOnSpot(neighbors[..i], x, y)
      invariant wSum == WeightSum(neighbors[..i], x, y) && wVal == WeightedSum(neighbors[..i], x, y)
    {
      var dx, dy := neighbors[i].x - x, neighbors[i].y - y;
      var dist := dx * dx + dy * dy;
      assert dist == Gap(neighbors[i], x, y);
      if dist < WEIGHT_TOLERANCE {
        assert FirstOnSpot(neighbors, x, y, i);
        return Some(neighbors[i].value);
      }
      ProductMonotone(WEIGHT_TOLERANCE, dist, WEIGHT_TOLERANCE, dist);
      var w := 1.0 / (dist * dist);
      OneMoreWeight(neighbors, x, y, i, dist, w);
      wSum := wSum + w;
      wVal := wVal + w * neighbors[i].value;
      i := i + 1;
    }
    assert neighbors[..i] == neighbors;
    if wSum < WEIGHT_TOLERANCE {
      return None;
    }
    QuotientTimes(wVal, wSum);
    return Some(wVal / wSum);
  }

  lemma OneMoreWeight(nb: seq<SamplePoint>, x: real, y: real, i: nat, dist: real, w: real)
    requires i < |nb| && dist == Gap(nb[i], x, y) && dist * dist != 0.0 && w == 1.0 / (dist * dist)
    ensures WeightSum(nb[..i + 1], x, y) == WeightSum(nb[..i], x, y) + w
    ensures WeightedSum(nb[..i + 1], x, y) == WeightedSum(nb[..i], x, y) + w * nb[i].value
  {
    hide WeightSum, WeightedSum, Gap;
    var q := nb[i];
    assert Weight(q, x, y) == w;
    hide Weight;
    assert nb[..i + 1][..i] == nb[..i] && nb[..i + 1][i] == q;
    LastWeight(nb[..i + 1], x, y);
  }

  predicate OutOfBounds(cfg: GridConfig, minX: real, minY: real, maxX: real, maxY: real) {
    minX < cfg.minX || minY < cfg.minY || maxX > cfg.maxX || maxY > cfg.maxY
  }

  /** No point lies on, or past, the grid's upper edges. */
  ghost predicate ClearOfUpperEdge(cfg: GridConfig, points: seq<Point3D>) {
    forall p :: p in points ==> p.x < cfg.maxX && p.y < cfg.maxY
  }

  /** The four numbers are the least and greatest coordinates. */
  ghost predicate BoundsOf(points: seq<Point3D>, minX: real, minY: real, maxX: real, maxY: real) {
    && (forall p :: p in points ==> minX <= p.x <= maxX && minY <= p.y <= maxY)
    && (exists p :: p in points && p.x == minX) && (exists p :: p in points && p.y == minY)
    && (exists p :: p in points && p.x == maxX) && (exists p :: p in points && p.y == maxY)
  }

  method DefaultBounds(points: seq<Point3D>) returns (minX: real, minY: real, maxX: real, maxY: real)
    requires points != []
    ensures BoundsOf(points, minX, minY, maxX, maxY)
  {
    minX, minY, maxX, maxY := points[0].x, points[0].y, points[0].x, points[0].y;
    var i := 1;
    while i < |points|
      invariant 1 <= i <= |points|
      invariant BoundsOf(points[..i], minX, minY, maxX, maxY)
    {
      ghost var seen := points[..i];
      assert points[..i + 1] == seen + [points[i]];
      var p := points[i];
      BoundsStep(seen, p, minX, minY, maxX, maxY);
      if p.x < minX {
        minX := p.x;
      }
      if p.y < minY {
        minY := p.y;
      }
      if p.x > maxX {
        maxX := p.x;
      }
      if p.y > maxY {
        maxY := p.y;
      }
      i := i + 1;
    }
    assert points[..i] == points;
  }

  lemma BoundsStep(seen: seq<Point3D>, p: Point3D, minX: real, minY: real, maxX: real, maxY: real)
    requires BoundsOf(seen, minX, minY, maxX, maxY)
    ensures BoundsOf(seen + [p], if p.x < minX then p.x else minX, if p.y < minY then p.y else minY,
                     if p.x > maxX then p.x else maxX, if p.y > maxY then p.y else maxY)
  {
    var a :| a in seen && a.x == minX;
    var b :| b in seen && b.y == minY;
    var c :| c in seen && c.x == maxX;
    var d :| d in seen && d.y == maxY;
    assert a in seen + [p] && b in seen + [p] && c in seen + [p] && d in seen + [p] && p in seen + [p];
  }

  lemma {:induction false} AcceptedAll(g: SpatialGrid, points: seq<Point3D>)
    ensures g.Accepted(points) <= |points|
    ensures g.Accepted(points) == |points| <==> forall p :: p in points ==> g.InBounds(p.x, p.y)
  {
    if points != [] {
      var n := |points| - 1;
      AcceptedAll(g, points[..n]);
      assert points == points[..n] + [points[n]];
    }
  }

  /** A padded grid drops no point if and only if it is padded at all. */
  lemma PaddedTakes(g: SpatialGrid, points: seq<Point3D>, minX: real, minY: real, maxX: real, maxY: real,
                       config: FillerConfig)
    requires config.cellSize > 0.0 && BoundsOf(points, minX, minY, maxX, maxY)
    requires g.config == PaddedBy(config, minX, minY, maxX, maxY)
    ensures g.Accepted(points) == |points| <==> config.searchRadius >= 0
  {
    hide BoundsOf;
    var padding := config.cellSize * (config.searchRadius + 1) as real;
    PaddingSign(config.cellSize, config.searchRadius + 1);
    RoomAround(g, points, minX, minY, maxX, maxY, padding);
  }

  lemma RoomAround(g: SpatialGrid, points: seq<Point3D>, minX: real, minY: real, maxX: real, maxY: real, padding: real)
    requires BoundsOf(points, minX, minY, maxX, maxY)
    requires g.config.minX == minX - padding && g.config.maxX == maxX + padding
    requires g.config.minY == minY - padding && g.config.maxY == maxY + padding
    ensures g.Accepted(points) == |points| <==> padding > 0.0
  {
    AcceptedAll(g, points);
    if padding <= 0.0 {
      var p :| p in points && p.x == maxX;
      assert !g.InBounds(p.x, p.y);
    }
  }

  /** A reused grid drops exactly the points on its upper edges. */
  lemma ReusedTakes(g: SpatialGrid, points: seq<Point3D>, minX: real, minY: real, maxX: real, maxY: real)
    requires BoundsOf(points, minX, minY, maxX, maxY) && !OutOfBounds(g.config, minX, minY, maxX, maxY)
    ensures g.Accepted(points) == |points| <==> ClearOfUpperEdge(g.config, points)
  {
    AcceptedAll(g, points);
  }

  lemma PaddingSign(size: real, k: int)
    requires size > 0.0
    ensures size * k as real > 0.0 <==> k > 0
  {
    if k > 0 {
      ProductMonotone(size, size, 1.0, k as real);
    } else {
      ProductNonPositive(k as real, size);
    }
  }

  /** The bounds widened by one cell more than the search radius on every side. */
  function PaddedBy(config: FillerConfig, minX: real, minY: real, maxX: real, maxY: real): GridConfig {
    var padding := config.cellSize * (config.searchRadius + 1) as real;
    GridConfig(config.cellSize, minX - padding, minY - padding, maxX + padding, maxY + padding, 1)
  }

  /** Whether a grid laid out like this is kept for the points: they lie within it or on its edges. */
  ghost predicate Keeps(cfg: GridConfig, points: seq<Point3D>) {
    forall p :: p in points ==> cfg.minX <= p.x <= cfg.maxX && cfg.minY <= p.y <= cfg.maxY
  }

  lemma KeepsIff(cfg: GridConfig, points: seq<Point3D>, minX: real, minY: real, maxX: real, maxY: real)
    requires BoundsOf(points, minX, minY, maxX, maxY)
    ensures Keeps(cfg, points) <==> !OutOfBounds(cfg, minX, minY, maxX, maxY)
  {
  }

  lemma BoundsAreOne(points: seq<Point3D>, a: real, b: real, c: real, d: real, a': real, b': real, c': real, d': real)
    requires BoundsOf(points, a, b, c, d) && BoundsOf(points, a', b', c', d')
    ensures a == a' && b == b' && c == c' && d == d'
  {
  }

  /** The layout of a grid made for the points: their bounds, padded. */
  ghost predicate MadeFor(cfg: GridConfig, config: FillerConfig, points: seq<Point3D>) {
    forall minX, minY, maxX, maxY :: BoundsOf(points, minX, minY, maxX, maxY) ==>
      cfg == PaddedBy(config, minX, minY, maxX, maxY)
  }

  ghost predicate FlatPoints(states: seq<CellState>, c: real) {
    forall k :: 0 <= k < |states| ==> AllDepths(states[k].points, c)
  }

  lemma {:induction false} LoadedIsFlat(g: SpatialGrid, states: seq<CellState>, points: seq<Point3D>, c: real)
    requires g.config.cellSize > 0.0
    requires FlatPoints(states, c) && AllDepths(points, c)
    ensures FlatPoints(g.WithPoints(states, points), c)
  {
    if points != [] {
      var n := |points| - 1;
      LoadedIsFlat(g, states, points[..n], c);
      assert points[n] in points;
    }
  }

  lemma {:induction false} SumOfEqualDepths(points: seq<Point3D>, c: real)
    requires AllDepths(points, c)
    ensures DepthSum(points) == c * |points| as real
  {
    if points != [] {
      var n := |points| - 1;
      SumOfEqualDepths(points[..n], c);
      assert points[n] in points;
      assert c * (n + 1) as real == c * n as real + c;
    }
  }

  lemma StatisticsAreFlat(g: SpatialGrid, before: seq<CellState>, after: seq<CellState>, c: real)
    requires g.Valid() && |before| == |after| == |g.cells| && FlatPoints(before, c)
    requires forall k :: 0 <= k < |g.cells| ==> after[k] == g.Edged(g.TalliedAll(before), k)
    ensures Flat(after, c)
  {
    forall k | 0 <= k < |after| ensures FlatCell(after[k], c) {
      assert AllDepths(before[k].points, c);
      TalliedIsFlat(before[k], g.config.minPointsPerCell, c);
    }
  }

  lemma TalliedIsFlat(cell: CellState, minPoints: int, c: real)
    requires AllDepths(cell.points, c)
    ensures FlatCell(Tallied(cell, minPoints), c)
  {
    if cell.points != [] {
      SumOfEqualDepths(cell.points, c);
      QuotientIs(DepthSum(cell.points), |cell.points| as real, c);
    }
  }

  lemma PublishedIsFlat(g: SpatialGrid, states: seq<CellState>, c: real)
    requires |states| == |g.cells| && Flat(states, c)
    ensures AllDepths(g.Published(states, |g.cells|), c)
  {
    g.PublishedStandsFor(states, |g.cells|);
    forall p | p in g.Published(states, |g.cells|) ensures p.depth == c {
      var k :| 0 <= k < |g.cells| && states[k].hasData && states[k].points != [] && p == PublishedPoint(states[k], g.cells[k]);
      assert FlatCell(states[k], c);
    }
  }

  class VoidFiller {
    const config: FillerConfig
    const kriging: OrdinaryKriging
    var grid: SpatialGrid?
    var lastPatchID: nat

    constructor (config: FillerConfig, kriging: OrdinaryKriging)
      requires config.cellSize > 0.0
      ensures this.config == config && this.kriging == kriging && lastPatchID == 0 && grid == null && GridOk()
    {
      this.config, this.kriging, lastPatchID, grid := config, kriging, 0, null;
    }

    ghost function GridCells(): set<object>
      reads this
    {
      if grid == null then {} else set c | c in grid.cells
    }

    /** The grid, once there is one, was made with the filler's own cell size. */
    ghost predicate GridOk()
      reads this
    {
      config.cellSize > 0.0 && (grid != null ==> grid.Valid() && grid.config.cellSize == config.cellSize)
    }

    /** The decisions a filling run may take on a grid, as the configuration has it. */
    ghost predicate IsRun(g: SpatialGrid, now: nat, before: seq<CellState>, steps: seq<Step>)
      requires g.Valid() && |before| == |g.cells| && Usable(kriging.params)
    {
      RunOk(g, config, kriging.params, kriging.f, now, before, steps)
      && WithinBudget(config, VoidCount(before), steps)
    }

    /** Tries to estimate the depth at the centre of a void cell. */
    method Estimate(x: real, y: real, neighbors: seq<SamplePoint>) returns (a: Attempt, ghost how: How)
      requires Usable(kriging.params) && SqrtLaw(kriging.f)
      ensures Decides(config, kriging.params, kriging.f, x, y, neighbors, a, how)
      ensures a == TooFewNeighbors <==> |neighbors| < config.minPointsForKriging
      ensures a.Kriged? <==> |neighbors| >= config.minPointsForKriging && |neighbors| >= MIN_KRIGING_NEIGHBORS
      ensures a.Weighted? ==> IdwGives(neighbors, x, y, Some(a.value))
    {
      hide Accepts, IdwGives, IsKriged, IsWeighted, Nearest;
      how := How([], [], false, [], KrigingResult(0.0, None, [], 0));
      if |neighbors| < config.minPointsForKriging {
        return TooFewNeighbors, how;
      }
      var outcome, used, dropped, solved, w := kriging.Interpolate(x, y, neighbors);
      if outcome.Estimated? {
        how := How(used, dropped, solved, w, outcome.result);
        return Kriged(outcome.result.value), how;
      }
      if !config.enableFallbackIDW {
        return Failed, how;
      }
      var idw := FallbackIDW(x, y, neighbors);
      if idw.None? {
        return Failed, how;
      }
      return Weighted(idw.value), how;
    }

    /** Column and row computed back from a cell's centre, forced into the grid. */
    method PlaceOfCell(grid: SpatialGrid, cell: GridCell) returns (cx: int, cy: int)
      requires grid.Valid() && config.cellSize != 0.0
      ensures 0 <= cx < grid.numColsX && 0 <= cy < grid.numRowsY
      ensures config.cellSize == grid.config.cellSize ==>
        forall k :: 0 <= k < |grid.cells| && grid.cells[k] == cell ==> Ix(grid.numRowsY, cx, cy) == k
    {
      hide Ix, Ceil, Placed, Truncate;
      var invCellSize := 1.0 / config.cellSize;
      cx := Truncate((cell.centerX - grid.config.minX) * invCellSize);
      cy := Truncate((cell.centerY - grid.config.minY) * invCellSize);
      if config.cellSize == grid.config.cellSize {
        CentresMapBack(grid, cell, invCellSize, cx, cy);
      }
      if cx < 0 {
        cx := 0;
      }
      if cy < 0 {
        cy := 0;
      }
      if cx >= grid.numColsX {
        cx := grid.numColsX - 1;
      }
      if cy >= grid.numRowsY {
        cy := grid.numRowsY - 1;
      }
    }

    /** Decides about the void cell at place k, and fills it if the decision is to. */
    method TryFill(grid: SpatialGrid, voidCell: GridCell, now: nat, ghost k: nat)
      returns (attempt: Attempt, p: Point3D, ghost s: Step)
      requires grid.Valid() && config.cellSize == grid.config.cellSize && Usable(kriging.params) && SqrtLaw(kriging.f)
      requires k < |grid.cells| && grid.cells[k] == voidCell
      modifies grid.cells
      ensures s.place == k && s.attempt == attempt && s.point == p
      ensures StepOk(grid, config, kriging.params, kriging.f, now, old(grid.States()), s)
      ensures grid.States() == if attempt.Fills() then old(grid.States())[k := FilledWith(old(grid.States())[k], p)]
                               else old(grid.States())
    {
      hide Ix, Ceil, Placed, Decides, Usable, SqrtLaw, FilledWith;
      var cx, cy := PlaceOfCell(grid, voidCell);
      assert Ix(grid.numRowsY, cx, cy) == k;
      IxParts(grid.numRowsY, cx, cy);
      var neighbors := grid.GetNeighbors(cx, cy, config.searchRadius);
      ghost var how;
      attempt, how := Estimate(voidCell.centerX, voidCell.centerY, neighbors);
      if !attempt.Fills() {
        p := PointFor(voidCell.centerX, voidCell.centerY, 0.0, neighbors, now);
        s := Step(k, attempt, p, how);
        return;
      }
      p := PointFor(voidCell.centerX, voidCell.centerY, attempt.value, neighbors, now);
      s := Step(k, attempt, p, how);
      var _ := grid.SetCellFilled(cx, cy, p);
    }

    /** Fills the void cells one after another until the budget of interpolations is used up. */
    method FillVoids(grid: SpatialGrid, info: VoidInfo, now: nat) returns (r: PatchFillResult, ghost steps: seq<Step>)
      requires grid.Valid() && config.cellSize == grid.config.cellSize && Usable(kriging.params) && SqrtLaw(kriging.f)
      requires info.voidCells == VoidCount(grid.States())
      modifies this`lastPatchID, grid.cells
      ensures lastPatchID == old(lastPatchID) + 1
      ensures IsRun(grid, now, old(grid.States()), steps) && grid.States() == After(old(grid.States()), steps)
      ensures r == PatchFillResult(lastPatchID, info.voidCells, Filled(steps), info.voidCells - Filled(steps),
                                   FilledByKriging(steps), Filled(steps) - FilledByKriging(steps), PointsOf(steps))
    {
      hide Ix, Ceil, Placed, RunOk, VoidCount, VoidPlaces, After, StepOk, Filled, FilledByKriging, Tried, PointsOf, Usable, SqrtLaw,
           FilledWith, Decides;
      ghost var before := grid.States();
      lastPatchID := lastPatchID + 1;
      var voidCells := grid.GetVoidCells();
      ghost var places := VoidPlaces(before, |grid.cells|);
      var skipped, krigingCount, idwCount, totalFilled, totalInterpolated := 0, 0, 0, 0, 0;
      var points: seq<Point3D> := [];
      steps := [];
      var maxInterpolations := config.maxInterpolatePerTick;
      if maxInterpolations <= 0 {
        maxInterpolations := |voidCells|;
      }
      RunStart(grid, config, kriging.params, kriging.f, now, before);
      var i := 0;
      while i < |voidCells|
        invariant 0 <= i <= |voidCells| && lastPatchID == old(lastPatchID) + 1
        invariant |steps| == i && RunOk(grid, config, kriging.params, kriging.f, now, before, steps)
        invariant grid.States() == After(before, steps)
        invariant totalFilled == Filled(steps) && skipped == i - totalFilled
        invariant totalInterpolated == Tried(steps) <= maxInterpolations
        invariant krigingCount == FilledByKriging(steps) && idwCount == Filled(steps) - FilledByKriging(steps)
        invariant points == PointsOf(steps)
      {
        if totalInterpolated >= maxInterpolations {
          skipped := info.voidCells - totalFilled;
          break;
        }
        var attempt, p;
        ghost var s;
        attempt, p, s := TryFill(grid, voidCells[i], now, places[i]);
        RunStep(grid, config, kriging.params, kriging.f, now, before, steps, s);
        CountsStep(before, steps, s);
        steps := steps + [s];
        if attempt != TooFewNeighbors {
          totalInterpolated := totalInterpolated + 1;
        }
        if attempt == TooFewNeighbors || attempt == Failed {
          skipped := skipped + 1;
        } else {
          if attempt.Weighted? {
            idwCount := idwCount + 1;
          } else {
            krigingCount := krigingCount + 1;
          }
          points := points + [p];
          totalFilled := totalFilled + 1;
        }
        i := i + 1;
      }
      r := PatchFillResult(lastPatchID, info.voidCells, totalFilled, skipped, krigingCount, idwCount, points);
    }

    /** A grid for points within the given bounds: the one there is, emptied, or a new padded one. */
    method PrepareGrid(minX: real, minY: real, maxX: real, maxY: real) returns (g: SpatialGrid, ghost reused: bool)
      requires GridOk()
      modifies this`grid, GridCells()
      ensures GridOk() && grid == g
      ensures reused <==> old(grid) != null && !OutOfBounds(old(grid).config, minX, minY, maxX, maxY)
      ensures forall c :: c in g.cells ==> c in old(GridCells()) || fresh(c)
      ensures reused ==> g == old(grid)
      ensures !reused ==> g.config == PaddedBy(config, minX, minY, maxX, maxY)
      ensures forall k :: 0 <= k < |g.cells| ==> g.cells[k].State() == EMPTY_CELL
    {
      if grid == null || OutOfBounds(grid.config, minX, minY, maxX, maxY) {
        reused := false;
        g := new SpatialGrid(PaddedBy(config, minX, minY, maxX, maxY));
        grid := g;
      } else {
        reused := true;
        g := grid;
        g.Reset();
      }
    }

    /** Puts the points into a grid that fits them and counts what every cell got. */
    method LoadGrid(points: seq<Point3D>) returns (g: SpatialGrid, ghost added: nat, ghost reused: bool)
      requires GridOk() && points != []
      modifies this`grid, GridCells()
      ensures GridOk() && grid == g
      ensures forall c :: c in g.cells ==> c in old(GridCells()) || fresh(c)
      ensures reused <==> old(grid) != null && Keeps(old(grid).config, points)
      ensures if reused then g == old(grid) else MadeFor(g.config, config, points)
      ensures added == g.Accepted(points)
      ensures added == |points| <==> if reused then ClearOfUpperEdge(g.config, points) else config.searchRadius >= 0
      ensures g.Classified(g.States())
      ensures g.States() == Gridded(g, points)
    {
      hide Ix, Ceil, Placed, PaddedBy, BoundsOf, OutOfBounds, ClearOfUpperEdge, Keeps;
      var minX, minY, maxX, maxY := DefaultBounds(points);
      if grid != null {
        KeepsIff(grid.config, points, minX, minY, maxX, maxY);
      }
      forall a, b, c, d | BoundsOf(points, a, b, c, d) ensures a == minX && b == minY && c == maxX && d == maxY {
        BoundsAreOne(points, minX, minY, maxX, maxY, a, b, c, d);
      }
      g, reused := PrepareGrid(minX, minY, maxX, maxY);
      ghost var empty := g.States();
      added := g.AddPoints(points);
      if reused {
        ReusedTakes(g, points, minX, minY, maxX, maxY);
      } else {
        PaddedTakes(g, points, minX, minY, maxX, maxY, config);
      }
      g.ComputeStatistics();
      assert g.States() == Gridded(g, points) by {
        assert empty == seq(|g.cells|, _ => EMPTY_CELL);
      }
    }

    /** Grids the points, fills the voids, and publishes one point for every cell that then has data. */
    method ProcessAndFill(points: seq<Point3D>, now: nat)
      returns (r: Option<PatchFillResult>, all: seq<Point3D>, ghost added: nat, ghost reused: bool, ghost steps: seq<Step>)
      requires GridOk() && Usable(kriging.params) && SqrtLaw(kriging.f)
      modifies this, GridCells()
      ensures GridOk()
      ensures r == None <==> points == []
      ensures points == [] ==> unchanged(this) && all == []
      ensures forall c :: c in GridCells() ==> c in old(GridCells()) || fresh(c)
      ensures points != [] ==>
        && grid != null && added == grid.Accepted(points)
        && (reused <==> old(grid) != null && Keeps(old(grid).config, points))
        && (if reused then grid == old(grid) else MadeFor(grid.config, config, points))
        && (added == |points| <==> if reused then ClearOfUpperEdge(grid.config, points) else config.searchRadius >= 0)
      ensures points != [] ==>
        && var before := Gridded(grid, points);
        && IsRun(grid, now, before, steps) && grid.States() == After(before, steps)
        && all == grid.Published(After(before, steps), |before|)
        && r.value.voidCellsInPatch == VoidCount(before)
        && r.value.filledCells == Filled(steps) && r.value.skippedCells == VoidCount(before) - Filled(steps)
        && r.value.krigingCount == FilledByKriging(steps)
        && r.value.idwCount == Filled(steps) - FilledByKriging(steps)
        && r.value.filledPoints == (if VoidCount(before) == 0 then all else PointsOf(steps))
    {
      hide Ix, Ceil, Placed, RunOk, VoidCount, After, Filled, FilledByKriging, Tried, PointsOf, Gridded, Usable, SqrtLaw,
           Keeps, MadeFor, ClearOfUpperEdge;
      added, reused, all, steps := 0, false, [], [];
      if |points| == 0 {
        return None, all, added, reused, steps;
      }
      var g;
      g, added, reused := LoadGrid(points);
      ghost var before := g.States();
      var info := g.AnalyzeVoids();
      if info.voidCells == 0 {
        RunStart(g, config, kriging.params, kriging.f, now, before);
        all := g.InterpolatedPoints();
        r := Some(PatchFillResult(0, 0, 0, 0, 0, 0, all));
      } else {
        var patch;
        patch, steps := FillVoids(g, info, now);
        all := g.InterpolatedPoints();
        r := Some(patch);
      }
    }
  }

  /** The cells once the points are in and have been counted. */
  ghost function Gridded(g: SpatialGrid, points: seq<Point3D>): (r: seq<CellState>)
    requires g.Valid()
    ensures |r| == |g.cells|
  {
    var tallied := g.TalliedAll(g.WithPoints(seq(|g.cells|, _ => EMPTY_CELL), points));
    seq(|g.cells|, k requires 0 <= k < |g.cells| => g.Edged(tallied, k))
  }

  /** A gridded cell holds exactly the points in its box, in order, with their least, greatest and mean depth. */
  lemma GriddedCell(g: SpatialGrid, points: seq<Point3D>, k: nat)
    requires g.Valid() && k < |g.cells|
    ensures var c := Gridded(g, points)[k];
      && c.points == g.PointsInBox(points, k) && g.DepthsOk(c)
      && (c.points != [] ==> c.avgDepth == DepthSum(c.points) / |c.points| as real)
  {
    g.CellGetsItsBox(points, k);
  }

  /**
   One point, then it and a point two cells further when the radius is one: the grid made for the first is kept, since
   the second point lies on its upper edge, and that point is dropped.  Made for both, a grid would take both.
   */
  method ReuseDrops(vf: VoidFiller, p: Point3D, q: Point3D, now: nat) returns (ghost added: nat)
    requires vf.GridOk() && vf.grid == null && vf.config.searchRadius >= 0
    requires Usable(vf.kriging.params) && SqrtLaw(vf.kriging.f)
    requires q.x == p.x + vf.config.cellSize * (vf.config.searchRadius + 1) as real && q.y == p.y
    modifies vf
    ensures vf.GridOk() && vf.grid != null && added == vf.grid.Accepted([p, q]) < |[p, q]|
  {
    hide Usable, SqrtLaw, Keeps, MadeFor, ClearOfUpperEdge, Gridded, RunOk, After, Filled, FilledByKriging, PointsOf,
         VoidCount, Ix, Ceil, Placed;
    var r, all;
    ghost var reused, steps;
    r, all, added, reused, steps := vf.ProcessAndFill([p], now);
    KeptForEdge(vf.grid.config, vf.config, p, q);
    r, all, added, reused, steps := vf.ProcessAndFill([p, q], now);
    AcceptedAll(vf.grid, [p, q]);
  }

  lemma KeptForEdge(cfg: GridConfig, config: FillerConfig, p: Point3D, q: Point3D)
    requires MadeFor(cfg, config, [p]) && config.cellSize > 0.0 && config.searchRadius >= 0
    requires q.x == p.x + config.cellSize * (config.searchRadius + 1) as real && q.y == p.y
    ensures Keeps(cfg, [p, q]) && !ClearOfUpperEdge(cfg, [p, q])
  {
    PaddingSign(config.cellSize, config.searchRadius + 1);
    assert p in [p] && q in [p, q];
    assert BoundsOf([p], p.x, p.y, p.x, p.y);
  }

  /** Points all at one depth give a surface all at that depth. */
  lemma FlatBottomStaysFlat(vf: VoidFiller, g: SpatialGrid, points: seq<Point3D>, now: nat, steps: seq<Step>, c: real)
    requires g.Valid() && Usable(vf.kriging.params) && vf.IsRun(g, now, Gridded(g, points), steps)
    requires AllDepths(points, c)
    ensures AllDepths(g.Published(After(Gridded(g, points), steps), |g.cells|), c)
  {
    hide RunOk, Ix, Ceil, Placed, Usable;
    var empty := seq(|g.cells|, _ => EMPTY_CELL);
    LoadedIsFlat(g, empty, points, c);
    StatisticsAreFlat(g, g.WithPoints(empty, points), Gridded(g, points), c);
    RunIsFlat(g, vf.config, vf.kriging.params, vf.kriging.f, now, Gridded(g, points), steps, c);
    PublishedIsFlat(g, After(Gridded(g, points), steps), c);
  }

  /** With the grid's own cell size, a cell's centre leads back to the cell. */
  lemma CentresMapBack(grid: SpatialGrid, cell: GridCell, inv: real, cx: int, cy: int)
    requires grid.Valid() && inv == 1.0 / grid.config.cellSize
    requires cx == Truncate((cell.centerX - grid.config.minX) * inv)
    requires cy == Truncate((cell.centerY - grid.config.minY) * inv)
    ensures forall k :: 0 <= k < |grid.cells| && grid.cells[k] == cell ==>
      0 <= cx < grid.numColsX && 0 <= cy < grid.numRowsY && Ix(grid.numRowsY, cx, cy) == k
  {
    hide Ix, Ceil, Placed, Truncate;
    forall k | 0 <= k < |grid.cells| && grid.cells[k] == cell
      ensures 0 <= cx < grid.numColsX && 0 <= cy < grid.numRowsY && Ix(grid.numRowsY, cx, cy) == k
    {
      var rows := grid.numRowsY;
      IxBack(rows, grid.numColsX, k);
      assert Ix(rows, k / rows, k % rows) == k;
      CentreMapsBack(cell, grid.config, k / rows, k % rows, inv);
    }
  }

  lemma CentreMapsBack(cell: GridCell, cfg: GridConfig, cx: nat, cy: nat, inv: real)
    requires cfg.cellSize != 0.0 && inv == 1.0 / cfg.cellSize && Placed(cell, cfg, cx, cy)
    ensures Truncate((cell.centerX - cfg.minX) * inv) == cx
    ensures Truncate((cell.centerY - cfg.minY) * inv) == cy
  {
    hide Truncate;
    CentreQuotient(cell.centerX - cfg.minX, cfg.cellSize, cx, inv);
    CentreQuotient(cell.centerY - cfg.minY, cfg.cellSize, cy, inv);
    TruncateHalf((cell.centerX - cfg.minX) * inv, cx);
    TruncateHalf((cell.centerY - cfg.minY) * inv, cy);
  }

  lemma CentreQuotient(d: real, size: real, c: nat, inv: real)
    requires size != 0.0 && inv == 1.0 / size && d == (c as real * size + (c + 1) as real * size) / 2.0
    ensures d * inv == c as real + 0.5
  {
    QuotientTimes(1.0, size);
    assert d == (c as real + 0.5) * size;
    HalfProduct(c as real + 0.5, size, inv);
  }

  lemma HalfProduct(a: real, size: real, inv: real)
    requires inv * size == 1.0
    ensures a * size * inv == a
  {
    assert a * size * inv == a * (inv * size);
  }

  lemma TruncateHalf(x: real, c: nat)
    requires x == c as real + 0.5
    ensures Truncate(x) == c
  {
  }
}
