/** Where the soundings a surface is made of lie, and where its points are put. */
module Soundings {
  import opened Options
  import opened RealFacts
  import opened FlatIndex
  import opened Variogram
  import opened KrigingLaws
  import opened Kriging
  import opened Grid
  import opened FillRun
  import opened VoidFiller

  /** A gridded point lies in the box of its cell. */
  lemma GriddedIsHoused(g: SpatialGrid, points: seq<Point3D>)
    requires g.Valid()
    ensures g.Housed(Gridded(g, points))
    ensures forall k, p :: 0 <= k < |g.cells| && p in Gridded(g, points)[k].points ==> p in points
  {
    hide Gridded, Ix, Placed, Ceil;
    forall k, p | 0 <= k < |g.cells| && p in Gridded(g, points)[k].points
      ensures g.BoxHolds(k, p.x, p.y) && p in points
    {
      GriddedCell(g, points, k);
      g.BoxPoints(points, k, p);
    }
  }

  /** A decision puts its point at the centre of the void cell, at the depth decided on. */
  ghost predicate AtCentre(g: SpatialGrid, s: Step) {
    && s.place < |g.cells| && s.attempt.Fills()
    && s.point.x == g.cells[s.place].centerX && s.point.y == g.cells[s.place].centerY
    && s.point.depth == s.attempt.value
  }

  lemma FillIsAtCentre(g: SpatialGrid, cfg: FillerConfig, params: Params, f: Maths, now: nat,
                       before: seq<CellState>, steps: seq<Step>, i: nat)
    requires g.Valid() && |before| == |g.cells| && Usable(params) && i < |steps|
    requires RunOk(g, cfg, params, f, now, before, steps) && steps[i].attempt.Fills()
    ensures AtCentre(g, steps[i])
  {
    hide Decides, VoidPlaces, After;
    assert StepOk(g, cfg, params, f, now, After(before, steps[..i]), steps[i]);
  }

  /** The other fields the code gives it: the first sample's x and y as latitude and longitude, intensity 128, the time. */
  lemma FillCarries(g: SpatialGrid, cfg: FillerConfig, params: Params, f: Maths, now: nat,
                    before: seq<CellState>, steps: seq<Step>, i: nat)
    requires g.Valid() && |before| == |g.cells| && Usable(params) && i < |steps|
    requires RunOk(g, cfg, params, f, now, before, steps) && steps[i].attempt.Fills()
    ensures var p, k := steps[i].point, steps[i].place;
      && p.intensity == 128 && p.timestampUS == now && p.z == 0.0
      && k < |g.cells|
      && var nb := g.Around(After(before, steps[..i]), k / g.numRowsY, k % g.numRowsY, cfg.searchRadius);
         nb != [] ==> p.latitude == nb[0].x && p.longitude == nb[0].y
  {
    hide Decides, VoidPlaces, After, SpatialGrid.Around;
    assert StepOk(g, cfg, params, f, now, After(before, steps[..i]), steps[i]);
  }

  // ---------- Edges ----------

  /** The boxes of two cells touch, if only at a corner. */
  ghost predicate Touching(g: SpatialGrid, j: nat, k: nat)
    requires j < |g.cells| && k < |g.cells|
  {
    var c, d, size := g.cells[j], g.cells[k], g.config.cellSize;
    j != k && -size <= c.centerX - d.centerX <= size && -size <= c.centerY - d.centerY <= size
  }

  lemma TouchingIsAdjacent(g: SpatialGrid, cx: nat, cy: nat, nx: nat, ny: nat)
    requires g.Valid() && cx < g.numColsX && cy < g.numRowsY && nx < g.numColsX && ny < g.numRowsY
    ensures var j, k := Ix(g.numRowsY, nx, ny), Ix(g.numRowsY, cx, cy);
      j < |g.cells| && k < |g.cells| && (Touching(g, j, k) <==> g.Adjacent(cx, cy, nx, ny))
  {
    hide Ix, Placed, Ceil;
    var rows, size := g.numRowsY, g.config.cellSize;
    var j, k := Ix(rows, nx, ny), Ix(rows, cx, cy);
    if j == k {
      IxInjective(rows, nx, ny, cx, cy);
    }
    CentreAt(g.cells[j], g.config, nx, ny);
    CentreAt(g.cells[k], g.config, cx, cy);
    StepsApart(nx, cx, size, g.cells[j].centerX - g.cells[k].centerX);
    StepsApart(ny, cy, size, g.cells[j].centerY - g.cells[k].centerY);
  }

  /** Column and row of a cell. */
  lemma PlaceOfIndex(g: SpatialGrid, k: nat) returns (cx: nat, cy: nat)
    requires g.Valid() && k < |g.cells|
    ensures cx < g.numColsX && cy < g.numRowsY && Ix(g.numRowsY, cx, cy) == k
    ensures cx == k / g.numRowsY && cy == k % g.numRowsY
  {
    hide Ix, Placed, Ceil;
    IxBack(g.numRowsY, g.numColsX, k);
    cx, cy := k / g.numRowsY, k % g.numRowsY;
  }

  lemma CentreAt(c: GridCell, cfg: GridConfig, cx: nat, cy: nat)
    requires Placed(c, cfg, cx, cy)
    ensures c.centerX == cfg.minX + cx as real * cfg.cellSize + cfg.cellSize / 2.0
    ensures c.centerY == cfg.minY + cy as real * cfg.cellSize + cfg.cellSize / 2.0
  {
    assert (cx + 1) as real * cfg.cellSize == cx as real * cfg.cellSize + cfg.cellSize;
    assert (cy + 1) as real * cfg.cellSize == cy as real * cfg.cellSize + cfg.cellSize;
  }

  lemma StepsApart(a: nat, b: nat, size: real, d: real)
    requires size > 0.0 && d == a as real * size - b as real * size
    ensures -size <= d <= size <==> -1 <= a - b <= 1
  {
    assert d == (a - b) as real * size;
    if a - b > 1 {
      ProductMonotoneAny(2.0, (a - b) as real, size);
    } else if b - a > 1 {
      ProductMonotoneAny((a - b) as real, -2.0, size);
    } else {
      ProductMonotoneAny((a - b) as real, 1.0, size);
      ProductMonotoneAny(-1.0, (a - b) as real, size);
    }
  }

  /** Where the cells are classified, a data cell is an edge if and only if some void cell's box touches its own. */
  lemma EdgesTouchVoids(g: SpatialGrid, states: seq<CellState>, k: nat)
    requires g.Valid() && |states| == |g.cells| && g.Classified(states) && k < |states| && states[k].hasData
    ensures states[k].isEdge <==> exists j :: 0 <= j < |states| && Touching(g, j, k) && states[j].isVoid
  {
    hide Ix, Placed, Ceil, Touching, SpatialGrid.Adjacent, SpatialGrid.Touches;
    var cx, cy := PlaceOfIndex(g, k);
    assert states[k].isEdge <==> g.Touches(states, cx, cy, true);
    TouchesIsTouching(g, states, cx, cy);
  }

  lemma TouchesIsTouching(g: SpatialGrid, states: seq<CellState>, cx: nat, cy: nat)
    requires g.Valid() && |states| == |g.cells| && cx < g.numColsX && cy < g.numRowsY
    ensures var k := Ix(g.numRowsY, cx, cy);
      k < |g.cells| && (g.Touches(states, cx, cy, true) <==>
        exists j :: 0 <= j < |states| && Touching(g, j, k) && states[j].isVoid)
  {
    hide Ix, Placed, Ceil, Touching;
    var k := Ix(g.numRowsY, cx, cy);
    TouchingIsAdjacent(g, cx, cy, cx, cy);
    if g.Touches(states, cx, cy, true) {
      var nx: nat, ny: nat :| g.Adjacent(cx, cy, nx, ny) && states[Ix(g.numRowsY, nx, ny)].isVoid;
      TouchingIsAdjacent(g, cx, cy, nx, ny);
      assert Touching(g, Ix(g.numRowsY, nx, ny), k);
    }
    if j :| 0 <= j < |states| && Touching(g, j, k) && states[j].isVoid {
      var nx, ny := PlaceOfIndex(g, j);
      TouchingIsAdjacent(g, cx, cy, nx, ny);
      assert states[Ix(g.numRowsY, nx, ny)].isVoid;
    }
  }

  /** What a cell holds after some decisions it held before, or a decision about it put it in. */
  lemma {:induction false} HeldOrPutIn(before: seq<CellState>, steps: seq<Step>, k: nat, p: Point3D)
    requires k < |before| && p in After(before, steps)[k].points && p !in before[k].points
    ensures exists i :: 0 <= i < |steps| && steps[i].place == k && steps[i].attempt.Fills() && p == steps[i].point
    decreases |steps|
  {
    if steps != [] {
      var n := |steps| - 1;
      if p in After(before, steps[..n])[k].points {
        HeldOrPutIn(before, steps[..n], k, p);
        var i :| 0 <= i < n && steps[..n][i].place == k && steps[..n][i].attempt.Fills() && p == steps[..n][i].point;
        assert steps[i].place == k;
      } else {
        assert steps[n].place == k;
      }
    }
  }

  /** Decisions leave every point in the box of its cell. */
  lemma RunHouses(g: SpatialGrid, cfg: FillerConfig, params: Params, f: Maths, now: nat,
                  before: seq<CellState>, steps: seq<Step>)
    requires g.Valid() && |before| == |g.cells| && Usable(params)
    requires RunOk(g, cfg, params, f, now, before, steps) && g.Housed(before)
    ensures g.Housed(After(before, steps))
  {
    hide RunOk, After, Usable, Ix, Placed, Ceil;
    forall k, p | 0 <= k < |before| && p in After(before, steps)[k].points ensures g.BoxHolds(k, p.x, p.y) {
      if p !in before[k].points {
        HeldOrPutIn(before, steps, k, p);
        var i :| 0 <= i < |steps| && steps[i].place == k && steps[i].attempt.Fills() && p == steps[i].point;
        FillIsAtCentre(g, cfg, params, f, now, before, steps, i);
        g.CentreInBox(k);
      }
    }
  }

  /** q has the place and the depth of one of the points. */
  ghost predicate SoundingOf(points: seq<Point3D>, q: SamplePoint) {
    exists p :: p in points && q.x == p.x && q.y == p.y && q.value == p.depth
  }

  /** q is what decision s put in: at the cell's centre, with the depth decided on. */
  ghost predicate PutIn(g: SpatialGrid, s: Step, q: SamplePoint) {
    AtCentre(g, s) && q.x == s.point.x && q.y == s.point.y && q.value == s.point.depth
  }

  /**
   The samples a void is estimated from during a filling run: each is one of the points given, or was put in by an
   earlier decision at the centre of its cell; and it lies in a column and a row at most the radius away.
   */
  lemma RunSeesSoundings(g: SpatialGrid, points: seq<Point3D>, cfg: FillerConfig, params: Params, f: Maths, now: nat,
                         steps: seq<Step>, i: nat, cx: int, cy: int, radius: int, q: SamplePoint)
    requires g.Valid() && Usable(params) && RunOk(g, cfg, params, f, now, Gridded(g, points), steps) && i <= |steps|
    requires q in g.Around(After(Gridded(g, points), steps[..i]), cx, cy, radius)
    ensures g.Close(cx, cy, radius, q)
    ensures SoundingOf(points, q) || exists j :: 0 <= j < i && PutIn(g, steps[j], q)
  {
    hide RunOk, After, Usable, Gridded, Ix, Placed, Ceil;
    var before, part := Gridded(g, points), steps[..i];
    var states := After(before, part);
    RunPart(g, cfg, params, f, now, before, steps, i);
    GriddedIsHoused(g, points);
    RunHouses(g, cfg, params, f, now, before, part);
    g.AroundIsSoundings(states, cx, cy, radius, q);
    g.SoundingIsClose(states, cx, cy, radius, q);
    var k, p := TheSounding(g, states, cx, cy, radius, q);
    if p !in before[k].points {
      HeldOrPutIn(before, part, k, p);
      var j :| 0 <= j < |part| && part[j].place == k && part[j].attempt.Fills() && p == part[j].point;
      FillIsAtCentre(g, cfg, params, f, now, before, part, j);
      assert PutIn(g, steps[j], q);
    }
  }

  lemma TheSounding(g: SpatialGrid, states: seq<CellState>, cx: int, cy: int, radius: int, q: SamplePoint)
    returns (k: nat, p: Point3D)
    requires g.Valid() && |states| == |g.cells| && g.SoundingNear(states, cx, cy, radius, q)
    ensures k < |states| && p in states[k].points && q.x == p.x && q.y == p.y && q.value == p.depth
  {
    hide Ix, Placed, Ceil;
    var nx: int, ny: int :|
      -radius <= nx - cx <= radius && -radius <= ny - cy <= radius && g.SoundingAt(states, nx, ny, q);
    k := Ix(g.numRowsY, nx, ny);
    p :| p in states[k].points && q.x == p.x && q.y == p.y && q.value == p.depth;
  }

  lemma {:induction false} RunPart(g: SpatialGrid, cfg: FillerConfig, params: Params, f: Maths, now: nat,
                                   before: seq<CellState>, steps: seq<Step>, i: nat)
    requires g.Valid() && |before| == |g.cells| && Usable(params) && i <= |steps|
    requires RunOk(g, cfg, params, f, now, before, steps)
    ensures RunOk(g, cfg, params, f, now, before, steps[..i])
    decreases |steps|
  {
    hide RunOk, Usable;
    var n := |steps|;
    if i == n {
      assert steps[..i] == steps;
    } else {
      RunPrefix(g, cfg, params, f, now, before, steps);
      RunPart(g, cfg, params, f, now, before, steps[..n - 1], i);
      assert steps[..n - 1][..i] == steps[..i];
    }
  }

  // ---------- What is published ----------

  /** p is halfway across the box of cell k either way. */
  ghost predicate Halfway(g: SpatialGrid, k: nat, p: Point3D)
    requires k < |g.cells|
  {
    p.x - g.cells[k].minX == g.cells[k].maxX - p.x && p.y - g.cells[k].minY == g.cells[k].maxY - p.y
  }

  /** d times the number of points is the sum of their depths. */
  ghost predicate IsMean(points: seq<Point3D>, d: real) {
    points != [] && d * |points| as real == DepthSum(points)
  }

  /** p carries on what q says besides place and depth. */
  predicate Carries(p: Point3D, q: Point3D) {
    p.latitude == q.latitude && p.longitude == q.longitude && p.intensity == q.intensity
  }

  /** p stands for a decision that filled cell k, in whose box these points were. */
  ghost predicate FilledIn(g: SpatialGrid, s: Step, k: nat, inBox: seq<Point3D>, p: Point3D) {
    AtCentre(g, s) && s.place == k && p.depth == s.attempt.value && Carries(p, if inBox != [] then inBox[0] else s.point)
  }

  /** p is in the middle of cell k, at the depth a decision put in there, or the mean depth of the points in its box. */
  ghost predicate SurfaceAt(g: SpatialGrid, points: seq<Point3D>, steps: seq<Step>, k: nat, p: Point3D)
    requires k < |g.cells|
  {
    var inBox := g.PointsInBox(points, k);
    && Halfway(g, k, p)
    && ((IsMean(inBox, p.depth) && Carries(p, inBox[0]))
        || exists i :: 0 <= i < |steps| && FilledIn(g, steps[i], k, inBox, p))
  }

  /**
   The surface: every published point is in the middle of a cell, and its depth is the mean of the soundings in the
   cell's box, or the depth a decision of the run put in there.
   */
  lemma PublishedIsSurface(g: SpatialGrid, points: seq<Point3D>, cfg: FillerConfig, params: Params, f: Maths, now: nat,
                           steps: seq<Step>, p: Point3D)
    requires g.Valid() && Usable(params) && RunOk(g, cfg, params, f, now, Gridded(g, points), steps)
    requires p in g.Published(After(Gridded(g, points), steps), |g.cells|)
    ensures exists k :: 0 <= k < |g.cells| && SurfaceAt(g, points, steps, k, p)
  {
    hide RunOk, After, Usable, Gridded, Ix, Placed, Ceil, SurfaceAt, PublishedPoint, Touched;
    var before := Gridded(g, points);
    var states := After(before, steps);
    g.PublishedStandsFor(states, |g.cells|);
    var k :| 0 <= k < |g.cells| && states[k].hasData && states[k].points != [] && p == PublishedPoint(states[k], g.cells[k]);
    if Touched(steps, k) {
      FilledSurface(g, points, cfg, params, f, now, steps, k);
    } else {
      Untouched(before, steps, k);
      MeanSurface(g, points, steps, k);
    }
  }

  lemma FilledSurface(g: SpatialGrid, points: seq<Point3D>, cfg: FillerConfig, params: Params, f: Maths, now: nat,
                      steps: seq<Step>, k: nat)
    requires g.Valid() && Usable(params) && RunOk(g, cfg, params, f, now, Gridded(g, points), steps)
    requires k < |g.cells| && Touched(steps, k)
    ensures var c := After(Gridded(g, points), steps)[k];
      c.points != [] && SurfaceAt(g, points, steps, k, PublishedPoint(c, g.cells[k]))
  {
    hide RunOk, After, Usable, Gridded, Ix, Placed, Ceil;
    var before := Gridded(g, points);
    var i :| 0 <= i < |steps| && steps[i].attempt.Fills() && steps[i].place == k;
    RunInGridOrder(g, cfg, params, f, now, before, steps);
    FilledOnce(before, steps, i);
    FillIsAtCentre(g, cfg, params, f, now, before, steps, i);
    g.CentreInBox(k);
    GriddedCell(g, points, k);
    assert FilledIn(g, steps[i], k, g.PointsInBox(points, k), PublishedPoint(After(before, steps)[k], g.cells[k]));
  }

  lemma MeanSurface(g: SpatialGrid, points: seq<Point3D>, steps: seq<Step>, k: nat)
    requires g.Valid() && k < |g.cells| && Gridded(g, points)[k].points != []
    ensures SurfaceAt(g, points, steps, k, PublishedPoint(Gridded(g, points)[k], g.cells[k]))
  {
    hide Gridded, Ix, Placed, Ceil, DepthSum, AtCentre, SpatialGrid.PointsInBox, SpatialGrid.DepthsOk;
    var c := Gridded(g, points)[k];
    GriddedCell(g, points, k);
    QuotientTimes(DepthSum(c.points), |c.points| as real);
    g.CentreInBox(k);
  }

  /** In a grid made for its points, the cells with data are those with a point in their box; all others are void. */
  lemma DataWhereSounded(g: SpatialGrid, points: seq<Point3D>, config: FillerConfig, k: nat)
    requires g.Valid() && points != [] && MadeFor(g.config, config, points) && k < |g.cells|
    ensures var c := Gridded(g, points)[k];
      && (c.hasData <==> g.PointsInBox(points, k) != []) && (c.isVoid <==> g.PointsInBox(points, k) == [])
  {
    hide Ix, Placed, Ceil, SpatialGrid.PointsInBox, SpatialGrid.WithPoints, SpatialGrid.Touches, DepthSum;
    var minX, minY, maxX, maxY := SomeBounds(points);
    assert g.config == PaddedBy(config, minX, minY, maxX, maxY);
    GriddedCell(g, points, k);
    TalliedSplits(g.WithPoints(seq(|g.cells|, _ => EMPTY_CELL), points)[k], g.config.minPointsPerCell);
  }

  // ---------- Room around the soundings ----------

  /**
   What the padding of a new grid is for: around the cell of every point it was made for there are cells as far as
   the search radius reaches, on all sides.
   */
  lemma RoomToSearch(g: SpatialGrid, points: seq<Point3D>, config: FillerConfig, p: Point3D, nx: int, ny: int)
    requires g.Valid() && points != [] && p in points && config.searchRadius >= 0
    requires MadeFor(g.config, config, points) && g.config.cellSize == config.cellSize
    requires Covers(g.config.minX, g.config.cellSize, nx, p.x) && Covers(g.config.minY, g.config.cellSize, ny, p.y)
    ensures config.searchRadius < nx && nx + config.searchRadius < g.numColsX - 1
    ensures config.searchRadius < ny && ny + config.searchRadius < g.numRowsY - 1
  {
    hide Covers, Ix, Placed, Ceil, Span;
    var minX, minY, maxX, maxY := SomeBounds(points);
    assert g.config == PaddedBy(config, minX, minY, maxX, maxY);
    RoomInLine(g.config.minX, g.config.maxX, minX, maxX, config.cellSize, config.searchRadius, p.x, nx, g.numColsX);
    RoomInLine(g.config.minY, g.config.maxY, minY, maxY, config.cellSize, config.searchRadius, p.y, ny, g.numRowsY);
  }

  lemma RoomInLine(lo: real, hi: real, min: real, max: real, size: real, radius: int, x: real, n: int, count: nat)
    requires size > 0.0 && radius >= 0 && min <= x <= max && Covers(lo, size, n, x)
    requires lo == min - size * (radius + 1) as real && hi == max + size * (radius + 1) as real
    requires count == Ceil(Span(hi - lo, size) / size) + 1
    ensures radius < n && n + radius < count - 1
  {
    hide Ceil;
    var pad := size * (radius + 1) as real;
    PaddingSign(size, radius + 1);
    assert hi - lo > 0.0 && Span(hi - lo, size) == hi - lo;
    LowRoom(size, radius, n, x - lo);
    HighRoom(size, radius, n, x - lo, hi - lo);
  }

  lemma LowRoom(size: real, radius: int, n: int, d: real)
    requires size > 0.0 && d >= size * (radius + 1) as real && d < (n + 1) as real * size
    ensures radius < n
  {
    if n <= radius {
      ProductMonotoneAny((n + 1) as real, (radius + 1) as real, size);
    }
  }

  lemma HighRoom(size: real, radius: int, n: int, d: real, extent: real)
    requires size > 0.0 && n as real * size <= d && d + size * (radius + 1) as real <= extent
    ensures n + radius < Ceil(extent / size)
  {
    assert (n + radius + 1) as real * size == n as real * size + size * (radius + 1) as real;
    QuotientMonotone((n + radius + 1) as real * size, extent, size);
    QuotientIs((n + radius + 1) as real * size, size, (n + radius + 1) as real);
    CeilAbove(extent / size, n + radius + 1);
  }

  lemma CeilAbove(q: real, n: int)
    requires n as real <= q
    ensures n <= Ceil(q)
  {
  }

  lemma {:induction false} SomeBounds(points: seq<Point3D>) returns (minX: real, minY: real, maxX: real, maxY: real)
    requires points != []
    ensures BoundsOf(points, minX, minY, maxX, maxY)
  {
    var n := |points| - 1;
    var p := points[n];
    assert points == points[..n] + [p];
    if n == 0 {
      minX, minY, maxX, maxY := p.x, p.y, p.x, p.y;
    } else {
      minX, minY, maxX, maxY := SomeBounds(points[..n]);
      BoundsStep(points[..n], p, minX, minY, maxX, maxY);
      minX, maxX := if p.x < minX then p.x else minX, if p.x > maxX then p.x else maxX;
      minY, maxY := if p.y < minY then p.y else minY, if p.y > maxY then p.y else maxY;
    }
  }
}
