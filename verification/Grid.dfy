/** The spatial grid: which cell a point falls in, and which cells hold data, are void, or lie at an edge. */
module Grid {
  import opened Options
  import opened RealFacts
  import opened FlatIndex
  import opened Variogram

  datatype Point3D = Point3D(latitude: real, longitude: real, depth: real, x: real, y: real, z: real,
                             intensity: nat, timestampUS: nat)

  datatype GridConfig = GridConfig(cellSize: real, minX: real, minY: real, maxX: real, maxY: real, minPointsPerCell: int)

  /** What a cell holds; a depth bound of None stands for the infinity it starts from. */
  datatype CellState = CellState(points: seq<Point3D>, minDepth: Option<real>, maxDepth: Option<real>,
                                 avgDepth: real, hasData: bool, isEdge: bool, isVoid: bool)

  const EMPTY_CELL := CellState([], None, None, 0.0, false, false, false)

  // ---------- Geometry ----------

  function Ceil(x: real): int {
    -((-x).Floor)
  }

  /** int(x) of a non-negative float. */
  function Truncate(x: real): int {
    if x >= 0.0 then x.Floor else Ceil(x)
  }

  /** Place k of a row of cells of the given size covers x. */
  predicate Covers(min: real, size: real, k: int, x: real) {
    min + k as real * size <= x < min + (k + 1) as real * size
  }

  lemma FloorCovers(min: real, size: real, x: real)
    requires size > 0.0
    ensures Covers(min, size, ((x - min) / size).Floor, x)
  {
    QuotientTimes(x - min, size);
    ScaledFloor(x - min, size, (x - min) / size);
  }

  lemma ScaledFloor(d: real, size: real, q: real)
    requires size > 0.0 && q * size == d
    ensures q.Floor as real * size <= d < (q.Floor + 1) as real * size
  {
    TimesSize(q.Floor as real, q, (q.Floor + 1) as real, size, d);
  }

  lemma TimesSize(a: real, q: real, b: real, size: real, d: real)
    requires a <= q < b && size > 0.0 && q * size == d
    ensures a * size <= d < b * size
  {
    ProductMonotoneAny(a, q, size);
    StrictProduct(q, b, size);
  }

  lemma ProductMonotoneAny(a: real, b: real, d: real)
    requires a <= b && d >= 0.0
    ensures a * d <= b * d
  {
    ProductNonNegative(b - a, d);
    assert (b - a) * d == b * d - a * d;
  }

  lemma StrictProduct(a: real, b: real, d: real)
    requires a < b && d > 0.0
    ensures a * d < b * d
  {
    ProductMonotoneAny(a, b, d);
    if a * d == b * d {
      CancelFactor(a, b, d);
    }
  }

  lemma CoversOnce(min: real, size: real, j: int, k: int, x: real)
    requires size > 0.0 && Covers(min, size, j, x) && Covers(min, size, k, x)
    ensures j == k
  {
    if j < k {
      Apart((j + 1) as real, k as real, min, size, x);
    } else if k < j {
      Apart((k + 1) as real, j as real, min, size, x);
    }
  }

  lemma Apart(a: real, b: real, min: real, size: real, x: real)
    requires a <= b && size > 0.0 && x < min + a * size
    ensures x < min + b * size
  {
    ProductMonotoneAny(a, b, size);
  }

  /** The places that one more than the rounded-up quotient leaves room for cover the whole range. */
  lemma RangeCovered(min: real, max: real, size: real, x: real)
    requires size > 0.0 && min <= x < max
    ensures 0 <= ((x - min) / size).Floor < Ceil((max - min) / size) + 1
  {
    QuotientMonotone(0.0, x - min, size);
    QuotientMonotone(x - min, max - min, size);
    var a, b := (x - min) / size, (max - min) / size;
    assert a <= b && 0.0 <= a;
    assert Ceil(b) as real >= b;
  }

  class GridCell {
    const minX: real
    const minY: real
    const maxX: real
    const maxY: real
    const centerX: real
    const centerY: real
    var points: seq<Point3D>
    var minDepth: Option<real>
    var maxDepth: Option<real>
    var avgDepth: real
    var hasData: bool
    var isEdge: bool
    var isVoid: bool

    constructor (minX: real, minY: real, maxX: real, maxY: real)
      ensures this.minX == minX && this.minY == minY && this.maxX == maxX && this.maxY == maxY
      ensures centerX == (minX + maxX) / 2.0 && centerY == (minY + maxY) / 2.0
      ensures State() == EMPTY_CELL
    {
      this.minX, this.minY, this.maxX, this.maxY := minX, minY, maxX, maxY;
      centerX, centerY := (minX + maxX) / 2.0, (minY + maxY) / 2.0;
      points, minDepth, maxDepth, avgDepth := [], None, None, 0.0;
      hasData, isEdge, isVoid := false, false, false;
    }

    function State(): CellState
      reads this
    {
      CellState(points, minDepth, maxDepth, avgDepth, hasData, isEdge, isVoid)
    }
  }

  /** The cell's box is that of column cx, row cy. */
  ghost predicate Placed(c: GridCell, cfg: GridConfig, cx: nat, cy: nat) {
    && c.minX == cfg.minX + cx as real * cfg.cellSize
    && c.maxX == cfg.minX + (cx + 1) as real * cfg.cellSize
    && c.minY == cfg.minY + cy as real * cfg.cellSize
    && c.maxY == cfg.minY + (cy + 1) as real * cfg.cellSize
    && c.centerX == (c.minX + c.maxX) / 2.0 && c.centerY == (c.minY + c.maxY) / 2.0
  }

  lemma PlacedHolds(c: GridCell, cfg: GridConfig, cx: nat, cy: nat, x: real, y: real)
    requires Placed(c, cfg, cx, cy)
    ensures c.minX <= x < c.maxX && c.minY <= y < c.maxY <==>
            Covers(cfg.minX, cfg.cellSize, cx, x) && Covers(cfg.minY, cfg.cellSize, cy, y)
  {
  }

  lemma PlacedCentre(c: GridCell, cfg: GridConfig, cx: nat, cy: nat)
    requires Placed(c, cfg, cx, cy) && cfg.cellSize > 0.0
    ensures c.centerX - c.minX == c.maxX - c.centerX && c.minX <= c.centerX < c.maxX
    ensures c.centerY - c.minY == c.maxY - c.centerY && c.minY <= c.centerY < c.maxY
  {
    assert (cx + 1) as real * cfg.cellSize == cx as real * cfg.cellSize + cfg.cellSize;
    assert (cy + 1) as real * cfg.cellSize == cy as real * cfg.cellSize + cfg.cellSize;
  }

  method MakeCell(cfg: GridConfig, cx: nat, cy: nat) returns (cell: GridCell)
    ensures fresh(cell) && Placed(cell, cfg, cx, cy) && cell.State() == EMPTY_CELL
  {
    cell := new GridCell(
      cfg.minX + cx as real * cfg.cellSize, cfg.minY + cy as real * cfg.cellSize,
      cfg.minX + (cx + 1) as real * cfg.cellSize, cfg.minY + (cy + 1) as real * cfg.cellSize);
  }

  // ---------- What the operations do to cell states ----------

  function LowerDepth(bound: Option<real>, d: real): Option<real> {
    if bound == None || d < bound.value then Some(d) else bound
  }

  function HigherDepth(bound: Option<real>, d: real): Option<real> {
    if bound == None || d > bound.value then Some(d) else bound
  }

  /** A cell after a point fell into it. */
  function WithPoint(c: CellState, p: Point3D): CellState {
    c.(points := c.points + [p], hasData := true,
       minDepth := LowerDepth(c.minDepth, p.depth), maxDepth := HigherDepth(c.maxDepth, p.depth))
  }

  function DepthSum(points: seq<Point3D>): real {
    if points == [] then 0.0 else DepthSum(points[..|points| - 1]) + points[|points| - 1].depth
  }

  /** A cell once its points have been counted. */
  function Tallied(c: CellState, minPoints: int): CellState {
    if c.points == [] then c.(hasData := false, isVoid := true)
    else
      var enough := |c.points| >= minPoints;
      c.(avgDepth := DepthSum(c.points) / |c.points| as real, hasData := enough, isVoid := !enough)
  }

  /** Void is what has fewer points than asked for, and at least one is always asked for. */
  lemma TalliedSplits(c: CellState, minPoints: int)
    ensures Tallied(c, minPoints).points == c.points
    ensures Tallied(c, minPoints).hasData != Tallied(c, minPoints).isVoid
    ensures Tallied(c, minPoints).hasData <==> |c.points| >= (if minPoints > 1 then minPoints else 1)
  {
  }

  /** How many cells are void. */
  function VoidCount(states: seq<CellState>): nat {
    if states == [] then 0
    else VoidCount(states[..|states| - 1]) + if states[|states| - 1].isVoid then 1 else 0
  }

  function DataCount(states: seq<CellState>): nat {
    if states == [] then 0
    else DataCount(states[..|states| - 1]) + if states[|states| - 1].hasData then 1 else 0
  }

  function EdgeCount(states: seq<CellState>): nat {
    if states == [] then 0
    else EdgeCount(states[..|states| - 1]) + if states[|states| - 1].isEdge then 1 else 0
  }

  /** Where every cell is exactly one of data and void, and only data cells are edges, the counts add up. */
  lemma {:induction false} CountsAddUp(states: seq<CellState>)
    requires forall k :: 0 <= k < |states| ==>
      states[k].hasData != states[k].isVoid && (states[k].isEdge ==> states[k].hasData)
    ensures DataCount(states) + VoidCount(states) == |states| && EdgeCount(states) <= DataCount(states)
  {
    if states != [] {
      CountsAddUp(states[..|states| - 1]);
    }
  }

  /** Where the void cells among the first n are, in order. */
  function VoidPlaces(states: seq<CellState>, n: nat): seq<nat>
    requires n <= |states|
  {
    if n == 0 then [] else VoidPlaces(states, n - 1) + if states[n - 1].isVoid then [n - 1] else []
  }

  lemma {:induction false} VoidPlacesFacts(states: seq<CellState>, n: nat)
    requires n <= |states|
    ensures var places := VoidPlaces(states, n);
      && |places| == VoidCount(states[..n])
      && (forall i :: 0 <= i < |places| ==> places[i] < n && states[places[i]].isVoid)
      && (forall i, j :: 0 <= i < j < |places| ==> places[i] < places[j])
      && (forall k :: 0 <= k < n && states[k].isVoid ==> k in places)
  {
    if n > 0 {
      VoidPlacesFacts(states, n - 1);
      assert states[..n][..n - 1] == states[..n - 1];
    }
  }

  /** A cell after an interpolated point was put into it. */
  function FilledWith(c: CellState, p: Point3D): CellState {
    c.(points := c.points + [p], hasData := true, isVoid := false,
       avgDepth := p.depth, minDepth := Some(p.depth), maxDepth := Some(p.depth))
  }

  /** The samples of a cell's points. */
  function Samples(points: seq<Point3D>): (r: seq<SamplePoint>)
    ensures |r| == |points|
  {
    seq(|points|, i requires 0 <= i < |points| => SamplePoint(points[i].x, points[i].y, points[i].depth))
  }

  lemma SampleOf(points: seq<Point3D>, q: SamplePoint)
    ensures q in Samples(points) <==> exists p :: p in points && q.x == p.x && q.y == p.y && q.value == p.depth
  {
    if q in Samples(points) {
      var i :| 0 <= i < |points| && Samples(points)[i] == q;
      assert points[i] in points;
    }
    if p :| p in points && q.x == p.x && q.y == p.y && q.value == p.depth {
      var i :| 0 <= i < |points| && points[i] == p;
      assert Samples(points)[i] == q;
    }
  }

  /** Making one void cell a filled one lowers the void count by one. */
  lemma {:induction false} VoidCountFilled(states: seq<CellState>, k: nat, c: CellState)
    requires k < |states| && states[k].isVoid && !c.isVoid
    ensures VoidCount(states[k := c]) == VoidCount(states) - 1
    decreases |states|
  {
    var n := |states| - 1;
    if k < n {
      VoidCountFilled(states[..n], k, c);
      assert states[k := c][..n] == states[..n][k := c];
    } else {
      assert states[k := c][..n] == states[..n];
    }
  }

  /** The extent a grid is laid out for: one cell where the bounds have none. */
  function Span(extent: real, size: real): real {
    if extent <= 0.0 then size else extent
  }

  datatype VoidInfo = VoidInfo(totalCells: nat, dataCells: nat, voidCells: nat, edgeCells: nat, voidCoveragePct: real)

  class SpatialGrid {
    const config: GridConfig
    const numColsX: nat
    const numRowsY: nat
    const cells: seq<GridCell>

    ghost predicate Valid() {
      && config.cellSize > 0.0
      && 0 < numColsX && 0 < numRowsY && |cells| == numColsX * numRowsY
      && (forall i, j :: 0 <= i < j < |cells| ==> cells[i] != cells[j])
      && (forall cx, cy {:trigger Ix(numRowsY, cx, cy)} :: 0 <= cx < numColsX && 0 <= cy < numRowsY ==>
            Ix(numRowsY, cx, cy) < |cells| && Placed(cells[Ix(numRowsY, cx, cy)], config, cx, cy))
      && numColsX == Ceil(Span(config.maxX - config.minX, config.cellSize) / config.cellSize) + 1
      && numRowsY == Ceil(Span(config.maxY - config.minY, config.cellSize) / config.cellSize) + 1
    }

    /** What all cells hold. */
    ghost function States(): (r: seq<CellState>)
      reads cells
      ensures |r| == |cells| && forall k :: 0 <= k < |cells| ==> r[k] == cells[k].State()
    {
      seq(|cells|, k requires 0 <= k < |cells| reads cells => cells[k].State())
    }

    constructor (cfg: GridConfig)
      requires cfg.cellSize > 0.0
      ensures Valid() && config == cfg
      ensures forall c :: c in cells ==> fresh(c)
      ensures forall k :: 0 <= k < |cells| ==> cells[k].State() == EMPTY_CELL
    {
      hide Ix, Placed, Ceil;
      var rangeX, rangeY := cfg.maxX - cfg.minX, cfg.maxY - cfg.minY;
      if rangeX <= 0.0 {
        rangeX := cfg.cellSize;
      }
      if rangeY <= 0.0 {
        rangeY := cfg.cellSize;
      }
      CeilPositive(rangeX, cfg.cellSize);
      CeilPositive(rangeY, cfg.cellSize);
      var cols: nat := Ceil(rangeX / cfg.cellSize) + 1;
      var rows: nat := Ceil(rangeY / cfg.cellSize) + 1;
      var made := MakeCells(cfg, cols, rows);
      config, numColsX, numRowsY, cells := cfg, cols, rows, made;
      new;
    }

    /** A new cell for every column and row, column by column. */
    static method MakeCells(cfg: GridConfig, cols: nat, rows: nat) returns (made: seq<GridCell>)
      requires rows > 0
      ensures |made| == cols * rows
      ensures forall k :: 0 <= k < |made| ==> fresh(made[k]) && made[k].State() == EMPTY_CELL
      ensures forall j, k :: 0 <= j < k < |made| ==> made[j] != made[k]
      ensures forall cx, cy {:trigger Ix(rows, cx, cy)} :: 0 <= cx < cols && 0 <= cy < rows ==>
        Ix(rows, cx, cy) < |made| && Placed(made[Ix(rows, cx, cy)], cfg, cx, cy)
    {
      hide Ix, Placed, Ceil;
      made := [];
      var i := 0;
      while i < cols * rows
        invariant 0 <= i <= cols * rows && |made| == i
        invariant forall k :: 0 <= k < i ==> fresh(made[k]) && allocated(made[k]) && made[k].State() == EMPTY_CELL
        invariant forall j, k :: 0 <= j < k < i ==> made[j] != made[k]
        invariant forall k :: 0 <= k < i ==> Placed(made[k], cfg, k / rows, k % rows)
      {
        var cell := MakeCell(cfg, i / rows, i % rows);
        made := made + [cell];
        i := i + 1;
      }
      forall cx, cy | 0 <= cx < cols && 0 <= cy < rows
        ensures Ix(rows, cx, cy) < |made| && Placed(made[Ix(rows, cx, cy)], cfg, cx, cy)
      {
        IxBound(rows, cols, cx, cy);
        IxParts(rows, cx, cy);
      }
    }

    // ---------- Finding the cell of a point ----------

    predicate InBounds(x: real, y: real) {
      config.minX <= x < config.maxX && config.minY <= y < config.maxY
    }

    ghost predicate BoxHolds(k: nat, x: real, y: real)
      requires k < |cells|
    {
      cells[k].minX <= x < cells[k].maxX && cells[k].minY <= y < cells[k].maxY
    }

    /** The cell of a point, for points within the bounds. */
    function CellIndex(x: real, y: real): Option<nat>
      requires config.cellSize > 0.0
    {
      if !InBounds(x, y) then None
      else
        var cx := Truncate((x - config.minX) / config.cellSize);
        var cy := Truncate((y - config.minY) / config.cellSize);
        if cx < 0 || cx >= numColsX || cy < 0 || cy >= numRowsY then None
        else Some(Ix(numRowsY, cx, cy))
    }

    /** The column and row the code computes for a point within the bounds. */
    lemma PlaceOfPoint(x: real, y: real) returns (cx: nat, cy: nat)
      requires Valid() && InBounds(x, y)
      ensures cx < numColsX && cy < numRowsY && CellIndex(x, y) == Some(Ix(numRowsY, cx, cy))
      ensures Covers(config.minX, config.cellSize, cx, x) && Covers(config.minY, config.cellSize, cy, y)
    {
      hide Ix, Placed, Ceil, Covers;
      var size := config.cellSize;
      RangeCovered(config.minX, config.maxX, size, x);
      RangeCovered(config.minY, config.maxY, size, y);
      FloorCovers(config.minX, size, x);
      FloorCovers(config.minY, size, y);
      QuotientMonotone(0.0, x - config.minX, size);
      QuotientMonotone(0.0, y - config.minY, size);
      cx := ((x - config.minX) / size).Floor;
      cy := ((y - config.minY) / size).Floor;
    }

    /** A cell's box holds the points its column and row cover. */
    lemma BoxIsPlace(k: nat, x: real, y: real)
      requires Valid() && k < |cells|
      ensures k / numRowsY < numColsX && k % numRowsY < numRowsY && Ix(numRowsY, k / numRowsY, k % numRowsY) == k
      ensures BoxHolds(k, x, y) <==>
        Covers(config.minX, config.cellSize, k / numRowsY, x) && Covers(config.minY, config.cellSize, k % numRowsY, y)
    {
      hide Ix, Ceil, Placed, Covers;
      var cx, cy := k / numRowsY, k % numRowsY;
      IxBack(numRowsY, numColsX, k);
      assert Ix(numRowsY, cx, cy) == k;
      PlacedHolds(cells[k], config, cx, cy, x, y);
    }

    /** Every point within the bounds has a cell, and it is the only one whose box holds the point. */
    lemma CellIndexIsTheBox(x: real, y: real)
      requires Valid()
      ensures CellIndex(x, y).Some? <==> InBounds(x, y)
      ensures CellIndex(x, y).Some? ==>
        CellIndex(x, y).value < |cells| && BoxHolds(CellIndex(x, y).value, x, y)
      ensures CellIndex(x, y).Some? ==> forall k :: 0 <= k < |cells| && BoxHolds(k, x, y) ==> k == CellIndex(x, y).value
    {
      hide Ix, Placed, Ceil, Covers, BoxHolds, Truncate;
      if InBounds(x, y) {
        var cx, cy := PlaceOfPoint(x, y);
        var i := Ix(numRowsY, cx, cy);
        IxParts(numRowsY, cx, cy);
        BoxIsPlace(i, x, y);
        forall k | 0 <= k < |cells| && BoxHolds(k, x, y) ensures k == i {
          BoxIsPlace(k, x, y);
          CoversOnce(config.minX, config.cellSize, cx, k / numRowsY, x);
          CoversOnce(config.minY, config.cellSize, cy, k % numRowsY, y);
        }
      }
    }

    // ---------- Filling and classifying ----------

    /** Empties every cell; positions stay. */
    method Reset()
      requires Valid()
      modifies cells
      ensures forall k :: 0 <= k < |cells| ==> cells[k].State() == EMPTY_CELL
    {
      var i := 0;
      while i < |cells|
        invariant 0 <= i <= |cells|
        invariant forall k :: 0 <= k < i ==> cells[k].State() == EMPTY_CELL
      {
        var c := cells[i];
        c.points, c.hasData, c.isEdge, c.isVoid := [], false, false, false;
        c.minDepth, c.maxDepth, c.avgDepth := None, None, 0.0;
        i := i + 1;
      }
    }

    /** The states after one more point. */
    ghost function WithPointIn(states: seq<CellState>, p: Point3D): (r: seq<CellState>)
      requires config.cellSize > 0.0
      ensures |r| == |states|
    {
      var k := CellIndex(p.x, p.y);
      if k.Some? && k.value < |states| then states[k.value := WithPoint(states[k.value], p)] else states
    }

    /** The states after a list of points. */
    ghost function WithPoints(states: seq<CellState>, points: seq<Point3D>): (r: seq<CellState>)
      requires config.cellSize > 0.0
      ensures |r| == |states|
    {
      if points == [] then states
      else WithPointIn(WithPoints(states, points[..|points| - 1]), points[|points| - 1])
    }

    /** The points that lie within the bounds and in the box of cell k, in order. */
    ghost function PointsInBox(points: seq<Point3D>, k: nat): seq<Point3D>
      requires k < |cells|
    {
      if points == [] then []
      else
        var rest, p := PointsInBox(points[..|points| - 1], k), points[|points| - 1];
        if InBounds(p.x, p.y) && BoxHolds(k, p.x, p.y) then rest + [p] else rest
    }

    /** The depth bounds of a cell are the least and the greatest depth of its points. */
    ghost predicate DepthsOk(c: CellState) {
      && (c.points == [] ==> c.minDepth == None && c.maxDepth == None)
      && (c.points != [] ==>
          && c.minDepth.Some? && c.maxDepth.Some?
          && (forall p :: p in c.points ==> c.minDepth.value <= p.depth <= c.maxDepth.value)
          && (exists p :: p in c.points && p.depth == c.minDepth.value)
          && (exists p :: p in c.points && p.depth == c.maxDepth.value))
    }

    lemma DepthsStep(c: CellState, p: Point3D)
      requires DepthsOk(c)
      ensures DepthsOk(WithPoint(c, p))
    {
      var c' := WithPoint(c, p);
      assert p in c'.points && c'.points == c.points + [p];
      if c.points != [] {
        var a :| a in c.points && a.depth == c.minDepth.value;
        var b :| b in c.points && b.depth == c.maxDepth.value;
        assert a in c'.points && b in c'.points;
      }
    }

    /** Every cell gets exactly the points in its box, in order, and their least and greatest depth. */
    lemma {:induction false} CellGetsItsBox(points: seq<Point3D>, k: nat)
      requires Valid() && k < |cells|
      ensures var c := WithPoints(seq(|cells|, _ => EMPTY_CELL), points)[k];
        && c.points == PointsInBox(points, k) && DepthsOk(c)
        && !c.isEdge && !c.isVoid && c.avgDepth == 0.0
      decreases |points|
    {
      hide CellIndex, BoxHolds, InBounds, DepthsOk;
      if points == [] {
        assert DepthsOk(EMPTY_CELL) by {
          EmptyDepths();
        }
      } else {
        var init, p := points[..|points| - 1], points[|points| - 1];
        CellGetsItsBox(init, k);
        CellIndexIsTheBox(p.x, p.y);
        DepthsStep(WithPoints(seq(|cells|, _ => EMPTY_CELL), init)[k], p);
      }
    }

    /** What lies in a cell's box was among the points, and in the box. */
    lemma {:induction false} BoxPoints(points: seq<Point3D>, k: nat, p: Point3D)
      requires k < |cells| && p in PointsInBox(points, k)
      ensures p in points && BoxHolds(k, p.x, p.y)
      decreases |points|
    {
      hide BoxHolds, InBounds;
      var n := |points| - 1;
      if p in PointsInBox(points[..n], k) {
        BoxPoints(points[..n], k, p);
      }
    }

    lemma EmptyDepths()
      ensures DepthsOk(EMPTY_CELL)
    {
    }

    ghost function Accepted(points: seq<Point3D>): nat {
      if points == [] then 0
      else Accepted(points[..|points| - 1]) + if InBounds(points[|points| - 1].x, points[|points| - 1].y) then 1 else 0
    }

    method AddPoint(p: Point3D) returns (ok: bool)
      requires Valid()
      modifies cells
      ensures ok == InBounds(p.x, p.y)
      ensures States() == WithPointIn(old(States()), p)
    {
      hide Ix, Truncate, Ceil, Placed;
      CellIndexIsTheBox(p.x, p.y);
      var idx := CellIndex(p.x, p.y);
      if idx.None? {
        return false;
      }
      var cell := cells[idx.value];
      cell.points := cell.points + [p];
      cell.hasData := true;
      if cell.minDepth == None || p.depth < cell.minDepth.value {
        cell.minDepth := Some(p.depth);
      }
      if cell.maxDepth == None || p.depth > cell.maxDepth.value {
        cell.maxDepth := Some(p.depth);
      }
      return true;
    }

    method AddPoints(points: seq<Point3D>) returns (count: nat)
      requires Valid()
      modifies cells
      ensures States() == WithPoints(old(States()), points)
      ensures count == Accepted(points)
    {
      hide InBounds, WithPointIn, CellIndex;
      count := 0;
      var i := 0;
      while i < |points|
        invariant 0 <= i <= |points|
        invariant States() == WithPoints(old(States()), points[..i])
        invariant count == Accepted(points[..i])
      {
        var ok := AddPoint(points[i]);
        if ok {
          count := count + 1;
        }
        assert points[..i + 1][..i] == points[..i];
        i := i + 1;
      }
      assert points[..i] == points;
    }

    /** Column nx, row ny exists and touches column cx, row cy, corners included. */
    predicate Adjacent(cx: nat, cy: nat, nx: int, ny: int) {
      0 <= nx < numColsX && 0 <= ny < numRowsY && -1 <= nx - cx <= 1 && -1 <= ny - cy <= 1 && !(nx == cx && ny == cy)
    }

    /** Some touching cell is void, or, as asked, has data. */
    ghost predicate Touches(states: seq<CellState>, cx: nat, cy: nat, void: bool)
      requires Valid() && |states| == |cells|
    {
      exists nx: nat, ny: nat {:trigger Ix(numRowsY, nx, ny)} :: Adjacent(cx, cy, nx, ny) &&
        if void then states[Ix(numRowsY, nx, ny)].isVoid else states[Ix(numRowsY, nx, ny)].hasData
    }

    /** Looks at the up to eight cells around one cell; stops at the first that fits. */
    method ScanAround(cx: nat, cy: nat, void: bool) returns (found: bool)
      requires Valid() && cx < numColsX && cy < numRowsY
      ensures found == Touches(States(), cx, cy, void)
    {
      hide Ix, Ceil, Placed;
      ghost var states := States();
      var dx := -1;
      while dx <= 1
        invariant -1 <= dx <= 2
        invariant forall nx: nat, ny: nat {:trigger Ix(numRowsY, nx, ny)} :: Adjacent(cx, cy, nx, ny) && nx - cx < dx ==>
          !(if void then states[Ix(numRowsY, nx, ny)].isVoid else states[Ix(numRowsY, nx, ny)].hasData)
      {
        var dy := -1;
        while dy <= 1
          invariant -1 <= dy <= 2
          invariant forall nx: nat, ny: nat {:trigger Ix(numRowsY, nx, ny)} ::
            Adjacent(cx, cy, nx, ny) && (nx - cx < dx || (nx - cx == dx && ny - cy < dy)) ==>
            !(if void then states[Ix(numRowsY, nx, ny)].isVoid else states[Ix(numRowsY, nx, ny)].hasData)
        {
          if !(dx == 0 && dy == 0) {
            var nx, ny := cx + dx, cy + dy;
            if nx >= 0 && nx < numColsX && ny >= 0 && ny < numRowsY {
              var nidx := Ix(numRowsY, nx, ny);
              assert states[nidx] == cells[nidx].State();
              if (void && cells[nidx].isVoid) || (!void && cells[nidx].hasData) {
                return true;
              }
            }
          }
          dy := dy + 1;
        }
        dx := dx + 1;
      }
      return false;
    }

    /** A tallied cell after the edge pass. */
    ghost function Edged(tallied: seq<CellState>, k: nat): CellState
      requires Valid() && |tallied| == |cells| && k < |cells|
    {
      var c := tallied[k];
      if c.hasData then c.(isEdge := Touches(tallied, k / numRowsY, k % numRowsY, true)) else c
    }

    ghost function TalliedAll(states: seq<CellState>): (r: seq<CellState>)
      ensures |r| == |states|
    {
      seq(|states|, k requires 0 <= k < |states| => Tallied(states[k], config.minPointsPerCell))
    }

    /** Counts every cell's points, and says which cells with data touch a void. */
    method ComputeStatistics()
      requires Valid()
      modifies cells
      ensures var tallied := TalliedAll(old(States()));
        forall k :: 0 <= k < |cells| ==> States()[k] == Edged(tallied, k)
      ensures Classified(States())
    {
      hide Edged, TalliedAll, Classified;
      ghost var before := States();
      TallyCells();
      MarkVoids();
      MarkEdges();
      EdgedIsClassified(before, States());
    }

    /** Every cell is data or void and not both, and a data cell is an edge exactly when it touches a void. */
    ghost predicate Classified(states: seq<CellState>)
      requires Valid() && |states| == |cells|
    {
      forall k :: 0 <= k < |states| ==>
        && states[k].hasData != states[k].isVoid
        && (states[k].hasData <==>
              |states[k].points| >= if config.minPointsPerCell > 1 then config.minPointsPerCell else 1)
        && (states[k].hasData ==> (states[k].isEdge <==> Touches(states, k / numRowsY, k % numRowsY, true)))
    }

    lemma EdgedIsClassified(before: seq<CellState>, after: seq<CellState>)
      requires Valid() && |before| == |after| == |cells|
      requires forall k :: 0 <= k < |cells| ==> after[k] == Edged(TalliedAll(before), k)
      ensures Classified(after)
    {
      hide Touches, Ix, Ceil, Placed, Tallied;
      var tallied := TalliedAll(before);
      forall k | 0 <= k < |cells|
        ensures after[k].hasData != after[k].isVoid
        ensures after[k].hasData <==>
              |after[k].points| >= if config.minPointsPerCell > 1 then config.minPointsPerCell else 1
        ensures after[k].hasData ==> (after[k].isEdge <==> Touches(after, k / numRowsY, k % numRowsY, true))
      {
        TalliedSplits(before[k], config.minPointsPerCell);
        TouchesVoidsOnly(tallied, after, k / numRowsY, k % numRowsY);
      }
    }

    method TallyCells()
      requires Valid()
      modifies cells
      ensures States() == TalliedAll(old(States()))
    {
      hide Ix, Ceil, Placed;
      var i := 0;
      while i < |cells|
        invariant 0 <= i <= |cells|
        invariant forall k :: 0 <= k < |cells| ==>
          States()[k] == if k < i then Tallied(old(States())[k], config.minPointsPerCell) else old(States())[k]
      {
        var c := cells[i];
        if |c.points| == 0 {
          c.hasData := false;
          c.isVoid := true;
        } else {
          var sum := SumDepths(c.points);
          c.avgDepth := sum / |c.points| as real;
          c.hasData := |c.points| >= config.minPointsPerCell;
          c.isVoid := !c.hasData;
        }
        i := i + 1;
      }
    }

    /** Marks the voids that touch data as void once more, which they are. */
    method MarkVoids()
      requires Valid()
      modifies cells
      ensures States() == old(States())
    {
      hide Ix, Ceil, Placed;
      var cx := 0;
      while cx < numColsX
        invariant 0 <= cx <= numColsX && States() == old(States())
      {
        var cy := 0;
        while cy < numRowsY
          invariant 0 <= cy <= numRowsY && States() == old(States())
        {
          var cell := cells[Ix(numRowsY, cx, cy)];
          if cell.isVoid {
            var hasNeighborData := ScanAround(cx, cy, false);
            if hasNeighborData {
              cell.isVoid := true;
              assert forall k :: 0 <= k < |cells| ==> States()[k] == old(States())[k];
            }
          }
          cy := cy + 1;
        }
        cx := cx + 1;
      }
    }

    method MarkEdges()
      requires Valid()
      modifies cells
      ensures forall k :: 0 <= k < |cells| ==> States()[k] == Edged(old(States()), k)
    {
      hide Ix, Ceil, Placed, Edged, EdgedUpTo;
      ghost var before := States();
      IxTableEnd(numRowsY, numColsX);
      EdgedStart(before);
      var cx := 0;
      while cx < numColsX
        invariant 0 <= cx <= numColsX
        invariant EdgedUpTo(before, Ix(numRowsY, cx, 0))
      {
        var cy := 0;
        while cy < numRowsY
          invariant 0 <= cy <= numRowsY
          invariant EdgedUpTo(before, Ix(numRowsY, cx, cy))
        {
          MarkEdge(before, cx, cy);
          IxNext(numRowsY, cx, cy);
          cy := cy + 1;
        }
        IxRowEnd(numRowsY, cx);
        cx := cx + 1;
      }
      EdgedEnd(before);
    }

    lemma EdgedStart(before: seq<CellState>)
      requires Valid() && before == States()
      ensures EdgedUpTo(before, 0)
    {
    }

    lemma EdgedEnd(before: seq<CellState>)
      requires Valid() && |before| == |cells| && EdgedUpTo(before, |cells|)
      ensures forall k :: 0 <= k < |cells| ==> States()[k] == Edged(before, k)
    {
    }

    /** The first k cells have been through the edge pass. */
    ghost predicate EdgedUpTo(before: seq<CellState>, k: nat)
      requires Valid() && |before| == |cells|
      reads cells
    {
      forall i :: 0 <= i < |cells| ==> States()[i] == if i < k then Edged(before, i) else before[i]
    }

    method MarkEdge(ghost before: seq<CellState>, cx: nat, cy: nat)
      requires Valid() && |before| == |cells| && cx < numColsX && cy < numRowsY
      requires EdgedUpTo(before, Ix(numRowsY, cx, cy))
      modifies cells
      ensures EdgedUpTo(before, Ix(numRowsY, cx, cy) + 1)
    {
      hide Ix, Ceil, Placed, Touches;
      var idx := Ix(numRowsY, cx, cy);
      IxParts(numRowsY, cx, cy);
      var cell := cells[idx];
      assert States()[idx] == before[idx];
      if cell.hasData {
        TouchesVoidsOnly(States(), before, cx, cy);
        var hasVoidNeighbor := ScanAround(cx, cy, true);
        cell.isEdge := hasVoidNeighbor;
      }
    }

    /** Touching a void depends on the voids alone. */
    lemma TouchesVoidsOnly(s: seq<CellState>, t: seq<CellState>, cx: nat, cy: nat)
      requires Valid() && |s| == |t| == |cells|
      requires forall k :: 0 <= k < |s| ==> s[k].isVoid == t[k].isVoid
      ensures Touches(s, cx, cy, true) == Touches(t, cx, cy, true)
    {
      hide Ix;
    }

    // ---------- Reading the grid ----------

    method AnalyzeVoids() returns (info: VoidInfo)
      requires Valid()
      ensures var n := VoidCount(States());
        && info.totalCells == |cells| && info.dataCells == DataCount(States()) && info.voidCells == n
        && info.edgeCells == EdgeCount(States()) && info.voidCoveragePct * |cells| as real == 100.0 * n as real
    {
      hide Ix, Ceil, Placed;
      ghost var states := States();
      var data, voids, edges := 0, 0, 0;
      var i := 0;
      while i < |cells|
        invariant 0 <= i <= |cells|
        invariant data == DataCount(states[..i]) && voids == VoidCount(states[..i]) && edges == EdgeCount(states[..i])
      {
        assert states[..i + 1][..i] == states[..i] && states[i] == cells[i].State();
        if cells[i].hasData {
          data := data + 1;
        }
        if cells[i].isVoid {
          voids := voids + 1;
        }
        if cells[i].isEdge {
          edges := edges + 1;
        }
        i := i + 1;
      }
      assert states[..i] == states;
      var pct := voids as real / |cells| as real * 100.0;
      QuotientTimes(voids as real, |cells| as real);
      return VoidInfo(|cells|, data, voids, edges, pct);
    }

    /** The void cells in grid order. */
    method GetVoidCells() returns (voids: seq<GridCell>)
      requires Valid()
      ensures |voids| == |VoidPlaces(States(), |cells|)| == VoidCount(States())
      ensures forall i :: 0 <= i < |voids| ==>
        var k := VoidPlaces(States(), |cells|)[i]; k < |cells| && voids[i] == cells[k]
    {
      hide Ix, Ceil, Placed;
      ghost var states := States();
      voids := [];
      var i := 0;
      while i < |cells|
        invariant 0 <= i <= |cells| && |voids| == |VoidPlaces(states, i)|
        invariant forall j :: 0 <= j < |voids| ==> VoidPlaces(states, i)[j] < i && cells[VoidPlaces(states, i)[j]] == voids[j]
      {
        assert states[i] == cells[i].State();
        if cells[i].isVoid {
          voids := voids + [cells[i]];
        }
        i := i + 1;
      }
      VoidPlacesFacts(states, |cells|);
      assert states[..i] == states;
    }

    /** The samples of the cell at column nx, row ny, if there is one and it holds data. */
    ghost function SamplesAt(states: seq<CellState>, nx: int, ny: int): seq<SamplePoint>
      requires Valid() && |states| == |cells|
    {
      if 0 <= nx < numColsX && 0 <= ny < numRowsY && states[Ix(numRowsY, nx, ny)].hasData
      then Samples(states[Ix(numRowsY, nx, ny)].points) else []
    }

    /** The samples of column nx from row ny to row top. */
    ghost function ColumnSamples(states: seq<CellState>, nx: int, ny: int, top: int): seq<SamplePoint>
      requires Valid() && |states| == |cells|
      decreases top - ny
    {
      if ny > top then [] else SamplesAt(states, nx, ny) + ColumnSamples(states, nx, ny + 1, top)
    }

    /** The samples of columns nx to right, in rows bottom to top. */
    ghost function BoxSamples(states: seq<CellState>, nx: int, right: int, bottom: int, top: int): seq<SamplePoint>
      requires Valid() && |states| == |cells|
      decreases right - nx
    {
      if nx > right then []
      else ColumnSamples(states, nx, bottom, top) + BoxSamples(states, nx + 1, right, bottom, top)
    }

    /** The samples of all data cells within radius of column cx, row cy, column by column. */
    ghost function Around(states: seq<CellState>, cx: int, cy: int, radius: int): seq<SamplePoint>
      requires Valid() && |states| == |cells|
    {
      BoxSamples(states, cx - radius, cx + radius, cy - radius, cy + radius)
    }

    /** q has the place and the depth of a point in the data cell at column nx, row ny. */
    ghost predicate SoundingAt(states: seq<CellState>, nx: int, ny: int, q: SamplePoint)
      requires Valid() && |states| == |cells|
    {
      && 0 <= nx < numColsX && 0 <= ny < numRowsY && states[Ix(numRowsY, nx, ny)].hasData
      && exists p :: p in states[Ix(numRowsY, nx, ny)].points && q.x == p.x && q.y == p.y && q.value == p.depth
    }

    /** So it has of a point in a data cell at most radius columns and rows away. */
    ghost predicate SoundingNear(states: seq<CellState>, cx: int, cy: int, radius: int, q: SamplePoint)
      requires Valid() && |states| == |cells|
    {
      exists nx: int, ny: int ::
        -radius <= nx - cx <= radius && -radius <= ny - cy <= radius && SoundingAt(states, nx, ny, q)
    }

    /** q lies in a column and a row at most radius away. */
    ghost predicate Close(cx: int, cy: int, radius: int, q: SamplePoint) {
      exists nx: int, ny: int ::
        && -radius <= nx - cx <= radius && -radius <= ny - cy <= radius
        && Covers(config.minX, config.cellSize, nx, q.x) && Covers(config.minY, config.cellSize, ny, q.y)
    }

    /** Every point lies in the box of the cell that holds it. */
    ghost predicate Housed(states: seq<CellState>)
      requires |states| == |cells|
    {
      forall k, p :: 0 <= k < |states| && p in states[k].points ==> BoxHolds(k, p.x, p.y)
    }

    lemma SamplesAreSoundings(states: seq<CellState>, nx: int, ny: int, q: SamplePoint)
      requires Valid() && |states| == |cells|
      ensures q in SamplesAt(states, nx, ny) <==> SoundingAt(states, nx, ny, q)
    {
      hide Placed, Ceil;
      if 0 <= nx < numColsX && 0 <= ny < numRowsY {
        SampleOf(states[Ix(numRowsY, nx, ny)].points, q);
      }
    }

    /** Exactly the soundings of the data cells within the radius are samples. */
    lemma AroundIsSoundings(states: seq<CellState>, cx: int, cy: int, radius: int, q: SamplePoint)
      requires Valid() && |states| == |cells|
      ensures q in Around(states, cx, cy, radius) <==> SoundingNear(states, cx, cy, radius, q)
    {
      hide SamplesAt, SoundingAt, Around, Placed, Ceil;
      AroundIsSampled(states, cx, cy, radius, q);
      forall nx: int, ny: int ensures q in SamplesAt(states, nx, ny) <==> SoundingAt(states, nx, ny, q) {
        SamplesAreSoundings(states, nx, ny, q);
      }
    }

    /** A cell's centre is halfway across its box either way, and inside it. */
    lemma CentreInBox(k: nat)
      requires Valid() && k < |cells|
      ensures var c := cells[k];
        && c.centerX - c.minX == c.maxX - c.centerX && c.centerY - c.minY == c.maxY - c.centerY
        && BoxHolds(k, c.centerX, c.centerY)
    {
      hide Ix, Ceil, Placed;
      var cx, cy := k / numRowsY, k % numRowsY;
      IxBack(numRowsY, numColsX, k);
      assert Ix(numRowsY, cx, cy) == k;
      PlacedCentre(cells[k], config, cx, cy);
    }

    lemma SoundingIsClose(states: seq<CellState>, cx: int, cy: int, radius: int, q: SamplePoint)
      requires Valid() && |states| == |cells| && Housed(states) && SoundingNear(states, cx, cy, radius, q)
      ensures Close(cx, cy, radius, q)
    {
      hide Placed, Ceil, Ix, Covers, BoxHolds;
      var nx: int, ny: int :|
        -radius <= nx - cx <= radius && -radius <= ny - cy <= radius && SoundingAt(states, nx, ny, q);
      var k := Ix(numRowsY, nx, ny);
      IxParts(numRowsY, nx, ny);
      var p :| p in states[k].points && q.x == p.x && q.y == p.y && q.value == p.depth;
      BoxIsPlace(k, p.x, p.y);
    }

    lemma NeighborsAreSoundings(states: seq<CellState>, cx: int, cy: int, radius: int)
      requires Valid() && |states| == |cells|
      ensures forall q :: q in Around(states, cx, cy, radius) <==> SoundingNear(states, cx, cy, radius, q)
      ensures Housed(states) ==> forall q :: q in Around(states, cx, cy, radius) ==> Close(cx, cy, radius, q)
    {
      hide SoundingNear, Close, Around, Housed, Placed, Ceil;
      forall q ensures q in Around(states, cx, cy, radius) <==> SoundingNear(states, cx, cy, radius, q) {
        AroundIsSoundings(states, cx, cy, radius, q);
      }
      forall q | q in Around(states, cx, cy, radius) && Housed(states) ensures Close(cx, cy, radius, q) {
        SoundingIsClose(states, cx, cy, radius, q);
      }
    }

    /** The samples of all data cells within radius, whatever cell or radius is asked for. */
    method GetNeighbors(cx: int, cy: int, radius: int) returns (points: seq<SamplePoint>)
      requires Valid()
      ensures points == Around(States(), cx, cy, radius)
      ensures forall q :: q in points <==> SoundingNear(States(), cx, cy, radius, q)
      ensures Housed(States()) ==> forall q :: q in points ==> Close(cx, cy, radius, q)
    {
      hide Ix, Ceil, Placed, Samples, SamplesAt, BoxSamples, ColumnSamples, SoundingNear, Close, Housed;
      ghost var states := States();
      ghost var right, bottom, top := cx + radius, cy - radius, cy + radius;
      points := [];
      var dx := -radius;
      while dx <= radius
        invariant points + BoxSamples(states, cx + dx, right, bottom, top) == Around(states, cx, cy, radius)
      {
        OpenBox(states, cx + dx, right, bottom, top);
        ghost var rest := BoxSamples(states, cx + dx + 1, right, bottom, top);
        var dy := -radius;
        while dy <= radius
          invariant points + (ColumnSamples(states, cx + dx, cy + dy, top) + rest) == Around(states, cx, cy, radius)
        {
          var nx, ny := cx + dx, cy + dy;
          OpenColumn(states, nx, ny, top);
          ghost var before := points;
          points := WithSamples(points, nx, ny);
          Joined(before, SamplesAt(states, nx, ny), ColumnSamples(states, nx, ny + 1, top), rest);
          dy := dy + 1;
        }
        EndOfColumn(states, cx + dx, cy + dy, top, rest);
        dx := dx + 1;
      }
      EndOfBox(states, cx + dx, right, bottom, top, points);
      NeighborsAreSoundings(states, cx, cy, radius);
    }

    lemma OpenBox(states: seq<CellState>, nx: int, right: int, bottom: int, top: int)
      requires Valid() && |states| == |cells| && nx <= right
      ensures BoxSamples(states, nx, right, bottom, top)
           == ColumnSamples(states, nx, bottom, top) + BoxSamples(states, nx + 1, right, bottom, top)
    {
    }

    lemma OpenColumn(states: seq<CellState>, nx: int, ny: int, top: int)
      requires Valid() && |states| == |cells| && ny <= top
      ensures ColumnSamples(states, nx, ny, top) == SamplesAt(states, nx, ny) + ColumnSamples(states, nx, ny + 1, top)
    {
    }

    lemma EndOfColumn(states: seq<CellState>, nx: int, ny: int, top: int, rest: seq<SamplePoint>)
      requires Valid() && |states| == |cells| && ny > top
      ensures ColumnSamples(states, nx, ny, top) + rest == rest
    {
      assert [] + rest == rest;
    }

    lemma EndOfBox(states: seq<CellState>, nx: int, right: int, bottom: int, top: int, points: seq<SamplePoint>)
      requires Valid() && |states| == |cells| && nx > right
      ensures points + BoxSamples(states, nx, right, bottom, top) == points
    {
      assert points + [] == points;
    }

    /** points, and behind them the samples of the cell at column nx, row ny. */
    method WithSamples(points: seq<SamplePoint>, nx: int, ny: int) returns (r: seq<SamplePoint>)
      requires Valid()
      ensures r == points + SamplesAt(States(), nx, ny)
    {
      hide Ix, Ceil, Placed, Samples;
      r := points;
      if nx >= 0 && nx < numColsX && ny >= 0 && ny < numRowsY {
        var cell := cells[Ix(numRowsY, nx, ny)];
        assert States()[Ix(numRowsY, nx, ny)] == cell.State();
        if cell.hasData {
          r := r + Samples(cell.points);
        }
      }
    }

    /** q is a sample from a data cell near (cx, cy). */
    ghost predicate SampledFrom(states: seq<CellState>, cx: int, cy: int, radius: int, q: SamplePoint)
      requires Valid() && |states| == |cells|
    {
      exists nx: int, ny: int ::
        -radius <= nx - cx <= radius && -radius <= ny - cy <= radius && q in SamplesAt(states, nx, ny)
    }

    lemma {:induction false} ColumnMembers(states: seq<CellState>, nx: int, ny: int, top: int, q: SamplePoint)
      requires Valid() && |states| == |cells|
      ensures q in ColumnSamples(states, nx, ny, top) <==> exists y: int :: ny <= y <= top && q in SamplesAt(states, nx, y)
      decreases top - ny
    {
      hide SamplesAt;
      if ny <= top {
        ColumnMembers(states, nx, ny + 1, top, q);
      }
    }

    ghost predicate SampledInBox(states: seq<CellState>, left: int, right: int, bottom: int, top: int, q: SamplePoint)
      requires Valid() && |states| == |cells|
    {
      exists x: int, y: int :: left <= x <= right && bottom <= y <= top && q in SamplesAt(states, x, y)
    }

    lemma {:induction false} BoxMembers(states: seq<CellState>, nx: int, right: int, bottom: int, top: int, q: SamplePoint)
      requires Valid() && |states| == |cells|
      ensures q in BoxSamples(states, nx, right, bottom, top) <==> SampledInBox(states, nx, right, bottom, top, q)
      decreases right - nx
    {
      hide SamplesAt, ColumnSamples, SampledInBox;
      if nx <= right {
        BoxMembers(states, nx + 1, right, bottom, top, q);
        ColumnMembers(states, nx, bottom, top, q);
        BoxSplits(states, nx, right, bottom, top, q);
      } else {
        EmptyBox(states, nx, right, bottom, top, q);
      }
    }

    lemma BoxSplits(states: seq<CellState>, nx: int, right: int, bottom: int, top: int, q: SamplePoint)
      requires Valid() && |states| == |cells| && nx <= right
      ensures SampledInBox(states, nx, right, bottom, top, q) <==>
        SampledInBox(states, nx + 1, right, bottom, top, q)
        || exists y: int :: bottom <= y <= top && q in SamplesAt(states, nx, y)
    {
      hide SamplesAt, Ix, Placed, Ceil;
    }

    lemma EmptyBox(states: seq<CellState>, nx: int, right: int, bottom: int, top: int, q: SamplePoint)
      requires Valid() && |states| == |cells| && nx > right
      ensures !SampledInBox(states, nx, right, bottom, top, q)
    {
    }

    /** The samples around a cell are exactly those of the data cells near it. */
    lemma AroundIsSampled(states: seq<CellState>, cx: int, cy: int, radius: int, q: SamplePoint)
      requires Valid() && |states| == |cells|
      ensures q in Around(states, cx, cy, radius) <==> SampledFrom(states, cx, cy, radius, q)
    {
      hide SamplesAt, BoxSamples;
      BoxMembers(states, cx - radius, cx + radius, cy - radius, cy + radius, q);
    }

    /** No data cell of s has lost points, or its data, in t. */
    ghost predicate Grown(s: seq<CellState>, t: seq<CellState>) {
      |s| == |t| && forall k :: 0 <= k < |s| && s[k].hasData ==> t[k].hasData && |s[k].points| <= |t[k].points|
    }

    lemma {:induction false} ColumnGrows(s: seq<CellState>, t: seq<CellState>, nx: int, ny: int, top: int)
      requires Valid() && |s| == |cells| && Grown(s, t)
      ensures |ColumnSamples(s, nx, ny, top)| <= |ColumnSamples(t, nx, ny, top)|
      decreases top - ny
    {
      hide Ix, Placed, Ceil;
      if ny <= top {
        ColumnGrows(s, t, nx, ny + 1, top);
      }
    }

    /** In any box of cells there are at least as many samples as before. */
    lemma {:induction false} BoxGrows(s: seq<CellState>, t: seq<CellState>, nx: int, right: int, bottom: int, top: int)
      requires Valid() && |s| == |cells| && Grown(s, t)
      ensures |BoxSamples(s, nx, right, bottom, top)| <= |BoxSamples(t, nx, right, bottom, top)|
      decreases right - nx
    {
      hide Ix, Placed, Ceil, ColumnSamples;
      if nx <= right {
        ColumnGrows(s, t, nx, bottom, top);
        BoxGrows(s, t, nx + 1, right, bottom, top);
      }
    }

    method SetCellFilled(cx: int, cy: int, p: Point3D) returns (ok: bool)
      requires Valid()
      modifies cells
      ensures ok == (0 <= cx < numColsX && 0 <= cy < numRowsY)
      ensures States() == if ok then old(States())[Ix(numRowsY, cx, cy) := FilledWith(old(States())[Ix(numRowsY, cx, cy)], p)]
                          else old(States())
    {
      hide Ix, Ceil, Placed;
      if cx < 0 || cx >= numColsX || cy < 0 || cy >= numRowsY {
        return false;
      }
      var cell := cells[Ix(numRowsY, cx, cy)];
      cell.points := cell.points + [p];
      cell.hasData := true;
      cell.isVoid := false;
      cell.avgDepth, cell.minDepth, cell.maxDepth := p.depth, Some(p.depth), Some(p.depth);
      return true;
    }

    /** What the first n cells are published as: one point for every data cell, at its centre and average depth. */
    ghost function Published(states: seq<CellState>, n: nat): seq<Point3D>
      requires n <= |states| && n <= |cells|
    {
      if n == 0 then []
      else
        Published(states, n - 1)
        + if states[n - 1].hasData && states[n - 1].points != [] then [PublishedPoint(states[n - 1], cells[n - 1])] else []
    }

    method InterpolatedPoints() returns (result: seq<Point3D>)
      requires Valid()
      ensures result == Published(States(), |cells|)
    {
      hide Ix, Ceil, Placed;
      ghost var states := States();
      result := [];
      var i := 0;
      while i < |cells|
        invariant 0 <= i <= |cells|
        invariant result == Published(states, i)
      {
        var c := cells[i];
        assert states[i] == c.State();
        if c.hasData && |c.points| > 0 {
          var p := Point3D(c.points[0].latitude, c.points[0].longitude, c.avgDepth, c.centerX, c.centerY, 0.0,
                           c.points[0].intensity, 0);
          result := result + [p];
        }
        i := i + 1;
      }
    }

    /** Every published point stands for a data cell, and every data cell with points is published. */
    lemma {:induction false} PublishedStandsFor(states: seq<CellState>, n: nat)
      requires n <= |states| && n <= |cells|
      ensures forall p :: p in Published(states, n) <==>
        exists k :: 0 <= k < n && states[k].hasData && states[k].points != [] && p == PublishedPoint(states[k], cells[k])
    {
      hide PublishedPoint;
      if n > 0 {
        PublishedStandsFor(states, n - 1);
      }
    }
  }

  function PublishedPoint(state: CellState, cell: GridCell): Point3D
    requires state.points != []
  {
    Point3D(state.points[0].latitude, state.points[0].longitude, state.avgDepth, cell.centerX, cell.centerY, 0.0,
            state.points[0].intensity, 0)
  }

  lemma Joined<T>(a: seq<T>, b: seq<T>, c: seq<T>, d: seq<T>)
    ensures a + ((b + c) + d) == (a + b) + (c + d)
  {
  }

  lemma CeilPositive(range: real, size: real)
    requires range > 0.0 && size > 0.0
    ensures Ceil(range / size) >= 0
  {
    QuotientMonotone(0.0, range, size);
  }

  method SumDepths(points: seq<Point3D>) returns (sum: real)
    ensures sum == DepthSum(points)
  {
    sum := 0.0;
    var i := 0;
    while i < |points|
      invariant 0 <= i <= |points| && sum == DepthSum(points[..i])
    {
      assert points[..i + 1][..i] == points[..i];
      sum := sum + points[i].depth;
      i := i + 1;
    }
    assert points[..i] == points;
  }
}
