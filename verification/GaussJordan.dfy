/** Gauss-Jordan elimination with partial pivoting, in place on a flat row-major array. */
module GaussJordan {
  import opened FlatIndex
  import opened LinearSystem
  import opened Elimination

  datatype Result<T> = Ok(value: T) | Singular(column: nat, pivot: real)

  /** The matrix a flat array of h rows of length w holds. */
  function View(s: seq<real>, w: nat, h: nat): (m: Matrix)
    requires |s| == h * w
    ensures |m| == h && forall r :: 0 <= r < h ==> |m[r]| == w
    ensures forall r, c :: 0 <= r < h && 0 <= c < w ==> Ix(w, r, c) < |s| && m[r][c] == s[Ix(w, r, c)]
  {
    IxFacts(w, h);
    seq(h, r requires 0 <= r < h => seq(w, c requires 0 <= c < w => s[Ix(w, r, c)]))
  }

  /** The augmented matrix of the system with flat coefficients a and right-hand side b. */
  function SystemOf(a: seq<real>, b: seq<real>, n: nat): (m: Matrix)
    requires |a| == n * n && |b| == n
    ensures Shape(m, n)
  {
    var rows := View(a, n, n);
    seq(n, r requires 0 <= r < n => rows[r] + [b[r]])
  }

  /** The first row at or below col whose entry in column col is largest in magnitude. */
  method FindPivot(aug: array<real>, n: nat, col: nat) returns (maxRow: nat, maxVal: real)
    requires col < n && aug.Length == n * (n + 1)
    ensures maxRow == PivotRow(View(aug[..], n + 1, n), n, col, n)
    ensures maxVal == PivotSize(View(aug[..], n + 1, n), n, col)
  {
    hide Ix;
    ghost var m := View(aug[..], n + 1, n);
    assert Ix(n + 1, col, col) < |aug[..]| && m[col][col] == aug[..][Ix(n + 1, col, col)];
    maxRow := col;
    maxVal := Abs(aug[Ix(n + 1, col, col)]);
    var row := col + 1;
    while row < n
      invariant col < row <= n
      invariant maxRow == PivotRow(m, n, col, row) && maxVal == Abs(m[maxRow][col])
    {
      assert Ix(n + 1, row, col) < |aug[..]| && m[row][col] == aug[..][Ix(n + 1, row, col)];
      var val := Abs(aug[Ix(n + 1, row, col)]);
      if val > maxVal {
        maxVal := val;
        maxRow := row;
      }
      row := row + 1;
    }
  }

  /** Exchanges two rows entry by entry. */
  method SwapRowsInPlace(aug: array<real>, n: nat, col: nat, maxRow: nat)
    requires col < n && maxRow < n && col != maxRow && aug.Length == n * (n + 1)
    modifies aug
    ensures View(aug[..], n + 1, n) == SwapRows(old(View(aug[..], n + 1, n)), col, maxRow)
  {
    hide Ix;
    IxFacts(n + 1, n);
    ghost var m := View(aug[..], n + 1, n);
    var j := 0;
    while j <= n
      invariant 0 <= j <= n + 1
      invariant forall r, c {:trigger Ix(n + 1, r, c)} :: 0 <= r < n && 0 <= c <= n ==>
        aug[Ix(n + 1, r, c)] ==
          if r == col && c < j then m[maxRow][c] else if r == maxRow && c < j then m[col][c] else m[r][c]
    {
      aug[Ix(n + 1, col, j)], aug[Ix(n + 1, maxRow, j)] := aug[Ix(n + 1, maxRow, j)], aug[Ix(n + 1, col, j)];
      j := j + 1;
    }
    ViewIs(aug[..], n, SwapRows(m, col, maxRow));
  }

  lemma ViewIs(s: seq<real>, n: nat, m: Matrix)
    requires |s| == n * (n + 1) && Shape(m, n)
    requires forall r, c {:trigger Ix(n + 1, r, c)} :: 0 <= r < n && 0 <= c <= n ==>
      Ix(n + 1, r, c) < |s| && s[Ix(n + 1, r, c)] == m[r][c]
    ensures View(s, n + 1, n) == m
  {
    hide Ix;
    var v := View(s, n + 1, n);
    forall r | 0 <= r < n ensures v[r] == m[r] {
      forall c | 0 <= c <= n ensures v[r][c] == m[r][c] {
        assert Ix(n + 1, r, c) < |s|;
      }
    }
  }

  /** Divides row col by its pivot, from column col on. */
  method ScaleRowInPlace(aug: array<real>, n: nat, col: nat)
    requires col < n && aug.Length == n * (n + 1)
    requires var m := View(aug[..], n + 1, n); m[col][col] != 0.0 && forall c :: 0 <= c < col ==> m[col][c] == 0.0
    modifies aug
    ensures var m := old(View(aug[..], n + 1, n));
      View(aug[..], n + 1, n) == m[col := Scaled(m[col], m[col][col])]
  {
    hide Ix;
    IxFacts(n + 1, n);
    ghost var m := View(aug[..], n + 1, n);
    var pivot := aug[Ix(n + 1, col, col)];
    var j := col;
    while j <= n
      invariant col <= j <= n + 1
      invariant forall r, c {:trigger Ix(n + 1, r, c)} :: 0 <= r < n && 0 <= c <= n ==>
        aug[Ix(n + 1, r, c)] == if r == col && col <= c < j then m[r][c] / pivot else m[r][c]
    {
      aug[Ix(n + 1, col, j)] := aug[Ix(n + 1, col, j)] / pivot;
      j := j + 1;
    }
    ViewIs(aug[..], n, m[col := Scaled(m[col], m[col][col])]);
  }

  lemma MinusNothing(x: real, f: real)
    ensures MinusEntry(x, f, 0.0) == x
  {
  }

  /** Subtracts from row `row` the multiple of row col that clears column col, from column col on. */
  method EliminateRowInPlace(aug: array<real>, n: nat, col: nat, row: nat)
    requires col < n && row < n && row != col && aug.Length == n * (n + 1)
    requires var m := View(aug[..], n + 1, n); forall c :: 0 <= c < col ==> m[col][c] == 0.0
    modifies aug
    ensures var m := old(View(aug[..], n + 1, n));
      View(aug[..], n + 1, n) == m[row := Minus(m[row], m[row][col], m[col])]
  {
    hide Ix, MinusEntry;
    IxFacts(n + 1, n);
    ghost var m := View(aug[..], n + 1, n);
    var factor := aug[Ix(n + 1, row, col)];
    var j := col;
    while j <= n
      invariant col <= j <= n + 1
      invariant forall r, c {:trigger Ix(n + 1, r, c)} :: 0 <= r < n && 0 <= c <= n ==>
        aug[Ix(n + 1, r, c)] == if r == row && col <= c < j then MinusEntry(m[r][c], factor, m[col][c]) else m[r][c]
    {
      aug[Ix(n + 1, row, j)] := MinusEntry(aug[Ix(n + 1, row, j)], factor, aug[Ix(n + 1, col, j)]);
      j := j + 1;
    }
    ghost var m' := m[row := Minus(m[row], factor, m[col])];
    forall c | 0 <= c < col ensures m'[row][c] == m[row][c] {
      MinusNothing(m[row][c], factor);
    }
    ViewIs(aug[..], n, m');
  }

  // ---------- The solver ----------

  /** Lays the system out as one flat augmented matrix. */
  method Augment(a: array<real>, b: array<real>, n: nat) returns (aug: array<real>)
    requires a.Length == n * n && b.Length == n
    ensures fresh(aug) && aug.Length == n * (n + 1)
    ensures View(aug[..], n + 1, n) == SystemOf(a[..], b[..], n)
  {
    hide Ix;
    IxFacts(n + 1, n);
    IxFacts(n, n);
    aug := new real[n * (n + 1)];
    ghost var m := SystemOf(a[..], b[..], n);
    var i := 0;
    while i < n
      invariant 0 <= i <= n
      invariant forall r, c {:trigger Ix(n + 1, r, c)} :: 0 <= r < i && 0 <= c <= n ==>
        aug[Ix(n + 1, r, c)] == m[r][c]
    {
      forall j | 0 <= j < n {
        aug[Ix(n + 1, i, j)] := a[Ix(n, i, j)];
      }
      aug[Ix(n + 1, i, n)] := b[i];
      i := i + 1;
    }
    ViewIs(aug[..], n, m);
  }

  /** Clears column col in every row but row col. */
  method EliminateColumn(aug: array<real>, n: nat, col: nat)
    requires aug.Length == n * (n + 1) && Cleared(View(aug[..], n + 1, n), n, col, 0)
    modifies aug
    ensures View(aug[..], n + 1, n) == Cleaned(old(View(aug[..], n + 1, n)), n, col, n)
  {
    hide Ix, SameSolutions, Minus;
    ghost var m := View(aug[..], n + 1, n);
    var row := 0;
    while row < n
      invariant 0 <= row <= n
      invariant View(aug[..], n + 1, n) == Cleaned(m, n, col, row)
    {
      CleanedIsCleared(m, n, col, row);
      if row != col {
        EliminateRowInPlace(aug, n, col, row);
      }
      row := row + 1;
    }
  }

  /** One column of the elimination, given where its pivot is. */
  method EliminateStepInPlace(aug: array<real>, n: nat, col: nat, maxRow: nat)
    requires col < n && aug.Length == n * (n + 1)
    requires var m := View(aug[..], n + 1, n);
      Reduced(m, n, col) && maxRow == PivotRow(m, n, col, n) && PivotSize(m, n, col) > 0.0
    modifies aug
    ensures View(aug[..], n + 1, n) == ColumnStep(old(View(aug[..], n + 1, n)), n, col)
  {
    hide Ix, SameSolutions, Scaled, Cleaned, PivotRow;
    ghost var m1 := View(aug[..], n + 1, n);
    SwapStep(m1, n, col, maxRow);
    if maxRow != col {
      SwapRowsInPlace(aug, n, col, maxRow);
    } else {
      assert SwapRows(m1, col, maxRow) == m1;
    }
    ScaleStep(View(aug[..], n + 1, n), n, col);
    ScaleRowInPlace(aug, n, col);
    EliminateColumn(aug, n, col);
  }

  /**
   Solves the n equations with flat coefficients a and right-hand side b.  It succeeds exactly when no pivot is
   below the tolerance, and then the result is the only solution; otherwise it names the first column that fails.
   */
  method SolveLinearSystem(a: array<real>, b: array<real>, n: nat) returns (res: Result<seq<real>>)
    requires a.Length == n * n && b.Length == n
    ensures res.Ok? <==> Accepts(SystemOf(a[..], b[..], n), n)
    ensures res.Ok? ==> UniqueSolution(SystemOf(a[..], b[..], n), n, res.value)
    ensures res.Singular? ==>
      && res.column < n && res.pivot == PivotOf(SystemOf(a[..], b[..], n), n, res.column) < MATRIX_TOLERANCE
      && forall c :: 0 <= c < res.column ==> PivotOf(SystemOf(a[..], b[..], n), n, c) >= MATRIX_TOLERANCE
  {
    hide Ix, SameSolutions, UniqueSolution, ColumnStep, PivotSize, PivotRow;
    ghost var m0 := SystemOf(a[..], b[..], n);
    var aug := Augment(a, b, n);
    var col := 0;
    while col < n
      invariant 0 <= col <= n
      invariant View(aug[..], n + 1, n) == Eliminated(m0, n, col)
      invariant forall c :: 0 <= c < col ==> PivotOf(m0, n, c) >= MATRIX_TOLERANCE
    {
      var maxRow, maxVal := FindPivot(aug, n, col);
      assert maxVal == PivotOf(m0, n, col);
      if maxVal < MATRIX_TOLERANCE {
        return Singular(col, maxVal);
      }
      EliminatedIsReduced(m0, n, col);
      EliminateStepInPlace(aug, n, col, maxRow);
      col := col + 1;
    }
    ghost var m := View(aug[..], n + 1, n);
    var x := seq(n, i requires 0 <= i < n => 0.0);
    var i := 0;
    while i < n
      invariant 0 <= i <= n && |x| == n
      invariant forall k :: 0 <= k < i ==> x[k] == m[k][n]
    {
      assert Ix(n + 1, i, n) < |aug[..]| && m[i][n] == aug[..][Ix(n + 1, i, n)];
      x := x[i := aug[Ix(n + 1, i, n)]];
      i := i + 1;
    }
    EliminatedIsSolved(m0, n);
    assert x == SolutionOf(m0, n);
    return Ok(x);
  }
}
