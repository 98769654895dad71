/** Gauss-Jordan elimination with partial pivoting as a function on matrices, and when it succeeds. */
module Elimination {
  import opened LinearSystem

  const MATRIX_TOLERANCE := 0.000000000001

  function Abs(x: real): (r: real)
    ensures r >= 0.0 && (r == x || r == -x)
  {
    if x < 0.0 then -x else x
  }

  /** The first row from col to before `row` whose entry in column col is largest in magnitude. */
  function PivotRow(m: Matrix, n: nat, col: nat, row: nat): (p: nat)
    requires Shape(m, n) && col < row <= n
    ensures col <= p < row
    ensures forall r :: col <= r < row ==> Abs(m[r][col]) <= Abs(m[p][col])
  {
    if row == col + 1 then col
    else
      var p := PivotRow(m, n, col, row - 1);
      if Abs(m[row - 1][col]) > Abs(m[p][col]) then row - 1 else p
  }

  function PivotSize(m: Matrix, n: nat, col: nat): real
    requires Shape(m, n) && col < n
  {
    Abs(m[PivotRow(m, n, col, n)][col])
  }

  /** The matrix once column col is cleared in every row before `row`, except row col. */
  function Cleaned(m: Matrix, n: nat, col: nat, row: nat): (r: Matrix)
    requires Shape(m, n) && col < n && row <= n
    ensures Shape(r, n)
  {
    if row == 0 then m
    else
      var m' := Cleaned(m, n, col, row - 1);
      if row - 1 == col then m' else m'[row - 1 := Minus(m'[row - 1], m'[row - 1][col], m'[col])]
  }

  /** One column of the elimination, given a pivot that is not zero. */
  function ColumnStep(m: Matrix, n: nat, col: nat): (r: Matrix)
    requires Shape(m, n) && col < n
    ensures Shape(r, n)
  {
    var s := SwapRows(m, col, PivotRow(m, n, col, n));
    if s[col][col] == 0.0 then m else Cleaned(s[col := Scaled(s[col], s[col][col])], n, col, n)
  }

  /** The matrix after the first k columns. */
  function Eliminated(m: Matrix, n: nat, k: nat): (r: Matrix)
    requires Shape(m, n) && k <= n
    ensures Shape(r, n)
  {
    if k == 0 then m else ColumnStep(Eliminated(m, n, k - 1), n, k - 1)
  }

  /** How large the pivot of column col is once the columns before it are done. */
  function PivotOf(m: Matrix, n: nat, col: nat): real
    requires Shape(m, n) && col < n
  {
    PivotSize(Eliminated(m, n, col), n, col)
  }

  /** No pivot is below the tolerance. */
  ghost predicate Accepts(m: Matrix, n: nat)
    requires Shape(m, n)
  {
    forall c :: 0 <= c < n ==> PivotOf(m, n, c) >= MATRIX_TOLERANCE
  }

  // ---------- One column ----------

  lemma SwapStep(m: Matrix, n: nat, col: nat, maxRow: nat)
    requires Reduced(m, n, col) && col <= maxRow < n
    ensures var m' := SwapRows(m, col, maxRow);
      Reduced(m', n, col) && SameSolutions(m, m', n) && m'[col][col] == m[maxRow][col]
  {
    SwapKeeps(m, n, col, maxRow);
  }

  lemma ScaleStep(m: Matrix, n: nat, col: nat)
    requires Reduced(m, n, col) && col < n && m[col][col] != 0.0
    ensures var m' := m[col := Scaled(m[col], m[col][col])];
      Reduced(m', n, col) && SameSolutions(m, m', n) && m'[col][col] == 1.0
  {
    ScaleKeeps(m, n, col, m[col][col]);
  }

  /** Column col is cleared in every row before `row`, except row col, where it is 1. */
  ghost predicate Cleared(m: Matrix, n: nat, col: nat, row: nat) {
    Reduced(m, n, col) && col < n && row <= n && m[col][col] == 1.0 &&
    forall r :: 0 <= r < row && r != col ==> m[r][col] == 0.0
  }

  lemma EliminateStep(m: Matrix, n: nat, col: nat, row: nat)
    requires Cleared(m, n, col, row) && row < n && row != col
    ensures var m' := m[row := Minus(m[row], m[row][col], m[col])];
      Cleared(m', n, col, row + 1) && SameSolutions(m, m', n)
  {
    MinusKeeps(m, n, row, m[row][col], col);
  }

  lemma SameRefl(m: Matrix, n: nat)
    ensures SameSolutions(m, m, n)
  {
  }

  lemma {:induction false} CleanedIsCleared(m: Matrix, n: nat, col: nat, row: nat)
    requires Cleared(m, n, col, 0) && row <= n
    ensures Cleared(Cleaned(m, n, col, row), n, col, row) && SameSolutions(m, Cleaned(m, n, col, row), n)
  {
    hide SameSolutions, Minus;
    if row == 0 {
      SameRefl(m, n);
    } else {
      CleanedIsCleared(m, n, col, row - 1);
      var m' := Cleaned(m, n, col, row - 1);
      if row - 1 != col {
        EliminateStep(m', n, col, row - 1);
        SameTrans(m, m', Cleaned(m, n, col, row), n);
      }
    }
  }

  /** A column with a pivot becomes that of the identity, and the solutions stay. */
  lemma StepReduces(m: Matrix, n: nat, col: nat)
    requires Reduced(m, n, col) && col < n && PivotSize(m, n, col) > 0.0
    ensures Reduced(ColumnStep(m, n, col), n, col + 1) && SameSolutions(m, ColumnStep(m, n, col), n)
  {
    hide SameSolutions, Scaled, SwapRows, Cleaned, PivotRow;
    var p := PivotRow(m, n, col, n);
    var s := SwapRows(m, col, p);
    SwapStep(m, n, col, p);
    var t := s[col := Scaled(s[col], s[col][col])];
    ScaleStep(s, n, col);
    CleanedIsCleared(t, n, col, n);
    SameTrans(m, s, t, n);
    SameTrans(m, t, Cleaned(t, n, col, n), n);
  }

  /** As long as no pivot is zero, elimination keeps the solutions and reduces column after column. */
  lemma {:induction false} EliminatedIsReduced(m: Matrix, n: nat, k: nat)
    requires Shape(m, n) && k <= n && forall c :: 0 <= c < k ==> PivotOf(m, n, c) > 0.0
    ensures Reduced(Eliminated(m, n, k), n, k) && SameSolutions(m, Eliminated(m, n, k), n)
  {
    hide SameSolutions, ColumnStep, PivotSize;
    if k == 0 {
      SameRefl(m, n);
    } else {
      EliminatedIsReduced(m, n, k - 1);
      var m' := Eliminated(m, n, k - 1);
      assert PivotOf(m, n, k - 1) > 0.0;
      StepReduces(m', n, k - 1);
      SameTrans(m, m', Eliminated(m, n, k), n);
    }
  }

  // ---------- A zero pivot ----------

  function Sum2(x: seq<real>, y: seq<real>): (r: seq<real>)
    requires |x| == |y|
    ensures |r| == |x|
  {
    seq(|x|, j requires 0 <= j < |x| => x[j] + y[j])
  }

  lemma {:induction false} DotAdd(row: seq<real>, x: seq<real>, y: seq<real>, k: nat)
    requires |x| == |y| && k <= |row| && k <= |x|
    ensures Dot(row, Sum2(x, y), k) == Dot(row, x, k) + Dot(row, y, k)
  {
    if k > 0 {
      DotAdd(row, x, y, k - 1);
      assert row[k - 1] * (x[k - 1] + y[k - 1]) == row[k - 1] * x[k - 1] + row[k - 1] * y[k - 1];
    }
  }

  /** A vector the matrix sends to zero, when column col has no pivot. */
  function Kernel(m: Matrix, n: nat, col: nat): (v: seq<real>)
    requires Shape(m, n) && col < n
    ensures |v| == n
  {
    seq(n, j requires 0 <= j < n => if j < col then -m[j][col] else if j == col then 1.0 else 0.0)
  }

  lemma {:induction false} DotKernel(m: Matrix, n: nat, col: nat, r: nat, k: nat)
    requires Reduced(m, n, col) && col < n && r < n && k <= n
    ensures Dot(m[r], Kernel(m, n, col), k)
         == (if r < k && r < col then -m[r][col] else 0.0) + (if col < k then m[r][col] else 0.0)
  {
    if k > 0 {
      DotKernel(m, n, col, r, k - 1);
      var j, v := k - 1, Kernel(m, n, col);
      if j < col {
        assert m[r][j] == if r == j then 1.0 else 0.0;
        Picked(m[r][j], v[j], r == j);
      } else {
        Picked(v[j], m[r][j], j == col);
      }
    }
  }

  lemma Picked(a: real, b: real, one: bool)
    requires a == if one then 1.0 else 0.0
    ensures a * b == (if one then b else 0.0) && b * a == a * b
  {
  }

  /** Without a pivot there is never exactly one solution. */
  lemma ZeroPivotIsSingular(m: Matrix, n: nat, col: nat, x: seq<real>)
    requires Reduced(m, n, col) && col < n && PivotSize(m, n, col) == 0.0
    ensures !UniqueSolution(m, n, x)
  {
    if UniqueSolution(m, n, x) {
      var v := Kernel(m, n, col);
      var y := Sum2(x, v);
      assert y[col] == x[col] + 1.0;
      forall r | 0 <= r < n ensures RowHolds(m[r], n, y) {
        assert RowHolds(m[r], n, x);
        DotAdd(m[r], x, v, n);
        DotKernel(m, n, col, r, n);
        assert r >= col ==> Abs(m[r][col]) <= 0.0;
      }
      assert Solves(m, n, y);
    }
  }

  // ---------- When the solver succeeds ----------

  /** The last column of the reduced form. */
  function SolutionOf(m: Matrix, n: nat): (x: seq<real>)
    requires Shape(m, n)
    ensures |x| == n
  {
    var e := Eliminated(m, n, n);
    seq(n, r requires 0 <= r < n => e[r][n])
  }

  lemma EliminatedIsSolved(m: Matrix, n: nat)
    requires Shape(m, n) && forall c :: 0 <= c < n ==> PivotOf(m, n, c) > 0.0
    ensures UniqueSolution(m, n, SolutionOf(m, n))
  {
    hide SameSolutions, UniqueSolution, Eliminated;
    EliminatedIsReduced(m, n, n);
    ReducedIsSolved(Eliminated(m, n, n), n, SolutionOf(m, n));
    UniqueTransfers(m, Eliminated(m, n, n), n, SolutionOf(m, n));
  }

  lemma FirstZeroPivot(m: Matrix, n: nat, x: seq<real>, c: nat)
    requires Shape(m, n) && c < n && PivotOf(m, n, c) == 0.0
    requires forall k :: 0 <= k < c ==> PivotOf(m, n, k) > 0.0
    ensures !UniqueSolution(m, n, x)
  {
    hide Eliminated, PivotSize;
    EliminatedIsReduced(m, n, c);
    var e := Eliminated(m, n, c);
    ZeroPivotIsSingular(e, n, c, x);
    if UniqueSolution(m, n, x) {
      SameBack(m, e, n);
      UniqueTransfers(e, m, n, x);
    }
  }

  lemma SameBack(m: Matrix, m': Matrix, n: nat)
    requires SameSolutions(m, m', n)
    ensures SameSolutions(m', m, n)
  {
    forall x ensures Solves(m', n, x) == Solves(m, n, x) {
      assert Solves(m, n, x) == Solves(m', n, x);
    }
  }

  /** In exact arithmetic a system has exactly one solution if and only if no pivot is zero. */
  lemma UniqueIffPivots(m: Matrix, n: nat)
    requires Shape(m, n)
    ensures (exists x :: UniqueSolution(m, n, x)) <==> forall c :: 0 <= c < n ==> PivotOf(m, n, c) > 0.0
  {
    hide UniqueSolution, Eliminated, PivotSize;
    if forall c :: 0 <= c < n ==> PivotOf(m, n, c) > 0.0 {
      EliminatedIsSolved(m, n);
    } else {
      var c := FirstFlat(m, n);
      forall x ensures !UniqueSolution(m, n, x) {
        FirstZeroPivot(m, n, x, c);
      }
    }
  }

  lemma FirstFlat(m: Matrix, n: nat) returns (c: nat)
    requires Shape(m, n) && exists k :: 0 <= k < n && PivotOf(m, n, k) <= 0.0
    ensures c < n && PivotOf(m, n, c) == 0.0 && forall k :: 0 <= k < c ==> PivotOf(m, n, k) > 0.0
  {
    hide Eliminated;
    c := 0;
    while PivotOf(m, n, c) > 0.0
      invariant c < n && forall k :: 0 <= k < c ==> PivotOf(m, n, k) > 0.0
      invariant exists k :: c <= k < n && PivotOf(m, n, k) <= 0.0
      decreases n - c
    {
      c := c + 1;
    }
  }

  /** A system with exactly one solution is refused if and only if one of its pivots is too small, though not zero. */
  lemma SolvableButRefusedIff(m: Matrix, n: nat)
    requires Shape(m, n)
    ensures (exists x :: UniqueSolution(m, n, x)) && !Accepts(m, n) <==>
            && (forall c :: 0 <= c < n ==> PivotOf(m, n, c) > 0.0)
            && exists c :: 0 <= c < n && PivotOf(m, n, c) < MATRIX_TOLERANCE
  {
    hide UniqueSolution, PivotOf;
    UniqueIffPivots(m, n);
  }

  /** One equation in one unknown is accepted if and only if its coefficient is at least 1e-12 in magnitude. */
  lemma OneEquation(m: Matrix, p: real, q: real)
    requires m == [[p, q]]
    ensures Accepts(m, 1) <==> p >= 0.000000000001 || p <= -0.000000000001
  {
    assert PivotOf(m, 1, 0) == Abs(p);
  }

  /** One such system: 1e-13 x = 1. */
  lemma SmallPivotIsRefused(m: Matrix)
    requires m == [[0.0000000000001, 1.0]]
    ensures UniqueSolution(m, 1, [10000000000000.0]) && !Accepts(m, 1)
  {
    assert PivotOf(m, 1, 0) == 0.0000000000001;
    forall y | |y| == 1 ensures Solves(m, 1, y) <==> y == [10000000000000.0] {
      assert Dot(m[0], y, 1) == Dot(m[0], y, 0) + m[0][0] * y[0];
      assert RowHolds(m[0], 1, y) <==> 0.0000000000001 * y[0] == 1.0;
    }
  }
}
