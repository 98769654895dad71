/** Systems of linear equations over the reals, as augmented matrices, and the row operations on them. */
module LinearSystem {
  /** n rows of n coefficients and a right-hand side. */
  type Matrix = seq<seq<real>>

  ghost predicate Shape(m: Matrix, n: nat) {
    |m| == n && forall r :: 0 <= r < n ==> |m[r]| == n + 1
  }

  /** The sum of the first k products of a row and a vector. */
  function Dot(row: seq<real>, x: seq<real>, k: nat): real
    requires k <= |row| && k <= |x|
  {
    if k == 0 then 0.0 else Dot(row, x, k - 1) + row[k - 1] * x[k - 1]
  }

  ghost predicate RowHolds(row: seq<real>, n: nat, x: seq<real>) {
    |row| == n + 1 && |x| == n && Dot(row, x, n) == row[n]
  }

  /** x satisfies every equation. */
  ghost predicate Solves(m: Matrix, n: nat, x: seq<real>) {
    |m| == n && |x| == n && forall r :: 0 <= r < n ==> RowHolds(m[r], n, x)
  }

  /** The two systems have the same solutions. */
  ghost predicate SameSolutions(m: Matrix, m': Matrix, n: nat) {
    forall x :: Solves(m, n, x) == Solves(m', n, x)
  }

  ghost predicate UniqueSolution(m: Matrix, n: nat, x: seq<real>) {
    Solves(m, n, x) && forall y :: Solves(m, n, y) ==> y == x
  }

  function SwapRows(m: Matrix, a: nat, b: nat): Matrix
    requires a < |m| && b < |m|
  {
    m[a := m[b]][b := m[a]]
  }

  function Scaled(row: seq<real>, p: real): (r: seq<real>)
    requires p != 0.0
    ensures |r| == |row|
  {
    seq(|row|, j requires 0 <= j < |row| => row[j] / p)
  }

  function MinusEntry(x: real, f: real, y: real): real {
    x - f * y
  }

  function Minus(row: seq<real>, f: real, other: seq<real>): (r: seq<real>)
    requires |row| == |other|
    ensures |r| == |row|
  {
    seq(|row|, j requires 0 <= j < |row| => MinusEntry(row[j], f, other[j]))
  }

  // ---------- Row operations keep the solutions ----------

  lemma SwapKeeps(m: Matrix, n: nat, a: nat, b: nat)
    requires Shape(m, n) && a < n && b < n
    ensures SameSolutions(m, SwapRows(m, a, b), n)
  {
    var m' := SwapRows(m, a, b);
    forall x ensures Solves(m, n, x) == Solves(m', n, x) {
      if |x| == n {
        assert m'[a] == m[b] && m'[b] == m[a];
        assert forall r :: 0 <= r < n && r != a && r != b ==> m'[r] == m[r];
        if Solves(m, n, x) {
          assert RowHolds(m[a], n, x) && RowHolds(m[b], n, x);
        }
        if Solves(m', n, x) {
          assert RowHolds(m'[a], n, x) && RowHolds(m'[b], n, x);
          forall r | 0 <= r < n ensures RowHolds(m[r], n, x) {
            assert RowHolds(m'[r], n, x);
          }
        }
      }
    }
  }

  lemma {:induction false} DotScaled(row: seq<real>, p: real, x: seq<real>, k: nat)
    requires p != 0.0 && k <= |row| && k <= |x|
    ensures Dot(Scaled(row, p), x, k) * p == Dot(row, x, k)
  {
    if k > 0 {
      DotScaled(row, p, x, k - 1);
      assert (row[k - 1] / p * x[k - 1]) * p == row[k - 1] * x[k - 1];
    }
  }

  lemma {:induction false} DotMinus(row: seq<real>, f: real, other: seq<real>, x: seq<real>, k: nat)
    requires |row| == |other| && k <= |row| && k <= |x|
    ensures Dot(Minus(row, f, other), x, k) == Dot(row, x, k) - f * Dot(other, x, k)
  {
    if k > 0 {
      DotMinus(row, f, other, x, k - 1);
      assert f * (Dot(other, x, k - 1) + other[k - 1] * x[k - 1])
          == f * Dot(other, x, k - 1) + f * other[k - 1] * x[k - 1];
    }
  }

  lemma ScaledHolds(row: seq<real>, p: real, n: nat, x: seq<real>)
    requires p != 0.0 && |row| == n + 1
    ensures RowHolds(Scaled(row, p), n, x) == RowHolds(row, n, x)
  {
    if |x| == n {
      DotScaled(row, p, x, n);
      var d, e := Dot(Scaled(row, p), x, n), row[n] / p;
      assert e * p == row[n];
      assert d * p == e * p <==> d == e by {
        if d * p == e * p {
          assert (d - e) * p == 0.0;
        }
      }
    }
  }

  lemma ScaleKeeps(m: Matrix, n: nat, a: nat, p: real)
    requires Shape(m, n) && a < n && p != 0.0
    ensures SameSolutions(m, m[a := Scaled(m[a], p)], n)
  {
    var m' := m[a := Scaled(m[a], p)];
    forall x ensures Solves(m, n, x) == Solves(m', n, x) {
      ScaledHolds(m[a], p, n, x);
      ReplaceRow(m, n, a, Scaled(m[a], p), x);
    }
  }

  lemma ReplaceRow(m: Matrix, n: nat, a: nat, row: seq<real>, x: seq<real>)
    requires Shape(m, n) && a < n
    requires Solves(m, n, x) || Solves(m[a := row], n, x) ==> RowHolds(row, n, x) == RowHolds(m[a], n, x)
    ensures Solves(m[a := row], n, x) == Solves(m, n, x)
  {
    var m' := m[a := row];
    if Solves(m, n, x) {
      assert RowHolds(m[a], n, x);
    } else if Solves(m', n, x) {
      assert RowHolds(m'[a], n, x);
      forall r | 0 <= r < n ensures RowHolds(m[r], n, x) {
        assert RowHolds(m'[r], n, x);
      }
    }
  }

  lemma MinusKeeps(m: Matrix, n: nat, a: nat, f: real, b: nat)
    requires Shape(m, n) && a < n && b < n && a != b
    ensures SameSolutions(m, m[a := Minus(m[a], f, m[b])], n)
  {
    var row := Minus(m[a], f, m[b]);
    var m' := m[a := row];
    forall x ensures Solves(m, n, x) == Solves(m', n, x) {
      if Solves(m, n, x) || Solves(m', n, x) {
        assert m'[b] == m[b];
        assert RowHolds(m[b], n, x);
        DotMinus(m[a], f, m[b], x, n);
        assert RowHolds(row, n, x) == RowHolds(m[a], n, x);
      }
      ReplaceRow(m, n, a, row, x);
    }
  }

  lemma SameTrans(m: Matrix, m': Matrix, m'': Matrix, n: nat)
    requires SameSolutions(m, m', n) && SameSolutions(m', m'', n)
    ensures SameSolutions(m, m'', n)
  {
    forall x ensures Solves(m, n, x) == Solves(m'', n, x) {
      assert Solves(m, n, x) == Solves(m', n, x);
    }
  }

  // ---------- The reduced form reads off the solution ----------

  /** Columns before k are those of the identity matrix. */
  ghost predicate Reduced(m: Matrix, n: nat, k: nat) {
    Shape(m, n) && k <= n &&
    forall r, c :: 0 <= r < n && 0 <= c < k ==> m[r][c] == if r == c then 1.0 else 0.0
  }

  lemma {:induction false} DotUnit(row: seq<real>, x: seq<real>, k: nat, i: nat)
    requires k <= |row| && k <= |x|
    requires forall c :: 0 <= c < k ==> row[c] == if c == i then 1.0 else 0.0
    ensures Dot(row, x, k) == if i < k then x[i] else 0.0
  {
    if k > 0 {
      DotUnit(row, x, k - 1, i);
    }
  }

  lemma ReducedIsSolved(m: Matrix, n: nat, x: seq<real>)
    requires Reduced(m, n, n) && |x| == n && forall r :: 0 <= r < n ==> x[r] == m[r][n]
    ensures UniqueSolution(m, n, x)
  {
    forall y | |y| == n ensures Solves(m, n, y) == (y == x) {
      forall r | 0 <= r < n ensures RowHolds(m[r], n, y) == (y[r] == x[r]) {
        DotUnit(m[r], y, n, r);
      }
      if Solves(m, n, y) {
        forall r | 0 <= r < n ensures y[r] == x[r] {
          assert RowHolds(m[r], n, y);
        }
      }
    }
  }

  lemma UniqueTransfers(m: Matrix, m': Matrix, n: nat, x: seq<real>)
    requires SameSolutions(m, m', n) && UniqueSolution(m', n, x)
    ensures UniqueSolution(m, n, x)
  {
    assert Solves(m, n, x) == Solves(m', n, x);
    forall y | Solves(m, n, y) ensures y == x {
      assert Solves(m', n, y);
    }
  }
}
