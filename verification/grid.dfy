/** Matrices as sequences of rows: `init_matrix`, and the in-bounds test
    and single-cell update the rasterisers perform on them. */
module Grid {
  import opened Common

  /** A row-major matrix; rows need not have equal lengths in general. */
  type Matrix<T> = seq<seq<T>>

  /** Every row of `m` has `cols` entries, and there are `rows` rows. */
  predicate Shape<T>(m: Matrix<T>, rows: nat, cols: nat)
  {
    |m| == rows && forall r :: 0 <= r < |m| ==> |m[r]| == cols
  }

  /** The number of iterations of a loop `for (i = 0; i < n; i++)`. */
  function Dim(n: int): (r: nat)
    ensures n >= 0 ==> r == n
    ensures n < 0 ==> r == 0
  {
    if n >= 0 then n else 0
  }

  /** `init_matrix(height, width)`: rows `0..height` inclusive, so one row
      more than `height`, each holding `width` zeros.  A negative bound
      runs its loop zero times. */
  method InitMatrix(height: int, width: int) returns (m: Matrix<real>)
    ensures Shape(m, Dim(height + 1), Dim(width))
    ensures forall r, c :: 0 <= r < |m| && 0 <= c < |m[r]| ==> m[r][c] == 0.0
  {
    var w := Dim(width);
    m := [];
    var i := 0;
    while i <= height
      invariant 0 <= i <= Dim(height + 1) && |m| == i
      invariant forall r :: 0 <= r < |m| ==> |m[r]| == w
      invariant forall r, c :: 0 <= r < |m| && 0 <= c < |m[r]| ==> m[r][c] == 0.0
    {
      var row: seq<real> := [];
      var j := 0;
      while j < width
        invariant 0 <= j <= w && |row| == j
        invariant forall c :: 0 <= c < |row| ==> row[c] == 0.0
      {
        row := row + [0.0];
        j := j + 1;
      }
      m := m + [row];
      i := i + 1;
    }
  }

  /** The cell lies inside the matrix. */
  predicate InGrid<T>(m: Matrix<T>, cell: Cell)
  {
    0 <= cell.0 < |m| && 0 <= cell.1 < |m[cell.0]|
  }

  /** `m[i][j] = v`. */
  function Update<T>(m: Matrix<T>, cell: Cell, v: T): (r: Matrix<T>)
    requires InGrid(m, cell)
    ensures |r| == |m| && forall q :: 0 <= q < |m| ==> |r[q]| == |m[q]|
    ensures r[cell.0][cell.1] == v
    ensures forall q, c :: 0 <= q < |m| && 0 <= c < |m[q]| && (q, c) != cell ==> r[q][c] == m[q][c]
  {
    m[cell.0 := m[cell.0][cell.1 := v]]
  }

  /** Row-major positions of a `rows` by `cols` grid are below `rows * cols`. */
  lemma RowMajor(i: int, j: int, rows: int, cols: int)
    requires 0 <= i < rows && 0 <= j < cols
    ensures 0 <= i * cols + j < rows * cols
  {
    assert i * cols + cols == (i + 1) * cols;
    assert (i + 1) * cols <= rows * cols;
  }
}
