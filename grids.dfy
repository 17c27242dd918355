/**
 * Square colour grids: the array-to-value snapshot and the two numpy
 * reorientations the spirals apply before returning (`np.flip(a, axis=0)`
 * and `np.rot90(a, -1)`), as index permutations.
 */
module Grids {
  import opened Classification

  /** A pair of grid coordinates. */
  type Cell = (int, int)

  predicate OnGrid(p: Cell, n: int) {
    0 <= p.0 < n && 0 <= p.1 < n
  }

  predicate IsSquare<T>(g: seq<seq<T>>, n: nat) {
    |g| == n && forall i :: 0 <= i < n ==> |g[i]| == n
  }

  /** The contents of a two-dimensional array, row by row. */
  function Cells(a: array2<Colour>): (g: seq<seq<Colour>>)
    reads a
    ensures |g| == a.Length0
    ensures forall i :: 0 <= i < a.Length0 ==> |g[i]| == a.Length1
    ensures forall i, j :: 0 <= i < a.Length0 && 0 <= j < a.Length1 ==> g[i][j] == a[i, j]
  {
    seq(a.Length0, i reads a requires 0 <= i < a.Length0 =>
      seq(a.Length1, j reads a requires 0 <= j < a.Length1 => a[i, j]))
  }

  /** `np.flip(g, axis=0)`: the rows in reverse order; row i of g becomes row n - 1 - i. */
  function FlipRows<T>(g: seq<seq<T>>): (r: seq<seq<T>>)
    ensures |r| == |g|
    ensures forall i :: 0 <= i < |g| ==> r[|g| - 1 - i] == g[i]
    ensures forall n: nat :: IsSquare(g, n) ==> IsSquare(r, n)
  {
    seq(|g|, i requires 0 <= i < |g| => g[|g| - 1 - i])
  }

  /** `np.flip(g, axis=1)`: each row in reverse order. */
  function FlipCols<T>(g: seq<seq<T>>): seq<seq<T>> {
    seq(|g|, i requires 0 <= i < |g| =>
      seq(|g[i]|, j requires 0 <= j < |g[i]| => g[i][|g[i]| - 1 - j]))
  }

  /**
   * `np.rot90(g, -1)` of a square grid: a quarter turn clockwise, which
   * moves the cell at row i, column j to row j, column n - 1 - i.
   */
  function RotateCw<T>(g: seq<seq<T>>): (r: seq<seq<T>>)
    requires IsSquare(g, |g|)
    ensures IsSquare(r, |g|)
    ensures forall i, j :: 0 <= i < |g| && 0 <= j < |g| ==> r[j][|g| - 1 - i] == g[i][j]
  {
    seq(|g|, i requires 0 <= i < |g| =>
      seq(|g|, j requires 0 <= j < |g| => g[|g| - 1 - j][i]))
  }

  /** The transpose of a square grid. */
  function Transpose<T>(g: seq<seq<T>>): seq<seq<T>>
    requires IsSquare(g, |g|)
  {
    seq(|g|, i requires 0 <= i < |g| =>
      seq(|g|, j requires 0 <= j < |g| => g[j][i]))
  }

  /**
   * A clockwise quarter turn is the transpose with each row reversed
   * (numpy's own construction of `rot90(m, -1)`: `flip(transpose(m), 1)`).
   */
  lemma RotateCwIsFlippedTranspose<T>(g: seq<seq<T>>)
    requires IsSquare(g, |g|)
    ensures RotateCw(g) == FlipCols(Transpose(g))
  {
    var n := |g|;
    var t := Transpose(g);
    forall i | 0 <= i < n
      ensures RotateCw(g)[i] == FlipCols(t)[i]
    {
      assert |t[i]| == n;
      forall j | 0 <= j < n
        ensures RotateCw(g)[i][j] == FlipCols(t)[i][j]
      {
        assert FlipCols(t)[i][j] == t[i][n - 1 - j];
      }
    }
  }

  /** Flipping the rows and then turning clockwise is the transpose. */
  lemma FlipThenRotateIsTranspose<T>(g: seq<seq<T>>)
    requires IsSquare(g, |g|)
    ensures IsSquare(FlipRows(g), |g|)
    ensures RotateCw(FlipRows(g)) == Transpose(g)
  {
    var f := FlipRows(g);
    var n := |g|;
    assert IsSquare(f, n);
    forall i | 0 <= i < n
      ensures RotateCw(f)[i] == Transpose(g)[i]
    {
      forall j | 0 <= j < n
        ensures RotateCw(f)[i][j] == Transpose(g)[i][j]
      {
        assert f[n - 1 - j] == g[j];
      }
    }
  }
}
