/**
 * Exact sums and means over rectangular integer grids: the arithmetic of
 * `MovingAvg::averageRGB`, whose channel sums are sums of bytes and so are whole numbers.
 */
module MatrixSums {

  /** Sum of a row, accumulated left to right. */
  function RowSum(r: seq<int>): int
  {
    if r == [] then 0 else RowSum(r[..|r| - 1]) + r[|r| - 1]
  }

  /** Sum of a grid, accumulated row by row. */
  function GridSum(m: seq<seq<int>>): int
  {
    if m == [] then 0 else GridSum(m[..|m| - 1]) + RowSum(m[|m| - 1])
  }

  lemma RowSumAppend(r: seq<int>, v: int)
    ensures RowSum(r + [v]) == RowSum(r) + v
  {
    assert (r + [v])[..|r|] == r;
  }

  lemma GridSumAppend(m: seq<seq<int>>, r: seq<int>)
    ensures GridSum(m + [r]) == GridSum(m) + RowSum(r)
  {
    assert (m + [r])[..|m|] == m;
  }

  ghost predicate Rectangular(m: seq<seq<int>>, cols: nat)
  {
    forall i :: 0 <= i < |m| ==> |m[i]| == cols
  }

  ghost predicate NonEmptyGrid(m: seq<seq<int>>)
  {
    |m| > 0 && |m[0]| > 0 && Rectangular(m, |m[0]|)
  }

  ghost predicate EntriesWithin(m: seq<seq<int>>, lo: int, hi: int)
  {
    forall i, j :: 0 <= i < |m| && 0 <= j < |m[i]| ==> lo <= m[i][j] <= hi
  }

  /** Number of cells of a non-empty rectangular grid. */
  function CellCount(m: seq<seq<int>>): nat
    requires NonEmptyGrid(m)
  {
    |m| * |m[0]|
  }

  /** Arithmetic mean of the cells: the exact sum divided by the number of cells. */
  ghost function Mean(m: seq<seq<int>>): real
    requires NonEmptyGrid(m)
  {
    (GridSum(m) as real) / (CellCount(m) as real)
  }

  /** The grid whose row j is column j of `m`. */
  function Transpose(m: seq<seq<int>>, cols: nat): seq<seq<int>>
    requires Rectangular(m, cols)
  {
    seq(cols, j requires 0 <= j < cols => seq(|m|, i requires 0 <= i < |m| => m[i][j]))
  }

  lemma MulDistributes(a: int, b: int, c: int)
    ensures a * (b + c) == a * b + a * c
  {
  }

  lemma MulAddOne(a: int, c: int)
    ensures (a + 1) * c == a * c + c
  {
  }

  lemma {:induction false} RowSumWithin(r: seq<int>, lo: int, hi: int)
    requires forall j :: 0 <= j < |r| ==> lo <= r[j] <= hi
    ensures lo * |r| <= RowSum(r) <= hi * |r|
  {
    if r != [] {
      RowSumWithin(r[..|r| - 1], lo, hi);
    }
  }

  lemma {:induction false} GridSumWithin(m: seq<seq<int>>, cols: nat, lo: int, hi: int)
    requires Rectangular(m, cols) && EntriesWithin(m, lo, hi)
    ensures lo * (|m| * cols) <= GridSum(m) <= hi * (|m| * cols)
  {
    if m != [] {
      var n := |m|;
      var k := (n - 1) * cols;
      assert EntriesWithin(m[..n - 1], lo, hi);
      GridSumWithin(m[..n - 1], cols, lo, hi);
      RowSumWithin(m[n - 1], lo, hi);
      assert n * cols == k + cols by { MulAddOne(n - 1, cols); }
      MulDistributes(lo, k, cols);
      MulDistributes(hi, k, cols);
    }
  }

  /** A mean lies between the smallest and the largest value a cell may take. */
  lemma MeanWithin(m: seq<seq<int>>, lo: int, hi: int)
    requires NonEmptyGrid(m) && EntriesWithin(m, lo, hi)
    ensures lo as real <= Mean(m) <= hi as real
  {
    GridSumWithin(m, |m[0]|, lo, hi);
    QuotientWithin(GridSum(m), CellCount(m), lo, hi);
  }

  lemma QuotientWithin(s: int, n: int, lo: int, hi: int)
    requires n > 0 && lo * n <= s <= hi * n
    ensures lo as real <= (s as real) / (n as real) <= hi as real
  {
    var q := (s as real) / (n as real);
    assert q * (n as real) == s as real;
    assert (lo * n) as real == (lo as real) * (n as real);
    assert (hi * n) as real == (hi as real) * (n as real);
  }

  lemma {:induction false} RowSumUniform(r: seq<int>, v: int)
    requires forall j :: 0 <= j < |r| ==> r[j] == v
    ensures RowSum(r) == v * |r|
  {
    if r != [] {
      RowSumUniform(r[..|r| - 1], v);
    }
  }

  lemma {:induction false} GridSumUniform(m: seq<seq<int>>, cols: nat, v: int)
    requires Rectangular(m, cols)
    requires forall i, j :: 0 <= i < |m| && 0 <= j < |m[i]| ==> m[i][j] == v
    ensures GridSum(m) == v * (|m| * cols)
  {
    if m != [] {
      var n := |m|;
      var k := (n - 1) * cols;
      GridSumUniform(m[..n - 1], cols, v);
      RowSumUniform(m[n - 1], v);
      assert n * cols == k + cols by { MulAddOne(n - 1, cols); }
      MulDistributes(v, k, cols);
    }
  }

  /** A grid whose cells all hold v has mean v. */
  lemma MeanUniform(m: seq<seq<int>>, v: int)
    requires NonEmptyGrid(m)
    requires forall i, j :: 0 <= i < |m| && 0 <= j < |m[i]| ==> m[i][j] == v
    ensures Mean(m) == v as real
  {
    GridSumUniform(m, |m[0]|, v);
    assert GridSum(m) == v * CellCount(m);
  }

  /** A grid of empty rows sums to zero. */
  lemma {:induction false} GridSumEmptyRows(m: seq<seq<int>>)
    requires Rectangular(m, 0)
    ensures GridSum(m) == 0
  {
    if m != [] {
      GridSumEmptyRows(m[..|m| - 1]);
    }
  }

  /**
   * Summing the last column separately: the grid's sum is the sum of the grid with each
   * row's last cell dropped plus the sum of those last cells.
   */
  lemma {:induction false} GridSumSplitLastColumn(m: seq<seq<int>>, cols: nat)
    requires cols > 0 && Rectangular(m, cols)
    ensures GridSum(m) ==
      GridSum(seq(|m|, i requires 0 <= i < |m| => m[i][..cols - 1]))
      + RowSum(seq(|m|, i requires 0 <= i < |m| => m[i][cols - 1]))
  {
    var front := seq(|m|, i requires 0 <= i < |m| => m[i][..cols - 1]);
    var back := seq(|m|, i requires 0 <= i < |m| => m[i][cols - 1]);
    if m != [] {
      var n := |m|;
      var m' := m[..n - 1];
      GridSumSplitLastColumn(m', cols);
      var front' := seq(|m'|, i requires 0 <= i < |m'| => m'[i][..cols - 1]);
      var back' := seq(|m'|, i requires 0 <= i < |m'| => m'[i][cols - 1]);
      assert front[..n - 1] == front';
      assert back[..n - 1] == back';
      assert m[n - 1] == m[n - 1][..cols - 1] + [m[n - 1][cols - 1]];
      assert m[n - 1][..cols - 1] == m[n - 1][..cols][..cols - 1];
      assert RowSum(m[n - 1]) == RowSum(m[n - 1][..cols - 1]) + m[n - 1][cols - 1];
    }
  }

  /** Transposing a grid does not change its sum. */
  lemma {:induction false} GridSumTranspose(m: seq<seq<int>>, cols: nat)
    requires Rectangular(m, cols)
    ensures GridSum(Transpose(m, cols)) == GridSum(m)
    decreases cols
  {
    var t := Transpose(m, cols);
    if cols == 0 {
      assert t == [];
      GridSumEmptyRows(m);
    } else {
      var front := seq(|m|, i requires 0 <= i < |m| => m[i][..cols - 1]);
      var back := seq(|m|, i requires 0 <= i < |m| => m[i][cols - 1]);
      GridSumSplitLastColumn(m, cols);
      GridSumTranspose(front, cols - 1);
      var tf := Transpose(front, cols - 1);
      assert |t[..cols - 1]| == |tf|;
      forall j | 0 <= j < cols - 1
        ensures t[..cols - 1][j] == tf[j]
      {
        assert |t[j]| == |tf[j]|;
        forall i | 0 <= i < |m| ensures t[j][i] == tf[j][i] {
          assert front[i] == m[i][..cols - 1];
        }
      }
      assert t[..cols - 1] == tf;
      assert t[cols - 1] == back;
    }
  }

  /** The mean of a grid is the mean of its transpose. */
  lemma MeanTranspose(m: seq<seq<int>>)
    requires NonEmptyGrid(m)
    ensures NonEmptyGrid(Transpose(m, |m[0]|))
    ensures Mean(Transpose(m, |m[0]|)) == Mean(m)
  {
    var t := Transpose(m, |m[0]|);
    GridSumTranspose(m, |m[0]|);
    assert Rectangular(t, |m|);
    assert CellCount(t) == CellCount(m);
  }
}
