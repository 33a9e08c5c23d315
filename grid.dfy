/// Value-level view of the game grid's tile matrix, shared by the tile and
/// game-grid models: the matrix as a sequence of rows, its columns, and the
/// sums over it (the tile total that the score is built from, and the number
/// of occupied cells).
module Grid {

  /** A tile matrix as values. Row 0 is the bottom row of the game grid and
      row indexes grow upwards. A cell holds 0 when it is empty (None in the
      game) and the number on its tile otherwise; tile numbers are positive. */
  type Matrix = seq<seq<nat>>

  function Width<T>(g: seq<seq<T>>): nat
  {
    if |g| == 0 then 0 else |g[0]|
  }

  /** All rows have the same length. */
  predicate IsRect<T>(g: seq<seq<T>>)
  {
    forall r :: 0 <= r < |g| ==> |g[r]| == Width(g)
  }

  /** The contents of a two-dimensional array, row by row. */
  function Cells<T>(m: array2<T>): (g: seq<seq<T>>)
    reads m
    ensures |g| == m.Length0 && IsRect(g)
    ensures forall r :: 0 <= r < |g| ==> |g[r]| == m.Length1
    ensures forall r, c :: 0 <= r < m.Length0 && 0 <= c < m.Length1 ==> g[r][c] == m[r, c]
  {
    seq(m.Length0, r requires 0 <= r < m.Length0 reads m =>
      seq(m.Length1, c requires 0 <= c < m.Length1 reads m => m[r, c]))
  }

  lemma CellsEq<T>(m: array2<T>, g: seq<seq<T>>)
    requires |g| == m.Length0
    requires forall r :: 0 <= r < |g| ==> |g[r]| == m.Length1
    requires forall r, c :: 0 <= r < m.Length0 && 0 <= c < m.Length1 ==> g[r][c] == m[r, c]
    ensures Cells(m) == g
  {
    var h := Cells(m);
    forall r | 0 <= r < |g|
      ensures h[r] == g[r]
    {
      assert |h[r]| == |g[r]|;
    }
  }

  /** Row `r` of a two-dimensional array. */
  function Row(m: array2<nat>, r: nat): (s: seq<nat>)
    reads m
    requires r < m.Length0
    ensures |s| == m.Length1
    ensures forall c :: 0 <= c < m.Length1 ==> s[c] == m[r, c]
  {
    seq(m.Length1, c requires 0 <= c < m.Length1 reads m => m[r, c])
  }

  // ---------------------------------------------------------------------------
  // Sums over cells, for any weight of a cell.

  function SeqSum(s: seq<nat>, f: nat -> nat): nat
  {
    if |s| == 0 then 0 else SeqSum(s[..|s| - 1], f) + f(s[|s| - 1])
  }

  function GridSum(g: Matrix, f: nat -> nat): nat
  {
    if |g| == 0 then 0 else GridSum(g[..|g| - 1], f) + SeqSum(g[|g| - 1], f)
  }

  /** The weight of a cell in the tile sum: its number, 0 when empty. */
  function Number(v: nat): nat { v }

  /** The weight of a cell in the tile count. */
  function Occupancy(v: nat): nat { if v == 0 then 0 else 1 }

  /** The sum of the numbers on the tiles of one row. */
  function Sum(s: seq<nat>): nat { SeqSum(s, Number) }

  /** The sum of the numbers on all tiles of the matrix. */
  function Total(g: Matrix): nat { GridSum(g, Number) }

  /** The number of occupied cells of the matrix. */
  function TileCount(g: Matrix): nat { GridSum(g, Occupancy) }

  lemma {:induction false} SeqSumAppend(a: seq<nat>, b: seq<nat>, f: nat -> nat)
    ensures SeqSum(a + b, f) == SeqSum(a, f) + SeqSum(b, f)
    decreases |b|
  {
    if |b| > 0 {
      var n := |b| - 1;
      assert (a + b)[..|a + b| - 1] == a + b[..n];
      SeqSumAppend(a, b[..n], f);
    } else {
      assert a + b == a;
    }
  }

  lemma SeqSumAppend3(a: seq<nat>, b: seq<nat>, c: seq<nat>, f: nat -> nat)
    ensures SeqSum(a + b + c, f) == SeqSum(a, f) + SeqSum(b, f) + SeqSum(c, f)
  {
    SeqSumAppend(a, b, f);
    SeqSumAppend(a + b, c, f);
  }

  /** Replacing one element changes the sum by the difference of the weights. */
  lemma {:induction false} SeqSumPoint(a: seq<nat>, b: seq<nat>, i: nat, f: nat -> nat)
    requires |a| == |b| && i < |a|
    requires forall j :: 0 <= j < |a| && j != i ==> a[j] == b[j]
    ensures SeqSum(b, f) + f(a[i]) == SeqSum(a, f) + f(b[i])
    decreases |a|
  {
    var n := |a| - 1;
    if i == n {
      assert a[..n] == b[..n];
    } else {
      SeqSumPoint(a[..n], b[..n], i, f);
    }
  }

  /** A sum is at most the sum of a sequence whose elements are pointwise no smaller. */
  lemma {:induction false} SeqSumMono(a: seq<nat>, b: seq<nat>)
    requires |a| == |b|
    requires forall j :: 0 <= j < |a| ==> a[j] <= b[j]
    ensures Sum(a) <= Sum(b)
    decreases |a|
  {
    if |a| > 0 {
      SeqSumMono(a[..|a| - 1], b[..|b| - 1]);
    }
  }

  lemma {:induction false} GridSumAppend(a: Matrix, b: Matrix, f: nat -> nat)
    ensures GridSum(a + b, f) == GridSum(a, f) + GridSum(b, f)
    decreases |b|
  {
    if |b| > 0 {
      var n := |b| - 1;
      assert (a + b)[..|a + b| - 1] == a + b[..n];
      GridSumAppend(a, b[..n], f);
    } else {
      assert a + b == a;
    }
  }

  /** Replacing one row changes the grid sum by the difference of the row sums. */
  lemma {:induction false} GridSumRow(g: Matrix, r: nat, row: seq<nat>, f: nat -> nat)
    requires r < |g|
    ensures GridSum(g[r := row], f) + SeqSum(g[r], f) == GridSum(g, f) + SeqSum(row, f)
    decreases |g|
  {
    var n := |g| - 1;
    if r == n {
      assert g[r := row][..n] == g[..n];
    } else {
      assert g[r := row][..n] == g[..n][r := row];
      GridSumRow(g[..n], r, row, f);
    }
  }

  /** The matrix with cell (r, c) set to v. */
  function SetCell(g: Matrix, r: nat, c: nat, v: nat): (h: Matrix)
    requires r < |g| && c < |g[r]|
    ensures |h| == |g|
    ensures forall i :: 0 <= i < |g| ==> |h[i]| == |g[i]|
    ensures forall i, j :: 0 <= i < |g| && 0 <= j < |g[i]| ==> h[i][j] == if i == r && j == c then v else g[i][j]
  {
    var row: seq<nat> := g[r][c := v];
    g[r := row]
  }

  /** Writing one cell changes the grid sum by the difference of the weights. */
  lemma GridSumCell(g: Matrix, r: nat, c: nat, v: nat, f: nat -> nat)
    requires r < |g| && c < |g[r]|
    ensures GridSum(SetCell(g, r, c, v), f) + f(g[r][c]) == GridSum(g, f) + f(v)
  {
    var row: seq<nat> := g[r][c := v];
    assert SetCell(g, r, c, v) == g[r := row];
    GridSumRow(g, r, row, f);
    SeqSumPoint(g[r], row, c, f);
  }

  /** A tile total is at most that of a matrix whose cells are pointwise no smaller. */
  lemma {:induction false} TotalMono(a: Matrix, b: Matrix)
    requires |a| == |b|
    requires forall r :: 0 <= r < |a| ==> |a[r]| == |b[r]|
    requires forall r, c :: 0 <= r < |a| && 0 <= c < |a[r]| ==> a[r][c] <= b[r][c]
    ensures Total(a) <= Total(b)
    decreases |a|
  {
    if |a| > 0 {
      var n := |a| - 1;
      TotalMono(a[..n], b[..n]);
      SeqSumMono(a[n], b[n]);
    }
  }

  /** The sum of a cellwise sum of two rows is the sum of their sums. */
  lemma {:induction false} SeqSumAdd(a: seq<nat>, b: seq<nat>, s: seq<nat>)
    requires |a| == |s| && |b| == |s|
    requires forall j :: 0 <= j < |s| ==> a[j] + b[j] == s[j]
    ensures Sum(a) + Sum(b) == Sum(s)
    decreases |s|
  {
    if |s| > 0 {
      var n := |s| - 1;
      SeqSumAdd(a[..n], b[..n], s[..n]);
    }
  }

  /** The tile total of a cellwise sum of two matrices is the sum of their totals. */
  lemma {:induction false} TotalAdd(a: Matrix, b: Matrix, s: Matrix)
    requires |a| == |s| && |b| == |s|
    requires forall r :: 0 <= r < |s| ==> |a[r]| == |s[r]| && |b[r]| == |s[r]|
    requires forall r, c :: 0 <= r < |s| && 0 <= c < |s[r]| ==> a[r][c] + b[r][c] == s[r][c]
    ensures Total(a) + Total(b) == Total(s)
    decreases |s|
  {
    if |s| > 0 {
      var n := |s| - 1;
      TotalAdd(a[..n], b[..n], s[..n]);
      SeqSumAdd(a[n], b[n], s[n]);
    }
  }

  // ---------------------------------------------------------------------------
  // Columns.

  predicate HasColumn(g: Matrix, c: nat)
  {
    forall r :: 0 <= r < |g| ==> c < |g[r]|
  }

  /** Column `c`, bottom to top. */
  function Col(g: Matrix, c: nat): (s: seq<nat>)
    requires HasColumn(g, c)
    ensures |s| == |g|
    ensures forall r :: 0 <= r < |g| ==> s[r] == g[r][c]
  {
    seq(|g|, r requires 0 <= r < |g| => g[r][c])
  }

  /** The matrix with column `c` replaced by `s`. */
  function SetCol(g: Matrix, c: nat, s: seq<nat>): (h: Matrix)
    requires HasColumn(g, c) && |s| == |g|
    ensures |h| == |g|
    ensures forall r :: 0 <= r < |g| ==> |h[r]| == |g[r]|
    ensures forall r, j :: 0 <= r < |g| && 0 <= j < |g[r]| ==> h[r][j] == if j == c then s[r] else g[r][j]
  {
    seq(|g|, r requires 0 <= r < |g| => g[r][c := s[r]])
  }

  /** Replacing one column changes the grid sum by the difference of the column sums. */
  lemma {:induction false} GridSumColumn(g: Matrix, c: nat, s: seq<nat>, f: nat -> nat)
    requires HasColumn(g, c) && |s| == |g|
    ensures GridSum(SetCol(g, c, s), f) + SeqSum(Col(g, c), f) == GridSum(g, f) + SeqSum(s, f)
    decreases |g|
  {
    if |g| > 0 {
      var n := |g| - 1;
      var h := SetCol(g, c, s);
      assert h[..n] == SetCol(g[..n], c, s[..n]);
      assert Col(g, c)[..n] == Col(g[..n], c);
      GridSumColumn(g[..n], c, s[..n], f);
      SeqSumPoint(g[n], h[n], c, f);
    }
  }

  // ---------------------------------------------------------------------------
  // Set sizes.

  lemma SubsetNotLarger<T>(a: set<T>, b: set<T>)
    requires a <= b
    ensures |a| <= |b|
  {
    assert b == a + (b - a);
  }

  lemma SubsetSmaller<T>(a: set<T>, b: set<T>)
    requires a < b
    ensures |a| < |b|
  {
    assert b == a + (b - a);
    assert b - a != {};
  }
}
