/// Model of Tetris_2048/tile.py: the number on a tile, the doubling that
/// happens when a tile absorbs the equal tile right above it
/// (Tile.update_color_and_score), and Tile.merge_tiles, one row-major pass
/// over the tile matrix that performs those merges in place.
module Tile {
  import opened Grid

  predicate IsPowerOfTwo(n: nat)
    decreases n
  {
    n == 1 || (n >= 2 && n % 2 == 0 && IsPowerOfTwo(n / 2))
  }

  /** A number a tile can carry: 2, 4, 8, ... New tiles carry 2 or 4. */
  predicate IsTileNumber(n: nat)
  {
    n >= 2 && IsPowerOfTwo(n)
  }

  /** Every occupied cell carries a tile number. */
  predicate AllTileNumbers(g: Matrix)
  {
    forall r, c :: 0 <= r < |g| && 0 <= c < |g[r]| && g[r][c] != 0 ==> IsTileNumber(g[r][c])
  }

  /** Tile.update_color_and_score: the lower tile absorbs the equal tile above
      it; its number doubles and the new number is what the score gains. */
  function MergedNumber(lower: nat, upper: nat): (merged: nat)
    requires lower == upper
    ensures merged == lower + upper
    ensures IsTileNumber(lower) ==> IsTileNumber(merged)
  {
    2 * lower
  }

  /** Column `s` after its tile at `row` absorbs the tile right above it: the
      lower tile doubles, the upper one leaves, everything above it drops one
      row and the top cell becomes empty. */
  function Collapse(s: seq<nat>, row: nat): (t: seq<nat>)
    requires row + 1 < |s| && s[row] == s[row + 1]
    ensures |t| == |s|
    ensures forall k :: 0 <= k < |s| ==>
      t[k] == if k < row then s[k] else if k == row then 2 * s[row] else if k < |s| - 1 then s[k + 1] else 0
  {
    s[..row] + [MergedNumber(s[row], s[row + 1])] + s[row + 2..] + [0]
  }

  lemma CollapseSum(s: seq<nat>, row: nat, f: nat -> nat)
    requires row + 1 < |s| && s[row] == s[row + 1]
    ensures SeqSum(Collapse(s, row), f) + f(s[row]) + f(s[row + 1]) == SeqSum(s, f) + f(2 * s[row]) + f(0)
  {
    var a, b := s[..row], s[row + 2..];
    var m := MergedNumber(s[row], s[row + 1]);
    var pair := [s[row], s[row + 1]];
    assert s == a + pair + b;
    SeqSumAppend(a + [m] + b, [0], f);
    SeqSumAppend3(a, [m], b, f);
    SeqSumAppend3(a, pair, b, f);
    assert SeqSum(pair, f) == f(s[row]) + f(s[row + 1]) by {
      assert pair[..1] == [s[row]];
    }
  }

  /** The condition under which merge_tiles merges at (row, col): the cell is
      occupied, it is not in the top row, the cell above is occupied, and both
      carry the same number. */
  predicate MergesAt(g: Matrix, row: nat, col: nat)
    requires IsRect(g) && row < |g| && col < Width(g)
  {
    g[row][col] != 0 && row < |g| - 1 && g[row + 1][col] != 0 && g[row][col] == g[row + 1][col]
  }

  /** The outcome of merging: the new matrix, what the score gained, and how
      many merges happened. */
  datatype Pass = Pass(grid: Matrix, gain: nat, merges: nat)

  /** What merge_tiles does at position (row, col). */
  function MergeStep(g: Matrix, row: nat, col: nat): (p: Pass)
    requires IsRect(g) && row < |g| && col < Width(g)
    ensures IsRect(p.grid) && |p.grid| == |g| && Width(p.grid) == Width(g)
  {
    if MergesAt(g, row, col) then
      Pass(SetCol(g, col, Collapse(Col(g, col), row)), MergedNumber(g[row][col], g[row + 1][col]), 1)
    else
      Pass(g, 0, 0)
  }

  /** merge_tiles from position (row, col) on, in row-major order. */
  function MergeFrom(g: Matrix, row: nat, col: nat): (p: Pass)
    requires IsRect(g) && row <= |g| && col <= Width(g)
    decreases |g| - row, Width(g) - col
  {
    if row == |g| then Pass(g, 0, 0)
    else if col == Width(g) then MergeFrom(g, row + 1, 0)
    else
      var step := MergeStep(g, row, col);
      var rest := MergeFrom(step.grid, row, col + 1);
      Pass(rest.grid, step.gain + rest.gain, step.merges + rest.merges)
  }

  /** One call of merge_tiles. */
  function MergePass(g: Matrix): Pass
    requires IsRect(g)
  {
    MergeFrom(g, 0, 0)
  }

  /** At a merge, the lower tile doubles and the score gains the doubled
      number; the cell above is refilled from the column above it, which drops
      one row, and the top cell of the column empties. Other columns and the
      rows below are untouched. Without a merge nothing changes. */
  lemma MergeStepCells(g: Matrix, row: nat, col: nat)
    requires IsRect(g) && row < |g| && col < Width(g)
    ensures var p := MergeStep(g, row, col);
      (p.merges == 1 <==> MergesAt(g, row, col)) &&
      (p.merges == 0 ==> p.grid == g && p.gain == 0) &&
      (p.merges == 1 ==>
        row < |g| - 1 && p.gain == 2 * g[row][col] && p.gain == p.grid[row][col] &&
        forall r, c :: 0 <= r < |g| && 0 <= c < Width(g) ==>
          p.grid[r][c] == if c != col || r < row then g[r][c]
                          else if r == row then 2 * g[row][col]
                          else if r < |g| - 1 then g[r + 1][c]
                          else 0)
  {
  }

  /** A merge keeps the tile total (A + A becomes 2A) and removes one tile;
      the score gains something exactly when a merge happens. */
  lemma MergeStepSums(g: Matrix, row: nat, col: nat)
    requires IsRect(g) && row < |g| && col < Width(g)
    ensures var p := MergeStep(g, row, col);
      Total(p.grid) == Total(g) && TileCount(p.grid) + p.merges == TileCount(g) &&
      (p.gain == 0 <==> p.merges == 0) && (p.merges == 0 ==> p.grid == g)
  {
    if MergesAt(g, row, col) {
      var s := Col(g, col);
      GridSumColumn(g, col, Collapse(s, row), Number);
      CollapseSum(s, row, Number);
      GridSumColumn(g, col, Collapse(s, row), Occupancy);
      CollapseSum(s, row, Occupancy);
    }
  }

  /** Over a pass: the tile total is kept, each merge removes one tile, the
      score gains something exactly when a merge happens, and a pass without
      merges leaves the matrix as it was. */
  lemma {:induction false} MergeFromSums(g: Matrix, row: nat, col: nat)
    requires IsRect(g) && row <= |g| && col <= Width(g)
    ensures var p := MergeFrom(g, row, col);
      IsRect(p.grid) && |p.grid| == |g| && Width(p.grid) == Width(g) &&
      Total(p.grid) == Total(g) && TileCount(p.grid) + p.merges == TileCount(g) &&
      (p.gain == 0 <==> p.merges == 0) && (p.merges == 0 ==> p.grid == g)
    decreases |g| - row, Width(g) - col
  {
    if row == |g| {
    } else if col == Width(g) {
      MergeFromSums(g, row + 1, 0);
    } else {
      var step := MergeStep(g, row, col);
      MergeStepSums(g, row, col);
      MergeFromSums(step.grid, row, col + 1);
    }
  }

  /** A pass without merges finds no equal vertical pair at or after (row, col). */
  lemma {:induction false} MergeFromStable(g: Matrix, row: nat, col: nat)
    requires IsRect(g) && row <= |g| && col <= Width(g)
    requires MergeFrom(g, row, col).merges == 0
    ensures forall r, c :: (r == row < |g| && col <= c < Width(g)) || (row < r < |g| && 0 <= c < Width(g)) ==>
      !MergesAt(g, r, c)
    decreases |g| - row, Width(g) - col
  {
    if row == |g| {
    } else if col == Width(g) {
      MergeFromStable(g, row + 1, 0);
    } else {
      MergeStepSums(g, row, col);
      MergeFromStable(g, row, col + 1);
    }
  }

  /** Merging keeps every tile number a power of two of at least 2. */
  lemma {:induction false} MergeFromTileNumbers(g: Matrix, row: nat, col: nat)
    requires IsRect(g) && row <= |g| && col <= Width(g)
    requires AllTileNumbers(g)
    ensures AllTileNumbers(MergeFrom(g, row, col).grid)
    decreases |g| - row, Width(g) - col
  {
    if row == |g| {
    } else if col == Width(g) {
      MergeFromTileNumbers(g, row + 1, 0);
    } else {
      var step := MergeStep(g, row, col);
      MergeStepCells(g, row, col);
      assert AllTileNumbers(step.grid);
      MergeFromTileNumbers(step.grid, row, col + 1);
    }
  }

  /** Tile.merge_tiles: one row-major pass over the tile matrix, in place.
      Returns the score increased by the doubled numbers of the merges. */
  method MergeTiles(tileMatrix: array2<nat>, score: nat) returns (newScore: nat)
    modifies tileMatrix
    ensures Cells(tileMatrix) == MergePass(old(Cells(tileMatrix))).grid
    ensures newScore == score + MergePass(old(Cells(tileMatrix))).gain
  {
    ghost var g0 := Cells(tileMatrix);
    var height, width := tileMatrix.Length0, tileMatrix.Length1;
    newScore := score;
    for row := 0 to height
      invariant MergeFrom(Cells(tileMatrix), row, 0).grid == MergePass(g0).grid
      invariant newScore + MergeFrom(Cells(tileMatrix), row, 0).gain == score + MergePass(g0).gain
    {
      for col := 0 to width
        invariant MergeFrom(Cells(tileMatrix), row, col).grid == MergePass(g0).grid
        invariant newScore + MergeFrom(Cells(tileMatrix), row, col).gain == score + MergePass(g0).gain
      {
        ghost var before := Cells(tileMatrix);
        ghost var step := MergeStep(before, row, col);
        ghost var rest := MergeFrom(step.grid, row, col + 1);
        assert MergeFrom(before, row, col) == Pass(rest.grid, step.gain + rest.gain, step.merges + rest.merges);
        var gained := MergeAt(tileMatrix, row, col);
        newScore := newScore + gained;
      }
    }
  }

  /** The body of merge_tiles' loop at position (row, col): if the tile there
      and the tile right above it carry the same number, the lower one doubles,
      the upper one leaves and the column above drops one row. Returns what the
      score gains. */
  method MergeAt(tileMatrix: array2<nat>, row: nat, col: nat) returns (gained: nat)
    requires row < tileMatrix.Length0 && col < tileMatrix.Length1
    modifies tileMatrix
    ensures Cells(tileMatrix) == MergeStep(old(Cells(tileMatrix)), row, col).grid
    ensures gained == MergeStep(old(Cells(tileMatrix)), row, col).gain
  {
    gained := 0;
    var currentTile := tileMatrix[row, col];
    if currentTile != 0 && row < tileMatrix.Length0 - 1 && tileMatrix[row + 1, col] != 0 {
      var adjacentTile := tileMatrix[row + 1, col];
      if currentTile == adjacentTile {
        gained := MergePair(tileMatrix, row, col);
      }
    }
  }

  /** A merge in merge_tiles: the lower tile doubles, the upper one is emptied
      and the tiles above it in the column drop one row. Returns what the
      score gains. */
  method MergePair(tileMatrix: array2<nat>, row: nat, col: nat) returns (gained: nat)
    requires row + 1 < tileMatrix.Length0 && col < tileMatrix.Length1
    requires MergesAt(Cells(tileMatrix), row, col)
    modifies tileMatrix
    ensures Cells(tileMatrix) == MergeStep(old(Cells(tileMatrix)), row, col).grid
    ensures gained == MergeStep(old(Cells(tileMatrix)), row, col).gain
  {
    ghost var before := Cells(tileMatrix);
    gained := MergedNumber(tileMatrix[row, col], tileMatrix[row + 1, col]);
    tileMatrix[row, col] := gained;
    tileMatrix[row + 1, col] := 0;
    ghost var emptied := SetCell(SetCell(before, row, col, gained), row + 1, col, 0);
    CellsEq(tileMatrix, emptied);
    DropColumn(tileMatrix, row, col);
    CellsEq(tileMatrix, Dropped(emptied, row, col));
    DroppedIsMergeStep(before, row, col);
  }

  /** The matrix after the tiles of column `col` above row `row + 1` drop
      one row, into the emptied cell (row + 1, col); the column's top cell
      empties. */
  function Dropped(g: Matrix, row: nat, col: nat): (h: Matrix)
    requires IsRect(g) && row + 1 < |g| && col < Width(g)
    ensures |h| == |g| && forall i :: 0 <= i < |g| ==> |h[i]| == |g[i]|
    ensures forall i, j :: 0 <= i < |g| && 0 <= j < |g[i]| ==>
      h[i][j] == if j != col || i <= row then g[i][j] else if i < |g| - 1 then g[i + 1][j] else 0
  {
    var column := Col(g, col);
    SetCol(g, col, column[..row + 1] + column[row + 2..] + [0])
  }

  /** Doubling the lower tile, emptying the upper one and dropping the
      column above it is the merge step. */
  lemma DroppedIsMergeStep(g: Matrix, row: nat, col: nat)
    requires IsRect(g) && row + 1 < |g| && col < Width(g) && MergesAt(g, row, col)
    ensures Dropped(SetCell(SetCell(g, row, col, 2 * g[row][col]), row + 1, col, 0), row, col)
         == MergeStep(g, row, col).grid
  {
    var a := Dropped(SetCell(SetCell(g, row, col, 2 * g[row][col]), row + 1, col, 0), row, col);
    var b := MergeStep(g, row, col).grid;
    MergeStepCells(g, row, col);
    forall i | 0 <= i < |g|
      ensures a[i] == b[i]
    {
      assert |a[i]| == |b[i]|;
    }
  }

  /** The loop at the end of a merge in merge_tiles: once cell (row + 1, col)
      has been emptied, every tile above it in column col moves down one row,
      so the column above `row` drops by one and its top cell empties. */
  method DropColumn(tileMatrix: array2<nat>, row: nat, col: nat)
    requires row + 1 < tileMatrix.Length0 && col < tileMatrix.Length1
    requires tileMatrix[row + 1, col] == 0
    modifies tileMatrix
    ensures forall i, j :: 0 <= i < tileMatrix.Length0 && 0 <= j < tileMatrix.Length1 ==>
      tileMatrix[i, j] == if j != col || i <= row then old(tileMatrix[i, j])
                          else if i < tileMatrix.Length0 - 1 then old(tileMatrix[i + 1, j])
                          else 0
  {
    var height := tileMatrix.Length0;
    for r := row + 1 to height
      invariant forall i, j :: 0 <= i < height && 0 <= j < tileMatrix.Length1 && (j != col || i <= row) ==>
        tileMatrix[i, j] == old(tileMatrix[i, j])
      invariant forall i :: row + 1 <= i < r - 1 ==> tileMatrix[i, col] == old(tileMatrix[i + 1, col])
      invariant r > row + 1 ==> tileMatrix[r - 1, col] == 0
      invariant forall i :: r <= i < height ==> tileMatrix[i, col] == old(tileMatrix[i, col])
    {
      if tileMatrix[r, col] != 0 {
        tileMatrix[r - 1, col] := tileMatrix[r, col];
        tileMatrix[r, col] := 0;
      }
    }
  }
}
