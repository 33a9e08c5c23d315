/// Value-level specification of the settlement that GameGrid.update_grid in
/// Tetris_2048/game_grid.py runs each time a tetromino lands: locking the
/// tile pattern onto the grid, merging to a fixed point, removing the tiles
/// that are not connected to the bottom row, and clearing full rows. The
/// class in game_grid.dfy performs these steps in place and is proved to
/// agree with the functions here.
module Settlement {
  import opened Grid
  import opened Tile

  // ===========================================================================
  // Placement (update_grid, the locking loop)

  predicate Inside(h: nat, w: nat, r: int, c: int)
  {
    0 <= r < h && 0 <= c < w
  }

  /** The board row that pattern row `row` lands on: the pattern is stored
      top-down while board rows grow upwards, and the anchor is its bottom-left
      corner. */
  function TargetRow(p: Matrix, y: int, row: int): int
  {
    y + (|p| - 1) - row
  }

  /** The pattern row whose tiles land on board row `r`. Reflecting rows about
      the anchor is its own inverse, so this is TargetRow read backwards. */
  function PatternRow(p: Matrix, y: int, r: int): (row: int)
    ensures TargetRow(p, y, row) == r
  {
    TargetRow(p, y, r)
  }

  /** Pattern cell (col1, row1) comes before (col2, row2) in the locking loop,
      which runs column by column and, inside a column, row by row. */
  predicate Before(col1: int, row1: int, col2: int, row2: int)
  {
    col1 < col2 || (col1 == col2 && row1 < row2)
  }

  /** Pattern cell (col, row) holds a tile whose target lies outside the grid. */
  predicate Overflows(h: nat, w: nat, p: Matrix, x: int, y: int, col: nat, row: nat)
    requires row < |p| && col < |p[row]|
  {
    p[row][col] != 0 && !Inside(h, w, TargetRow(p, y, row), x + col)
  }

  /** Where the locking loop stops: it runs to completion, or it returns at the
      first pattern cell whose tile would land outside the grid. */
  datatype Stop = Completed | StoppedAt(col: nat, row: nat)

  predicate PatternShape(p: Matrix)
  {
    |p| > 0 && IsRect(p)
  }

  /** The first pattern cell at or after (row, col), in the loop's order, whose
      tile would land outside an h-by-w grid. */
  function FirstOverflow(h: nat, w: nat, p: Matrix, x: int, y: int, col: nat, row: nat): (s: Stop)
    requires PatternShape(p) && col <= Width(p) && row <= |p|
    ensures s.StoppedAt? ==>
      s.row < |p| && s.col < Width(p) && !Before(s.col, s.row, col, row) && Overflows(h, w, p, x, y, s.col, s.row)
    ensures forall c, r ::
      (0 <= c < Width(p) && 0 <= r < |p| && !Before(c, r, col, row) && (s.Completed? || Before(c, r, s.col, s.row)))
      ==> !Overflows(h, w, p, x, y, c, r)
    decreases Width(p) - col, |p| - row
  {
    if col == Width(p) then Completed
    else if row == |p| then FirstOverflow(h, w, p, x, y, col + 1, 0)
    else if Overflows(h, w, p, x, y, col, row) then StoppedAt(col, row)
    else FirstOverflow(h, w, p, x, y, col, row + 1)
  }

  /** The result of the locking loop: the grid, and whether a tile fell
      outside it (in which case update_grid sets game_over and returns). */
  datatype Placed = Placed(grid: Matrix, overflow: bool)

  /** The locking loop of update_grid from pattern cell (row, col) on. */
  function PlaceFrom(g: Matrix, p: Matrix, x: int, y: int, col: nat, row: nat): Placed
    requires IsRect(g) && PatternShape(p) && col <= Width(p) && row <= |p|
    decreases Width(p) - col, |p| - row
  {
    if col == Width(p) then Placed(g, false)
    else if row == |p| then PlaceFrom(g, p, x, y, col + 1, 0)
    else if p[row][col] == 0 then PlaceFrom(g, p, x, y, col, row + 1)
    else if Inside(|g|, Width(g), TargetRow(p, y, row), x + col) then
      PlaceFrom(SetCell(g, TargetRow(p, y, row), x + col, p[row][col]), p, x, y, col, row + 1)
    else
      Placed(g, true)
  }

  /** The whole locking loop. */
  function Place(g: Matrix, p: Matrix, x: int, y: int): (q: Placed)
    requires IsRect(g) && PatternShape(p)
    ensures IsRect(q.grid) && |q.grid| == |g| && Width(q.grid) == Width(g)
  {
    PlaceFromCells(g, p, x, y, 0, 0);
    PlaceFrom(g, p, x, y, 0, 0)
  }

  /** Board cell (r, c) is the target of a tile of the pattern. */
  predicate Covered(p: Matrix, x: int, y: int, r: int, c: int)
    requires PatternShape(p)
  {
    0 <= PatternRow(p, y, r) < |p| && 0 <= c - x < Width(p) && p[PatternRow(p, y, r)][c - x] != 0
  }

  /** Board cell (r, c) is written by the locking loop run from pattern cell
      (row, col) on: it is the target of a tile visited before the loop stops. */
  predicate WrittenFrom(h: nat, w: nat, p: Matrix, x: int, y: int, col: nat, row: nat, r: int, c: int)
    requires PatternShape(p) && col <= Width(p) && row <= |p|
  {
    var stop := FirstOverflow(h, w, p, x, y, col, row);
    Covered(p, x, y, r, c) && !Before(c - x, PatternRow(p, y, r), col, row) &&
    (stop.Completed? || Before(c - x, PatternRow(p, y, r), stop.col, stop.row))
  }

  /** The locking loop overflows exactly when it meets a tile that would land
      outside the grid; it writes each tile it visits before that to its
      target, overwriting the cell, and leaves every other cell as it was. */
  lemma {:induction false} PlaceFromCells(g: Matrix, p: Matrix, x: int, y: int, col: nat, row: nat)
    requires IsRect(g) && PatternShape(p) && col <= Width(p) && row <= |p|
    ensures var q := PlaceFrom(g, p, x, y, col, row);
      (q.overflow <==> FirstOverflow(|g|, Width(g), p, x, y, col, row).StoppedAt?) &&
      IsRect(q.grid) && |q.grid| == |g| && Width(q.grid) == Width(g) &&
      forall r, c :: 0 <= r < |g| && 0 <= c < Width(g) ==>
        q.grid[r][c] == if WrittenFrom(|g|, Width(g), p, x, y, col, row, r, c) then p[PatternRow(p, y, r)][c - x] else g[r][c]
    decreases Width(p) - col, |p| - row
  {
    if col == Width(p) {
    } else if row == |p| {
      PlaceFromCells(g, p, x, y, col + 1, 0);
    } else if p[row][col] == 0 {
      PlaceFromCells(g, p, x, y, col, row + 1);
    } else if Inside(|g|, Width(g), TargetRow(p, y, row), x + col) {
      var g1 := SetCell(g, TargetRow(p, y, row), x + col, p[row][col]);
      assert |g1| == |g| && IsRect(g1) && Width(g1) == Width(g);
      PlaceFromCells(g1, p, x, y, col, row + 1);
    } else {
    }
  }

  /** The locking loop as a whole. It overflows exactly when some tile of the
      pattern would land outside the grid. Without overflow, every tile of the
      pattern is written to board cell (y + n_rows - 1 - row, x + col) and no
      other cell changes. With overflow, the tiles visited before the first
      offending one stay written and nothing else changes. */
  lemma PlaceCells(g: Matrix, p: Matrix, x: int, y: int)
    requires IsRect(g) && PatternShape(p)
    ensures var q := Place(g, p, x, y);
      IsRect(q.grid) && |q.grid| == |g| && Width(q.grid) == Width(g) &&
      (q.overflow <==> exists col, row :: 0 <= col < Width(p) && 0 <= row < |p| && Overflows(|g|, Width(g), p, x, y, col, row)) &&
      (!q.overflow ==> forall r, c :: 0 <= r < |g| && 0 <= c < Width(g) ==>
        q.grid[r][c] == if Covered(p, x, y, r, c) then p[PatternRow(p, y, r)][c - x] else g[r][c]) &&
      (q.overflow ==> var stop := FirstOverflow(|g|, Width(g), p, x, y, 0, 0);
        forall r, c :: 0 <= r < |g| && 0 <= c < Width(g) ==>
          q.grid[r][c] == if Covered(p, x, y, r, c) && Before(c - x, PatternRow(p, y, r), stop.col, stop.row)
                          then p[PatternRow(p, y, r)][c - x] else g[r][c])
  {
    PlaceFromCells(g, p, x, y, 0, 0);
    var stop := FirstOverflow(|g|, Width(g), p, x, y, 0, 0);
    if stop.StoppedAt? {
      assert Overflows(|g|, Width(g), p, x, y, stop.col, stop.row);
    }
  }

  /** Locking writes tiles of the pattern and nothing else, so when the grid
      and the pattern carry only tile numbers, so does the result. */
  lemma PlaceTileNumbers(g: Matrix, p: Matrix, x: int, y: int)
    requires IsRect(g) && PatternShape(p) && AllTileNumbers(g) && AllTileNumbers(p)
    ensures AllTileNumbers(Place(g, p, x, y).grid)
  {
    PlaceCells(g, p, x, y);
    var q := Place(g, p, x, y).grid;
    forall r, c | 0 <= r < |q| && 0 <= c < |q[r]| && q[r][c] != 0
      ensures IsTileNumber(q[r][c])
    {
      if Covered(p, x, y, r, c) {
        assert q[r][c] == p[PatternRow(p, y, r)][c - x] || q[r][c] == g[r][c];
      }
    }
  }

  // ===========================================================================
  // Merging to a fixed point (update_grid, the loop around merge_tiles)

  /** No occupied cell has a tile with the same number right above it, so
      merge_tiles would merge nowhere. */
  predicate NoEqualStack(g: Matrix)
    requires IsRect(g)
  {
    forall r, c :: 0 <= r < |g| && 0 <= c < Width(g) ==> !MergesAt(g, r, c)
  }

  /** On a board without an equal vertical pair, a pass from any position
      merges nothing: the matrix is unchanged and the score gains nothing. */
  lemma {:induction false} MergeFromNoPair(g: Matrix, row: nat, col: nat)
    requires IsRect(g) && row <= |g| && col <= Width(g) && NoEqualStack(g)
    ensures MergeFrom(g, row, col) == Pass(g, 0, 0)
    decreases |g| - row, Width(g) - col
  {
    if row == |g| {
    } else if col == Width(g) {
      MergeFromNoPair(g, row + 1, 0);
    } else {
      assert !MergesAt(g, row, col);
      MergeFromNoPair(g, row, col + 1);
    }
  }

  /** The loop `while previous_score != score: score = merge_tiles(...)`: it
      runs passes until a pass leaves the score unchanged. */
  function SettleMerges(g: Matrix): (p: Pass)
    requires IsRect(g)
    ensures IsRect(p.grid) && |p.grid| == |g| && Width(p.grid) == Width(g)
    decreases TileCount(g)
  {
    MergeFromSums(g, 0, 0);
    var first := MergePass(g);
    if first.gain == 0 then Pass(first.grid, 0, first.merges)
    else
      var rest := SettleMerges(first.grid);
      Pass(rest.grid, first.gain + rest.gain, first.merges + rest.merges)
  }

  /** When the loop exits no occupied cell has an equal tile right above it.
      Merging keeps the tile total and removes one tile per merge, and keeps
      every tile number a power of two. */
  lemma {:induction false} SettleMergesFixedPoint(g: Matrix)
    requires IsRect(g)
    ensures var p := SettleMerges(g);
      IsRect(p.grid) && |p.grid| == |g| && Width(p.grid) == Width(g) &&
      NoEqualStack(p.grid) && Total(p.grid) == Total(g) && TileCount(p.grid) + p.merges == TileCount(g) &&
      (AllTileNumbers(g) ==> AllTileNumbers(p.grid))
    decreases TileCount(g)
  {
    MergeFromSums(g, 0, 0);
    var first := MergePass(g);
    if AllTileNumbers(g) {
      MergeFromTileNumbers(g, 0, 0);
    }
    if first.gain == 0 {
      MergeFromStable(g, 0, 0);
    } else {
      SettleMergesFixedPoint(first.grid);
    }
  }

  /** A board that is already settled goes through the merge loop unchanged:
      the first pass leaves the score as it was, so the loop stops there. */
  lemma SettleMergesSettled(g: Matrix)
    requires IsRect(g) && NoEqualStack(g)
    ensures SettleMerges(g) == Pass(g, 0, 0)
  {
    MergeFromNoPair(g, 0, 0);
  }

  // ===========================================================================
  // Removing flying tiles (remove_flying_tiles and dfs)

  predicate Occupied(g: Matrix, r: int, c: int)
  {
    0 <= r < |g| && 0 <= c < |g[r]| && g[r][c] != 0
  }

  /** Two cells share a side. */
  predicate Adjacent(a: (int, int), b: (int, int))
  {
    (a.0 == b.0 && (a.1 == b.1 + 1 || b.1 == a.1 + 1)) || (a.1 == b.1 && (a.0 == b.0 + 1 || b.0 == a.0 + 1))
  }

  /** `path` starts at an occupied cell of row 0 and steps through occupied
      cells that share a side. */
  ghost predicate IsGroundPath(g: Matrix, path: seq<(int, int)>)
  {
    |path| > 0 && path[0].0 == 0 &&
    (forall i :: 0 <= i < |path| ==> Occupied(g, path[i].0, path[i].1)) &&
    (forall i :: 0 <= i < |path| - 1 ==> Adjacent(path[i], path[i + 1]))
  }

  /** The tile at (r, c) is connected to the bottom row through occupied
      cells that share a side. */
  ghost predicate Grounded(g: Matrix, r: int, c: int)
  {
    exists path :: IsGroundPath(g, path) && path[|path| - 1] == (r, c)
  }

  lemma GroundedOccupied(g: Matrix, r: int, c: int)
    requires Grounded(g, r, c)
    ensures Occupied(g, r, c)
  {
    var path :| IsGroundPath(g, path) && path[|path| - 1] == (r, c);
  }

  lemma GroundedBottom(g: Matrix, c: int)
    requires Occupied(g, 0, c)
    ensures Grounded(g, 0, c)
  {
    assert IsGroundPath(g, [(0, c)]);
  }

  lemma GroundedStep(g: Matrix, a: (int, int), b: (int, int))
    requires Grounded(g, a.0, a.1) && Occupied(g, b.0, b.1) && Adjacent(a, b)
    ensures Grounded(g, b.0, b.1)
  {
    var path :| IsGroundPath(g, path) && path[|path| - 1] == a;
    assert IsGroundPath(g, path + [b]);
    assert (path + [b])[|path + [b]| - 1] == b;
  }

  /** The occupied neighbours of a grounded tile are grounded. */
  lemma GroundNeighbours(g: Matrix, r: int, c: int)
    requires Grounded(g, r, c)
    ensures Occupied(g, r - 1, c) ==> Grounded(g, r - 1, c)
    ensures Occupied(g, r + 1, c) ==> Grounded(g, r + 1, c)
    ensures Occupied(g, r, c - 1) ==> Grounded(g, r, c - 1)
    ensures Occupied(g, r, c + 1) ==> Grounded(g, r, c + 1)
  {
    if Occupied(g, r - 1, c) { GroundedStep(g, (r, c), (r - 1, c)); }
    if Occupied(g, r + 1, c) { GroundedStep(g, (r, c), (r + 1, c)); }
    if Occupied(g, r, c - 1) { GroundedStep(g, (r, c), (r, c - 1)); }
    if Occupied(g, r, c + 1) { GroundedStep(g, (r, c), (r, c + 1)); }
  }

  /** The matrix after remove_flying_tiles: every tile not connected to the
      bottom row is removed. */
  ghost function Prune(g: Matrix): (h: Matrix)
    ensures |h| == |g| && forall r :: 0 <= r < |g| ==> |h[r]| == |g[r]|
    ensures forall r, c :: 0 <= r < |g| && 0 <= c < |g[r]| ==> h[r][c] == if Grounded(g, r, c) then g[r][c] else 0
  {
    seq(|g|, r requires 0 <= r < |g| =>
      seq(|g[r]|, c requires 0 <= c < |g[r]| => if Grounded(g, r, c) then g[r][c] else 0))
  }

  /** A ground path of g whose cells are all kept is a ground path after pruning. */
  lemma {:induction false} GroundPathKept(g: Matrix, path: seq<(int, int)>)
    requires IsGroundPath(g, path)
    ensures IsGroundPath(Prune(g), path)
    decreases |path|
  {
    var n := |path| - 1;
    if n > 0 {
      GroundPathKept(g, path[..n]);
      assert IsGroundPath(g, path[..n]);
    }
    assert IsGroundPath(g, path[..n + 1]);
    assert Grounded(g, path[n].0, path[n].1);
    assert path == path[..n + 1];
  }

  /** After pruning every remaining tile is connected to the bottom row. Tiles
      that were connected, in particular all tiles of row 0, stay; the others
      are gone. The tile total does not grow, and pruning twice removes
      nothing more. */
  lemma PruneGrounded(g: Matrix)
    ensures forall r, c :: Occupied(Prune(g), r, c) ==> Grounded(Prune(g), r, c)
    ensures forall c :: |g| > 0 && 0 <= c < |g[0]| ==> Prune(g)[0][c] == g[0][c]
    ensures Total(Prune(g)) <= Total(g)
    ensures Prune(Prune(g)) == Prune(g)
  {
    var h := Prune(g);
    forall r, c | Occupied(h, r, c)
      ensures Grounded(h, r, c)
    {
      var path :| IsGroundPath(g, path) && path[|path| - 1] == (r, c);
      GroundPathKept(g, path);
    }
    forall c | |g| > 0 && 0 <= c < |g[0]|
      ensures h[0][c] == g[0][c]
    {
      if g[0][c] != 0 {
        GroundedBottom(g, c);
      }
    }
    TotalMono(h, g);
    var hh := Prune(h);
    forall r | 0 <= r < |h|
      ensures hh[r] == h[r]
    {
      forall c | 0 <= c < |h[r]|
        ensures hh[r][c] == h[r][c]
      {
        if h[r][c] != 0 {
          assert Occupied(h, r, c);
        }
      }
    }
  }

  /** The tiles that remove_flying_tiles takes off: exactly those not
      connected to the bottom row. */
  ghost function Removed(g: Matrix): (h: Matrix)
    ensures |h| == |g| && forall r :: 0 <= r < |g| ==> |h[r]| == |g[r]|
    ensures forall r, c :: 0 <= r < |g| && 0 <= c < |g[r]| ==> h[r][c] == if Grounded(g, r, c) then 0 else g[r][c]
  {
    seq(|g|, r requires 0 <= r < |g| =>
      seq(|g[r]|, c requires 0 <= c < |g[r]| => if Grounded(g, r, c) then 0 else g[r][c]))
  }

  /** The score that remove_flying_tiles adds: the numbers on the removed
      tiles. Together with what stays, they make up the whole tile total. */
  ghost function PruneGain(g: Matrix): (gain: nat)
    ensures gain + Total(Prune(g)) == Total(g)
  {
    TotalAdd(Removed(g), Prune(g), g);
    Total(Removed(g))
  }

  // ===========================================================================
  // Clearing full rows (remove_full_rows_and_shift)

  function EmptyRow(w: nat): (s: seq<nat>)
    ensures |s| == w && Sum(s) == 0
    ensures forall i :: 0 <= i < w ==> s[i] == 0
  {
    if w == 0 then [] else EmptyRow(w - 1) + [0]
  }

  /** A row without an empty cell. */
  predicate IsFull(s: seq<nat>)
  {
    forall c :: 0 <= c < |s| ==> s[c] != 0
  }

  /** Row `row` removed: the rows above it move down one and an empty row
      goes on top. */
  function ShiftDown(g: Matrix, row: nat): (h: Matrix)
    requires IsRect(g) && row < |g|
    ensures IsRect(h) && |h| == |g| && Width(h) == Width(g)
  {
    g[..row] + g[row + 1..] + [EmptyRow(Width(g))]
  }

  /** Shifting keeps the rows below, moves each row above down by one, empties
      the top row, and takes exactly the removed row's sum off the total. */
  lemma ShiftDownRows(g: Matrix, row: nat)
    requires IsRect(g) && row < |g|
    ensures var h := ShiftDown(g, row);
      (forall k :: 0 <= k < row ==> h[k] == g[k]) &&
      (forall k :: row <= k < |g| - 1 ==> h[k] == g[k + 1]) &&
      h[|g| - 1] == EmptyRow(Width(g)) &&
      Total(h) + Sum(g[row]) == Total(g)
  {
    var a, b := g[..row], g[row + 1..];
    assert g == a + [g[row]] + b;
    GridSumAppend(a, [g[row]], Number);
    GridSumAppend(a + [g[row]], b, Number);
    GridSumAppend(a, b, Number);
    GridSumAppend(a + b, [EmptyRow(Width(g))], Number);
    var one: Matrix := [g[row]];
    var top: Matrix := [EmptyRow(Width(g))];
    assert one[..0] == [] && top[..0] == [];
    assert GridSum(one, Number) == Sum(g[row]);
    assert GridSum(top, Number) == 0;
  }

  /** The outcome of a phase that takes tiles off the grid: the new matrix and
      what the score gained. */
  datatype Outcome = Outcome(grid: Matrix, gain: nat)

  /** remove_full_rows_and_shift from index `row` on. A row that is full when
      the loop reaches its index is cleared; the index then moves on, so the
      row that slid into it is not looked at again. */
  function ClearFrom(g: Matrix, row: nat): (o: Outcome)
    requires IsRect(g) && row <= |g|
    ensures IsRect(o.grid) && |o.grid| == |g| && Width(o.grid) == Width(g)
    decreases |g| - row
  {
    if row == |g| then Outcome(g, 0)
    else if IsFull(g[row]) then
      var rest := ClearFrom(ShiftDown(g, row), row + 1);
      Outcome(rest.grid, Sum(g[row]) + rest.gain)
    else
      ClearFrom(g, row + 1)
  }

  /** The score gained by clearing rows is exactly the tile total that left
      the grid. */
  lemma {:induction false} ClearFromGain(g: Matrix, row: nat)
    requires IsRect(g) && row <= |g|
    ensures ClearFrom(g, row).gain + Total(ClearFrom(g, row).grid) == Total(g)
    decreases |g| - row
  {
    if row == |g| {
    } else if IsFull(g[row]) {
      ShiftDownRows(g, row);
      ClearFromGain(ShiftDown(g, row), row + 1);
    } else {
      ClearFromGain(g, row + 1);
    }
  }

  /** Clearing rows only moves tiles and empties cells, so it keeps every
      tile number a power of two of at least 2. */
  lemma {:induction false} ClearFromTileNumbers(g: Matrix, row: nat)
    requires IsRect(g) && row <= |g| && AllTileNumbers(g)
    ensures AllTileNumbers(ClearFrom(g, row).grid)
    decreases |g| - row
  {
    if row == |g| {
    } else if IsFull(g[row]) {
      var h := ShiftDown(g, row);
      ShiftDownRows(g, row);
      forall r, c | 0 <= r < |h| && 0 <= c < |h[r]|
        ensures h[r][c] != 0 ==> IsTileNumber(h[r][c])
      {
        if r < row {
          assert h[r] == g[r];
        } else if r < |g| - 1 {
          assert h[r] == g[r + 1];
        } else {
          assert h[r] == EmptyRow(Width(g));
        }
      }
      ClearFromTileNumbers(h, row + 1);
    } else {
      ClearFromTileNumbers(g, row + 1);
    }
  }

  /** No two vertically adjacent rows at or above `row` are both full. */
  predicate NoStackedFullRows(g: Matrix, row: nat)
  {
    forall k :: row <= k < |g| - 1 ==> !(IsFull(g[k]) && IsFull(g[k + 1]))
  }

  /** When no two full rows lie on top of each other, one pass clears every
      full row. */
  lemma {:induction false} ClearFromClearsAll(g: Matrix, row: nat)
    requires IsRect(g) && row <= |g| && Width(g) > 0
    requires forall k :: 0 <= k < row ==> !IsFull(g[k])
    requires NoStackedFullRows(g, row)
    ensures forall k :: 0 <= k < |g| ==> !IsFull(ClearFrom(g, row).grid[k])
    decreases |g| - row
  {
    if row == |g| {
    } else if IsFull(g[row]) {
      var h := ShiftDown(g, row);
      ShiftDownRows(g, row);
      assert !IsFull(EmptyRow(Width(g))) by {
        assert EmptyRow(Width(g))[0] == 0;
      }
      ClearFromClearsAll(h, row + 1);
    } else {
      ClearFromClearsAll(g, row + 1);
    }
  }

  /** Two full rows on top of each other: after one pass the upper one, which
      slid into the index just cleared, is still there and still full. */
  lemma ClearFromSkipsStackedRow()
    ensures ClearFrom([[2], [4]], 0).grid == [[4], [0]]
    ensures IsFull(ClearFrom([[2], [4]], 0).grid[0])
  {
    var g: Matrix := [[2], [4]];
    assert IsFull(g[0]);
    assert ShiftDown(g, 0) == [[4], [0]];
    var h: Matrix := [[4], [0]];
    assert !IsFull(h[1]);
  }

  // ===========================================================================
  // The whole settlement (update_grid)

  /** The state of a game grid: its tile matrix, score and game-over flag. */
  datatype Board = Board(cells: Matrix, score: nat, gameOver: bool)

  /** The score at which update_grid ends the game. */
  const WinningScore: nat := 2048

  /** update_grid: lock the pattern, whose bottom-left corner lands on board
      cell (y, x). If a tile falls outside the grid the game is over and
      nothing else happens. Otherwise merge to a fixed point, remove the tiles
      not connected to the bottom row, clear full rows, and end the game once
      the score reaches 2048. */
  ghost function UpdateGridSpec(b: Board, p: Matrix, x: int, y: int): Board
    requires IsRect(b.cells) && PatternShape(p)
  {
    PlaceCells(b.cells, p, x, y);
    var placed := Place(b.cells, p, x, y);
    if placed.overflow then Board(placed.grid, b.score, true)
    else
      var merged := SettleMerges(placed.grid);
      SettleMergesFixedPoint(placed.grid);
      var pruned := Prune(merged.grid);
      var cleared := ClearFrom(pruned, 0);
      var score := b.score + merged.gain + PruneGain(merged.grid) + cleared.gain;
      Board(cleared.grid, score, b.gameOver || score >= WinningScore)
  }

  /** Across update_grid the grid keeps its dimensions, the score never
      decreases and game_over is never reset. An overflow ends the game with
      the score unchanged; a completed settlement whose score reaches 2048
      ends it too. Without overflow, the score gains the merged numbers plus
      exactly the tile total that left the grid; and every tile still carries
      a power of two of at least 2. */
  lemma UpdateGridOutcome(b: Board, p: Matrix, x: int, y: int)
    requires IsRect(b.cells) && PatternShape(p)
    ensures var r := UpdateGridSpec(b, p, x, y);
      IsRect(r.cells) && |r.cells| == |b.cells| && Width(r.cells) == Width(b.cells) &&
      r.score >= b.score && (b.gameOver ==> r.gameOver) &&
      (Place(b.cells, p, x, y).overflow ==> r.score == b.score && r.gameOver) &&
      (r.score >= WinningScore ==> r.gameOver) &&
      (!Place(b.cells, p, x, y).overflow ==>
        r.score + Total(r.cells) == b.score + SettleMerges(Place(b.cells, p, x, y).grid).gain + Total(Place(b.cells, p, x, y).grid)) &&
      (AllTileNumbers(b.cells) && AllTileNumbers(p) ==> AllTileNumbers(r.cells))
  {
    PlaceCells(b.cells, p, x, y);
    var placed := Place(b.cells, p, x, y);
    if AllTileNumbers(b.cells) && AllTileNumbers(p) {
      PlaceTileNumbers(b.cells, p, x, y);
    }
    if !placed.overflow {
      SettleMergesFixedPoint(placed.grid);
      var merged := SettleMerges(placed.grid);
      var pruned := Prune(merged.grid);
      ClearFromGain(pruned, 0);
      if AllTileNumbers(merged.grid) {
        assert AllTileNumbers(pruned);
        ClearFromTileNumbers(pruned, 0);
      }
    }
  }
}
