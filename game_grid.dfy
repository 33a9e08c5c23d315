/// Model of the GameGrid class of Tetris_2048/game_grid.py: the tile matrix,
/// the score and the game-over flag, and the settlement that update_grid runs
/// when a tetromino lands. Each method works in place on the tile matrix and
/// is proved to agree with the value-level functions of module Settlement.
module GameGrid {
  import opened Grid
  import opened Tile
  import opened Settlement

  class GameGrid {
    const gridHeight: nat
    const gridWidth: nat
    /** The landed tiles; 0 marks an empty cell. */
    const tileMatrix: array2<nat>
    var score: nat
    var gameOver: bool

    ghost predicate Valid()
    {
      tileMatrix.Length0 == gridHeight && tileMatrix.Length1 == gridWidth && gridHeight > 0 && gridWidth > 0
    }

    ghost function State(): Board
      reads this, tileMatrix
    {
      Board(Cells(tileMatrix), score, gameOver)
    }

    /** A new grid: every cell empty, score 0, the game not over. */
    constructor (gridH: nat, gridW: nat)
      requires gridH > 0 && gridW > 0
      ensures Valid() && fresh(tileMatrix)
      ensures gridHeight == gridH && gridWidth == gridW
      ensures forall r, c :: 0 <= r < gridH && 0 <= c < gridW ==> tileMatrix[r, c] == 0
      ensures score == 0 && !gameOver
    {
      gridHeight, gridWidth := gridH, gridW;
      tileMatrix := new nat[gridH, gridW]((_, _) => 0);
      score := 0;
      gameOver := false;
    }

    /** is_inside */
    function IsInside(row: int, col: int): (inside: bool)
      ensures inside <==> 0 <= row < gridHeight && 0 <= col < gridWidth
    {
      if row < 0 || row >= gridHeight then false
      else if col < 0 || col >= gridWidth then false
      else true
    }

    /** is_occupied: false outside the grid, otherwise whether the cell holds a tile. */
    function IsOccupied(row: int, col: int): (occupied: bool)
      reads tileMatrix
      requires Valid()
      ensures !IsInside(row, col) ==> !occupied
      ensures IsInside(row, col) ==> (occupied <==> tileMatrix[row, col] != 0)
      ensures occupied <==> Occupied(Cells(tileMatrix), row, col)
    {
      if !IsInside(row, col) then false else tileMatrix[row, col] != 0
    }

    // The state of dfs: which cells are marked in `visited`, against the
    // tile matrix `g` it searches.

    /** `g` has the dimensions of the grid. */
    predicate Fits(g: Matrix)
    {
      |g| == gridHeight && forall r :: 0 <= r < |g| ==> |g[r]| == gridWidth
    }

    /** `g` holds the contents of the tile matrix. */
    ghost predicate Mirrors(g: Matrix)
      reads tileMatrix
      requires Valid()
    {
      Fits(g) && forall r, c :: 0 <= r < gridHeight && 0 <= c < gridWidth ==> g[r][c] == tileMatrix[r, c]
    }

    predicate FitsMarks(visited: array2<bool>)
    {
      visited.Length0 == gridHeight && visited.Length1 == gridWidth
    }

    /** Every marked cell holds a tile connected to the bottom row. */
    ghost predicate MarksSound(visited: array2<bool>, g: Matrix)
      reads visited
      requires FitsMarks(visited)
    {
      forall r, c :: 0 <= r < gridHeight && 0 <= c < gridWidth && visited[r, c] ==> Grounded(g, r, c)
    }

    /** The occupied cells below and above (r, c) are marked. */
    predicate ColumnNeighboursMarked(visited: array2<bool>, g: Matrix, r: int, c: int)
      reads visited
      requires FitsMarks(visited) && Fits(g)
    {
      (Occupied(g, r - 1, c) ==> visited[r - 1, c]) && (Occupied(g, r + 1, c) ==> visited[r + 1, c])
    }

    /** The occupied cells left and right of (r, c) are marked. */
    predicate RowNeighboursMarked(visited: array2<bool>, g: Matrix, r: int, c: int)
      reads visited
      requires FitsMarks(visited) && Fits(g)
    {
      (Occupied(g, r, c - 1) ==> visited[r, c - 1]) && (Occupied(g, r, c + 1) ==> visited[r, c + 1])
    }

    predicate NeighboursMarked(visited: array2<bool>, g: Matrix, r: int, c: int)
      reads visited
      requires FitsMarks(visited) && Fits(g)
    {
      ColumnNeighboursMarked(visited, g, r, c) && RowNeighboursMarked(visited, g, r, c)
    }

    /** Every marked cell that is not on the dfs call stack has all its
        occupied neighbours marked. */
    predicate MarksClosed(visited: array2<bool>, g: Matrix, stack: set<(int, int)>)
      reads visited
      requires FitsMarks(visited) && Fits(g)
    {
      forall r, c {:trigger NeighboursMarked(visited, g, r, c)} ::
        0 <= r < gridHeight && 0 <= c < gridWidth && visited[r, c] && (r, c) !in stack ==> NeighboursMarked(visited, g, r, c)
    }

    /** Every occupied cell of the bottom row is marked. */
    predicate BottomMarked(visited: array2<bool>, g: Matrix)
      reads visited
      requires FitsMarks(visited) && Fits(g)
    {
      forall c :: 0 <= c < gridWidth && Occupied(g, 0, c) ==> visited[0, c]
    }

    /** The occupied cells not marked yet: what is left for dfs to do. */
    ghost function Unmarked(visited: array2<bool>, g: Matrix): set<(int, int)>
      reads visited
      requires FitsMarks(visited) && Fits(g)
    {
      set r: int, c: int | 0 <= r < gridHeight && 0 <= c < gridWidth && g[r][c] != 0 && !visited[r, c] :: (r, c)
    }

    lemma {:induction false} GroundPathMarked(visited: array2<bool>, g: Matrix, path: seq<(int, int)>)
      requires FitsMarks(visited) && Fits(g) && MarksClosed(visited, g, {}) && BottomMarked(visited, g)
      requires IsGroundPath(g, path)
      ensures visited[path[|path| - 1].0, path[|path| - 1].1]
      decreases |path|
    {
      var n := |path| - 1;
      if n > 0 {
        assert IsGroundPath(g, path[..n]);
        GroundPathMarked(visited, g, path[..n]);
        var a, b := path[n - 1], path[n];
        assert Occupied(g, a.0, a.1) && Occupied(g, b.0, b.1) && Adjacent(a, b);
        assert NeighboursMarked(visited, g, a.0, a.1);
      }
    }

    /** Once dfs has been run from every occupied cell of the bottom row and
        has returned, a cell is marked exactly when its tile is connected to
        the bottom row. */
    lemma MarkedIffGrounded(visited: array2<bool>, g: Matrix)
      requires FitsMarks(visited) && Fits(g)
      requires MarksSound(visited, g) && MarksClosed(visited, g, {}) && BottomMarked(visited, g)
      ensures forall r, c :: 0 <= r < gridHeight && 0 <= c < gridWidth ==> (visited[r, c] <==> Grounded(g, r, c))
    {
      forall r, c | 0 <= r < gridHeight && 0 <= c < gridWidth && Grounded(g, r, c)
        ensures visited[r, c]
      {
        var path :| IsGroundPath(g, path) && path[|path| - 1] == (r, c);
        GroundPathMarked(visited, g, path);
      }
    }

    /** dfs: marks the cell (row, col) if it holds an unmarked tile, then
        visits its four neighbours. Only tiles connected to the bottom row of
        `g`, the tile matrix, get marked; `stack` holds the cells whose calls
        are still running, the only marked cells whose neighbours may be
        unmarked. */
    method Dfs(row: int, col: int, visited: array2<bool>, ghost g: Matrix, ghost stack: set<(int, int)>)
      requires Valid() && Mirrors(g) && FitsMarks(visited)
      requires MarksSound(visited, g) && MarksClosed(visited, g, stack)
      requires Occupied(g, row, col) ==> Grounded(g, row, col)
      modifies visited
      ensures MarksSound(visited, g) && MarksClosed(visited, g, stack)
      ensures forall r, c :: 0 <= r < gridHeight && 0 <= c < gridWidth && old(visited[r, c]) ==> visited[r, c]
      ensures Occupied(g, row, col) ==> visited[row, col]
      decreases 2 * |Unmarked(visited, g)| + 1
    {
      if row < 0 || row >= gridHeight || col < 0 || col >= gridWidth {
        return;
      }
      if visited[row, col] || tileMatrix[row, col] == 0 {
        return;
      }
      ghost var before := Unmarked(visited, g);
      visited[row, col] := true;
      ghost var inner := stack + {(row, col)};
      forall r, c | 0 <= r < gridHeight && 0 <= c < gridWidth && visited[r, c] && (r, c) !in inner
        ensures NeighboursMarked(visited, g, r, c)
      {
        assert old(NeighboursMarked(visited, g, r, c));
      }
      ghost var marked := Unmarked(visited, g);
      assert marked == before - {(row, col)};
      SubsetSmaller(marked, before);
      GroundNeighbours(g, row, col);
      VisitColumnNeighbours(row, col, visited, g, inner);
      label ColumnDone:
      SubsetNotLarger(Unmarked(visited, g), marked);
      VisitRowNeighbours(row, col, visited, g, inner);
      assert ColumnNeighboursMarked(visited, g, row, col) by {
        assert old@ColumnDone(ColumnNeighboursMarked(visited, g, row, col));
      }
      assert NeighboursMarked(visited, g, row, col);
      forall r, c | 0 <= r < gridHeight && 0 <= c < gridWidth && visited[r, c] && (r, c) !in stack
        ensures NeighboursMarked(visited, g, r, c)
      {
        if (r, c) != (row, col) {
          assert (r, c) !in inner;
        }
      }
    }

    /** The first two recursive calls of dfs: the cells below and above a
        tile it has just marked. */
    method VisitColumnNeighbours(row: nat, col: nat, visited: array2<bool>, ghost g: Matrix, ghost stack: set<(int, int)>)
      requires Valid() && Mirrors(g) && FitsMarks(visited)
      requires row < gridHeight && col < gridWidth
      requires Occupied(g, row - 1, col) ==> Grounded(g, row - 1, col)
      requires Occupied(g, row + 1, col) ==> Grounded(g, row + 1, col)
      requires MarksSound(visited, g) && MarksClosed(visited, g, stack)
      modifies visited
      ensures MarksSound(visited, g) && MarksClosed(visited, g, stack)
      ensures forall r, c :: 0 <= r < gridHeight && 0 <= c < gridWidth && old(visited[r, c]) ==> visited[r, c]
      ensures ColumnNeighboursMarked(visited, g, row, col)
      decreases 2 * |Unmarked(visited, g)| + 2
    {
      ghost var before := Unmarked(visited, g);
      Dfs(row - 1, col, visited, g, stack);
      SubsetNotLarger(Unmarked(visited, g), before);
      Dfs(row + 1, col, visited, g, stack);
    }

    /** The last two recursive calls of dfs: the cells left and right of a
        tile it has just marked. */
    method VisitRowNeighbours(row: nat, col: nat, visited: array2<bool>, ghost g: Matrix, ghost stack: set<(int, int)>)
      requires Valid() && Mirrors(g) && FitsMarks(visited)
      requires row < gridHeight && col < gridWidth
      requires Occupied(g, row, col - 1) ==> Grounded(g, row, col - 1)
      requires Occupied(g, row, col + 1) ==> Grounded(g, row, col + 1)
      requires MarksSound(visited, g) && MarksClosed(visited, g, stack)
      modifies visited
      ensures MarksSound(visited, g) && MarksClosed(visited, g, stack)
      ensures forall r, c :: 0 <= r < gridHeight && 0 <= c < gridWidth && old(visited[r, c]) ==> visited[r, c]
      ensures RowNeighboursMarked(visited, g, row, col)
      decreases 2 * |Unmarked(visited, g)| + 2
    {
      ghost var before := Unmarked(visited, g);
      Dfs(row, col - 1, visited, g, stack);
      SubsetNotLarger(Unmarked(visited, g), before);
      Dfs(row, col + 1, visited, g, stack);
    }

    /** remove_flying_tiles: dfs from every tile of the bottom row marks the
        tiles connected to it; every other tile is then removed and its number
        added to the score. */
    method RemoveFlyingTiles()
      requires Valid()
      modifies this`score, tileMatrix
      ensures Cells(tileMatrix) == Prune(old(Cells(tileMatrix)))
      ensures score == old(score) + PruneGain(old(Cells(tileMatrix)))
    {
      ghost var g := Cells(tileMatrix);
      var visited := new bool[gridHeight, gridWidth]((_, _) => false);
      MarkGrounded(visited, g);
      ghost var kept := Prune(g);
      PruneGrounded(g);
      forall r, c | 0 <= r < gridHeight && 0 <= c < gridWidth
        ensures kept[r][c] == if 1 <= r && !visited[r, c] then 0 else g[r][c]
      {
        if r == 0 {
          assert kept[0][c] == g[0][c];
        } else {
          assert kept[r][c] == if Grounded(g, r, c) then g[r][c] else 0;
        }
      }
      RemoveUnmarked(visited, g, kept);
      CellsEq(tileMatrix, Prune(g));
    }

    /** The first loop of remove_flying_tiles: dfs from each tile of the
        bottom row, on a `visited` matrix with nothing marked. Afterwards a
        cell is marked exactly when its tile is connected to the bottom row. */
    method MarkGrounded(visited: array2<bool>, ghost g: Matrix)
      requires Valid() && Mirrors(g) && FitsMarks(visited)
      requires forall r, c :: 0 <= r < gridHeight && 0 <= c < gridWidth ==> !visited[r, c]
      modifies visited
      ensures forall r, c :: 0 <= r < gridHeight && 0 <= c < gridWidth ==> (visited[r, c] <==> Grounded(g, r, c))
    {
      for col := 0 to gridWidth
        invariant MarksSound(visited, g) && MarksClosed(visited, g, {})
        invariant forall c :: 0 <= c < col && Occupied(g, 0, c) ==> visited[0, c]
      {
        if tileMatrix[0, col] != 0 && !visited[0, col] {
          GroundedBottom(g, col);
          Dfs(0, col, visited, g, {});
        }
      }
      MarkedIffGrounded(visited, g);
    }

    /** The second loop of remove_flying_tiles: every tile above the bottom
        row that is not marked is removed and its number added to the score.
        `kept` is g with exactly those tiles emptied. */
    method RemoveUnmarked(visited: array2<bool>, ghost g: Matrix, ghost kept: Matrix)
      requires Valid() && Mirrors(g) && FitsMarks(visited) && Fits(kept)
      requires forall r, c :: 0 <= r < gridHeight && 0 <= c < gridWidth ==>
        kept[r][c] == if 1 <= r && !visited[r, c] then 0 else g[r][c]
      modifies this`score, tileMatrix
      ensures Mirrors(kept)
      ensures score + Total(kept) == old(score) + Total(g)
    {
      ghost var cur := g;
      for row := 1 to gridHeight
        invariant Mirrors(cur)
        invariant forall r, c :: 0 <= r < gridHeight && 0 <= c < gridWidth ==>
          cur[r][c] == if r < row then kept[r][c] else g[r][c]
        invariant score + Total(cur) == old(score) + Total(g)
      {
        for col := 0 to gridWidth
          invariant Mirrors(cur)
          invariant forall r, c :: 0 <= r < gridHeight && 0 <= c < gridWidth ==>
            cur[r][c] == if r < row || (r == row && c < col) then kept[r][c] else g[r][c]
          invariant score + Total(cur) == old(score) + Total(g)
        {
          if tileMatrix[row, col] != 0 && !visited[row, col] {
            GridSumCell(cur, row, col, 0, Number);
            score := score + tileMatrix[row, col];
            tileMatrix[row, col] := 0;
            cur := SetCell(cur, row, col, 0);
          }
        }
      }
      forall r | 0 <= r < gridHeight
        ensures cur[r] == kept[r]
      {
        assert |cur[r]| == |kept[r]|;
      }
      assert cur == kept;
    }

    /** remove_full_rows_and_shift: rows are looked at from the bottom up; a
        full row adds its tile numbers to the score, the rows above it move
        down one and an empty row goes on top. The loop index moves on after a
        shift, so the row that slid into a cleared index is not looked at
        again. */
    method RemoveFullRowsAndShift()
      requires Valid()
      modifies this`score, tileMatrix
      ensures Cells(tileMatrix) == ClearFrom(old(Cells(tileMatrix)), 0).grid
      ensures score == old(score) + ClearFrom(old(Cells(tileMatrix)), 0).gain
    {
      ghost var g := Cells(tileMatrix);
      ghost var cur := g;
      for row := 0 to gridHeight
        invariant Mirrors(cur)
        invariant ClearFrom(cur, row).grid == ClearFrom(g, 0).grid
        invariant score + ClearFrom(cur, row).gain == old(score) + ClearFrom(g, 0).gain
      {
        if forall c :: 0 <= c < gridWidth ==> tileMatrix[row, c] != 0 {
          assert IsFull(cur[row]);
          var line := Row(tileMatrix, row);
          assert line == cur[row];
          score := score + Sum(line);
          ShiftRowsDown(row, cur);
          cur := ShiftDown(cur, row);
        } else {
          assert !IsFull(cur[row]);
        }
      }
      CellsEq(tileMatrix, cur);
    }

    /** The shift in remove_full_rows_and_shift: each row above `row` is
        copied one row down and the top row is emptied. */
    method ShiftRowsDown(row: nat, ghost cur: Matrix)
      requires Valid() && row < gridHeight && Mirrors(cur)
      modifies tileMatrix
      ensures IsRect(cur) && Mirrors(ShiftDown(cur, row))
    {
      ShiftDownRows(cur, row);
      for shiftRow := row to gridHeight - 1
        invariant forall r, c :: row <= r < shiftRow && 0 <= c < gridWidth ==> tileMatrix[r, c] == cur[r + 1][c]
        invariant forall r, c :: 0 <= r < gridHeight && !(row <= r < shiftRow) && 0 <= c < gridWidth ==>
          tileMatrix[r, c] == cur[r][c]
      {
        forall c | 0 <= c < gridWidth {
          tileMatrix[shiftRow, c] := tileMatrix[shiftRow + 1, c];
        }
      }
      var top := gridHeight - 1;
      forall c | 0 <= c < gridWidth {
        tileMatrix[top, c] := 0;
      }
      ghost var shifted := ShiftDown(cur, row);
      forall r, c | 0 <= r < gridHeight && 0 <= c < gridWidth
        ensures shifted[r][c] == tileMatrix[r, c]
      {
        if r < row {
          assert shifted[r] == cur[r];
        } else if r < top {
          assert shifted[r] == cur[r + 1];
        } else {
          assert shifted[r] == EmptyRow(gridWidth);
        }
      }
    }

    /** update_grid: locks the tiles of the landed tetromino, whose bottom-left
        corner is at column blcX, row blcY; a tile outside the grid ends the
        game at once. Otherwise it merges until the score stops changing,
        removes the flying tiles, clears the full rows and ends the game once
        the score reaches 2048. Returns game_over. */
    method UpdateGrid(tilesToLock: Matrix, blcX: int, blcY: int) returns (over: bool)
      requires Valid() && PatternShape(tilesToLock)
      modifies this`score, this`gameOver, tileMatrix
      ensures State() == UpdateGridSpec(old(State()), tilesToLock, blcX, blcY)
      ensures over == gameOver
    {
      ghost var before := State();
      var overflow := LockTiles(tilesToLock, blcX, blcY);
      ghost var placed := Cells(tileMatrix);
      if overflow {
        gameOver := true;
        over := gameOver;
        return;
      }
      MergeUntilScoreSettles();
      ghost var merged := SettleMerges(placed);
      assert Cells(tileMatrix) == merged.grid && score == before.score + merged.gain;
      RemoveFlyingTiles();
      assert Cells(tileMatrix) == Prune(merged.grid);
      RemoveFullRowsAndShift();
      assert Cells(tileMatrix) == ClearFrom(Prune(merged.grid), 0).grid;
      if score >= WinningScore {
        gameOver := true;
      }
      over := gameOver;
    }

    /** The locking loop of update_grid: copies each tile of the pattern to
        its cell, column by column, and stops at the first tile whose cell is
        outside the grid, reporting it. */
    method LockTiles(tilesToLock: Matrix, blcX: int, blcY: int) returns (overflow: bool)
      requires Valid() && PatternShape(tilesToLock)
      modifies tileMatrix
      ensures Place(old(Cells(tileMatrix)), tilesToLock, blcX, blcY) == Placed(Cells(tileMatrix), overflow)
    {
      ghost var g := Cells(tileMatrix);
      ghost var cur := g;
      var nRows, nCols := |tilesToLock|, |tilesToLock[0]|;
      for col := 0 to nCols
        invariant Mirrors(cur)
        invariant PlaceFrom(cur, tilesToLock, blcX, blcY, col, 0) == Place(g, tilesToLock, blcX, blcY)
      {
        for row := 0 to nRows
          invariant Mirrors(cur)
          invariant PlaceFrom(cur, tilesToLock, blcX, blcY, col, row) == Place(g, tilesToLock, blcX, blcY)
        {
          if tilesToLock[row][col] != 0 {
            var posX := blcX + col;
            var posY := blcY + (nRows - 1) - row;
            if IsInside(posY, posX) {
              tileMatrix[posY, posX] := tilesToLock[row][col];
              cur := SetCell(cur, posY, posX, tilesToLock[row][col]);
            } else {
              CellsEq(tileMatrix, cur);
              return true;
            }
          }
        }
      }
      CellsEq(tileMatrix, cur);
      return false;
    }

    /** The merge loop of update_grid: merge_tiles runs again until a pass
        leaves the score unchanged. */
    method MergeUntilScoreSettles()
      requires Valid()
      modifies this`score, tileMatrix
      ensures Cells(tileMatrix) == SettleMerges(old(Cells(tileMatrix))).grid
      ensures score == old(score) + SettleMerges(old(Cells(tileMatrix))).gain
    {
      ghost var g := Cells(tileMatrix);
      var previousScore: int := -1;
      while previousScore != score
        invariant previousScore != score ==>
          SettleMerges(Cells(tileMatrix)).grid == SettleMerges(g).grid &&
          score + SettleMerges(Cells(tileMatrix)).gain == old(score) + SettleMerges(g).gain
        invariant previousScore == score ==>
          Cells(tileMatrix) == SettleMerges(g).grid && score == old(score) + SettleMerges(g).gain
        decreases TileCount(Cells(tileMatrix)), if previousScore != score then 1 else 0
      {
        ghost var before := Cells(tileMatrix);
        MergeFromSums(before, 0, 0);
        previousScore := score;
        score := MergeTiles(tileMatrix, score);
      }
    }
  }
}
