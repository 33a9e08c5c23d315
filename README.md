# Tetris 2048: the settlement engine, modelled and verified in Dafny

This project models the part of Tetris 2048 that runs each time a tetromino
lands: `GameGrid.update_grid` and the methods it calls, plus
`Tile.merge_tiles`. The settlement has four phases, run in a fixed order.

1. **Lock.** The landed tile pattern is written onto the grid, column by
   column. If a tile would land outside the grid, the game ends at once.
2. **Merge.** Passes of `merge_tiles` run until the score stops changing. A
   tile with an equal tile right above it doubles. The upper tile leaves,
   and the column above it drops one row.
3. **Remove flying tiles.** A depth-first search from the bottom row marks
   every tile connected to it. Every other tile is removed, and its number
   is added to the score.
4. **Clear full rows.** Each full row adds its tile sum to the score. The
   rows above it move down and an empty row goes on top.

After these phases, a score of 2048 or more ends the game.

Cells are natural numbers. 0 is an empty cell (`None` in the game) and any
other value is the number on the tile. Row 0 is the bottom row. The modules
are:

- `Grid` (grid.dfy): the value view of a tile matrix: rows, columns, and the
  sums over cells (tile total, tile count).
- `Tile` (tile.dfy): tile.py. `MergedNumber` is the doubling of
  `update_color_and_score`. `MergeTiles` is `merge_tiles`, working in place
  on an `array2<nat>`. It is proved equal to the value-level pass
  `MergePass`.
- `Settlement` (settlement.dfy): value-level definitions of every phase of
  `update_grid`, and the lemmas about them. It also holds `UpdateGridSpec`,
  the whole settlement as a function of the board.
- `GameGrid` (game_grid.dfy): the `GameGrid` class. It has the tile matrix
  as an `array2<nat>`, plus `score` and `gameOver`. Each method works in
  place, and its postcondition ties the new state to the `Settlement`
  function of the old state.

Row clearing follows the code. After a row is cleared and the rows above
move down, the loop index moves on. So a full row that slides into the
cleared index is not examined again in that pass. A scan that re-examined
the index would clear stacked full rows too. The code does not, and the
model does what the code does. `ClearFromSkipsStackedRow` shows the skip on
a concrete board. `ClearFromClearsAll` proves that every full row is cleared
when no two full rows lie on top of each other.

## Model

| member | source | states |
|---|---|---|
| Tile.MergedNumber | Tetris_2048/tile.py:36-40 | the merged number is the sum of the two equal numbers (the lower one doubled), and the doubling of a power of two of at least 2 is again one |
| Tile.Collapse | Tetris_2048/tile.py:53-58 | a column after a merge at `row`: cells below keep their values, the merged cell holds the doubled number, each cell above takes the value of the cell above it, and the top cell is empty |
| Tile.CollapseSum | Tetris_2048/tile.py:53-58 | collapsing a column changes any cell-weighted column sum only by swapping the two equal tiles for the doubled tile and an empty cell |
| Tile.MergesAt | Tetris_2048/tile.py:48-52 | defines when merge_tiles merges at (row, col): the cell holds a tile, it is not in the top row, the cell above holds a tile, and both carry the same number |
| Tile.MergeStep | Tetris_2048/tile.py:48-58 | defines one iteration of merge_tiles' loop at (row, col): with a merge, the column is collapsed there and the gain is the doubled number; without one, nothing changes. The grid keeps its dimensions |
| Tile.MergeFrom | Tetris_2048/tile.py:46-59 | defines the rest of a merge_tiles pass from (row, col) on, in row-major order: the steps applied one after another, with their gains and merge counts added up |
| Tile.MergePass | Tetris_2048/tile.py:46-59 | defines one call of merge_tiles: the pass from (0, 0) |
| Tile.MergeStepCells | Tetris_2048/tile.py:48-58 | a merge happens at (row, col) exactly when both cells hold tiles with equal numbers and row is not the top row. Without a merge nothing changes. With one, the lower tile doubles, the score gains the doubled number, the column above drops one row, the top cell empties, and other columns and the rows below are untouched |
| Tile.MergeStepSums | Tetris_2048/tile.py:52-58 | one merge keeps the tile total and removes exactly one tile; the score gains something exactly when a merge happens |
| Tile.MergeFromSums | Tetris_2048/tile.py:46-59 | a pass keeps the grid's shape and tile total, removes one tile per merge, gains score exactly when it merges, and leaves the matrix unchanged when it does not merge |
| Tile.MergeFromStable | Tetris_2048/tile.py:47-52 | a pass without merges met no equal vertical pair at any position it visited |
| Tile.MergeFromTileNumbers | Tetris_2048/tile.py:37 | a pass keeps every tile number a power of two of at least 2 |
| Tile.MergeTiles | Tetris_2048/tile.py:46-59 | the in-place row-major pass leaves the matrix equal to `MergePass` of the old matrix and returns the input score plus the pass's gain |
| Tile.MergeAt | Tetris_2048/tile.py:48-58 | the loop body at (row, col) performs exactly the merge step there and returns its gain |
| Tile.MergePair | Tetris_2048/tile.py:53-58 | a merge doubles the lower tile, empties the upper one and drops the column above it, returning the doubled number, which is the merge step |
| Tile.Dropped | Tetris_2048/tile.py:55-58 | cells at or below `row` and in other columns keep their values; each cell above takes the value of the cell above it; the top cell empties |
| Tile.DroppedIsMergeStep | Tetris_2048/tile.py:53-58 | doubling the lower tile, emptying the upper one and dropping the column gives the matrix the merge step defines |
| Tile.DropColumn | Tetris_2048/tile.py:55-58 | the inner loop moves every cell of the column above `row + 1` down one row and empties the top cell; nothing else changes |
| Settlement.PatternRow | Tetris_2048/game_grid.py:224 | the pattern row whose tiles land on board row r: `TargetRow` maps it back to r |
| Settlement.FirstOverflow | Tetris_2048/game_grid.py:218-232 | the first pattern cell, in column-major loop order, whose tile lands outside the grid, and that no earlier cell from the starting point does |
| Settlement.PlaceFromCells | Tetris_2048/game_grid.py:218-232 | the locking loop overflows exactly when it meets a tile landing outside the grid; it writes each tile it visits before that to its target cell, and keeps every other cell |
| Settlement.PlaceFrom | Tetris_2048/game_grid.py:218-232 | defines the locking loop from pattern cell (col, row) on: it skips empty pattern cells, writes a tile whose target is inside the grid and goes on, and stops with overflow at the first tile whose target is outside |
| Settlement.Place | Tetris_2048/game_grid.py:216-232 | locking keeps the grid's dimensions |
| Settlement.PlaceCells | Tetris_2048/game_grid.py:216-232 | locking overflows exactly when some tile of the pattern lands outside the grid. Without overflow, each tile at pattern cell (row, col) lands on cell (y + n_rows - 1 - row, x + col), overwriting it, and no other cell changes. With overflow, the tiles visited before the offending one stay written |
| Settlement.PlaceTileNumbers | Tetris_2048/game_grid.py:221-227 | locking tiles that carry powers of two of at least 2 onto such a grid gives such a grid |
| Settlement.SettleMerges | Tetris_2048/game_grid.py:233-236 | defines the merge loop: passes run until one gains no score, and the gains add up. The grid keeps its dimensions |
| Settlement.MergeFromNoPair | Tetris_2048/tile.py:46-59 | on a board with no equal vertical pair, a pass from any position leaves the matrix unchanged and gains no score |
| Settlement.SettleMergesSettled | Tetris_2048/game_grid.py:233-236 | a board with no equal vertical pair goes through the merge loop unchanged and with no score gained |
| Settlement.SettleMergesFixedPoint | Tetris_2048/game_grid.py:233-236 | when the merge loop exits, no tile has an equal tile right above it. The tile total is kept, each merge removes one tile, and the tile numbers stay powers of two |
| Settlement.GroundNeighbours | Tetris_2048/game_grid.py:290-293 | the occupied neighbours of a tile connected to the bottom row are connected too |
| Settlement.Prune | Tetris_2048/game_grid.py:270-274 | a tile stays exactly when it is connected to the bottom row through occupied side-adjacent cells |
| Settlement.GroundPathKept | Tetris_2048/game_grid.py:270-274 | removing the unconnected tiles keeps every path to the bottom row |
| Settlement.PruneGrounded | Tetris_2048/game_grid.py:263-275 | after removal every tile is connected to the bottom row; bottom-row tiles are never removed; the tile total does not grow; a second removal changes nothing |
| Settlement.Removed | Tetris_2048/game_grid.py:270-274 | the tiles remove_flying_tiles takes off: a cell keeps its tile exactly when that tile is not connected to the bottom row |
| Settlement.PruneGain | Tetris_2048/game_grid.py:272-273 | the score remove_flying_tiles adds is the sum of the numbers on the removed tiles, and it plus the total of the kept tiles is the old tile total |
| Settlement.EmptyRow | Tetris_2048/game_grid.py:255 | the new top row has the grid's width, no tile and sum 0 |
| Settlement.ShiftDown | Tetris_2048/game_grid.py:253-255 | removing a row keeps the grid's dimensions |
| Settlement.ShiftDownRows | Tetris_2048/game_grid.py:253-255 | removing a row keeps the rows below it, moves each row above it down by one, empties the top row, and takes exactly the removed row's sum off the tile total |
| Settlement.ClearFrom | Tetris_2048/game_grid.py:249-256 | clearing rows keeps the grid's dimensions |
| Settlement.ClearFromGain | Tetris_2048/game_grid.py:250-252 | the score gained by clearing rows is exactly the tile total that left the grid |
| Settlement.ClearFromTileNumbers | Tetris_2048/game_grid.py:249-256 | clearing rows keeps every tile number a power of two of at least 2 |
| Settlement.ClearFromClearsAll | Tetris_2048/game_grid.py:249-256 | when no two full rows lie on top of each other, one pass leaves no full row |
| Settlement.ClearFromSkipsStackedRow | Tetris_2048/game_grid.py:250-255 | on a one-column board holding 2 under 4, one pass clears the bottom row and leaves the full row [4] at index 0, which it does not examine again |
| Settlement.UpdateGridSpec | Tetris_2048/game_grid.py:212-245 | defines update_grid on the board: on overflow, the partly locked grid, the same score and the game over. Otherwise, merge to a fixed point, remove the unconnected tiles, clear full rows, add all gains to the score, and end the game at 2048 or more |
| Settlement.UpdateGridOutcome | Tetris_2048/game_grid.py:212-245 | update_grid keeps the grid's dimensions, never lowers the score and never resets game_over. An overflow ends the game with the score unchanged. A score of 2048 or more ends the game. Without overflow, the score gains the merged numbers plus exactly the tile total that left the grid. Tile numbers stay powers of two of at least 2 |
| GameGrid.GameGrid.constructor | Tetris_2048/game_grid.py:12-34 | a new grid has the given dimensions, every cell empty, score 0 and the game not over |
| GameGrid.GameGrid.IsInside | Tetris_2048/game_grid.py:196-201 | true exactly when 0 <= row < grid_height and 0 <= col < grid_width |
| GameGrid.GameGrid.IsOccupied | Tetris_2048/game_grid.py:186-192 | false outside the grid; inside it, true exactly when the cell holds a tile |
| GameGrid.GameGrid.GroundPathMarked | Tetris_2048/game_grid.py:281-293 | when the bottom-row tiles are marked and every mark has its occupied neighbours marked, the end of every path to the bottom row is marked |
| GameGrid.GameGrid.MarkedIffGrounded | Tetris_2048/game_grid.py:264-268 | after the seeding loop, a cell is marked exactly when its tile is connected to the bottom row |
| GameGrid.GameGrid.Dfs | Tetris_2048/game_grid.py:281-293 | dfs marks only tiles connected to the bottom row and never unmarks. It marks the starting tile when that tile is occupied. Every marked cell not on the call stack has its occupied neighbours marked. It terminates because each call that marks a cell reduces the set of unmarked tiles |
| GameGrid.GameGrid.VisitColumnNeighbours | Tetris_2048/game_grid.py:290-291 | after the calls below and above, the occupied cells below and above are marked |
| GameGrid.GameGrid.VisitRowNeighbours | Tetris_2048/game_grid.py:292-293 | after the calls left and right, the occupied cells left and right are marked |
| GameGrid.GameGrid.MarkGrounded | Tetris_2048/game_grid.py:264-268 | dfs from each bottom-row tile marks exactly the tiles connected to the bottom row |
| GameGrid.GameGrid.RemoveUnmarked | Tetris_2048/game_grid.py:270-275 | the unmarked tiles above the bottom row are removed, and the score gains exactly the tile total removed |
| GameGrid.GameGrid.RemoveFlyingTiles | Tetris_2048/game_grid.py:263-275 | the matrix becomes `Prune` of the old matrix, and the score gains exactly the removed tile total |
| GameGrid.GameGrid.ShiftRowsDown | Tetris_2048/game_grid.py:253-255 | the matrix becomes `ShiftDown` of the old one at `row` |
| GameGrid.GameGrid.RemoveFullRowsAndShift | Tetris_2048/game_grid.py:249-256 | the matrix and the score become what `ClearFrom` of the old matrix gives, starting at row 0 |
| GameGrid.GameGrid.LockTiles | Tetris_2048/game_grid.py:216-232 | the in-place locking loop leaves the matrix and returns the overflow flag that `Place` of the old matrix gives |
| GameGrid.GameGrid.MergeUntilScoreSettles | Tetris_2048/game_grid.py:233-236 | the score-driven loop leaves the matrix and the score that `SettleMerges` of the old matrix gives |
| GameGrid.GameGrid.UpdateGrid | Tetris_2048/game_grid.py:212-245 | the new matrix, score and game-over flag are `UpdateGridSpec` of the old ones, and the result is the new game_over |

## Left out

- Drawing: `display`, `draw_grid`, `draw_boundaries`, `draw_info_panel` and `Tile.draw`. They only draw, and the info panel's mouse-click `sys.exit` is interactive. The `display()` calls inside the settlement are no-ops here.
- Colours: `update_color` and the colour update in `update_color_and_score`. They depend on the `tile_colors` table, which is not part of this model. So the model does not capture a failed lookup for a number missing from that table.
- Random tile numbers: the 2-or-4 choice in `Tile.__init__`. It is stated as the `AllTileNumbers` hypothesis (powers of two of at least 2) where a lemma needs it.
- Tetromino and presentation state: `current_tetromino` (cleared at the start of `update_grid`), `next_tetromino`, `max_score`, `info_width`, `game_speed` and the colour and thickness constants. They belong to other modules or to drawing.
- Tile objects: tiles are their numbers. Setting `number = None` on the absorbed tile has no effect the model can see, because that tile leaves the matrix in the same step.
- Python recursion depth: `dfs` is modelled as unbounded recursion. The interpreter's recursion limit is not modelled.
- Empty grids: `GameGrid.GameGrid.constructor` requires both dimensions to be at least 1. With no rows, `remove_flying_tiles` would index a missing row 0.
- Pattern shape: `UpdateGrid` requires a non-empty, rectangular pattern. The source reads `len(tiles_to_lock[0])` for every column, and its patterns are numpy arrays. `blc_position` is passed as two integers, `blcX` and `blcY`.
- Dfs: its contract does not say that the cells it marks are exactly those reachable from its starting cell. That exact statement is proved for the complete marking phase (`MarkGrounded`, `MarkedIffGrounded`), which is what the source relies on.
