# npuzzle core in Dafny

This project models the sliding-tile puzzle core of `npuzzle` and proves its
properties.

- **Library `Grid2D`** (`npuzzle_lib/src/grid2d.rs`). This is the move engine:
  - `Direction` and its unit `Coords` offsets, and `opposite`;
  - `possible_moves`, `do_move` and `undo_move`;
  - the bounds-checked `get_value` and `set_value`;
  - the `from_2dvec` loader.
- **Earlier `Grid2D`** (`src/npuzzle/grid2d.rs`). Same shape, with `bool` and
  `Option` results.
- **The `Grid` capability** (`src/npuzzle/grid_traits.rs`). The generator
  drives both grids through it.
- **Goal templates and the generator** (`src/npuzzle/generator.rs`):
  - the snail spiral, `Lines00` and `LinesNN` goal layouts;
  - `generate_solution`;
  - `generate_random` and its visited-set `shuffle`.
- **The flat `Board`** (`src/npuzzle/board.rs`):
  - the spiral fill;
  - `possible_directions`, `get_move` and its own `shuffle`;
  - the text format: `from_str`, `as_output_string`, `clean_line` and `Display`.
- **Small pieces:**
  - the two `is_in_bounds` helpers;
  - `ErrorKind` with `as_str` and `err_name`;
  - the CLI's `PuzzleMode`.

Modules, in dependency order:

- `Wrappers` holds `Option`, `Result` and `Outcome`.
- `Status` holds `ErrorKind`.
- `Launcher` holds `PuzzleMode`.
- `Bounds` holds the `is_in_bounds` helpers.
- `Geometry` holds directions, coordinates and the ordered direction filter.
- `Layout` holds rectangular layouts and their row-major flattening.
- `LibGrid` and `LegacyGrid` are the two `Grid2D`s.
- `GridApi` is the `Grid` capability over both grids.
- `Spiral` is the snail walk.
- `Templates` holds `PuzzleType`.
- `Generator` holds the generator.
- `Text` holds decimal printing, parsing, padding and splitting.
- `FlatBoard` is the flat `Board`.
- `BoardText` is the board's text format.

Rust's mutation through `&mut self` is modelled by functions that return the
new value together with the outcome. The layout is `seq<seq<nat>>`. A grid is
well formed when three things hold:

- the rows match the recorded dimensions;
- the cached blank is in bounds;
- the cached blank holds 0.

## Model

| member | source | states |
|---|---|---|
| Status.ErrName | src/npuzzle/status.rs:53-67 | Every kind has one of three family names. The family is `InvalidInput` exactly for the input kinds, `InvalidParameter` exactly for the parameter kinds, and `Unsolvable` only for `Unsolvable`. |
| Status.AsStr | src/npuzzle/status.rs:35-51 | Each kind's message identifies the kind: `KindOf` reads the kind back from it. |
| Status.AsStrInjective | src/npuzzle/status.rs:35-51 | Two kinds have the same message if and only if they are the same kind. |
| Launcher.AsStrArray | npuzzle_cli/src/launcher.rs:21-23 | There are three distinct mode names, and they are exactly the strings `from_str` accepts. |
| Launcher.FromStr | npuzzle_cli/src/launcher.rs:25-32 | A mode is recognised exactly for `play`, `solve` and `generate`. |
| Launcher.AsStr | npuzzle_cli/src/launcher.rs:34-41 | Every mode's name is one of the listed names, and none is `unknown`. |
| Launcher.FromStrAsStr | npuzzle_cli/src/launcher.rs:25-41 | Parsing a mode's name gives the mode back. |
| Launcher.AsStrFromStr | npuzzle_cli/src/launcher.rs:25-41 | Naming a parsed mode gives the accepted string back. |
| Launcher.AsStrArrayIsNames | npuzzle_cli/src/launcher.rs:21-41 | The listed names are the names of Play, Solve and Generate, in that order. |
| Bounds.IsInBounds | src/npuzzle/utils.rs:3-5 | Only a box whose left-top corner is at or before its right-bottom corner on both axes can hold a point. |
| Bounds.LibIsInBounds | npuzzle_lib/src/utils.rs:13-15 | Only a box whose minimum is at or below its maximum on both axes can hold a point. |
| Bounds.CornersInside | src/npuzzle/utils.rs:3-5 | The bounds are inclusive: all four corners of a non-empty box are inside it. |
| Bounds.InvertedBoxIsEmpty | src/npuzzle/utils.rs:3-5 | A box whose corners are swapped on either axis contains no point. |
| Bounds.ShrinkMonotone | src/npuzzle/utils.rs:3-5 | A point inside a box is inside every box that encloses it. |
| Bounds.CopiesAgree | npuzzle_lib/src/utils.rs:13-15 | The library's generic copy and the earlier `i32` copy decide the same thing. |
| Bounds.LibExample | npuzzle_lib/src/utils.rs:9 | The documented example (3, 3) lies within (0, 0)..(5, 5). |
| Bounds.LibBelowMinOutside | npuzzle_lib/src/utils.rs:22-24 | A point left of the minimum is outside, as the library's test expects for a negative x. |
| Geometry.AddSubInverse | npuzzle_lib/src/grid2d.rs:50-64 | Coordinate subtraction undoes addition, and addition undoes subtraction. |
| Geometry.Rank | npuzzle_lib/src/grid2d.rs:30-34 | A direction's rank is its position in the iteration order Up, Down, Right, Left. |
| Geometry.Filter | npuzzle_lib/src/grid2d.rs:121-129 | Filtering the direction iterator keeps exactly the directions that satisfy the test. |
| Geometry.Keep | npuzzle_lib/src/grid2d.rs:121-129 | One filter step yields the direction if it passes the test and nothing otherwise. |
| Geometry.AppendKeep | npuzzle_lib/src/grid2d.rs:121-129 | Appending a later direction keeps the list in iteration order. |
| Geometry.FilterInRankOrder | npuzzle_lib/src/grid2d.rs:30-34 | The filtered directions come in iteration order, and none is repeated. |
| Geometry.RankSortedUnique | npuzzle_lib/src/grid2d.rs:30-34 | Two lists in iteration order with the same members are equal, so the filter's result is unique. |
| Geometry.Opposite | npuzzle_lib/src/grid2d.rs:36-44 | The opposite direction differs from the direction but stays on the same axis. |
| Geometry.OppositeInvolution | src/npuzzle/grid2d.rs:33-40 | Taking the opposite twice gives the direction back. |
| LibGrid.Offset | npuzzle_lib/src/grid2d.rs:66-75 | Each direction is a unit step on exactly one axis, and the vertical directions change the row. |
| LibGrid.TryFrom | npuzzle_lib/src/grid2d.rs:20-28 | The decoder fails with `InvalidPoint` exactly on coordinates that are not a unit step on one axis. |
| LibGrid.OffsetOpposite | npuzzle_lib/src/grid2d.rs:36-44 | The opposite direction's offset is the negated offset. |
| LibGrid.TryFromFlipsVertical | npuzzle_lib/src/grid2d.rs:20-28 | As written, the decoder maps Up's offset to Down and Down's offset to Up, and keeps Right. |
| LibGrid.TryFromFixed | npuzzle_lib/src/grid2d.rs:20-28 | The corrected decoder returns only a direction whose offset is the given coordinates. |
| LibGrid.TryFromFixedInverts | npuzzle_lib/src/grid2d.rs:66-75 | The corrected decoder inverts `Offset` for all four directions. |
| LibGrid.New | npuzzle_lib/src/grid2d.rs:86-93 | A new grid has no rows, dimensions (0, 0), and is rectangular. |
| LibGrid.WithCapacity | npuzzle_lib/src/grid2d.rs:95-102 | The grid records the requested dimensions, but every row is empty. It is not rectangular, yet (0, 0) is counted as in bounds. |
| LibGrid.InBounds | npuzzle_lib/src/grid2d.rs:104-109 | A position is in bounds when its row and column are non-negative and below the height and width. `InBoundsIsBoxTest` states what that means. |
| LibGrid.InBoundsIsBoxTest | npuzzle_lib/src/grid2d.rs:104-109 | A position is in bounds exactly when the library's box test puts its column and row inside (0, 0)..(width - 1, height - 1). |
| LibGrid.Dim | npuzzle_lib/src/grid2d.rs:183-185 | The dimensions, width first. The accessors' contracts state that they keep them. |
| LibGrid.GetZero | npuzzle_lib/src/grid2d.rs:111-113 | On a well-formed grid the cached blank is a cell that holds 0. |
| LibGrid.PossibleMoves | npuzzle_lib/src/grid2d.rs:121-129 | A direction is listed exactly when the neighbour of the blank in that direction is in bounds. |
| LibGrid.PossibleMovesInOrder | npuzzle_lib/src/grid2d.rs:121-129 | The moves are listed once each, in the order Up, Down, Right, Left. |
| LibGrid.GetValue | npuzzle_lib/src/grid2d.rs:175-180 | A read succeeds exactly in bounds and returns that cell. Otherwise it fails with `OutOfBounds`. |
| LibGrid.SetValue | npuzzle_lib/src/grid2d.rs:165-172 | A write succeeds exactly in bounds and changes only that cell. Otherwise it fails with `OutOfBounds` and changes nothing. |
| LibGrid.MoveBlankTo | npuzzle_lib/src/grid2d.rs:134-162 | The swap succeeds exactly when both cells are in bounds, and then exchanges them and moves the cache. A target off the grid gives `InvalidMove`; a cache off the grid gives `OutOfBounds`. |
| LibGrid.DoMove | npuzzle_lib/src/grid2d.rs:134-145 | An illegal move fails with `InvalidMove` and changes nothing. A legal move swaps the blank with its neighbour and moves the cache. |
| LibGrid.UndoMove | npuzzle_lib/src/grid2d.rs:150-162 | Undoing a move is the move in the opposite direction. |
| LibGrid.DoMoveIffPossible | npuzzle_lib/src/grid2d.rs:121-145 | On a sound grid, a move succeeds if and only if `possible_moves` lists it. |
| LibGrid.UndoAfterDo | npuzzle_lib/src/grid2d.rs:134-162 | On a well-formed grid, undoing a successful move restores exactly the earlier grid. |
| LibGrid.IllegalMoveIsNoOp | npuzzle_lib/src/grid2d.rs:134-145 | A move that is not listed fails with `InvalidMove` and leaves the grid unchanged. |
| LibGrid.ScanRow | npuzzle_lib/src/grid2d.rs:200-205 | Returns the first 0 at or after the column, or reports that there is none. |
| LibGrid.ScanRows | npuzzle_lib/src/grid2d.rs:196-208 | The row loop stops at the first ragged row or at the first 0. Each outcome says what the rows before it were like. |
| LibGrid.From2DVec | npuzzle_lib/src/grid2d.rs:188-209 | Loading replaces the data and height. The result is `EmptyInput` exactly for no rows, `InvalidInput` at a ragged row before the first 0, and `InvalidNoZero` otherwise. On success the cache is the first 0 in row-major order. |
| LibGrid.From2DVecRect | npuzzle_lib/src/grid2d.rs:188-209 | A non-empty rectangular layout that holds a 0 loads into a well-formed grid whose cache is the first 0. |
| LibGrid.From2DVecAcceptsRaggedTail | npuzzle_lib/src/grid2d.rs:196-206 | As written, `[[0, 1], [2]]` loads successfully into a grid that is not rectangular. |
| LibGrid.From2DVecChecked | npuzzle_lib/src/grid2d.rs:188-209 | The corrected loader refuses every non-rectangular layout with `InvalidInput`. On success it leaves a well-formed grid whose cache is the first 0. |
| LibGrid.CheckedAgreesOnRect | npuzzle_lib/src/grid2d.rs:188-209 | On rectangular input the corrected loader and the original agree. |
| LibGrid.Equal | npuzzle_lib/src/grid2d.rs:235-239 | Grids compare by layout only. `EqualWellFormedGridsAreIdentical` states when that agrees with equality of whole grids. |
| LibGrid.EqualWellFormedGridsAreIdentical | npuzzle_lib/src/grid2d.rs:235-239 | Comparing layouts only is sound: two well-formed grids with one blank and equal layouts are identical. |
| LibGrid.BasicMoves | npuzzle_lib/src/grid2d.rs:245-260 | Each step of the library's test has the outcome the test expects. |
| LibGrid.DownThenLeftFromCorner | npuzzle_lib/src/grid2d.rs:245-260 | From the top-left corner of a 3 x 3 grid, down succeeds and a following left fails. |
| LibGrid.TopLeftMoves | npuzzle_lib/src/grid2d.rs:121-129 | On a 2 x 2 grid with the blank top-left, the moves are exactly [Down, Right]. |
| LibGrid.BottomLeftMoves | npuzzle_lib/src/grid2d.rs:121-129 | On a 2 x 2 grid with the blank bottom-left, the moves are exactly [Up, Right]. |
| LibGrid.BasicAccess | npuzzle_lib/src/grid2d.rs:245-260 | The test's reads and writes succeed in bounds and fail out of bounds. |
| LegacyGrid.Offset | src/npuzzle/grid2d.rs:63-72 | Each direction is a unit step on one axis. In this file Up increases the row. |
| LegacyGrid.TryFrom | src/npuzzle/grid2d.rs:17-25 | The decoder returns a direction only for its own offset, and nothing for coordinates that are no direction's offset. |
| LegacyGrid.TryFromOffset | src/npuzzle/grid2d.rs:17-25 | Here the decoder inverts `Offset`. |
| LegacyGrid.OffsetOpposite | src/npuzzle/grid2d.rs:33-40 | The opposite direction's offset is the negated offset. |
| LegacyGrid.New | src/npuzzle/grid2d.rs:83-90 | The dimensions are recorded but there is no data. The grid is rectangular only when the height is 0. |
| LegacyGrid.InBounds | src/npuzzle/grid2d.rs:92-97 | A position is in bounds when its row and column are non-negative and below the height and width. `InBoundsIsBoxTest` states what that means. |
| LegacyGrid.InBoundsIsBoxTest | src/npuzzle/grid2d.rs:92-97 | A position is in bounds exactly when the box test of the utilities puts its column and row inside (0, 0)..(width - 1, height - 1). |
| LegacyGrid.Dim | src/npuzzle/grid2d.rs:157-159 | The dimensions, width first. `From2DVec` keeps them whatever the new layout holds. |
| LegacyGrid.Equal | src/npuzzle/grid2d.rs:181-185 | Grids compare by layout only; the dimensions and the cached blank are not compared. |
| LegacyGrid.PossibleMoves | src/npuzzle/grid2d.rs:104-112 | A direction is listed exactly when its neighbour of the blank is in bounds. |
| LegacyGrid.PossibleMovesInOrder | src/npuzzle/grid2d.rs:104-112 | The moves are listed once each, in iteration order. |
| LegacyGrid.GetValue | src/npuzzle/grid2d.rs:148-155 | A read gives `Some` exactly in bounds, and then the cell's value. |
| LegacyGrid.SetValue | src/npuzzle/grid2d.rs:139-146 | A write returns `true` exactly in bounds and changes only that cell. A refused write changes nothing. |
| LegacyGrid.MoveBlankTo | src/npuzzle/grid2d.rs:114-137 | The swap succeeds exactly for a target in bounds, and then exchanges the cells and moves the cache. |
| LegacyGrid.DoMove | src/npuzzle/grid2d.rs:114-124 | A move returns `true` exactly when it is legal, and then swaps the blank with its neighbour. Otherwise nothing changes. |
| LegacyGrid.UndoMove | src/npuzzle/grid2d.rs:126-137 | Undoing a move is the move in the opposite direction. |
| LegacyGrid.From2DVec | src/npuzzle/grid2d.rs:161-163 | Only the data is replaced. The dimensions and the cached blank stay as they were. |
| LegacyGrid.DoMoveIffPossible | src/npuzzle/grid2d.rs:104-124 | A move succeeds if and only if `possible_moves` lists it. |
| LegacyGrid.UndoAfterDo | src/npuzzle/grid2d.rs:114-137 | On a well-formed grid, undoing a successful move restores exactly the earlier grid. |
| LegacyGrid.StaleCacheBreaksUndo | src/npuzzle/grid2d.rs:114-137 | When the cache does not point at the 0, as `from_2dvec` can leave it, a move and its undo both succeed but do not restore the grid. |
| GridApi.Dim | src/npuzzle/grid_traits.rs:25-26 | Dispatches `dim` to the implementation: (width, height). |
| GridApi.PossibleMoves | src/npuzzle/grid_traits.rs:10-11 | For either implementation, the listed moves are exactly that grid's legal moves. |
| GridApi.PossibleMovesInOrder | src/npuzzle/grid_traits.rs:10-11 | For either implementation, the moves come once each in iteration order. |
| GridApi.DoMove | src/npuzzle/grid_traits.rs:13-14 | A failed move changes nothing and reports `InvalidMove` or `OutOfBounds`. A success leaves a well-formed grid of the same kind and size. |
| GridApi.DoMoveIffPossible | src/npuzzle/grid_traits.rs:10-14 | On a sound grid, a move succeeds if and only if it is listed. |
| GridApi.UndoMove | src/npuzzle/grid_traits.rs:16-17 | Undoing a move is the move in the opposite direction. |
| GridApi.GetValue | src/npuzzle/grid_traits.rs:22-23 | A read succeeds exactly in bounds and returns the layout's cell. Otherwise it fails with `OutOfBounds`. |
| GridApi.SetValue | src/npuzzle/grid_traits.rs:19-20 | A write succeeds exactly in bounds, and then reading the position gives the written value. A refused write changes nothing. |
| GridApi.From2DVec | src/npuzzle/grid_traits.rs:28-30 | Loading installs the layout. The earlier grid always succeeds and keeps its size; the library grid caches the first 0 on success. |
| GridApi.UndoAfterDo | src/npuzzle/grid_traits.rs:13-17 | For both implementations, undoing a successful move on a well-formed grid restores it exactly. |
| GridApi.DoMoveKeepsPermutation | src/npuzzle/grid_traits.rs:13-14 | A successful move keeps the layout a permutation of `0..width*height`. |
| Spiral.Step | src/npuzzle/generator.rs:27-65 | One pass moves the cursor one cell along the current heading, or turns clockwise first. |
| Spiral.Value | src/npuzzle/generator.rs:27-65 | Pass `i` of `n` writes a value below `n`, and writes 0 exactly at the last pass. |
| Spiral.ValueInjective | src/npuzzle/generator.rs:27-65 | Different passes write different values. |
| Spiral.RunInv | src/npuzzle/generator.rs:27-65 | After every pass up to `width*height`, the shrinking box and the written cells stay consistent. |
| Spiral.PathInGrid | src/npuzzle/generator.rs:27-65 | Each of the first `width*height` cursor positions is a grid cell. |
| Spiral.PathDistinct | src/npuzzle/generator.rs:27-65 | The walk never visits a cell twice. |
| Spiral.PathCovers | src/npuzzle/generator.rs:27-65 | The walk visits every cell. |
| Spiral.SpiralIsSimplePath | src/npuzzle/generator.rs:27-65 | The walk is a simple path that covers the grid. |
| Spiral.FillAlong | src/npuzzle/generator.rs:27-65 | Writing along a simple path keeps a `height` x `width` layout. |
| Spiral.FillAlongPermutation | src/npuzzle/generator.rs:27-65 | Filling along a covering simple path gives a permutation of `0..width*height`. |
| Spiral.Snail | src/npuzzle/generator.rs:27-65 | The snail template is a permutation layout of `0..width*height`. |
| Spiral.SnailFollowsPath | src/npuzzle/generator.rs:27-65 | The snail holds pass `j`'s value at the walk's `j`-th cell, so values rise along the spiral and the blank is at its end. |
| Spiral.SnailFiveByFive | src/npuzzle/generator.rs:163-171 | The 5 x 5 snail is the ring the generator's test expects, with the blank in the centre. |
| Templates.Lines00 | src/npuzzle/generator.rs:67-76 | The template is a `height` x `width` layout. Its contents are stated by `Lines00RowMajor`. |
| Templates.LinesNN | src/npuzzle/generator.rs:77-86 | The template is a `height` x `width` layout. Its contents are stated by `LinesNNRowMajor`. |
| Templates.Lines00RowMajor | src/npuzzle/generator.rs:67-76 | Read row by row, `Lines00` is 0, 1, 2, ... |
| Templates.LinesNNRowMajor | src/npuzzle/generator.rs:77-86 | Read row by row, `LinesNN` holds `i + 1` at the `i`-th cell and 0 at the last cell. |
| Templates.LinesNNCell | src/npuzzle/generator.rs:67-86 | `LinesNN` is `Lines00` with each value raised by one, wrapping the largest value to 0. |
| Templates.Lines00Permutation | src/npuzzle/generator.rs:67-76 | `Lines00` is a permutation layout of `0..width*height`. |
| Templates.LinesNNPermutation | src/npuzzle/generator.rs:77-86 | `LinesNN` is a permutation layout of `0..width*height`. |
| Templates.Lines00BlankFirst | src/npuzzle/generator.rs:67-76 | In `Lines00` a cell is blank if and only if it is the top-left cell. |
| Templates.LinesNNBlankLast | src/npuzzle/generator.rs:77-86 | In `LinesNN` a cell is blank if and only if it is the bottom-right cell. |
| Templates.GetTemplate | src/npuzzle/generator.rs:17-23 | Each kind gives a permutation layout of the requested size, with the blank where that kind puts it. |
| Templates.Blank | src/npuzzle/generator.rs:17-23 | Names a cell inside the grid that holds 0 in that kind's template. |
| Templates.Lines00FiveByFive | src/npuzzle/generator.rs:175-183 | The 5 x 5 `Lines00` is the layout the generator's test expects. |
| Templates.LinesNNFiveByFive | src/npuzzle/generator.rs:187-195 | The 5 x 5 `LinesNN` is the layout the generator's test expects. |
| Templates.SnailTemplateFiveByFive | src/npuzzle/generator.rs:163-171 | The 5 x 5 snail template is the layout the generator's test expects. |
| Generator.Walk | src/npuzzle/generator.rs:123-150 | Each grid of the walk is the previous grid after that pass's move. |
| Generator.WalkKeepsInvariant | src/npuzzle/generator.rs:123-150 | A legal walk from a grid that satisfies a lawful invariant stays inside the invariant. |
| Generator.Consider | src/npuzzle/generator.rs:132-141 | A move is chosen only if it is among the candidates and leads to a grid not yet visited. |
| Generator.ConsiderSpec | src/npuzzle/generator.rs:132-141 | The inner loop picks the first candidate that leads outside `visited`. If none does, it reports that every candidate leads back in, and leaves the grid unchanged. |
| Generator.ShuffleFrom | src/npuzzle/generator.rs:123-150 | The remaining passes make at most one move each and only add to the visited set. |
| Generator.Shuffle | src/npuzzle/generator.rs:123-150 | With 0 iterations nothing changes. Otherwise at most `iterations` moves are made. |
| Generator.ShuffleFromSpec | src/npuzzle/generator.rs:123-150 | The moves form a legal walk ending at the returned grid. Every grid after the start is new and distinct from the others. A walk cut short ends where every legal move leads back into the visited set. |
| Generator.ShuffleSpec | src/npuzzle/generator.rs:123-150 | `shuffle` makes a legal walk whose grids after the start are pairwise distinct. |
| Generator.ShuffleSeeded | src/npuzzle/generator.rs:123-150 | The corrected shuffle, which marks the start visited, makes at most `iterations` moves. |
| Generator.ShuffleSeededSpec | src/npuzzle/generator.rs:123-150 | With the start seeded, all grids of the walk, the start included, are pairwise distinct, so a shuffle that moves never returns its input. |
| Generator.StepLaw | src/npuzzle/generator.rs:89-95 | On a well-formed permutation grid, a listed move succeeds, keeps the grid ready, and is undone by `undo_move`. |
| Generator.AnyGridLawful | src/npuzzle/generator.rs:89-95 | Both `Grid2D` implementations obey the laws `shuffle` relies on. |
| Generator.GenerateSolution | src/npuzzle/generator.rs:112-116 | The grid's layout becomes the template of the grid's own size, and the template kind is kept. |
| Generator.GenerateSolutionReady | src/npuzzle/generator.rs:112-116 | On a library grid with cells, the loaded solution is a well-formed permutation grid of unchanged size. |
| Generator.GenerateRandom | src/npuzzle/generator.rs:106-109 | The kind is kept, and with 0 iterations the result is the solution. |
| Generator.GenerateRandomReachable | src/npuzzle/generator.rs:106-109 | On a library grid with cells, the scrambled grid is the end of a legal walk from the solution, and is a well-formed permutation grid of the same kind and size. Undoing the walk's moves, last first, gives the solution back. |
| Generator.UnwalkWalk | src/npuzzle/generator.rs:106-150 | For any grid operations with an invariant under which every listed move is undone by its undo, undoing a legal walk, last move first, returns to its start. |
| Generator.ShuffleCanReturnToStart | src/npuzzle/generator.rs:123-150 | As written, two passes on a 2 x 2 grid with the blank top-left move down and then up, and end on the starting grid. |
| Generator.SeededShuffleAvoidsStart | src/npuzzle/generator.rs:123-150 | The corrected shuffle on the same grid moves down and then right, and does not end on the start. |
| FlatBoard.GetIndex | src/npuzzle/board.rs:34-36 | The row-major index of a cell on the board is inside the board. |
| FlatBoard.IndexBound | src/npuzzle/board.rs:34-36 | `col + row * width` is below `width * height` for every cell. |
| FlatBoard.IsXYInBounds | src/npuzzle/board.rs:38-40 | A point is on the board exactly when the box test of the utilities puts it inside (0, 0)..(width - 1, height - 1). |
| FlatBoard.SetZeroIndex | src/npuzzle/board.rs:58-62 | Only an index inside the board is cached, and nothing else changes. |
| FlatBoard.SetCoords | src/npuzzle/board.rs:42-50 | Off the board nothing changes. On the board exactly that cell is written, and the blank's index is cached when 0 is written. |
| FlatBoard.FilledAlong | src/npuzzle/board.rs:64-101 | The `fill_board` loop keeps the board `width` x `height` with `width*height` cells. Its contents are stated by `FilledAlongFlattens`. |
| FlatBoard.FilledAlongFlattens | src/npuzzle/board.rs:64-101 | The flat fill is the row-major flattening of the grid fill along the same path. |
| FlatBoard.FilledAlongZero | src/npuzzle/board.rs:64-101 | The cached blank is 0 until the last pass, then the path's last point. |
| FlatBoard.FilledAlongBlank | src/npuzzle/board.rs:64-101 | After a full fill along a covering path, the cached blank index holds 0. |
| FlatBoard.SetCoordsFlattens | src/npuzzle/board.rs:42-50 | Writing a cell of the board writes the same cell of the layout the board reads row by row. |
| FlatBoard.NewBoard | src/npuzzle/board.rs:21-32 | A new board is the snail template flattened. It is its own solution, a permutation of `0..width*height`, and the cached blank holds 0. |
| FlatBoard.PossibleDirections | src/npuzzle/board.rs:103-122 | At most four move targets. Which ones is stated against the coordinate definition by `PossibleDirectionsAreNeighbours`. |
| FlatBoard.Neighbour | src/npuzzle/board.rs:103-122 | The reference move in coordinates: a neighbour exists exactly when the shifted cell is on the board, and it is that cell's index. |
| FlatBoard.PossibleDirectionsAreNeighbours | src/npuzzle/board.rs:103-122 | The flat-index arithmetic lists exactly the coordinate neighbours, in the order up, down, left, right. |
| FlatBoard.PossibleDirectionsInBoard | src/npuzzle/board.rs:103-122 | Every move target is a cell of the board other than the blank's. |
| FlatBoard.GetMove | src/npuzzle/board.rs:153-185 | The target of a move key, if it is on the board. Its meaning is stated by `GetMoveIsNeighbour`. |
| FlatBoard.GetMoveIsNeighbour | src/npuzzle/board.rs:153-185 | A move key moves the blank to its direction's neighbour, which is one of the possible directions. Any other key moves nothing. |
| FlatBoard.Swap | src/npuzzle/board.rs:124-151 | Exchanges two entries, leaves the others alone, and keeps the multiset of tiles. |
| FlatBoard.MoveTo | src/npuzzle/board.rs:124-151 | A move keeps the dimensions, the solution and the tiles. |
| FlatBoard.MoveBack | src/npuzzle/board.rs:124-151 | Trading places with a tile and then back restores the board. |
| FlatBoard.Trace | src/npuzzle/board.rs:124-151 | The trace starts at the board, has one board per move plus the start, and keeps the dimensions. |
| FlatBoard.TraceStep | src/npuzzle/board.rs:124-151 | Board `k + 1` of a trace is board `k` after move `k`. |
| FlatBoard.FirstFresh | src/npuzzle/board.rs:133-143 | The consider loop finds the first candidate whose layout was not reached, or reports that there is none. |
| FlatBoard.ShuffleStep | src/npuzzle/board.rs:124-151 | A pass that takes a possible move to a fresh layout keeps the shuffle invariant. |
| FlatBoard.Shuffle | src/npuzzle/board.rs:124-151 | The moves form a legal walk with no repeated layout after the start. The tiles are kept, and the blank's cache stays on the 0. Exactly `steps` moves are made unless the walk is stuck, and then every possible move leads to a reached layout. |
| BoardText.CleanLine | src/npuzzle/board.rs:300-306 | The result is the longest prefix without `#`, and it stops at a `#` if there is one. |
| BoardText.CleanLineKeeps | src/npuzzle/board.rs:300-306 | A line without `#` is kept whole. |
| BoardText.DigitCountPrinted | src/npuzzle/board.rs:308-325 | The `longest` loop counts as many digits as the number prints. |
| BoardText.FieldAligned | src/npuzzle/board.rs:308-325 | On a board with at least two cells every field is exactly `longest + 1` characters wide, so the columns line up. On a 1 x 1 board `longest` is 0 and the field of its 0 is 2 characters wide. |
| BoardText.Display | src/npuzzle/board.rs:308-325 | The rendering of the board. `DisplayByRows` states its rows, `FieldAligned` its columns, and `RoundTrip` that it reads back. |
| BoardText.AsOutputString | src/npuzzle/board.rs:292-297 | The comment line, the size and the rows. `OutputLines` states its lines, and `RoundTrip` that `from_str` reads it back. |
| BoardText.DisplayByRows | src/npuzzle/board.rs:308-325 | The rendered board is its rows one after another, each row's fields followed by one newline. |
| BoardText.ParseWords | src/npuzzle/board.rs:256-269 | Each word must be all digits (`InvalidChar`), below `width*width` and not seen before (`InvalidValue`). Values are appended in order, and a good state stays good. |
| BoardText.ParseWordsErrors | src/npuzzle/board.rs:256-269 | The words are read if and only if each word fits: all digits, below `width*width`, and not among the values already held or read. The error is `InvalidChar` if and only if the first word that does not fit is not all digits, and `InvalidValue` if and only if it is all digits. |
| BoardText.SplitLines | src/npuzzle/board.rs:243-246 | Each line's words are the words of its comment-free prefix. |
| BoardText.ParseLine | src/npuzzle/board.rs:247-271 | A line keeps a good state good, never changes a size once set, and only appends values. It fails with `InvalidNoSize` if and only if it is not empty, is not a lone word before the size, and is not a row of exactly `width` words once the size is known. `InvalidChar` comes from a lone non-digit size word or from the row's words, and `InvalidValue` only from the row's words. A digit size word sets the size. |
| BoardText.ParseLines | src/npuzzle/board.rs:243-272 | The line loop keeps a good state good, and its errors are the line errors. |
| BoardText.FirstIndex | src/npuzzle/board.rs:273-277 | The position of the first occurrence. |
| BoardText.FromStr | src/npuzzle/board.rs:235-282 | A parsed board is square with at most `width*width` distinct values below that bound. The blank is cached on the 0, and the solution is that of a new board of the size. A line loop error is returned as it is. The result is `InvalidNoZero` if and only if the lines are read and no value is 0. Otherwise the board holds the values and size the lines gave. |
| BoardText.GoodBound | src/npuzzle/board.rs:256-269 | A good state never holds more than `width*width` values. |
| BoardText.ParseWordsPrinted | src/npuzzle/board.rs:256-269 | Printed distinct values below the bound are read back in order. |
| BoardText.ParseRows | src/npuzzle/board.rs:243-272 | Reading the displayed rows of a board's data gives those values, in order. |
| BoardText.SplitRows | src/npuzzle/board.rs:308-325 | Each displayed row splits into its values, printed. |
| BoardText.LinesOfRows | src/npuzzle/board.rs:308-325 | The display splits on newlines into one line per row, then an empty piece. |
| BoardText.OutputLines | src/npuzzle/board.rs:292-297 | The output's lines are the comment, the size, and then the rows. |
| BoardText.OutputWords | src/npuzzle/board.rs:292-297 | The output's words are nothing on the comment line, the size, and then each row's values. |
| BoardText.ReadBack | src/npuzzle/board.rs:235-297 | Reading the output of a square permutation board gives its size and its values. |
| BoardText.RoundTrip | src/npuzzle/board.rs:235-297 | Writing a square permutation board and reading it back gives the board. Only the solution is replaced, by the generated one. |
| BoardText.FromStrAcceptsMissingRows | src/npuzzle/board.rs:235-282 | As written, a size line and one printed row are accepted as a board with fewer values than cells. |
| BoardText.FromStrChecked | src/npuzzle/board.rs:235-282 | The corrected reader succeeds if and only if the original does with exactly `width*height` values. Its boards are permutations with the blank cached, and it adds `InvalidInput` for a short board. |
| BoardText.FromStrCheckedRefusesMissingRows | src/npuzzle/board.rs:235-282 | The corrected reader refuses the board with rows missing, with `InvalidInput`. |
| BoardText.CheckedRoundTrip | src/npuzzle/board.rs:235-297 | The corrected reader still reads back every written square permutation board. |
| Text.ToDecimal | src/npuzzle/board.rs:292-297 | A printed number is at least one digit, all digits, with no leading zero. |
| Text.ParsePrinted | src/npuzzle/board.rs:250-252 | Parsing a printed number gives the number back. |
| Text.PrintParsed | src/npuzzle/board.rs:258-259 | Printing a parsed digit string without leading zeros gives the string back. |
| Text.PadLeft | src/npuzzle/board.rs:308-325 | Right alignment: the text ends the result, behind spaces only, in at least `width` columns. |
| Text.Token | src/npuzzle/board.rs:246 | The longest whitespace-free prefix, stopped by whitespace if there is more. |
| Text.Words | src/npuzzle/board.rs:246 | Every word is non-empty and free of whitespace. |
| Text.WordsPadded | src/npuzzle/board.rs:308-325 | A right-aligned number followed by a space reads as that one word. |
| Text.Lines | src/npuzzle/board.rs:243-244 | Splitting gives at least one piece, and no piece contains a newline. |
| Text.JoinSplitLines | src/npuzzle/board.rs:243-244 | Joining the pieces with newlines gives the string back. |
| Text.LinesAfter | src/npuzzle/board.rs:243-244 | A newline-free piece followed by a newline is the first line. |

## Left out

- `thread_rng` and `SliceRandom::shuffle` are the caller-supplied `order` parameter. The model only assumes that `order` rearranges the candidates.
- The `HashSet` of visited grids is a mathematical set of whole grids. Hashing is not modelled. The set compares all fields, as the derived `Hash` does (npuzzle_lib/src/grid2d.rs:77), and not the layout alone, as `PartialEq` does. For well-formed grids of one size with one blank, which is all that `shuffle` visits, the two agree (`LibGrid.EqualWellFormedGridsAreIdentical`).
- Logging is left out, because it has no effect on the state: the `log` macros, `println!` in `play` and `show_solution`, and the `npuzzle_vis` crate.
- `Board::play`, `Board::show_solution` and `Board::from_file` are left out. They read the terminal or files. `get_move`, which `play` uses, is modelled.
- `Launcher::new`, `run` and `get_board` are left out. They parse command-line arguments with `clap` and read files. Only `PuzzleMode` is modelled.
- The `Display` impls of both `Grid2D`s are left out. They only produce formatted output for humans.
- `Board::set_zero_xy` is left out. Nothing in the modelled code calls it.
- Text.IsDigit: `char::is_numeric` accepts every Unicode numeric character, but only ASCII digits are modelled. A non-ASCII numeric character would make `parse` fail, and the source unwraps that as a panic. Overflow of `usize` in `parse` is left out for the same reason.
- `usize` subtraction that would underflow appears as a precondition:
  - `Spiral.Snail` and `FlatBoard.NewBoard` require at least one row and one column, because the source computes `width - 1` and `height - 1`;
  - `FlatBoard.PossibleDirections` requires the same, because it computes `width - 1`, `height - 1` and `% width`.
- LibGrid.GetValue and the other library accessors (`SetValue`, `MoveBlankTo`, `DoMove`, `UndoMove`) require a rectangular grid, and so do the `GridApi` dispatchers. The source also runs them on grids that are not rectangular: `with_capacity` leaves every row empty, and `from_2dvec` can load `[[0, 1], [2]]` (see Findings). There `get_value((0, 1))` returns 1, but a position that `in_bounds` admits on a short row indexes past the row's end and panics, as `get_value((1, 1))` does. The model does not cover these calls.
- LegacyGrid.GetValue and the other accessors of the earlier grid (`SetValue`, `MoveBlankTo`, `DoMove`, `UndoMove`) require a rectangular grid for the same reason. After `Grid2D::new` followed by `from_2dvec` the recorded dimensions need not match the rows, and an in-bounds position past the end of a row panics.
- Generator.GenerateRandomReachable covers only the library grid. `Generator` is generic over any `Grid`, and on the earlier grid the promise fails. `Grid2D::new` caches the blank at (0, 0) (src/npuzzle/grid2d.rs:83-90), and `from_2dvec` replaces only the rows (src/npuzzle/grid2d.rs:161-163). So after a Snail or LinesNN template the cache points at a numbered tile, and a move writes a second 0 that its undo does not remove (`LegacyGrid.StaleCacheBreaksUndo`). Grids with no cells are left out as well.
- `Board::shuffle` panics when no fresh move exists. `FlatBoard.Shuffle` returns the pass number as `stuck` instead.
- The earlier `Grid2D` returns `bool` and `Option`. `GridApi` reports them as the `Result` the `Grid` trait declares: `false` becomes `InvalidMove` or `OutOfBounds`, and `None` becomes `OutOfBounds`.
- `from_str` splits each line into words as it reads it. The model splits every line up front (`SplitLines`). This loses nothing, because the loop stops at the first error, which is the same either way.
- `i32` coordinates and the `as i32` casts are unbounded integers. Every coordinate the model computes is within one cell of the grid.
- The text format is described as exactly `n` lines of `n` values, but `from_str` counts neither. The model follows the code (`BoardText.FromStr`) and records the gap as a finding.

## Findings

| source | as written | input that shows it | evidently intended | confidence | as-written member | corrected member |
|---|---|---|---|---|---|---|
| npuzzle_lib/src/grid2d.rs:20-28 | `Direction::try_from` maps row -1 to `Down` and row +1 to `Up`, the reverse of `From<Direction> for Coords` | `Coords(-1, 0)`, the offset of `Up`, decodes as `Down` | `try_from` inverts the offset of every direction | not executed | LibGrid.TryFromFlipsVertical | LibGrid.TryFromFixedInverts |
| npuzzle_lib/src/grid2d.rs:196-206 | `from_2dvec` returns as soon as it finds a 0, before checking the width of later rows | `[[0, 1], [2]]` loads as `Ok` into a non-rectangular grid | every row's width is checked, and a ragged layout gives `InvalidInput` | not executed | LibGrid.From2DVecAcceptsRaggedTail | LibGrid.From2DVecChecked |
| src/npuzzle/generator.rs:123-150 | `shuffle` never marks the starting grid visited, so the walk may return to it | a 2 x 2 grid with the blank top-left, 2 iterations, moves tried in listed order: down, then up, back to the solved grid | the start is marked visited, so the scramble never ends where it began | not executed | Generator.ShuffleCanReturnToStart | Generator.ShuffleSeededSpec |
| src/npuzzle/board.rs:235-282 | `from_str` checks neither the number of rows nor the number of values | `"2\n0 1\n"` reads as a 2 x 2 board with two values | a board with fewer than `width*height` values is refused | not executed | BoardText.FromStrAcceptsMissingRows | BoardText.FromStrChecked |

The operations themselves (`LibGrid.From2DVec`, `Generator.Shuffle`,
`BoardText.FromStr`, `LibGrid.TryFrom`) keep the behaviour as written, since
they model the code. Each corrected member sits beside its original, with its
intended property proved.
