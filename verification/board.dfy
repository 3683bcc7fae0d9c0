/** The flat board of src/npuzzle/board.rs: the tiles in one vector, read
    row by row, with the blank's index cached in `zeroPosition`. A move is
    named by the index of the tile that trades places with the blank. */
module FlatBoard {
  import opened Wrappers
  import opened Geometry
  import opened Layout
  import Spiral
  import Templates
  import LibGrid
  import Bounds

  datatype Board = Board(width: nat, height: nat, data: seq<nat>, solution: seq<nat>, zeroPosition: nat)

  /** The board has cells, one vector entry per cell, and the cached blank
      index is one of them. */
  predicate Sized(b: Board) {
    && 1 <= b.width && 1 <= b.height
    && |b.data| == b.width * b.height
    && b.zeroPosition < |b.data|
  }

  /** `get_index`: row-major index of (col, row). */
  function GetIndex(b: Board, col: nat, row: nat): (i: nat)
    ensures col < b.width && row < b.height ==> i < b.width * b.height
  {
    IndexBound(b.width, b.height, col, row);
    col + row * b.width
  }

  lemma IndexBound(width: nat, height: nat, col: nat, row: nat)
    ensures col < width && row < height ==> col + row * width < width * height
  {
    if col < width && row < height {
      RowMajorBound(height, width, row, col);
    }
  }

  /** `is_xy_in_bounds` (the `i32` casts are unbounded here). */
  predicate IsXYInBounds(b: Board, x: int, y: int): (r: bool)
    ensures r <==> Bounds.IsInBounds(x, y, (0, 0), (b.width - 1, b.height - 1))
  {
    0 <= x < b.width && 0 <= y < b.height
  }

  /** `set_zero_index`: only an index inside the board is cached. */
  function SetZeroIndex(b: Board, i: nat): (r: Board)
    ensures r.zeroPosition == (if i < b.width * b.height then i else b.zeroPosition)
    ensures r.(zeroPosition := b.zeroPosition) == b
  {
    if i < b.width * b.height then b.(zeroPosition := i) else b
  }

  /** `set_coords`: writes `val` at (x, y) when that cell is on the board,
      and caches the index when `val` is the blank; otherwise nothing
      changes. */
  function SetCoords(b: Board, x: int, y: int, val: nat): (r: Board)
    requires |b.data| == b.width * b.height
    ensures |r.data| == |b.data| && r.width == b.width && r.height == b.height && r.solution == b.solution
    ensures !IsXYInBounds(b, x, y) ==> r == b
    ensures IsXYInBounds(b, x, y) ==>
      && r.data == b.data[GetIndex(b, x, y) := val]
      && r.zeroPosition == (if val == 0 then GetIndex(b, x, y) else b.zeroPosition)
  {
    if IsXYInBounds(b, x, y) then
      var i := GetIndex(b, x, y);
      var written := b.(data := b.data[i := val]);
      if val == 0 then SetZeroIndex(written, i) else written
    else b
  }

  /** A fresh board: all zeros, blank cached at index 0. */
  function Blank(width: nat, height: nat): (b: Board)
    ensures |b.data| == width * height
  {
    Board(width, height, seq(width * height, _ => 0), seq(width * height, _ => 0), 0)
  }

  /** The first `k` passes of `fill_board` with the cursor positions
      `(col, row)` taken from `path`: pass `j` writes the spiral value of
      `j` at `path(j)`. */
  function FilledAlong(width: nat, height: nat, path: nat -> (int, int), k: nat): (b: Board)
    ensures b.width == width && b.height == height && |b.data| == width * height
    decreases k
  {
    if k == 0 then Blank(width, height)
    else
      var (c, r) := path(k - 1);
      SetCoords(FilledAlong(width, height, path, k - 1), c, r, Spiral.Value(k - 1, width * height))
  }

  /** Index of the last point of the path, where the blank ends up. */
  function EndIndex(width: nat, height: nat, path: nat -> (int, int)): int
    requires width * height >= 1
  {
    path(width * height - 1).1 * width + path(width * height - 1).0
  }

  /** Along a simple path, the board after `k` passes is the row-major
      reading of the template builder's layout after `k` passes. */
  lemma {:induction false} FilledAlongFlattens(width: nat, height: nat, path: nat -> (int, int), k: nat)
    requires 1 <= width && 1 <= height && k <= width * height
    requires Spiral.SimplePath(width, height, path)
    ensures FilledAlong(width, height, path, k).data == Flatten(Spiral.FillAlong(width, height, path, k))
    decreases k
  {
    if k == 0 {
      FlattenZeros(Spiral.Zeros(height, width), height, width);
      MulComm(width, height);
    } else {
      FilledAlongFlattens(width, height, path, k - 1);
      var (c, r) := path(k - 1);
      assert Spiral.InGrid(width, height, c, r);
      var prev := Spiral.FillAlong(width, height, path, k - 1);
      var v := Spiral.Value(k - 1, width * height);
      var before := FilledAlong(width, height, path, k - 1);
      SetCoordsFlattens(before, prev, r, c, v);
      assert Spiral.FillAlong(width, height, path, k) == Update(prev, r, c, v);
      assert FilledAlong(width, height, path, k) == SetCoords(before, c, r, v);
    }
  }

  /** Writing a cell of the board is writing the same cell of the layout
      it reads, row by row. */
  lemma SetCoordsFlattens(b: Board, g: Layout, r: nat, c: nat, v: nat)
    requires IsRect(g, b.height, b.width) && r < b.height && c < b.width
    requires b.data == Flatten(g)
    ensures |Flatten(g)| == b.width * b.height
    ensures SetCoords(b, c, r, v).data == Flatten(Update(g, r, c, v))
  {
    FlattenLength(g, b.height, b.width);
    MulComm(b.width, b.height);
    FlattenUpdate(g, b.height, b.width, r, c, v);
    assert GetIndex(b, c, r) == r * b.width + c;
  }

  /** The blank is cached only once the last pass has written it. */
  lemma {:induction false} FilledAlongZero(width: nat, height: nat, path: nat -> (int, int), k: nat)
    requires 1 <= width && 1 <= height && k <= width * height
    requires Spiral.SimplePath(width, height, path)
    ensures width * height >= 1
    ensures FilledAlong(width, height, path, k).zeroPosition == if k == width * height then EndIndex(width, height, path) else 0
    decreases k
  {
    Spiral.MulNonNeg(width, height);
    if k > 0 {
      FilledAlongZero(width, height, path, k - 1);
      var (c, r) := path(k - 1);
      assert Spiral.InGrid(width, height, c, r);
      var before := FilledAlong(width, height, path, k - 1);
      assert GetIndex(before, c, r) == r * width + c;
      assert Spiral.Value(k - 1, width * height) == 0 <==> k == width * height;
    }
  }

  /** The full spiral fill is the snail template read row by row. */
  lemma SnailFillData(width: nat, height: nat)
    requires 1 <= width && 1 <= height
    ensures FilledAlong(width, height, Spiral.Path(width, height), width * height).data == Flatten(Spiral.Snail(width, height))
    ensures IsPermutation(Flatten(Spiral.Snail(width, height)), width * height)
  {
    var n, path := width * height, Spiral.Path(width, height);
    Spiral.SpiralIsSimplePath(width, height);
    FilledAlongFlattens(width, height, path, n);
    assert Spiral.Snail(width, height) == Spiral.FillAlong(width, height, path, n);
    FlattenPermutation(Spiral.Snail(width, height), height, width);
    MulComm(width, height);
  }

  /** After a fill along a simple path the blank is cached where the
      layout holds its 0. */
  lemma FilledAlongBlank(width: nat, height: nat, path: nat -> (int, int))
    requires 1 <= width && 1 <= height
    requires Spiral.SimplePath(width, height, path)
    ensures |Flatten(Spiral.FillAlong(width, height, path, width * height))| == width * height
    ensures FilledAlong(width, height, path, width * height).zeroPosition < width * height
    ensures Flatten(Spiral.FillAlong(width, height, path, width * height))[FilledAlong(width, height, path, width * height).zeroPosition] == 0
  {
    var n := width * height;
    FilledAlongZero(width, height, path, n);
    var c, r := path(n - 1).0, path(n - 1).1;
    assert Spiral.InGrid(width, height, c, r);
    assert FilledAlong(width, height, path, n).zeroPosition == r * width + c;
    LastPointBlank(width, height, path, r, c);
  }

  /** The last point of the path is a cell, and the full fill holds 0
      there, read row by row. */
  lemma LastPointBlank(width: nat, height: nat, path: nat -> (int, int), r: nat, c: nat)
    requires 1 <= width && 1 <= height
    requires Spiral.SimplePath(width, height, path)
    requires path(width * height - 1) == (c, r)
    ensures r * width + c < width * height
    ensures |Flatten(Spiral.FillAlong(width, height, path, width * height))| == width * height
    ensures Flatten(Spiral.FillAlong(width, height, path, width * height))[r * width + c] == 0
  {
    var n := width * height;
    Spiral.MulNonNeg(width, height);
    assert 0 <= n - 1 < n;
    assert Spiral.InGrid(width, height, path(n - 1).0, path(n - 1).1);
    Spiral.FillAlongAt(width, height, path, n, n - 1);
    FlatCellZero(Spiral.FillAlong(width, height, path, n), height, width, r, c);
  }

  /** A cell holding 0 is a 0 of the row-major reading. */
  lemma FlatCellZero(g: Layout, height: nat, width: nat, r: nat, c: nat)
    requires IsRect(g, height, width) && r < height && c < width && g[r][c] == 0
    ensures r * width + c < width * height
    ensures |Flatten(g)| == width * height && Flatten(g)[r * width + c] == 0
  {
    FlattenIndex(g, height, width, r, c);
    MulComm(width, height);
  }

  /** The full spiral fill caches the blank where the snail template has
      its 0. */
  lemma SnailFillBlank(width: nat, height: nat)
    requires 1 <= width && 1 <= height
    ensures |Flatten(Spiral.Snail(width, height))| == width * height
    ensures FilledAlong(width, height, Spiral.Path(width, height), width * height).zeroPosition < width * height
    ensures Flatten(Spiral.Snail(width, height))[FilledAlong(width, height, Spiral.Path(width, height), width * height).zeroPosition] == 0
  {
    Spiral.SpiralIsSimplePath(width, height);
    FilledAlongBlank(width, height, Spiral.Path(width, height));
    assert Spiral.Snail(width, height) == Spiral.FillAlong(width, height, Spiral.Path(width, height), width * height);
  }

  /** `Board::new`: the snail solution laid out row by row; it is its own
      solution, a permutation of `0..width*height`, and the cached blank
      index points at the 0. */
  function NewBoard(width: nat, height: nat): (r: Board)
    requires 1 <= width && 1 <= height
    ensures Sized(r) && r.width == width && r.height == height
    ensures r.data == Flatten(Templates.GetTemplate(Templates.Snail, width, height))
    ensures IsPermutation(r.data, width * height)
    ensures r.data[r.zeroPosition] == 0
    ensures r.solution == r.data
  {
    var b := FilledAlong(width, height, Spiral.Path(width, height), width * height);
    SnailFillData(width, height);
    SnailFillBlank(width, height);
    b.(solution := b.data)
  }

  // ---- moves --------------------------------------------------------------

  /** `possible_directions`: the tiles the blank can trade places with, as
      indices, tried in the order up, down, left, right. The source needs a
      board with cells (`width - 1`, `height - 1` and `% width`). */
  function PossibleDirections(b: Board): (r: seq<nat>)
    requires 1 <= b.width && 1 <= b.height
    ensures |r| <= 4
  {
    var z, w := b.zeroPosition, b.width;
    var up: seq<nat> := if z >= w then [z - w] else [];
    var down: seq<nat> := if z < w * (b.height - 1) then [z + w] else [];
    var left: seq<nat> := if z % w > 0 then (assert z != 0; [z - 1]) else [];
    var right: seq<nat> := if z % w < w - 1 then [z + 1] else [];
    up + down + left + right
  }

  /** Reference definition of a move in coordinates: the cell next to the
      blank in direction `d` (rows grow downwards, as in the library grid),
      if that cell is on the board. */
  function Neighbour(b: Board, d: Direction): (r: Option<nat>)
    requires 1 <= b.width
    ensures r.Some? <==>
      && 0 <= b.zeroPosition / b.width + LibGrid.Offset(d).row < b.height
      && 0 <= b.zeroPosition % b.width + LibGrid.Offset(d).col < b.width
    ensures r.Some? ==>
      r.value == (b.zeroPosition / b.width + LibGrid.Offset(d).row) * b.width
                 + b.zeroPosition % b.width + LibGrid.Offset(d).col
  {
    var row, col, o := b.zeroPosition / b.width, b.zeroPosition % b.width, LibGrid.Offset(d);
    if 0 <= row + o.row < b.height && 0 <= col + o.col < b.width then
      Some((row + o.row) * b.width + col + o.col)
    else None
  }

  /** The value of an option as a sequence of length 0 or 1. */
  function Listed(o: Option<nat>): seq<nat> {
    if o.Some? then [o.value] else []
  }

  /** `possible_directions` computes on the flat index exactly the
      neighbours the coordinate definition gives, in the order up, down,
      left, right. */
  lemma PossibleDirectionsAreNeighbours(b: Board)
    requires Sized(b)
    ensures PossibleDirections(b) ==
      Listed(Neighbour(b, Up)) + Listed(Neighbour(b, Down)) + Listed(Neighbour(b, Left)) + Listed(Neighbour(b, Right))
  {
    NeighbourUp(b);
    NeighbourDown(b);
    NeighbourLeft(b);
    NeighbourRight(b);
  }

  lemma NeighbourUp(b: Board)
    requires Sized(b)
    ensures Neighbour(b, Up) == if b.zeroPosition >= b.width then Some(b.zeroPosition - b.width) else None
  {
    var z, w := b.zeroPosition, b.width;
    DivModBounds(z, b.height, w);
    var row, col := z / w, z % w;
    RowAbove(w, row, col);
    if row >= 1 {
      assert (row - 1) * w == row * w - w;
    }
  }

  lemma NeighbourDown(b: Board)
    requires Sized(b)
    ensures Neighbour(b, Down) == if b.zeroPosition < b.width * (b.height - 1) then Some(b.zeroPosition + b.width) else None
  {
    var z, w := b.zeroPosition, b.width;
    DivModBounds(z, b.height, w);
    var row, col := z / w, z % w;
    RowBelow(w, b.height, row, col);
    assert (row + 1) * w == row * w + w;
  }

  lemma NeighbourLeft(b: Board)
    requires Sized(b)
    ensures Neighbour(b, Left) == if b.zeroPosition % b.width > 0 then Some(b.zeroPosition - 1) else None
  {
    DivModBounds(b.zeroPosition, b.height, b.width);
  }

  lemma NeighbourRight(b: Board)
    requires Sized(b)
    ensures Neighbour(b, Right) == if b.zeroPosition % b.width < b.width - 1 then Some(b.zeroPosition + 1) else None
  {
    DivModBounds(b.zeroPosition, b.height, b.width);
  }

  lemma RowAbove(w: nat, row: nat, col: nat)
    requires col < w
    ensures row * w + col >= w <==> row >= 1
  {
    if row >= 1 {
      assert row * w >= w;
    }
  }

  lemma RowBelow(w: nat, h: nat, row: nat, col: nat)
    requires 1 <= h && col < w
    ensures row * w + col < w * (h - 1) <==> row + 1 < h
  {
    if row + 1 < h {
      assert (row + 1) * w <= (h - 1) * w;
    } else {
      assert row * w >= (h - 1) * w;
    }
  }

  /** On a sized board every move target is a cell other than the blank's. */
  lemma PossibleDirectionsInBoard(b: Board)
    requires Sized(b)
    ensures forall m :: m in PossibleDirections(b) ==> m < |b.data| && m != b.zeroPosition
  {
    var z, w, h := b.zeroPosition, b.width, b.height;
    DivModBounds(z, h, w);
    assert w * (h - 1) + w == w * h;
    if z % w < w - 1 {
      RowMajorBound(h, w, z / w, z % w + 1);
      MulComm(w, h);
    }
  }

  /** The keys `play` accepts for a move, and their directions. */
  function KeyDirection(key: string): Option<Direction> {
    if key == "up" || key == "u" then Some(Up)
    else if key == "down" || key == "d" then Some(Down)
    else if key == "left" || key == "l" then Some(Left)
    else if key == "right" || key == "r" then Some(Right)
    else None
  }

  /** `get_move`: the tile index a key moves the blank to, if the move is
      possible. */
  function GetMove(b: Board, key: string): Option<nat>
    requires 1 <= b.width && 1 <= b.height
  {
    var z, w := b.zeroPosition, b.width;
    match KeyDirection(key)
    case None => None
    case Some(Up) => if z >= w then Some(z - w) else None
    case Some(Down) => if z < w * (b.height - 1) then Some(z + w) else None
    case Some(Left) => if z % w > 0 then Some(z - 1) else None
    case Some(Right) => if z % w < w - 1 then Some(z + 1) else None
  }

  /** A key moves the blank to the neighbour in its direction, which is one
      of the possible directions; any other key moves nothing. */
  lemma GetMoveIsNeighbour(b: Board, key: string)
    requires Sized(b)
    ensures KeyDirection(key).None? ==> GetMove(b, key).None?
    ensures KeyDirection(key).Some? ==> GetMove(b, key) == Neighbour(b, KeyDirection(key).value)
    ensures GetMove(b, key).Some? ==> GetMove(b, key).value in PossibleDirections(b)
  {
    PossibleDirectionsAreNeighbours(b);
    match KeyDirection(key)
    case None =>
    case Some(d) =>
      match d
      case Up => NeighbourUp(b);
      case Down => NeighbourDown(b);
      case Left => NeighbourLeft(b);
      case Right => NeighbourRight(b);
  }

  /** Exchanges entries `i` and `j`. */
  function Swap(s: seq<nat>, i: nat, j: nat): (r: seq<nat>)
    requires i < |s| && j < |s|
    ensures |r| == |s| && r[i] == s[j] && r[j] == s[i]
    ensures forall k :: 0 <= k < |s| && k != i && k != j ==> r[k] == s[k]
    ensures multiset(r) == multiset(s)
  {
    s[i := s[j]][j := s[i]]
  }

  /** The move step shared by `shuffle` and `play`: the blank trades places
      with tile `m`, and the cache follows it. An index off the board is no
      move. */
  function MoveTo(b: Board, m: nat): (r: Board)
    ensures r.width == b.width && r.height == b.height && r.solution == b.solution
    ensures |r.data| == |b.data| && multiset(r.data) == multiset(b.data)
  {
    if b.zeroPosition < |b.data| && m < |b.data| then
      b.(data := Swap(b.data, b.zeroPosition, m), zeroPosition := m)
    else b
  }

  /** Trading places twice with the same tile restores the board. */
  lemma MoveBack(b: Board, m: nat)
    requires b.zeroPosition < |b.data| && m < |b.data|
    ensures MoveTo(MoveTo(b, m), b.zeroPosition) == b
  {
    var r := MoveTo(MoveTo(b, m), b.zeroPosition);
    assert r.data == b.data;
  }

  /** The boards a sequence of moves passes through, the start included. */
  function Trace(b: Board, moves: seq<nat>): (t: seq<Board>)
    ensures |t| == |moves| + 1 && t[0] == b
    ensures forall k :: 0 <= k < |t| ==>
      t[k].width == b.width && t[k].height == b.height && |t[k].data| == |b.data|
    decreases |moves|
  {
    if |moves| == 0 then [b]
    else
      var p := Trace(b, moves[..|moves| - 1]);
      p + [MoveTo(p[|p| - 1], moves[|moves| - 1])]
  }

  /** Board `k + 1` of a trace is board `k` after move `k`. */
  lemma {:induction false} TraceStep(b: Board, moves: seq<nat>, k: nat)
    requires k < |moves|
    ensures Trace(b, moves)[k + 1] == MoveTo(Trace(b, moves)[k], moves[k])
    decreases |moves|
  {
    var n := |moves|;
    var front := moves[..n - 1];
    var p, t := Trace(b, front), Trace(b, moves);
    assert t == p + [MoveTo(p[n - 1], moves[n - 1])];
    if k < n - 1 {
      TraceStep(b, front, k);
      assert t[k] == p[k] && t[k + 1] == p[k + 1] && front[k] == moves[k];
    } else {
      assert t[k] == p[n - 1] && t[k + 1] == MoveTo(p[n - 1], moves[n - 1]);
    }
  }

  /** Each move is one `possible_directions` offers at that point. */
  ghost predicate LegalWalk(b: Board, moves: seq<nat>)
    requires 1 <= b.width && 1 <= b.height
  {
    forall k :: 0 <= k < |moves| ==> moves[k] in PossibleDirections(Trace(b, moves)[k])
  }

  /** The layouts of a sequence of boards. */
  ghost function Layouts(t: seq<Board>): (r: set<seq<nat>>)
    ensures forall k :: 0 <= k < |t| ==> t[k].data in r
    decreases |t|
  {
    if |t| == 0 then {} else Layouts(t[..|t| - 1]) + {t[|t| - 1].data}
  }

  /** Every layout of a sequence of boards is that of one of them. */
  lemma {:induction false} LayoutsFrom(t: seq<Board>, x: seq<nat>)
    requires x in Layouts(t)
    ensures exists k :: 0 <= k < |t| && t[k].data == x
    decreases |t|
  {
    if x != t[|t| - 1].data {
      LayoutsFrom(t[..|t| - 1], x);
      var k :| 0 <= k < |t| - 1 && t[..|t| - 1][k].data == x;
      assert t[k].data == x;
    }
  }

  /** The layouts a walk reaches after its start. */
  ghost function Visited(b: Board, moves: seq<nat>): set<seq<nat>> {
    Layouts(Trace(b, moves)[1..])
  }

  /** The layouts after the start are pairwise different. */
  ghost predicate NoRepeats(b: Board, moves: seq<nat>) {
    forall j, k :: 1 <= j < k <= |moves| ==> Trace(b, moves)[j].data != Trace(b, moves)[k].data
  }

  /** Extending a walk by one move extends its trace by one board. */
  lemma TraceSnoc(b: Board, moves: seq<nat>, m: nat)
    ensures Trace(b, moves + [m]) == Trace(b, moves) + [MoveTo(Trace(b, moves)[|moves|], m)]
  {
    assert (moves + [m])[..|moves|] == moves;
  }

  /** Below the new last index, extending a walk changes neither the move
      nor the board it is made on. */
  lemma ExtendLegalAt(b: Board, moves: seq<nat>, m: nat, k: nat)
    requires k < |moves|
    ensures (moves + [m])[k] == moves[k]
    ensures Trace(b, moves + [m])[k] == Trace(b, moves)[k]
  {
    TraceSnoc(b, moves, m);
  }

  /** Extending a legal walk by a possible move keeps it legal. */
  lemma ExtendLegal(b: Board, moves: seq<nat>, m: nat)
    requires 1 <= b.width && 1 <= b.height
    requires LegalWalk(b, moves)
    requires m in PossibleDirections(Trace(b, moves)[|moves|])
    ensures LegalWalk(b, moves + [m])
  {
    var p, t := Trace(b, moves), Trace(b, moves + [m]);
    TraceSnoc(b, moves, m);
    forall k | 0 <= k < |moves| + 1
      ensures (moves + [m])[k] in PossibleDirections(t[k])
    {
      if k < |moves| {
        ExtendLegalAt(b, moves, m, k);
      } else {
        assert t[k] == p[k];
      }
    }
  }

  /** Extending a walk without repeats by a move to a layout it has not
      reached keeps it without repeats. */
  lemma ExtendFresh(b: Board, moves: seq<nat>, m: nat)
    requires NoRepeats(b, moves)
    requires MoveTo(Trace(b, moves)[|moves|], m).data !in Visited(b, moves)
    ensures NoRepeats(b, moves + [m])
  {
    var p, i := Trace(b, moves), |moves|;
    TraceSnoc(b, moves, m);
    var t := Trace(b, moves + [m]);
    forall j, k | 1 <= j < k <= i + 1
      ensures t[j].data != t[k].data
    {
      assert t[j] == p[j];
      if k == i + 1 {
        assert p[1..][j - 1] == p[j];
      } else {
        assert t[k] == p[k];
      }
    }
  }

  /** The layout a move reaches joins the reached ones. */
  lemma ExtendVisited(b: Board, moves: seq<nat>, m: nat)
    ensures Trace(b, moves + [m])[|moves| + 1] == MoveTo(Trace(b, moves)[|moves|], m)
    ensures Visited(b, moves + [m]) == Visited(b, moves) + {MoveTo(Trace(b, moves)[|moves|], m).data}
  {
    var p, x := Trace(b, moves), MoveTo(Trace(b, moves)[|moves|], m);
    TraceSnoc(b, moves, m);
    assert Trace(b, moves + [m])[1..] == p[1..] + [x];
    LayoutsSnoc(p[1..], x);
  }

  /** One more board adds its layout to the layouts. */
  lemma LayoutsSnoc(t: seq<Board>, x: Board)
    ensures Layouts(t + [x]) == Layouts(t) + {x.data}
  {
    assert (t + [x])[..|t|] == t;
  }

  /** A possible move keeps the board sized and carries the blank along. */
  lemma MoveKeepsSized(r: Board, m: nat)
    requires Sized(r) && m in PossibleDirections(r)
    ensures Sized(MoveTo(r, m)) && MoveTo(r, m).zeroPosition == m
    ensures r.data[r.zeroPosition] == 0 ==> MoveTo(r, m).data[m] == 0
  {
    PossibleDirectionsInBoard(r);
  }

  /** The candidates of a pass are the possible moves, in some order. */
  lemma CandidatesArePossible(order: Order<nat>, i: nat, r: Board)
    requires Reorders(order) && 1 <= r.width && 1 <= r.height
    ensures forall m :: m in order(i, PossibleDirections(r)) <==> m in PossibleDirections(r)
  {
    var s := PossibleDirections(r);
    assert multiset(order(i, s)) == multiset(s);
    forall m
      ensures m in order(i, s) <==> m in s
    {
      assert m in order(i, s) <==> m in multiset(order(i, s));
      assert m in s <==> m in multiset(s);
    }
  }

  /** The `'consider` loop of one pass: the position of the first
      candidate whose layout is not in `visited`, or the number of
      candidates when every one leads back to a reached layout. */
  method FirstFresh(r: Board, candidates: seq<nat>, visited: set<seq<nat>>) returns (c: nat)
    ensures c <= |candidates|
    ensures forall j :: 0 <= j < c ==> MoveTo(r, candidates[j]).data in visited
    ensures c < |candidates| ==> MoveTo(r, candidates[c]).data !in visited
  {
    c := 0;
    while c < |candidates| && MoveTo(r, candidates[c]).data in visited
      invariant c <= |candidates|
      invariant forall j :: 0 <= j < c ==> MoveTo(r, candidates[j]).data in visited
    {
      c := c + 1;
    }
  }

  /** What holds after every pass of `shuffle` that found a move: the
      board is the end of a legal walk from the start, with the same
      tiles, the blank still cached where the 0 is, and `visited` the
      layouts reached after the start, no two of them equal. */
  ghost predicate ShuffleInv(b: Board, r: Board, moves: seq<nat>, visited: set<seq<nat>>) {
    && Sized(b)
    && Sized(r) && r.width == b.width && r.height == b.height && r.solution == b.solution
    && r == Trace(b, moves)[|moves|] && LegalWalk(b, moves)
    && multiset(r.data) == multiset(b.data)
    && (b.data[b.zeroPosition] == 0 ==> r.data[r.zeroPosition] == 0)
    && visited == Visited(b, moves) && NoRepeats(b, moves)
  }

  lemma ShuffleStart(b: Board)
    requires Sized(b)
    ensures ShuffleInv(b, b, [], {})
  {
    assert Trace(b, [])[1..] == [];
  }

  /** A pass that takes a possible move to a layout not reached before
      keeps the invariant. */
  lemma ShuffleStep(b: Board, r: Board, moves: seq<nat>, visited: set<seq<nat>>, m: nat)
    requires ShuffleInv(b, r, moves, visited)
    requires m in PossibleDirections(r) && MoveTo(r, m).data !in visited
    ensures ShuffleInv(b, MoveTo(r, m), moves + [m], visited + {MoveTo(r, m).data})
  {
    ExtendLegal(b, moves, m);
    ExtendFresh(b, moves, m);
    ExtendVisited(b, moves, m);
    MoveKeepsSized(r, m);
  }

  /** `Board::shuffle`: `steps` passes; each takes the first candidate, in
      the order `order` gives, whose layout has not been reached before,
      and stops (`stuck`, where the source panics) when there is none. The
      starting layout is not recorded as reached. */
  method Shuffle(b: Board, steps: nat, order: Order<nat>) returns (r: Board, moves: seq<nat>, stuck: Option<nat>)
    requires Sized(b) && Reorders(order)
    ensures steps == 0 ==> r == b && moves == [] && stuck == None
    ensures |moves| <= steps && LegalWalk(b, moves) && r == Trace(b, moves)[|moves|]
    ensures Sized(r) && r.width == b.width && r.height == b.height && r.solution == b.solution
    ensures multiset(r.data) == multiset(b.data)
    ensures b.data[b.zeroPosition] == 0 ==> r.data[r.zeroPosition] == 0
    ensures NoRepeats(b, moves)
    ensures stuck.None? ==> |moves| == steps
    ensures stuck.Some? ==> stuck.value == |moves| < steps
    ensures stuck.Some? ==> forall m :: m in PossibleDirections(r) ==> MoveTo(r, m).data in Visited(b, moves)
  {
    r, moves, stuck := b, [], None;
    if steps == 0 {
      return;
    }
    var visited: set<seq<nat>> := {};
    ShuffleStart(b);
    var i := 0;
    while i < steps
      invariant i <= steps && |moves| == i && stuck == None
      invariant ShuffleInv(b, r, moves, visited)
    {
      var candidates := order(i, PossibleDirections(r));
      CandidatesArePossible(order, i, r);
      var c := FirstFresh(r, candidates, visited);
      if c == |candidates| {
        stuck := Some(i);
        return;
      }
      var m := candidates[c];
      ShuffleStep(b, r, moves, visited, m);
      r, moves := MoveTo(r, m), moves + [m];
      visited := visited + {r.data};
      i := i + 1;
    }
  }
}
