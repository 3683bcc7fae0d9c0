/** The earlier dense grid (src/npuzzle/grid2d.rs). Same shape as `LibGrid`
    with three differences: moves and writes report a `bool`, reads an
    `Option`; the vertical offsets are the other way round (`Up` is one row
    DOWN the layout); and loading a layout replaces `data` only. */
module LegacyGrid {
  import opened Wrappers
  import opened Geometry
  import opened Layout
  import Bounds

  datatype Grid2D = Grid2D(width: nat, height: nat, data: Layout, zero: Coords)

  /** `From<Direction> for Coords`: here `Up` increases the row. */
  function Offset(d: Direction): (r: Coords)
    ensures (r.row == 0) != (r.col == 0)
    ensures -1 <= r.row <= 1 && -1 <= r.col <= 1
    ensures (d == Up || d == Down) <==> r.row != 0
  {
    match d
    case Up => Coords(1, 0)
    case Down => Coords(-1, 0)
    case Right => Coords(0, 1)
    case Left => Coords(0, -1)
  }

  /** `Direction::try_from`: the unit offsets decode, nothing else does. */
  function TryFrom(c: Coords): (r: Option<Direction>)
    ensures r.Some? ==> Offset(r.value) == c
    ensures r.None? <==> forall d :: Offset(d) != c
  {
    match c
    case Coords(1, 0) => Some(Up)
    case Coords(-1, 0) => Some(Down)
    case Coords(0, 1) => Some(Right)
    case Coords(0, -1) => Some(Left)
    case _ => None
  }

  /** In this file `TryFrom` does invert `Offset`. */
  lemma TryFromOffset(d: Direction)
    ensures TryFrom(Offset(d)) == Some(d)
  {
  }

  lemma OffsetOpposite(d: Direction)
    ensures Offset(Opposite(d)) == Neg(Offset(d))
  {
  }

  /** `Grid2D::new(width, height)`: the dimensions are recorded but there
      are no rows yet. */
  function New(width: nat, height: nat): (g: Grid2D)
    ensures Dim(g) == (width, height) && g.data == [] && g.zero == Coords(0, 0)
    ensures Rect(g) <==> height == 0
  {
    Grid2D(width, height, [], Coords(0, 0))
  }

  /** `in_bounds`: (row, col) names a cell of a `width` x `height` grid. */
  predicate InBounds(g: Grid2D, c: Coords) {
    c.row >= 0 && g.height > c.row && c.col >= 0 && g.width > c.col
  }

  /** `in_bounds` is the box test of the utilities with the corners (0, 0) and
      (width - 1, height - 1), x being the column. */
  lemma InBoundsIsBoxTest(g: Grid2D, c: Coords)
    ensures InBounds(g, c) <==> Bounds.IsInBounds(c.col, c.row, (0, 0), (g.width - 1, g.height - 1))
  {
  }

  predicate Rect(g: Grid2D) {
    IsRect(g.data, g.height, g.width)
  }

  predicate Sound(g: Grid2D) {
    Rect(g) && InBounds(g, g.zero)
  }

  predicate Wf(g: Grid2D) {
    Sound(g) && g.data[g.zero.row][g.zero.col] == 0
  }

  function Cell(g: Grid2D, c: Coords): nat
    requires Rect(g) && InBounds(g, c)
  {
    g.data[c.row][c.col]
  }

  /** The cell a move in direction `d` swaps the blank with: the blank's
      position plus the direction's offset (`Add` written out componentwise,
      which keeps the solver from evaluating the sum on literal operands). */
  function Target(g: Grid2D, d: Direction): Coords {
    Coords(g.zero.row + Offset(d).row, g.zero.col + Offset(d).col)
  }

  predicate Legal(g: Grid2D, d: Direction) {
    InBounds(g, Target(g, d))
  }

  /** `possible_moves`: exactly the directions whose target is in bounds. */
  function PossibleMoves(g: Grid2D): (r: seq<Direction>)
    ensures forall d :: d in r <==> Legal(g, d)
  {
    Filter(d => Legal(g, d))
  }

  /** ... listed once each, in the order Up, Down, Right, Left. */
  lemma PossibleMovesInOrder(g: Grid2D)
    ensures InRankOrder(PossibleMoves(g))
  {
    FilterInRankOrder(d => Legal(g, d));
  }

  /** `get_value`: `Some` exactly for positions in bounds. */
  function GetValue(g: Grid2D, p: Coords): (r: Option<nat>)
    requires Rect(g)
    ensures r.Some? <==> InBounds(g, p)
    ensures r.Some? ==> r.value == Cell(g, p)
  {
    if InBounds(g, p) then Some(g.data[p.row][p.col]) else None
  }

  /** `set_value`: `true` exactly for positions in bounds, and then only that
      cell changes. */
  function SetValue(g: Grid2D, p: Coords, v: nat): (r: (Grid2D, bool))
    requires Rect(g)
    ensures r.1 <==> InBounds(g, p)
    ensures !r.1 ==> r.0 == g
    ensures r.1 ==>
      && Rect(r.0) && Dim(r.0) == Dim(g) && r.0.zero == g.zero
      && Cell(r.0, p) == v
      && SameOutside(r.0.data, g.data, g.height, g.width, {(p.row, p.col)})
  {
    if InBounds(g, p) then (g.(data := Update(g.data, p.row, p.col, v)), true)
    else (g, false)
  }

  /** The shared body of `do_move` and `undo_move`. The two writes' results
      are ignored, so with the cache off the grid the move still "succeeds":
      it writes 0 at `pos` and moves the cache there. */
  function MoveBlankTo(g: Grid2D, pos: Coords): (r: (Grid2D, bool))
    requires Rect(g)
    requires pos != g.zero
    ensures r.1 <==> InBounds(g, pos)
    ensures !r.1 ==> r.0 == g
    ensures r.1 ==>
      && Wf(r.0) && Dim(r.0) == Dim(g) && r.0.zero == pos
      && (InBounds(g, g.zero) ==> Cell(r.0, g.zero) == Cell(g, pos))
      && SameOutside(r.0.data, g.data, g.height, g.width, {(g.zero.row, g.zero.col), (pos.row, pos.col)})
  {
    match GetValue(g, pos)
    case None => (g, false)
    case Some(val) =>
      var g1 := SetValue(g, g.zero, val).0;
      var g2 := SetValue(g1, pos, 0).0;
      (g2.(zero := pos), true)
  }

  /** `do_move`: `true` and the blank swapped with its neighbour exactly when
      that neighbour is in bounds; otherwise `false` and nothing changes. */
  function DoMove(g: Grid2D, d: Direction): (r: (Grid2D, bool))
    requires Rect(g)
    ensures r.1 <==> Legal(g, d)
    ensures !r.1 ==> r.0 == g
    ensures r.1 ==>
      && Wf(r.0) && Dim(r.0) == Dim(g) && r.0.zero == Target(g, d)
      && (InBounds(g, g.zero) ==> Cell(r.0, g.zero) == Cell(g, Target(g, d)))
      && SameOutside(r.0.data, g.data, g.height, g.width,
                     {(g.zero.row, g.zero.col), (Target(g, d).row, Target(g, d).col)})
  {
    MoveBlankTo(g, Target(g, d))
  }

  /** `undo_move`: the same swap toward the opposite neighbour. */
  function UndoMove(g: Grid2D, d: Direction): (r: (Grid2D, bool))
    requires Rect(g)
    ensures r == DoMove(g, Opposite(d))
  {
    MoveBlankTo(g, Target(g, Opposite(d)))
  }

  /** `dim`: (width, height). */
  function Dim(g: Grid2D): (nat, nat) {
    (g.width, g.height)
  }

  /** `from_2dvec`: only `data` is replaced; the dimensions and the cached
      blank keep their old values, whatever the new layout holds. */
  function From2DVec(g: Grid2D, data: Layout): (r: Grid2D)
    ensures r.data == data
    ensures Dim(r) == Dim(g) && r.zero == g.zero
  {
    g.(data := data)
  }

  /** `PartialEq`: grids compare by their layout only. */
  predicate Equal(a: Grid2D, b: Grid2D) {
    a.data == b.data
  }

  lemma DoMoveIffPossible(g: Grid2D, d: Direction)
    requires Rect(g)
    ensures DoMove(g, d).1 <==> d in PossibleMoves(g)
  {
  }

  /** Undoing a successful move restores the exact prior grid. */
  lemma UndoAfterDo(g: Grid2D, d: Direction)
    requires Wf(g)
    requires DoMove(g, d).1
    ensures UndoMove(DoMove(g, d).0, d) == (g, true)
  {
    var g1 := DoMove(g, d).0;
    var t := Target(g, d);
    OffsetOpposite(d);
    assert Target(g1, Opposite(d)) == g.zero;
    var u := UndoMove(g1, d);
    assert u.1 && u.0.zero == g.zero;
    assert SameOutside(u.0.data, g.data, g.height, g.width, {}) by {
      forall i, j | 0 <= i < g.height && 0 <= j < g.width
        ensures u.0.data[i][j] == g.data[i][j]
      {
        if (i, j) == (t.row, t.col) {
          assert Cell(u.0, t) == Cell(g, t);
        } else if (i, j) == (g.zero.row, g.zero.col) {
          assert Cell(u.0, g.zero) == Cell(g, g.zero);
        }
      }
    }
    Extensionality(u.0.data, g.data, g.height, g.width);
  }

  /** With the cache on a cell that does NOT hold 0, a move followed by its
      undo does not restore the grid: the cached cell comes back as 0 and
      its old value is lost. */
  lemma StaleCacheBreaksUndo(g: Grid2D, d: Direction)
    requires Sound(g) && Cell(g, g.zero) != 0
    requires DoMove(g, d).1
    ensures UndoMove(DoMove(g, d).0, d).1
    ensures Cell(UndoMove(DoMove(g, d).0, d).0, g.zero) == 0
    ensures UndoMove(DoMove(g, d).0, d).0 != g
  {
    var g1 := DoMove(g, d).0;
    OffsetOpposite(d);
    assert Target(g1, Opposite(d)) == g.zero;
  }
}
