/** The library's dense grid (npuzzle_lib/src/grid2d.rs): a `height` x `width`
    layout with the blank's position cached in `zero`. Every mutating
    operation returns the grid as it stands afterwards together with the
    outcome the Rust method returns, so a failed call that still changed the
    grid is visible. */
module LibGrid {
  import opened Wrappers
  import opened Status
  import opened Geometry
  import opened Layout
  import Bounds

  datatype Grid2D = Grid2D(height: nat, width: nat, data: Layout, zero: Coords)

  /** `From<Direction> for Coords`: `Up` decreases the row. */
  function Offset(d: Direction): (r: Coords)
    ensures (r.row == 0) != (r.col == 0)
    ensures -1 <= r.row <= 1 && -1 <= r.col <= 1
    ensures (d == Up || d == Down) <==> r.row != 0
  {
    match d
    case Up => Coords(-1, 0)
    case Down => Coords(1, 0)
    case Right => Coords(0, 1)
    case Left => Coords(0, -1)
  }

  /** `Direction::try_from` as written: the vertical cases are the reverse of
      `Offset`, see `TryFromFlipsVertical`. */
  function TryFrom(c: Coords): (r: Result<Direction, ErrorKind>)
    ensures r.Err? <==> (c.row == 0) == (c.col == 0) || c.row < -1 || c.row > 1 || c.col < -1 || c.col > 1
    ensures r.Err? ==> r.error == InvalidPoint
  {
    match c
    case Coords(1, 0) => Ok(Up)
    case Coords(-1, 0) => Ok(Down)
    case Coords(0, 1) => Ok(Right)
    case Coords(0, -1) => Ok(Left)
    case _ => Err(InvalidPoint)
  }

  /** The reverse move's offset is the negated offset. */
  lemma OffsetOpposite(d: Direction)
    ensures Offset(Opposite(d)) == Neg(Offset(d))
  {
  }

  /** `TryFrom` does not invert `Offset`: an up offset decodes as `Down`. */
  lemma TryFromFlipsVertical()
    ensures TryFrom(Offset(Up)) == Ok(Down)
    ensures TryFrom(Offset(Down)) == Ok(Up)
    ensures TryFrom(Offset(Right)) == Ok(Right)
  {
  }

  /** The evidently intended decoder: the exact inverse of `Offset`. */
  function TryFromFixed(c: Coords): (r: Result<Direction, ErrorKind>)
    ensures r.Ok? ==> Offset(r.value) == c
    ensures r.Err? ==> r.error == InvalidPoint
  {
    match c
    case Coords(-1, 0) => Ok(Up)
    case Coords(1, 0) => Ok(Down)
    case Coords(0, 1) => Ok(Right)
    case Coords(0, -1) => Ok(Left)
    case _ => Err(InvalidPoint)
  }

  lemma TryFromFixedInverts(d: Direction)
    ensures TryFromFixed(Offset(d)) == Ok(d)
  {
  }

  /** `Grid2D::new`: no rows, no columns. */
  function New(): (g: Grid2D)
    ensures Rect(g) && g.data == [] && Dim(g) == (0, 0)
  {
    Grid2D(0, 0, [], Coords(0, 0))
  }

  /** `Grid2D::with_capacity`: `height` rows that are all still EMPTY. Such a
      grid accepts positions in `InBounds` that it cannot index, which is why
      every access below requires `Rect`. */
  function WithCapacity(height: nat, width: nat): (g: Grid2D)
    ensures Dim(g) == (width, height) && |g.data| == height
    ensures forall r :: 0 <= r < height ==> g.data[r] == []
    ensures height > 0 && width > 0 ==> !Rect(g) && InBounds(g, Coords(0, 0))
  {
    var g := Grid2D(height, width, seq(height, _ => []), Coords(0, 0));
    assert height > 0 ==> |g.data[0]| == 0;
    g
  }

  /** `in_bounds`: (row, col) names a cell of a `width` x `height` grid. */
  predicate InBounds(g: Grid2D, c: Coords) {
    c.row >= 0 && g.height > c.row && c.col >= 0 && g.width > c.col
  }

  /** `in_bounds` is the box test of the library with the corners (0, 0) and
      (width - 1, height - 1), x being the column. */
  lemma InBoundsIsBoxTest(g: Grid2D, c: Coords)
    ensures InBounds(g, c) <==> Bounds.LibIsInBounds(c.col, c.row, (0, 0), (g.width - 1, g.height - 1))
  {
  }

  /** The stored rows match the recorded dimensions. */
  predicate Rect(g: Grid2D) {
    IsRect(g.data, g.height, g.width)
  }

  /** Rectangular, with the cached blank inside the grid. */
  predicate Sound(g: Grid2D) {
    Rect(g) && InBounds(g, g.zero)
  }

  /** Sound, and the cached blank really holds 0. */
  predicate Wf(g: Grid2D) {
    Sound(g) && g.data[g.zero.row][g.zero.col] == 0
  }

  function Cell(g: Grid2D, c: Coords): nat
    requires Rect(g) && InBounds(g, c)
  {
    g.data[c.row][c.col]
  }

  /** `get_zero`: on a well-formed grid it names a cell holding 0. */
  function GetZero(g: Grid2D): (r: Coords)
    ensures Wf(g) ==> InBounds(g, r) && Cell(g, r) == 0
  {
    g.zero
  }

  /** The cell a move in direction `d` swaps the blank with: the blank's
      position plus the direction's offset (`Add` written out componentwise,
      which keeps the solver from evaluating the sum on literal operands). */
  function Target(g: Grid2D, d: Direction): Coords {
    Coords(g.zero.row + Offset(d).row, g.zero.col + Offset(d).col)
  }

  predicate Legal(g: Grid2D, d: Direction) {
    InBounds(g, Target(g, d))
  }

  /** `possible_moves`: exactly the directions whose target is in bounds. */
  function PossibleMoves(g: Grid2D): (r: seq<Direction>)
    ensures forall d :: d in r <==> Legal(g, d)
  {
    Filter(d => Legal(g, d))
  }

  /** ... listed once each, in the order Up, Down, Right, Left. */
  lemma PossibleMovesInOrder(g: Grid2D)
    ensures InRankOrder(PossibleMoves(g))
  {
    FilterInRankOrder(d => Legal(g, d));
  }

  /** `get_value`: the cell at `p`, or `OutOfBounds`. */
  function GetValue(g: Grid2D, p: Coords): (r: Result<nat, ErrorKind>)
    requires Rect(g)
    ensures r.Ok? <==> InBounds(g, p)
    ensures r.Ok? ==> r.value == Cell(g, p)
    ensures r.Err? ==> r.error == OutOfBounds
  {
    if InBounds(g, p) then Ok(g.data[p.row][p.col]) else Err(OutOfBounds)
  }

  /** `set_value`: on success only the cell at `p` changes, never `zero`; so
      writing over the blank leaves the cache pointing at a non-zero cell. */
  function SetValue(g: Grid2D, p: Coords, v: nat): (r: (Grid2D, Outcome<ErrorKind>))
    requires Rect(g)
    ensures r.1 == Pass <==> InBounds(g, p)
    ensures r.1 != Pass ==> r == (g, Fail(OutOfBounds))
    ensures r.1 == Pass ==>
      && Rect(r.0) && Dim(r.0) == Dim(g) && r.0.zero == g.zero
      && Cell(r.0, p) == v
      && SameOutside(r.0.data, g.data, g.height, g.width, {(p.row, p.col)})
  {
    if InBounds(g, p) then (g.(data := Update(g.data, p.row, p.col, v)), Pass)
    else (g, Fail(OutOfBounds))
  }

  /** The shared body of `do_move` and `undo_move`: read the value at `pos`,
      write it over the blank, write 0 at `pos`, move the cache. Each `?` in
      the source returns the grid as mutated so far. */
  function MoveBlankTo(g: Grid2D, pos: Coords): (r: (Grid2D, Outcome<ErrorKind>))
    requires Rect(g)
    requires pos != g.zero
    ensures !InBounds(g, pos) ==> r == (g, Fail(InvalidMove))
    ensures InBounds(g, pos) && !InBounds(g, g.zero) ==> r == (g, Fail(OutOfBounds))
    ensures r.1 == Pass <==> InBounds(g, pos) && InBounds(g, g.zero)
    ensures r.1 == Pass ==>
      && Wf(r.0) && Dim(r.0) == Dim(g) && r.0.zero == pos
      && Cell(r.0, g.zero) == Cell(g, pos)
      && SameOutside(r.0.data, g.data, g.height, g.width, {(g.zero.row, g.zero.col), (pos.row, pos.col)})
  {
    match GetValue(g, pos)
    case Err(_) => (g, Fail(InvalidMove))
    case Ok(val) =>
      var (g1, o1) := SetValue(g, g.zero, val);
      if o1.Fail? then (g1, o1)
      else
        var (g2, o2) := SetValue(g1, pos, 0);
        if o2.Fail? then (g2, o2)
        else (g2.(zero := pos), Pass)
  }

  /** `do_move`: swap the blank with its neighbour in direction `d`. */
  function DoMove(g: Grid2D, d: Direction): (r: (Grid2D, Outcome<ErrorKind>))
    requires Rect(g)
    ensures !Legal(g, d) ==> r == (g, Fail(InvalidMove))
    ensures r.1 == Pass <==> Legal(g, d) && InBounds(g, g.zero)
    ensures r.1 == Pass ==>
      && Wf(r.0) && Dim(r.0) == Dim(g) && r.0.zero == Target(g, d)
      && Cell(r.0, g.zero) == Cell(g, Target(g, d))
      && SameOutside(r.0.data, g.data, g.height, g.width,
                     {(g.zero.row, g.zero.col), (Target(g, d).row, Target(g, d).col)})
  {
    MoveBlankTo(g, Target(g, d))
  }

  /** `undo_move`: the same swap toward the opposite neighbour. */
  function UndoMove(g: Grid2D, d: Direction): (r: (Grid2D, Outcome<ErrorKind>))
    requires Rect(g)
    ensures r == DoMove(g, Opposite(d))
  {
    MoveBlankTo(g, Target(g, Opposite(d)))
  }

  /** `dim`: (width, height), in that order. */
  function Dim(g: Grid2D): (nat, nat) {
    (g.width, g.height)
  }

  /** On a sound grid a move succeeds exactly when `possible_moves` lists it. */
  lemma DoMoveIffPossible(g: Grid2D, d: Direction)
    requires Sound(g)
    ensures DoMove(g, d).1 == Pass <==> d in PossibleMoves(g)
  {
  }

  /** Undoing a successful move restores the exact prior grid. */
  lemma UndoAfterDo(g: Grid2D, d: Direction)
    requires Wf(g)
    requires DoMove(g, d).1 == Pass
    ensures UndoMove(DoMove(g, d).0, d) == (g, Pass)
  {
    var g1 := DoMove(g, d).0;
    var t := Target(g, d);
    OffsetOpposite(d);
    assert Target(g1, Opposite(d)) == g.zero;
    var u := UndoMove(g1, d);
    assert u.1 == Pass;
    assert u.0.zero == g.zero;
    assert Cell(u.0, t) == Cell(g, t);
    assert Cell(u.0, g.zero) == 0 == Cell(g, g.zero);
    assert SameOutside(u.0.data, g.data, g.height, g.width, {}) by {
      forall i, j | 0 <= i < g.height && 0 <= j < g.width
        ensures u.0.data[i][j] == g.data[i][j]
      {
        if (i, j) == (t.row, t.col) {
          assert Cell(u.0, t) == Cell(g, t);
        } else if (i, j) == (g.zero.row, g.zero.col) {
          assert Cell(u.0, g.zero) == Cell(g, g.zero);
        }
      }
    }
    Extensionality(u.0.data, g.data, g.height, g.width);
  }

  /** A move off the grid fails with `InvalidMove` and changes nothing. */
  lemma IllegalMoveIsNoOp(g: Grid2D, d: Direction)
    requires Rect(g)
    requires d !in PossibleMoves(g)
    ensures DoMove(g, d) == (g, Fail(InvalidMove))
  {
  }

  // ---- loading ----------------------------------------------------------

  predicate RowsHaveWidth(data: Layout, width: nat, lo: nat, hi: nat)
    requires hi <= |data|
  {
    forall k :: lo <= k < hi ==> |data[k]| == width
  }

  predicate NoZeroInRows(data: Layout, lo: nat, hi: nat)
    requires hi <= |data|
  {
    forall k, c :: lo <= k < hi && 0 <= c < |data[k]| ==> data[k][c] != 0
  }

  /** `p` is the first cell holding 0 in row-major order. */
  predicate IsFirstZero(data: Layout, p: Coords) {
    && 0 <= p.row < |data| && 0 <= p.col < |data[p.row]|
    && data[p.row][p.col] == 0
    && NoZeroInRows(data, 0, p.row)
    && forall c :: 0 <= c < p.col ==> data[p.row][c] != 0
  }

  /** The first 0 of `row` at or after column `c`. */
  function ScanRow(row: seq<nat>, c: nat): (r: Option<nat>)
    requires c <= |row|
    ensures r.Some? ==> c <= r.value < |row| && row[r.value] == 0 &&
                        forall k :: c <= k < r.value ==> row[k] != 0
    ensures r.None? ==> forall k :: c <= k < |row| ==> row[k] != 0
    decreases |row| - c
  {
    if c == |row| then None
    else if row[c] == 0 then Some(c)
    else ScanRow(row, c + 1)
  }

  datatype Scan = Found(at: Coords) | Ragged(row: nat) | NoZero

  /** The row loop of `from_2dvec` from row `r` on: a row of the wrong width
      stops it, and so does the first 0. */
  function ScanRows(data: Layout, width: nat, r: nat): (s: Scan)
    requires r <= |data|
    ensures s.Found? ==>
      && r <= s.at.row < |data| && RowsHaveWidth(data, width, r, s.at.row + 1)
      && NoZeroInRows(data, r, s.at.row)
      && 0 <= s.at.col < width && data[s.at.row][s.at.col] == 0
      && forall c :: 0 <= c < s.at.col ==> data[s.at.row][c] != 0
    ensures s.Ragged? ==>
      && r <= s.row < |data| && |data[s.row]| != width
      && RowsHaveWidth(data, width, r, s.row) && NoZeroInRows(data, r, s.row)
    ensures s.NoZero? ==> RowsHaveWidth(data, width, r, |data|) && NoZeroInRows(data, r, |data|)
    decreases |data| - r
  {
    if r == |data| then NoZero
    else if |data[r]| != width then Ragged(r)
    else match ScanRow(data[r], 0)
      case Some(c) => Found(Coords(r, c))
      case None => ScanRows(data, width, r + 1)
  }

  /** `from_2dvec` as written: `data` and `height` (and then `width`) are
      replaced BEFORE any check, so a failed load still changes the grid; the
      scan returns at the first 0, so rows after it are never checked. */
  function From2DVec(g: Grid2D, data: Layout): (r: (Grid2D, Outcome<ErrorKind>))
    ensures r.0.data == data && r.0.height == |data|
    ensures r.1 in {Pass, Fail(EmptyInput), Fail(InvalidInput), Fail(InvalidNoZero)}
    ensures r.1 == Fail(EmptyInput) <==> |data| == 0
    ensures |data| == 0 ==> r.0.width == g.width
    ensures |data| > 0 ==> r.0.width == |data[0]|
    ensures r.1 != Pass ==> r.0.zero == g.zero
    ensures r.1 == Pass ==>
      && IsFirstZero(data, r.0.zero) && RowsHaveWidth(data, |data[0]|, 0, r.0.zero.row + 1)
      && InBounds(r.0, r.0.zero)
    ensures r.1 == Fail(InvalidInput) ==>
      exists k :: 0 < k < |data| && |data[k]| != |data[0]| &&
                  RowsHaveWidth(data, |data[0]|, 0, k) && NoZeroInRows(data, 0, k)
    ensures r.1 == Fail(InvalidNoZero) ==>
      IsRect(data, |data|, |data[0]|) && NoZeroInRows(data, 0, |data|)
  {
    var g1 := g.(data := data, height := |data|);
    if |data| == 0 then (g1, Fail(EmptyInput))
    else
      var g2 := g1.(width := |data[0]|);
      match ScanRows(data, |data[0]|, 0)
      case Found(p) => (g2.(zero := p), Pass)
      case Ragged(_) => (g2, Fail(InvalidInput))
      case NoZero => (g2, Fail(InvalidNoZero))
  }

  /** A rectangular, non-empty layout holding a 0 loads, and the grid is
      well-formed with the cache on its first 0. */
  lemma From2DVecRect(g: Grid2D, data: Layout, p: Coords)
    requires |data| > 0 && IsRect(data, |data|, |data[0]|)
    requires 0 <= p.row < |data| && 0 <= p.col < |data[0]| && data[p.row][p.col] == 0
    ensures From2DVec(g, data).1 == Pass
    ensures Wf(From2DVec(g, data).0)
    ensures IsFirstZero(data, From2DVec(g, data).0.zero)
  {
    var r := From2DVec(g, data);
    assert r.1 != Fail(InvalidNoZero) by {
      assert !NoZeroInRows(data, 0, |data|);
    }
  }

  /** A layout whose rows after the first 0 are ragged still loads as `Ok`,
      leaving a grid that is not rectangular. */
  lemma From2DVecAcceptsRaggedTail()
    ensures From2DVec(New(), [[0, 1], [2]]).1 == Pass
    ensures !Rect(From2DVec(New(), [[0, 1], [2]]).0)
  {
    var data: Layout := [[0, 1], [2]];
    assert ScanRow(data[0], 0) == Some(0);
    assert |From2DVec(New(), data).0.data[1]| != From2DVec(New(), data).0.width;
  }

  /** The evidently intended loader: every row's width is checked before the
      blank is looked for, so an `Ok` load is always well-formed. */
  function From2DVecChecked(g: Grid2D, data: Layout): (r: (Grid2D, Outcome<ErrorKind>))
    ensures r.0.data == data && r.0.height == |data|
    ensures r.1 == Fail(EmptyInput) <==> |data| == 0
    ensures r.1 == Pass ==> Wf(r.0) && IsFirstZero(data, r.0.zero)
    ensures |data| > 0 && !IsRect(data, |data|, |data[0]|) ==> r.1 == Fail(InvalidInput)
  {
    var g1 := g.(data := data, height := |data|);
    if |data| == 0 then (g1, Fail(EmptyInput))
    else
      var g2 := g1.(width := |data[0]|);
      if !IsRect(data, |data|, |data[0]|) then (g2, Fail(InvalidInput))
      else From2DVec(g, data)
  }

  /** On rectangular input the corrected loader and the original agree. */
  lemma CheckedAgreesOnRect(g: Grid2D, data: Layout)
    requires |data| > 0 && IsRect(data, |data|, |data[0]|)
    ensures From2DVecChecked(g, data) == From2DVec(g, data)
  {
  }

  /** `PartialEq`: grids compare by their layout only. */
  predicate Equal(a: Grid2D, b: Grid2D) {
    a.data == b.data
  }

  /** Comparing layouts only is sound for well-formed grids with one blank:
      equal layouts force equal dimensions and an equal cache, so the derived
      `Hash` over all fields agrees with `Equal`. */
  lemma EqualWellFormedGridsAreIdentical(a: Grid2D, b: Grid2D)
    requires Wf(a) && Wf(b) && HasUniqueZero(a.data, a.height, a.width)
    requires Equal(a, b)
    ensures a == b
  {
  }

  /** The library's own test, step by step: load a 3 x 3 layout with the
      blank top-left, move down, fail to move left, undo. */
  lemma BasicMoves()
    ensures
      var data: Layout := [[0, 1, 2], [3, 4, 5], [6, 7, 8]];
      var (g, o) := From2DVec(New(), data);
      && o == Pass && Wf(g) && g.zero == Coords(0, 0) && Dim(g) == (3, 3)
      && DoMove(g, Down).1 == Pass
      && DoMove(DoMove(g, Down).0, Left).1 == Fail(InvalidMove)
      && UndoMove(DoMove(g, Down).0, Down) == (g, Pass)
  {
    var data: Layout := [[0, 1, 2], [3, 4, 5], [6, 7, 8]];
    assert ScanRow(data[0], 0) == Some(0);
    assert IsRect(data, 3, 3);
    From2DVecRect(New(), data, Coords(0, 0));
    var g := From2DVec(New(), data).0;
    assert g.zero == Coords(0, 0) && Dim(g) == (3, 3);
    DownThenLeftFromCorner(g);
    UndoAfterDo(g, Down);
  }

  /** From the top-left corner of a 3 x 3 grid, down is legal and left after
      it is not. */
  lemma DownThenLeftFromCorner(g: Grid2D)
    requires Wf(g) && g.zero == Coords(0, 0) && Dim(g) == (3, 3)
    ensures DoMove(g, Down).1 == Pass
    ensures DoMove(DoMove(g, Down).0, Left).1 == Fail(InvalidMove)
  {
    DownFromFirstColumn(g);
    LeftIllegalInFirstColumn(DoMove(g, Down).0);
  }

  /** Moving down from the first column of a grid with a second row keeps the
      blank in the first column. */
  lemma DownFromFirstColumn(g: Grid2D)
    requires Sound(g) && g.zero.col == 0 && g.zero.row + 1 < g.height
    ensures DoMove(g, Down).1 == Pass
    ensures Rect(DoMove(g, Down).0) && DoMove(g, Down).0.zero.col == 0
  {
    assert Legal(g, Down);
  }

  /** The blank in the first column cannot move left. */
  lemma LeftIllegalInFirstColumn(g: Grid2D)
    requires Rect(g) && g.zero.col == 0
    ensures DoMove(g, Left) == (g, Fail(InvalidMove))
  {
    assert Target(g, Left).col == -1;
  }

  /** On a 2 x 2 grid with the blank top-left the possible moves are down
      and right. */
  lemma TopLeftMoves(g: Grid2D)
    requires Dim(g) == (2, 2) && g.zero.row == 0 && g.zero.col == 0
    ensures PossibleMoves(g) == [Down, Right]
  {
    assert Legal(g, Down) && Legal(g, Right);
    assert !Legal(g, Up) && !Legal(g, Left);
    PossibleMovesInOrder(g);
    RankSortedUnique(PossibleMoves(g), [Down, Right]);
  }

  /** On a 2 x 2 grid with the blank bottom-left the possible moves are up
      and right. */
  lemma BottomLeftMoves(g: Grid2D)
    requires Dim(g) == (2, 2) && g.zero == Coords(1, 0)
    ensures PossibleMoves(g) == [Up, Right]
  {
    assert Legal(g, Up) && Legal(g, Right);
    assert !Legal(g, Down) && !Legal(g, Left);
    PossibleMovesInOrder(g);
    RankSortedUnique(PossibleMoves(g), [Up, Right]);
  }

  /** The rest of the library's test: reads and writes in and out of bounds;
      the accepted write over the blank leaves the grid no longer well-formed. */
  lemma BasicAccess()
    ensures
      var g := Grid2D(3, 3, [[0, 1, 2], [3, 4, 5], [6, 7, 8]], Coords(0, 0));
      && GetValue(g, Coords(1, 1)) == Ok(4)
      && GetValue(g, Coords(5, 5)).Err?
      && SetValue(g, Coords(5, 5), 99).1 == Fail(OutOfBounds)
      && SetValue(g, Coords(0, 0), 99).1 == Pass
      && !Wf(SetValue(g, Coords(0, 0), 99).0)
  {
  }
}
