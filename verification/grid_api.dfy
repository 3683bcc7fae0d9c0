/** The `Grid` capability of src/npuzzle/grid_traits.rs: list the legal
    moves, apply and undo a move, read and write a cell, report the
    dimensions, load a layout. Both `Grid2D` implementations provide it; here
    the capability is a closed sum of the two, and each operation dispatches.
    The earlier implementation answers with `bool` and `Option`; this
    interface reports those the way the capability declares, as results: a
    refused move is `InvalidMove`, a refused access is `OutOfBounds`. */
module GridApi {
  import opened Wrappers
  import opened Status
  import opened Geometry
  import opened Layout
  import LibGrid
  import LegacyGrid

  datatype AnyGrid = Lib(lib: LibGrid.Grid2D) | Legacy(legacy: LegacyGrid.Grid2D)

  /** The layout, which `PartialEq` compares; the visited set compares whole grids. */
  function Data(g: AnyGrid): Layout {
    match g
    case Lib(x) => x.data
    case Legacy(x) => x.data
  }

  /** `dim`: (width, height). */
  function Dim(g: AnyGrid): (r: (nat, nat))
    ensures g.Lib? ==> r == LibGrid.Dim(g.lib)
    ensures g.Legacy? ==> r == LegacyGrid.Dim(g.legacy)
  {
    match g
    case Lib(x) => (x.width, x.height)
    case Legacy(x) => (x.width, x.height)
  }

  predicate Rect(g: AnyGrid) {
    match g
    case Lib(x) => LibGrid.Rect(x)
    case Legacy(x) => LegacyGrid.Rect(x)
  }

  predicate Sound(g: AnyGrid) {
    match g
    case Lib(x) => LibGrid.Sound(x)
    case Legacy(x) => LegacyGrid.Sound(x)
  }

  predicate Wf(g: AnyGrid) {
    match g
    case Lib(x) => LibGrid.Wf(x)
    case Legacy(x) => LegacyGrid.Wf(x)
  }

  /** `possible_moves`: a read-only query listing the legal directions;
      `PossibleMovesInOrder` adds that they come once each, in the order
      Up, Down, Right, Left. */
  function PossibleMoves(g: AnyGrid): (r: seq<Direction>)
    ensures g.Lib? ==> forall d :: d in r <==> LibGrid.Legal(g.lib, d)
    ensures g.Legacy? ==> forall d :: d in r <==> LegacyGrid.Legal(g.legacy, d)
  {
    match g
    case Lib(x) => LibGrid.PossibleMoves(x)
    case Legacy(x) => LegacyGrid.PossibleMoves(x)
  }

  lemma PossibleMovesInOrder(g: AnyGrid)
    ensures InRankOrder(PossibleMoves(g))
  {
    match g
    case Lib(x) => LibGrid.PossibleMovesInOrder(x);
    case Legacy(x) => LegacyGrid.PossibleMovesInOrder(x);
  }

  /** `do_move`: a failure changes nothing; a success leaves a well-formed
      grid of the same kind and size. `DoMoveIffPossible` says when it
      succeeds. */
  function DoMove(g: AnyGrid, d: Direction): (r: (AnyGrid, Outcome<ErrorKind>))
    requires Rect(g)
    ensures r.1 != Pass ==> r.0 == g && r.1 in {Fail(InvalidMove), Fail(OutOfBounds)}
    ensures r.1 == Pass ==> Wf(r.0) && Dim(r.0) == Dim(g) && r.0.Lib? == g.Lib?
  {
    match g
    case Lib(x) =>
      var (y, o) := LibGrid.DoMove(x, d);
      (Lib(y), o)
    case Legacy(x) =>
      var (y, ok) := LegacyGrid.DoMove(x, d);
      (Legacy(y), if ok then Pass else Fail(InvalidMove))
  }

  /** On a sound grid a move succeeds exactly when `possible_moves` lists it. */
  lemma DoMoveIffPossible(g: AnyGrid, d: Direction)
    requires Sound(g)
    ensures DoMove(g, d).1 == Pass <==> d in PossibleMoves(g)
  {
  }

  /** `undo_move`: the move in the opposite direction. */
  function UndoMove(g: AnyGrid, d: Direction): (r: (AnyGrid, Outcome<ErrorKind>))
    requires Rect(g)
    ensures r == DoMove(g, Opposite(d))
  {
    match g
    case Lib(x) =>
      var (y, o) := LibGrid.UndoMove(x, d);
      (Lib(y), o)
    case Legacy(x) =>
      var (y, ok) := LegacyGrid.UndoMove(x, d);
      (Legacy(y), if ok then Pass else Fail(InvalidMove))
  }

  /** `get_value`: read-only, fails with `OutOfBounds` off the grid. */
  function GetValue(g: AnyGrid, p: Coords): (r: Result<nat, ErrorKind>)
    requires Rect(g)
    ensures g.Lib? ==> (r.Ok? <==> LibGrid.InBounds(g.lib, p))
    ensures g.Legacy? ==> (r.Ok? <==> LegacyGrid.InBounds(g.legacy, p))
    ensures r.Ok? ==> r.value == Data(g)[p.row][p.col]
    ensures r.Err? ==> r.error == OutOfBounds
  {
    match g
    case Lib(x) => LibGrid.GetValue(x, p)
    case Legacy(x) =>
      match LegacyGrid.GetValue(x, p)
      case Some(v) => Ok(v)
      case None => Err(OutOfBounds)
  }

  /** `set_value`: fallible per position; a refused write changes nothing. */
  function SetValue(g: AnyGrid, p: Coords, v: nat): (r: (AnyGrid, Outcome<ErrorKind>))
    requires Rect(g)
    ensures r.1 == Pass ==> Rect(r.0) && Dim(r.0) == Dim(g) && GetValue(r.0, p) == Ok(v)
    ensures r.1 != Pass ==> r == (g, Fail(OutOfBounds))
    ensures g.Lib? ==> (r.1 == Pass <==> LibGrid.InBounds(g.lib, p))
    ensures g.Legacy? ==> (r.1 == Pass <==> LegacyGrid.InBounds(g.legacy, p))
  {
    match g
    case Lib(x) =>
      var (y, o) := LibGrid.SetValue(x, p, v);
      (Lib(y), o)
    case Legacy(x) =>
      var (y, ok) := LegacyGrid.SetValue(x, p, v);
      (Legacy(y), if ok then Pass else Fail(OutOfBounds))
  }

  /** `from_2dvec`: load a layout. The earlier implementation cannot fail. */
  function From2DVec(g: AnyGrid, data: Layout): (r: (AnyGrid, Outcome<ErrorKind>))
    ensures Data(r.0) == data && r.0.Lib? == g.Lib?
    ensures g.Legacy? ==> r.1 == Pass && Dim(r.0) == Dim(g)
    ensures g.Lib? && r.1 == Pass ==> LibGrid.IsFirstZero(data, r.0.lib.zero)
  {
    match g
    case Lib(x) =>
      var (y, o) := LibGrid.From2DVec(x, data);
      (Lib(y), o)
    case Legacy(x) => (Legacy(LegacyGrid.From2DVec(x, data)), Pass)
  }

  /** `PartialEq`: layouts only. */
  predicate Equal(a: AnyGrid, b: AnyGrid) {
    Data(a) == Data(b)
  }

  /** The undo law every implementation keeps: undoing a successful move on
      a well-formed grid restores it exactly. */
  lemma UndoAfterDo(g: AnyGrid, d: Direction)
    requires Wf(g)
    requires DoMove(g, d).1 == Pass
    ensures UndoMove(DoMove(g, d).0, d) == (g, Pass)
  {
    match g
    case Lib(x) => LibGrid.UndoAfterDo(x, d);
    case Legacy(x) => LegacyGrid.UndoAfterDo(x, d);
  }

  /** The layout is a permutation of `0..width*height` at the grid's own size. */
  predicate Permuted(g: AnyGrid) {
    IsPermutationLayout(Data(g), Dim(g).1, Dim(g).0)
  }

  /** A successful move on a well-formed grid exchanges the blank with its
      neighbour, so a permutation layout stays a permutation layout. */
  lemma DoMoveKeepsPermutation(g: AnyGrid, d: Direction)
    requires Wf(g) && DoMove(g, d).1 == Pass && Permuted(g)
    ensures Permuted(DoMove(g, d).0)
  {
    match g
    case Lib(x) =>
      var y := LibGrid.DoMove(x, d).0;
      var t := LibGrid.Target(x, d);
      assert y.data[t.row][t.col] == 0;
      ExchangePermutation(x.data, y.data, x.height, x.width, (x.zero.row, x.zero.col), (t.row, t.col));
    case Legacy(x) =>
      var y := LegacyGrid.DoMove(x, d).0;
      var t := LegacyGrid.Target(x, d);
      assert y.data[t.row][t.col] == 0;
      ExchangePermutation(x.data, y.data, x.height, x.width, (x.zero.row, x.zero.col), (t.row, t.col));
  }
}
