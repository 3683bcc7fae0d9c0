/** The clockwise inward spiral walked by `snail_template`
    (src/npuzzle/generator.rs) and by `Board::fill_board`
    (src/npuzzle/board.rs): a cursor starts at the top-left corner heading
    right inside a shrinking box; when the next cell leaves the box it turns
    clockwise, drops the edge it has just finished from the box, and steps.
    Both callers write `1, 2, ..., w*h-1` along the walk and 0 last.

    The proofs show that the first `w*h` positions of the walk are the cells
    of the grid, each exactly once. */
module Spiral {
  import opened Bounds
  import opened Layout

  /** An index into the heading tables: right, down, left, up. */
  type Heading = i: int | 0 <= i < 4

  /** The tables `dir_col = [1, 0, -1, 0]` and `dir_row = [0, 1, 0, -1]`. */
  function DirCol(di: Heading): int {
    if di == 0 then 1 else if di == 2 then -1 else 0
  }

  function DirRow(di: Heading): int {
    if di == 1 then 1 else if di == 3 then -1 else 0
  }

  /** The loop state: the box corners `(left, top)` and `(right, bottom)`,
      the heading index `di` and the cursor `(col, row)`. */
  datatype State = State(left: int, top: int, right: int, bottom: int, di: Heading, col: int, row: int)

  function Start(width: nat, height: nat): State {
    State(0, 0, width - 1, height - 1, 0, 0, 0)
  }

  /** One pass of the loop after the write: move on inside the box, or turn
      clockwise, shrink the box by the finished edge, and move. */
  function Step(s: State): (r: State)
    ensures r.col - s.col == DirCol(r.di) && r.row - s.row == DirRow(r.di)
    ensures || (r.col == s.col && (r.row == s.row + 1 || r.row == s.row - 1))
            || (r.row == s.row && (r.col == s.col + 1 || r.col == s.col - 1))
    ensures r.di == s.di || r.di == (s.di + 1) % 4
  {
    var candidateCol := s.col + DirCol(s.di);
    var candidateRow := s.row + DirRow(s.di);
    if IsInBounds(candidateCol, candidateRow, (s.left, s.top), (s.right, s.bottom)) then
      s.(col := candidateCol, row := candidateRow)
    else
      var di: Heading := (s.di + 1) % 4;
      var shrunk :=
        if DirCol(di) + DirRow(di) > 0 then s.(left := s.left + DirCol(di), top := s.top + DirRow(di))
        else s.(right := s.right + DirCol(di), bottom := s.bottom + DirRow(di));
      shrunk.(di := di, col := s.col + DirCol(di), row := s.row + DirRow(di))
  }

  /** The state after `k` passes of the loop. */
  function Run(width: nat, height: nat, k: nat): State {
    if k == 0 then Start(width, height) else Step(Run(width, height, k - 1))
  }

  /** The value written at pass `i` of `n`: `i + 1`, and 0 at the last pass. */
  function Value(i: nat, n: nat): (v: nat)
    ensures i < n ==> v < n
    ensures v == 0 <==> i + 1 >= n
  {
    if i < n - 1 then i + 1 else 0
  }

  lemma ValueInjective(i: nat, j: nat, n: nat)
    requires i < n && j < n && Value(i, n) == Value(j, n)
    ensures i == j
  {
  }

  // ---------------------------------------------------------------------
  // The invariant of the walk.

  predicate InGrid(width: nat, height: nat, c: int, r: int) {
    0 <= c < width && 0 <= r < height
  }

  predicate InBox(s: State, c: int, r: int) {
    IsInBounds(c, r, (s.left, s.top), (s.right, s.bottom))
  }

  predicate NonEmpty(s: State) {
    s.left <= s.right && s.top <= s.bottom
  }

  function Area(s: State): int {
    (s.right - s.left + 1) * (s.bottom - s.top + 1)
  }

  /** The cells of the current edge already written, before the cursor. */
  predicate InSegment(s: State, c: int, r: int) {
    if s.di == 0 then r == s.top && s.left <= c < s.col
    else if s.di == 1 then c == s.right && s.top <= r < s.row
    else if s.di == 2 then r == s.bottom && s.col < c <= s.right
    else c == s.left && s.row < r <= s.bottom
  }

  function SegmentLength(s: State): int {
    if s.di == 0 then s.col - s.left
    else if s.di == 1 then s.row - s.top
    else if s.di == 2 then s.right - s.col
    else s.bottom - s.row
  }

  /** The cursor lies on the edge of the box its heading walks along. */
  predicate OnEdge(s: State) {
    if s.di == 0 then s.row == s.top && s.left <= s.col <= s.right
    else if s.di == 1 then s.col == s.right && s.top <= s.row <= s.bottom
    else if s.di == 2 then s.row == s.bottom && s.left <= s.col <= s.right
    else s.col == s.left && s.top <= s.row <= s.bottom
  }

  /** The cells written in the first passes: everything of the grid outside
      the box, and the finished part of the current edge. */
  predicate Visited(s: State, width: nat, height: nat, c: int, r: int) {
    InGrid(width, height, c, r) && (!InBox(s, c, r) || InSegment(s, c, r))
  }

  /** After `i` passes of a `width` x `height` walk: the box lies in the grid
      (possibly empty), the cursor is on its edge while it is not empty, and
      the cells not yet written number `width * height - i`. */
  predicate Inv(s: State, width: nat, height: nat, i: nat) {
    && 0 <= s.left <= s.right + 1 && s.right <= width - 1
    && 0 <= s.top <= s.bottom + 1 && s.bottom <= height - 1
    && 0 <= SegmentLength(s)
    && Area(s) - SegmentLength(s) == width * height - i
    && (NonEmpty(s) ==> OnEdge(s))
  }

  lemma MulSucc(a: int, b: int)
    ensures (a + 1) * b == a * b + b
    ensures a * (b + 1) == a * b + a
  {
  }

  lemma MulNonNeg(a: int, b: int)
    requires a >= 0 && b >= 0
    ensures a * b >= 0
    ensures a * b == 0 <==> a == 0 || b == 0
    ensures b >= 1 ==> a * b >= a
  {
    if b >= 1 {
      MulSucc(a, b - 1);
    }
  }

  lemma StartInv(width: nat, height: nat)
    ensures Inv(Start(width, height), width, height, 0)
  {
  }

  /** While cells remain, the box is not empty and the cursor stands on an
      unwritten cell of the grid. */
  lemma CursorFresh(s: State, width: nat, height: nat, i: nat)
    requires Inv(s, width, height, i) && i < width * height
    ensures NonEmpty(s) && OnEdge(s)
    ensures InGrid(width, height, s.col, s.row)
    ensures !Visited(s, width, height, s.col, s.row)
  {
    MulNonNeg(s.right - s.left + 1, s.bottom - s.top + 1);
  }

  /** Every cell of a non-empty box that is not yet written counts: the
      segment is shorter than the box's area. */
  lemma SegmentBelowArea(s: State)
    requires NonEmpty(s) && OnEdge(s)
    ensures SegmentLength(s) < Area(s)
  {
    var wBox, hBox := s.right - s.left + 1, s.bottom - s.top + 1;
    MulNonNeg(wBox, hBox);
    MulNonNeg(hBox, wBox);
  }

  /** One pass keeps the invariant. */
  lemma StepInv(s: State, width: nat, height: nat, i: nat)
    requires Inv(s, width, height, i) && i < width * height
    ensures Inv(Step(s), width, height, i + 1)
  {
    CursorFresh(s, width, height, i);
    var t := Step(s);
    var wBox, hBox := s.right - s.left + 1, s.bottom - s.top + 1;
    if IsInBounds(s.col + DirCol(s.di), s.row + DirRow(s.di), (s.left, s.top), (s.right, s.bottom)) {
      assert t == s.(col := s.col + DirCol(s.di), row := s.row + DirRow(s.di));
    } else if s.di == 0 {
      MulSucc(wBox, hBox - 1);
      assert Area(t) == wBox * (hBox - 1);
    } else if s.di == 1 {
      MulSucc(wBox - 1, hBox);
      assert Area(t) == (wBox - 1) * hBox;
    } else if s.di == 2 {
      MulSucc(wBox, hBox - 1);
      assert Area(t) == wBox * (hBox - 1);
    } else {
      MulSucc(wBox - 1, hBox);
      assert Area(t) == (wBox - 1) * hBox;
    }
  }

  /** One pass adds exactly the cursor's cell to the written cells. */
  lemma StepVisited(s: State, width: nat, height: nat, i: nat, c: int, r: int)
    requires Inv(s, width, height, i) && i < width * height
    ensures Visited(Step(s), width, height, c, r) <==>
      Visited(s, width, height, c, r) || (c == s.col && r == s.row)
  {
    CursorFresh(s, width, height, i);
  }

  /** The invariant holds after every pass up to `width * height`. */
  lemma {:induction false} RunInv(width: nat, height: nat, k: nat)
    requires k <= width * height
    ensures Inv(Run(width, height, k), width, height, k)
  {
    if k == 0 {
      StartInv(width, height);
    } else {
      RunInv(width, height, k - 1);
      StepInv(Run(width, height, k - 1), width, height, k - 1);
    }
  }

  /** The cells written after `k` passes: the cursor positions of the
      earlier passes. */
  ghost predicate WrittenBefore(width: nat, height: nat, k: nat, c: int, r: int) {
    exists j :: 0 <= j < k && Run(width, height, j).col == c && Run(width, height, j).row == r
  }

  lemma WrittenBeforeNext(width: nat, height: nat, k: nat, c: int, r: int)
    ensures WrittenBefore(width, height, k + 1, c, r) <==>
      WrittenBefore(width, height, k, c, r) || (Run(width, height, k).col == c && Run(width, height, k).row == r)
  {
    if WrittenBefore(width, height, k + 1, c, r) && !(Run(width, height, k).col == c && Run(width, height, k).row == r) {
      var j :| 0 <= j < k + 1 && Run(width, height, j).col == c && Run(width, height, j).row == r;
      assert j < k;
    }
  }

  /** The invariant's description of the written cells is exact: after `k`
      passes they are the cursor positions of the earlier passes. */
  lemma {:induction false} RunVisited(width: nat, height: nat, k: nat, c: int, r: int)
    requires k <= width * height
    ensures Visited(Run(width, height, k), width, height, c, r) <==> WrittenBefore(width, height, k, c, r)
  {
    if k == 0 {
      StartUnvisited(width, height, c, r);
    } else {
      var s := Run(width, height, k - 1);
      RunInv(width, height, k - 1);
      RunVisited(width, height, k - 1, c, r);
      StepVisited(s, width, height, k - 1, c, r);
      WrittenBeforeNext(width, height, k - 1, c, r);
      assert Run(width, height, k) == Step(s);
    }
  }

  /** Before the first pass nothing is written. */
  lemma StartUnvisited(width: nat, height: nat, c: int, r: int)
    ensures !Visited(Start(width, height), width, height, c, r)
    ensures !WrittenBefore(width, height, 0, c, r)
  {
  }

  // ---------------------------------------------------------------------
  // What the invariant gives: the walk is a path through every cell once.

  /** Each of the first `width * height` cursor positions is a grid cell. */
  lemma PathInGrid(width: nat, height: nat, k: nat)
    requires k < width * height
    ensures InGrid(width, height, Run(width, height, k).col, Run(width, height, k).row)
  {
    RunInv(width, height, k);
    CursorFresh(Run(width, height, k), width, height, k);
  }

  /** The walk never revisits a cell. */
  lemma PathDistinct(width: nat, height: nat, j: nat, k: nat)
    requires j < k < width * height
    ensures (Run(width, height, j).col, Run(width, height, j).row) != (Run(width, height, k).col, Run(width, height, k).row)
  {
    var c, r := Run(width, height, j).col, Run(width, height, j).row;
    RunInv(width, height, k);
    CursorFresh(Run(width, height, k), width, height, k);
    RunVisited(width, height, k, c, r);
    assert WrittenBefore(width, height, k, c, r);
  }

  /** The walk skips no cell. */
  lemma PathCovers(width: nat, height: nat, c: int, r: int)
    requires InGrid(width, height, c, r)
    ensures exists j :: 0 <= j < width * height && Run(width, height, j).col == c && Run(width, height, j).row == r
  {
    var n := width * height;
    RunInv(width, height, n);
    var s := Run(width, height, n);
    if NonEmpty(s) {
      SegmentBelowArea(s);
    }
    RunVisited(width, height, n, c, r);
  }

  // ---------------------------------------------------------------------
  // `snail_template`

  /** The cursor position `(col, row)` at each pass: the walk as a path. */
  function Path(width: nat, height: nat): nat -> (int, int) {
    (k: nat) => (Run(width, height, k).col, Run(width, height, k).row)
  }

  /** The first `width * height` points of `path` are distinct cells of
      the grid, so they are all its cells. */
  ghost predicate SimplePath(width: nat, height: nat, path: nat -> (int, int)) {
    && (forall j :: 0 <= j < width * height ==> InGrid(width, height, path(j).0, path(j).1))
    && (forall i, j :: 0 <= i < j < width * height ==> Apart(path, i, j))
  }

  /** Points `i` and `j` of `path` differ. Kept as a predicate of its own so
      that distinctness is only used for the pairs a proof names. */
  ghost predicate Apart(path: nat -> (int, int), i: nat, j: nat) {
    path(i) != path(j)
  }

  /** Every cell of the grid is one of the first `width * height` points. */
  ghost predicate Covers(width: nat, height: nat, path: nat -> (int, int)) {
    forall c, r :: InGrid(width, height, c, r) ==> exists j :: 0 <= j < width * height && path(j) == (c, r)
  }

  /** The spiral's first `width * height` points form a simple path through
      every cell. */
  lemma SpiralIsSimplePath(width: nat, height: nat)
    ensures SimplePath(width, height, Path(width, height))
    ensures Covers(width, height, Path(width, height))
  {
    var n, p := width * height, Path(width, height);
    forall j | 0 <= j < n
      ensures InGrid(width, height, p(j).0, p(j).1)
    {
      PathInGrid(width, height, j);
    }
    forall i, j | 0 <= i < j < n
      ensures Apart(p, i, j)
    {
      PathDistinct(width, height, i, j);
    }
    forall c, r | InGrid(width, height, c, r)
      ensures exists j :: 0 <= j < n && p(j) == (c, r)
    {
      PathCovers(width, height, c, r);
      var j :| 0 <= j < n && Run(width, height, j).col == c && Run(width, height, j).row == r;
      assert p(j) == (c, r);
    }
  }

  /** `height` rows of `width` zeros. */
  function Zeros(height: nat, width: nat): (r: Layout)
    ensures IsRect(r, height, width)
    ensures forall i, j :: 0 <= i < height && 0 <= j < width ==> r[i][j] == 0
  {
    seq(height, _ => seq(width, _ => 0))
  }

  /** The first `k` passes of the template loop, with the cursor positions
      taken from `path`: pass `j` writes `Value(j, width * height)` at
      `path(j)`. */
  function FillAlong(width: nat, height: nat, path: nat -> (int, int), k: nat): (r: Layout)
    requires k <= width * height && SimplePath(width, height, path)
    ensures IsRect(r, height, width)
    decreases k
  {
    if k == 0 then Zeros(height, width)
    else
      var (c, r) := path(k - 1);
      Update(FillAlong(width, height, path, k - 1), r, c, Value(k - 1, width * height))
  }

  /** After `k` passes the point of pass `j < k` holds the value written
      then: on a simple path no later pass writes there again. */
  lemma {:induction false} FillAlongAt(width: nat, height: nat, path: nat -> (int, int), k: nat, j: nat)
    requires j < k <= width * height && SimplePath(width, height, path)
    ensures FillAlong(width, height, path, k)[path(j).1][path(j).0] == Value(j, width * height)
  {
    if j < k - 1 {
      FillAlongAt(width, height, path, k - 1, j);
      assert Apart(path, j, k - 1);
    }
  }

  /** Every cell of a covering fill holds a value below `width * height`. */
  lemma FillAlongBounded(width: nat, height: nat, path: nat -> (int, int), r: int, c: int)
    requires SimplePath(width, height, path) && Covers(width, height, path)
    requires 0 <= r < height && 0 <= c < width
    ensures FillAlong(width, height, path, width * height)[r][c] < width * height
  {
    var n := width * height;
    assert InGrid(width, height, c, r);
    var j :| 0 <= j < n && path(j) == (c, r);
    FillAlongAt(width, height, path, n, j);
  }

  /** Two cells of a covering fill holding the same value are the same cell. */
  lemma FillAlongInjective(width: nat, height: nat, path: nat -> (int, int), r1: int, c1: int, r2: int, c2: int)
    requires SimplePath(width, height, path) && Covers(width, height, path)
    requires 0 <= r1 < height && 0 <= c1 < width && 0 <= r2 < height && 0 <= c2 < width
    requires FillAlong(width, height, path, width * height)[r1][c1] == FillAlong(width, height, path, width * height)[r2][c2]
    ensures r1 == r2 && c1 == c2
  {
    var n := width * height;
    assert InGrid(width, height, c1, r1) && InGrid(width, height, c2, r2);
    var j1 :| 0 <= j1 < n && path(j1) == (c1, r1);
    var j2 :| 0 <= j2 < n && path(j2) == (c2, r2);
    FillAlongAt(width, height, path, n, j1);
    FillAlongAt(width, height, path, n, j2);
    ValueInjective(j1, j2, n);
  }

  /** Filling a grid along a path through every cell once gives a
      permutation of `0..width*height`. */
  lemma FillAlongPermutation(width: nat, height: nat, path: nat -> (int, int))
    requires SimplePath(width, height, path) && Covers(width, height, path)
    ensures IsPermutationLayout(FillAlong(width, height, path, width * height), height, width)
  {
    var n := width * height;
    var g := FillAlong(width, height, path, n);
    forall r, c | 0 <= r < height && 0 <= c < width
      ensures g[r][c] < n
    {
      FillAlongBounded(width, height, path, r, c);
    }
    forall r1, c1, r2, c2 |
      0 <= r1 < height && 0 <= c1 < width && 0 <= r2 < height && 0 <= c2 < width && g[r1][c1] == g[r2][c2]
      ensures r1 == r2 && c1 == c2
    {
      FillAlongInjective(width, height, path, r1, c1, r2, c2);
    }
  }


  /** `snail_template(width, height)`: a permutation of `0..width*height`,
      so exactly one cell holds 0. The source needs `width, height >= 1`:
      it computes `width - 1` and `width * height - 1` in unsigned
      arithmetic. */
  function Snail(width: nat, height: nat): (r: Layout)
    requires 1 <= width && 1 <= height
    ensures IsPermutationLayout(r, height, width)
  {
    SpiralIsSimplePath(width, height);
    FillAlongPermutation(width, height, Path(width, height));
    FillAlong(width, height, Path(width, height), width * height)
  }

  /** The spiral order: pass `j` writes `j + 1` at the `j`-th cursor
      position, and the last position receives 0. */
  lemma SnailFollowsPath(width: nat, height: nat, j: nat)
    requires 1 <= width && 1 <= height && j < width * height
    ensures InGrid(width, height, Run(width, height, j).col, Run(width, height, j).row)
    ensures Snail(width, height)[Run(width, height, j).row][Run(width, height, j).col] ==
      if j < width * height - 1 then j + 1 else 0
  {
    SpiralIsSimplePath(width, height);
    FillAlongAt(width, height, Path(width, height), width * height, j);
  }

  /** Run follows any sequence of states that starts where the walk starts
      and moves by `Step`. */
  lemma {:induction false} RunFollows(width: nat, height: nat, walk: nat -> State, n: nat, k: nat)
    requires walk(0) == Start(width, height)
    requires forall j: nat :: j + 1 < n ==> Step(walk(j)) == walk(j + 1)
    requires k < n
    ensures Run(width, height, k) == walk(k)
  {
    if k > 0 {
      RunFollows(width, height, walk, n, k - 1);
    }
  }

  /** The states of the 5 x 5 walk, one per pass. */
  function FiveByFiveWalk(k: nat): (s: State)
    requires k < 25
    ensures 0 <= s.col < 5 && 0 <= s.row < 5
  {
    if k == 0 then State(0, 0, 4, 4, 0, 0, 0)
    else if k == 1 then State(0, 0, 4, 4, 0, 1, 0)
    else if k == 2 then State(0, 0, 4, 4, 0, 2, 0)
    else if k == 3 then State(0, 0, 4, 4, 0, 3, 0)
    else if k == 4 then State(0, 0, 4, 4, 0, 4, 0)
    else if k == 5 then State(0, 1, 4, 4, 1, 4, 1)
    else if k == 6 then State(0, 1, 4, 4, 1, 4, 2)
    else if k == 7 then State(0, 1, 4, 4, 1, 4, 3)
    else if k == 8 then State(0, 1, 4, 4, 1, 4, 4)
    else if k == 9 then State(0, 1, 3, 4, 2, 3, 4)
    else if k == 10 then State(0, 1, 3, 4, 2, 2, 4)
    else if k == 11 then State(0, 1, 3, 4, 2, 1, 4)
    else if k == 12 then State(0, 1, 3, 4, 2, 0, 4)
    else if k == 13 then State(0, 1, 3, 3, 3, 0, 3)
    else if k == 14 then State(0, 1, 3, 3, 3, 0, 2)
    else if k == 15 then State(0, 1, 3, 3, 3, 0, 1)
    else if k == 16 then State(1, 1, 3, 3, 0, 1, 1)
    else if k == 17 then State(1, 1, 3, 3, 0, 2, 1)
    else if k == 18 then State(1, 1, 3, 3, 0, 3, 1)
    else if k == 19 then State(1, 2, 3, 3, 1, 3, 2)
    else if k == 20 then State(1, 2, 3, 3, 1, 3, 3)
    else if k == 21 then State(1, 2, 2, 3, 2, 2, 3)
    else if k == 22 then State(1, 2, 2, 3, 2, 1, 3)
    else if k == 23 then State(1, 2, 2, 2, 3, 1, 2)
    else State(2, 2, 2, 2, 0, 2, 2)
  }

  lemma FiveByFiveWalkSteps0(k: nat)
    requires 0 <= k < 6
    ensures Step(FiveByFiveWalk(k)) == FiveByFiveWalk(k + 1)
  {
    if k == 0 {
      assert FiveByFiveWalk(0) == State(0, 0, 4, 4, 0, 0, 0);
    }
    else if k == 1 {
      assert FiveByFiveWalk(1) == State(0, 0, 4, 4, 0, 1, 0);
    }
    else if k == 2 {
      assert FiveByFiveWalk(2) == State(0, 0, 4, 4, 0, 2, 0);
    }
    else if k == 3 {
      assert FiveByFiveWalk(3) == State(0, 0, 4, 4, 0, 3, 0);
    }
    else if k == 4 {
      assert FiveByFiveWalk(4) == State(0, 0, 4, 4, 0, 4, 0);
    } else {
      assert FiveByFiveWalk(5) == State(0, 1, 4, 4, 1, 4, 1);
    }
  }

  lemma FiveByFiveWalkSteps1(k: nat)
    requires 6 <= k < 12
    ensures Step(FiveByFiveWalk(k)) == FiveByFiveWalk(k + 1)
  {
    if k == 6 {
      assert FiveByFiveWalk(6) == State(0, 1, 4, 4, 1, 4, 2);
    }
    else if k == 7 {
      assert FiveByFiveWalk(7) == State(0, 1, 4, 4, 1, 4, 3);
    }
    else if k == 8 {
      assert FiveByFiveWalk(8) == State(0, 1, 4, 4, 1, 4, 4);
    }
    else if k == 9 {
      assert FiveByFiveWalk(9) == State(0, 1, 3, 4, 2, 3, 4);
    }
    else if k == 10 {
      assert FiveByFiveWalk(10) == State(0, 1, 3, 4, 2, 2, 4);
    } else {
      assert FiveByFiveWalk(11) == State(0, 1, 3, 4, 2, 1, 4);
    }
  }

  lemma FiveByFiveWalkSteps2(k: nat)
    requires 12 <= k < 18
    ensures Step(FiveByFiveWalk(k)) == FiveByFiveWalk(k + 1)
  {
    if k == 12 {
      assert FiveByFiveWalk(12) == State(0, 1, 3, 4, 2, 0, 4);
    }
    else if k == 13 {
      assert FiveByFiveWalk(13) == State(0, 1, 3, 3, 3, 0, 3);
    }
    else if k == 14 {
      assert FiveByFiveWalk(14) == State(0, 1, 3, 3, 3, 0, 2);
    }
    else if k == 15 {
      assert FiveByFiveWalk(15) == State(0, 1, 3, 3, 3, 0, 1);
    }
    else if k == 16 {
      assert FiveByFiveWalk(16) == State(1, 1, 3, 3, 0, 1, 1);
    } else {
      assert FiveByFiveWalk(17) == State(1, 1, 3, 3, 0, 2, 1);
    }
  }

  lemma FiveByFiveWalkSteps3(k: nat)
    requires 18 <= k < 24
    ensures Step(FiveByFiveWalk(k)) == FiveByFiveWalk(k + 1)
  {
    if k == 18 {
      assert FiveByFiveWalk(18) == State(1, 1, 3, 3, 0, 3, 1);
    }
    else if k == 19 {
      assert FiveByFiveWalk(19) == State(1, 2, 3, 3, 1, 3, 2);
    }
    else if k == 20 {
      assert FiveByFiveWalk(20) == State(1, 2, 3, 3, 1, 3, 3);
    }
    else if k == 21 {
      assert FiveByFiveWalk(21) == State(1, 2, 2, 3, 2, 2, 3);
    }
    else if k == 22 {
      assert FiveByFiveWalk(22) == State(1, 2, 2, 3, 2, 1, 3);
    } else {
      assert FiveByFiveWalk(23) == State(1, 2, 2, 2, 3, 1, 2);
    }
  }

  lemma FiveByFiveWalkSteps(k: nat)
    requires k < 24
    ensures Step(FiveByFiveWalk(k)) == FiveByFiveWalk(k + 1)
  {
    if k < 6 {
      FiveByFiveWalkSteps0(k);
    } else if k < 12 {
      FiveByFiveWalkSteps1(k);
    } else if k < 18 {
      FiveByFiveWalkSteps2(k);
    } else {
      FiveByFiveWalkSteps3(k);
    }
  }

  lemma RunFiveByFive(width: nat, height: nat, k: nat)
    requires width == 5 && height == 5 && k < 25
    ensures Run(width, height, k) == FiveByFiveWalk(k)
  {
    var walk := (j: nat) => if j < 25 then FiveByFiveWalk(j) else Start(width, height);
    forall j: nat | j + 1 < 25
      ensures Step(walk(j)) == walk(j + 1)
    {
      FiveByFiveWalkSteps(j);
    }
    RunFollows(width, height, walk, 25, k);
  }

  /** The expected 5 x 5 layout: 1 to 24 spiralling inward clockwise from
      the top-left corner, the blank in the centre. */
  function RingFiveByFive(): Layout {
    [[1, 2, 3, 4, 5],
     [16, 17, 18, 19, 6],
     [15, 24, 0, 20, 7],
     [14, 23, 22, 21, 8],
     [13, 12, 11, 10, 9]]
  }

  /** A 5 x 5 layout holding `Value(k, 25)` at the walk's `k`-th cell, for
      every `k`, is the ring layout. */
  lemma WalkLayoutFiveByFive(s: Layout)
    requires IsRect(s, 5, 5)
    requires forall k: nat :: k < 25 ==> s[FiveByFiveWalk(k).row][FiveByFiveWalk(k).col] == Value(k, 25)
    ensures s == RingFiveByFive()
  {
    var e :=
    [[1, 2, 3, 4, 5],
     [16, 17, 18, 19, 6],
     [15, 24, 0, 20, 7],
     [14, 23, 22, 21, 8],
     [13, 12, 11, 10, 9]];
    forall i | 0 <= i < 5
      ensures |e[i]| == 5
    {
      if i == 0 {} else if i == 1 {} else if i == 2 {} else if i == 3 {} else {}
    }
    forall i, j | 0 <= i < 5 && 0 <= j < 5
      ensures s[i][j] == e[i][j]
    {
      if (i, j) == (0, 0) {
        assert FiveByFiveWalk(0) == State(0, 0, 4, 4, 0, 0, 0);
      }
      else if (i, j) == (0, 1) {
        assert FiveByFiveWalk(1) == State(0, 0, 4, 4, 0, 1, 0);
      }
      else if (i, j) == (0, 2) {
        assert FiveByFiveWalk(2) == State(0, 0, 4, 4, 0, 2, 0);
      }
      else if (i, j) == (0, 3) {
        assert FiveByFiveWalk(3) == State(0, 0, 4, 4, 0, 3, 0);
      }
      else if (i, j) == (0, 4) {
        assert FiveByFiveWalk(4) == State(0, 0, 4, 4, 0, 4, 0);
      }
      else if (i, j) == (1, 4) {
        assert FiveByFiveWalk(5) == State(0, 1, 4, 4, 1, 4, 1);
      }
      else if (i, j) == (2, 4) {
        assert FiveByFiveWalk(6) == State(0, 1, 4, 4, 1, 4, 2);
      }
      else if (i, j) == (3, 4) {
        assert FiveByFiveWalk(7) == State(0, 1, 4, 4, 1, 4, 3);
      }
      else if (i, j) == (4, 4) {
        assert FiveByFiveWalk(8) == State(0, 1, 4, 4, 1, 4, 4);
      }
      else if (i, j) == (4, 3) {
        assert FiveByFiveWalk(9) == State(0, 1, 3, 4, 2, 3, 4);
      }
      else if (i, j) == (4, 2) {
        assert FiveByFiveWalk(10) == State(0, 1, 3, 4, 2, 2, 4);
      }
      else if (i, j) == (4, 1) {
        assert FiveByFiveWalk(11) == State(0, 1, 3, 4, 2, 1, 4);
      }
      else if (i, j) == (4, 0) {
        assert FiveByFiveWalk(12) == State(0, 1, 3, 4, 2, 0, 4);
      }
      else if (i, j) == (3, 0) {
        assert FiveByFiveWalk(13) == State(0, 1, 3, 3, 3, 0, 3);
      }
      else if (i, j) == (2, 0) {
        assert FiveByFiveWalk(14) == State(0, 1, 3, 3, 3, 0, 2);
      }
      else if (i, j) == (1, 0) {
        assert FiveByFiveWalk(15) == State(0, 1, 3, 3, 3, 0, 1);
      }
      else if (i, j) == (1, 1) {
        assert FiveByFiveWalk(16) == State(1, 1, 3, 3, 0, 1, 1);
      }
      else if (i, j) == (1, 2) {
        assert FiveByFiveWalk(17) == State(1, 1, 3, 3, 0, 2, 1);
      }
      else if (i, j) == (1, 3) {
        assert FiveByFiveWalk(18) == State(1, 1, 3, 3, 0, 3, 1);
      }
      else if (i, j) == (2, 3) {
        assert FiveByFiveWalk(19) == State(1, 2, 3, 3, 1, 3, 2);
      }
      else if (i, j) == (3, 3) {
        assert FiveByFiveWalk(20) == State(1, 2, 3, 3, 1, 3, 3);
      }
      else if (i, j) == (3, 2) {
        assert FiveByFiveWalk(21) == State(1, 2, 2, 3, 2, 2, 3);
      }
      else if (i, j) == (3, 1) {
        assert FiveByFiveWalk(22) == State(1, 2, 2, 3, 2, 1, 3);
      }
      else if (i, j) == (2, 1) {
        assert FiveByFiveWalk(23) == State(1, 2, 2, 2, 3, 1, 2);
      }
      else if (i, j) == (2, 2) {
        assert FiveByFiveWalk(24) == State(2, 2, 2, 2, 0, 2, 2);
      }
    }
    Extensionality(s, e, 5, 5);
  }

  /** One cell of a 5 x 5 fill along a path that agrees with the walk at `k`. */
  lemma FillCellFiveByFive(width: nat, height: nat, path: nat -> (int, int), k: nat)
    requires width == 5 && height == 5 && k < 25
    requires SimplePath(width, height, path)
    requires path(k) == (FiveByFiveWalk(k).col, FiveByFiveWalk(k).row)
    ensures FillAlong(width, height, path, width * height)
              [FiveByFiveWalk(k).row][FiveByFiveWalk(k).col] == Value(k, 25)
  {
    assert width * height == 25;
    FillAlongAt(width, height, path, width * height, k);
  }

  lemma FillAlongFiveByFive(width: nat, height: nat, path: nat -> (int, int))
    requires width == 5 && height == 5
    requires SimplePath(width, height, path)
    requires forall k: nat :: k < 25 ==> path(k) == (FiveByFiveWalk(k).col, FiveByFiveWalk(k).row)
    ensures forall k: nat :: k < 25 ==>
      FillAlong(width, height, path, width * height)
        [FiveByFiveWalk(k).row][FiveByFiveWalk(k).col] == Value(k, 25)
  {
    forall k: nat | k < 25
      ensures FillAlong(width, height, path, width * height)
                [FiveByFiveWalk(k).row][FiveByFiveWalk(k).col] == Value(k, 25)
    {
      FillCellFiveByFive(width, height, path, k);
    }
  }

  lemma PathFiveByFive(width: nat, height: nat)
    requires width == 5 && height == 5
    ensures forall k: nat :: k < 25 ==> Path(width, height)(k) == (FiveByFiveWalk(k).col, FiveByFiveWalk(k).row)
  {
    forall k: nat | k < 25
      ensures Path(width, height)(k) == (FiveByFiveWalk(k).col, FiveByFiveWalk(k).row)
    {
      RunFiveByFive(width, height, k);
    }
  }

  lemma SpiralFillFiveByFive(width: nat, height: nat)
    requires width == 5 && height == 5
    requires SimplePath(width, height, Path(width, height))
    ensures FillAlong(width, height, Path(width, height), width * height) == RingFiveByFive()
  {
    PathFiveByFive(width, height);
    FillAlongFiveByFive(width, height, Path(width, height));
    WalkLayoutFiveByFive(FillAlong(width, height, Path(width, height), width * height));
  }

  /** The 5 x 5 snail is the ring layout with the blank in the centre. */
  lemma SnailFiveByFive(width: nat, height: nat)
    requires width == 5 && height == 5
    ensures Snail(width, height) == RingFiveByFive()
  {
    assert SimplePath(width, height, Path(width, height)) by {
      SpiralIsSimplePath(width, height);
    }
    SpiralFillFiveByFive(width, height);
  }
}
