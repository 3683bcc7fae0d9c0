/** The solved layouts the generator starts from (`PuzzleType` and the three
    template builders of src/npuzzle/generator.rs): the snail spiral, the
    row-major order with the blank first (`Lines00`), and the row-major
    order with the blank last (`LinesNN`). Each is a permutation of
    `0..width*height`. */
module Templates {
  import opened Layout
  import Spiral

  datatype PuzzleType = Snail | Lines00 | LinesNN

  lemma ModBelow(x: nat, n: nat)
    requires x < n
    ensures x % n == x
  {
  }

  lemma ModSelf(n: nat)
    requires n > 0
    ensures n % n == 0
  {
  }

  /** `lines00_template`: `row * width + col` at (row, col). */
  function Lines00(width: nat, height: nat): (r: Layout)
    ensures IsRect(r, height, width)
  {
    seq(height, row => seq(width, col => row * width + col))
  }

  /** `linesnn_template`: `(row * width + col + 1) % (width * height)` at
      (row, col). The loop body only runs when there is a cell, so the
      modulus is never 0 where it is taken. */
  function LinesNN(width: nat, height: nat): (r: Layout)
    ensures IsRect(r, height, width)
  {
    seq(height, row requires 0 <= row < height =>
      seq(width, col requires 0 <= col < width => (row * width + col + 1) % (width * height)))
  }

  /** Read in row-major order, `Lines00` is `0, 1, 2, ...`: the cell with
      flat index `i` holds `i`. */
  lemma Lines00RowMajor(width: nat, height: nat, i: nat)
    requires i < height * width
    ensures |Flatten(Lines00(width, height))| == height * width
    ensures Flatten(Lines00(width, height))[i] == i
  {
    FlattenAt(Lines00(width, height), height, width, i);
    DivModBounds(i, height, width);
  }

  /** Read in row-major order, `LinesNN` writes the same values as the
      snail spiral writes along its walk: `i + 1` at the `i`-th cell, and
      0 at the last one. */
  lemma LinesNNRowMajor(width: nat, height: nat, i: nat)
    requires i < height * width
    ensures |Flatten(LinesNN(width, height))| == height * width
    ensures Flatten(LinesNN(width, height))[i] == Spiral.Value(i, width * height)
  {
    FlattenAt(LinesNN(width, height), height, width, i);
    DivModBounds(i, height, width);
    MulComm(width, height);
    LinesNNCell(width, height, i / width, i % width);
  }

  /** `LinesNN` is `Lines00` with every value raised by one, wrapping the
      largest to 0: the blank moves from the first cell to the last. */
  lemma LinesNNCell(width: nat, height: nat, row: nat, col: nat)
    requires row < height && col < width
    ensures LinesNN(width, height)[row][col] == Spiral.Value(Lines00(width, height)[row][col], width * height)
  {
    RowMajorBound(height, width, row, col);
    var i, n := row * width + col, width * height;
    assert LinesNN(width, height)[row][col] == (i + 1) % n;
    if i + 1 < n {
      ModBelow(i + 1, n);
    } else {
      ModSelf(n);
    }
  }

  lemma Lines00Permutation(width: nat, height: nat)
    ensures IsPermutationLayout(Lines00(width, height), height, width)
  {
    var r := Lines00(width, height);
    forall row, col | 0 <= row < height && 0 <= col < width
      ensures r[row][col] < width * height
    {
      RowMajorBound(height, width, row, col);
    }
    forall r1, c1, r2, c2 |
      0 <= r1 < height && 0 <= c1 < width && 0 <= r2 < height && 0 <= c2 < width && r[r1][c1] == r[r2][c2]
      ensures r1 == r2 && c1 == c2
    {
      RowMajorInjective(width, r1, c1, r2, c2);
    }
  }

  lemma LinesNNPermutation(width: nat, height: nat)
    ensures IsPermutationLayout(LinesNN(width, height), height, width)
  {
    var r := LinesNN(width, height);
    forall row, col | 0 <= row < height && 0 <= col < width
      ensures r[row][col] < width * height
    {
      LinesNNCell(width, height, row, col);
      RowMajorBound(height, width, row, col);
    }
    forall r1, c1, r2, c2 |
      0 <= r1 < height && 0 <= c1 < width && 0 <= r2 < height && 0 <= c2 < width && r[r1][c1] == r[r2][c2]
      ensures r1 == r2 && c1 == c2
    {
      LinesNNCell(width, height, r1, c1);
      LinesNNCell(width, height, r2, c2);
      RowMajorBound(height, width, r1, c1);
      RowMajorBound(height, width, r2, c2);
      Spiral.ValueInjective(r1 * width + c1, r2 * width + c2, width * height);
      RowMajorInjective(width, r1, c1, r2, c2);
    }
  }

  /** `Lines00` keeps the blank in the top-left cell. */
  lemma Lines00BlankFirst(width: nat, height: nat, row: nat, col: nat)
    requires row < height && col < width
    ensures Lines00(width, height)[row][col] == 0 <==> row == 0 && col == 0
  {
    if Lines00(width, height)[row][col] == 0 {
      RowMajorInjective(width, row, col, 0, 0);
    }
  }

  /** `LinesNN` keeps the blank in the bottom-right cell. */
  lemma LinesNNBlankLast(width: nat, height: nat, row: nat, col: nat)
    requires row < height && col < width
    ensures LinesNN(width, height)[row][col] == 0 <==> row == height - 1 && col == width - 1
  {
    LinesNNCell(width, height, row, col);
    RowMajorBound(height, width, row, col);
    assert (height - 1) * width + (width - 1) + 1 == width * height;
    if row * width + col + 1 == width * height {
      RowMajorInjective(width, row, col, height - 1, width - 1);
    }
  }

  /** The snail spiral needs at least one row and one column; the line
      templates build an empty layout for an empty grid. */
  predicate Supports(t: PuzzleType, width: nat, height: nat) {
    t.Snail? ==> 1 <= width && 1 <= height
  }

  /** `PuzzleType::get_template`: a `height` x `width` permutation layout. */
  function GetTemplate(t: PuzzleType, width: nat, height: nat): (r: Layout)
    requires Supports(t, width, height)
    ensures IsPermutationLayout(r, height, width)
    ensures t.Snail? ==> r == Spiral.Snail(width, height)
    ensures t.Lines00? ==> forall row, col :: 0 <= row < height && 0 <= col < width ==>
      (r[row][col] == 0 <==> row == 0 && col == 0)
    ensures t.LinesNN? ==> forall row, col :: 0 <= row < height && 0 <= col < width ==>
      (r[row][col] == 0 <==> row == height - 1 && col == width - 1)
  {
    match t
    case Snail => Spiral.Snail(width, height)
    case Lines00 =>
      Lines00Permutation(width, height);
      forall row: nat, col: nat | row < height && col < width
        ensures Lines00(width, height)[row][col] == 0 <==> row == 0 && col == 0
      {
        Lines00BlankFirst(width, height, row, col);
      }
      Lines00(width, height)
    case LinesNN =>
      LinesNNPermutation(width, height);
      forall row: nat, col: nat | row < height && col < width
        ensures LinesNN(width, height)[row][col] == 0 <==> row == height - 1 && col == width - 1
      {
        LinesNNBlankLast(width, height, row, col);
      }
      LinesNN(width, height)
  }

  /** Where each template puts the blank: top-left for `Lines00`,
      bottom-right for `LinesNN`, the end of the spiral for `Snail`. */
  function Blank(t: PuzzleType, width: nat, height: nat): (p: (nat, nat))
    requires 1 <= width && 1 <= height
    ensures p.0 < height && p.1 < width
    ensures GetTemplate(t, width, height)[p.0][p.1] == 0
  {
    BlankCell(t, width, height);
    match t
    case Lines00 => (0, 0)
    case LinesNN => (height - 1, width - 1)
    case Snail => (SpiralEnd(width, height).row, SpiralEnd(width, height).col)
  }

  /** The cursor's position at the last pass of the spiral walk. */
  function SpiralEnd(width: nat, height: nat): Spiral.State
    requires 1 <= width && 1 <= height
  {
    Spiral.Run(width, height, width * height - 1)
  }

  lemma BlankCell(t: PuzzleType, width: nat, height: nat)
    requires 1 <= width && 1 <= height
    ensures t.Lines00? ==> GetTemplate(t, width, height)[0][0] == 0
    ensures t.LinesNN? ==> GetTemplate(t, width, height)[height - 1][width - 1] == 0
    ensures t.Snail? ==>
      && 0 <= SpiralEnd(width, height).row < height && 0 <= SpiralEnd(width, height).col < width
      && GetTemplate(t, width, height)[SpiralEnd(width, height).row][SpiralEnd(width, height).col] == 0
  {
    match t
    case Lines00 => Lines00BlankFirst(width, height, 0, 0);
    case LinesNN => LinesNNBlankLast(width, height, height - 1, width - 1);
    case Snail => Spiral.SnailFollowsPath(width, height, width * height - 1);
  }

  // ---- the 5 x 5 layouts the generator's tests expect ------------------

  lemma Lines00FiveByFive()
    ensures Lines00(5, 5) == [[0, 1, 2, 3, 4], [5, 6, 7, 8, 9], [10, 11, 12, 13, 14],
                              [15, 16, 17, 18, 19], [20, 21, 22, 23, 24]]
  {
    var t := Lines00(5, 5);
    assert t[0] == [0, 1, 2, 3, 4];
    assert t[1] == [5, 6, 7, 8, 9];
    assert t[2] == [10, 11, 12, 13, 14];
    assert t[3] == [15, 16, 17, 18, 19];
    assert t[4] == [20, 21, 22, 23, 24];
  }

  lemma LinesNNFiveByFive()
    ensures LinesNN(5, 5) == [[1, 2, 3, 4, 5], [6, 7, 8, 9, 10], [11, 12, 13, 14, 15],
                              [16, 17, 18, 19, 20], [21, 22, 23, 24, 0]]
  {
    var t := LinesNN(5, 5);
    assert t[0] == [1, 2, 3, 4, 5];
    assert t[1] == [6, 7, 8, 9, 10];
    assert t[2] == [11, 12, 13, 14, 15];
    assert t[3] == [16, 17, 18, 19, 20];
    assert t[4] == [21, 22, 23, 24, 0];
  }

  lemma SnailTemplateFiveByFive(width: nat, height: nat)
    requires width == 5 && height == 5
    ensures GetTemplate(Snail, width, height) == [[1, 2, 3, 4, 5], [16, 17, 18, 19, 6], [15, 24, 0, 20, 7],
                                                  [14, 23, 22, 21, 8], [13, 12, 11, 10, 9]]
  {
    Spiral.SnailFiveByFive(width, height);
  }
}
