/** Two-dimensional layouts (`Vec<Vec<usize>>`) and the shape and
    permutation facts shared by the grids, templates and the flat board. */
module Layout {

  type Layout = seq<seq<nat>>

  /** `height` rows of `width` cells each. */
  predicate IsRect(data: Layout, height: nat, width: nat) {
    |data| == height && forall r :: 0 <= r < |data| ==> |data[r]| == width
  }

  /** Writes `v` at (row, col), leaving every other cell alone. */
  function Update(data: Layout, row: nat, col: nat, v: nat): (r: Layout)
    requires row < |data| && col < |data[row]|
    ensures |r| == |data|
    ensures forall i :: 0 <= i < |r| ==> |r[i]| == |data[i]|
    ensures r[row][col] == v
    ensures forall i, j :: 0 <= i < |r| && 0 <= j < |r[i]| && (i, j) != (row, col) ==> r[i][j] == data[i][j]
  {
    var line: seq<nat> := data[row][col := v];
    data[row := line]
  }

  /** Row-major concatenation of the rows. */
  function Flatten(data: Layout): (r: seq<nat>)
  {
    if |data| == 0 then [] else data[0] + Flatten(data[1..])
  }

  lemma {:induction false} FlattenIndex(data: Layout, height: nat, width: nat, row: nat, col: nat)
    requires IsRect(data, height, width)
    requires row < height && col < width
    ensures |Flatten(data)| == height * width
    ensures row * width + col < height * width
    ensures Flatten(data)[row * width + col] == data[row][col]
  {
    FlattenLength(data, height, width);
    if row == 0 {
      assert Flatten(data) == data[0] + Flatten(data[1..]);
    } else {
      FlattenIndex(data[1..], height - 1, width, row - 1, col);
      assert Flatten(data) == data[0] + Flatten(data[1..]);
      assert row * width + col == width + ((row - 1) * width + col);
    }
  }

  lemma {:induction false} FlattenLength(data: Layout, height: nat, width: nat)
    requires IsRect(data, height, width)
    ensures |Flatten(data)| == height * width
  {
    if height > 0 {
      FlattenLength(data[1..], height - 1, width);
    }
  }

  /** Every cell of a `width` x `height` layout holds a value below
      `width * height` and no two cells hold the same value: the layout is a
      permutation of `0..width*height`, so exactly one cell holds 0. */
  predicate IsPermutationLayout(data: Layout, height: nat, width: nat) {
    && IsRect(data, height, width)
    && ValuesBelow(data, height, width)
    && (forall r1, c1, r2, c2 ::
          (0 <= r1 < height && 0 <= c1 < width && 0 <= r2 < height && 0 <= c2 < width &&
           data[r1][c1] == data[r2][c2]) ==> r1 == r2 && c1 == c2)
  }

  predicate ValuesBelow(data: Layout, height: nat, width: nat)
    requires IsRect(data, height, width)
  {
    forall r, c :: 0 <= r < height && 0 <= c < width ==> data[r][c] < width * height
  }

  /** A flat vector that is a permutation of `0..n`. */
  predicate IsPermutation(s: seq<nat>, n: nat) {
    && |s| == n
    && (forall i :: 0 <= i < |s| ==> s[i] < n)
    && (forall i, j :: 0 <= i < j < |s| ==> s[i] != s[j])
  }

  /** Flattening a permutation layout gives a flat permutation. */
  lemma FlattenPermutation(data: Layout, height: nat, width: nat)
    requires IsPermutationLayout(data, height, width)
    ensures IsPermutation(Flatten(data), height * width)
  {
    FlattenLength(data, height, width);
    var f := Flatten(data);
    forall i | 0 <= i < |f|
      ensures f[i] < height * width
    {
      FlattenBounded(data, height, width, i);
    }
    forall i, j | 0 <= i < j < |f|
      ensures f[i] != f[j]
    {
      FlattenDistinctPair(data, height, width, i, j);
    }
  }

  /** Flat index `i` is row `i / width`, column `i % width`. */
  lemma FlattenAt(data: Layout, height: nat, width: nat, i: nat)
    requires IsRect(data, height, width)
    requires i < height * width
    ensures |Flatten(data)| == height * width
    ensures i / width < height && i % width < width
    ensures Flatten(data)[i] == data[i / width][i % width]
  {
    DivModBounds(i, height, width);
    FlattenIndex(data, height, width, i / width, i % width);
  }

  lemma FlattenBounded(data: Layout, height: nat, width: nat, i: nat)
    requires IsRect(data, height, width) && ValuesBelow(data, height, width)
    requires i < height * width
    ensures |Flatten(data)| == height * width
    ensures Flatten(data)[i] < height * width
  {
    FlattenAt(data, height, width, i);
    MulComm(width, height);
  }

  lemma MulComm(a: int, b: int)
    ensures a * b == b * a
  {
  }

  lemma FlattenDistinctPair(data: Layout, height: nat, width: nat, i: nat, j: nat)
    requires IsPermutationLayout(data, height, width)
    requires i < j < height * width
    ensures |Flatten(data)| == height * width
    ensures Flatten(data)[i] != Flatten(data)[j]
  {
    FlattenAt(data, height, width, i);
    FlattenAt(data, height, width, j);
    DivModBounds(i, height, width);
    DivModBounds(j, height, width);
    assert (i / width, i % width) != (j / width, j % width);
  }

  /** Splitting a flat index below `height * width` into a row and a column. */
  lemma DivModBounds(i: nat, height: nat, width: nat)
    requires i < height * width
    ensures width > 0
    ensures i / width < height && i % width < width
    ensures (i / width) * width + i % width == i
  {
    var q := i / width;
    assert q * width <= i;
  }

  /** Exactly one cell of a permutation layout with at least one cell is 0. */
  predicate HasUniqueZero(data: Layout, height: nat, width: nat)
    requires IsRect(data, height, width)
  {
    && (exists r, c :: 0 <= r < height && 0 <= c < width && data[r][c] == 0)
    && (forall r1, c1, r2, c2 ::
          (0 <= r1 < height && 0 <= c1 < width && 0 <= r2 < height && 0 <= c2 < width &&
           data[r1][c1] == 0 && data[r2][c2] == 0) ==> r1 == r2 && c1 == c2)
  }

  /** `a` and `b` agree on every cell of the `height` x `width` box except
      the listed (row, col) cells. */
  predicate SameOutside(a: Layout, b: Layout, height: nat, width: nat, except: set<(int, int)>)
    requires IsRect(a, height, width) && IsRect(b, height, width)
  {
    forall i, j :: 0 <= i < height && 0 <= j < width && (i, j) !in except ==> a[i][j] == b[i][j]
  }

  /** Two rectangular layouts of the same shape that agree on every cell are equal. */
  lemma Extensionality(a: Layout, b: Layout, height: nat, width: nat)
    requires IsRect(a, height, width) && IsRect(b, height, width)
    requires SameOutside(a, b, height, width, {})
    ensures a == b
  {
    forall i | 0 <= i < height
      ensures a[i] == b[i]
    {
      assert forall j :: 0 <= j < width ==> a[i][j] == b[i][j];
    }
  }

  /** The cell that `p` is exchanged with when the cells `p1` and `p2`
      trade places. */
  function Exchange(p: (int, int), p1: (int, int), p2: (int, int)): (int, int) {
    if p == p1 then p2 else if p == p2 then p1 else p
  }

  /** Exchanging the contents of two cells of a permutation layout leaves a
      permutation layout. */
  lemma ExchangePermutation(a: Layout, b: Layout, height: nat, width: nat, p1: (int, int), p2: (int, int))
    requires IsPermutationLayout(a, height, width) && IsRect(b, height, width)
    requires 0 <= p1.0 < height && 0 <= p1.1 < width && 0 <= p2.0 < height && 0 <= p2.1 < width
    requires b[p1.0][p1.1] == a[p2.0][p2.1] && b[p2.0][p2.1] == a[p1.0][p1.1]
    requires SameOutside(b, a, height, width, {p1, p2})
    ensures IsPermutationLayout(b, height, width)
  {
    forall r, c | 0 <= r < height && 0 <= c < width
      ensures b[r][c] < width * height
    {
      ExchangeCell(a, b, height, width, p1, p2, r, c);
    }
    forall r1, c1, r2, c2 |
      0 <= r1 < height && 0 <= c1 < width && 0 <= r2 < height && 0 <= c2 < width && b[r1][c1] == b[r2][c2]
      ensures r1 == r2 && c1 == c2
    {
      ExchangeCell(a, b, height, width, p1, p2, r1, c1);
      ExchangeCell(a, b, height, width, p1, p2, r2, c2);
    }
  }

  /** After the exchange, cell (r, c) holds what its partner held before. */
  lemma ExchangeCell(a: Layout, b: Layout, height: nat, width: nat, p1: (int, int), p2: (int, int), r: int, c: int)
    requires IsRect(a, height, width) && IsRect(b, height, width)
    requires 0 <= p1.0 < height && 0 <= p1.1 < width && 0 <= p2.0 < height && 0 <= p2.1 < width
    requires b[p1.0][p1.1] == a[p2.0][p2.1] && b[p2.0][p2.1] == a[p1.0][p1.1]
    requires SameOutside(b, a, height, width, {p1, p2})
    requires 0 <= r < height && 0 <= c < width
    ensures 0 <= Exchange((r, c), p1, p2).0 < height && 0 <= Exchange((r, c), p1, p2).1 < width
    ensures b[r][c] == a[Exchange((r, c), p1, p2).0][Exchange((r, c), p1, p2).1]
    ensures Exchange(Exchange((r, c), p1, p2), p1, p2) == (r, c)
  {
  }

  /** Cell (row, col) is the `row * width + col`-th cell in row-major order. */
  lemma RowMajorDivMod(width: nat, row: nat, col: nat)
    requires col < width
    ensures (row * width + col) / width == row
    ensures (row * width + col) % width == col
  {
    DivModUnique(row * width + col, width, row, col);
  }

  /** Quotient and remainder are the only pair with `q * w + m == i` and
      `0 <= m < w`. */
  lemma DivModUnique(i: nat, w: nat, q: nat, m: nat)
    requires m < w && i == q * w + m
    ensures i / w == q && i % w == m
  {
    var q', m' := i / w, i % w;
    assert q' * w + m' == q * w + m;
    if q' < q {
      assert (q - q') * w == q * w - q' * w;
      MulAtLeast(q - q', w);
    } else if q' > q {
      assert (q' - q) * w == q' * w - q * w;
      MulAtLeast(q' - q, w);
    }
  }

  lemma MulAtLeast(a: nat, w: nat)
    requires a >= 1
    ensures a * w >= w
  {
  }

  /** Row-major indices of distinct cells are distinct. */
  lemma RowMajorInjective(width: nat, r1: nat, c1: nat, r2: nat, c2: nat)
    requires c1 < width && c2 < width
    requires r1 * width + c1 == r2 * width + c2
    ensures r1 == r2 && c1 == c2
  {
    RowMajorDivMod(width, r1, c1);
    RowMajorDivMod(width, r2, c2);
  }

  /** The row-major index of a cell of a `height` x `width` grid is below
      `width * height`. */
  lemma RowMajorBound(height: nat, width: nat, row: nat, col: nat)
    requires row < height && col < width
    ensures row * width + col < width * height
  {
    assert row * width + col < (row + 1) * width;
    assert (row + 1) * width <= height * width;
  }

  /** Writing one cell of a rectangular layout writes the matching entry of
      its row-major flattening. */
  lemma FlattenUpdate(data: Layout, height: nat, width: nat, row: nat, col: nat, v: nat)
    requires IsRect(data, height, width) && row < height && col < width
    ensures row * width + col < |Flatten(data)|
    ensures Flatten(Update(data, row, col, v)) == Flatten(data)[row * width + col := v]
  {
    var u := Update(data, row, col, v);
    assert IsRect(u, height, width);
    FlattenLength(data, height, width);
    FlattenLength(u, height, width);
    RowMajorBound(height, width, row, col);
    MulComm(width, height);
    var f, g := Flatten(data), Flatten(u);
    var e := f[row * width + col := v];
    forall i | 0 <= i < |g|
      ensures g[i] == e[i]
    {
      FlattenUpdateAt(data, height, width, row, col, v, i);
    }
  }

  /** One entry of the flattening after a write. */
  lemma FlattenUpdateAt(data: Layout, height: nat, width: nat, row: nat, col: nat, v: nat, i: nat)
    requires IsRect(data, height, width) && row < height && col < width && i < height * width
    ensures IsRect(Update(data, row, col, v), height, width)
    ensures |Flatten(data)| == |Flatten(Update(data, row, col, v))| == height * width
    ensures Flatten(Update(data, row, col, v))[i] == if i == row * width + col then v else Flatten(data)[i]
  {
    var u := Update(data, row, col, v);
    assert IsRect(u, height, width);
    FlattenAt(data, height, width, i);
    FlattenAt(u, height, width, i);
    DivModBounds(i, height, width);
    if i == row * width + col {
      RowMajorDivMod(width, row, col);
    } else if (i / width, i % width) == (row, col) {
      assert false;
    }
  }

  /** A layout of zeros flattens to zeros. */
  lemma FlattenZeros(data: Layout, height: nat, width: nat)
    requires IsRect(data, height, width)
    requires forall r, c :: 0 <= r < height && 0 <= c < width ==> data[r][c] == 0
    ensures Flatten(data) == seq(height * width, _ => 0)
  {
    FlattenLength(data, height, width);
    forall i | 0 <= i < height * width
      ensures Flatten(data)[i] == 0
    {
      FlattenAt(data, height, width, i);
    }
  }
}
