/** The text form of the flat board (src/npuzzle/board.rs): `Display`,
    `as_output_string`, `clean_line` and the parser `Board::from_str`. A
    board file is a size line followed by one line per row; `#` starts a
    comment. */
module BoardText {
  import opened Wrappers
  import opened Status
  import opened Text
  import opened Layout
  import opened FlatBoard

  /** The comment line `as_output_string` starts with. */
  const Header: string := "# by github.com/jiricodes/npuzzle"

  /** `clean_line`: the text before the first `#`, or all of it when there
      is none. */
  function CleanLine(s: string): (r: string)
    ensures |r| <= |s| && r == s[..|r|] && '#' !in r
    ensures |r| < |s| ==> s[|r|] == '#'
  {
    if |s| == 0 || s[0] == '#' then "" else [s[0]] + CleanLine(s[1..])
  }

  /** A line without `#` is kept whole. */
  lemma CleanLineKeeps(s: string)
    requires '#' !in s
    ensures CleanLine(s) == s
  {
  }

  // ---- Display ------------------------------------------------------------

  /** The `longest` loop: how many decimal digits `n` has, counting none
      for 0. */
  function DigitCount(n: nat): nat
    decreases n
  {
    if n == 0 then 0 else 1 + DigitCount(n / 10)
  }

  /** A positive number has as many digits as it prints. */
  lemma {:induction false} DigitCountPrinted(n: nat)
    requires n >= 1
    ensures DigitCount(n) == |ToDecimal(n)|
    decreases n
  {
    if n >= 10 {
      DigitCountPrinted(n / 10);
    }
  }

  lemma {:induction false} DigitCountMonotone(a: nat, b: nat)
    requires a <= b
    ensures DigitCount(a) <= DigitCount(b)
    decreases b
  {
    if a > 0 {
      DigitCountMonotone(a / 10, b / 10);
    }
  }

  /** One cell: the value right-aligned in `longest` columns, then a space. */
  function Field(v: nat, longest: nat): string {
    PadLeft(ToDecimal(v), longest) + " "
  }

  /** With at least two cells every field is exactly `longest + 1` wide,
      so the columns line up; a one-cell board prints its 0 one column
      wider than `longest`, which is 0 there. */
  lemma FieldAligned(v: nat, n: nat)
    requires v <= n
    ensures n >= 1 ==> |Field(v, DigitCount(n))| == DigitCount(n) + 1
    ensures n == 0 ==> |Field(v, DigitCount(n))| == 2
  {
    if n >= 1 {
      DigitCountPrinted(n);
      if v >= 1 {
        DigitCountPrinted(v);
        DigitCountMonotone(v, n);
      }
    }
  }

  /** The pieces laid end to end, in order. */
  function Concat(pieces: seq<string>): string
    decreases |pieces|
  {
    if |pieces| == 0 then "" else Concat(pieces[..|pieces| - 1]) + pieces[|pieces| - 1]
  }

  lemma {:induction false} ConcatAppend(a: seq<string>, b: seq<string>)
    ensures Concat(a + b) == Concat(a) + Concat(b)
    decreases |b|
  {
    if |b| == 0 {
      assert a + b == a;
    } else {
      assert (a + b)[..|a + b| - 1] == a + b[..|b| - 1];
      ConcatAppend(a, b[..|b| - 1]);
      var x, m, z := Concat(a), Concat(b[..|b| - 1]), b[|b| - 1];
      assert (x + m) + z == x + (m + z);
    }
  }

  lemma ConcatCons(p: string, rest: seq<string>)
    ensures Concat([p] + rest) == p + Concat(rest)
  {
    ConcatAppend([p], rest);
    assert [p][..0] == [];
  }

  /** Every cell's field, in flat order. */
  function Fields(data: seq<nat>, longest: nat): (fs: seq<string>)
    ensures |fs| == |data|
  {
    seq(|data|, i requires 0 <= i < |data| => Field(data[i], longest))
  }

  /** The first `k` pieces as `Display`'s loop writes them: each cell's
      field, and a newline after the last cell of each row. */
  function Cells(fields: seq<string>, width: nat, k: nat): string
    requires 1 <= width && k <= |fields|
    decreases k
  {
    if k == 0 then ""
    else Cells(fields, width, k - 1) + fields[k - 1] + (if (k - 1) % width == width - 1 then "\n" else "")
  }

  /** The `longest` loop of `Display`: the digit count of the largest
      value, `width * height - 1`. */
  function Longest(b: Board): nat
    requires 1 <= b.width && 1 <= b.height
  {
    Spiral.MulNonNeg(b.width, b.height);
    DigitCount(b.width * b.height - 1)
  }

  /** `impl Display for Board`. The source computes `width * height - 1`
      and `% width`, so it needs a board with cells, and indexes `data` at
      every cell. */
  function Display(b: Board): string
    requires 1 <= b.width && 1 <= b.height && |b.data| >= b.width * b.height
  {
    Cells(Fields(b.data, Longest(b)), b.width, b.width * b.height)
  }

  /** `as_output_string`: the comment header, the size, then the rows. */
  function AsOutputString(b: Board): string
    requires 1 <= b.width && 1 <= b.height && |b.data| >= b.width * b.height
  {
    Header + "\n" + ToDecimal(b.width) + "\n" + Display(b)
  }

  /** The cells `start .. stop` make whole rows of `width` cells. */
  predicate Tiles(start: nat, stop: nat, width: nat)
    requires 1 <= width
    ensures Tiles(start, stop, width) ==> start <= stop
    decreases stop - start
  {
    start == stop || (start + width <= stop && Tiles(start + width, stop, width))
  }

  /** `count` rows make whole rows. */
  lemma {:induction false} TilesRows(start: nat, width: nat, count: nat)
    requires 1 <= width
    ensures Tiles(start, start + count * width, width)
    decreases count
  {
    if count > 0 {
      TilesRows(start + width, width, count - 1);
      assert start + width + (count - 1) * width == start + count * width;
    }
  }

  /** The rows `start .. stop`, each its fields and then a newline. */
  function RowsFrom(fields: seq<string>, width: nat, start: nat, stop: nat): string
    requires 1 <= width && Tiles(start, stop, width) && stop <= |fields|
    decreases stop - start
  {
    if start == stop then ""
    else Concat(fields[start..start + width]) + "\n" + RowsFrom(fields, width, start + width, stop)
  }

  /** A cell `j` places past the start of a row is in column `j`. */
  lemma ColumnOf(a: nat, width: nat, j: nat)
    requires j < width && a % width == 0
    ensures (a + j) % width == j
  {
    DivModBounds(a, a / width + 1, width);
    RowMajorDivMod(width, a / width, j);
  }

  /** The cell one row further down starts a row too. */
  lemma NextRow(a: nat, width: nat)
    requires 1 <= width && a % width == 0
    ensures (a + width) % width == 0
  {
    var q := a / width;
    DivModBounds(a, q + 1, width);
    assert (q + 1) * width == q * width + width;
    RowMajorDivMod(width, q + 1, 0);
  }

  /** Within a row the loop writes no newline until the row's last cell. */
  lemma {:induction false} CellsInRow(fields: seq<string>, width: nat, a: nat, k: nat)
    requires 1 <= width && a % width == 0 && k < width && a + width <= |fields|
    ensures Cells(fields, width, a + k) == Cells(fields, width, a) + Concat(fields[a..a + k])
    decreases k
  {
    if k > 0 {
      var c := a + k - 1;
      CellsInRow(fields, width, a, k - 1);
      ColumnOf(a, width, k - 1);
      ConcatSlice(fields, a, c);
      var x, m, z := Cells(fields, width, a), Concat(fields[a..c]), fields[c];
      assert Cells(fields, width, c + 1) == (x + m) + z;
      assert (x + m) + z == x + (m + z);
    } else {
      assert fields[a..a] == [];
    }
  }

  /** One more field on the end of a slice. */
  lemma ConcatSlice(fields: seq<string>, a: nat, c: nat)
    requires a <= c < |fields|
    ensures Concat(fields[a..c + 1]) == Concat(fields[a..c]) + fields[c]
  {
    assert fields[a..c + 1] == fields[a..c] + [fields[c]];
    ConcatAppend(fields[a..c], [fields[c]]);
    assert Concat([fields[c]]) == fields[c];
  }

  /** A whole row is its fields and one newline. */
  lemma CellsRow(fields: seq<string>, width: nat, a: nat)
    requires 1 <= width && a % width == 0 && a + width <= |fields|
    ensures Cells(fields, width, a + width) == Cells(fields, width, a) + Concat(fields[a..a + width]) + "\n"
  {
    var c := a + width - 1;
    CellsInRow(fields, width, a, width - 1);
    ColumnOf(a, width, width - 1);
    ConcatSlice(fields, a, c);
    var x, m, z := Cells(fields, width, a), Concat(fields[a..c]), fields[c];
    assert Cells(fields, width, c + 1) == (x + m) + z + "\n";
    assert (x + m) + z == x + (m + z);
  }

  /** `Display`'s index loop writes the rows one after another, each
      followed by a newline. */
  lemma {:induction false} CellsByRows(fields: seq<string>, width: nat, start: nat, stop: nat)
    requires 1 <= width && start % width == 0 && Tiles(start, stop, width) && stop <= |fields|
    ensures Cells(fields, width, stop) == Cells(fields, width, start) + RowsFrom(fields, width, start, stop)
    decreases stop - start
  {
    if start != stop {
      var next := start + width;
      CellsRow(fields, width, start);
      NextRow(start, width);
      CellsByRows(fields, width, next, stop);
      var x, c, z := Cells(fields, width, start), Concat(fields[start..next]), RowsFrom(fields, width, next, stop);
      assert Cells(fields, width, next) == x + c + "\n";
      assert RowsFrom(fields, width, start, stop) == c + "\n" + z;
      assert (x + c + "\n") + z == x + (c + "\n" + z);
    }
  }

  /** A board's cells make `height` whole rows. */
  lemma TilesGrid(width: nat, height: nat)
    requires 1 <= width
    ensures Tiles(0, width * height, width)
  {
    TilesRows(0, width, height);
    MulComm(width, height);
  }

  /** The rendered board, row by row. */
  lemma DisplayByRows(b: Board)
    requires 1 <= b.width && 1 <= b.height && |b.data| >= b.width * b.height
    ensures Tiles(0, b.width * b.height, b.width)
    ensures Display(b) == RowsFrom(Fields(b.data, Longest(b)), b.width, 0, b.width * b.height)
  {
    TilesGrid(b.width, b.height);
    assert 0 % b.width == 0;
    CellsByRows(Fields(b.data, Longest(b)), b.width, 0, b.width * b.height);
  }

  // ---- what the display writes, read back -------------------------------

  /** Digits and spaces only: no comment mark, no newline. */
  predicate Plain(s: string) {
    forall i :: 0 <= i < |s| ==> IsDigit(s[i]) || s[i] == ' '
  }

  lemma PlainHasNoMarks(s: string)
    requires Plain(s)
    ensures '#' !in s && '\n' !in s
  {
  }

  lemma FieldPlain(v: nat, longest: nat)
    ensures Plain(Field(v, longest))
  {
    var t := ToDecimal(v);
    var p := PadLeft(t, longest);
    forall i | 0 <= i < |p|
      ensures IsDigit(p[i]) || p[i] == ' '
    {
      if i >= |p| - |t| {
        assert p[i] == p[|p| - |t|..][i - (|p| - |t|)];
      }
    }
  }

  lemma {:induction false} ConcatPlain(pieces: seq<string>)
    requires forall i :: 0 <= i < |pieces| ==> Plain(pieces[i])
    ensures Plain(Concat(pieces))
    decreases |pieces|
  {
    if |pieces| > 0 {
      ConcatPlain(pieces[..|pieces| - 1]);
    }
  }

  lemma FieldsPlain(data: seq<nat>, longest: nat)
    ensures forall i :: 0 <= i < |data| ==> Plain(Fields(data, longest)[i])
  {
    forall i | 0 <= i < |data|
      ensures Plain(Fields(data, longest)[i])
    {
      FieldPlain(data[i], longest);
    }
  }

  lemma FieldsSlice(data: seq<nat>, longest: nat, a: nat, b: nat)
    requires a <= b <= |data|
    ensures Fields(data, longest)[a..b] == Fields(data[a..b], longest)
  {
  }

  /** How `usize` prints each value. */
  function Decimals(vs: seq<nat>): (ws: seq<string>)
    ensures |ws| == |vs|
    ensures forall i :: 0 <= i < |vs| ==> ws[i] == ToDecimal(vs[i])
  {
    seq(|vs|, i requires 0 <= i < |vs| => ToDecimal(vs[i]))
  }

  /** The words of a row are its values, printed. */
  lemma {:induction false} WordsOfFields(vs: seq<nat>, longest: nat)
    ensures Words(Concat(Fields(vs, longest))) == Decimals(vs)
    decreases |vs|
  {
    if |vs| > 0 {
      FirstWord(vs, longest);
      WordsOfFields(vs[1..], longest);
      assert Decimals(vs) == [ToDecimal(vs[0])] + Decimals(vs[1..]);
    } else {
      assert Fields(vs, longest) == [];
    }
  }

  lemma FirstWord(vs: seq<nat>, longest: nat)
    requires |vs| > 0
    ensures Words(Concat(Fields(vs, longest))) == [ToDecimal(vs[0])] + Words(Concat(Fields(vs[1..], longest)))
  {
    var t, rest := ToDecimal(vs[0]), Concat(Fields(vs[1..], longest));
    FieldsCons(vs, longest);
    DecimalWord(vs[0]);
    WordsPadded(t, longest, rest);
  }

  /** A printed number is a word. */
  lemma DecimalWord(v: nat)
    ensures NoSpace(ToDecimal(v))
  {
    var t := ToDecimal(v);
    forall i | 0 <= i < |t|
      ensures !IsSpace(t[i])
    {
      assert IsDigit(t[i]);
    }
  }

  lemma FieldsCons(vs: seq<nat>, longest: nat)
    requires |vs| > 0
    ensures Concat(Fields(vs, longest)) == Field(vs[0], longest) + Concat(Fields(vs[1..], longest))
  {
    assert Fields(vs, longest) == [Field(vs[0], longest)] + Fields(vs[1..], longest);
    ConcatCons(Field(vs[0], longest), Fields(vs[1..], longest));
  }

  // ---- from_str -----------------------------------------------------------

  /** What `from_str` has read so far: the size (0 until a size line) and
      the values of the rows, in order. */
  datatype ParseState = ParseState(width: nat, data: seq<nat>)

  /** No value before the size, every value a tile of the board, none
      twice. */
  predicate Good(st: ParseState) {
    && (st.width == 0 ==> st.data == [])
    && (forall i :: 0 <= i < |st.data| ==> st.data[i] < st.width * st.width)
    && (forall i, j :: 0 <= i < j < |st.data| ==> st.data[i] != st.data[j])
  }

  /** The loop over one row's words: each must be all digits (else
      `InvalidChar`), below `width * width` and not yet read (else
      `InvalidValue`). */
  function ParseWords(st: ParseState, words: seq<string>): (r: Result<ParseState, ErrorKind>)
    ensures r.Ok? ==> r.value.width == st.width && |r.value.data| == |st.data| + |words|
    ensures r.Ok? ==> r.value.data[..|st.data|] == st.data
    ensures r.Ok? ==> forall i :: 0 <= i < |words| ==>
      AllDigits(words[i]) && r.value.data[|st.data| + i] == ParseDecimal(words[i])
    ensures Good(st) && r.Ok? ==> Good(r.value)
    ensures r.Err? ==> r.error == InvalidChar || r.error == InvalidValue
    decreases |words|
  {
    if |words| == 0 then Ok(st)
    else if !AllDigits(words[0]) then Err(InvalidChar)
    else
      var v := ParseDecimal(words[0]);
      if v < st.width * st.width && v !in st.data then
        ParseWordsStep(st, words);
        ParseWords(ParseState(st.width, st.data + [v]), words[1..])
      else Err(InvalidValue)
  }

  lemma ParseWordsStep(st: ParseState, words: seq<string>)
    requires |words| >= 1 && AllDigits(words[0])
    requires ParseDecimal(words[0]) < st.width * st.width && ParseDecimal(words[0]) !in st.data
    ensures Good(st) ==> Good(ParseState(st.width, st.data + [ParseDecimal(words[0])]))
  {
    var d := st.data + [ParseDecimal(words[0])];
    if Good(st) {
      forall i, j | 0 <= i < j < |d|
        ensures d[i] != d[j]
      {
        if j == |st.data| {
          assert st.data[i] in st.data;
        }
      }
    }
  }

  /** The decimal value of a word; 0 for a word that is not a number,
      which is never read as a value. */
  function WordValue(w: string): nat {
    if AllDigits(w) then ParseDecimal(w) else 0
  }

  /** The value of each word. */
  function WordValues(words: seq<string>): seq<nat> {
    seq(|words|, i requires 0 <= i < |words| => WordValue(words[i]))
  }

  /** The values read once word `k` of a row is reached, when every word
      before it was accepted. */
  function Seen(st: ParseState, words: seq<string>, k: nat): seq<nat>
    requires k <= |words|
  {
    st.data + WordValues(words[..k])
  }

  /** Word `k` of a row is accepted: all digits, a tile of the board, and
      not read before. */
  predicate Fits(st: ParseState, words: seq<string>, k: nat)
    requires k < |words|
  {
    && AllDigits(words[k])
    && ParseDecimal(words[k]) < st.width * st.width
    && ParseDecimal(words[k]) !in Seen(st, words, k)
  }

  /** Every word before `k` is accepted. */
  predicate AcceptedUpTo(st: ParseState, words: seq<string>, k: nat)
    requires k <= |words|
  {
    forall j :: 0 <= j < k ==> Fits(st, words, j)
  }

  /** Which error a row gives: it is read whole exactly when every word is
      accepted; otherwise the first word not accepted decides, `InvalidChar`
      when it is not all digits and `InvalidValue` when it is a number that
      is too high or already read. */
  lemma {:induction false} ParseWordsErrors(st: ParseState, words: seq<string>)
    ensures ParseWords(st, words).Ok? <==> AcceptedUpTo(st, words, |words|)
    ensures ParseWords(st, words) == Err(InvalidChar) <==>
      exists k :: 0 <= k < |words| && AcceptedUpTo(st, words, k) && !AllDigits(words[k])
    ensures ParseWords(st, words) == Err(InvalidValue) <==>
      exists k :: 0 <= k < |words| && AcceptedUpTo(st, words, k) && AllDigits(words[k]) && !Fits(st, words, k)
    decreases |words|
  {
    if |words| > 0 {
      assert words[..0] == [];
      assert Seen(st, words, 0) == st.data;
      if Fits(st, words, 0) {
        var next := ParseState(st.width, st.data + [ParseDecimal(words[0])]);
        assert ParseWords(st, words) == ParseWords(next, words[1..]);
        ParseWordsErrors(next, words[1..]);
        ShiftAccepted(st, words, |words| - 1);
        ShiftCharError(st, words);
        ShiftValueError(st, words);
      }
    }
  }

  /** After the first word is accepted, the rest of the row is read from
      the state holding its value: word `k` of the rest is word `k + 1` of
      the row, with the same values seen before it. */
  lemma ShiftFits(st: ParseState, words: seq<string>, k: nat)
    requires k < |words| - 1 && AllDigits(words[0])
    ensures var next := ParseState(st.width, st.data + [ParseDecimal(words[0])]);
      && words[1..][k] == words[k + 1]
      && Seen(next, words[1..], k) == Seen(st, words, k + 1)
      && (Fits(next, words[1..], k) <==> Fits(st, words, k + 1))
  {
    var v := ParseDecimal(words[0]);
    var a, b := WordValues(words[..k + 1]), [v] + WordValues(words[1..][..k]);
    assert |a| == |b|;
    forall i | 0 <= i < |a|
      ensures a[i] == b[i]
    {
      if i > 0 {
        assert words[..k + 1][i] == words[1..][..k][i - 1];
      }
    }
    assert a == b;
  }

  /** Once the first word is accepted, a row has a first word that is not
      all digits exactly when the rest of it has, read from the next state. */
  lemma ShiftCharError(st: ParseState, words: seq<string>)
    requires 1 <= |words| && Fits(st, words, 0)
    ensures var next := ParseState(st.width, st.data + [ParseDecimal(words[0])]);
      (exists k :: 0 <= k < |words| && AcceptedUpTo(st, words, k) && !AllDigits(words[k]))
      <==> (exists k :: 0 <= k < |words| - 1 && AcceptedUpTo(next, words[1..], k) && !AllDigits(words[1..][k]))
  {
    var next := ParseState(st.width, st.data + [ParseDecimal(words[0])]);
    if exists k :: 0 <= k < |words| && AcceptedUpTo(st, words, k) && !AllDigits(words[k]) {
      var k :| 0 <= k < |words| && AcceptedUpTo(st, words, k) && !AllDigits(words[k]);
      ShiftFits(st, words, k - 1);
      ShiftAccepted(st, words, k - 1);
      assert AcceptedUpTo(next, words[1..], k - 1) && !AllDigits(words[1..][k - 1]);
    }
    if exists k :: 0 <= k < |words| - 1 && AcceptedUpTo(next, words[1..], k) && !AllDigits(words[1..][k]) {
      var k :| 0 <= k < |words| - 1 && AcceptedUpTo(next, words[1..], k) && !AllDigits(words[1..][k]);
      ShiftFits(st, words, k);
      ShiftAccepted(st, words, k);
      assert AcceptedUpTo(st, words, k + 1) && !AllDigits(words[k + 1]);
    }
  }

  /** Once the first word is accepted, a row has a first rejected number
      exactly when the rest of it has, read from the next state. */
  lemma ShiftValueError(st: ParseState, words: seq<string>)
    requires 1 <= |words| && Fits(st, words, 0)
    ensures var next := ParseState(st.width, st.data + [ParseDecimal(words[0])]);
      (exists k :: 0 <= k < |words| && AcceptedUpTo(st, words, k) && AllDigits(words[k]) && !Fits(st, words, k))
      <==> (exists k :: 0 <= k < |words| - 1 && AcceptedUpTo(next, words[1..], k) && AllDigits(words[1..][k]) && !Fits(next, words[1..], k))
  {
    var next := ParseState(st.width, st.data + [ParseDecimal(words[0])]);
    if exists k :: 0 <= k < |words| && AcceptedUpTo(st, words, k) && AllDigits(words[k]) && !Fits(st, words, k) {
      var k :| 0 <= k < |words| && AcceptedUpTo(st, words, k) && AllDigits(words[k]) && !Fits(st, words, k);
      ShiftFits(st, words, k - 1);
      ShiftAccepted(st, words, k - 1);
      assert AcceptedUpTo(next, words[1..], k - 1) && AllDigits(words[1..][k - 1]) && !Fits(next, words[1..], k - 1);
    }
    if exists k :: 0 <= k < |words| - 1 && AcceptedUpTo(next, words[1..], k) && AllDigits(words[1..][k]) && !Fits(next, words[1..], k) {
      var k :| 0 <= k < |words| - 1 && AcceptedUpTo(next, words[1..], k) && AllDigits(words[1..][k]) && !Fits(next, words[1..], k);
      ShiftFits(st, words, k);
      ShiftAccepted(st, words, k);
      assert AcceptedUpTo(st, words, k + 1) && AllDigits(words[k + 1]) && !Fits(st, words, k + 1);
    }
  }

  /** The words accepted before `k` of the rest are those before `k + 1`
      of the row. */
  lemma ShiftAccepted(st: ParseState, words: seq<string>, k: nat)
    requires 1 <= |words| && k <= |words| - 1
    requires Fits(st, words, 0)
    ensures AcceptedUpTo(ParseState(st.width, st.data + [ParseDecimal(words[0])]), words[1..], k)
      <==> AcceptedUpTo(st, words, k + 1)
  {
    var next := ParseState(st.width, st.data + [ParseDecimal(words[0])]);
    forall j | 0 <= j < k
      ensures Fits(next, words[1..], j) <==> Fits(st, words, j + 1)
    {
      ShiftFits(st, words, j);
    }
    if AcceptedUpTo(next, words[1..], k) {
      forall j | 0 <= j < k + 1
        ensures Fits(st, words, j)
      {
        if j > 0 {
          assert Fits(next, words[1..], j - 1);
        }
      }
    }
  }

  /** A line's words: the comment cut off, then split on whitespace. */
  function LineWords(line: string): seq<string> {
    Words(CleanLine(line))
  }

  /** Every line's words, in order. The source splits each line as it
      reaches it; splitting has no effect of its own, so splitting them
      all first reads the same. */
  function SplitLines(lines: seq<string>): (wss: seq<seq<string>>)
    ensures |wss| == |lines|
    ensures forall i :: 0 <= i < |lines| ==> wss[i] == LineWords(lines[i])
  {
    seq(|lines|, i requires 0 <= i < |lines| => LineWords(lines[i]))
  }

  /** One line, as words: a blank line is skipped, a lone word before the
      size is the size (the board is square) when it is all digits and
      `InvalidChar` otherwise, a line of exactly `width` words is a row,
      anything else is `InvalidNoSize`. */
  function ParseLine(st: ParseState, words: seq<string>): (r: Result<ParseState, ErrorKind>)
    ensures Good(st) && r.Ok? ==> Good(r.value)
    ensures r.Ok? && st.width != 0 ==> r.value.width == st.width
    ensures r.Ok? ==> |st.data| <= |r.value.data| && r.value.data[..|st.data|] == st.data
    ensures r.Err? ==> r.error in {InvalidChar, InvalidValue, InvalidNoSize}
    ensures r == Err(InvalidNoSize) <==>
      && |words| != 0
      && !(|words| == 1 && st.width == 0)
      && !(st.width != 0 && |words| == st.width)
    ensures r == Err(InvalidChar) <==>
      || (|words| == 1 && st.width == 0 && !AllDigits(words[0]))
      || (st.width != 0 && |words| == st.width && ParseWords(st, words) == Err(InvalidChar))
    ensures r == Err(InvalidValue) <==>
      st.width != 0 && |words| == st.width && ParseWords(st, words) == Err(InvalidValue)
    ensures r.Ok? && |words| == 1 && st.width == 0 ==> r.value == ParseState(ParseDecimal(words[0]), st.data)
    ensures r.Ok? && |words| != 0 && st.width != 0 ==> |r.value.data| == |st.data| + st.width
  {
    if |words| == 0 then Ok(st)
    else if |words| == 1 && st.width == 0 then
      if AllDigits(words[0]) then Ok(ParseState(ParseDecimal(words[0]), st.data)) else Err(InvalidChar)
    else if st.width != 0 && |words| == st.width then ParseWords(st, words)
    else Err(InvalidNoSize)
  }

  /** The loop over the lines, stopping at the first error. */
  function ParseLines(st: ParseState, lines: seq<seq<string>>): (r: Result<ParseState, ErrorKind>)
    ensures Good(st) && r.Ok? ==> Good(r.value)
    ensures r.Err? ==> r.error in {InvalidChar, InvalidValue, InvalidNoSize}
    decreases |lines|
  {
    if |lines| == 0 then Ok(st)
    else
      var next :- ParseLine(st, lines[0]);
      ParseLines(next, lines[1..])
  }

  /** `Iterator::position`: the first index holding `v`. */
  function FirstIndex(s: seq<nat>, v: nat): (i: nat)
    requires v in s
    ensures i < |s| && s[i] == v
    ensures forall j :: 0 <= j < i ==> s[j] != v
  {
    if s[0] == v then 0 else 1 + FirstIndex(s[1..], v)
  }

  /** `Board::from_str`: read the lines, then find the blank and take the
      solution of the generated board of that size. */
  function FromStr(input: string): (r: Result<Board, ErrorKind>)
    ensures r.Ok? ==> var b := r.value;
      && 1 <= b.width == b.height
      && |b.data| <= b.width * b.height
      && (forall i :: 0 <= i < |b.data| ==> b.data[i] < b.width * b.height)
      && (forall i, j :: 0 <= i < j < |b.data| ==> b.data[i] != b.data[j])
      && b.zeroPosition < |b.data| && b.data[b.zeroPosition] == 0
      && b.solution == NewBoard(b.width, b.height).solution
    ensures r.Err? ==> r.error in {InvalidChar, InvalidValue, InvalidNoSize, InvalidNoZero}
    ensures var p := ParseLines(ParseState(0, []), SplitLines(Lines(input)));
      && (p.Err? ==> r == Err(p.error))
      && (r == Err(InvalidNoZero) <==> p.Ok? && 0 !in p.value.data)
      && (r.Ok? ==> r.value.data == p.value.data && r.value.width == p.value.width)
  {
    var st :- ParseLines(ParseState(0, []), SplitLines(Lines(input)));
    if 0 in st.data then
      GoodBound(st);
      Ok(Board(st.width, st.width, st.data, NewBoard(st.width, st.width).solution, FirstIndex(st.data, 0)))
    else Err(InvalidNoZero)
  }

  /** A good state holds at most `width * width` values: they are distinct
      and below that. */
  lemma GoodBound(st: ParseState)
    requires Good(st)
    ensures |st.data| <= st.width * st.width
  {
    DistinctBelow(st.data, st.width * st.width);
  }

  lemma DistinctBelow(s: seq<nat>, n: nat)
    requires forall i :: 0 <= i < |s| ==> s[i] < n
    requires forall i, j :: 0 <= i < j < |s| ==> s[i] != s[j]
    ensures |s| <= n
  {
    assert Image(s) <= Below(n);
    ImageSize(s);
    SubsetSize(Image(s), Below(n));
  }

  ghost function Image(s: seq<nat>): set<nat> {
    set i | 0 <= i < |s| :: s[i]
  }

  lemma {:induction false} ImageSize(s: seq<nat>)
    requires forall i, j :: 0 <= i < j < |s| ==> s[i] != s[j]
    ensures |Image(s)| == |s|
    decreases |s|
  {
    if |s| > 0 {
      var p := s[..|s| - 1];
      ImageSize(p);
      assert Image(s) == Image(p) + {s[|s| - 1]};
      assert s[|s| - 1] !in Image(p);
    } else {
      assert Image(s) == {};
    }
  }

  /** The numbers below `n`. */
  ghost function Below(n: nat): (r: set<nat>)
    ensures |r| == n
    ensures forall v: nat :: v in r <==> v < n
  {
    if n == 0 then {} else Below(n - 1) + {n - 1}
  }

  lemma {:induction false} SubsetSize(a: set<nat>, b: set<nat>)
    requires a <= b
    ensures |a| <= |b|
    decreases |a|
  {
    if a != {} {
      var x :| x in a;
      SubsetSize(a - {x}, b - {x});
    }
  }

  // ---- the round trip -----------------------------------------------------

  lemma ParseLinesCons(st: ParseState, words: seq<string>, rest: seq<seq<string>>)
    requires ParseLine(st, words).Ok?
    ensures ParseLines(st, [words] + rest) == ParseLines(ParseLine(st, words).value, rest)
  {
    assert ([words] + rest)[1..] == rest;
  }

  /** A printed row's values are read back one by one. */
  lemma {:induction false} ParseWordsPrinted(st: ParseState, vs: seq<nat>)
    requires forall i :: 0 <= i < |vs| ==> vs[i] < st.width * st.width
    requires forall i, j :: 0 <= i < j < |st.data + vs| ==> (st.data + vs)[i] != (st.data + vs)[j]
    ensures ParseWords(st, Decimals(vs)) == Ok(ParseState(st.width, st.data + vs))
    decreases |vs|
  {
    if |vs| == 0 {
      assert st.data + vs == st.data;
    } else {
      var ws := Decimals(vs);
      ParsePrinted(vs[0]);
      assert (st.data + vs)[|st.data|] == vs[0];
      assert vs[0] !in st.data by {
        forall i | 0 <= i < |st.data|
          ensures st.data[i] != vs[0]
        {
          assert (st.data + vs)[i] == st.data[i];
        }
      }
      var next := ParseState(st.width, st.data + [vs[0]]);
      assert ws[1..] == Decimals(vs[1..]);
      assert next.data + vs[1..] == st.data + vs;
      ParseWordsPrinted(next, vs[1..]);
    }
  }

  /** The row starting at flat index `start` is read as one row. */
  lemma ParseRowAt(data: seq<nat>, width: nat, start: nat)
    requires 1 <= width && start + width <= |data|
    requires forall i :: 0 <= i < |data| ==> data[i] < width * width
    requires forall i, j :: 0 <= i < j < |data| ==> data[i] != data[j]
    ensures ParseLine(ParseState(width, data[..start]), Decimals(data[start..start + width]))
      == Ok(ParseState(width, data[..start + width]))
  {
    var vs := data[start..start + width];
    assert data[..start] + vs == data[..start + width];
    ParseWordsPrinted(ParseState(width, data[..start]), vs);
  }

  /** The words of the display's lines: each row's values printed, then
      nothing for the empty piece after the last newline. */
  function RowWords(data: seq<nat>, width: nat, start: nat, stop: nat): (wss: seq<seq<string>>)
    requires 1 <= width && Tiles(start, stop, width) && stop <= |data|
    decreases stop - start
  {
    if start == stop then [[]]
    else [Decimals(data[start..start + width])] + RowWords(data, width, start + width, stop)
  }

  /** A printed row, then lines that finish the reading. */
  lemma ParseRowThen(data: seq<nat>, width: nat, start: nat, stop: nat, fin: ParseState)
    requires 1 <= width && Tiles(start, stop, width) && start != stop && stop <= |data|
    requires forall i :: 0 <= i < |data| ==> data[i] < width * width
    requires forall i, j :: 0 <= i < j < |data| ==> data[i] != data[j]
    requires ParseLines(ParseState(width, data[..start + width]), RowWords(data, width, start + width, stop)) == Ok(fin)
    ensures ParseLines(ParseState(width, data[..start]), RowWords(data, width, start, stop)) == Ok(fin)
  {
    var row, rest := Decimals(data[start..start + width]), RowWords(data, width, start + width, stop);
    assert RowWords(data, width, start, stop) == [row] + rest;
    ParseRowAt(data, width, start);
    ParseThen(ParseState(width, data[..start]), row, rest, ParseState(width, data[..start + width]), fin);
  }

  /** A line read, then the rest read from where it left off. */
  lemma ParseThen(st: ParseState, words: seq<string>, rest: seq<seq<string>>, mid: ParseState, fin: ParseState)
    requires ParseLine(st, words) == Ok(mid) && ParseLines(mid, rest) == Ok(fin)
    ensures ParseLines(st, [words] + rest) == Ok(fin)
  {
    ParseLinesCons(st, words, rest);
  }

  /** The empty piece after the last newline changes nothing. */
  lemma ParseNoRows(data: seq<nat>, width: nat, start: nat)
    requires 1 <= width && start <= |data|
    ensures ParseLines(ParseState(width, data[..start]), RowWords(data, width, start, start)) == Ok(ParseState(width, data[..start]))
  {
    ParseLinesCons(ParseState(width, data[..start]), [], []);
  }

  /** Reading the display's rows back gives the values in order. */
  lemma {:induction false} ParseRows(data: seq<nat>, width: nat, start: nat, stop: nat)
    requires 1 <= width && Tiles(start, stop, width) && stop <= |data|
    requires forall i :: 0 <= i < |data| ==> data[i] < width * width
    requires forall i, j :: 0 <= i < j < |data| ==> data[i] != data[j]
    ensures ParseLines(ParseState(width, data[..start]), RowWords(data, width, start, stop)) == Ok(ParseState(width, data[..stop]))
    decreases stop - start
  {
    if start == stop {
      ParseNoRows(data, width, start);
    } else {
      ParseRows(data, width, start + width, stop);
      ParseRowThen(data, width, start, stop, ParseState(width, data[..stop]));
    }
  }

  /** The display's lines, as words. */
  lemma {:induction false} SplitRows(data: seq<nat>, width: nat, longest: nat, start: nat, stop: nat)
    requires 1 <= width && Tiles(start, stop, width) && stop <= |data|
    ensures SplitLines(RowLines(Fields(data, longest), width, start, stop)) == RowWords(data, width, start, stop)
    decreases stop - start
  {
    if start == stop {
      assert LineWords("") == [];
    } else {
      var next := start + width;
      var line := Concat(Fields(data, longest)[start..next]);
      var rest := RowLines(Fields(data, longest), width, next, stop);
      SplitLinesCons(line, rest);
      RowLineWords(data, longest, start, next);
      SplitRows(data, width, longest, next, stop);
    }
  }

  lemma SplitLinesCons(line: string, rest: seq<string>)
    ensures SplitLines([line] + rest) == [LineWords(line)] + SplitLines(rest)
  {
  }

  /** A printed row's words are its values. */
  lemma RowLineWords(data: seq<nat>, longest: nat, a: nat, b: nat)
    requires a <= b <= |data|
    ensures LineWords(Concat(Fields(data, longest)[a..b])) == Decimals(data[a..b])
  {
    var vs := data[a..b];
    var line := Concat(Fields(vs, longest));
    FieldsSlice(data, longest, a, b);
    FieldsPlain(vs, longest);
    ConcatPlain(Fields(vs, longest));
    PlainHasNoMarks(line);
    CleanLineKeeps(line);
    WordsOfFields(vs, longest);
  }

  /** The display's pieces between newlines: one per row, then the empty
      piece after the last newline. */
  function RowLines(fields: seq<string>, width: nat, start: nat, stop: nat): seq<string>
    requires 1 <= width && Tiles(start, stop, width) && stop <= |fields|
    decreases stop - start
  {
    if start == stop then [""]
    else [Concat(fields[start..start + width])] + RowLines(fields, width, start + width, stop)
  }

  /** The first row of the display is its first line. */
  lemma RowsLines(fields: seq<string>, width: nat, start: nat, stop: nat)
    requires 1 <= width && Tiles(start, stop, width) && start != stop && stop <= |fields|
    requires forall i :: 0 <= i < |fields| ==> Plain(fields[i])
    ensures Lines(RowsFrom(fields, width, start, stop)) ==
      [Concat(fields[start..start + width])] + Lines(RowsFrom(fields, width, start + width, stop))
  {
    var row := fields[start..start + width];
    ConcatPlain(row);
    PlainHasNoMarks(Concat(row));
    LinesAfter(Concat(row), RowsFrom(fields, width, start + width, stop));
  }

  lemma {:induction false} LinesOfRows(fields: seq<string>, width: nat, start: nat, stop: nat)
    requires 1 <= width && Tiles(start, stop, width) && stop <= |fields|
    requires forall i :: 0 <= i < |fields| ==> Plain(fields[i])
    ensures Lines(RowsFrom(fields, width, start, stop)) == RowLines(fields, width, start, stop)
    decreases stop - start
  {
    if start == stop {
      assert Lines("") == [""];
    } else {
      RowsLines(fields, width, start, stop);
      LinesOfRows(fields, width, start + width, stop);
    }
  }

  lemma DecimalHasNoMarks(v: nat)
    ensures '\n' !in ToDecimal(v) && '#' !in ToDecimal(v)
  {
    var t := ToDecimal(v);
    assert Plain(t) by {
      assert forall i :: 0 <= i < |t| ==> IsDigit(t[i]);
    }
    PlainHasNoMarks(t);
  }

  /** The output's first two lines are the comment and the size. */
  lemma HeadLines(width: nat, rest: string)
    ensures Lines(Header + "\n" + ToDecimal(width) + "\n" + rest) == [Header, ToDecimal(width)] + Lines(rest)
  {
    var t := ToDecimal(width);
    DecimalHasNoMarks(width);
    HeaderHasNoNewline();
    TwoLines(Header, t, rest);
  }

  lemma HeaderHasNoNewline()
    ensures '\n' !in Header && LineWords(Header) == []
  {
    assert CleanLine(Header) == "";
  }

  lemma TwoLines(a: string, t: string, rest: string)
    requires '\n' !in a && '\n' !in t
    ensures Lines(a + "\n" + t + "\n" + rest) == [a, t] + Lines(rest)
  {
    LinesAfter(t, rest);
    LinesAfter(a, t + "\n" + rest);
    assert a + "\n" + t + "\n" + rest == a + "\n" + (t + "\n" + rest);
  }

  /** The size line is one word. */
  lemma SizeWords(width: nat)
    ensures LineWords(ToDecimal(width)) == [ToDecimal(width)]
  {
    var t := ToDecimal(width);
    DecimalHasNoMarks(width);
    CleanLineKeeps(t);
    WordsSingle(t);
  }

  /** The size line's one word sets the size. */
  lemma SizeLine(width: nat)
    ensures LineWords(ToDecimal(width)) == [ToDecimal(width)]
    ensures ParseLine(ParseState(0, []), [ToDecimal(width)]) == Ok(ParseState(width, []))
  {
    SizeWords(width);
    ParsePrinted(width);
  }

  /** The output of a board, line by line: the comment, the size, then
      one line per row and the empty piece after the last newline. */
  lemma OutputLines(b: Board)
    requires 1 <= b.width && 1 <= b.height && |b.data| >= b.width * b.height
    ensures Tiles(0, b.width * b.height, b.width)
    ensures Lines(AsOutputString(b)) ==
      [Header, ToDecimal(b.width)] + RowLines(Fields(b.data, Longest(b)), b.width, 0, b.width * b.height)
  {
    var fields := Fields(b.data, Longest(b));
    DisplayByRows(b);
    HeadLines(b.width, Display(b));
    FieldsPlain(b.data, Longest(b));
    LinesOfRows(fields, b.width, 0, b.width * b.height);
  }

  /** Two lines, then the rest, as words. */
  lemma SplitTwo(a: string, t: string, rest: seq<string>)
    ensures SplitLines([a, t] + rest) == [LineWords(a), LineWords(t)] + SplitLines(rest)
  {
    var l, r := [a, t] + rest, [LineWords(a), LineWords(t)] + SplitLines(rest);
    forall i | 0 <= i < |l|
      ensures SplitLines(l)[i] == r[i]
    {
      if i >= 2 {
        assert l[i] == rest[i - 2];
      }
    }
  }

  /** The output of a board, as words: nothing on the comment line, the
      size, then each row's values. */
  lemma OutputWords(b: Board)
    requires 1 <= b.width && 1 <= b.height && |b.data| >= b.width * b.height
    ensures Tiles(0, b.width * b.height, b.width)
    ensures SplitLines(Lines(AsOutputString(b))) ==
      [[], [ToDecimal(b.width)]] + RowWords(b.data, b.width, 0, b.width * b.height)
  {
    var n := b.width * b.height;
    OutputLines(b);
    var rows := RowLines(Fields(b.data, Longest(b)), b.width, 0, n);
    SplitTwo(Header, ToDecimal(b.width), rows);
    HeaderHasNoNewline();
    SizeLine(b.width);
    SplitRows(b.data, b.width, Longest(b), 0, n);
  }

  /** Reading the output of a square board gives its size and values. */
  lemma ReadBack(b: Board)
    requires 1 <= b.width == b.height
    requires IsPermutation(b.data, b.width * b.height)
    ensures ParseLines(ParseState(0, []), SplitLines(Lines(AsOutputString(b)))) == Ok(ParseState(b.width, b.data))
  {
    var w := b.width;
    TilesGrid(w, w);
    var rows := RowWords(b.data, w, 0, w * w);
    OutputWords(b);
    SizeLine(w);
    ParseLinesCons(ParseState(0, []), [], [[ToDecimal(w)]] + rows);
    assert [[], [ToDecimal(w)]] + rows == [[]] + ([[ToDecimal(w)]] + rows);
    ParseLinesCons(ParseState(0, []), [ToDecimal(w)], rows);
    ParseRows(b.data, w, 0, w * w);
    assert b.data[..0] == [] && b.data[..w * w] == b.data;
  }

  /** Writing a square board and reading it back gives the board, with
      the solution of the generated board of that size. */
  lemma RoundTrip(b: Board)
    requires 1 <= b.width == b.height
    requires IsPermutation(b.data, b.width * b.height)
    requires b.zeroPosition < |b.data| && b.data[b.zeroPosition] == 0
    ensures FromStr(AsOutputString(b)) == Ok(b.(solution := NewBoard(b.width, b.height).solution))
  {
    ReadBack(b);
    assert 0 in b.data;
    var z := FirstIndex(b.data, 0);
    assert z == b.zeroPosition;
  }

  // ---- a board with rows missing -----------------------------------------

  /** `from_str` counts neither the rows nor the values: a size line and
      a single row are accepted as a whole board, leaving `width` cells
      where `width * width` are needed. With width 2 the input is
      `"2\n0 1\n"`. */
  lemma FromStrAcceptsMissingRows(width: nat, row: seq<nat>, longest: nat)
    requires 2 <= width && |row| == width && 0 in row
    requires forall i :: 0 <= i < |row| ==> row[i] < width * width
    requires forall i, j :: 0 <= i < j < |row| ==> row[i] != row[j]
    ensures var r := FromStr(ToDecimal(width) + "\n" + Concat(Fields(row, longest)) + "\n");
      r.Ok? && r.value.width == width && r.value.data == row && |r.value.data| < r.value.width * r.value.height
  {
    var input := ToDecimal(width) + "\n" + Concat(Fields(row, longest)) + "\n";
    ReadOneRow(width, row, longest);
    var b := FromStr(input).value;
    assert b.data == row && b.width == width && b.height == width;
    MoreThanOneRow(width);
  }

  /** Reading a size line and one printed row gives the size and the row. */
  lemma ReadOneRow(width: nat, row: seq<nat>, longest: nat)
    requires 1 <= width && |row| == width
    requires forall i :: 0 <= i < |row| ==> row[i] < width * width
    requires forall i, j :: 0 <= i < j < |row| ==> row[i] != row[j]
    ensures ParseLines(ParseState(0, []), SplitLines(Lines(ToDecimal(width) + "\n" + Concat(Fields(row, longest)) + "\n")))
      == Ok(ParseState(width, row))
  {
    var size := ToDecimal(width);
    OneRowWords(width, row, longest);
    ParseRowAt(row, width, 0);
    assert row[0..width] == row && row[..0] == [] && row[..width] == row;
    SizeLine(width);
    ParseThen(ParseState(width, []), Decimals(row), [[]], ParseState(width, row), ParseState(width, row));
    ParseThen(ParseState(0, []), [size], [Decimals(row), []], ParseState(width, []), ParseState(width, row));
  }

  /** A size line and one printed row, as words. */
  lemma OneRowWords(width: nat, row: seq<nat>, longest: nat)
    requires |row| == width
    ensures SplitLines(Lines(ToDecimal(width) + "\n" + Concat(Fields(row, longest)) + "\n"))
      == [[ToDecimal(width)], Decimals(row), []]
  {
    var size, fs := ToDecimal(width), Fields(row, longest);
    var line := Concat(fs);
    DecimalHasNoMarks(width);
    OneRowLines(row, longest, size);
    RowLineWords(row, longest, 0, width);
    assert row[0..width] == row && fs[0..width] == fs;
    assert LineWords(line) == Decimals(row);
    SizeWords(width);
    assert LineWords("") == [];
    assert SplitLines([""]) == [[]];
    SplitTwo(size, line, [""]);
  }

  lemma MoreThanOneRow(width: nat)
    requires 2 <= width
    ensures width * 1 < width * width
  {
    Spiral.MulNonNeg(width, width - 1);
    assert width * width == width * (width - 1) + width;
  }

  /** The size line and one printed row are two lines and an empty piece. */
  lemma OneRowLines(row: seq<nat>, longest: nat, size: string)
    requires '\n' !in size
    ensures Lines(size + "\n" + Concat(Fields(row, longest)) + "\n") == [size, Concat(Fields(row, longest)), ""]
  {
    var line := Concat(Fields(row, longest));
    FieldsPlain(row, longest);
    ConcatPlain(Fields(row, longest));
    PlainHasNoMarks(line);
    TwoLines(size, line, "");
    assert size + "\n" + line + "\n" == size + "\n" + line + "\n" + "";
  }

  /** `from_str` with the count the text format promises: a board whose
      rows do not fill `width * width` cells is refused. */
  function FromStrChecked(input: string): (r: Result<Board, ErrorKind>)
    ensures r.Ok? ==> var b := r.value;
      && Sized(b) && b.width == b.height
      && IsPermutation(b.data, b.width * b.height) && b.data[b.zeroPosition] == 0
      && b.solution == NewBoard(b.width, b.height).solution
    ensures r.Ok? <==> FromStr(input).Ok? && |FromStr(input).value.data| == FromStr(input).value.width * FromStr(input).value.height
    ensures r.Ok? ==> r == FromStr(input)
    ensures r.Err? ==> r.error in {InvalidChar, InvalidValue, InvalidNoSize, InvalidNoZero, InvalidInput}
  {
    var b :- FromStr(input);
    if |b.data| != b.width * b.height then Err(InvalidInput) else Ok(b)
  }

  /** The checked reader refuses the board with a row missing. */
  lemma FromStrCheckedRefusesMissingRows(width: nat, row: seq<nat>, longest: nat)
    requires 2 <= width && |row| == width && 0 in row
    requires forall i :: 0 <= i < |row| ==> row[i] < width * width
    requires forall i, j :: 0 <= i < j < |row| ==> row[i] != row[j]
    ensures FromStrChecked(ToDecimal(width) + "\n" + Concat(Fields(row, longest)) + "\n") == Err(InvalidInput)
  {
    FromStrAcceptsMissingRows(width, row, longest);
  }

  /** Writing a square board and reading it with the checked reader gives
      the board back, with the solution of the generated board. */
  lemma CheckedRoundTrip(b: Board)
    requires 1 <= b.width == b.height
    requires IsPermutation(b.data, b.width * b.height)
    requires b.zeroPosition < |b.data| && b.data[b.zeroPosition] == 0
    ensures FromStrChecked(AsOutputString(b)) == Ok(b.(solution := NewBoard(b.width, b.height).solution))
  {
    RoundTrip(b);
  }
}
