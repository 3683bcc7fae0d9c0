/** The pieces of Rust's string handling that the board's text format
    relies on: `usize` printed in decimal and parsed back, right-aligned
    padding (`{:width$}` on a number), `split_whitespace` and
    `split("\n")`. Strings are sequences of `char`. */
module Text {

  // ---- decimal numbers ----------------------------------------------------

  predicate IsDigit(c: char) {
    '0' <= c <= '9'
  }

  predicate AllDigits(s: string) {
    forall i :: 0 <= i < |s| ==> IsDigit(s[i])
  }

  function DigitChar(d: nat): (c: char)
    requires d < 10
    ensures IsDigit(c)
  {
    (48 + d) as char
  }

  function DigitValue(c: char): (d: nat)
    requires IsDigit(c)
    ensures d < 10
  {
    c as int - 48
  }

  /** How `usize` prints: its decimal digits, without leading zeros. */
  function ToDecimal(v: nat): (s: string)
    ensures |s| >= 1 && AllDigits(s)
    ensures |s| > 1 ==> s[0] != '0'
    decreases v
  {
    if v < 10 then [DigitChar(v)] else ToDecimal(v / 10) + [DigitChar(v % 10)]
  }

  /** `str::parse::<usize>` on a string of ASCII digits; leading zeros are
      accepted, and there is no overflow. */
  function ParseDecimal(s: string): nat
    requires AllDigits(s)
    decreases |s|
  {
    if |s| == 0 then 0 else ParseDecimal(s[..|s| - 1]) * 10 + DigitValue(s[|s| - 1])
  }

  /** Parsing what was printed gives the number back. */
  lemma {:induction false} ParsePrinted(v: nat)
    ensures ParseDecimal(ToDecimal(v)) == v
    decreases v
  {
    var s := ToDecimal(v);
    if v >= 10 {
      ParsePrinted(v / 10);
      assert s[..|s| - 1] == ToDecimal(v / 10);
    }
  }

  /** Printing what was parsed gives the string back, when it has no
      leading zero. */
  lemma {:induction false} PrintParsed(s: string)
    requires |s| >= 1 && AllDigits(s) && (|s| > 1 ==> s[0] != '0')
    ensures ToDecimal(ParseDecimal(s)) == s
    decreases |s|
  {
    if |s| > 1 {
      var p := s[..|s| - 1];
      var d := DigitValue(s[|s| - 1]);
      assert p[0] == s[0];
      ParseAtLeastHead(p);
      var v := ParseDecimal(s);
      assert v == ParseDecimal(p) * 10 + d;
      assert v / 10 == ParseDecimal(p) && v % 10 == d;
      PrintParsed(p);
      assert s == p + [s[|s| - 1]];
    }
  }

  /** A digit string is worth at least its first digit. */
  lemma {:induction false} ParseAtLeastHead(s: string)
    requires |s| >= 1 && AllDigits(s)
    ensures ParseDecimal(s) >= DigitValue(s[0])
    decreases |s|
  {
    if |s| > 1 {
      var p := s[..|s| - 1];
      assert p[0] == s[0];
      ParseAtLeastHead(p);
    }
  }

  // ---- padding ------------------------------------------------------------

  function Spaces(n: nat): (s: string)
    ensures |s| == n && forall i :: 0 <= i < n ==> s[i] == ' '
  {
    seq(n, _ => ' ')
  }

  /** `{:width$}` on a number: right-aligned in at least `width` columns,
      spaces in front. */
  function PadLeft(t: string, width: nat): (s: string)
    ensures |s| == if |t| < width then width else |t|
    ensures |t| <= |s| && s[|s| - |t|..] == t
    ensures forall i :: 0 <= i < |s| - |t| ==> s[i] == ' '
  {
    if |t| < width then Spaces(width - |t|) + t else t
  }

  // ---- split_whitespace ---------------------------------------------------

  /** `char::is_whitespace`: the Unicode White_Space characters. */
  predicate IsSpace(c: char) {
    || ('\t' <= c <= '\r') || c == ' ' || c == '\U{0085}' || c == '\U{00A0}'
    || c == '\U{1680}' || ('\U{2000}' <= c <= '\U{200A}') || c == '\U{2028}'
    || c == '\U{2029}' || c == '\U{202F}' || c == '\U{205F}' || c == '\U{3000}'
  }

  predicate NoSpace(s: string) {
    forall i :: 0 <= i < |s| ==> !IsSpace(s[i])
  }

  /** The longest prefix of `s` without whitespace. */
  function Token(s: string): (t: string)
    ensures |t| <= |s| && t == s[..|t|] && NoSpace(t)
    ensures |t| < |s| ==> IsSpace(s[|t|])
  {
    if |s| == 0 || IsSpace(s[0]) then "" else [s[0]] + Token(s[1..])
  }

  /** `split_whitespace`: the maximal runs of non-whitespace, in order. */
  function Words(s: string): (ws: seq<string>)
    ensures forall i :: 0 <= i < |ws| ==> |ws[i]| >= 1 && NoSpace(ws[i])
    decreases |s|
  {
    if |s| == 0 then []
    else if IsSpace(s[0]) then Words(s[1..])
    else
      var t := Token(s);
      [t] + Words(s[|t|..])
  }

  /** Leading whitespace does not change the words. */
  lemma {:induction false} WordsSkipSpaces(k: nat, s: string)
    ensures Words(Spaces(k) + s) == Words(s)
    decreases k
  {
    if k > 0 {
      var t := Spaces(k) + s;
      assert IsSpace(t[0]);
      assert t[1..] == Spaces(k - 1) + s;
      WordsSkipSpaces(k - 1, s);
    } else {
      assert Spaces(k) + s == s;
    }
  }

  /** A string without whitespace is one word. */
  lemma WordsSingle(t: string)
    requires |t| >= 1 && NoSpace(t)
    ensures Words(t) == [t]
  {
    TokenWhole(t);
    assert !IsSpace(t[0]);
    assert t[|t|..] == "";
  }

  /** Without whitespace the whole string is the first token. */
  lemma {:induction false} TokenWhole(t: string)
    requires NoSpace(t)
    ensures Token(t) == t
    decreases |t|
  {
    if |t| > 0 {
      TokenWhole(t[1..]);
      assert t == [t[0]] + t[1..];
    }
  }

  /** A token followed by whitespace is the next word. */
  lemma WordsToken(t: string, c: char, rest: string)
    requires |t| >= 1 && NoSpace(t) && IsSpace(c)
    ensures Words(t + [c] + rest) == [t] + Words(rest)
  {
    var s := t + [c] + rest;
    TokenOf(t, c, rest);
    assert s[|t|..] == [c] + rest;
    assert ([c] + rest)[1..] == rest;
  }

  lemma {:induction false} TokenOf(t: string, c: char, rest: string)
    requires NoSpace(t) && IsSpace(c)
    ensures Token(t + [c] + rest) == t
    decreases |t|
  {
    if |t| > 0 {
      assert (t + [c] + rest)[1..] == t[1..] + [c] + rest;
      TokenOf(t[1..], c, rest);
      assert t == [t[0]] + t[1..];
    }
  }

  /** A right-aligned number followed by a space is one word. */
  lemma WordsPadded(t: string, width: nat, rest: string)
    requires |t| >= 1 && NoSpace(t)
    ensures Words(PadLeft(t, width) + " " + rest) == [t] + Words(rest)
  {
    WordsToken(t, ' ', rest);
    if |t| < width {
      assert PadLeft(t, width) + " " + rest == Spaces(width - |t|) + (t + [' '] + rest);
      WordsSkipSpaces(width - |t|, t + [' '] + rest);
    } else {
      assert PadLeft(t, width) + " " + rest == t + [' '] + rest;
    }
  }

  // ---- split("\n") --------------------------------------------------------

  /** `split("\n")`: the pieces between newlines, so one more piece than
      there are newlines; a trailing newline leaves an empty last piece. */
  function Lines(s: string): (ls: seq<string>)
    ensures |ls| >= 1
    ensures forall i :: 0 <= i < |ls| ==> '\n' !in ls[i]
    decreases |s|
  {
    if |s| == 0 then [""]
    else
      var rest := Lines(s[1..]);
      if s[0] == '\n' then [""] + rest else [[s[0]] + rest[0]] + rest[1..]
  }

  /** The pieces joined with newlines. */
  function JoinLines(ls: seq<string>): string
    requires |ls| >= 1
    decreases |ls|
  {
    if |ls| == 1 then ls[0] else ls[0] + "\n" + JoinLines(ls[1..])
  }

  /** Splitting loses nothing: joining the pieces gives the string back. */
  lemma {:induction false} JoinSplitLines(s: string)
    ensures JoinLines(Lines(s)) == s
    decreases |s|
  {
    if |s| > 0 {
      var rest := Lines(s[1..]);
      JoinSplitLines(s[1..]);
      if s[0] == '\n' {
        assert s == "\n" + s[1..];
      } else {
        var ls := Lines(s);
        assert ls[0] == [s[0]] + rest[0] && ls[1..] == rest[1..];
        if |rest| > 1 {
          assert JoinLines(rest) == rest[0] + "\n" + JoinLines(rest[1..]);
        }
        assert s == [s[0]] + s[1..];
      }
    }
  }

  /** A piece without a newline, then a newline, is the first line. */
  lemma {:induction false} LinesAfter(a: string, b: string)
    requires '\n' !in a
    ensures Lines(a + "\n" + b) == [a] + Lines(b)
    decreases |a|
  {
    if |a| == 0 {
      assert a + "\n" + b == "\n" + b;
      assert ("\n" + b)[1..] == b;
    } else {
      assert (a + "\n" + b)[1..] == a[1..] + "\n" + b;
      assert a[0] != '\n' by {
        assert a[0] in a;
      }
      LinesAfter(a[1..], b);
      assert a == [a[0]] + a[1..];
    }
  }
}
