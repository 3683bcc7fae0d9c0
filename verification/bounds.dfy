/** The two inclusive box tests: src/npuzzle/utils.rs (over `i32`) and the
    generic one of npuzzle_lib/src/utils.rs (here over `int`). */
module Bounds {

  /** True when (x, y) lies inside the box with corners `leftTop` and
      `rightBot`, both corners included. */
  predicate IsInBounds(x: int, y: int, leftTop: (int, int), rightBot: (int, int)): (r: bool)
    ensures r ==> leftTop.0 <= rightBot.0 && leftTop.1 <= rightBot.1
  {
    x >= leftTop.0 && x <= rightBot.0 && y >= leftTop.1 && y <= rightBot.1
  }

  /** The library copy: the same four comparisons, with `min` and `max`. */
  predicate LibIsInBounds(x: int, y: int, min: (int, int), max: (int, int)): (r: bool)
    ensures r ==> min.0 <= max.0 && min.1 <= max.1
  {
    x >= min.0 && x <= max.0 && y >= min.1 && y <= max.1
  }

  /** Both corners of a non-empty box count as inside. */
  lemma CornersInside(leftTop: (int, int), rightBot: (int, int))
    requires leftTop.0 <= rightBot.0 && leftTop.1 <= rightBot.1
    ensures IsInBounds(leftTop.0, leftTop.1, leftTop, rightBot)
    ensures IsInBounds(rightBot.0, rightBot.1, leftTop, rightBot)
    ensures IsInBounds(leftTop.0, rightBot.1, leftTop, rightBot)
    ensures IsInBounds(rightBot.0, leftTop.1, leftTop, rightBot)
  {
  }

  /** An inverted box holds no point. */
  lemma InvertedBoxIsEmpty(x: int, y: int, leftTop: (int, int), rightBot: (int, int))
    requires leftTop.0 > rightBot.0 || leftTop.1 > rightBot.1
    ensures !IsInBounds(x, y, leftTop, rightBot)
  {
  }

  /** Shrinking a box never admits a point that was outside it. */
  lemma ShrinkMonotone(x: int, y: int, lt: (int, int), rb: (int, int), lt': (int, int), rb': (int, int))
    requires lt.0 <= lt'.0 && lt.1 <= lt'.1 && rb'.0 <= rb.0 && rb'.1 <= rb.1
    ensures IsInBounds(x, y, lt', rb') ==> IsInBounds(x, y, lt, rb)
  {
  }

  /** The two copies agree on every integer point. */
  lemma CopiesAgree(x: int, y: int, lo: (int, int), hi: (int, int))
    ensures LibIsInBounds(x, y, lo, hi) == IsInBounds(x, y, lo, hi)
  {
  }

  /** The library's documented example: (3, 3) is inside (0, 0)..(5, 5). */
  lemma LibExample()
    ensures LibIsInBounds(3, 3, (0, 0), (5, 5))
  {
  }

  /** A coordinate below the lower corner is outside, as in the negative
      library test; corners themselves are inside. */
  lemma LibBelowMinOutside(x: int, y: int, min: (int, int), max: (int, int))
    requires x < min.0
    ensures !LibIsInBounds(x, y, min, max)
    ensures min.0 <= max.0 && min.1 <= max.1 ==>
      LibIsInBounds(min.0, min.1, min, max) && LibIsInBounds(max.0, max.1, min, max)
  {
  }
}
