/** Directions and coordinates shared by both `Grid2D` implementations
    (npuzzle_lib/src/grid2d.rs and src/npuzzle/grid2d.rs declare identical
    `Direction` enums and `Coords` structs; only the offsets differ, and those
    live with each grid). */
module Geometry {

  datatype Direction = Up | Down | Right | Left

  /** A (row, column) pair, used both as a position and as an offset. The
      `i32` fields are unbounded here. */
  datatype Coords = Coords(row: int, col: int)

  function Add(a: Coords, b: Coords): Coords
  {
    Coords(a.row + b.row, a.col + b.col)
  }

  function Sub(a: Coords, b: Coords): Coords
  {
    Coords(a.row - b.row, a.col - b.col)
  }

  /** Subtracting an offset undoes adding it, and the other way round. */
  lemma AddSubInverse(a: Coords, b: Coords)
    ensures Sub(Add(a, b), b) == a
    ensures Add(Sub(a, b), b) == a
  {
  }

  function Neg(a: Coords): Coords {
    Coords(-a.row, -a.col)
  }

  /** `Direction::iterator`: the order in which moves are considered. */
  const Directions: seq<Direction> := [Up, Down, Right, Left]

  /** Position of a direction in `Directions`. */
  function Rank(d: Direction): (r: nat)
    ensures r < |Directions| && Directions[r] == d
  {
    match d
    case Up => 0
    case Down => 1
    case Right => 2
    case Left => 3
  }

  /** `Direction::iterator().filter(keep)`: each accepted direction once,
      in the order of `Directions`. */
  function Filter(keep: Direction -> bool): (r: seq<Direction>)
    ensures forall d :: d in r <==> keep(d)
  {
    var r := Keep(keep, Up) + Keep(keep, Down) + Keep(keep, Right) + Keep(keep, Left);
    assert forall d :: d in r <==> d in Keep(keep, d);
    r
  }

  /** `[d]` if `keep` accepts `d`, else nothing. */
  function Keep(keep: Direction -> bool, d: Direction): (r: seq<Direction>)
    ensures forall e :: e in r <==> e == d && keep(d)
    ensures forall i :: 0 <= i < |r| ==> r[i] == d
  {
    if keep(d) then [d] else []
  }

  /** Listed in strictly increasing `Rank`: the order of `Directions`, with
      no direction twice. */
  predicate InRankOrder(s: seq<Direction>) {
    forall i, j :: 0 <= i < j < |s| ==> Rank(s[i]) < Rank(s[j])
  }

  /** Appending `Keep(keep, d)` to a rank-ordered list of directions ranked
      below `d` keeps it in rank order, now ranked at most `d`. */
  lemma AppendKeep(a: seq<Direction>, keep: Direction -> bool, d: Direction)
    requires InRankOrder(a)
    requires forall i :: 0 <= i < |a| ==> Rank(a[i]) < Rank(d)
    ensures InRankOrder(a + Keep(keep, d))
    ensures forall i :: 0 <= i < |a + Keep(keep, d)| ==> Rank((a + Keep(keep, d))[i]) <= Rank(d)
  {
    var b := Keep(keep, d);
    forall i, j | 0 <= i < j < |a + b|
      ensures Rank((a + b)[i]) < Rank((a + b)[j])
    {
      if j < |a| {
        assert (a + b)[i] == a[i] && (a + b)[j] == a[j];
      } else {
        assert (a + b)[i] == a[i] && (a + b)[j] == d;
      }
    }
  }

  lemma FilterInRankOrder(keep: Direction -> bool)
    ensures InRankOrder(Filter(keep))
  {
    var up := Keep(keep, Up);
    AppendKeep(up, keep, Down);
    var s := up + Keep(keep, Down);
    AppendKeep(s, keep, Right);
    s := s + Keep(keep, Right);
    AppendKeep(s, keep, Left);
  }

  lemma HeadIn(s: seq<Direction>)
    requires |s| > 0
    ensures s[0] in s
  {
  }

  /** Two lists holding the same directions, each in increasing `Rank`,
      are the same list: the result of `Filter` is determined by which
      directions it keeps. */
  lemma {:induction false} RankSortedUnique(a: seq<Direction>, b: seq<Direction>)
    requires forall d :: d in a <==> d in b
    requires InRankOrder(a) && InRankOrder(b)
    ensures a == b
    decreases |a|
  {
    if |a| == 0 {
      if |b| > 0 {
        HeadIn(b);
        assert false;
      }
    } else {
      assert b[0] in a by { assert a[0] in a; }
      assert a[0] == b[0] by {
        assert a[0] in b;
        assert b[0] in a;
      }
      forall d
        ensures d in a[1..] <==> d in b[1..]
      {
        if d in a[1..] {
          var i :| 1 <= i < |a| && a[i] == d;
          assert d != a[0];
          assert d in b;
        }
        if d in b[1..] {
          var j :| 1 <= j < |b| && b[j] == d;
          assert d != b[0];
          assert d in a;
        }
      }
      RankSortedUnique(a[1..], b[1..]);
      assert a == [a[0]] + a[1..] && b == [b[0]] + b[1..];
    }
  }

  /** The reverse move: vertical and horizontal directions swap with their
      partner and never with each other. */
  function Opposite(d: Direction): (r: Direction)
    ensures r != d
    ensures (d == Up || d == Down) <==> (r == Up || r == Down)
  {
    match d
    case Up => Down
    case Down => Up
    case Right => Left
    case Left => Right
  }

  lemma OppositeInvolution(d: Direction)
    ensures Opposite(Opposite(d)) == d
  {
  }

  /** The random rearrangement both shuffles apply to their candidate
      moves (`shuffle(&mut thread_rng())`), supplied by the caller: at pass
      `i` the candidates `s` are tried in the order `order(i, s)`. */
  type Order<!T> = (nat, seq<T>) -> seq<T>

  /** `order` only rearranges: each call returns the candidates it was
      given, each as often. */
  ghost predicate Reorders<T(!new)>(order: Order<T>) {
    forall i: nat, s: seq<T> :: multiset(order(i, s)) == multiset(s)
  }
}
