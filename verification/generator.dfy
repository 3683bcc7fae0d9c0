/** `Generator` of src/npuzzle/generator.rs: load the template of the
    grid's own size, then walk away from it with random legal moves,
    refusing to step onto a grid already visited.

    The shuffle is generic over the grid, as the source is over any
    `G: Grid + Hash + Eq + Clone`: the three `Grid` operations it calls are
    passed as `GridOps`, and `Lawful` names the two facts about them the
    proofs rely on. `AnyGridOps` is the instance for the two `Grid2D`s.

    The random order `thread_rng` gives the legal moves is a parameter
    `order`: at pass `i` the moves `m` are tried in the order `order(i, m)`,
    which must be a rearrangement of `m`. */
module Generator {
  import opened Wrappers
  import opened Status
  import opened Geometry
  import opened Layout
  import opened GridApi
  import opened Templates

  /** The `Grid` operations `shuffle` uses. The outcome of a move is
      ignored there, so a move here yields only the grid after it. */
  datatype GridOps<!G> = GridOps(
    possibleMoves: G -> seq<Direction>,
    doMove: (G, Direction) -> G,
    undoMove: (G, Direction) -> G)

  /** From any grid satisfying `inv`, a listed move leads to a grid
      satisfying `inv`, and undoing it restores the grid exactly. */
  ghost predicate Lawful<G(!new)>(ops: GridOps<G>, inv: G -> bool) {
    forall g, d :: inv(g) && d in ops.possibleMoves(g) ==>
      inv(ops.doMove(g, d)) && ops.undoMove(ops.doMove(g, d), d) == g
  }

  // ---- walks --------------------------------------------------------------

  /** The grids passed through when `moves` are applied one after another
      from `g`, starting with `g` itself. */
  function Walk<G>(ops: GridOps<G>, g: G, moves: seq<Direction>): (t: seq<G>)
    ensures |t| == |moves| + 1 && t[0] == g
    ensures forall k :: 0 <= k < |moves| ==> t[k + 1] == ops.doMove(t[k], moves[k])
    decreases |moves|
  {
    if |moves| == 0 then [g]
    else
      var rest := Walk(ops, ops.doMove(g, moves[0]), moves[1..]);
      assert forall k :: 1 <= k < |moves| ==> moves[k] == moves[1..][k - 1];
      [g] + rest
  }

  /** Every move of the walk is one `possible_moves` lists at that point. */
  ghost predicate Legal<G>(ops: GridOps<G>, g: G, moves: seq<Direction>) {
    var t := Walk(ops, g, moves);
    forall k :: 0 <= k < |moves| ==> moves[k] in ops.possibleMoves(t[k])
  }

  /** A legal walk from a grid satisfying a lawful invariant stays inside it. */
  lemma {:induction false} WalkKeepsInvariant<G(!new)>(ops: GridOps<G>, inv: G -> bool, g: G, moves: seq<Direction>, k: nat)
    requires Lawful(ops, inv) && inv(g) && Legal(ops, g, moves) && k <= |moves|
    ensures inv(Walk(ops, g, moves)[k])
  {
    if k > 0 {
      var t := Walk(ops, g, moves);
      WalkKeepsInvariant(ops, inv, g, moves, k - 1);
      assert moves[k - 1] in ops.possibleMoves(t[k - 1]);
      assert t[k] == ops.doMove(t[k - 1], moves[k - 1]);
    }
  }

  /** Undoes `moves` from `g`, the last move first: what a solver that
      knows the scramble does. */
  function Unwalk<G>(ops: GridOps<G>, g: G, moves: seq<Direction>): G
    decreases |moves|
  {
    if |moves| == 0 then g else ops.undoMove(Unwalk(ops, g, moves[1..]), moves[0])
  }

  /** Undoing a legal walk from a grid satisfying a lawful invariant, last
      move first, leads back to where the walk started. */
  lemma {:induction false} UnwalkWalk<G(!new)>(ops: GridOps<G>, inv: G -> bool, g: G, moves: seq<Direction>)
    requires Lawful(ops, inv) && inv(g) && Legal(ops, g, moves)
    ensures Unwalk(ops, Walk(ops, g, moves)[|moves|], moves) == g
    decreases |moves|
  {
    if |moves| > 0 {
      var d, rest := moves[0], moves[1..];
      var g1 := ops.doMove(g, d);
      var t, t1 := Walk(ops, g, moves), Walk(ops, g1, rest);
      assert t == [g] + t1;
      assert d in ops.possibleMoves(t[0]);
      assert Legal(ops, g1, rest) by {
        forall k | 0 <= k < |rest|
          ensures rest[k] in ops.possibleMoves(t1[k])
        {
          assert rest[k] == moves[k + 1] && t1[k] == t[k + 1];
        }
      }
      UnwalkWalk(ops, inv, g1, rest);
      assert t[|moves|] == t1[|rest|];
    }
  }

  // ---- shuffle ------------------------------------------------------------

  /** The inner `'consider` loop: try `moves` in turn; keep the first whose
      result is not in `visited`, undoing each one that is. */
  function Consider<G(==)>(ops: GridOps<G>, g: G, moves: seq<Direction>, visited: set<G>): (r: (G, Option<Direction>))
    ensures r.1.Some? ==> r.1.value in moves && r.0 !in visited
    decreases |moves|
  {
    if |moves| == 0 then (g, None)
    else
      var g1 := ops.doMove(g, moves[0]);
      if g1 !in visited then (g1, Some(moves[0]))
      else Consider(ops, ops.undoMove(g1, moves[0]), moves[1..], visited)
  }

  /** With lawful operations and only listed moves to try, `Consider` makes
      the first move whose result is unvisited, and if there is none it
      leaves the grid exactly as it was. */
  lemma {:induction false} ConsiderSpec<G(!new)>(ops: GridOps<G>, inv: G -> bool, g: G, moves: seq<Direction>, visited: set<G>)
    requires Lawful(ops, inv) && inv(g)
    requires forall d :: d in moves ==> d in ops.possibleMoves(g)
    ensures var r := Consider(ops, g, moves, visited);
      && (r.1.None? ==> r.0 == g && forall d :: d in moves ==> ops.doMove(g, d) in visited)
      && (r.1.Some? ==>
            && r.0 == ops.doMove(g, r.1.value)
            && exists k :: 0 <= k < |moves| && moves[k] == r.1.value &&
                 forall j :: 0 <= j < k ==> ops.doMove(g, moves[j]) in visited)
    decreases |moves|
  {
    if |moves| > 0 {
      var d := moves[0];
      var g1 := ops.doMove(g, d);
      if g1 in visited {
        assert ops.undoMove(g1, d) == g;
        ConsiderSpec(ops, inv, g, moves[1..], visited);
        var r := Consider(ops, g, moves, visited);
        if r.1.Some? {
          var k :| 0 <= k < |moves[1..]| && moves[1..][k] == r.1.value &&
                   forall j :: 0 <= j < k ==> ops.doMove(g, moves[1..][j]) in visited;
          assert moves[k + 1] == r.1.value;
          forall j | 0 <= j < k + 1
            ensures ops.doMove(g, moves[j]) in visited
          {
            if j > 0 {
              assert moves[j] == moves[1..][j - 1];
            }
          }
        } else {
          forall e | e in moves
            ensures ops.doMove(g, e) in visited
          {
            if e != d {
              assert e in moves[1..];
            }
          }
        }
      } else {
        assert moves[0] == d;
      }
    }
  }

  /** What `shuffle` leaves: the grid, the moves it made, and the visited set. */
  datatype Shuffled<G> = Shuffled(grid: G, moves: seq<Direction>, visited: set<G>)

  /** The outer `'shuffle` loop from pass `i`: stop after `iterations`
      passes, or as soon as a pass finds no unvisited move. */
  function ShuffleFrom<G(==)>(ops: GridOps<G>, g: G, i: nat, iterations: nat, visited: set<G>, order: Order<Direction>): (r: Shuffled<G>)
    requires i <= iterations
    ensures |r.moves| <= iterations - i
    ensures visited <= r.visited
    decreases iterations - i
  {
    if i == iterations then Shuffled(g, [], visited)
    else
      var (g1, m) := Consider(ops, g, order(i, ops.possibleMoves(g)), visited);
      match m
      case None => Shuffled(g1, [], visited)
      case Some(d) =>
        var rest := ShuffleFrom(ops, g1, i + 1, iterations, visited + {g1}, order);
        Shuffled(rest.grid, [d] + rest.moves, rest.visited)
  }

  /** `shuffle`: nothing happens for 0 iterations; otherwise the walk starts
      with an EMPTY visited set, so the starting grid is not remembered. */
  function Shuffle<G(==)>(ops: GridOps<G>, g: G, iterations: nat, order: Order<Direction>): (r: Shuffled<G>)
    ensures iterations == 0 ==> r.grid == g && r.moves == []
    ensures |r.moves| <= iterations
  {
    if iterations == 0 then Shuffled(g, [], {})
    else ShuffleFrom(ops, g, 0, iterations, {}, order)
  }

  /** A rearrangement of `m` holds exactly the moves of `m`. */
  lemma ReorderedMoves(order: Order<Direction>, i: nat, m: seq<Direction>)
    requires Reorders(order)
    ensures forall d :: d in order(i, m) <==> d in m
  {
    assert multiset(order(i, m)) == multiset(m);
    forall d
      ensures d in order(i, m) <==> d in m
    {
      assert d in order(i, m) <==> d in multiset(order(i, m));
      assert d in m <==> d in multiset(m);
    }
  }

  /** The shuffle loop, pass by pass: the moves it makes form a legal walk
      ending at the grid it returns; every grid after the start is new to
      `visited` and to each other; and a walk cut short ends on a grid
      whose every legal move leads back into the visited set. */
  lemma {:induction false} ShuffleFromSpec<G(!new)>(ops: GridOps<G>, inv: G -> bool, g: G, i: nat, iterations: nat,
                                                       visited: set<G>, order: Order<Direction>)
    requires Lawful(ops, inv) && inv(g) && i <= iterations && Reorders(order)
    ensures var r := ShuffleFrom(ops, g, i, iterations, visited, order);
      var t := Walk(ops, g, r.moves);
      && Legal(ops, g, r.moves) && t[|r.moves|] == r.grid
      && (forall k :: 1 <= k <= |r.moves| ==> t[k] !in visited && t[k] in r.visited)
      && (forall j, k :: 1 <= j < k <= |r.moves| ==> t[j] != t[k])
      && (|r.moves| < iterations - i ==>
            forall d :: d in ops.possibleMoves(r.grid) ==> ops.doMove(r.grid, d) in r.visited)
    decreases iterations - i
  {
    var r := ShuffleFrom(ops, g, i, iterations, visited, order);
    if i < iterations {
      var moves := order(i, ops.possibleMoves(g));
      ReorderedMoves(order, i, ops.possibleMoves(g));
      ConsiderSpec(ops, inv, g, moves, visited);
      var (g1, m) := Consider(ops, g, moves, visited);
      if m.Some? {
        var d := m.value;
        var v1 := visited + {g1};
        ShuffleFromSpec(ops, inv, g1, i + 1, iterations, v1, order);
        var rest := ShuffleFrom(ops, g1, i + 1, iterations, v1, order);
        assert r.moves == [d] + rest.moves && r.grid == rest.grid && r.visited == rest.visited;
        LegalCons(ops, g, d, rest.moves);
        assert Walk(ops, g, r.moves)[|r.moves|] == Walk(ops, g1, rest.moves)[|rest.moves|];
        ShuffleWalkNew(r.moves, visited, v1, Walk(ops, g, r.moves), Walk(ops, g1, rest.moves), rest.visited);
      } else {
        assert r == Shuffled(g, [], visited);
        forall e | e in ops.possibleMoves(g)
          ensures ops.doMove(g, e) in visited
        {
          assert e in moves;
        }
      }
    }
  }

  /** A walk that starts with a listed move and goes on legally is legal,
      and passes through the start and then the walk after the move. */
  lemma LegalCons<G>(ops: GridOps<G>, g: G, d: Direction, rest: seq<Direction>)
    requires d in ops.possibleMoves(g) && Legal(ops, ops.doMove(g, d), rest)
    ensures Walk(ops, g, [d] + rest) == [g] + Walk(ops, ops.doMove(g, d), rest)
    ensures Legal(ops, g, [d] + rest)
  {
    var moves, t1 := [d] + rest, Walk(ops, ops.doMove(g, d), rest);
    assert moves[1..] == rest;
    var t := Walk(ops, g, moves);
    forall k | 0 <= k < |moves|
      ensures moves[k] in ops.possibleMoves(t[k])
    {
      if k > 0 {
        assert moves[k] == rest[k - 1] && t[k] == t1[k - 1];
      }
    }
  }

  /** The inductive step of `ShuffleFromSpec` on the walk: the first new
      grid joined the visited set before the rest of the walk was made. */
  lemma ShuffleWalkNew<G>(moves: seq<Direction>, visited: set<G>, v1: set<G>, t: seq<G>, t1: seq<G>, last: set<G>)
    requires |moves| >= 1 && |t| == |moves| + 1 && t[1..] == t1
    requires t1[0] !in visited && v1 == visited + {t1[0]} && v1 <= last
    requires forall k :: 1 <= k <= |moves| - 1 ==> t1[k] !in v1 && t1[k] in last
    requires forall j, k :: 1 <= j < k <= |moves| - 1 ==> t1[j] != t1[k]
    ensures forall k :: 1 <= k <= |moves| ==> t[k] !in visited && t[k] in last
    ensures forall j, k :: 1 <= j < k <= |moves| ==> t[j] != t[k]
  {
    forall k | 1 <= k <= |moves|
      ensures t[k] !in visited && t[k] in last
    {
      assert t[k] == t1[k - 1];
    }
    forall j, k | 1 <= j < k <= |moves|
      ensures t[j] != t[k]
    {
      assert t[j] == t1[j - 1] && t[k] == t1[k - 1];
    }
  }

  /** `shuffle` as written: a legal walk whose grids after the start are
      pairwise distinct. The start itself is not protected; see
      `ShuffleCanReturnToStart`. */
  lemma ShuffleSpec<G(!new)>(ops: GridOps<G>, inv: G -> bool, g: G, iterations: nat, order: Order<Direction>)
    requires Lawful(ops, inv) && inv(g) && Reorders(order)
    ensures var r := Shuffle(ops, g, iterations, order);
      var t := Walk(ops, g, r.moves);
      && Legal(ops, g, r.moves) && t[|r.moves|] == r.grid
      && (forall j, k :: 1 <= j < k <= |r.moves| ==> t[j] != t[k])
  {
    if iterations > 0 {
      ShuffleFromSpec(ops, inv, g, 0, iterations, {}, order);
    }
  }

  /** The evidently intended `shuffle`: the starting grid is marked visited
      before the first pass. */
  function ShuffleSeeded<G(==)>(ops: GridOps<G>, g: G, iterations: nat, order: Order<Direction>): (r: Shuffled<G>)
    ensures |r.moves| <= iterations
  {
    if iterations == 0 then Shuffled(g, [], {})
    else ShuffleFrom(ops, g, 0, iterations, {g}, order)
  }

  /** With the start seeded, every grid of the walk, the start included,
      is distinct from every other; so a shuffle that moves at all never
      returns the grid it was given. */
  lemma ShuffleSeededSpec<G(!new)>(ops: GridOps<G>, inv: G -> bool, g: G, iterations: nat, order: Order<Direction>)
    requires Lawful(ops, inv) && inv(g) && Reorders(order)
    ensures var r := ShuffleSeeded(ops, g, iterations, order);
      var t := Walk(ops, g, r.moves);
      && Legal(ops, g, r.moves) && t[|r.moves|] == r.grid
      && (forall j, k :: 0 <= j < k <= |r.moves| ==> t[j] != t[k])
      && (|r.moves| > 0 ==> r.grid != g)
  {
    if iterations > 0 {
      ShuffleFromSpec(ops, inv, g, 0, iterations, {g}, order);
    }
  }

  // ---- the two Grid2D implementations -------------------------------------

  /** The `Grid` operations of `AnyGrid`. A grid that is not rectangular is
      left alone; the walks below never meet one. */
  function AnyGridOps(): GridOps<AnyGrid> {
    GridOps(
      g => PossibleMoves(g),
      (g, d) => if Rect(g) then DoMove(g, d).0 else g,
      (g, d) => if Rect(g) then UndoMove(g, d).0 else g)
  }

  /** Well-formed, holding a permutation layout. */
  predicate Ready(g: AnyGrid) {
    Wf(g) && Permuted(g)
  }

  /** A listed move on a ready grid succeeds, keeps the grid ready, and is
      undone exactly. */
  lemma StepLaw(g: AnyGrid, d: Direction)
    requires Ready(g) && d in PossibleMoves(g)
    ensures DoMove(g, d).1 == Pass && Ready(DoMove(g, d).0)
    ensures UndoMove(DoMove(g, d).0, d).0 == g
  {
    DoMoveIffPossible(g, d);
    DoMoveKeepsPermutation(g, d);
    UndoAfterDo(g, d);
  }

  /** Both `Grid2D`s obey the laws on ready grids. */
  lemma AnyGridLawful()
    ensures Lawful(AnyGridOps(), Ready)
  {
    var ops := AnyGridOps();
    forall g, d | Ready(g) && d in ops.possibleMoves(g)
      ensures Ready(ops.doMove(g, d)) && ops.undoMove(ops.doMove(g, d), d) == g
    {
      StepLaw(g, d);
    }
  }

  // ---- the generator ------------------------------------------------------

  /** `Generator<G>`: the grid it works on and the template kind. */
  datatype Generator = Generator(grid: AnyGrid, puzzleType: PuzzleType)

  function Width(g: AnyGrid): nat {
    Dim(g).0
  }

  function Height(g: AnyGrid): nat {
    Dim(g).1
  }

  /** `generate_solution`: load the template of the grid's own size; the
      loader's outcome is ignored. */
  function GenerateSolution(gen: Generator): (r: Generator)
    requires Supports(gen.puzzleType, Width(gen.grid), Height(gen.grid))
    ensures r.puzzleType == gen.puzzleType && r.grid.Lib? == gen.grid.Lib?
    ensures Data(r.grid) == GetTemplate(gen.puzzleType, Width(gen.grid), Height(gen.grid))
    ensures gen.grid.Legacy? ==> Dim(r.grid) == Dim(gen.grid) && r.grid.legacy.zero == gen.grid.legacy.zero
  {
    var template := GetTemplate(gen.puzzleType, Width(gen.grid), Height(gen.grid));
    gen.(grid := From2DVec(gen.grid, template).0)
  }

  /** On the library grid with at least one cell the solution loads: the
      grid is well-formed, keeps its size and holds a permutation layout. */
  lemma GenerateSolutionReady(gen: Generator)
    requires gen.grid.Lib? && 1 <= Width(gen.grid) && 1 <= Height(gen.grid)
    ensures Ready(GenerateSolution(gen).grid)
    ensures Dim(GenerateSolution(gen).grid) == Dim(gen.grid)
  {
    var (w, h) := Dim(gen.grid);
    var template := GetTemplate(gen.puzzleType, w, h);
    var p := Blank(gen.puzzleType, w, h);
    LibGrid.From2DVecRect(gen.grid.lib, template, Coords(p.0, p.1));
  }

  /** `generate_random`: the solution, then `iterations` shuffle passes. */
  function GenerateRandom(gen: Generator, iterations: nat, order: Order<Direction>): (r: Generator)
    requires Supports(gen.puzzleType, Width(gen.grid), Height(gen.grid))
    ensures r.puzzleType == gen.puzzleType
    ensures iterations == 0 ==> r == GenerateSolution(gen)
  {
    var solved := GenerateSolution(gen);
    solved.(grid := Shuffle(AnyGridOps(), solved.grid, iterations, order).grid)
  }

  /** Ready, of one kind and size. */
  predicate ReadyLike(g: AnyGrid, like: AnyGrid) {
    Ready(g) && Dim(g) == Dim(like) && g.Lib? == like.Lib?
  }

  /** On the library grid with at least one cell, `generate_random` yields
      a well-formed permutation layout of the grid's size that a legal walk
      reaches from the template, and undoing that walk, last move first,
      gives the template back: the puzzle it produces can be solved. */
  lemma GenerateRandomReachable(gen: Generator, iterations: nat, order: Order<Direction>)
    requires gen.grid.Lib? && 1 <= Width(gen.grid) && 1 <= Height(gen.grid) && Reorders(order)
    ensures var solved := GenerateSolution(gen).grid;
      var r := Shuffle(AnyGridOps(), solved, iterations, order);
      && GenerateRandom(gen, iterations, order).grid == r.grid
      && Legal(AnyGridOps(), solved, r.moves) && Walk(AnyGridOps(), solved, r.moves)[|r.moves|] == r.grid
      && ReadyLike(r.grid, gen.grid)
      && Unwalk(AnyGridOps(), r.grid, r.moves) == solved
  {
    var ops := AnyGridOps();
    var solved := GenerateSolution(gen).grid;
    GenerateSolutionReady(gen);
    var inv := g => ReadyLike(g, gen.grid);
    assert Lawful(ops, inv) by {
      forall g, d | inv(g) && d in ops.possibleMoves(g)
        ensures inv(ops.doMove(g, d)) && ops.undoMove(ops.doMove(g, d), d) == g
      {
        StepLaw(g, d);
      }
    }
    ShuffleSpec(ops, inv, solved, iterations, order);
    var r := Shuffle(ops, solved, iterations, order);
    WalkKeepsInvariant(ops, inv, solved, r.moves, |r.moves|);
    UnwalkWalk(ops, inv, solved, r.moves);
  }

  // ---- the start is not remembered ----------------------------------------

  /** The moves tried in the order `possible_moves` lists them. */
  function InOrder(i: nat, moves: seq<Direction>): seq<Direction> {
    moves
  }

  lemma InOrderReorders()
    ensures Reorders(InOrder)
  {
  }

  /** A well-formed 2 x 2 library grid with the blank top-left, such as
      the solved `[[0, 1], [2, 3]]`. */
  predicate IsCornerStart(g: AnyGrid) {
    g.Lib? && Wf(g) && Dim(g) == (2, 2) && g.lib.zero == Coords(0, 0)
  }

  /** First pass: the possible moves are down and right, and down leads to
      the blank bottom-left. */
  lemma FirstPass(g: AnyGrid)
    requires IsCornerStart(g)
    ensures PossibleMoves(g) == [Down, Right]
    ensures var y := AnyGridOps().doMove(g, Down);
      y.Lib? && Wf(y) && Dim(y) == (2, 2) && y.lib.zero == Coords(1, 0)
  {
    LibGrid.TopLeftMoves(g.lib);
    assert LibGrid.Legal(g.lib, Down);
    assert Rect(g);
    assert AnyGridOps().doMove(g, Down) == DoMove(g, Down).0;
  }

  /** Second pass: the possible moves are up and right, and up leads back
      to the start. */
  lemma SecondPass(g: AnyGrid)
    requires IsCornerStart(g)
    ensures PossibleMoves(AnyGridOps().doMove(g, Down)) == [Up, Right]
    ensures AnyGridOps().doMove(AnyGridOps().doMove(g, Down), Up) == g
  {
    FirstPass(g);
    var y := AnyGridOps().doMove(g, Down);
    LibGrid.BottomLeftMoves(y.lib);
    LibGrid.UndoAfterDo(g.lib, Down);
    assert Rect(y);
    assert AnyGridOps().doMove(y, Up) == DoMove(y, Up).0 == UndoMove(y, Down).0;
  }

  /** Two passes over a 2 x 2 grid with the blank top-left and the moves
      tried in listed order: down, then up, back onto the starting grid,
      which nothing had marked visited. */
  lemma ShuffleCanReturnToStart(g: AnyGrid)
    requires IsCornerStart(g)
    ensures var r := Shuffle(AnyGridOps(), g, 2, InOrder);
      r.moves == [Down, Up] && r.grid == g
  {
    var ops := AnyGridOps();
    FirstPass(g);
    SecondPass(g);
    var y := ops.doMove(g, Down);
    assert y != g;
    assert Consider(ops, g, [Down, Right], {}) == (y, Some(Down));
    assert Consider(ops, y, [Up, Right], {y}) == (g, Some(Up));
    var last := ShuffleFrom(ops, g, 2, 2, {y, g}, InOrder);
    var second := ShuffleFrom(ops, y, 1, 2, {y}, InOrder);
    assert second == Shuffled(g, [Up], last.visited);
  }

  /** The seeded shuffle on the same grids and order never comes back: it
      moves down, then, with up leading into the visited set, right. */
  lemma SeededShuffleAvoidsStart(g: AnyGrid)
    requires IsCornerStart(g)
    ensures var r := ShuffleSeeded(AnyGridOps(), g, 2, InOrder);
      r.moves == [Down, Right] && r.grid != g
  {
    var ops := AnyGridOps();
    FirstPass(g);
    SecondPass(g);
    var y := ops.doMove(g, Down);
    assert y != g;
    assert Consider(ops, g, [Down, Right], {g}) == (y, Some(Down));
    var z := ops.doMove(y, Right);
    assert z.lib.zero == Coords(1, 1);
    assert Consider(ops, y, [Up, Right], {g, y}) == (z, Some(Right));
  }
}
