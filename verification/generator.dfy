/**
  `Maze#create`: randomized depth-first carving with an explicit stack.
  The walk holds the current cell, the stack of cells to return to and the
  count `nv` of visited cells; each iteration either moves forward to a
  random untouched neighbour, knocking down the wall in between, or pops
  the stack.  The random pick is an arbitrary choice among the neighbours.
 */
module Generator {
  import opened Cells
  import opened Grids
  import opened Carving

  /** The loop state of `create`: the grid, `current_cell`, `cell_stack` and `nv`. */
  datatype Walk = Walk(maze: Maze, current: Pos, stack: seq<Pos>, nv: int)

  /** `n = nx * ny`, the number of cells. */
  function CellCount(m: Maze): int {
    m.nx * m.ny
  }

  /**
    The forward step: knock down the wall from the current cell towards
    direction `d`, push the current cell, move to the neighbour and count it
    as visited.  Exactly one wall pair changes.
   */
  function Advance(w: Walk, d: Dir): (r: Walk)
    requires WellFormed(w.maze) && InBounds(w.maze, w.current) && InBounds(w.maze, Step(w.current, d))
    ensures r.current == Step(w.current, d) && r.nv == w.nv + 1
    ensures r.stack == w.stack + [w.current]
    ensures WellFormed(r.maze) && SameShape(r.maze, w.maze)
    ensures !WallAt(r.maze, w.current, d) && !WallAt(r.maze, r.current, Opp(d))
    ensures forall q, e :: InBounds(w.maze, q) && (q, e) != (w.current, d) && (q, e) != (r.current, Opp(d)) ==>
              WallAt(r.maze, q, e) == WallAt(w.maze, q, e)
  {
    Walk(KnockDown(w.maze, w.current, d), Step(w.current, d), w.stack + [w.current], w.nv + 1)
  }

  /**
    The backtrack step: pop the stack into the current cell, leaving walls
    and `nv` alone.  On an empty stack Ruby's `pop` yields nil, which is
    reported here as `None`.
   */
  function Backtrack(w: Walk): (r: Option<Walk>)
    ensures r.None? <==> w.stack == []
    ensures r.Some? ==> r.value.stack + [r.value.current] == w.stack
    ensures r.Some? ==> r.value.maze == w.maze && r.value.nv == w.nv
  {
    if w.stack == [] then None
    else Some(w.(current := w.stack[|w.stack| - 1], stack := w.stack[..|w.stack| - 1]))
  }

  /** Backtracking right after a forward step returns to the cell and stack the step started from. */
  lemma BacktrackUndoesAdvance(w: Walk, d: Dir)
    requires WellFormed(w.maze) && InBounds(w.maze, w.current) && InBounds(w.maze, Step(w.current, d))
    ensures Backtrack(Advance(w, d)).Some?
    ensures Backtrack(Advance(w, d)).value.current == w.current
    ensures Backtrack(Advance(w, d)).value.stack == w.stack
  {
    var r := Advance(w, d);
    assert r.stack[..|r.stack| - 1] == w.stack;
  }

  /** The grid keeps its shape and its wall invariants. */
  ghost predicate GridOk(m: Maze) {
    && WellFormed(m) && 1 <= m.nx && 1 <= m.ny && InBounds(m, Start(m))
    && Symmetric(m) && BorderIntact(m)
  }

  /** The walk only touches visited cells; before the first move it stands on the start with an empty stack. */
  ghost predicate WalkInside(w: Walk, visited: set<Pos>) {
    && visited <= Positions(w.maze)
    && Start(w.maze) in visited && w.current in visited && InBounds(w.maze, w.current)
    && (forall i :: 0 <= i < |w.stack| ==> w.stack[i] in visited && InBounds(w.maze, w.stack[i]))
    && (w.nv == 1 ==> w.current == Start(w.maze) && w.stack == [])
  }

  /**
    `nv` counts the visited cells, and a cell has all its walls exactly when
    it is unvisited, or it is the start and the walk has not moved yet.
   */
  ghost predicate VisitedByWalls(m: Maze, visited: set<Pos>, nv: int)
    requires WellFormed(m)
  {
    && |visited| == nv && nv <= CellCount(m)
    && (forall p :: InBounds(m, p) && p !in visited ==> AllWalls(At(m, p)))
    && (forall p :: InBounds(m, p) && p in visited && (nv > 1 || p != Start(m)) ==> !AllWalls(At(m, p)))
  }

  /** The open walls form a tree over the visited cells: one fewer pair than cells, and a path from the start to each. */
  ghost predicate TreeSoFar(m: Maze, visited: set<Pos>, paths: map<Pos, seq<Pos>>, nv: int)
    requires WellFormed(m)
  {
    && |OpenPairs(m)| == nv - 1
    && paths.Keys == visited
    && (forall p :: p in visited ==> IsPath(m, paths[p], Start(m), p))
  }

  /** A visited cell that is neither current nor on the stack has no unvisited neighbour left. */
  ghost predicate DoneBehind(w: Walk, visited: set<Pos>) {
    forall p :: p in visited && p != w.current && p !in w.stack ==> Finished(w.maze, visited, p)
  }

  /**
    What holds between two iterations of the loop.  `visited` is the set of
    cells the walk has reached and `paths` gives, for each, a path from the
    start through knocked-down walls.
   */
  ghost predicate Invariant(w: Walk, visited: set<Pos>, paths: map<Pos, seq<Pos>>) {
    && GridOk(w.maze)
    && WalkInside(w, visited)
    && VisitedByWalls(w.maze, visited, w.nv)
    && TreeSoFar(w.maze, visited, paths, w.nv)
    && DoneBehind(w, visited)
  }

  /** Before the first iteration the only visited cell is the start, which still has all its walls. */
  lemma InitVisitedByWalls(m: Maze)
    requires WellFormed(m) && Pristine(m) && 1 <= m.nx && 1 <= m.ny && InBounds(m, Start(m))
    ensures VisitedByWalls(m, {Start(m)}, 1)
  {
    assert 1 <= m.nx * m.ny by {
      assert m.nx * m.ny >= m.nx * 1;
    }
  }

  /** Before the first iteration no pair is open and the start is reached by the one-cell path. */
  lemma InitTreeSoFar(m: Maze)
    requires WellFormed(m) && Pristine(m) && InBounds(m, Start(m))
    ensures TreeSoFar(m, {Start(m)}, map[Start(m) := [Start(m)]], 1)
  {
    PristineOpenPairs(m);
    assert IsPath(m, [Start(m)], Start(m), Start(m));
  }

  /** The state before the first iteration satisfies the invariant. */
  lemma InitInvariant(m: Maze)
    requires WellFormed(m) && Pristine(m) && 1 <= m.nx && 1 <= m.ny && InBounds(m, Start(m))
    ensures Invariant(Walk(m, Start(m), [], 1), {Start(m)}, map[Start(m) := [Start(m)]])
  {
    PristineInvariants(m);
    PositionsAreInBounds(m, Start(m));
    InitVisitedByWalls(m);
    InitTreeSoFar(m);
  }

  /**
    The neighbour a forward step moves to is inside the grid, unvisited, and
    still separated from the current cell by a standing wall.
   */
  lemma ForwardTarget(w: Walk, visited: set<Pos>, paths: map<Pos, seq<Pos>>, d: Dir)
    requires Invariant(w, visited, paths)
    requires IsUnvisitedNeighbour(w.maze, At(w.maze, w.current), d)
    ensures InBounds(w.maze, Step(w.current, d)) && AllWalls(At(w.maze, Step(w.current, d)))
    ensures Step(w.current, d) !in visited
    ensures WallAt(w.maze, w.current, d)
  {
    var m := w.maze;
    var c := w.current;
    var q := Step(c, d);
    assert Pos(At(m, c).x, At(m, c).y) == c;
    StepOpp(c, d);
    OppInvolution(d);
    assert WallAt(m, q, Opp(d));
  }

  /** A forward step keeps the grid's wall invariants. */
  lemma AdvanceGridOk(w: Walk, d: Dir)
    requires GridOk(w.maze) && InBounds(w.maze, w.current) && InBounds(w.maze, Step(w.current, d))
    ensures GridOk(Advance(w, d).maze)
  {
    KnockDownSymmetric(w.maze, w.current, d);
    KnockDownBorder(w.maze, w.current, d);
  }

  /** After a forward step, the cells without all their walls are again exactly the visited ones. */
  lemma AdvanceVisitedByWalls(w: Walk, visited: set<Pos>, d: Dir)
    requires WellFormed(w.maze) && InBounds(w.maze, w.current) && InBounds(w.maze, Step(w.current, d))
    requires VisitedByWalls(w.maze, visited, w.nv) && w.nv < CellCount(w.maze)
    requires w.current in visited && Step(w.current, d) !in visited
    requires w.nv == 1 ==> w.current == Start(w.maze)
    ensures VisitedByWalls(Advance(w, d).maze, visited + {Step(w.current, d)}, w.nv + 1)
  {
    var m := w.maze;
    var c := w.current;
    var q := Step(c, d);
    var m' := Advance(w, d).maze;
    var visited' := visited + {q};
    forall p | InBounds(m', p) && p !in visited' ensures AllWalls(At(m', p)) {
      assert p != c && p != q;
    }
    forall p | InBounds(m', p) && p in visited' ensures !AllWalls(At(m', p)) {
      if p != c && p != q {
        assert At(m', p) == At(m, p);
      }
    }
  }

  /** The paths to visited cells survive a knocked-down wall, and the cell behind it is reached through it. */
  lemma ExtendPaths(m: Maze, visited: set<Pos>, paths: map<Pos, seq<Pos>>, c: Pos, d: Dir)
    requires WellFormed(m) && InBounds(m, c) && InBounds(m, Step(c, d))
    requires paths.Keys == visited && c in visited
    requires forall p :: p in visited ==> IsPath(m, paths[p], Start(m), p)
    ensures forall p :: p in visited + {Step(c, d)} ==>
              IsPath(KnockDown(m, c, d), paths[Step(c, d) := paths[c] + [Step(c, d)]][p], Start(m), p)
  {
    var q := Step(c, d);
    var m' := KnockDown(m, c, d);
    var paths' := paths[q := paths[c] + [q]];
    KnockDownOpensOnly(m, c, d);
    forall p | p in visited + {q} ensures IsPath(m', paths'[p], Start(m), p) {
      if p == q {
        PathSurvives(m, m', paths[c], Start(m), c);
        PathExtend(m', paths[c], Start(m), c, d);
      } else {
        PathSurvives(m, m', paths[p], Start(m), p);
      }
    }
  }

  /** After a forward step the open walls still form a tree, now spanning the new cell too. */
  lemma AdvanceTreeSoFar(w: Walk, visited: set<Pos>, paths: map<Pos, seq<Pos>>, d: Dir)
    requires WellFormed(w.maze) && Symmetric(w.maze)
    requires InBounds(w.maze, w.current) && InBounds(w.maze, Step(w.current, d)) && WallAt(w.maze, w.current, d)
    requires TreeSoFar(w.maze, visited, paths, w.nv) && w.current in visited
    ensures TreeSoFar(Advance(w, d).maze, visited + {Step(w.current, d)},
                      paths[Step(w.current, d) := paths[w.current] + [Step(w.current, d)]], w.nv + 1)
  {
    var m' := KnockDown(w.maze, w.current, d);
    assert Advance(w, d).maze == m';
    assert Start(m') == Start(w.maze);
    KnockDownOpensOnePair(w.maze, w.current, d);
    ExtendPaths(w.maze, visited, paths, w.current, d);
  }

  /** After a forward step the walk is still among the visited cells. */
  lemma AdvanceWalkInside(w: Walk, visited: set<Pos>, d: Dir)
    requires WellFormed(w.maze) && InBounds(w.maze, w.current) && InBounds(w.maze, Step(w.current, d))
    requires WalkInside(w, visited) && 1 <= w.nv
    ensures WalkInside(Advance(w, d), visited + {Step(w.current, d)})
  {
    var r := Advance(w, d);
    var visited' := visited + {Step(w.current, d)};
    PositionsAreInBounds(w.maze, Step(w.current, d));
    forall i | 0 <= i < |r.stack| ensures r.stack[i] in visited' && InBounds(r.maze, r.stack[i]) {
      if i < |w.stack| {
        assert r.stack[i] == w.stack[i];
      }
    }
  }

  /** A forward step pushes the current cell, so no cell leaves the current cell and the stack unfinished. */
  lemma AdvanceDoneBehind(w: Walk, visited: set<Pos>, d: Dir)
    requires WellFormed(w.maze) && InBounds(w.maze, w.current) && InBounds(w.maze, Step(w.current, d))
    requires DoneBehind(w, visited)
    ensures DoneBehind(Advance(w, d), visited + {Step(w.current, d)})
  {
    var r := Advance(w, d);
    var visited' := visited + {Step(w.current, d)};
    forall p | p in visited' && p != r.current && p !in r.stack ensures Finished(r.maze, visited', p) {
      assert p in visited && p != w.current && p !in w.stack;
      assert Finished(w.maze, visited, p);
    }
  }

  /**
    A forward step keeps the invariant, with the neighbour it moves to added
    to the visited cells and given the current cell's path extended by one.
   */
  lemma AdvanceInvariant(w: Walk, visited: set<Pos>, paths: map<Pos, seq<Pos>>, d: Dir)
    requires Invariant(w, visited, paths)
    requires w.nv < CellCount(w.maze)
    requires IsUnvisitedNeighbour(w.maze, At(w.maze, w.current), d)
    ensures Invariant(Advance(w, d), visited + {Step(w.current, d)},
                      paths[Step(w.current, d) := paths[w.current] + [Step(w.current, d)]])
  {
    ForwardTarget(w, visited, paths, d);
    AdvanceGridOk(w, d);
    AdvanceWalkInside(w, visited, d);
    AdvanceVisitedByWalls(w, visited, d);
    AdvanceTreeSoFar(w, visited, paths, d);
    AdvanceDoneBehind(w, visited, d);
  }

  /** At a dead end every neighbour of the current cell has been visited. */
  lemma DeadEndFinished(w: Walk, visited: set<Pos>, paths: map<Pos, seq<Pos>>)
    requires Invariant(w, visited, paths)
    requires UnvisitedNeighbours(w.maze, At(w.maze, w.current)) == []
    ensures Finished(w.maze, visited, w.current)
  {
    var m := w.maze;
    var c := w.current;
    assert Pos(At(m, c).x, At(m, c).y) == c;
    forall d | InBounds(m, Step(c, d)) ensures Step(c, d) in visited {
      assert !IsUnvisitedNeighbour(m, At(m, c), d);
    }
  }

  /**
    The walk can only run out of stack once everything is visited: with an
    empty stack and a finished current cell, every visited cell is finished,
    so the visited cells are the whole (connected) grid.
   */
  lemma StuckOnlyWhenDone(w: Walk, visited: set<Pos>, paths: map<Pos, seq<Pos>>)
    requires Invariant(w, visited, paths)
    requires Finished(w.maze, visited, w.current)
    ensures w.stack == [] ==> w.nv == CellCount(w.maze)
  {
    var m := w.maze;
    if w.stack == [] {
      assert Closed(m, visited);
      ClosedIsEverything(m, visited, w.current);
      GridSize(m.nx, m.ny);
      assert visited == Positions(m);
    }
  }

  /** Popping a non-empty stack keeps the walk on visited cells inside the grid. */
  lemma BacktrackWalkInside(w: Walk, visited: set<Pos>)
    requires WalkInside(w, visited) && w.stack != [] && w.nv > 1
    ensures WalkInside(Backtrack(w).value, visited)
  {
    var r := Backtrack(w).value;
    assert w.stack == r.stack + [r.current];
    assert r.current == w.stack[|w.stack| - 1];
    forall i | 0 <= i < |r.stack| ensures r.stack[i] in visited && InBounds(r.maze, r.stack[i]) {
      assert r.stack[i] == w.stack[i];
    }
  }

  /** Popping a dead end off the stack keeps every cell left behind finished. */
  lemma BacktrackDoneBehind(w: Walk, visited: set<Pos>)
    requires DoneBehind(w, visited) && w.stack != []
    requires Finished(w.maze, visited, w.current)
    ensures DoneBehind(Backtrack(w).value, visited)
  {
    var r := Backtrack(w).value;
    assert w.stack == r.stack + [r.current];
    forall p | p in visited && p != r.current && p !in r.stack ensures Finished(r.maze, visited, p) {
      if p != w.current {
        assert p !in w.stack;
      }
    }
  }

  /**
    The pop of a dead end is never taken on an empty stack while cells
    remain unvisited, and it keeps the invariant.
   */
  lemma BacktrackInvariant(w: Walk, visited: set<Pos>, paths: map<Pos, seq<Pos>>)
    requires Invariant(w, visited, paths)
    requires w.nv < CellCount(w.maze)
    requires UnvisitedNeighbours(w.maze, At(w.maze, w.current)) == []
    ensures w.stack != [] && Backtrack(w).Some?
    ensures Invariant(Backtrack(w).value, visited, paths)
  {
    DeadEndFinished(w, visited, paths);
    StuckOnlyWhenDone(w, visited, paths);
    BacktrackWalkInside(w, visited);
    BacktrackDoneBehind(w, visited);
  }

  /**
    When `nv` reaches `n` every cell has been visited: the open walls form a
    spanning tree of the grid.
   */
  lemma DoneIsSpanningTree(w: Walk, visited: set<Pos>, paths: map<Pos, seq<Pos>>)
    requires Invariant(w, visited, paths)
    requires w.nv == CellCount(w.maze)
    ensures visited == Positions(w.maze)
    ensures |OpenPairs(w.maze)| == CellCount(w.maze) - 1
    ensures forall p :: InBounds(w.maze, p) ==> Reachable(w.maze, Start(w.maze), p)
    ensures CellCount(w.maze) > 1 ==> forall p :: InBounds(w.maze, p) ==> !AllWalls(At(w.maze, p))
  {
    var m := w.maze;
    GridSize(m.nx, m.ny);
    SubsetOfSameSize(visited, Positions(m));
    forall p | InBounds(m, p) ensures Reachable(m, Start(m), p) {
      PositionsAreInBounds(m, p);
      assert IsPath(m, paths[p], Start(m), p);
    }
    forall p | InBounds(m, p) ensures p in visited {
      PositionsAreInBounds(m, p);
    }
  }

  /**
    The loop of `create`, from a fresh grid with a start cell inside it:
    carve a perfect maze.  Terminates because each iteration either visits a
    new cell or shrinks the stack; the result keeps neighbouring walls in
    agreement and the border intact, has exactly n - 1 open wall pairs, and
    connects every cell to the start.
   */
  method Carve(m: Maze) returns (r: Maze)
    requires WellFormed(m) && Pristine(m)
    requires 1 <= m.nx && 1 <= m.ny && InBounds(m, Start(m))
    ensures WellFormed(r) && SameShape(r, m)
    ensures Symmetric(r) && BorderIntact(r)
    ensures |OpenPairs(r)| == CellCount(m) - 1
    ensures forall p :: InBounds(r, p) ==> Reachable(r, Start(r), p)
    ensures CellCount(m) > 1 ==> forall p :: InBounds(r, p) ==> !AllWalls(At(r, p))
    ensures CellCount(m) == 1 ==> r == m
  {
    var n := CellCount(m);
    var w := Walk(m, Start(m), [], 1);
    ghost var visited := {Start(m)};
    ghost var paths := map[Start(m) := [Start(m)]];
    InitInvariant(m);
    while w.nv < n
      invariant Invariant(w, visited, paths)
      invariant SameShape(w.maze, m)
      invariant w.nv == 1 ==> w.maze == m
      decreases n - w.nv, |w.stack|
    {
      var neighbours := UnvisitedNeighbours(w.maze, At(w.maze, w.current));
      if neighbours == [] {
        // dead end: backtrack
        BacktrackInvariant(w, visited, paths);
        w := Backtrack(w).value;
      } else {
        // move to a neighbour chosen at random
        var k :| 0 <= k < |neighbours|;
        var d := neighbours[k].0;
        var next := Step(w.current, d);
        AdvanceInvariant(w, visited, paths, d);
        visited := visited + {next};
        paths := paths[next := paths[w.current] + [next]];
        w := Advance(w, d);
      }
    }
    DoneIsSpanningTree(w, visited, paths);
    r := w.maze;
  }

  /** How a call of `create` ends: with the carved maze, or with a NoMethodError raised on nil. */
  datatype Outcome = Carved(maze: Maze) | Raised

  /**
    The grid is the one `Maze.new` builds from the maze's own dimensions:
    max(nx, 0) columns of max(ny, 0) new cells, `cells[x][y]` at (x, y).
   */
  predicate Constructed(m: Maze) {
    && |m.cells| == Times(m.nx)
    && (forall x :: 0 <= x < |m.cells| ==> |m.cells[x]| == Times(m.ny))
    && (forall x, y :: 0 <= x < |m.cells| && 0 <= y < |m.cells[x]| ==> m.cells[x][y] == NewCell(x, y))
  }

  /** `Maze.new` builds a maze of exactly that form. */
  lemma NewMazeConstructed(nx: int, ny: int, ix: int, iy: int)
    ensures Constructed(NewMaze(nx, ny, ix, iy))
  {
    var m := NewMaze(nx, ny, ix, iy);
    forall x, y | 0 <= x < |m.cells| && 0 <= y < |m.cells[x]| ensures m.cells[x][y] == NewCell(x, y) {
      assert AllWalls(m.cells[x][y]);
      assert HasWall(m.cells[x][y], N) && HasWall(m.cells[x][y], S);
      assert HasWall(m.cells[x][y], E) && HasWall(m.cells[x][y], W);
    }
  }

  /** When `cells[ix][iy]` of a freshly built maze is a cell, the grid is non-empty and the start lies inside it. */
  lemma FoundStart(m: Maze)
    requires Constructed(m) && CellAt(m, m.ix, m.iy).Found?
    ensures WellFormed(m) && Pristine(m)
    ensures 1 <= m.nx && 1 <= m.ny && InBounds(m, Start(m))
  {
    assert 1 <= |m.cells|;
    var column := m.cells[Wrap(m.ix, |m.cells|)];
    assert Index(m.cells, m.ix) == Some(column);
    assert 1 <= |column|;
  }

  /**
    `create` on a freshly built maze.  `cells[ix][iy]` is read first, so a
    start column outside the grid raises at once.  The loop runs only when
    there are at least two cells; a start row outside the grid then leaves
    `current_cell` nil, and listing its neighbours raises.  Otherwise the
    carved maze is a spanning tree of the grid rooted at the start.
   */
  method Create(m: Maze) returns (r: Outcome)
    requires Constructed(m)
    ensures r.Raised? <==> CellAt(m, m.ix, m.iy).NilColumn? || (CellAt(m, m.ix, m.iy).Nil? && CellCount(m) > 1)
    ensures r.Carved? && CellCount(m) <= 1 ==> r.maze == m
    ensures r.Carved? && CellCount(m) > 1 ==>
              && WellFormed(r.maze) && SameShape(r.maze, m)
              && Symmetric(r.maze) && BorderIntact(r.maze)
              && |OpenPairs(r.maze)| == CellCount(m) - 1
              && (forall p :: InBounds(r.maze, p) ==> Reachable(r.maze, Start(r.maze), p))
              && (forall p :: InBounds(r.maze, p) ==> !AllWalls(At(r.maze, p)))
  {
    var start := CellAt(m, m.ix, m.iy);
    if start.NilColumn? {
      return Raised;
    }
    if CellCount(m) <= 1 {
      return Carved(m);
    }
    if start.Nil? {
      return Raised;
    }
    FoundStart(m);
    var carved := Carve(m);
    return Carved(carved);
  }

  /** In a two-by-one grid the only wall pair that can be open is the one between the two cells. */
  lemma TwoByOneCandidates(m: Maze)
    requires WellFormed(m) && m.nx == 2 && m.ny == 1
    ensures OpenPairs(m) <= {(Pos(0, 0), E)}
  {
    forall x | x in OpenPairs(m) ensures x == (Pos(0, 0), E) {
      OpenPairsMember(m, x.0, x.1);
      var (p, e) := x;
      assert InBounds(m, p) && InBounds(m, Step(p, e)) && (e == S || e == E);
      assert p.y == 0 && Step(p, e).y < 1;
      assert e == E;
      assert p.x == 0;
      assert p == Pos(0, 0);
    }
  }

  /** In a single-row maze whose border is intact, every cell keeps its north and south walls. */
  lemma SingleRowKeepsNorthSouth(m: Maze, p: Pos)
    requires WellFormed(m) && m.ny == 1 && BorderIntact(m) && InBounds(m, p)
    ensures WallAt(m, p, N) && WallAt(m, p, S)
  {
    assert !InBounds(m, Step(p, N)) && !InBounds(m, Step(p, S));
  }

  /** A one-element set inside a singleton is that singleton. */
  lemma SoleMember<T>(s: set<T>, x: T)
    requires s <= {x} && |s| == 1
    ensures s == {x}
  {
    SubsetOfSameSize(s, {x});
  }

  /** A two-by-one maze with one open wall pair has the pair between its two cells open. */
  lemma TwoByOneOpenPair(m: Maze)
    requires WellFormed(m) && m.nx == 2 && m.ny == 1 && |OpenPairs(m)| == 1
    ensures OpenPairs(m) == {(Pos(0, 0), E)}
  {
    var open := OpenPairs(m);
    TwoByOneCandidates(m);
    SoleMember(open, (Pos(0, 0), E));
  }

  /** A wall pair recorded as open is down on both of its sides. */
  lemma OpenPairIsDown(m: Maze, p: Pos, d: Dir)
    requires WellFormed(m) && Symmetric(m) && (p, d) in OpenPairs(m)
    ensures !WallAt(m, p, d) && !WallAt(m, Step(p, d), Opp(d))
  {
    OpenPairsMember(m, p, d);
  }

  /**
    A two-by-one maze with one open wall pair and symmetric walls has
    exactly the wall between its two cells open, seen from either side.
   */
  lemma TwoByOneScenario(m: Maze)
    requires WellFormed(m) && m.nx == 2 && m.ny == 1
    requires Symmetric(m) && |OpenPairs(m)| == 1
    ensures !WallAt(m, Pos(0, 0), E) && !WallAt(m, Pos(1, 0), W)
  {
    TwoByOneOpenPair(m);
    OpenPairIsDown(m, Pos(0, 0), E);
  }
}
