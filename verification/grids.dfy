/**
  The maze as a grid of cells: `nx` columns of `ny` cells each, indexed
  `cells[x][y]`, together with the start cell (ix, iy) that carving begins
  from.  Also the per-cell queries the generator relies on: looking a cell
  up, knocking down the wall between two neighbours, and listing the
  neighbours that still have all their walls.
 */
module Grids {
  import opened Cells

  datatype Option<T> = None | Some(value: T)

  /** Grid coordinates; a cell is identified by where it sits. */
  datatype Pos = Pos(x: int, y: int)

  datatype Maze = Maze(nx: int, ny: int, ix: int, iy: int, cells: seq<seq<Cell>>)

  /** The coordinate offset of each direction: north is towards smaller y. */
  function Delta(d: Dir): (int, int) {
    match d
    case W => (-1, 0)
    case E => (1, 0)
    case S => (0, 1)
    case N => (0, -1)
  }

  /** The position one cell away from `p` in direction `d`. */
  function Step(p: Pos, d: Dir): (q: Pos)
    ensures q != p
    ensures Vertical(d) ==> q.x == p.x && (q.y == p.y + 1 || q.y == p.y - 1)
    ensures !Vertical(d) ==> q.y == p.y && (q.x == p.x + 1 || q.x == p.x - 1)
  {
    Pos(p.x + Delta(d).0, p.y + Delta(d).1)
  }

  /** Stepping back through the opposite direction returns to the start, and distinct directions lead to distinct cells. */
  lemma StepOpp(p: Pos, d: Dir)
    ensures Step(Step(p, d), Opp(d)) == p
    ensures forall e :: Step(p, e) == Step(p, d) ==> e == d
  {
  }

  /** Where Ruby's `Array#[]` reads index `i` of an array of length `n`: negative indices count from the end. */
  function Wrap(i: int, n: int): int {
    if i < 0 then i + n else i
  }

  /** The position of the start cell `cells[ix][iy]`, negative indices counted from the end. */
  function Start(m: Maze): Pos {
    Pos(Wrap(m.ix, m.nx), Wrap(m.iy, m.ny))
  }

  predicate InBounds(m: Maze, p: Pos) {
    0 <= p.x < m.nx && 0 <= p.y < m.ny
  }

  /** The maze has the shape the constructor gives it: `cells[x][y]` is the cell at (x, y). */
  predicate WellFormed(m: Maze) {
    && 0 <= m.nx && 0 <= m.ny
    && |m.cells| == m.nx
    && (forall x :: 0 <= x < m.nx ==> |m.cells[x]| == m.ny)
    && (forall x, y :: 0 <= x < m.nx && 0 <= y < m.ny ==> m.cells[x][y].x == x && m.cells[x][y].y == y)
  }

  /** Same dimensions and start cell. */
  predicate SameShape(a: Maze, b: Maze) {
    a.nx == b.nx && a.ny == b.ny && a.ix == b.ix && a.iy == b.iy
  }

  function At(m: Maze, p: Pos): Cell
    requires WellFormed(m) && InBounds(m, p)
  {
    m.cells[p.x][p.y]
  }

  /** Whether the cell at `p` still has its wall facing `d`. */
  predicate WallAt(m: Maze, p: Pos, d: Dir)
    requires WellFormed(m) && InBounds(m, p)
  {
    HasWall(At(m, p), d)
  }

  /** Every cell still has all four walls, as the constructor leaves them. */
  ghost predicate Pristine(m: Maze)
    requires WellFormed(m)
  {
    forall p :: InBounds(m, p) ==> AllWalls(At(m, p))
  }

  /** Neighbouring cells agree on the wall between them. */
  ghost predicate Symmetric(m: Maze)
    requires WellFormed(m)
  {
    forall p, d :: InBounds(m, p) && InBounds(m, Step(p, d)) ==> WallAt(m, p, d) == WallAt(m, Step(p, d), Opp(d))
  }

  /** Every wall on the outer border of the grid is standing. */
  ghost predicate BorderIntact(m: Maze)
    requires WellFormed(m)
  {
    forall p, d :: InBounds(m, p) && !InBounds(m, Step(p, d)) ==> WallAt(m, p, d)
  }

  /** Ruby's `n.times`: no iterations at all for a count that is not positive. */
  function Times(n: int): nat {
    if n < 0 then 0 else n
  }

  /**
    The constructor: `nx` columns of `ny` new cells, `cells[x][y]` created at
    (x, y).  Non-positive dimensions are not rejected: they give no columns,
    or columns without cells.
   */
  function NewMaze(nx: int, ny: int, ix: int := 0, iy: int := 0): (m: Maze)
    ensures m.nx == nx && m.ny == ny && m.ix == ix && m.iy == iy
    ensures |m.cells| == Times(nx)
    ensures forall x :: 0 <= x < |m.cells| ==> |m.cells[x]| == Times(ny)
    ensures forall x, y :: 0 <= x < |m.cells| && 0 <= y < |m.cells[x]| ==>
              m.cells[x][y].x == x && m.cells[x][y].y == y && AllWalls(m.cells[x][y])
    ensures 0 <= nx && 0 <= ny ==> WellFormed(m) && Pristine(m)
  {
    Maze(nx, ny, ix, iy, seq(Times(nx), x => seq(Times(ny), y => NewCell(x, y))))
  }

  /** Without `ix:` and `iy:` the start cell is (0, 0). */
  lemma NewMazeDefaultStart(nx: int, ny: int)
    ensures NewMaze(nx := nx, ny := ny).ix == 0 && NewMaze(nx := nx, ny := ny).iy == 0
    ensures Start(NewMaze(nx := nx, ny := ny)) == Pos(0, 0)
  {
  }

  /** A pristine grid satisfies the wall invariants: symmetric, border intact. */
  lemma PristineInvariants(m: Maze)
    requires WellFormed(m) && Pristine(m)
    ensures Symmetric(m) && BorderIntact(m)
  {
    forall p, d | InBounds(m, p)
      ensures WallAt(m, p, d)
    {
      assert AllWalls(At(m, p));
    }
  }

  /** Ruby's `Array#[]` on an integer index: negative indices count from the end, anything else outside gives nil. */
  function Index<T>(s: seq<T>, i: int): (r: Option<T>)
    ensures r.Some? <==> -|s| <= i < |s|
    ensures 0 <= i < |s| ==> r == Some(s[i])
    ensures -|s| <= i < 0 ==> r == Some(s[|s| + i])
  {
    if 0 <= i < |s| then Some(s[i])
    else if -|s| <= i < 0 then Some(s[|s| + i])
    else None
  }

  /** What `cells[x][y]` evaluates to: a cell, nil, or a NoMethodError raised by indexing a nil column. */
  datatype Lookup = Found(cell: Cell) | Nil | NilColumn

  /** `cell_at(x, y)`: the two nested array reads, with Ruby's index semantics. */
  function CellAt(m: Maze, x: int, y: int): (r: Lookup)
    ensures r.NilColumn? <==> !(-|m.cells| <= x < |m.cells|)
    ensures WellFormed(m) ==> (r.Found? <==> -m.nx <= x < m.nx && -m.ny <= y < m.ny)
    ensures WellFormed(m) && InBounds(m, Pos(x, y)) ==> r == Found(At(m, Pos(x, y)))
    ensures WellFormed(m) && r.Found? ==> InBounds(m, Pos(Wrap(x, m.nx), Wrap(y, m.ny)))
    ensures WellFormed(m) && r.Found? ==> r.cell == At(m, Pos(Wrap(x, m.nx), Wrap(y, m.ny)))
    ensures WellFormed(m) && r.Found? ==> r.cell.x == Wrap(x, m.nx) && r.cell.y == Wrap(y, m.ny)
  {
    match Index(m.cells, x)
    case None => NilColumn
    case Some(column) =>
      match Index(column, y)
      case None => Nil
      case Some(c) => Found(c)
  }

  /** The maze with the cell at `p` replaced by `c`. */
  function SetCell(m: Maze, p: Pos, c: Cell): (r: Maze)
    requires WellFormed(m) && InBounds(m, p) && c.x == p.x && c.y == p.y
    ensures WellFormed(r) && SameShape(r, m)
    ensures forall q :: InBounds(m, q) ==> At(r, q) == (if q == p then c else At(m, q))
  {
    m.(cells := m.cells[p.x := m.cells[p.x][p.y := c]])
  }

  /**
    `current_cell.knock_down_wall(next_cell, direction)` inside the grid:
    the wall between the cell at `p` and its neighbour in direction `d` is
    cleared on both sides, and nothing else in the maze changes.
   */
  function KnockDown(m: Maze, p: Pos, d: Dir): (r: Maze)
    requires WellFormed(m) && InBounds(m, p) && InBounds(m, Step(p, d))
    ensures WellFormed(r) && SameShape(r, m)
    ensures !WallAt(r, p, d) && !WallAt(r, Step(p, d), Opp(d))
    ensures !AllWalls(At(r, p)) && !AllWalls(At(r, Step(p, d)))
    ensures forall q :: InBounds(m, q) && q != p && q != Step(p, d) ==> At(r, q) == At(m, q)
    ensures forall q, e :: InBounds(m, q) && (q, e) != (p, d) && (q, e) != (Step(p, d), Opp(d)) ==>
              WallAt(r, q, e) == WallAt(m, q, e)
  {
    var q := Step(p, d);
    var pair := KnockDownWall(At(m, p), At(m, q), d);
    SetCell(SetCell(m, p, pair.0), q, pair.1)
  }

  /** Knocking down a wall between two neighbours keeps neighbouring cells in agreement. */
  lemma KnockDownSymmetric(m: Maze, p: Pos, d: Dir)
    requires WellFormed(m) && InBounds(m, p) && InBounds(m, Step(p, d))
    requires Symmetric(m)
    ensures Symmetric(KnockDown(m, p, d))
  {
    var r := KnockDown(m, p, d);
    var q := Step(p, d);
    forall a, e | InBounds(r, a) && InBounds(r, Step(a, e))
      ensures WallAt(r, a, e) == WallAt(r, Step(a, e), Opp(e))
    {
      var b := Step(a, e);
      StepOpp(a, e);
      OppInvolution(e);
      OppInvolution(d);
      StepOpp(p, d);
      if (a, e) == (p, d) || (a, e) == (q, Opp(d)) {
      } else if (b, Opp(e)) == (p, d) || (b, Opp(e)) == (q, Opp(d)) {
      } else {
        assert WallAt(m, a, e) == WallAt(m, b, Opp(e));
      }
    }
  }

  /** Knocking down a wall towards an in-bounds neighbour leaves the outer border standing. */
  lemma KnockDownBorder(m: Maze, p: Pos, d: Dir)
    requires WellFormed(m) && InBounds(m, p) && InBounds(m, Step(p, d))
    requires BorderIntact(m)
    ensures BorderIntact(KnockDown(m, p, d))
  {
    var r := KnockDown(m, p, d);
    forall a, e | InBounds(r, a) && !InBounds(r, Step(a, e))
      ensures WallAt(r, a, e)
    {
      StepOpp(p, d);
      assert WallAt(m, a, e);
    }
  }

  /** Cell `c` has a neighbour in direction `d` that still has all its walls. */
  predicate IsUnvisitedNeighbour(m: Maze, c: Cell, d: Dir)
    requires WellFormed(m)
  {
    var q := Step(Pos(c.x, c.y), d);
    InBounds(m, q) && AllWalls(At(m, q))
  }

  /** No direction occurs twice. */
  predicate DistinctDirs(ds: seq<Dir>) {
    forall i, j :: 0 <= i < j < |ds| ==> ds[i] != ds[j]
  }

  /** No direction occurs twice among the pairs' first components. */
  predicate DistinctPairs(r: seq<(Dir, Cell)>) {
    forall i, j :: 0 <= i < j < |r| ==> r[i].0 != r[j].0
  }

  /** One round of `delta.each`: the pair (d, neighbour) if that neighbour is inside and untouched. */
  function Probe(m: Maze, c: Cell, d: Dir): seq<(Dir, Cell)>
    requires WellFormed(m)
  {
    var q := Step(Pos(c.x, c.y), d);
    if InBounds(m, q) && AllWalls(At(m, q)) then [(d, At(m, q))] else []
  }

  /** The neighbour pairs found while visiting the directions `ds` in order. */
  function UnvisitedAlong(m: Maze, c: Cell, ds: seq<Dir>): (r: seq<(Dir, Cell)>)
    requires WellFormed(m)
    ensures |r| <= |ds|
    ensures forall i :: 0 <= i < |r| ==>
              && r[i].0 in ds
              && IsUnvisitedNeighbour(m, c, r[i].0)
              && r[i].1 == At(m, Step(Pos(c.x, c.y), r[i].0))
  {
    if ds == [] then []
    else
      var rest := UnvisitedAlong(m, c, ds[1..]);
      assert forall i :: 0 <= i < |rest| ==> rest[i].0 in ds;
      Probe(m, c, ds[0]) + rest
  }

  /** Every direction of `ds` that leads to an untouched in-bounds neighbour is reported. */
  lemma {:induction false} UnvisitedAlongComplete(m: Maze, c: Cell, ds: seq<Dir>, d: Dir)
    requires WellFormed(m)
    requires d in ds && IsUnvisitedNeighbour(m, c, d)
    ensures exists i :: 0 <= i < |UnvisitedAlong(m, c, ds)| && UnvisitedAlong(m, c, ds)[i].0 == d
  {
    var r := UnvisitedAlong(m, c, ds);
    var head := Probe(m, c, ds[0]);
    var rest := UnvisitedAlong(m, c, ds[1..]);
    assert r == head + rest;
    if d == ds[0] {
      assert r[0].0 == d;
    } else {
      UnvisitedAlongComplete(m, c, ds[1..], d);
      var i :| 0 <= i < |rest| && rest[i].0 == d;
      assert r[|head| + i] == rest[i];
    }
  }

  /** The tail of a list without repeats has no repeats and does not hold the head. */
  lemma DistinctTail(ds: seq<Dir>)
    requires DistinctDirs(ds) && ds != []
    ensures DistinctDirs(ds[1..]) && ds[0] !in ds[1..]
  {
    forall i, j | 0 <= i < j < |ds[1..]| ensures ds[1..][i] != ds[1..][j] {
      assert ds[1..][i] == ds[i + 1] && ds[1..][j] == ds[j + 1];
    }
    forall k | 0 <= k < |ds[1..]| ensures ds[1..][k] != ds[0] {
      assert ds[1..][k] == ds[k + 1];
    }
  }

  /** Putting at most one pair for a new direction in front of a repeat-free list keeps it repeat-free. */
  lemma DistinctCons(head: seq<(Dir, Cell)>, rest: seq<(Dir, Cell)>, d: Dir)
    requires |head| <= 1 && (forall i :: 0 <= i < |head| ==> head[i].0 == d)
    requires DistinctPairs(rest) && (forall i :: 0 <= i < |rest| ==> rest[i].0 != d)
    ensures DistinctPairs(head + rest)
  {
    var r := head + rest;
    forall i, j | 0 <= i < j < |r| ensures r[i].0 != r[j].0 {
      assert r[j] == rest[j - |head|];
      if i >= |head| {
        assert r[i] == rest[i - |head|];
      }
    }
  }

  /** Visiting each direction at most once reports each direction at most once. */
  lemma {:induction false} UnvisitedAlongDistinct(m: Maze, c: Cell, ds: seq<Dir>)
    requires WellFormed(m)
    requires DistinctDirs(ds)
    ensures DistinctPairs(UnvisitedAlong(m, c, ds))
  {
    if ds != [] {
      var head := Probe(m, c, ds[0]);
      var rest := UnvisitedAlong(m, c, ds[1..]);
      DistinctTail(ds);
      UnvisitedAlongDistinct(m, c, ds[1..]);
      DistinctCons(head, rest, ds[0]);
    }
  }

  /** The iteration order of the `delta` table. */
  const DeltaOrder: seq<Dir> := [W, E, S, N]

  /** The `delta` table lists every direction, each once. */
  lemma DeltaOrderCovers()
    ensures forall d :: d in DeltaOrder
    ensures DistinctDirs(DeltaOrder)
  {
    forall d ensures d in DeltaOrder {
      match d
      case W => assert DeltaOrder[0] == W;
      case E => assert DeltaOrder[1] == E;
      case S => assert DeltaOrder[2] == S;
      case N => assert DeltaOrder[3] == N;
    }
  }

  /**
    `find_unvisited_neighbours(cell)`: the pairs (d, n) where n is the cell
    one step from `c` in direction `d`, lies inside the grid and still has
    all its walls; every such neighbour is listed, each direction at most once.
   */
  function UnvisitedNeighbours(m: Maze, c: Cell): (r: seq<(Dir, Cell)>)
    requires WellFormed(m)
    ensures |r| <= 4
    ensures DistinctPairs(r)
    ensures forall i :: 0 <= i < |r| ==>
              IsUnvisitedNeighbour(m, c, r[i].0) && r[i].1 == At(m, Step(Pos(c.x, c.y), r[i].0))
    ensures forall d :: (exists i :: 0 <= i < |r| && r[i].0 == d) <==> IsUnvisitedNeighbour(m, c, d)
  {
    DeltaOrderCovers();
    UnvisitedAlongDistinct(m, c, DeltaOrder);
    assert forall d :: IsUnvisitedNeighbour(m, c, d) ==> exists i :: 0 <= i < |UnvisitedAlong(m, c, DeltaOrder)| && UnvisitedAlong(m, c, DeltaOrder)[i].0 == d by {
      forall d | IsUnvisitedNeighbour(m, c, d)
        ensures exists i :: 0 <= i < |UnvisitedAlong(m, c, DeltaOrder)| && UnvisitedAlong(m, c, DeltaOrder)[i].0 == d
      {
        UnvisitedAlongComplete(m, c, DeltaOrder, d);
      }
    }
    UnvisitedAlong(m, c, DeltaOrder)
  }
}
