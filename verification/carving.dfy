/**
  The graph a maze defines: cells are nodes, and two neighbouring cells are
  joined when the wall between them has been knocked down.  This module
  counts the open wall pairs, defines paths through open walls, and proves
  the two facts about the whole grid the generator needs: it has exactly
  nx*ny cells, and a set of cells that contains a cell and all neighbours
  of each of its members is the whole grid.
 */
module Carving {
  import opened Cells
  import opened Grids

  /** The cells of column `x`. */
  ghost function Column(x: int, ny: int): set<Pos> {
    set y: int | 0 <= y < ny :: Pos(x, y)
  }

  /** All positions of an nx by ny grid. */
  ghost function GridOf(nx: int, ny: int): set<Pos> {
    set x: int, y: int | 0 <= x < nx && 0 <= y < ny :: Pos(x, y)
  }

  ghost function Positions(m: Maze): set<Pos> {
    GridOf(m.nx, m.ny)
  }

  lemma PositionsAreInBounds(m: Maze, p: Pos)
    ensures p in Positions(m) <==> InBounds(m, p)
  {
    if InBounds(m, p) {
      assert p == Pos(p.x, p.y);
    }
  }

  lemma {:induction false} ColumnSize(x: int, ny: nat)
    ensures |Column(x, ny)| == ny
  {
    if ny > 0 {
      ColumnSize(x, ny - 1);
      assert Column(x, ny) == Column(x, ny - 1) + {Pos(x, ny - 1)};
    } else {
      assert Column(x, ny) == {};
    }
  }

  /** An nx-column grid is the (nx-1)-column grid plus one disjoint column. */
  lemma GridAddsColumn(nx: int, ny: int)
    requires nx > 0
    ensures GridOf(nx, ny) == GridOf(nx - 1, ny) + Column(nx - 1, ny)
    ensures GridOf(nx - 1, ny) !! Column(nx - 1, ny)
  {
    forall p | p in GridOf(nx, ny) ensures p in GridOf(nx - 1, ny) + Column(nx - 1, ny) {
      if p.x < nx - 1 {
        assert p in GridOf(nx - 1, ny);
      } else {
        assert p in Column(nx - 1, ny);
      }
    }
  }

  /** The grid has exactly nx * ny cells. */
  lemma {:induction false} GridSize(nx: nat, ny: nat)
    ensures |GridOf(nx, ny)| == nx * ny
  {
    if nx > 0 {
      GridSize(nx - 1, ny);
      ColumnSize(nx - 1, ny);
      GridAddsColumn(nx, ny);
      assert nx * ny == (nx - 1) * ny + ny;
    } else {
      assert GridOf(nx, ny) == {};
    }
  }

  /** A subset of a finite set with as many elements is the whole set. */
  lemma SubsetOfSameSize<T>(a: set<T>, b: set<T>)
    requires a <= b && |a| == |b|
    ensures a == b
  {
    assert b == a + (b - a);
    assert |b| == |a| + |b - a|;
    assert b - a == {};
  }

  /** The canonical name of the wall faced by `d` from `p`: the southern or eastern wall of one of its two cells. */
  function Canon(p: Pos, d: Dir): (Pos, Dir) {
    if d == S || d == E then (p, d) else (Step(p, d), Opp(d))
  }

  /** The wall of `p` facing `d` is a south or east wall between two grid cells, and it is down. */
  ghost predicate OpenCanon(m: Maze, p: Pos, d: Dir)
    requires WellFormed(m)
  {
    (d == S || d == E) && InBounds(m, p) && InBounds(m, Step(p, d)) && !WallAt(m, p, d)
  }

  /**
    The knocked-down wall pairs between two cells of the grid, each named
    once by its canonical form (the south or east side of a pair).
   */
  ghost function OpenPairs(m: Maze): set<(Pos, Dir)>
    requires WellFormed(m)
  {
    set p, d | p in Positions(m) && d in {S, E} && OpenCanon(m, p, d) :: (p, d)
  }

  lemma OpenPairsMember(m: Maze, p: Pos, d: Dir)
    requires WellFormed(m)
    ensures (p, d) in OpenPairs(m) <==> OpenCanon(m, p, d)
  {
    PositionsAreInBounds(m, p);
  }

  /** In a fresh grid no wall pair is open. */
  lemma PristineOpenPairs(m: Maze)
    requires WellFormed(m) && Pristine(m)
    ensures OpenPairs(m) == {}
  {
    forall x ensures x !in OpenPairs(m) {
      OpenPairsMember(m, x.0, x.1);
      if InBounds(m, x.0) {
        assert AllWalls(At(m, x.0));
      }
    }
  }

  /** The wall named by `Canon(p, d)` is the wall of `p` facing `d`, seen from one of its two sides. */
  lemma CanonSameWall(m: Maze, p: Pos, d: Dir)
    requires WellFormed(m) && Symmetric(m)
    requires InBounds(m, p) && InBounds(m, Step(p, d))
    ensures OpenCanon(m, Canon(p, d).0, Canon(p, d).1) <==> !WallAt(m, p, d)
  {
    StepOpp(p, d);
    OppInvolution(d);
  }

  /** A wall pair other than the one knocked down is open after the knock-down exactly when it was open before. */
  lemma OtherPairUnchanged(m: Maze, p: Pos, d: Dir, x: (Pos, Dir))
    requires WellFormed(m) && InBounds(m, p) && InBounds(m, Step(p, d))
    requires x != Canon(p, d)
    ensures x in OpenPairs(KnockDown(m, p, d)) <==> x in OpenPairs(m)
  {
    var r := KnockDown(m, p, d);
    OpenPairsMember(r, x.0, x.1);
    OpenPairsMember(m, x.0, x.1);
    StepOpp(p, d);
    OppInvolution(d);
    if x.1 == S || x.1 == E {
      assert x != (p, d) && x != (Step(p, d), Opp(d));
      if InBounds(m, x.0) {
        assert WallAt(r, x.0, x.1) == WallAt(m, x.0, x.1);
      }
    }
  }

  /** Knocking down a standing wall between two neighbours opens exactly one more wall pair. */
  lemma KnockDownOpensOnePair(m: Maze, p: Pos, d: Dir)
    requires WellFormed(m) && Symmetric(m)
    requires InBounds(m, p) && InBounds(m, Step(p, d)) && WallAt(m, p, d)
    ensures Canon(p, d) !in OpenPairs(m)
    ensures OpenPairs(KnockDown(m, p, d)) == OpenPairs(m) + {Canon(p, d)}
    ensures |OpenPairs(KnockDown(m, p, d))| == |OpenPairs(m)| + 1
  {
    var r := KnockDown(m, p, d);
    var c := Canon(p, d);
    KnockDownSymmetric(m, p, d);
    CanonSameWall(m, p, d);
    CanonSameWall(r, p, d);
    OpenPairsMember(m, c.0, c.1);
    OpenPairsMember(r, c.0, c.1);
    forall x ensures x in OpenPairs(r) <==> x in OpenPairs(m) + {c} {
      if x != c {
        OtherPairUnchanged(m, p, d, x);
      }
    }
  }

  /** Cells `a` and `b` are neighbours with no wall between them, seen from `a`. */
  ghost predicate Linked(m: Maze, a: Pos, b: Pos)
    requires WellFormed(m)
  {
    InBounds(m, a) && exists d :: b == Step(a, d) && InBounds(m, b) && !WallAt(m, a, d)
  }

  /** `path` walks from `a` to `b` through grid cells, each step crossing a knocked-down wall. */
  ghost predicate IsPath(m: Maze, path: seq<Pos>, a: Pos, b: Pos)
    requires WellFormed(m)
  {
    && |path| >= 1
    && path[0] == a
    && path[|path| - 1] == b
    && (forall i :: 0 <= i < |path| ==> InBounds(m, path[i]))
    && (forall i :: 0 <= i < |path| - 1 ==> Linked(m, path[i], path[i + 1]))
  }

  /** Cell `b` can be reached from cell `a` through open walls. */
  ghost predicate Reachable(m: Maze, a: Pos, b: Pos)
    requires WellFormed(m)
  {
    exists path :: IsPath(m, path, a, b)
  }

  /** Every wall open in `m` is open in `r` too, and the two grids have the same shape. */
  ghost predicate OpensOnly(m: Maze, r: Maze)
    requires WellFormed(m) && WellFormed(r)
  {
    && SameShape(m, r)
    && forall p, d :: InBounds(m, p) && !WallAt(m, p, d) ==> !WallAt(r, p, d)
  }

  /** Knocking down a wall opens walls and closes none. */
  lemma KnockDownOpensOnly(m: Maze, p: Pos, d: Dir)
    requires WellFormed(m) && InBounds(m, p) && InBounds(m, Step(p, d))
    ensures OpensOnly(m, KnockDown(m, p, d))
  {
    var r := KnockDown(m, p, d);
    forall a, e | InBounds(m, a) && !WallAt(m, a, e) ensures !WallAt(r, a, e) {
      if (a, e) != (p, d) && (a, e) != (Step(p, d), Opp(d)) {
        assert WallAt(r, a, e) == WallAt(m, a, e);
      }
    }
  }

  /** A path through open walls stays a path when further walls come down. */
  lemma PathSurvives(m: Maze, r: Maze, path: seq<Pos>, a: Pos, b: Pos)
    requires WellFormed(m) && WellFormed(r) && OpensOnly(m, r)
    requires IsPath(m, path, a, b)
    ensures IsPath(r, path, a, b)
  {
    forall i | 0 <= i < |path| - 1
      ensures Linked(r, path[i], path[i + 1])
    {
      assert Linked(m, path[i], path[i + 1]);
      var d :| path[i + 1] == Step(path[i], d) && InBounds(m, path[i + 1]) && !WallAt(m, path[i], d);
      assert !WallAt(r, path[i], d);
    }
  }

  /** A path can be extended by one step across an open wall. */
  lemma PathExtend(m: Maze, path: seq<Pos>, a: Pos, b: Pos, d: Dir)
    requires WellFormed(m) && IsPath(m, path, a, b)
    requires InBounds(m, Step(b, d)) && !WallAt(m, b, d)
    ensures IsPath(m, path + [Step(b, d)], a, Step(b, d))
  {
    var ext := path + [Step(b, d)];
    forall i | 0 <= i < |ext| - 1
      ensures Linked(m, ext[i], ext[i + 1])
    {
      if i < |path| - 1 {
        assert ext[i] == path[i] && ext[i + 1] == path[i + 1];
      } else {
        assert ext[i] == b && ext[i + 1] == Step(b, d);
      }
    }
  }

  /** Every in-bounds neighbour of `p` belongs to `vs`. */
  ghost predicate Finished(m: Maze, vs: set<Pos>, p: Pos) {
    forall d :: InBounds(m, Step(p, d)) ==> Step(p, d) in vs
  }

  /** Every member of `vs` has all its in-bounds neighbours in `vs`. */
  ghost predicate Closed(m: Maze, vs: set<Pos>) {
    forall p :: p in vs ==> Finished(m, vs, p)
  }

  /** From a member of a closed set, its whole row lies in the set. */
  lemma {:induction false} RowInClosed(m: Maze, vs: set<Pos>, p: Pos, x: int)
    requires Closed(m, vs) && p in vs && InBounds(m, p) && 0 <= x < m.nx
    ensures Pos(x, p.y) in vs
    decreases if x < p.x then p.x - x else x - p.x
  {
    if x < p.x {
      var q := Step(p, W);
      assert Finished(m, vs, p);
      RowInClosed(m, vs, q, x);
    } else if x > p.x {
      var q := Step(p, E);
      assert Finished(m, vs, p);
      RowInClosed(m, vs, q, x);
    }
  }

  /** From a member of a closed set, its whole column lies in the set. */
  lemma {:induction false} ColumnInClosed(m: Maze, vs: set<Pos>, p: Pos, y: int)
    requires Closed(m, vs) && p in vs && InBounds(m, p) && 0 <= y < m.ny
    ensures Pos(p.x, y) in vs
    decreases if y < p.y then p.y - y else y - p.y
  {
    if y < p.y {
      var q := Step(p, N);
      assert Finished(m, vs, p);
      ColumnInClosed(m, vs, q, y);
    } else if y > p.y {
      var q := Step(p, S);
      assert Finished(m, vs, p);
      ColumnInClosed(m, vs, q, y);
    }
  }

  /** The grid is connected: a closed set of cells that holds one cell holds them all. */
  lemma ClosedIsEverything(m: Maze, vs: set<Pos>, p: Pos)
    requires Closed(m, vs) && p in vs && InBounds(m, p)
    ensures Positions(m) <= vs
  {
    forall q | q in Positions(m) ensures q in vs {
      PositionsAreInBounds(m, q);
      RowInClosed(m, vs, p, q.x);
      ColumnInClosed(m, vs, Pos(q.x, p.y), q.y);
    }
  }
}
