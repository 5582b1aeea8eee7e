/**
  A maze cell: a point (x, y) of the grid that may be closed off by a wall
  to the north, south, east or west.
 */
module Cells {

  /** The four compass directions, the keys of a cell's wall table. */
  datatype Dir = N | S | E | W

  /** True for the two directions of the north-south axis. */
  predicate Vertical(d: Dir) {
    d == N || d == S
  }

  /** WALL_PAIRS: the direction under which the neighbouring cell sees the same wall. */
  function Opp(d: Dir): (o: Dir)
    ensures o != d
    ensures Vertical(o) <==> Vertical(d)
  {
    match d
    case N => S
    case S => N
    case E => W
    case W => E
  }

  /** WALL_PAIRS pairs each direction with exactly one other: it is its own inverse. */
  lemma OppInvolution(d: Dir)
    ensures Opp(Opp(d)) == d
    ensures forall e :: Opp(e) == Opp(d) ==> e == d
  {
  }

  /** The wall table of one cell: `true` means the wall is standing. */
  datatype Walls = Walls(n: bool, s: bool, e: bool, w: bool)

  /** The flag the table holds for direction `d`. */
  function Get(ws: Walls, d: Dir): bool {
    match d
    case N => ws.n
    case S => ws.s
    case E => ws.e
    case W => ws.w
  }

  /** The table with the flag of `d` set to `false` and every other flag kept. */
  function Clear(ws: Walls, d: Dir): (r: Walls)
    ensures !Get(r, d)
    ensures forall e :: e != d ==> Get(r, e) == Get(ws, e)
  {
    match d
    case N => ws.(n := false)
    case S => ws.(s := false)
    case E => ws.(e := false)
    case W => ws.(w := false)
  }

  datatype Cell = Cell(x: int, y: int, walls: Walls)

  predicate HasWall(c: Cell, d: Dir) {
    Get(c.walls, d)
  }

  /** A new cell keeps the coordinates it is given and starts with every wall standing. */
  function NewCell(x: int, y: int): (c: Cell)
    ensures c.x == x && c.y == y
    ensures forall d :: HasWall(c, d)
  {
    Cell(x, y, Walls(true, true, true, true))
  }

  /** A cell's walls, read one direction at a time, are its four flags. */
  lemma WallsByDirection(c: Cell)
    ensures (forall d :: HasWall(c, d)) <==> c.walls.n && c.walls.s && c.walls.e && c.walls.w
  {
    if c.walls.n && c.walls.s && c.walls.e && c.walls.w {
      forall d ensures HasWall(c, d) {
        match d
        case N =>
        case S =>
        case E =>
        case W =>
      }
    } else {
      assert !HasWall(c, N) || !HasWall(c, S) || !HasWall(c, E) || !HasWall(c, W);
    }
  }

  /** `all_walls?`: whether no wall of the cell has been knocked down yet. */
  function AllWalls(c: Cell): (b: bool)
    ensures b <==> forall d :: HasWall(c, d)
  {
    WallsByDirection(c);
    c.walls.n && c.walls.s && c.walls.e && c.walls.w
  }

  /**
    `knock_down_wall`: clears the wall of `c` facing `d` and the wall of
    `other` facing back; the two updated cells are returned in that order.
   */
  function KnockDownWall(c: Cell, other: Cell, d: Dir): (r: (Cell, Cell))
    ensures r.0.x == c.x && r.0.y == c.y && r.1.x == other.x && r.1.y == other.y
    ensures !HasWall(r.0, d) && !HasWall(r.1, Opp(d))
    ensures forall e :: e != d ==> HasWall(r.0, e) == HasWall(c, e)
    ensures forall e :: e != Opp(d) ==> HasWall(r.1, e) == HasWall(other, e)
    ensures !AllWalls(r.0) && !AllWalls(r.1)
  {
    (c.(walls := Clear(c.walls, d)), other.(walls := Clear(other.walls, Opp(d))))
  }

  /** Knocking down the same wall a second time changes nothing. */
  lemma KnockDownIdempotent(c: Cell, other: Cell, d: Dir)
    ensures KnockDownWall(KnockDownWall(c, other, d).0, KnockDownWall(c, other, d).1, d)
            == KnockDownWall(c, other, d)
  {
    var (a, b) := KnockDownWall(c, other, d);
    assert a.walls == Clear(a.walls, d) by {
      match d
      case N =>
      case S =>
      case E =>
      case W =>
    }
    assert b.walls == Clear(b.walls, Opp(d)) by {
      match d
      case N =>
      case S =>
      case E =>
      case W =>
    }
  }
}
