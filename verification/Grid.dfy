/**
 The board: positions, the four directions, and a rectangular map with walls.
 */
module Grid {

  datatype Pos = Pos(row: int, col: int)

  datatype Direction = Up | Down | Left | Right

  /** The order in which every search tries the directions. */
  const DIRECTIONS: seq<Direction> := [Up, Down, Left, Right]

  datatype Map = Map(rows: nat, cols: nat, walls: set<Pos>) {

    predicate InMap(p: Pos) {
      0 <= p.row < rows && 0 <= p.col < cols
    }

    predicate IsWall(p: Pos) {
      p in walls
    }
  }

  function Abs(x: int): nat {
    if x < 0 then -x else x
  }

  function Manhattan(p: Pos, q: Pos): nat {
    Abs(p.row - q.row) + Abs(p.col - q.col)
  }

  function Neighbour(p: Pos, d: Direction): Pos {
    match d
    case Up => Pos(p.row - 1, p.col)
    case Down => Pos(p.row + 1, p.col)
    case Left => Pos(p.row, p.col - 1)
    case Right => Pos(p.row, p.col + 1)
  }
}
