/** The playing grid of the Snake game: cells addressed as `{x, y}` (x is the
    row, y the column), the four directions, and the one-cell move of the head. */
module Board {

  /** The value of the `direction` variable: one of four strings in the game. */
  datatype Direction = Left | Right | Up | Down

  /** A grid cell `{x, y}`: `x` counts rows from the top, `y` columns from the left. */
  datatype Cell = Cell(x: int, y: int)

  /** The cell lies on a board of `rows` by `cols` blocks: it fails the wall
      test of `render`, and so the board has at least one row and column. */
  function InBounds(c: Cell, rows: int, cols: int): (b: bool)
    ensures !b <==> c.x < 0 || c.x >= rows || c.y < 0 || c.y >= cols
    ensures b ==> 0 < rows && 0 < cols
  {
    0 <= c.x < rows && 0 <= c.y < cols
  }

  function Abs(n: int): nat
  {
    if n < 0 then -n else n
  }

  /** Manhattan distance between two cells. */
  function Distance(a: Cell, b: Cell): nat
  {
    Abs(a.x - b.x) + Abs(a.y - b.y)
  }

  function Opposite(d: Direction): (e: Direction)
    ensures e != d
  {
    match d
    case Left => Right
    case Right => Left
    case Up => Down
    case Down => Up
  }

  /** The cell the head moves into when the snake heads in direction `d`: a
      different cell that shares its row or its column and differs by at most
      one in each coordinate, in the same row exactly for left and right. */
  function NextHead(c: Cell, d: Direction): (h: Cell)
    ensures h != c && (h.x == c.x || h.y == c.y)
    ensures c.x - 1 <= h.x <= c.x + 1 && c.y - 1 <= h.y <= c.y + 1
    ensures (d == Left || d == Right) <==> h.x == c.x
  {
    match d
    case Left => Cell(c.x, c.y - 1)
    case Right => Cell(c.x, c.y + 1)
    case Up => Cell(c.x - 1, c.y)
    case Down => Cell(c.x + 1, c.y)
  }

  /** The new head is a neighbour of the old one: one unit away, along the column
      axis for left and right and along the row axis for up and down; different
      directions give different cells, and the opposite direction leads back. */
  lemma NextHeadIsNeighbour(c: Cell, d: Direction)
    ensures Distance(c, NextHead(c, d)) == 1
    ensures (d == Left || d == Right) <==> NextHead(c, d).x == c.x
    ensures (d == Left) <==> NextHead(c, d).y < c.y
    ensures (d == Up) <==> NextHead(c, d).x < c.x
    ensures NextHead(NextHead(c, d), Opposite(d)) == c
    ensures forall e :: e != d ==> NextHead(c, e) != NextHead(c, d)
  {
  }

  /** The self-collision scan: walks the body from the head to the tail and
      reports whether some segment is the given cell. */
  method FindSegment(snake: seq<Cell>, head: Cell) returns (hit: bool)
    ensures hit <==> head in snake
  {
    var i := 0;
    while i < |snake|
      invariant 0 <= i <= |snake|
      invariant forall j :: 0 <= j < i ==> snake[j] != head
    {
      if snake[i] == head {
        return true;
      }
      i := i + 1;
    }
    return false;
  }
}
