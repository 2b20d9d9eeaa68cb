/** Cells and directions of a square board. */
module Cells {
  import opened Ints

  /** A cell with its 1-based row `i` and column `j`; equality is by coordinates. */
  datatype Cell = Cell(i: Int32, j: Int32)

  datatype Direction = Up | Down | Right | Left

  /** The direction that undoes `d`. */
  function Opposite(d: Direction): Direction
  {
    match d
    case Up => Down
    case Down => Up
    case Right => Left
    case Left => Right
  }

  /** `a` and `b` differ in exactly one coordinate, and by one. */
  predicate Adjacent(a: Cell, b: Cell)
  {
    || (a.i == b.i && (b.j == a.j + 1 || b.j == a.j - 1))
    || (a.j == b.j && (b.i == a.i + 1 || b.i == a.i - 1))
  }

  /** `k` is a valid 1-based coordinate on a board of the given width. */
  predicate InRange(width: int, k: int)
  {
    1 <= k <= width
  }

  /** `c` is one of the cells of a board of the given width. */
  predicate OnBoard(width: int, c: Cell)
  {
    InRange(width, c.i) && InRange(width, c.j)
  }
}
