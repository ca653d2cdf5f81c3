/**
  The two coordinate systems of a maze. A logical cell (x, y) has its centre
  at render column M2G(x) and render row M2G(y); the render grid is therefore
  M2G(H) rows by M2G(W) columns, and its even rows and columns hold the walls
  and corners between cells.
 */
module Grid {

  /** A logical maze cell: column x, row y. */
  datatype Cell = Cell(x: int, y: int)

  /** The value of a render cell that was never assigned (Ruby's `nil`). */
  const Unset: int := -1

  /** Render coordinate of logical coordinate c (maze.rb `m2g`). */
  function M2G(c: int): (g: int)
    ensures g % 2 == 1
    ensures G2M(g) == c
  {
    2 * c + 1
  }

  /** Logical coordinate of a render coordinate; the inverse of M2G on odd values. */
  function G2M(g: int): int
  {
    (g - 1) / 2
  }

  /** Every odd render coordinate is the centre of exactly one logical coordinate. */
  lemma G2MOfOdd(g: int)
    requires g % 2 == 1
    ensures M2G(G2M(g)) == g
  {
  }

  /** n is one of the four cells sharing a side with c. */
  predicate IsStep(c: Cell, n: Cell)
  {
    || (n.x == c.x && (n.y == c.y - 1 || n.y == c.y + 1))
    || (n.y == c.y && (n.x == c.x - 1 || n.x == c.x + 1))
  }

  /** Row-major order on cells: up, left, right, down around any cell are in this order. */
  predicate Before(a: Cell, b: Cell)
  {
    a.y < b.y || (a.y == b.y && a.x < b.x)
  }

  /** (i, j) is the render position of a cell centre: odd row, odd column. */
  predicate IsCentre(i: int, j: int)
  {
    i % 2 == 1 && j % 2 == 1
  }

  /** The logical cell whose centre is at render row i, render column j. */
  function CentreCell(i: int, j: int): (c: Cell)
    ensures IsCentre(i, j) ==> M2G(c.y) == i && M2G(c.x) == j
  {
    Cell(G2M(j), G2M(i))
  }
}
