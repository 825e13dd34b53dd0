/** The playing field: a fixed grid of cells, and the four directions of travel. */
module Grid {

  /** Window size in pixels and the side of one cell. */
  const WindowWidth: int := 1000
  const WindowHeight: int := 700
  const GridSize: int := 20

  /** Number of columns and rows of the grid (integer division of the window by the cell size). */
  const Width: int := WindowWidth / GridSize
  const Height: int := WindowHeight / GridSize

  /** A cell is an (x, y) pair of column and row; it may lie outside the grid. */
  type Cell = (int, int)

  predicate InBounds(c: Cell) {
    0 <= c.0 < Width && 0 <= c.1 < Height
  }

  predicate AllInBounds(cells: seq<Cell>) {
    forall i :: 0 <= i < |cells| ==> InBounds(cells[i])
  }

  /** The cell a new snake starts on. */
  function Center(): (c: Cell)
    ensures InBounds(c)
    ensures c == (25, 17)
  {
    (Width / 2, Height / 2)
  }

  lemma Dimensions()
    ensures Width == 50 && Height == 35
  {
  }

  function Abs(n: int): nat {
    if n < 0 then -n else n
  }

  /** Two cells are adjacent when they share a side. */
  predicate Adjacent(a: Cell, b: Cell) {
    Abs(a.0 - b.0) + Abs(a.1 - b.1) == 1
  }

  /** The four directions of travel; y grows downwards, as on the screen. */
  datatype Direction = Up | Down | Left | Right

  /** The unit vector of a direction. */
  function Vector(d: Direction): (v: (int, int))
    ensures Abs(v.0) + Abs(v.1) == 1
    ensures d == Up || d == Down <==> v.0 == 0
    ensures v.1 < 0 <==> d == Up
    ensures v.0 < 0 <==> d == Left
  {
    match d
    case Up => (0, -1)
    case Down => (0, 1)
    case Left => (-1, 0)
    case Right => (1, 0)
  }

  /** The direction pointing back the way one came. */
  function Opposite(d: Direction): (o: Direction)
    ensures Vector(o) == (-Vector(d).0, -Vector(d).1)
    ensures o != d
  {
    match d
    case Up => Down
    case Down => Up
    case Left => Right
    case Right => Left
  }

  /** The cell one step from `c` in direction `d`. */
  function Step(c: Cell, d: Direction): (n: Cell)
    ensures Adjacent(n, c)
    ensures n != c
  {
    (c.0 + Vector(d).0, c.1 + Vector(d).1)
  }

  lemma OppositeInvolutive(d: Direction)
    ensures Opposite(Opposite(d)) == d
  {
  }

  /** Stepping back in the opposite direction undoes a step. */
  lemma StepBack(c: Cell, d: Direction)
    ensures Step(Step(c, d), Opposite(d)) == c
  {
  }

  /** Every pair of adjacent cells is one step apart in some direction. */
  lemma AdjacentIsStep(a: Cell, b: Cell)
    requires Adjacent(a, b)
    ensures exists d :: Step(b, d) == a
  {
    if a.0 == b.0 + 1 {
      assert Step(b, Right) == a;
    } else if a.0 == b.0 - 1 {
      assert Step(b, Left) == a;
    } else if a.1 == b.1 + 1 {
      assert Step(b, Down) == a;
    } else {
      assert Step(b, Up) == a;
    }
  }
}
