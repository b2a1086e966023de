/** The optional value used for the food cell (absent before the first start)
    and for the speed (undefined until the difficulty is first applied). */
module Options {
  datatype Option<+T> = None | Some(value: T)
}

/** The board: a square of `Extent` by `Extent` cells, the four headings and
    one step of movement. */
module Grid {

  /** Side of the canvas in pixels. */
  const CanvasSize: int := 400
  /** Side of one cell in pixels (named GRID_SIZE in the game). */
  const CellPixels: int := 20
  /** Cells per side of the board: CanvasSize / CellPixels. */
  const Extent: int := 20
  /** Column and row of the initial head: floor(Extent / 2). */
  const Center: int := 10
  /** Number of cells of a freshly started snake. */
  const InitialLength: nat := 5

  /** The board side and the centre are the quotients the game computes. */
  lemma BoardConstants()
    ensures Extent == CanvasSize / CellPixels && Center == Extent / 2
  {
  }

  datatype Cell = Cell(x: int, y: int)

  datatype Direction = Up | Down | Left | Right

  predicate InBounds(c: Cell) {
    0 <= c.x < Extent && 0 <= c.y < Extent
  }

  /** The heading that would turn the snake back onto itself. */
  function Opposite(d: Direction): (r: Direction)
    ensures r != d
    ensures (d == Up || d == Down) <==> (r == Up || r == Down)
  {
    match d
    case Up => Down
    case Down => Up
    case Left => Right
    case Right => Left
  }

  /** Two cells that share a side. */
  predicate Adjacent(a: Cell, b: Cell) {
    (a.x == b.x && (a.y - b.y == 1 || b.y - a.y == 1)) ||
    (a.y == b.y && (a.x - b.x == 1 || b.x - a.x == 1))
  }

  /** The cell one step from `c` along `d`; y grows downwards. */
  function Move(c: Cell, d: Direction): (r: Cell)
    ensures Adjacent(c, r)
    ensures (d == Up || d == Down) <==> r.x == c.x
  {
    match d
    case Up => Cell(c.x, c.y - 1)
    case Down => Cell(c.x, c.y + 1)
    case Left => Cell(c.x - 1, c.y)
    case Right => Cell(c.x + 1, c.y)
  }

  /** Stepping back along the opposite heading undoes a step, so every
      heading moves to a different cell and two headings reach the same cell
      only when they are equal. */
  lemma MoveUndoneByOpposite(c: Cell, d: Direction)
    ensures Move(Move(c, d), Opposite(d)) == c
  {
  }

  lemma MoveInjective(c: Cell, d1: Direction, d2: Direction)
    ensures Move(c, d1) == Move(c, d2) <==> d1 == d2
  {
  }

  /** The snake's cells are pairwise distinct. */
  predicate Distinct(s: seq<Cell>) {
    forall i, j :: 0 <= i < j < |s| ==> s[i] != s[j]
  }

  predicate AllInBounds(s: seq<Cell>) {
    forall i :: 0 <= i < |s| ==> InBounds(s[i])
  }

  /** Every cell of the board is taken by `s`. */
  ghost predicate Full(s: seq<Cell>) {
    forall c :: InBounds(c) ==> c in s
  }
}
