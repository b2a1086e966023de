/** Food placement (`generateFood`): the free cells are listed column by
    column (x outer, y inner) and one of them is chosen at random; when no
    cell is free the food stays where it was. */
module Food {
  import opened Options
  import opened Grid

  /** Number of cells on the board. */
  const CellCount: int := Extent * Extent

  /** The k-th cell in the enumeration order of `generateFood`. */
  function CellAt(k: int): Cell {
    Cell(k / Extent, k % Extent)
  }

  /** Position of a cell in that enumeration. */
  function IndexOf(c: Cell): int {
    c.x * Extent + c.y
  }

  lemma CellAtIndexOf(c: Cell)
    requires InBounds(c)
    ensures 0 <= IndexOf(c) < CellCount && CellAt(IndexOf(c)) == c
  {
    var k := IndexOf(c);
    assert k == Extent * (k / Extent) + k % Extent && 0 <= k % Extent < Extent;
    assert Extent * (c.x - k / Extent) == k % Extent - c.y;
  }

  lemma IndexOfCellAt(k: int)
    requires 0 <= k < CellCount
    ensures InBounds(CellAt(k)) && IndexOf(CellAt(k)) == k
  {
  }

  /** The free cells among the first n cells of the enumeration, in order. */
  function FreePrefix(snake: seq<Cell>, n: nat): seq<Cell>
    decreases n
  {
    if n == 0 then []
    else FreePrefix(snake, n - 1) + (if CellAt(n - 1) in snake then [] else [CellAt(n - 1)])
  }

  /** One step of the scan: the cell (x, y) is appended when it is free. */
  lemma FreePrefixStep(snake: seq<Cell>, x: int, y: int)
    requires 0 <= x < Extent && 0 <= y < Extent
    ensures FreePrefix(snake, x * Extent + y + 1)
         == FreePrefix(snake, x * Extent + y) + (if Cell(x, y) in snake then [] else [Cell(x, y)])
  {
    CellAtIndexOf(Cell(x, y));
  }

  /** The list `emptySpaces` that `generateFood` builds. */
  function FreeCells(snake: seq<Cell>): seq<Cell> {
    FreePrefix(snake, CellCount)
  }

  lemma {:induction false} FreePrefixMembers(snake: seq<Cell>, n: nat, c: Cell)
    requires n <= CellCount
    ensures c in FreePrefix(snake, n) <==> InBounds(c) && IndexOf(c) < n && c !in snake
  {
    if n > 0 {
      FreePrefixMembers(snake, n - 1, c);
      IndexOfCellAt(n - 1);
      if InBounds(c) {
        CellAtIndexOf(c);
      }
    }
  }

  /** A cell is listed as free exactly when it is on the board and not part
      of the snake. */
  lemma FreeCellsExactly(snake: seq<Cell>, c: Cell)
    ensures c in FreeCells(snake) <==> InBounds(c) && c !in snake
  {
    FreePrefixMembers(snake, CellCount, c);
    if InBounds(c) {
      CellAtIndexOf(c);
    }
  }

  /** The list of free cells is empty exactly when the snake fills the board. */
  lemma NoFreeCellIffFull(snake: seq<Cell>)
    ensures FreeCells(snake) == [] <==> Full(snake)
  {
    if FreeCells(snake) == [] {
      forall c | InBounds(c) ensures c in snake {
        FreeCellsExactly(snake, c);
      }
    } else {
      FreeCellsExactly(snake, FreeCells(snake)[0]);
    }
  }

  /** `Math.floor(Math.random() * n)`: the random source is an arbitrary
      natural number `pick`, reduced to an index below n. */
  function RandomIndex(pick: nat, n: nat): (i: nat)
    requires n > 0
    ensures i < n
  {
    pick % n
  }

  /** Every index can be drawn. */
  lemma RandomIndexReachesEvery(n: nat, i: nat)
    requires i < n
    ensures RandomIndex(i, n) == i
  {
  }

  /** Where `generateFood` leaves the food. */
  function Placement(snake: seq<Cell>, food: Option<Cell>, pick: nat): Option<Cell>
  {
    var free := FreeCells(snake);
    if |free| > 0 then Some(free[RandomIndex(pick, |free|)]) else food
  }

  /** New food is on the board and off the snake whenever a free cell
      exists; on a full board the old food is kept. */
  lemma PlacementFree(snake: seq<Cell>, food: Option<Cell>, pick: nat)
    ensures !Full(snake) ==>
      Placement(snake, food, pick).Some? &&
      InBounds(Placement(snake, food, pick).value) &&
      Placement(snake, food, pick).value !in snake
    ensures Full(snake) ==> Placement(snake, food, pick) == food
  {
    NoFreeCellIffFull(snake);
    var free := FreeCells(snake);
    if |free| > 0 {
      FreeCellsExactly(snake, free[RandomIndex(pick, |free|)]);
    }
  }

  /** `generateFood`: the nested loops over the board, each with a linear
      search of the snake, followed by the random choice. */
  method GenerateFood(snake: seq<Cell>, food: Option<Cell>, pick: nat) returns (placed: Option<Cell>)
    ensures placed == Placement(snake, food, pick)
    ensures !Full(snake) ==> placed.Some? && InBounds(placed.value) && placed.value !in snake
    ensures Full(snake) ==> placed == food
  {
    var emptySpaces: seq<Cell> := [];
    var x := 0;
    while x < Extent
      invariant 0 <= x <= Extent
      invariant emptySpaces == FreePrefix(snake, x * Extent)
    {
      var y := 0;
      while y < Extent
        invariant 0 <= y <= Extent
        invariant emptySpaces == FreePrefix(snake, x * Extent + y)
      {
        var isOccupied := false;
        var i := 0;
        while i < |snake|
          invariant 0 <= i <= |snake|
          invariant !isOccupied
          invariant forall j :: 0 <= j < i ==> snake[j] != Cell(x, y)
        {
          if snake[i] == Cell(x, y) {
            isOccupied := true;
            break;
          }
          i := i + 1;
        }
        assert isOccupied <==> Cell(x, y) in snake;
        FreePrefixStep(snake, x, y);
        if !isOccupied {
          emptySpaces := emptySpaces + [Cell(x, y)];
        }
        y := y + 1;
      }
      x := x + 1;
    }
    if |emptySpaces| > 0 {
      placed := Some(emptySpaces[RandomIndex(pick, |emptySpaces|)]);
    } else {
      placed := food;
    }
    PlacementFree(snake, food, pick);
  }
}
