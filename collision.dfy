/** Collision test (`checkCollision`): a candidate head is fatal when it
    leaves the board or lands on any cell of the body as it is before the
    move, the tail cell that is about to be vacated included. */
module Collision {
  import opened Grid

  predicate IsFatal(head: Cell, body: seq<Cell>) {
    !InBounds(head) || head in body
  }

  /** The bounds test followed by the linear search of the body. */
  method CheckCollision(snake: seq<Cell>, position: Cell) returns (hit: bool)
    ensures hit <==> IsFatal(position, snake)
    ensures !hit ==> InBounds(position) && forall i :: 0 <= i < |snake| ==> snake[i] != position
  {
    if position.x < 0 || position.y < 0 || position.x >= CanvasSize / CellPixels || position.y >= CanvasSize / CellPixels {
      return true;
    }
    var i := 0;
    while i < |snake|
      invariant 0 <= i <= |snake|
      invariant forall j :: 0 <= j < i ==> snake[j] != position
    {
      if snake[i].x == position.x && snake[i].y == position.y {
        return true;
      }
      i := i + 1;
    }
    return false;
  }

  /** A non-fatal head can be put in front of a valid body, and the body
      stays valid once its last cell is dropped. */
  lemma {:induction false} AdvanceKeepsBodyValid(head: Cell, body: seq<Cell>)
    requires Distinct(body) && AllInBounds(body) && !IsFatal(head, body)
    ensures Distinct([head] + body) && AllInBounds([head] + body)
    ensures |body| >= 1 ==> Distinct(([head] + body)[..|body|]) && AllInBounds(([head] + body)[..|body|])
  {
    var grown := [head] + body;
    forall i, j | 0 <= i < j < |grown| ensures grown[i] != grown[j] {
      if i == 0 {
        assert grown[j] == body[j - 1];
      } else {
        assert grown[i] == body[i - 1] && grown[j] == body[j - 1];
      }
    }
  }

  /** When the snake fills the board, every step is fatal. */
  lemma FullBoardIsFatal(body: seq<Cell>, head: Cell)
    requires Full(body)
    ensures IsFatal(head, body)
  {
  }
}
