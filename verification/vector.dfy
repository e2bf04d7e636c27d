/** Grid coordinates and the four unit headings a marble can travel in. */
module Vector {

  /** A cell of the grid; x grows to the right, y grows downwards. */
  datatype Pos = Pos(x: int, y: int)

  /** Component-wise addition. */
  function Add(a: Pos, b: Pos): Pos {
    Pos(a.x + b.x, a.y + b.y)
  }

  const Zero: Pos := Pos(0, 0)

  const Up: Pos := Pos(0, -1)
  const Down: Pos := Pos(0, 1)
  const Left: Pos := Pos(-1, 0)
  const Right: Pos := Pos(1, 0)

  /** The canonical scan order of the unit headings; the order is the tie-break. */
  const Directions: seq<Pos> := [Up, Down, Left, Right]

  predicate IsVertical(d: Pos) {
    d == Up || d == Down
  }

  predicate IsHorizontal(d: Pos) {
    d == Left || d == Right
  }

  /** Two cells that share a side. */
  predicate Adjacent(a: Pos, b: Pos) {
    var dx := a.x - b.x;
    var dy := a.y - b.y;
    (dx == 0 && (dy == 1 || dy == -1)) || (dy == 0 && (dx == 1 || dx == -1))
  }
}
