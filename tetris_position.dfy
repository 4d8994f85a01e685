/** The mutable x/y pair the Tetris game uses for the live piece. */
module TetrisPosition {

  class Position {
    var x: int
    var y: int

    constructor (x: int, y: int)
      ensures this.x == x && this.y == y
    {
      this.x := x;
      this.y := y;
    }

    function GetX(): int
      reads this
    {
      x
    }

    function GetY(): int
      reads this
    {
      y
    }

    method SetX(x: int)
      modifies this
      ensures this.x == x && y == old(y)
    {
      this.x := x;
    }

    method SetY(y: int)
      modifies this
      ensures this.y == y && x == old(x)
    {
      this.y := y;
    }

    method Add(deltaX: int, deltaY: int)
      modifies this
      ensures x == old(x) + deltaX && y == old(y) + deltaY
    {
      x := x + deltaX;
      y := y + deltaY;
    }
  }
}
