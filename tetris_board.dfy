/**
 * The Tetris board: a grid of slots, `height` rows of `width` booleans in row-major
 * order, with (0, 0) the top-left corner and y growing downwards.
 */
module TetrisBoard {
  import opened Wrappers
  import opened TetrisPiece
  import opened TetrisPosition

  type Rows = seq<seq<bool>>

  predicate WellFormed(g: Rows, w: nat, h: nat)
  {
    |g| == h && forall y | 0 <= y < h :: |g[y]| == w
  }

  function EmptyRow(w: nat): (row: seq<bool>)
    ensures |row| == w && forall x | 0 <= x < w :: !row[x]
  {
    seq(w, _ => false)
  }

  function EmptyRows(w: nat, h: nat): (g: Rows)
    ensures WellFormed(g, w, h) && forall y | 0 <= y < h :: g[y] == EmptyRow(w)
  {
    seq(h, _ => EmptyRow(w))
  }

  /** A row is cleared when every slot in it is filled. */
  predicate RowFull(row: seq<bool>)
  {
    forall x | 0 <= x < |row| :: row[x]
  }

  predicate NoFullRows(g: Rows)
  {
    forall y | 0 <= y < |g| :: !RowFull(g[y])
  }

  /** Board slot (boardX, boardY) is a wall (outside the board) or already filled. */
  predicate Blocked(g: Rows, w: nat, boardX: int, boardY: int)
    requires WellFormed(g, w, |g|)
  {
    !(0 <= boardX < w && 0 <= boardY < |g|) || g[boardY][boardX]
  }

  /** Slot (px, py) of the piece, with its top-left corner at (x, y), is filled and blocked. */
  predicate HitsAt(g: Rows, w: nat, cells: Grid, x: int, y: int, py: int, px: int)
    requires WellFormed(g, w, |g|) && IsSquare(cells)
  {
    0 <= py < |cells| && 0 <= px < |cells| && cells[py][px] && Blocked(g, w, x + px, y + py)
  }

  /** Some filled slot of the piece, with its top-left corner at (x, y), is blocked. */
  predicate Hits(g: Rows, w: nat, cells: Grid, x: int, y: int)
    requires WellFormed(g, w, |g|) && IsSquare(cells)
  {
    exists py, px | 0 <= py < |cells| && 0 <= px < |cells| :: HitsAt(g, w, cells, x, y, py, px)
  }

  /** Every filled slot of the piece lies on the board. */
  predicate InBounds(w: nat, h: nat, cells: Grid, x: int, y: int)
    requires IsSquare(cells)
  {
    forall py, px | 0 <= py < |cells| && 0 <= px < |cells| && cells[py][px] :: 0 <= x + px < w && 0 <= y + py < h
  }

  lemma NoHitsInBounds(g: Rows, w: nat, cells: Grid, x: int, y: int)
    requires WellFormed(g, w, |g|) && IsSquare(cells)
    requires !Hits(g, w, cells, x, y)
    ensures InBounds(w, |g|, cells, x, y)
  {
    forall py, px | 0 <= py < |cells| && 0 <= px < |cells| && cells[py][px]
      ensures 0 <= x + px < w && 0 <= y + py < |g|
    {
      assert !HitsAt(g, w, cells, x, y, py, px);
    }
  }

  /**
   * If row y is full, it is removed: the rows above it move down one, and an
   * empty row appears at the top. The flag says whether the row was cleared.
   */
  function ClearRow(g: Rows, w: nat, y: nat): (r: (Rows, bool))
    requires WellFormed(g, w, |g|) && y < |g|
    ensures WellFormed(r.0, w, |g|)
    ensures r.1 <==> RowFull(g[y])
    ensures !r.1 ==> r.0 == g
    ensures r.1 ==> r.0[0] == EmptyRow(w)
    ensures r.1 ==> forall row | 1 <= row <= y :: r.0[row] == g[row - 1]
    ensures forall row | y < row < |g| :: r.0[row] == g[row]
  {
    if RowFull(g[y]) then ([EmptyRow(w)] + g[..y] + g[y + 1..], true) else (g, false)
  }

  /** Piece row `pieceRow`, whose slot 0 sits at column x, stamped onto a board row up to piece column k. */
  function StampedRow(row: seq<bool>, pieceRow: seq<bool>, x: int, k: nat): (r: seq<bool>)
    requires k <= |pieceRow|
    ensures |r| == |row|
  {
    seq(|row|, bx requires 0 <= bx < |row| => row[bx] || (x <= bx < x + k && pieceRow[bx - x]))
  }

  predicate AnyFilled(pieceRow: seq<bool>)
  {
    exists px | 0 <= px < |pieceRow| :: pieceRow[px]
  }

  /** Piece row py placed: its slots are filled on the board, then its board row is cleared if full. */
  function PlaceRow(g: Rows, w: nat, cells: Grid, x: int, y: int, py: nat): (r: (Rows, bool))
    requires WellFormed(g, w, |g|) && IsSquare(cells) && InBounds(w, |g|, cells, x, y) && py < |cells|
    ensures WellFormed(r.0, w, |g|)
    ensures r.1 ==> AnyFilled(cells[py])
  {
    if !AnyFilled(cells[py]) then (g, false)
    else
      // a filled slot of the piece row puts its board row on the board
      var px :| 0 <= px < |cells| && cells[py][px];
      var row := y + py;
      ClearRow(g[row := StampedRow(g[row], cells[py], x, |cells|)], w, row)
  }

  /** The number of piece rows from py on that have a filled slot. */
  function FilledRowsFrom(cells: Grid, py: nat): (n: nat)
    requires py <= |cells|
    ensures n <= |cells| - py
    decreases |cells| - py
  {
    if py == |cells| then 0
    else FilledRowsFrom(cells, py + 1) + if AnyFilled(cells[py]) then 1 else 0
  }

  /**
   * Piece rows py.. placed one after another; the count of rows cleared on the way,
   * which only rows holding a filled slot of the piece can add to.
   */
  function PlaceFrom(g: Rows, w: nat, cells: Grid, x: int, y: int, py: nat): (r: (Rows, nat))
    requires WellFormed(g, w, |g|) && IsSquare(cells) && InBounds(w, |g|, cells, x, y) && py <= |cells|
    ensures WellFormed(r.0, w, |g|)
    ensures r.1 <= FilledRowsFrom(cells, py) <= |cells| - py
    decreases |cells| - py
  {
    if py == |cells| then (g, 0)
    else
      var (g1, cleared) := PlaceRow(g, w, cells, x, y, py);
      var (g2, count) := PlaceFrom(g1, w, cells, x, y, py + 1);
      (g2, count + if cleared then 1 else 0)
  }

  /** The spawn column: the piece centred on the top row. */
  function SpawnX(w: nat, size: nat): int
  {
    w / 2 - size / 2
  }

  /** A piece no wider than the board spawns inside it. */
  lemma SpawnWithinWidth(w: nat, size: nat)
    requires size <= w
    ensures 0 <= SpawnX(w, size) && SpawnX(w, size) + size <= w
  {
  }

  /** On an empty board a piece that fits the board's size does not collide at its spawn. */
  lemma SpawnFitsEmptyBoard(w: nat, h: nat, cells: Grid)
    requires IsSquare(cells) && |cells| <= w && |cells| <= h
    ensures !Hits(EmptyRows(w, h), w, cells, SpawnX(w, |cells|), 0)
  {
    SpawnWithinWidth(w, |cells|);
  }

  /** Placing a piece keeps a board free of full rows, as every full row is cleared at once. */
  lemma {:induction false} PlaceKeepsNoFullRows(g: Rows, w: nat, cells: Grid, x: int, y: int, py: nat)
    requires WellFormed(g, w, |g|) && IsSquare(cells) && InBounds(w, |g|, cells, x, y) && py <= |cells|
    requires 0 < w && NoFullRows(g)
    ensures NoFullRows(PlaceFrom(g, w, cells, x, y, py).0)
    decreases |cells| - py
  {
    if py < |cells| {
      var g1 := PlaceRow(g, w, cells, x, y, py).0;
      PlaceRowKeepsNoFullRows(g, w, cells, x, y, py);
      PlaceKeepsNoFullRows(g1, w, cells, x, y, py + 1);
    }
  }

  lemma PlaceRowKeepsNoFullRows(g: Rows, w: nat, cells: Grid, x: int, y: int, py: nat)
    requires WellFormed(g, w, |g|) && IsSquare(cells) && InBounds(w, |g|, cells, x, y) && py < |cells|
    requires 0 < w && NoFullRows(g)
    ensures NoFullRows(PlaceRow(g, w, cells, x, y, py).0)
  {
    if AnyFilled(cells[py]) {
      var px :| 0 <= px < |cells| && cells[py][px];
      var row := y + py;
      var stamped := g[row := StampedRow(g[row], cells[py], x, |cells|)];
      var (g1, cleared) := ClearRow(stamped, w, row);
      if cleared {
        assert !EmptyRow(w)[0];
        forall r | 0 <= r < |g1|
          ensures !RowFull(g1[r])
        {
          if r == 0 {
            assert !g1[0][0];
          } else {
            assert r <= row ==> g1[r] == g[r - 1];
          }
        }
      } else {
        assert g1 == stamped;
      }
    }
  }

  /** Rows below the piece's square are never touched by placing it. */
  lemma {:induction false} PlaceKeepsRowsBelow(g: Rows, w: nat, cells: Grid, x: int, y: int, py: nat)
    requires WellFormed(g, w, |g|) && IsSquare(cells) && InBounds(w, |g|, cells, x, y) && py <= |cells|
    ensures forall r | 0 <= r < |g| && y + |cells| <= r :: PlaceFrom(g, w, cells, x, y, py).0[r] == g[r]
    decreases |cells| - py
  {
    if py < |cells| {
      var g1 := PlaceRow(g, w, cells, x, y, py).0;
      assert forall r | 0 <= r < |g| && y + |cells| <= r :: g1[r] == g[r];
      PlaceKeepsRowsBelow(g1, w, cells, x, y, py + 1);
    }
  }

  class Board {
    const width: nat
    const height: nat
    var rows: Rows

    ghost predicate Valid()
      reads this
    {
      WellFormed(rows, width, height)
    }

    constructor (width: nat, height: nat)
      ensures Valid() && this.width == width && this.height == height
      ensures rows == EmptyRows(width, height)
    {
      this.width := width;
      this.height := height;
      rows := EmptyRows(width, height);
    }

    /** A slot of a new board reads empty; a filled slot lies in a row that is not empty. */
    function Get(x: int, y: int): (filled: bool)
      reads this
      requires Valid() && 0 <= x < width && 0 <= y < height
      ensures rows == EmptyRows(width, height) ==> !filled
      ensures filled ==> rows[y] != EmptyRow(width)
    {
      rows[y][x]
    }

    method Set(x: int, y: int, filled: bool)
      requires Valid() && 0 <= x < width && 0 <= y < height
      modifies this
      ensures Valid() && rows == old(rows)[y := old(rows)[y][x := filled]]
    {
      rows := rows[y := rows[y][x := filled]];
    }

    /** Clears row y if it is full: rows above move down one, the top row becomes empty. */
    method TryToClearRow(y: int) returns (cleared: bool)
      requires Valid() && 0 <= y < height
      modifies this
      ensures Valid() && (rows, cleared) == ClearRow(old(rows), width, y)
    {
      cleared := true;
      var x := 0;
      while x < width
        invariant 0 <= x <= width
        invariant forall x' | 0 <= x' < x :: rows[y][x']
      {
        if !Get(x, y) {
          cleared := false;
          break;
        }
        x := x + 1;
      }
      if cleared {
        var row := y;
        while row >= 1
          invariant 0 <= row <= y
          invariant WellFormed(rows, width, height)
          invariant forall r | 0 <= r <= row :: rows[r] == old(rows)[r]
          invariant forall r | row < r <= y :: rows[r] == old(rows)[r - 1]
          invariant forall r | y < r < height :: rows[r] == old(rows)[r]
        {
          rows := rows[row := rows[row - 1]];
          row := row - 1;
        }
        rows := rows[0 := EmptyRow(width)];
        assert rows == ([EmptyRow(width)] + old(rows)[..y] + old(rows)[y + 1..]);
      }
    }

    /** Whether the piece, with its top-left corner at (x, y), would hit a wall or a filled slot. */
    method Collides(piece: Piece, x: int, y: int) returns (r: bool)
      requires Valid() && piece.Valid()
      ensures r == Hits(rows, width, piece.cells, x, y)
    {
      for py := 0 to piece.size
        invariant forall py', px' | 0 <= py' < py && 0 <= px' < piece.size :: !HitsAt(rows, width, piece.cells, x, y, py', px')
      {
        for px := 0 to piece.size
          invariant forall py', px' | 0 <= py' < py && 0 <= px' < piece.size :: !HitsAt(rows, width, piece.cells, x, y, py', px')
          invariant forall px' | 0 <= px' < px :: !HitsAt(rows, width, piece.cells, x, y, py, px')
        {
          if piece.Get(px, py) {
            var boardX, boardY := x + px, y + py;
            var hitsEdge := boardX < 0 || boardX >= width || boardY < 0 || boardY >= height;
            if hitsEdge {
              assert HitsAt(rows, width, piece.cells, x, y, py, px);
              return true;
            }
            var collides := Get(boardX, boardY);
            if collides {
              assert HitsAt(rows, width, piece.cells, x, y, py, px);
              return true;
            }
          }
        }
      }
      return false;
    }

    /**
     * Places the piece with its top-left corner at (x, y) and returns the number of rows
     * cleared; `None` (the source throws) when the piece would collide there.
     */
    method Place(piece: Piece, x: int, y: int) returns (cleared: Option<nat>)
      requires Valid() && piece.Valid()
      modifies this
      ensures Valid()
      ensures cleared.None? <==> Hits(old(rows), width, piece.cells, x, y)
      ensures cleared.None? ==> rows == old(rows)
      ensures cleared.Some? ==> InBounds(width, height, piece.cells, x, y)
      ensures cleared.Some? ==> (rows, cleared.value) == PlaceFrom(old(rows), width, piece.cells, x, y, 0)
    {
      var collides := Collides(piece, x, y);
      if collides {
        return None;
      }
      NoHitsInBounds(rows, width, piece.cells, x, y);
      var cells := piece.cells;
      var rowsCleared := 0;
      for py := 0 to piece.size
        invariant Valid()
        invariant PlaceFrom(old(rows), width, cells, x, y, 0)
          == (PlaceFrom(rows, width, cells, x, y, py).0, PlaceFrom(rows, width, cells, x, y, py).1 + rowsCleared)
      {
        var row := y + py;
        var modifiedRow := StampPieceRow(piece, x, row, py);
        if modifiedRow {
          var c := TryToClearRow(row);
          if c {
            rowsCleared := rowsCleared + 1;
          }
        }
      }
      cleared := Some(rowsCleared);
    }

    /** The inner loop of `Place`: fills the board slots under the filled slots of piece row py. */
    method StampPieceRow(piece: Piece, x: int, row: int, py: nat) returns (modifiedRow: bool)
      requires Valid() && piece.Valid() && py < piece.size
      requires InBounds(width, height, piece.cells, x, row - py)
      modifies this
      ensures Valid()
      ensures modifiedRow <==> AnyFilled(piece.cells[py])
      ensures modifiedRow ==> 0 <= row < height
      ensures modifiedRow ==> rows == old(rows)[row := StampedRow(old(rows)[row], piece.cells[py], x, piece.size)]
      ensures !modifiedRow ==> rows == old(rows)
    {
      ghost var cells := piece.cells;
      modifiedRow := false;
      for px := 0 to piece.size
        invariant Valid()
        invariant modifiedRow <==> exists px' | 0 <= px' < px :: cells[py][px']
        invariant modifiedRow ==> 0 <= row < height && rows == old(rows)[row := StampedRow(old(rows)[row], cells[py], x, px)]
        invariant !modifiedRow ==> rows == old(rows)
      {
        if piece.Get(px, py) {
          if !modifiedRow {
            assert StampedRow(old(rows)[row], cells[py], x, px) == old(rows)[row];
          }
          Set(x + px, row, true);
          modifiedRow := true;
          assert rows[row] == StampedRow(old(rows)[row], cells[py], x, px + 1);
        } else if modifiedRow {
          assert StampedRow(old(rows)[row], cells[py], x, px) == StampedRow(old(rows)[row], cells[py], x, px + 1);
        }
      }
    }

    /** The spawn position of a new piece: the middle of the top row. */
    method NextPiecePosition(piece: Piece) returns (p: Position)
      ensures fresh(p) && p.x == SpawnX(width, piece.size) && p.y == 0
    {
      p := new Position(width / 2 - piece.size / 2, 0);
    }
  }
}
