/**
 * The tic-tac-toe board: a rows-by-cols grid of characters, with the checks the game
 * loop uses, namely whether a move is on the board, whether a player has won on the
 * 3-by-3 corner, and whether the board is full.
 */
module TicTacToe {
  const Empty: char := '_'
  const X: char := 'X'
  const O: char := 'O'

  /** A grid of characters with the given number of rows and columns. */
  predicate IsGrid(g: seq<seq<char>>, rows: nat, cols: nat)
  {
    |g| == rows && forall r | 0 <= r < |g| :: |g[r]| == cols
  }

  /** Indices of the three rows and columns that the win test looks at. */
  type Idx = i: nat | i < 3

  /**
   * The eight winning lines of a 3-by-3 board, each a list of (row, column) cells:
   * the three rows, the three columns, the main diagonal and the anti-diagonal.
   */
  const Lines: seq<seq<(Idx, Idx)>> := [
    [(0, 0), (0, 1), (0, 2)], [(1, 0), (1, 1), (1, 2)], [(2, 0), (2, 1), (2, 2)],
    [(0, 0), (1, 0), (2, 0)], [(0, 1), (1, 1), (2, 1)], [(0, 2), (1, 2), (2, 2)],
    [(0, 0), (1, 1), (2, 2)], [(0, 2), (1, 1), (2, 0)]]

  /** Every cell of the line holds the player's mark. */
  predicate Owns(g: seq<seq<char>>, line: seq<(Idx, Idx)>, player: char)
    requires |g| >= 3 && forall r | 0 <= r < |g| :: |g[r]| >= 3
  {
    forall k | 0 <= k < |line| :: g[line[k].0][line[k].1] == player
  }

  /** The player holds a whole winning line. */
  predicate Won(g: seq<seq<char>>, player: char)
    requires |g| >= 3 && forall r | 0 <= r < |g| :: |g[r]| >= 3
  {
    exists i | 0 <= i < |Lines| :: Owns(g, Lines[i], player)
  }

  predicate AllEmpty(g: seq<seq<char>>)
  {
    forall r, c | 0 <= r < |g| && 0 <= c < |g[r]| :: g[r][c] == Empty
  }

  /** No cell is left to play: the board is full. */
  predicate NoneEmpty(g: seq<seq<char>>)
  {
    forall r, c | 0 <= r < |g| && 0 <= c < |g[r]| :: g[r][c] != Empty
  }

  /** The winning line of each row, each column, and each diagonal. */
  lemma RowLine(r: Idx)
    ensures Lines[r] == [(r, 0), (r, 1), (r, 2)]
  {
    if r == 0 {
    } else if r == 1 {
    } else {
    }
  }

  lemma ColumnLine(c: Idx)
    ensures Lines[3 + c] == [(0, c), (1, c), (2, c)]
  {
    if c == 0 {
    } else if c == 1 {
    } else {
    }
  }

  /** A player wins exactly by filling a row, a column or a diagonal of the 3-by-3 corner. */
  lemma {:induction false} WonByRowColumnOrDiagonal(g: seq<seq<char>>, player: char)
    requires |g| >= 3 && forall r | 0 <= r < |g| :: |g[r]| >= 3
    ensures Won(g, player) <==>
      || (exists r: Idx :: g[r][0] == player && g[r][1] == player && g[r][2] == player)
      || (exists c: Idx :: g[0][c] == player && g[1][c] == player && g[2][c] == player)
      || (g[0][0] == player && g[1][1] == player && g[2][2] == player)
      || (g[0][2] == player && g[1][1] == player && g[2][0] == player)
  {
    if Won(g, player) {
      var i :| 0 <= i < |Lines| && Owns(g, Lines[i], player);
      assert g[Lines[i][0].0][Lines[i][0].1] == player;
      assert g[Lines[i][1].0][Lines[i][1].1] == player;
      assert g[Lines[i][2].0][Lines[i][2].1] == player;
      if i < 3 {
        RowLine(i);
        var r: Idx := i;
        assert g[r][0] == player && g[r][1] == player && g[r][2] == player;
      } else if i < 6 {
        ColumnLine(i - 3);
        var c: Idx := i - 3;
        assert g[0][c] == player && g[1][c] == player && g[2][c] == player;
      } else if i == 6 {
        assert Lines[6] == [(0, 0), (1, 1), (2, 2)];
      } else {
        assert Lines[7] == [(0, 2), (1, 1), (2, 0)];
      }
    }
    if exists r: Idx :: g[r][0] == player && g[r][1] == player && g[r][2] == player {
      var r: Idx :| g[r][0] == player && g[r][1] == player && g[r][2] == player;
      RowLine(r);
      assert Owns(g, Lines[r], player);
    }
    if exists c: Idx :: g[0][c] == player && g[1][c] == player && g[2][c] == player {
      var c: Idx :| g[0][c] == player && g[1][c] == player && g[2][c] == player;
      ColumnLine(c);
      assert Owns(g, Lines[3 + c], player);
    }
    if g[0][0] == player && g[1][1] == player && g[2][2] == player {
      assert Owns(g, Lines[6], player);
    }
    if g[0][2] == player && g[1][1] == player && g[2][0] == player {
      assert Lines[7] == [(0, 2), (1, 1), (2, 0)];
      assert Owns(g, Lines[7], player);
    }
  }

  /** A board with no marks on it is won by neither player. */
  lemma BlankIsNotWon(g: seq<seq<char>>, player: char)
    requires |g| >= 3 && forall r | 0 <= r < |g| :: |g[r]| >= 3
    requires AllEmpty(g) && player != Empty
    ensures !Won(g, player)
  {
    forall i | 0 <= i < |Lines|
      ensures !Owns(g, Lines[i], player)
    {
      assert g[Lines[i][0].0][Lines[i][0].1] == Empty;
    }
  }

  /** A finished game that neither player has won: every cell is taken. */
  const Drawn: seq<seq<char>> := [[X, O, X], [X, O, O], [O, X, X]]

  /**
   * As written, `full` holds exactly when every cell is empty: a drawn board is not
   * "full" (so the game loop never reports the draw), and a blank board is.
   */
  lemma {:induction false} FullAsWrittenMissesDraw(b: seq<seq<char>>)
    requires IsGrid(b, 3, 3) && AllEmpty(b)
    ensures NoneEmpty(Drawn) && !AllEmpty(Drawn)
    ensures !Won(Drawn, X) && !Won(Drawn, O)
    ensures AllEmpty(b) && !NoneEmpty(b)
  {
    assert Drawn[0][0] != Empty;
    assert b[0][0] == Empty;
    forall i | 0 <= i < |Lines|
      ensures !Owns(Drawn, Lines[i], X) && !Owns(Drawn, Lines[i], O)
    {
      var line := Lines[i];
      assert i == 0 || i == 1 || i == 2 || i == 3 || i == 4 || i == 5 || i == 6 || i == 7;
      assert Drawn[line[0].0][line[0].1] != Drawn[line[1].0][line[1].1]
        || Drawn[line[1].0][line[1].1] != Drawn[line[2].0][line[2].1];
    }
  }

  class Board {
    const rows: nat
    const cols: nat
    const cells: array2<char>

    predicate Valid()
    {
      cells.Length0 == rows && cells.Length1 == cols
    }

    /** The contents of the board, row by row. */
    ghost function Grid(): (g: seq<seq<char>>)
      reads cells
      requires Valid()
      ensures IsGrid(g, rows, cols)
      ensures forall r, c | 0 <= r < rows && 0 <= c < cols :: g[r][c] == cells[r, c]
    {
      seq(rows, r requires 0 <= r < rows reads cells => seq(cols, c requires 0 <= c < cols reads cells => cells[r, c]))
    }

    /** A board of the given size with every cell empty. */
    constructor (rows: nat, cols: nat)
      ensures Valid() && this.rows == rows && this.cols == cols && fresh(cells)
      ensures AllEmpty(Grid())
    {
      this.rows := rows;
      this.cols := cols;
      cells := new char[rows, cols];
      new;
      for row := 0 to rows
        invariant forall r, c | 0 <= r < row && 0 <= c < cols :: cells[r, c] == Empty
      {
        for col := 0 to cols
          invariant forall r, c | 0 <= r < row && 0 <= c < cols :: cells[r, c] == Empty
          invariant forall c | 0 <= c < col :: cells[row, c] == Empty
        {
          cells[row, col] := Empty;
        }
      }
    }

    /** A cell that `Get` and `Set` accept. */
    function InRange(row: int, col: int): (r: bool)
      requires Valid()
      ensures r <==> 0 <= row < cells.Length0 && 0 <= col < cells.Length1
    {
      0 <= row < rows && 0 <= col < cols
    }

    /** The range test as written: the column bound is inclusive. */
    function InRangeAsWritten(row: int, col: int): (r: bool)
      requires Valid()
      ensures r <==> InRange(row, col) || (0 <= row < rows && col == cols)
    {
      0 <= row < rows && 0 <= col <= cols
    }

    /** As written, the range test admits the column just past the last one, which `Get` and `Set` reject. */
    lemma InRangeAsWrittenAdmitsPastEnd()
      requires Valid() && rows > 0
      ensures InRangeAsWritten(0, cols) && !InRange(0, cols)
    {
    }

    /** The cell of the grid at (row, col); on a new board, the empty mark. */
    function Get(row: int, col: int): (c: char)
      reads cells
      requires Valid() && InRange(row, col)
      ensures c == Grid()[row][col]
      ensures AllEmpty(Grid()) ==> c == Empty
    {
      cells[row, col]
    }

    /** Writes one cell, which `Get` then reads back; no other cell changes. */
    method Set(row: int, col: int, value: char)
      requires Valid() && InRange(row, col)
      modifies cells
      ensures Get(row, col) == value
      ensures forall r, c | InRange(r, c) && (r, c) != (row, col) :: Get(r, c) == old(Get(r, c))
    {
      cells[row, col] := value;
    }

    /** Whether the player holds a row, a column or a diagonal of the 3-by-3 corner. */
    method HasWon(player: char) returns (won: bool)
      requires Valid() && rows >= 3 && cols >= 3
      ensures won <==> Won(Grid(), player)
    {
      ghost var g := Grid();
      WonByRowColumnOrDiagonal(g, player);
      for rowI := 0 to 3
        invariant forall r: Idx | r < rowI :: !(g[r][0] == player && g[r][1] == player && g[r][2] == player)
      {
        var hasRow := cells[rowI, 0] == player && cells[rowI, 1] == player && cells[rowI, 2] == player;
        if hasRow {
          return true;
        }
      }
      for colI := 0 to 3
        invariant forall c: Idx | c < colI :: !(g[0][c] == player && g[1][c] == player && g[2][c] == player)
      {
        var hasColumn := cells[0, colI] == player && cells[1, colI] == player && cells[2, colI] == player;
        if hasColumn {
          return true;
        }
      }
      var hasTopLeftDiagonal := cells[0, 0] == player && cells[1, 1] == player && cells[2, 2] == player;
      if hasTopLeftDiagonal {
        return true;
      }
      var hasTopRightDiagonal := cells[0, 2] == player && cells[1, 1] == player && cells[2, 0] == player;
      if hasTopRightDiagonal {
        return true;
      }
      return false;
    }

    /** The fullness test as written: it holds exactly when every cell is empty. */
    method FullAsWritten() returns (full: bool)
      requires Valid()
      ensures full <==> AllEmpty(Grid())
    {
      for row := 0 to rows
        invariant forall r, c | 0 <= r < row && 0 <= c < cols :: cells[r, c] == Empty
      {
        for col := 0 to cols
          invariant forall c | 0 <= c < col :: cells[row, c] == Empty
        {
          if Get(row, col) != Empty {
            return false;
          }
        }
      }
      return true;
    }

    /** Whether the board is full: no cell is empty. */
    method Full() returns (full: bool)
      requires Valid()
      ensures full <==> NoneEmpty(Grid())
    {
      for row := 0 to rows
        invariant forall r, c | 0 <= r < row && 0 <= c < cols :: cells[r, c] != Empty
      {
        for col := 0 to cols
          invariant forall c | 0 <= c < col :: cells[row, c] != Empty
        {
          if Get(row, col) == Empty {
            return false;
          }
        }
      }
      return true;
    }
  }
}
