/**
 * Tetris pieces: square boolean grids, in row-major order (`g[y][x]`, with y going
 * down from the top), that can be flipped and rotated.
 */
module TetrisPiece {

  type Grid = seq<seq<bool>>

  /** A (row, column) coordinate of a grid. */
  type Cell = (int, int)

  predicate IsSquare(g: Grid)
  {
    forall y | 0 <= y < |g| :: |g[y]| == |g|
  }

  /** Upside down: row y of the result is row size-1-y of `g`. */
  function Flipped(g: Grid): (r: Grid)
    requires IsSquare(g)
    ensures IsSquare(r) && |r| == |g|
  {
    seq(|g|, y requires 0 <= y < |g| => g[|g| - 1 - y])
  }

  /** A quarter turn clockwise: the first column, read bottom-up, becomes the first row. */
  function RotatedRight(g: Grid): (r: Grid)
    requires IsSquare(g)
    ensures IsSquare(r) && |r| == |g|
  {
    var n := |g|;
    seq(n, y requires 0 <= y < n => seq(n, x requires 0 <= x < n => g[n - 1 - x][y]))
  }

  /** A quarter turn counter-clockwise: the last column, read top-down, becomes the first row. */
  function RotatedLeft(g: Grid): (r: Grid)
    requires IsSquare(g)
    ensures IsSquare(r) && |r| == |g|
  {
    var n := |g|;
    seq(n, y requires 0 <= y < n => seq(n, x requires 0 <= x < n => g[x][n - 1 - y]))
  }

  /** The coordinates of the filled slots. */
  function FilledCells(g: Grid): set<Cell>
    requires IsSquare(g)
  {
    set y, x | 0 <= y < |g| && 0 <= x < |g| && g[y][x] :: (y, x)
  }

  function FilledCount(g: Grid): nat
    requires IsSquare(g)
  {
    |FilledCells(g)|
  }

  lemma FlipTwiceRestores(g: Grid)
    requires IsSquare(g)
    ensures Flipped(Flipped(g)) == g
  {
    assert forall y | 0 <= y < |g| :: Flipped(Flipped(g))[y] == g[y];
  }

  lemma RotateLeftUndoesRight(g: Grid)
    requires IsSquare(g)
    ensures RotatedLeft(RotatedRight(g)) == g
  {
    var r := RotatedLeft(RotatedRight(g));
    forall y | 0 <= y < |g|
      ensures r[y] == g[y]
    {
      assert forall x | 0 <= x < |g| :: r[y][x] == g[y][x];
    }
  }

  lemma RotateRightUndoesLeft(g: Grid)
    requires IsSquare(g)
    ensures RotatedRight(RotatedLeft(g)) == g
  {
    var r := RotatedRight(RotatedLeft(g));
    forall y | 0 <= y < |g|
      ensures r[y] == g[y]
    {
      assert forall x | 0 <= x < |g| :: r[y][x] == g[y][x];
    }
  }

  /** Two quarter turns clockwise turn the grid through 180 degrees. */
  lemma RotateRightTwiceIsHalfTurn(g: Grid)
    requires IsSquare(g)
    ensures var r := RotatedRight(RotatedRight(g));
      forall y, x | 0 <= y < |g| && 0 <= x < |g| :: r[y][x] == g[|g| - 1 - y][|g| - 1 - x]
  {
  }

  lemma RotateRightFourTimesRestores(g: Grid)
    requires IsSquare(g)
    ensures RotatedRight(RotatedRight(RotatedRight(RotatedRight(g)))) == g
  {
    var h := RotatedRight(RotatedRight(g));
    RotateRightTwiceIsHalfTurn(g);
    RotateRightTwiceIsHalfTurn(h);
    var r := RotatedRight(RotatedRight(h));
    forall y | 0 <= y < |g|
      ensures r[y] == g[y]
    {
      assert forall x | 0 <= x < |g| :: r[y][x] == g[y][x];
    }
  }

  /** An injective map keeps the size of a set of cells. */
  lemma {:induction false} InjectiveImageCard(s: set<Cell>, f: Cell -> Cell)
    requires forall a, b | a in s && b in s && f(a) == f(b) :: a == b
    ensures |set a | a in s :: f(a)| == |s|
    decreases |s|
  {
    if s != {} {
      var a :| a in s;
      var rest := s - {a};
      InjectiveImageCard(rest, f);
      var image, restImage := set b | b in s :: f(b), set b | b in rest :: f(b);
      assert image == restImage + {f(a)};
      assert f(a) !in restImage;
    }
  }

  lemma FlipKeepsFilledCount(g: Grid)
    requires IsSquare(g)
    ensures FilledCount(Flipped(g)) == FilledCount(g)
  {
    var n := |g|;
    var f := (c: Cell) => (n - 1 - c.0, c.1);
    var before, after := FilledCells(g), FilledCells(Flipped(g));
    forall c | c in after
      ensures c in set d | d in before :: f(d)
    {
      assert f((n - 1 - c.0, c.1)) == c;
    }
    InjectiveImageCard(before, f);
    assert after == set d | d in before :: f(d);
  }

  lemma RotateRightKeepsFilledCount(g: Grid)
    requires IsSquare(g)
    ensures FilledCount(RotatedRight(g)) == FilledCount(g)
  {
    var n := |g|;
    var f := (c: Cell) => (c.1, n - 1 - c.0);
    var before, after := FilledCells(g), FilledCells(RotatedRight(g));
    forall c | c in after
      ensures c in set d | d in before :: f(d)
    {
      assert f((n - 1 - c.1, c.0)) == c;
    }
    InjectiveImageCard(before, f);
    assert after == set d | d in before :: f(d);
  }

  lemma RotateLeftKeepsFilledCount(g: Grid)
    requires IsSquare(g)
    ensures FilledCount(RotatedLeft(g)) == FilledCount(g)
  {
    var n := |g|;
    var f := (c: Cell) => (n - 1 - c.1, c.0);
    var before, after := FilledCells(g), FilledCells(RotatedLeft(g));
    forall c | c in after
      ensures c in set d | d in before :: f(d)
    {
      assert f((c.1, n - 1 - c.0)) == c;
    }
    InjectiveImageCard(before, f);
    assert after == set d | d in before :: f(d);
  }

  lemma MulMonotone(a: nat, b: nat, c: nat)
    requires a <= b
    ensures a * c <= b * c
  {
  }

  lemma MulAtLeast(k: int, size: nat)
    requires k >= 1
    ensures k * size >= size
  {
  }

  /** Euclidean division by `size` recovers the quotient and remainder of `y * size + x`. */
  lemma DivUnique(j: int, size: nat, y: int, x: int)
    requires 0 <= x < size && j == y * size + x
    ensures j / size == y && j % size == x
  {
    var q, r := j / size, j % size;
    assert (y - q) * size == r - x;
    if y - q >= 1 {
      MulAtLeast(y - q, size);
    } else if q - y >= 1 {
      MulAtLeast(q - y, size);
    }
  }

  /** Row-major position `i` of a `size` by `size` grid lies inside the grid. */
  lemma CellOfIndex(size: nat, i: nat)
    requires i < size * size
    ensures 0 < size && i / size < size && i % size < size
  {
  }

  /** Cell (y, x) is row-major position `y * size + x`. */
  lemma IndexOfCell(size: nat, y: nat, x: nat)
    requires y < size && x < size
    ensures y * size + x < size * size
    ensures (y * size + x) / size == y && (y * size + x) % size == x
  {
    MulMonotone(y, size - 1, size);
    DivUnique(y * size + x, size, y, x);
  }

  function RowOf(size: nat, i: nat): (y: nat)
    requires i < size * size
    ensures y < size
  {
    CellOfIndex(size, i);
    i / size
  }

  function ColumnOf(size: nat, i: nat): (x: nat)
    requires i < size * size
    ensures x < size
  {
    CellOfIndex(size, i);
    i % size
  }

  /** Distinct row-major positions name distinct cells. */
  lemma SameCellSameIndex(size: nat, i: nat, j: nat)
    requires i < size * size && j < size * size
    requires RowOf(size, i) == RowOf(size, j) && ColumnOf(size, i) == ColumnOf(size, j)
    ensures i == j
  {
    assert i == i / size * size + i % size;
    assert j == j / size * size + j % size;
  }

  /** The grid a layout string describes: a slot is filled iff its character is '.'. */
  function LayoutGrid(size: nat, layout: string): (g: Grid)
    requires size * size == |layout|
    ensures |g| == size && IsSquare(g)
  {
    seq(size, y requires 0 <= y < size =>
      seq(size, x requires 0 <= x < size => IndexOfCell(size, y, x); layout[y * size + x] == '.'))
  }

  /** Character `i` of the layout decides slot (i / size, i % size). */
  lemma LayoutGridAt(size: nat, layout: string, i: nat)
    requires size * size == |layout| && i < |layout|
    ensures LayoutGrid(size, layout)[RowOf(size, i)][ColumnOf(size, i)] == (layout[i] == '.')
  {
    var y, x := RowOf(size, i), ColumnOf(size, i);
    IndexOfCell(size, y, x);
    SameCellSameIndex(size, i, y * size + x);
  }

  class Piece {
    const size: nat
    var slots: array2<bool>
    ghost var cells: Grid

    ghost predicate Valid()
      reads this, slots
    {
      && slots.Length0 == size && slots.Length1 == size
      && |cells| == size && IsSquare(cells)
      && forall y, x | 0 <= y < size && 0 <= x < size :: slots[y, x] == cells[y][x]
    }

    /** A piece over an existing grid; `Clone` uses it to share the grid. */
    constructor Share(size: nat, slots: array2<bool>)
      requires slots.Length0 == size && slots.Length1 == size
      ensures Valid() && this.size == size && this.slots == slots
      ensures forall y, x | 0 <= y < size && 0 <= x < size :: cells[y][x] == slots[y, x]
    {
      this.size := size;
      this.slots := slots;
      cells := seq(size, y requires 0 <= y < size reads slots =>
        seq(size, x requires 0 <= x < size reads slots => slots[y, x]));
    }

    /** The layout constructor, for a layout whose length is `size * size`. */
    constructor Layout(size: nat, layout: string)
      requires size * size == |layout|
      ensures Valid() && fresh(slots) && this.size == size && cells == LayoutGrid(size, layout)
    {
      var a := ParseSlots(size, layout);
      this.size := size;
      slots := a;
      cells := LayoutGrid(size, layout);
    }

    /** Slot `i / size, i % size` is filled iff character `i` of the layout is '.'. */
    static method ParseSlots(size: nat, layout: string) returns (a: array2<bool>)
      requires size * size == |layout|
      ensures fresh(a) && a.Length0 == size && a.Length1 == size
      ensures forall y, x | 0 <= y < size && 0 <= x < size :: a[y, x] == LayoutGrid(size, layout)[y][x]
    {
      a := new bool[size, size]((_, _) => false);
      var i := 0;
      while i < |layout|
        invariant 0 <= i <= |layout|
        invariant forall j | 0 <= j < i :: a[RowOf(size, j), ColumnOf(size, j)] == (layout[j] == '.')
      {
        a[RowOf(size, i), ColumnOf(size, i)] := layout[i] == '.';
        forall j | 0 <= j < i
          ensures a[RowOf(size, j), ColumnOf(size, j)] == (layout[j] == '.')
        {
          if RowOf(size, j) == RowOf(size, i) && ColumnOf(size, j) == ColumnOf(size, i) {
            SameCellSameIndex(size, i, j);
          }
        }
        i := i + 1;
      }
      forall y, x | 0 <= y < size && 0 <= x < size
        ensures a[y, x] == LayoutGrid(size, layout)[y][x]
      {
        IndexOfCell(size, y, x);
        assert RowOf(size, y * size + x) == y && ColumnOf(size, y * size + x) == x;
      }
    }

    /** The string constructor: a piece exactly when `size * size` is the layout's length. */
    static method FromLayout(size: int, layout: string) returns (p: Piece?)
      ensures (p != null) <==> (0 <= size && size * size == |layout|)
      ensures p != null ==> fresh(p) && fresh(p.slots) && p.Valid() && p.size == size
      ensures p != null ==> p.cells == LayoutGrid(size, layout)
    {
      if size < 0 || size * size != |layout| {
        return null;
      }
      p := new Piece.Layout(size, layout);
    }

    /** A new piece sharing this piece's grid (the grid object itself, not a copy). */
    method Clone() returns (p: Piece)
      requires Valid()
      ensures fresh(p) && p.Valid() && p.size == size && p.slots == slots && p.cells == cells
    {
      p := new Piece.Share(size, slots);
      assert forall y | 0 <= y < size :: p.cells[y] == cells[y];
    }

    function Get(x: int, y: int): (filled: bool)
      reads this, slots
      requires Valid() && 0 <= x < size && 0 <= y < size
      ensures filled == cells[y][x]
    {
      slots[y, x]
    }

    method Flip()
      requires Valid()
      modifies this
      ensures Valid() && fresh(slots) && cells == Flipped(old(cells))
    {
      var source := slots;
      var flipped := new bool[size, size]((_, _) => false);
      for y := 0 to size
        modifies flipped
        invariant forall y', x' | 0 <= y' < y && 0 <= x' < size :: flipped[y', x'] == source[size - 1 - y', x']
      {
        for x := 0 to size
          modifies flipped
          invariant forall y', x' | 0 <= y' < y && 0 <= x' < size :: flipped[y', x'] == source[size - 1 - y', x']
          invariant forall x' | 0 <= x' < x :: flipped[y, x'] == source[size - 1 - y, x']
        {
          flipped[y, x] := source[size - 1 - y, x];
        }
      }
      slots := flipped;
      cells := Flipped(cells);
    }

    method RotateRight()
      requires Valid()
      modifies this
      ensures Valid() && fresh(slots) && cells == RotatedRight(old(cells))
    {
      var source := slots;
      var rotated := new bool[size, size]((_, _) => false);
      for y := 0 to size
        modifies rotated
        invariant forall y', x' | 0 <= y' < y && 0 <= x' < size :: rotated[y', x'] == source[size - 1 - x', y']
      {
        for x := 0 to size
          modifies rotated
          invariant forall y', x' | 0 <= y' < y && 0 <= x' < size :: rotated[y', x'] == source[size - 1 - x', y']
          invariant forall x' | 0 <= x' < x :: rotated[y, x'] == source[size - 1 - x', y]
        {
          rotated[y, x] := source[size - 1 - x, y];
        }
      }
      slots := rotated;
      cells := RotatedRight(cells);
    }

    method RotateLeft()
      requires Valid()
      modifies this
      ensures Valid() && fresh(slots) && cells == RotatedLeft(old(cells))
    {
      var source := slots;
      var rotated := new bool[size, size]((_, _) => false);
      for y := 0 to size
        modifies rotated
        invariant forall y', x' | 0 <= y' < y && 0 <= x' < size :: rotated[y', x'] == source[x', size - 1 - y']
      {
        for x := 0 to size
          modifies rotated
          invariant forall y', x' | 0 <= y' < y && 0 <= x' < size :: rotated[y', x'] == source[x', size - 1 - y']
          invariant forall x' | 0 <= x' < x :: rotated[y, x'] == source[x', size - 1 - y]
        {
          rotated[y, x] := source[x, size - 1 - y];
        }
      }
      slots := rotated;
      cells := RotatedLeft(cells);
    }
  }
}
