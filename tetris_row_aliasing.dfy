/**
 * The board as the source stores it: an array of references to row arrays. Clearing a
 * row moves references, not contents, so after the shift the two top slots refer to the
 * same row array, and emptying the top row empties the second row as well.
 */
module TetrisRowAliasing {
  import opened TetrisBoard

  /** `refs[y]` names the array that row y refers to; `arrays` holds each array's contents. */
  datatype RowStore = RowStore(refs: seq<nat>, arrays: seq<seq<bool>>)

  predicate Sound(s: RowStore)
  {
    forall y | 0 <= y < |s.refs| :: s.refs[y] < |s.arrays|
  }

  /** No two rows share an array, as in a freshly allocated board. */
  predicate Unshared(s: RowStore)
  {
    forall i, j | 0 <= i < j < |s.refs| :: s.refs[i] != s.refs[j]
  }

  /** The grid the board shows. */
  function View(s: RowStore): (g: Rows)
    requires Sound(s)
    ensures |g| == |s.refs|
  {
    seq(|s.refs|, y requires 0 <= y < |s.refs| => s.arrays[s.refs[y]])
  }

  /** A new board: one distinct empty array per row. */
  function NewStore(w: nat, h: nat): (s: RowStore)
    ensures Sound(s) && Unshared(s) && View(s) == EmptyRows(w, h)
  {
    RowStore(seq(h, i => i), EmptyRows(w, h))
  }

  /** Setting a slot writes into the array the row refers to. */
  function SetAsWritten(s: RowStore, x: nat, y: nat, filled: bool): (r: RowStore)
    requires Sound(s) && y < |s.refs| && x < |s.arrays[s.refs[y]]|
    ensures Sound(r) && r.refs == s.refs
  {
    var a := s.refs[y];
    RowStore(s.refs, s.arrays[a := s.arrays[a][x := filled]])
  }

  /**
   * The row clear as written: each slot from y down to 1 takes the reference of the slot
   * above, then the array in slot 0 is filled with `false`.
   */
  function ClearRowAsWritten(s: RowStore, w: nat, y: nat): (r: (RowStore, bool))
    requires Sound(s) && WellFormed(View(s), w, |s.refs|) && y < |s.refs|
    ensures Sound(r.0) && |r.0.refs| == |s.refs|
    ensures r.1 <==> RowFull(View(s)[y])
  {
    if RowFull(View(s)[y]) then
      (RowStore([s.refs[0]] + s.refs[..y] + s.refs[y + 1..], s.arrays[s.refs[0] := EmptyRow(w)]), true)
    else (s, false)
  }

  /** After a clear below the top row, slots 0 and 1 refer to one array. */
  lemma ClearSharesTopRows(s: RowStore, w: nat, y: nat)
    requires Sound(s) && WellFormed(View(s), w, |s.refs|) && 1 <= y < |s.refs|
    requires RowFull(View(s)[y])
    ensures var r := ClearRowAsWritten(s, w, y).0; r.refs[0] == r.refs[1]
  {
  }

  /**
   * On a board whose rows are unshared, the clear as written agrees with the intended
   * `ClearRow` except that the row that moves from the top to the second slot is emptied.
   */
  lemma ClearAsWrittenLosesTopRow(s: RowStore, w: nat, y: nat)
    requires Sound(s) && Unshared(s) && WellFormed(View(s), w, |s.refs|) && 1 <= y < |s.refs|
    requires RowFull(View(s)[y])
    ensures View(ClearRowAsWritten(s, w, y).0) == ClearRow(View(s), w, y).0[1 := EmptyRow(w)]
  {
    var r := ClearRowAsWritten(s, w, y).0;
    var intended := ClearRow(View(s), w, y).0[1 := EmptyRow(w)];
    forall row | 0 <= row < |s.refs|
      ensures View(r)[row] == intended[row]
    {
      if row > y {
        assert r.refs[row] == s.refs[row] && s.refs[row] != s.refs[0];
      } else if row >= 2 {
        assert r.refs[row] == s.refs[row - 1] && s.refs[row - 1] != s.refs[0];
      }
    }
  }

  /**
   * Width 1, height 3: fill the bottom slot, clear the bottom row, then fill the top slot.
   * As written the second row is filled too; the intended board fills only the top slot.
   */
  lemma SharedRowCounterexample()
    ensures var s0 := SetAsWritten(NewStore(1, 3), 0, 2, true);
      var s1 := ClearRowAsWritten(s0, 1, 2).0;
      View(SetAsWritten(s1, 0, 0, true)) == [[true], [true], [false]]
    ensures var g0 := EmptyRows(1, 3)[2 := [true]];
      var g1 := ClearRow(g0, 1, 2).0;
      g1[0 := g1[0][0 := true]] == [[true], [false], [false]]
  {
    assert EmptyRow(1) == [false];
    assert NewStore(1, 3) == RowStore([0, 1, 2], [[false], [false], [false]]);
    var s0 := SetAsWritten(NewStore(1, 3), 0, 2, true);
    assert s0.refs == [0, 1, 2];
    assert s0.arrays[2] == [false][0 := true] == [true];
    assert s0.arrays == [[false], [false], [true]];
    assert View(s0) == [[false], [false], [true]];
    assert RowFull(View(s0)[2]);
    var s1 := ClearRowAsWritten(s0, 1, 2).0;
    assert s1.refs == [0, 0, 1];
    var g0 := EmptyRows(1, 3)[2 := [true]];
    assert g0 == [[false], [false], [true]];
    assert RowFull(g0[2]);
    assert ClearRow(g0, 1, 2).0 == [[false], [false], [false]];
  }
}
