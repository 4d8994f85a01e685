/**
 * The Tetris game as values: a game state and, for each operation of the game, the
 * state it leads to. The `Game` class is proved against these definitions.
 */
module TetrisRules {
  import opened TetrisPiece
  import opened TetrisBoard
  import opened TetrisBag
  import opened TetrisScore
  import opened TetrisLevel
  import opened Wrappers

  const Width: nat := 10
  const Height: nat := 20

  /** The automatic fall gets faster by one tick per level, down to one tick. */
  function TicksPerUpdate(level: int): (ticks: int)
    ensures ticks >= 1
    ensures level <= 19 ==> ticks == 20 - level
    ensures level >= 19 ==> ticks == 1
  {
    if 1 > 20 - level then 1 else 20 - level
  }

  datatype GameState = GameState(
    rows: Rows,         // the board
    cells: Grid,        // the falling piece
    x: int, y: int,     // where its top-left corner is
    lines: int,         // lines cleared in this game
    score: int,
    level: int, toNext: int,
    gameOver: bool,
    ticksPerStep: int, ticks: int,
    bag: BagState)

  /** A piece with grid `cells` fits on the board `rows` with its top-left corner at (x, y). */
  predicate Fits(rows: Rows, cells: Grid, x: int, y: int)
    requires WellFormed(rows, Width, Height) && IsSquare(cells)
  {
    !Hits(rows, Width, cells, x, y)
  }

  /** Everything the game keeps true of its state except where the falling piece is. */
  predicate Settled(s: GameState)
  {
    && WellFormed(s.rows, Width, Height) && NoFullRows(s.rows)
    && IsSquare(s.cells) && 2 <= |s.cells| <= 4
    && BagOk(s.bag)
    && Progress(s.level, s.toNext, s.lines)
    && s.score >= 0 && s.ticks >= 0
    && s.ticksPerStep == TicksPerUpdate(s.level)
  }

  /** The game invariant: in addition, the falling piece never overlaps anything unless the game is over. */
  predicate Inv(s: GameState)
  {
    Settled(s) && (!s.gameOver ==> Fits(s.rows, s.cells, s.x, s.y))
  }

  /** Moving by (dx, dy) happens exactly when the piece fits there. */
  function Move(s: GameState, dx: int, dy: int): (s': GameState)
    requires Inv(s)
    ensures Inv(s')
  {
    if Fits(s.rows, s.cells, s.x + dx, s.y + dy) then s.(x := s.x + dx, y := s.y + dy) else s
  }

  /** A flip is kept only when the flipped piece fits where it is. */
  function Flip(s: GameState): (s': GameState)
    requires Inv(s)
    ensures Inv(s')
  {
    var flipped := Flipped(s.cells);
    if Fits(s.rows, flipped, s.x, s.y) then s.(cells := flipped) else s
  }

  /** Neither kick by distance k, to the left or to the right, lets the piece fit. */
  predicate KickFails(rows: Rows, cells: Grid, x: int, y: int, k: int)
    requires WellFormed(rows, Width, Height) && IsSquare(cells)
  {
    !Fits(rows, cells, x - k, y) && !Fits(rows, cells, x + k, y)
  }

  /**
   * The first wall kick, from distance d on, at which the rotated piece fits: each
   * distance is tried to the left, then to the right, up to the piece size minus one.
   */
  function FirstKick(rows: Rows, cells: Grid, x: int, y: int, d: nat): (dx: Option<int>)
    requires WellFormed(rows, Width, Height) && IsSquare(cells)
    ensures dx.Some? ==> Fits(rows, cells, x + dx.value, y) && d <= Abs(dx.value) < |cells|
    decreases |cells| - d
  {
    if d >= |cells| then None
    else if Fits(rows, cells, x - d, y) then Some(0 - d)
    else if Fits(rows, cells, x + d, y) then Some(d)
    else FirstKick(rows, cells, x, y, d + 1)
  }

  /**
   * The kick found is the first in the order tried: every smaller distance fails both
   * ways, and a kick to the right is taken only when the same distance to the left fails;
   * no kick is found exactly when every distance fails both ways.
   */
  lemma {:induction false} FirstKickIsFirst(rows: Rows, cells: Grid, x: int, y: int, d: nat)
    requires WellFormed(rows, Width, Height) && IsSquare(cells)
    ensures var dx := FirstKick(rows, cells, x, y, d);
      dx.Some? ==> forall k | d <= k < Abs(dx.value) :: KickFails(rows, cells, x, y, k)
    ensures var dx := FirstKick(rows, cells, x, y, d);
      dx.Some? && dx.value > 0 ==> !Fits(rows, cells, x - dx.value, y)
    ensures FirstKick(rows, cells, x, y, d).None? <==> forall k | d <= k < |cells| :: KickFails(rows, cells, x, y, k)
    decreases |cells| - d
  {
    if d < |cells| {
      if Fits(rows, cells, x - d, y) || Fits(rows, cells, x + d, y) {
        assert !KickFails(rows, cells, x, y, d);
      } else {
        FirstKickIsFirst(rows, cells, x, y, d + 1);
      }
    }
  }

  function Abs(n: int): (m: nat)
  {
    if n < 0 then -n else n
  }

  datatype RotationDirection = Left | Right

  function Opposite(direction: RotationDirection): RotationDirection
  {
    if direction == Right then Left else Right
  }

  /** The piece grid turned a quarter turn in the given direction. */
  function Turned(cells: Grid, direction: RotationDirection): (r: Grid)
    requires IsSquare(cells)
    ensures IsSquare(r) && |r| == |cells|
  {
    if direction == Right then RotatedRight(cells) else RotatedLeft(cells)
  }

  /** A turn back the other way undoes a turn. */
  lemma TurnBackRestores(cells: Grid, direction: RotationDirection)
    requires IsSquare(cells)
    ensures Turned(Turned(cells, direction), Opposite(direction)) == cells
  {
    if direction == Right {
      RotateLeftUndoesRight(cells);
    } else {
      RotateRightUndoesLeft(cells);
    }
  }

  /**
   * A rotated grid is kept where the piece is if it fits there, else at the first wall
   * kick that fits; if none does, the piece is left as it was.
   */
  function Kicked(s: GameState, rotated: Grid): (s': GameState)
    requires Inv(s) && IsSquare(rotated) && |rotated| == |s.cells|
    ensures Inv(s')
  {
    if Fits(s.rows, rotated, s.x, s.y) then s.(cells := rotated)
    else match FirstKick(s.rows, rotated, s.x, s.y, 1)
      case Some(dx) => s.(cells := rotated, x := s.x + dx)
      case None => s
  }

  function Rotate(s: GameState, direction: RotationDirection): (s': GameState)
    requires Inv(s)
    ensures Inv(s')
  {
    Kicked(s, Turned(s.cells, direction))
  }

  /** A landing: the piece is written into the board, and the cleared lines are counted and scored. */
  function Landed(s: GameState): (s': GameState)
    requires Inv(s) && !s.gameOver
    ensures Settled(s')
  {
    NoHitsInBounds(s.rows, Width, s.cells, s.x, s.y);
    var (rows', cleared) := PlaceFrom(s.rows, Width, s.cells, s.x, s.y, 0);
    PlaceKeepsNoFullRows(s.rows, Width, s.cells, s.x, s.y, 0);
    StepKeepsProgress(s.level, s.toNext, s.lines, cleared);
    var (level', toNext') := LevelStep(s.level, s.toNext, cleared);
    s.(rows := rows', lines := s.lines + cleared, score := s.score + CalculateScore(cleared).value,
      level := level', toNext := toNext', ticksPerStep := TicksPerUpdate(level'))
  }

  /**
   * The next piece, taken from the bag, spawns at the top; `next` is the bag once it is
   * taken. The game is over when that piece cannot spawn.
   */
  function Spawned(s: GameState, next: BagState): (s': GameState)
    requires Settled(s) && BagOk(next)
    ensures Inv(s')
  {
    var cells' := PrototypeGrid(NextIndex(s.bag));
    var x' := SpawnX(Width, |cells'|);
    s.(cells := cells', x := x', y := 0, gameOver := Hits(s.rows, Width, cells', x', 0), bag := next)
  }

  /** What a landing leads to: the piece is placed, lines are scored, the next piece is spawned. */
  function AfterPlace(s: GameState, next: BagState): (s': GameState)
    requires Inv(s) && !s.gameOver && BagOk(next)
    ensures Inv(s')
  {
    Spawned(Landed(s), next)
  }

  /** The piece lands on this step: the game is on and the piece cannot fall another row. */
  predicate Lands(s: GameState)
    requires Inv(s)
  {
    !s.gameOver && !Fits(s.rows, s.cells, s.x, s.y + 1)
  }

  /**
   * One step of the game: nothing once the game is over; else the piece falls one row
   * if it fits there; else it lands, and the next piece is drawn, `next` being the bag
   * once it is drawn.
   */
  function Stepped(s: GameState, next: BagState): (s': GameState)
    requires Inv(s) && BagOk(next)
    ensures Inv(s')
  {
    if s.gameOver then s
    else if Fits(s.rows, s.cells, s.x, s.y + 1) then s.(y := s.y + 1)
    else AfterPlace(s, next)
  }

  /** The piece fits k rows below where it is. */
  predicate FitsBelow(s: GameState, k: int)
    requires WellFormed(s.rows, Width, Height) && IsSquare(s.cells)
  {
    Fits(s.rows, s.cells, s.x, s.y + k)
  }

  /** The position k rows below, where the piece fits there. */
  function Fallen(s: GameState, k: int): (s': GameState)
    requires Inv(s) && FitsBelow(s, k)
    ensures Inv(s') && s'.y == s.y + k
  {
    s.(y := s.y + k)
  }

  /** The first offset, from dy on and below the board's height, at which the piece no longer fits. */
  function FirstCollision(s: GameState, dy: int): (r: Option<int>)
    requires WellFormed(s.rows, Width, Height) && IsSquare(s.cells)
    ensures r.Some? ==> dy <= r.value < Height && !FitsBelow(s, r.value)
    ensures r.Some? && r.value > dy ==> FitsBelow(s, r.value - 1)
    decreases Height - dy
  {
    if dy >= Height then None
    else if !FitsBelow(s, dy) then Some(dy)
    else FirstCollision(s, dy + 1)
  }

  /** The collision found is the first: the piece fits at every offset before it, or at every offset when none is found. */
  lemma {:induction false} FirstCollisionIsFirst(s: GameState, dy: int)
    requires WellFormed(s.rows, Width, Height) && IsSquare(s.cells)
    ensures var r := FirstCollision(s, dy);
      r.Some? ==> forall k | dy <= k < r.value :: FitsBelow(s, k)
    ensures FirstCollision(s, dy).None? ==> forall k | dy <= k < Height :: FitsBelow(s, k)
    decreases Height - dy
  {
    if dy < Height && FitsBelow(s, dy) {
      FirstCollisionIsFirst(s, dy + 1);
    }
  }

  /**
   * The drop: a piece that cannot fall steps where it is; else it falls to just above
   * its first collision and steps there (and lands); with no collision below the board's
   * height, nothing happens.
   */
  function Dropped(s: GameState, next: BagState): (s': GameState)
    requires Inv(s) && BagOk(next)
    ensures Inv(s')
  {
    if !FitsBelow(s, 1) then Stepped(s, next)
    else match FirstCollision(s, 1)
      case None => s
      case Some(dy) => Stepped(Fallen(s, dy - 1), next)
  }

  /** The drop lands the piece. */
  predicate DropLands(s: GameState)
    requires Inv(s)
  {
    if !FitsBelow(s, 1) then Lands(s)
    else match FirstCollision(s, 1)
      case None => false
      case Some(dy) => Lands(Fallen(s, dy - 1))
  }

  /** The cases of a drop, one lemma each, for the imperative drop. */
  lemma DropBlocked(s: GameState, next: BagState)
    requires Inv(s) && BagOk(next) && !FitsBelow(s, 1)
    ensures Dropped(s, next) == Stepped(s, next) && (DropLands(s) <==> Lands(s))
  {
  }

  lemma DropFalls(s: GameState, next: BagState, dy: int)
    requires Inv(s) && BagOk(next) && FitsBelow(s, 1) && FirstCollision(s, 1) == Some(dy)
    ensures FitsBelow(s, dy - 1)
    ensures Dropped(s, next) == Stepped(Fallen(s, dy - 1), next) && (DropLands(s) <==> Lands(Fallen(s, dy - 1)))
  {
  }

  lemma DropStays(s: GameState, next: BagState)
    requires Inv(s) && BagOk(next) && FitsBelow(s, 1) && FirstCollision(s, 1).None?
    ensures Dropped(s, next) == s && !DropLands(s)
  {
  }

  /** One tick, with the comparison made robust: a step is due once the counter has reached the period. */
  function Updated(s: GameState, next: BagState): (s': GameState)
    requires Inv(s) && BagOk(next)
    ensures Inv(s')
  {
    if s.ticks >= s.ticksPerStep then Stepped(s, next).(ticks := 0)
    else s.(ticks := s.ticks + 1)
  }

  /** One tick as written: a step is due only when the counter equals the period. */
  function UpdatedAsWritten(s: GameState, next: BagState): (s': GameState)
    requires Inv(s) && BagOk(next)
    ensures Inv(s')
  {
    if s.ticks == s.ticksPerStep then Stepped(s, next).(ticks := 0)
    else s.(ticks := s.ticks + 1)
  }

  /** A run of ticks as written, `nexts` giving the bag each tick leaves. */
  function UpdatesAsWritten(s: GameState, nexts: seq<BagState>): (s': GameState)
    requires Inv(s) && forall i | 0 <= i < |nexts| :: BagOk(nexts[i])
    ensures Inv(s')
    decreases |nexts|
  {
    if |nexts| == 0 then s
    else UpdatesAsWritten(UpdatedAsWritten(s, nexts[0]), nexts[1..])
  }

  /** A new game, drawing its first piece from the new bag `first` (which becomes `next`). */
  function NewGame(first: BagState, next: BagState, gameOver: bool): (s: GameState)
    requires BagOk(first)
  {
    var cells := PrototypeGrid(NextIndex(first));
    GameState(EmptyRows(Width, Height), cells, SpawnX(Width, |cells|), 0, 0, 0, 1, 10,
      gameOver, TicksPerUpdate(1), 0, next)
  }

  /** Reset: a new board, bag, piece, score and level, and the game is no longer over. */
  ghost predicate ResetRel(first: BagState, s': GameState)
  {
    BagOk(first) && first.grabIndex == 0 && NextRel(first, s'.bag) && s' == NewGame(first, s'.bag, false)
  }

  /** Reset as written: the same, except that `gameOver` keeps its value. */
  ghost predicate ResetAsWrittenRel(s: GameState, first: BagState, s': GameState)
  {
    BagOk(first) && first.grabIndex == 0 && NextRel(first, s'.bag) && s' == NewGame(first, s'.bag, s.gameOver)
  }

  // ----- Properties of the rules.

  lemma ResetEstablishesInv(first: BagState, s': GameState)
    requires ResetRel(first, s')
    ensures Inv(s') && !s'.gameOver
  {
    NextKeepsUpcomingOrder(first, s'.bag);
    SpawnFitsEmptyBoard(Width, Height, s'.cells);
    StartProgress();
    assert !EmptyRow(Width)[0];
  }

  /** A landing never makes the score throw: at most four lines are cleared at once. */
  lemma LandingClearsAtMostFour(s: GameState)
    requires Inv(s) && !s.gameOver
    ensures InBounds(Width, Height, s.cells, s.x, s.y)
    ensures PlaceFrom(s.rows, Width, s.cells, s.x, s.y, 0).1 <= 4
  {
    NoHitsInBounds(s.rows, Width, s.cells, s.x, s.y);
  }

  /** Score, lines and level never go down, and the level goes up by at most one per step. */
  lemma StepMonotone(s: GameState, next: BagState)
    requires Inv(s) && BagOk(next)
    ensures var s' := Stepped(s, next);
      s.score <= s'.score && s.lines <= s'.lines && s.level <= s'.level <= s.level + 1
  {
  }

  /** The game is over after a step exactly when the piece landed and the next one cannot spawn. */
  lemma StepGameOver(s: GameState, next: BagState)
    requires Inv(s) && BagOk(next) && !s.gameOver
    ensures var s' := Stepped(s, next);
      s'.gameOver <==> Lands(s) && !Fits(s'.rows, s'.cells, SpawnX(Width, |s'.cells|), 0)
  {
  }

  /**
   * Once over, the game stays over: a step changes nothing, and a drop or a tick changes
   * nothing but where the piece is and the counter.
   */
  lemma GameOverIsFinal(s: GameState, next: BagState)
    requires Inv(s) && BagOk(next) && s.gameOver
    ensures Stepped(s, next) == s
    ensures Dropped(s, next) == s.(y := Dropped(s, next).y)
    ensures Updated(s, next) == s.(ticks := Updated(s, next).ticks)
  {
  }

  /** With the robust comparison, every tick without a step brings the next step one tick closer. */
  lemma UpdateApproachesStep(s: GameState, next: BagState)
    requires Inv(s) && BagOk(next) && s.ticks < s.ticksPerStep
    ensures var s' := Updated(s, next);
      s' == s.(ticks := s.ticks + 1) && s'.ticksPerStep - s'.ticks < s.ticksPerStep - s.ticks
  {
  }

  /** With the robust comparison, a tick steps whenever the counter has reached the period. */
  lemma UpdateStepsWhenDue(s: GameState, next: BagState)
    requires Inv(s) && BagOk(next) && s.ticks >= s.ticksPerStep
    ensures Updated(s, next) == Stepped(s, next).(ticks := 0)
  {
  }

  /**
   * A step that raises the level below 19 shortens the period by one tick while leaving
   * the counter as it was; a counter that had reached the old period is then past the new one.
   */
  lemma LevelUpOvertakesCounter(s: GameState, next: BagState)
    requires Inv(s) && BagOk(next) && s.ticks == s.ticksPerStep
    requires Stepped(s, next).level == s.level + 1 && s.level < 19
    ensures Stepped(s, next).ticks > Stepped(s, next).ticksPerStep
  {
  }

  /** As written, once the counter is past the period, no later tick steps: every tick only counts. */
  lemma {:induction false} UpdateAsWrittenStalls(s: GameState, nexts: seq<BagState>)
    requires Inv(s) && forall i | 0 <= i < |nexts| :: BagOk(nexts[i])
    requires s.ticks > s.ticksPerStep
    ensures UpdatesAsWritten(s, nexts) == s.(ticks := s.ticks + |nexts|)
    decreases |nexts|
  {
    if |nexts| > 0 {
      var s1 := UpdatedAsWritten(s, nexts[0]);
      assert s1 == s.(ticks := s.ticks + 1);
      UpdateAsWrittenStalls(s1, nexts[1..]);
    }
  }

  /** Reset as written leaves a finished game finished: its steps change nothing. */
  lemma ResetAsWrittenStaysOver(s: GameState, first: BagState, s': GameState, next: BagState)
    requires s.gameOver && ResetAsWrittenRel(s, first, s') && BagOk(next)
    ensures s'.gameOver && Inv(s')
    ensures Stepped(s', next) == s'
  {
    NextKeepsUpcomingOrder(first, s'.bag);
    StartProgress();
    assert !EmptyRow(Width)[0];
  }
}
