/**
 * The Tetris game object: a board, a bag, the falling piece and its position, the
 * line count, score and level, and the tick counter that drives the automatic fall.
 * Every operation is proved to take the game to the state `TetrisRules` prescribes.
 */
module TetrisGame {
  import opened Wrappers
  import opened TetrisPiece
  import opened TetrisPosition
  import opened TetrisBoard
  import opened TetrisBag
  import opened TetrisScore
  import opened TetrisLevel
  import opened TetrisRules

  class Game {
    var ticksPerStep: int
    var ticksSinceLastStep: int
    var board: Board
    var bag: Bag
    var piece: Piece
    var piecePosition: Position
    var lines: int
    var score: Score
    var level: Level
    var gameOver: bool

    ghost function Abs(): GameState
      reads this, board, piece, piecePosition, score, level, bag, bag.bag, bag.nextBag
    {
      GameState(board.rows, piece.cells, piecePosition.x, piecePosition.y, lines, score.score,
        level.level, level.linesToNextLevel, gameOver, ticksPerStep, ticksSinceLastStep, bag.Abs())
    }

    /** Each part of the game is valid, the board has the game's size, and the falling piece is not a prototype. */
    ghost predicate Parts()
      reads this`board, this`piece, this`bag, board, piece, piece.slots
      reads bag, bag.bag, bag.nextBag, bag.prototypes, bag.PrototypeSlots()
    {
      && board.Valid() && board.width == Width && board.height == Height
      && bag.Valid() && piece.Valid() && piece !in bag.prototypes
    }

    ghost predicate Valid()
      reads this, board, piece, piece.slots, piecePosition, score, level
      reads bag, bag.bag, bag.nextBag, bag.prototypes, bag.PrototypeSlots()
    {
      Parts() && Inv(Abs())
    }

    /** A new board, a new bag, the bag's first piece at the spawn position, and a new score and level. */
    static method Deal() returns (board: Board, bag: Bag, piece: Piece, position: Position, score: Score, level: Level,
                                  ghost first: BagState)
      ensures fresh(board) && fresh(bag) && fresh(bag.bag) && fresh(bag.nextBag) && fresh(piece) && fresh(position)
      ensures fresh(score) && fresh(level)
      ensures board.Valid() && board.width == Width && board.height == Height && board.rows == EmptyRows(Width, Height)
      ensures bag.Valid() && piece.Valid() && piece !in bag.prototypes
      ensures BagOk(first) && first.grabIndex == 0 && NextRel(first, bag.Abs())
      ensures piece.cells == PrototypeGrid(NextIndex(first))
      ensures position.x == SpawnX(Width, |piece.cells|) && position.y == 0
      ensures score.score == 0 && level.level == 1 && level.linesToNextLevel == 10
    {
      board := new Board(Width, Height);
      bag := new Bag();
      first := bag.Abs();
      piece := bag.NextPiece();
      position := board.NextPiecePosition(piece);
      score := new Score();
      level := new Level();
    }

    constructor ()
      ensures Valid() && exists first :: ResetRel(first, Abs())
    {
      var b, g, p, position, sc, lv, first := Deal();
      board, bag, piece, piecePosition, score, level := b, g, p, position, sc, lv;
      ticksPerStep, ticksSinceLastStep, lines, gameOver := TicksPerUpdate(1), 0, 0, false;
      new;
      assert ResetRel(first, Abs());
      ResetEstablishesInv(first, Abs());
    }

    /** Starts a new game; unlike the source, it also clears `gameOver`. */
    method Reset()
      modifies this
      ensures Valid() && exists first :: ResetRel(first, Abs())
    {
      var b, g, p, position, sc, lv, first := Deal();
      Install(b, g, p, position, sc, lv);
      assert ResetRel(first, Abs());
      ResetEstablishesInv(first, Abs());
    }

    /** The fields of a new game: the given parts, no lines, the first level's period, and the game on. */
    method Install(b: Board, g: Bag, p: Piece, position: Position, sc: Score, lv: Level)
      modifies this
      ensures board == b && bag == g && piece == p && piecePosition == position && score == sc && level == lv
      ensures ticksPerStep == TicksPerUpdate(1) && ticksSinceLastStep == 0 && lines == 0 && !gameOver
    {
      board, bag, piece, piecePosition, score, level := b, g, p, position, sc, lv;
      ticksPerStep, ticksSinceLastStep, lines, gameOver := TicksPerUpdate(1), 0, 0, false;
    }

    /** One tick: a step is taken once the counter reaches the period. */
    method Update()
      requires Valid()
      modifies this`ticksSinceLastStep, this`piece, this`piecePosition, this`gameOver, this`lines, this`ticksPerStep, board, piecePosition, score, level, bag
      ensures Valid() && Abs() == Updated(old(Abs()), bag.Abs())
      ensures old(ticksSinceLastStep >= ticksPerStep) && Lands(old(Abs())) ==> bag.Abs() == Advanced(old(bag.Abs()), bag.Abs().nextBag)
    {
      if ticksSinceLastStep >= ticksPerStep {
        StepAndRestart();
      } else {
        ticksSinceLastStep := ticksSinceLastStep + 1;
      }
    }

    /** A step, after which the tick counter starts again from zero. */
    method StepAndRestart()
      requires Valid()
      modifies this`ticksSinceLastStep, this`piece, this`piecePosition, this`gameOver, this`lines, this`ticksPerStep, board, piecePosition, score, level, bag
      ensures Valid() && Abs() == Stepped(old(Abs()), bag.Abs()).(ticks := 0)
      ensures Lands(old(Abs())) ==> bag.Abs() == Advanced(old(bag.Abs()), bag.Abs().nextBag)
    {
      Step();
      ticksSinceLastStep := 0;
    }

    method RotateRight()
      requires Valid()
      modifies piece, piecePosition
      ensures Valid() && Abs() == Rotate(old(Abs()), Right)
    {
      TryToRotate(Right);
    }

    method RotateLeft()
      requires Valid()
      modifies piece, piecePosition
      ensures Valid() && Abs() == Rotate(old(Abs()), Left)
    {
      TryToRotate(Left);
    }

    method MoveRight()
      requires Valid()
      modifies piecePosition
      ensures Valid() && Abs() == Move(old(Abs()), 1, 0)
    {
      TryToMove(1, 0);
    }

    method MoveLeft()
      requires Valid()
      modifies piecePosition
      ensures Valid() && Abs() == Move(old(Abs()), -1, 0)
    {
      TryToMove(-1, 0);
    }

    method MoveDown()
      requires Valid()
      modifies piecePosition
      ensures Valid() && Abs() == Move(old(Abs()), 0, 1)
    {
      TryToMove(0, 1);
    }

    method Flip()
      requires Valid()
      modifies piece
      ensures Valid() && Abs() == TetrisRules.Flip(old(Abs()))
    {
      TryToFlip();
    }

    /** Drops the piece to just above where it would first collide, and steps there. */
    method Drop()
      requires Valid()
      modifies this`piece, this`piecePosition, this`gameOver, this`lines, this`ticksPerStep, board, piecePosition, score, level, bag
      ensures Valid() && Abs() == Dropped(old(Abs()), bag.Abs())
      ensures DropLands(old(Abs())) ==> bag.Abs() == Advanced(old(bag.Abs()), bag.Abs().nextBag)
    {
      var collides := board.Collides(piece, piecePosition.GetX(), piecePosition.GetY() + 1);
      if collides {
        DropBlockedStep();
      } else {
        DropFree();
      }
    }

    /** The drop of a piece that cannot fall a row: a step where it is. */
    method DropBlockedStep()
      requires Valid() && !FitsBelow(Abs(), 1)
      modifies this`piece, this`piecePosition, this`gameOver, this`lines, this`ticksPerStep, board, piecePosition, score, level, bag
      ensures Valid() && Abs() == Dropped(old(Abs()), bag.Abs())
      ensures DropLands(old(Abs())) ==> bag.Abs() == Advanced(old(bag.Abs()), bag.Abs().nextBag)
    {
      ghost var s := Abs();
      Step();
      DropBlocked(s, bag.Abs());
    }

    /** The drop of a piece that fits one row down: it falls to just above its first collision and steps there. */
    method DropFree()
      requires Valid() && FitsBelow(Abs(), 1)
      modifies this`piece, this`piecePosition, this`gameOver, this`lines, this`ticksPerStep, board, piecePosition, score, level, bag
      ensures Valid() && Abs() == Dropped(old(Abs()), bag.Abs())
      ensures DropLands(old(Abs())) ==> bag.Abs() == Advanced(old(bag.Abs()), bag.Abs().nextBag)
    {
      ghost var s := Abs();
      var dy := FindCollision();
      if dy.Some? {
        DropFalls(s, bag.Abs(), dy.value);
        FallAndStep(dy.value - 1);
        DropFalls(s, bag.Abs(), dy.value);
      } else {
        DropStays(s, bag.Abs());
      }
    }

    /** The piece falls k rows, where it fits, and then steps. */
    method FallAndStep(k: int)
      requires Valid() && FitsBelow(Abs(), k)
      modifies this`piece, this`piecePosition, this`gameOver, this`lines, this`ticksPerStep, board, piecePosition, score, level, bag
      ensures Valid() && Abs() == Stepped(Fallen(old(Abs()), k), bag.Abs())
      ensures Lands(Fallen(old(Abs()), k)) ==> bag.Abs() == Advanced(old(bag.Abs()), bag.Abs().nextBag)
    {
      ghost var s := Abs();
      piecePosition.Add(0, k);
      assert Abs() == Fallen(s, k);
      Step();
    }

    /** The first offset from one on, below the board's height, at which the piece would collide. */
    method FindCollision() returns (dy: Option<int>)
      requires board.Valid() && board.width == Width && board.height == Height && piece.Valid()
      ensures dy == FirstCollision(Abs(), 1)
    {
      ghost var s := Abs();
      for d := 1 to board.height
        invariant FirstCollision(s, 1) == FirstCollision(s, d)
      {
        var collides := board.Collides(piece, piecePosition.GetX(), piecePosition.GetY() + d);
        assert collides == !FitsBelow(s, d);
        if collides {
          return Some(d);
        }
      }
      return None;
    }

    /**
     * One step: nothing once the game is over; else the piece falls a row, or, if it
     * cannot, it is placed, the cleared lines are scored, and the next piece spawns.
     */
    method Step()
      requires Valid()
      modifies this`piece, this`piecePosition, this`gameOver, this`lines, this`ticksPerStep, board, piecePosition, score, level, bag
      ensures Valid() && Abs() == Stepped(old(Abs()), bag.Abs())
      ensures Lands(old(Abs())) ==> bag.Abs() == Advanced(old(bag.Abs()), bag.Abs().nextBag)
    {
      if gameOver {
        return;
      }
      var collides := board.Collides(piece, piecePosition.GetX(), piecePosition.GetY() + 1);
      if collides {
        Land();
      } else {
        Fall();
      }
    }

    /** The piece falls one row, where it fits. */
    method Fall()
      requires Valid() && FitsBelow(Abs(), 1)
      modifies piecePosition
      ensures Valid() && Abs() == Fallen(old(Abs()), 1)
    {
      piecePosition.SetY(piecePosition.GetY() + 1);
    }

    /** The piece lands: it is placed, the cleared lines are scored, and the next piece spawns. */
    method Land()
      requires Valid() && Lands(Abs())
      modifies this`piece, this`piecePosition, this`gameOver, this`lines, this`ticksPerStep, board, score, level, bag
      ensures Valid() && bag.Abs() == Advanced(old(bag.Abs()), bag.Abs().nextBag)
      ensures Abs() == AfterPlace(old(Abs()), bag.Abs())
    {
      PlacePiece();
      SpawnNextPiece();
    }

    /** The landing half of a step: the piece is placed and the cleared lines are counted and scored. */
    method PlacePiece()
      requires Valid() && !gameOver
      modifies this`lines, this`ticksPerStep, board, score, level
      ensures Parts()
      ensures Abs() == Landed(old(Abs()))
    {
      var linesJustCleared := PlaceOnBoard();
      ScoreLines(linesJustCleared);
    }

    /** The piece is written into the board, and the lines it completes are cleared and counted. */
    method PlaceOnBoard() returns (linesJustCleared: nat)
      requires Valid() && !gameOver
      modifies this`lines, board
      ensures Parts() && linesJustCleared <= 4
      ensures InBounds(Width, Height, piece.cells, piecePosition.x, piecePosition.y)
      ensures (board.rows, linesJustCleared) == PlaceFrom(old(board.rows), Width, piece.cells, piecePosition.x, piecePosition.y, 0)
      ensures lines == old(lines) + linesJustCleared
    {
      LandingClearsAtMostFour(Abs());
      var placed := board.Place(piece, piecePosition.GetX(), piecePosition.GetY());
      linesJustCleared := placed.value;
      lines := lines + linesJustCleared;
    }

    /** The cleared lines are scored and counted towards the level, which sets the period of the fall. */
    method ScoreLines(linesJustCleared: nat)
      requires linesJustCleared <= 4
      modifies this`ticksPerStep, score, level
      ensures score.score == old(score.score) + CalculateScore(linesJustCleared).value
      ensures (level.level, level.linesToNextLevel) == LevelStep(old(level.level), old(level.linesToNextLevel), linesJustCleared)
      ensures ticksPerStep == TicksPerUpdate(level.level)
    {
      var scored := score.Clear(linesJustCleared);
      level.Clear(linesJustCleared);
      ticksPerStep := TicksPerUpdate(level.Get());
    }

    /** The spawning half of a step: the next piece comes from the bag; the game is over if it cannot spawn. */
    method SpawnNextPiece()
      requires Parts() && Settled(Abs())
      modifies this`piece, this`piecePosition, this`gameOver, bag
      ensures Parts() && bag.Abs() == Advanced(old(bag.Abs()), bag.Abs().nextBag)
      ensures Abs() == Spawned(old(Abs()), bag.Abs())
    {
      DrawPiece();
      Enter();
    }

    /** The falling piece is put at the spawn position; the game is over if it overlaps something there. */
    method Enter()
      requires Parts()
      modifies this`piecePosition, this`gameOver
      ensures Parts() && piecePosition.x == SpawnX(Width, |piece.cells|) && piecePosition.y == 0
      ensures gameOver == Hits(board.rows, Width, piece.cells, piecePosition.x, 0)
    {
      piecePosition := board.NextPiecePosition(piece);
      var collides := board.Collides(piece, piecePosition.GetX(), piecePosition.GetY());
      gameOver := collides;
    }

    /** The falling piece becomes the next piece of the bag. */
    method DrawPiece()
      requires Parts()
      modifies this`piece, bag
      ensures Parts() && bag.Abs() == Advanced(old(bag.Abs()), bag.Abs().nextBag)
      ensures piece.cells == PrototypeGrid(NextIndex(old(bag.Abs())))
    {
      piece := bag.NextPiece();
    }

    method TryToMove(deltaX: int, deltaY: int)
      requires Valid()
      modifies piecePosition
      ensures Valid() && Abs() == Move(old(Abs()), deltaX, deltaY)
    {
      var collides := board.Collides(piece, piecePosition.GetX() + deltaX, piecePosition.GetY() + deltaY);
      if !collides {
        piecePosition.Add(deltaX, deltaY);
      }
    }

    /** Flips the piece, and flips it back if it then overlaps something. */
    method TryToFlip()
      requires Valid()
      modifies piece
      ensures Valid() && Abs() == TetrisRules.Flip(old(Abs()))
    {
      ghost var cells := piece.cells;
      piece.Flip();
      var shouldReset := board.Collides(piece, piecePosition.GetX(), piecePosition.GetY());
      if shouldReset {
        piece.Flip();
        FlipTwiceRestores(cells);
      }
    }

    /**
     * Rotates the piece; if it then overlaps something, tries the wall kicks in order,
     * and rotates it back if none of them fits.
     */
    method TryToRotate(direction: RotationDirection)
      requires Valid()
      modifies piece, piecePosition
      ensures Valid() && Abs() == Rotate(old(Abs()), direction)
    {
      ghost var s := Abs();
      Turn(direction);
      var invalid := board.Collides(piece, piecePosition.GetX(), piecePosition.GetY());
      if invalid {
        KickOrTurnBack(direction, s);
      }
    }

    /** After a turn that left the piece overlapping: the first wall kick that fits, or the turn undone. */
    method KickOrTurnBack(direction: RotationDirection, ghost s: GameState)
      requires Parts() && Inv(s) && Abs() == s.(cells := Turned(s.cells, direction))
      requires !Fits(s.rows, Turned(s.cells, direction), s.x, s.y)
      modifies piece, piecePosition
      ensures Parts() && Abs() == Kicked(s, Turned(s.cells, direction))
    {
      var dx := FindKick();
      if dx.Some? {
        piecePosition.Add(dx.value, 0);
      } else {
        TurnBack(direction, s.cells);
      }
    }

    /** Undoes a turn in the given direction of the grid `cells`. */
    method TurnBack(direction: RotationDirection, ghost cells: Grid)
      requires Parts() && IsSquare(cells) && piece.cells == Turned(cells, direction)
      modifies piece
      ensures Parts() && piece.cells == cells
    {
      Turn(Opposite(direction));
      TurnBackRestores(cells, direction);
    }

    /** Rotates the piece a quarter turn in the given direction. */
    method Turn(direction: RotationDirection)
      requires Parts()
      modifies piece
      ensures Parts() && piece.cells == Turned(old(piece.cells), direction)
    {
      if direction == Right {
        piece.RotateRight();
      } else {
        piece.RotateLeft();
      }
    }

    /** The first wall kick at which the piece fits, trying each distance to the left, then to the right. */
    method FindKick() returns (dx: Option<int>)
      requires board.Valid() && board.width == Width && board.height == Height && piece.Valid()
      ensures dx == FirstKick(board.rows, piece.cells, piecePosition.x, piecePosition.y, 1)
    {
      ghost var kick := FirstKick(board.rows, piece.cells, piecePosition.x, piecePosition.y, 1);
      var d := 1;
      while d < piece.size
        invariant 1 <= d && kick == FirstKick(board.rows, piece.cells, piecePosition.x, piecePosition.y, d)
        decreases piece.size - d
      {
        dx := TryKicksAt(d);
        if dx.Some? {
          return;
        }
        d := d + 1;
      }
      return None;
    }

    /** The kicks by distance d: to the left first, then to the right. */
    method TryKicksAt(d: int) returns (dx: Option<int>)
      requires board.Valid() && board.width == Width && board.height == Height && piece.Valid()
      requires 1 <= d < piece.size
      ensures dx.Some? ==> dx == FirstKick(board.rows, piece.cells, piecePosition.x, piecePosition.y, d)
      ensures dx.None? ==> (FirstKick(board.rows, piece.cells, piecePosition.x, piecePosition.y, d)
        == FirstKick(board.rows, piece.cells, piecePosition.x, piecePosition.y, d + 1))
    {
      for sign := -1 to 2
        invariant sign > -1 ==> !Fits(board.rows, piece.cells, piecePosition.x - d, piecePosition.y)
        invariant sign > 1 ==> !Fits(board.rows, piece.cells, piecePosition.x + d, piecePosition.y)
      {
        if sign == 0 {
          continue;
        }
        var offset := sign * d;
        assert offset == if sign < 0 then -d else d;
        var collides := board.Collides(piece, piecePosition.GetX() + offset, piecePosition.GetY());
        if !collides {
          return Some(offset);
        }
      }
      return None;
    }
  }
}
