/** The level: it takes 10 * n cleared lines to go from level n to level n + 1. */
module TetrisLevel {

  /** Level and lines still to clear after clearing `lines` more. */
  function LevelStep(level: int, toNext: int, lines: int): (r: (int, int))
    ensures r.0 == level || r.0 == level + 1
    ensures r.0 == level + 1 <==> toNext - lines <= 0
  {
    var remaining := toNext - lines;
    if remaining <= 0 then (level + 1, remaining + (level + 1) * 10) else (level, remaining)
  }

  /** The lines needed, from the start of the game, to reach the level after `level`: 10 + 20 + ... + 10 * level. */
  function LinesToPass(level: nat): nat
  {
    if level == 0 then 0 else LinesToPass(level - 1) + 10 * level
  }

  /** The state after `total` cleared lines: on level `level`, with `toNext` lines to go. */
  predicate Progress(level: int, toNext: int, total: int)
  {
    level >= 1 && 0 < toNext && toNext == LinesToPass(level) - total
  }

  /** The start of a game: level 1, 10 lines to go, nothing cleared. */
  lemma StartProgress()
    ensures Progress(1, 10, 0)
  {
    assert LinesToPass(1) == 10;
  }

  /**
   * Clearing up to four lines keeps the level in step with the total cleared: the level
   * goes up exactly when the total reaches 10 + 20 + ... + 10 * level.
   */
  lemma {:induction false} StepKeepsProgress(level: int, toNext: int, total: int, lines: int)
    requires Progress(level, toNext, total) && 0 <= lines <= 4
    ensures var (level', toNext') := LevelStep(level, toNext, lines);
      Progress(level', toNext', total + lines)
    ensures LevelStep(level, toNext, lines).0 == level + 1 <==> total + lines >= LinesToPass(level)
  {
    var (level', toNext') := LevelStep(level, toNext, lines);
    if level' == level + 1 {
      assert LinesToPass(level + 1) == LinesToPass(level) + 10 * (level + 1);
    }
  }

  class Level {
    var level: int
    var linesToNextLevel: int

    constructor ()
      ensures level == 1 && linesToNextLevel == 10
    {
      level := 1;
      linesToNextLevel := 10;
    }

    method Clear(lines: int)
      modifies this
      ensures (level, linesToNextLevel) == LevelStep(old(level), old(linesToNextLevel), lines)
    {
      linesToNextLevel := linesToNextLevel - lines;
      if linesToNextLevel <= 0 {
        level := level + 1;
        linesToNextLevel := linesToNextLevel + level * 10;
      }
    }

    function Get(): int
      reads this
    {
      level
    }
  }
}
