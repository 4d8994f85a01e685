/** Points for cleared lines: more lines cleared at once are worth more points. */
module TetrisScore {
  import opened Wrappers

  /** The points for clearing `lines` rows at once; `None` (the source throws) beyond four. */
  function CalculateScore(lines: int): (points: Option<nat>)
    ensures points.Some? <==> 0 <= lines <= 4
    ensures points == Some(0) <==> lines == 0
    ensures lines == 1 ==> points == Some(40)
    ensures lines == 2 ==> points == Some(100)
    ensures lines == 3 ==> points == Some(300)
    ensures lines == 4 ==> points == Some(1200)
  {
    match lines
    case 0 => Some(0)
    case 1 => Some(40)
    case 2 => Some(100)
    case 3 => Some(300)
    case 4 => Some(1200)
    case _ => None
  }

  /** Clearing more lines at once earns strictly more points. */
  lemma MoreLinesMorePoints(fewer: int, more: int)
    requires 0 <= fewer < more <= 4
    ensures CalculateScore(fewer).value < CalculateScore(more).value
  {
  }

  /** Clearing lines together earns more than clearing them one at a time. */
  lemma TogetherBeatsSeparately(lines: int)
    requires 2 <= lines <= 4
    ensures CalculateScore(lines).value > lines * CalculateScore(1).value
  {
  }

  class Score {
    var score: int

    constructor ()
      ensures score == 0
    {
      score := 0;
    }

    /** Adds the points for `lines`; reports false (the source throws) when there are none to add. */
    method Clear(lines: int) returns (ok: bool)
      modifies this
      ensures ok <==> CalculateScore(lines).Some?
      ensures ok ==> score == old(score) + CalculateScore(lines).value
      ensures !ok ==> score == old(score)
    {
      var points := CalculateScore(lines);
      if points.None? {
        return false;
      }
      score := score + points.value;
      ok := true;
    }

    function Get(): int
      reads this
    {
      score
    }
  }
}
