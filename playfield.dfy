/** The playfield object: the grid, the score and the two flags, updated in place. */
module Playfield {
  import opened Geometry
  import opened Rows
  import opened Rules

  class Board {
    var grid: Grid
    var score: int
    var gameOver: bool
    var isPlaying: bool

    /** The board's state as a value. */
    ghost function Snapshot(): Field
      reads this
    {
      Field(grid, score, gameOver, isPlaying)
    }

    ghost predicate Valid()
      reads this
    {
      FieldOk(Snapshot())
    }

    /** A new board: empty grid, no score, neither over nor playing. */
    constructor ()
      ensures Valid() && Snapshot() == Initial().field
    {
      grid := WhiteBoard();
      score := 0;
      gameOver := false;
      isPlaying := false;
      WhiteBoardVacant();
    }

    /** Restart: empty grid, zero score, not over; the playing flag is left as it was. */
    method Reset()
      modifies this
      ensures Valid()
      ensures Snapshot() == Field(WhiteBoard(), 0, false, old(isPlaying))
    {
      score := 0;
      grid := WhiteBoard();
      gameOver := false;
      WhiteBoardVacant();
    }

    /** Drop the complete rows, add empty rows on top and score them. */
    method HandleCompleteRows()
      requires Valid()
      modifies this
      ensures Valid()
      ensures Snapshot() == ClearField(old(Snapshot()))
    {
      var latestGrid := Incomplete(grid);
      var cleared := ROWS - |latestGrid|;
      ClearRowsShape(grid);
      ClearFieldSpec(Snapshot());
      if cleared != 0 {
        grid := WhiteRows(cleared) + latestGrid;
        HandleScore(cleared * POINTS_PER_ROW);
      }
    }

    /** Add points to the score. */
    method HandleScore(points: int)
      requires Valid() && points >= 0
      modifies this
      ensures Valid()
      ensures Snapshot() == old(Snapshot()).(score := old(score) + points)
    {
      score := score + points;
    }

    /** End the game: over, and no longer playing. */
    method HandleGameover()
      modifies this
      ensures Snapshot() == old(Snapshot()).(gameOver := true, isPlaying := false)
    {
      gameOver := true;
      isPlaying := false;
    }
  }
}
