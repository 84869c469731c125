/** The game controller: owns the board and the current brick (module-level
    variables in the original), starts a game, runs a timer tick and dispatches
    key presses. The random choice of the next piece is the parameter `nextId`. */
module Controller {
  import opened Geometry
  import opened Rules
  import opened Playfield
  import opened Pieces

  class Game {
    /** The piece table: four rotation states per piece id. */
    const table: seq<seq<Layout>>
    const board: Board
    /** The falling brick; none before the first play. */
    var brick: Brick?

    /** The game's state as a value. */
    ghost function Snapshot(): Session
      reads this, board, brick
    {
      Session(board.Snapshot(), if brick == null then None else Some(brick.Snapshot()))
    }

    ghost predicate Valid()
      reads this, board, brick
    {
      Inv(Snapshot(), table)
    }

    /** A new game over a well-formed piece table, waiting for play. */
    constructor (table: seq<seq<Layout>>)
      requires WellFormedTable(table)
      ensures Valid() && this.table == table && Snapshot() == Initial()
    {
      this.table := table;
      board := new Board();
      brick := null;
      new;
      InitialInv(table);
    }

    /** The play button: reset the board, start playing and spawn a brick. */
    method Play(nextId: int)
      requires Valid() && 0 <= nextId < |table|
      modifies this, board
      ensures Valid() && Snapshot() == PlayStep(nextId, table)
    {
      StepsKeepInv(Snapshot(), "", nextId, table);
      board.Reset();
      board.isPlaying := true;
      brick := new Brick(nextId, table);
    }

    /** The down move: one row down, or land and, unless the game is now over,
        replace the brick by a new one of piece `nextId`. */
    method MoveDown(nextId: int)
      requires Valid() && brick != null && !board.gameOver && 0 <= nextId < |table|
      modifies this, board, brick
      ensures Valid() && Snapshot() == Apply(old(Snapshot()), Down, nextId, table)
    {
      ApplyKeepsInv(Snapshot(), Down, nextId, table);
      var landed := brick.MoveDown(board);
      if landed && !board.gameOver {
        brick := new Brick(nextId, table);
      }
    }

    /** One timer tick: the down move unless the game is over. */
    method Tick(nextId: int)
      requires Valid() && brick != null && 0 <= nextId < |table|
      modifies this, board, brick
      ensures Valid() && Snapshot() == TickStep(old(Snapshot()), nextId, table)
    {
      if !board.gameOver {
        MoveDown(nextId);
      }
    }

    /** A key press, honoured only while playing and not over. */
    method HandleKey(code: string, nextId: int)
      requires Valid() && 0 <= nextId < |table|
      modifies this, board, brick
      ensures Valid() && Snapshot() == KeyStep(old(Snapshot()), code, nextId, table)
    {
      if !board.gameOver && board.isPlaying {
        StepsKeepInv(Snapshot(), code, nextId, table);
        match KeyMove(code)
        case Some(Left) =>
          brick.MoveLeft(board);
        case Some(Right) =>
          brick.MoveRight(board);
        case Some(Down) =>
          MoveDown(nextId);
        case Some(Rotate) =>
          brick.Rotate(board);
        case None =>
      }
    }
  }
}
