/** The falling piece object. Each move tests its candidate placement with the
    read-only collision check and then either commits the change or does nothing. */
module Pieces {
  import opened Geometry
  import opened Rules
  import opened Playfield

  class Brick {
    const id: int
    /** The piece's four rotation states, taken from the piece table. */
    const layout: seq<Layout>
    var activeIndex: int
    var colPos: int
    var rowPos: int

    /** The brick's state as a value. */
    ghost function Snapshot(): Piece
      reads this
    {
      Piece(id, layout, activeIndex, colPos, rowPos)
    }

    ghost predicate Valid()
      reads this
    {
      PieceOk(Snapshot())
    }

    /** A new brick of piece `id`, unrotated, at column 3 two rows above the field. */
    constructor (id: int, table: seq<seq<Layout>>)
      requires WellFormedTable(table) && 0 <= id < |table|
      ensures Valid() && Snapshot() == Spawn(id, table)
    {
      this.id := id;
      this.layout := table[id];
      this.activeIndex := 0;
      this.colPos := SPAWN_COL;
      this.rowPos := SPAWN_ROW;
    }

    /** The collision test: true exactly when the candidate placement does not fit.
        Nothing is checked when the origin row is above the field; otherwise the
        column and row bounds are tested before the grid is read. */
    method CheckCollision(board: Board, nextRow: int, nextCol: int, nextLayout: Layout) returns (collides: bool)
      requires board.Valid() && IsRect(nextLayout)
      ensures collides <==> !Fits(board.grid, nextRow, nextCol, nextLayout)
    {
      var row := 0;
      while row < |nextLayout|
        invariant 0 <= row <= |nextLayout|
        invariant nextRow >= 0 ==> forall i, j :: 0 <= i < row && Occupied(nextLayout, i, j) ==>
          Vacant(board.grid, nextRow + i, nextCol + j)
      {
        var col := 0;
        while col < |nextLayout[0]|
          invariant 0 <= col <= |nextLayout[0]|
          invariant nextRow >= 0 ==> forall i, j :: 0 <= i < row && Occupied(nextLayout, i, j) ==>
            Vacant(board.grid, nextRow + i, nextCol + j)
          invariant nextRow >= 0 ==> forall j :: 0 <= j < col && Occupied(nextLayout, row, j) ==>
            Vacant(board.grid, nextRow + row, nextCol + j)
        {
          if nextLayout[row][col] != WHITE && nextRow >= 0 {
            if col + nextCol < 0 || col + nextCol >= COLS || row + nextRow >= ROWS
              || board.grid[row + nextRow][col + nextCol] != WHITE
            {
              assert Occupied(nextLayout, row, col) && !Vacant(board.grid, nextRow + row, nextCol + col);
              return true;
            }
          }
          col := col + 1;
        }
        row := row + 1;
      }
      return false;
    }

    /** One column left, unless the candidate collides. */
    method MoveLeft(board: Board)
      requires Valid() && board.Valid()
      modifies this
      ensures Valid() && Snapshot() == Shift(board.Snapshot(), old(Snapshot()), -1)
    {
      var collides := CheckCollision(board, rowPos, colPos - 1, layout[activeIndex]);
      if !collides {
        colPos := colPos - 1;
      }
    }

    /** One column right, unless the candidate collides. */
    method MoveRight(board: Board)
      requires Valid() && board.Valid()
      modifies this
      ensures Valid() && Snapshot() == Shift(board.Snapshot(), old(Snapshot()), 1)
    {
      var collides := CheckCollision(board, rowPos, colPos + 1, layout[activeIndex]);
      if !collides {
        colPos := colPos + 1;
      }
    }

    /** The next rotation state, unless it collides; no wall kick is tried. */
    method Rotate(board: Board)
      requires Valid() && board.Valid()
      modifies this
      ensures Valid() && Snapshot() == Turn(board.Snapshot(), old(Snapshot()))
    {
      var collides := CheckCollision(board, rowPos, colPos, layout[(activeIndex + 1) % 4]);
      if !collides {
        activeIndex := (activeIndex + 1) % 4;
      }
    }

    /** One row down, unless the candidate collides; then the brick lands. The caller
        replaces a landed brick (see Controller.Game.MoveDown). */
    method MoveDown(board: Board) returns (landed: bool)
      requires Valid() && board.Valid() && Placed(board.Snapshot(), Snapshot())
      modifies this, board
      ensures Valid() && board.Valid()
      ensures landed <==> !Fits(old(board.grid), old(rowPos) + 1, colPos, Current(Snapshot()))
      ensures !landed ==> Snapshot() == old(Snapshot()).(rowPos := old(rowPos) + 1)
                          && board.Snapshot() == old(board.Snapshot())
      ensures landed ==> Snapshot() == old(Snapshot())
                         && board.Snapshot() == Land(old(board.Snapshot()), Snapshot())
    {
      var collides := CheckCollision(board, rowPos + 1, colPos, layout[activeIndex]);
      if !collides {
        rowPos := rowPos + 1;
        return false;
      }
      HandleLanded(board);
      return true;
    }

    /** Landing: game over when the origin is at row 0 or above; otherwise the brick's
        cells are written into the grid and complete rows are cleared. */
    method HandleLanded(board: Board)
      requires Valid() && board.Valid() && Placed(board.Snapshot(), Snapshot())
      modifies board
      ensures board.Valid() && board.Snapshot() == Land(old(board.Snapshot()), Snapshot())
    {
      if rowPos <= 0 {
        board.HandleGameover();
        return;
      }
      ghost var g0 := board.grid;
      var L := layout[activeIndex];
      var row := 0;
      while row < |L|
        invariant 0 <= row <= |L|
        invariant board.Snapshot() == old(board.Snapshot()).(grid := board.grid)
        invariant ValidGrid(board.grid)
        invariant forall R, C :: 0 <= R < ROWS && 0 <= C < COLS ==>
          board.grid[R][C] == if Covers(L, rowPos, colPos, R, C) && R - rowPos < row then id else g0[R][C]
      {
        var col := 0;
        while col < |L[0]|
          invariant 0 <= col <= |L[0]|
          invariant board.Snapshot() == old(board.Snapshot()).(grid := board.grid)
          invariant ValidGrid(board.grid)
          invariant forall R, C :: 0 <= R < ROWS && 0 <= C < COLS ==>
            board.grid[R][C] ==
              if Covers(L, rowPos, colPos, R, C) && (R - rowPos < row || (R - rowPos == row && C - colPos < col))
              then id else g0[R][C]
        {
          if L[row][col] != WHITE {
            assert Occupied(L, row, col);
            assert Vacant(g0, rowPos + row, colPos + col);
            board.grid := board.grid[row + rowPos := board.grid[row + rowPos][col + colPos := id]];
          }
          col := col + 1;
        }
        row := row + 1;
      }
      StampPointwise(board.grid, g0, L, rowPos, colPos, id);
      board.HandleCompleteRows();
    }
  }
}
