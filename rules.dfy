/** The game rules on plain values: the playfield state, the falling piece, and
    what each move, tick, key press and restart does to them. The classes in
    Playfield, Pieces and Controller are proved to follow these definitions. */
module Rules {
  import opened Geometry
  import opened Rows

  /** Where a new piece appears: column 3, two rows above the field. */
  const SPAWN_COL: int := 3
  const SPAWN_ROW: int := -2
  /** Points added per cleared row. */
  const POINTS_PER_ROW: int := 10

  datatype Option<T> = None | Some(value: T)

  /** Playfield state: settled cells, score and the two flags. */
  datatype Field = Field(grid: Grid, score: int, gameOver: bool, isPlaying: bool)

  /** The falling piece: its id, its four rotation states, the current rotation and its origin. */
  datatype Piece = Piece(id: int, layout: seq<Layout>, activeIndex: int, colPos: int, rowPos: int)

  /** The whole game; there is no piece before the first play. */
  datatype Session = Session(field: Field, piece: Option<Piece>)

  /** The four player moves. */
  datatype Move = Left | Right | Down | Rotate

  /** A piece has exactly four rectangular rotation states. */
  ghost predicate WellFormedPiece(layouts: seq<Layout>) {
    |layouts| == 4 && forall k :: 0 <= k < 4 ==> IsRect(layouts[k])
  }

  /** The piece table: at least one piece and at most WHITE of them, so that no
      piece id is the empty id; every piece well formed. */
  ghost predicate WellFormedTable(table: seq<seq<Layout>>) {
    0 < |table| <= WHITE &&
    forall p :: 0 <= p < |table| ==> WellFormedPiece(table[p])
  }

  ghost predicate FieldOk(f: Field) {
    ValidGrid(f.grid) && f.score >= 0
  }

  ghost predicate PieceOk(p: Piece) {
    0 <= p.id < WHITE && WellFormedPiece(p.layout) && 0 <= p.activeIndex < 4
  }

  /** The rotation state the piece shows now. */
  ghost function Current(p: Piece): Layout
    requires PieceOk(p)
  {
    p.layout[p.activeIndex]
  }

  /** The piece's present placement passes the collision test. */
  ghost predicate Placed(f: Field, p: Piece)
    requires FieldOk(f) && PieceOk(p)
  {
    Fits(f.grid, p.rowPos, p.colPos, Current(p))
  }

  /** The session invariant: a sound field, a sound piece taken from the table whose
      placement passes the collision test, and a piece whenever the game is playing. */
  ghost predicate Inv(s: Session, table: seq<seq<Layout>>) {
    WellFormedTable(table) && FieldOk(s.field) &&
    (s.piece.None? ==> !s.field.isPlaying) &&
    (s.piece.Some? ==>
      var p := s.piece.value;
      PieceOk(p) && p.id < |table| && p.layout == table[p.id] && Placed(s.field, p))
  }

  /** A new piece of the given id, unrotated, at the spawn position. */
  ghost function Spawn(id: int, table: seq<seq<Layout>>): Piece
    requires 0 <= id < |table|
  {
    Piece(id, table[id], 0, SPAWN_COL, SPAWN_ROW)
  }

  /** Horizontal move by `dc` columns, refused when the candidate collides. */
  ghost function Shift(f: Field, p: Piece, dc: int): Piece
    requires FieldOk(f) && PieceOk(p)
  {
    if Fits(f.grid, p.rowPos, p.colPos + dc, Current(p)) then p.(colPos := p.colPos + dc) else p
  }

  /** Rotation to the next state modulo 4, refused when the candidate collides. */
  ghost function Turn(f: Field, p: Piece): Piece
    requires FieldOk(f) && PieceOk(p)
  {
    var a := (p.activeIndex + 1) % 4;
    if Fits(f.grid, p.rowPos, p.colPos, p.layout[a]) then p.(activeIndex := a) else p
  }

  /** Row clearing on the field: the grid is cleared and the score grows by
      POINTS_PER_ROW per complete row. */
  ghost function ClearField(f: Field): Field
    requires FieldOk(f)
  {
    f.(grid := ClearRows(f.grid), score := f.score + POINTS_PER_ROW * FullCount(f.grid))
  }

  /** Landing: with the origin at row 0 or above the field the game is over and the
      grid is left alone; otherwise the piece's cells are written and rows cleared. */
  ghost function Land(f: Field, p: Piece): Field
    requires FieldOk(f) && PieceOk(p)
  {
    if p.rowPos <= 0 then f.(gameOver := true, isPlaying := false)
    else ClearField(f.(grid := Stamp(f.grid, Current(p), p.rowPos, p.colPos, p.id)))
  }

  /** One step one row down: the piece descends when the row below fits; otherwise it
      lands, and unless the game is now over a new piece of id `nextId` replaces it.
      Moves are only dispatched while the game is not over. */
  ghost function Descend(s: Session, nextId: int, table: seq<seq<Layout>>): Session
    requires Inv(s, table) && s.piece.Some? && !s.field.gameOver && 0 <= nextId < |table|
  {
    var f, p := s.field, s.piece.value;
    if Fits(f.grid, p.rowPos + 1, p.colPos, Current(p)) then
      s.(piece := Some(p.(rowPos := p.rowPos + 1)))
    else
      var f' := Land(f, p);
      Session(f', if f'.gameOver then s.piece else Some(Spawn(nextId, table)))
  }

  /** The effect of one move on the session. */
  ghost function Apply(s: Session, m: Move, nextId: int, table: seq<seq<Layout>>): Session
    requires Inv(s, table) && s.piece.Some? && !s.field.gameOver && 0 <= nextId < |table|
  {
    var f, p := s.field, s.piece.value;
    match m
    case Left => s.(piece := Some(Shift(f, p, -1)))
    case Right => s.(piece := Some(Shift(f, p, 1)))
    case Rotate => s.(piece := Some(Turn(f, p)))
    case Down => Descend(s, nextId, table)
  }

  /** The key code bound to each move. */
  function KeyCode(m: Move): string {
    match m
    case Left => "ArrowLeft"
    case Right => "ArrowRight"
    case Rotate => "ArrowUp"
    case Down => "ArrowDown"
  }

  /** The move a key code selects; any other code selects nothing. */
  function KeyMove(code: string): Option<Move> {
    if code == KeyCode(Left) then Some(Left)
    else if code == KeyCode(Right) then Some(Right)
    else if code == KeyCode(Down) then Some(Down)
    else if code == KeyCode(Rotate) then Some(Rotate)
    else None
  }

  /** A key press: honoured only while playing and not over, and only for the four bound codes. */
  ghost function KeyStep(s: Session, code: string, nextId: int, table: seq<seq<Layout>>): Session
    requires Inv(s, table) && 0 <= nextId < |table|
  {
    if !s.field.gameOver && s.field.isPlaying then
      match KeyMove(code)
      case None => s
      case Some(m) => Apply(s, m, nextId, table)
    else s
  }

  /** A timer tick: one step down unless the game is over. */
  ghost function TickStep(s: Session, nextId: int, table: seq<seq<Layout>>): Session
    requires Inv(s, table) && s.piece.Some? && 0 <= nextId < |table|
  {
    if !s.field.gameOver then Descend(s, nextId, table) else s
  }

  /** Pressing play: a fresh field that is playing, with a new piece. */
  ghost function PlayStep(nextId: int, table: seq<seq<Layout>>): Session
    requires 0 <= nextId < |table|
  {
    Session(Field(WhiteBoard(), 0, false, true), Some(Spawn(nextId, table)))
  }

  /** The state before the first play. */
  function Initial(): Session {
    Session(Field(WhiteBoard(), 0, false, false), None)
  }

  // ---------------------------------------------------------------------------
  // Properties

  /** The four bound codes are distinct and each selects its own move. */
  lemma KeyCodesRoundTrip(m: Move, code: string)
    ensures KeyMove(KeyCode(m)) == Some(m)
    ensures KeyMove(code) == Some(m) <==> code == KeyCode(m)
  {
  }

  /** A horizontal move either is refused and changes nothing, or changes the column
      by exactly `dc` and nothing else, landing on a placement that fits. */
  lemma ShiftEffect(f: Field, p: Piece, dc: int)
    requires FieldOk(f) && PieceOk(p)
    ensures Shift(f, p, dc) == p || Shift(f, p, dc) == p.(colPos := p.colPos + dc)
    ensures Shift(f, p, dc) != p ==> Placed(f, Shift(f, p, dc))
    ensures dc != 0 ==> (Shift(f, p, dc) != p <==> Fits(f.grid, p.rowPos, p.colPos + dc, Current(p)))
  {
  }

  /** A rotation either is refused and changes nothing, or changes only the rotation
      index, to the next one modulo 4, landing on a placement that fits. */
  lemma TurnEffect(f: Field, p: Piece)
    requires FieldOk(f) && PieceOk(p)
    ensures PieceOk(Turn(f, p))
    ensures Turn(f, p) == p || Turn(f, p) == p.(activeIndex := (p.activeIndex + 1) % 4)
    ensures Turn(f, p) != p ==> Placed(f, Turn(f, p))
    ensures Turn(f, p) != p <==> Fits(f.grid, p.rowPos, p.colPos, p.layout[(p.activeIndex + 1) % 4])
  {
  }

  /** Against a wall: with the origin row on the field, a horizontal move that would put
      an occupied cell outside the columns is refused. Above the field it is accepted. */
  lemma WallRefusesShift(f: Field, p: Piece, dc: int, i: int, j: int)
    requires FieldOk(f) && PieceOk(p) && Occupied(Current(p), i, j)
    requires p.colPos + dc + j < 0 || p.colPos + dc + j >= COLS
    ensures p.rowPos >= 0 ==> Shift(f, p, dc) == p
    ensures p.rowPos < 0 ==> Shift(f, p, dc) == p.(colPos := p.colPos + dc)
  {
    if p.rowPos >= 0 {
      assert !Vacant(f.grid, p.rowPos + i, p.colPos + dc + j);
    }
  }

  /** Because only the origin row is tested, once a piece's origin is at row -1 it can
      be moved until one of its occupied cells lies outside the columns; the next step
      down then collides, and since the origin is still above the field the game ends. */
  lemma DriftLandsAsGameOver(s: Session, nextId: int, table: seq<seq<Layout>>, i: int, j: int)
    requires Inv(s, table) && s.piece.Some? && !s.field.gameOver && 0 <= nextId < |table|
    requires s.piece.value.rowPos == -1
    requires Occupied(Current(s.piece.value), i, j)
    requires s.piece.value.colPos + j < 0 || s.piece.value.colPos + j >= COLS
    ensures Apply(s, Down, nextId, table).field.gameOver
    ensures Apply(s, Down, nextId, table).field.grid == s.field.grid
  {
    var p := s.piece.value;
    DriftAboveField(s.field.grid, Current(p), p.colPos, i, j);
  }

  /** Clearing keeps the field sound, adds POINTS_PER_ROW for each complete row and
      leaves no complete row behind. */
  lemma ClearFieldSpec(f: Field)
    requires FieldOk(f)
    ensures FieldOk(ClearField(f))
    ensures ClearField(f).score == f.score + POINTS_PER_ROW * FullCount(f.grid)
    ensures FullCount(ClearField(f).grid) == 0
    ensures FullCount(f.grid) == 0 ==> ClearField(f) == f
    ensures ClearField(ClearField(f)) == ClearField(f)
  {
    ClearRowsIdempotent(f.grid);
    if FullCount(f.grid) == 0 {
      ClearRowsNoop(f.grid);
    }
  }

  /** Landing with the origin at row 0 or above ends the game and leaves grid and score alone. */
  lemma LandOverKeepsGrid(f: Field, p: Piece)
    requires FieldOk(f) && PieceOk(p) && p.rowPos <= 0
    ensures Land(f, p).gameOver && !Land(f, p).isPlaying
    ensures Land(f, p).grid == f.grid && Land(f, p).score == f.score
  {
  }

  /** Landing lower down writes the piece id into exactly the cells it covers, each of
      them on the field and empty before; the game goes on and the score grows by
      POINTS_PER_ROW per row the written grid completes. */
  lemma LandCommitsPiece(f: Field, p: Piece)
    requires FieldOk(f) && PieceOk(p) && Placed(f, p) && p.rowPos > 0
    ensures var s := Stamp(f.grid, Current(p), p.rowPos, p.colPos, p.id);
      ValidGrid(s) &&
      (forall i, j :: Occupied(Current(p), i, j) ==>
         Vacant(f.grid, p.rowPos + i, p.colPos + j) && s[p.rowPos + i][p.colPos + j] == p.id && p.id != WHITE) &&
      (forall R, C :: 0 <= R < ROWS && 0 <= C < COLS && !Covers(Current(p), p.rowPos, p.colPos, R, C) ==>
         s[R][C] == f.grid[R][C]) &&
      Land(f, p).grid == ClearRows(s) &&
      Land(f, p).score == f.score + POINTS_PER_ROW * FullCount(s) &&
      Land(f, p).gameOver == f.gameOver && Land(f, p).isPlaying == f.isPlaying
  {
    StampOntoVacant(f.grid, Current(p), p.rowPos, p.colPos, p.id);
  }

  /** Landing keeps the field sound. */
  lemma LandKeepsField(f: Field, p: Piece)
    requires FieldOk(f) && PieceOk(p)
    ensures FieldOk(Land(f, p))
  {
    if p.rowPos > 0 {
      var s := Stamp(f.grid, Current(p), p.rowPos, p.colPos, p.id);
      ClearFieldSpec(f.(grid := s));
    }
  }

  /** A freshly spawned piece passes the collision test on any field. */
  lemma SpawnPlaced(f: Field, id: int, table: seq<seq<Layout>>)
    requires WellFormedTable(table) && FieldOk(f) && 0 <= id < |table|
    ensures PieceOk(Spawn(id, table)) && Placed(f, Spawn(id, table))
  {
  }

  /** Every move keeps the session invariant: in particular the piece never sits on a
      placement that fails the collision test, so the writes of a landing stay on empty
      cells of the field. */
  lemma ApplyKeepsInv(s: Session, m: Move, nextId: int, table: seq<seq<Layout>>)
    requires Inv(s, table) && s.piece.Some? && !s.field.gameOver && 0 <= nextId < |table|
    ensures Inv(Apply(s, m, nextId, table), table)
  {
    var f, p := s.field, s.piece.value;
    match m
    case Left =>
    case Right =>
    case Rotate =>
    case Down =>
      if !Fits(f.grid, p.rowPos + 1, p.colPos, Current(p)) {
        LandKeepsField(f, p);
        var f' := Land(f, p);
        if !f'.gameOver {
          SpawnPlaced(f', nextId, table);
        } else {
          assert p.rowPos <= 0;
        }
      }
  }

  /** Key presses, ticks and play keep the session invariant. */
  lemma StepsKeepInv(s: Session, code: string, nextId: int, table: seq<seq<Layout>>)
    requires Inv(s, table) && 0 <= nextId < |table|
    ensures Inv(KeyStep(s, code, nextId, table), table)
    ensures s.piece.Some? ==> Inv(TickStep(s, nextId, table), table)
    ensures Inv(PlayStep(nextId, table), table)
  {
    if !s.field.gameOver && s.field.isPlaying && KeyMove(code).Some? {
      ApplyKeepsInv(s, KeyMove(code).value, nextId, table);
    }
    if s.piece.Some? && !s.field.gameOver {
      ApplyKeepsInv(s, Down, nextId, table);
    }
    WhiteBoardVacant();
    SpawnPlaced(Field(WhiteBoard(), 0, false, true), nextId, table);
  }

  /** Keys are ignored unless the game is playing and not over; once over, only play
      changes the session. */
  lemma IdleIgnoresInput(s: Session, code: string, nextId: int, table: seq<seq<Layout>>)
    requires Inv(s, table) && 0 <= nextId < |table|
    requires s.field.gameOver || !s.field.isPlaying || KeyMove(code).None?
    ensures KeyStep(s, code, nextId, table) == s
    ensures s.field.gameOver && s.piece.Some? ==> TickStep(s, nextId, table) == s
  {
  }

  /** The initial state satisfies the invariant with any well-formed table. */
  lemma InitialInv(table: seq<seq<Layout>>)
    requires WellFormedTable(table)
    ensures Inv(Initial(), table)
  {
    WhiteBoardVacant();
  }
}
