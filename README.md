# Falling-block game engine in Dafny

This project models the game-state engine of a browser falling-block puzzle, whose
logic sits in `scripts/index.js`. The engine has four parts:

- The **board** is a 20 x 10 grid of cell ids in which id 7 marks an empty cell. The board also holds the score and the `gameOver` and `isPlaying` flags.
- The **brick** is the falling piece. It has a piece id, a rotation index in [0, 4) and a column/row origin, and it spawns at column 3, row -2. Every move or rotation runs the read-only collision test on the candidate placement. It then either commits the change or does nothing. When a step down collides, the brick lands.
- **Landing** ends the game if the brick's origin row is 0 or above the field. Otherwise it writes the brick's cells into the grid, removes every row that has no empty cell, puts as many empty rows on top and adds 10 points per removed row.
- The **controller** handles the play button, the timer tick and a guarded mapping from four key codes to the four moves.

The model has two layers.

- `Geometry`, `Rows` and `Rules` describe the game on plain values. `Field` is the board, `Piece` the brick and `Session` both together. Ghost functions define every transition: `Shift`, `Turn`, `Land`, `Descend`, `Apply`, `KeyStep`, `TickStep` and `PlayStep`. Lemmas prove what the game promises about them.
- `Playfield.Board`, `Pieces.Brick` and `Controller.Game` are classes that update their fields in place, as the original objects do. Each method is proved to move the object's `Snapshot()` exactly as the value-level definition says. `Brick.CheckCollision` keeps the original nested loops with their early return, and `Brick.HandleLanded` keeps the nested loops that write cells.

Modelling choices:

- The original keeps `board` and `brick` in module-level variables. Here a `Game` object owns both, and brick methods receive the board as a parameter.
- The piece table comes from `brick_layout.js`, which is not part of this model. It is a parameter instead. It has between 1 and 7 pieces, and each piece has exactly four rectangular rotation states. Capping it at 7 pieces keeps every piece id different from the empty id 7.
- The random choice of the next piece is the parameter `nextId`, which must be a valid index into the table.
- The collision test follows the code. It exempts a candidate whose *origin* row is negative, and then checks nothing at all, not even the column bounds. It does not exempt cells one by one. `DriftLandsAsGameOver` states the consequence: once the brick has reached origin row -1, it can be moved sideways until an occupied cell lies outside the columns, and the next step down then ends the game.
- `moveDown` assigns a new brick to the module-level variable. Here `Controller.Game.MoveDown` does that, after `Brick.MoveDown` reports a landing.
- Writing cells at landing needs every covered cell to be on the field. The original gets that guarantee from the rule that each accepted placement with a non-negative origin row was checked first. Here it is the session invariant `Rules.Inv`, whose `Placed` conjunct says that the current placement passes the collision test. `ApplyKeepsInv` and `StepsKeepInv` prove that every transition keeps it. `Brick.MoveDown` and `Brick.HandleLanded` require it.
- Moves run only while the game is not over, because both the tick and the key handler check the flag first. So `Apply` and `Game.MoveDown` require `!gameOver`.

## Model

| member | source | states |
|---|---|---|
| Pieces.Brick.CheckCollision | scripts/index.js:205-220 | Returns true exactly when the candidate does not fit. If the origin row is negative, nothing collides. Otherwise every occupied layout cell must land inside ROWS x COLS on a cell holding 7. Bounds are tested before the grid is read. |
| Geometry.DriftAboveField | scripts/index.js:208 | A layout with an occupied cell (i, j) whose column c + j lies outside [0, COLS) passes the test at origin row -1 in column c. It fails at origin row 0 in the same column. |
| Geometry.StampOntoVacant | scripts/index.js:228-234 | When the placement fits and its origin row is on the field, the writes are in bounds. Every covered cell was empty and now holds the id. Every other cell is unchanged. |
| Rows.WhiteBoardVacant | scripts/index.js:54-56 | A fresh board is ROWS x COLS and every cell on it is empty. |
| Rows.Incomplete | scripts/index.js:85-87 | The filter keeps at most as many rows as it is given. Each kept row comes from the grid and contains an empty cell. |
| Rows.IncompleteMembers | scripts/index.js:85-87 | A row survives the filter if and only if it is a row of the grid that contains an empty cell. |
| Rows.IncompleteAppend | scripts/index.js:85-87 | Filtering a concatenation is the concatenation of the filtered parts, so kept rows stay in their original relative order. |
| Rows.CountPartition | scripts/index.js:85-88 | Kept rows plus complete rows are all the rows. So `ROWS - latestGrid.length` is the number of complete rows. |
| Rows.ClearRowsShape | scripts/index.js:84-98 | After clearing, the grid is still ROWS x COLS. Its first k rows are empty, where k is the number of complete rows. The incomplete rows follow in order. |
| Rows.ClearRowsNoop | scripts/index.js:88-90 | Without a complete row, clearing leaves the grid unchanged. |
| Rows.ClearRowsIdempotent | scripts/index.js:84-98 | The cleared grid has no complete row, so clearing it again changes nothing. |
| Rules.ClearFieldSpec | scripts/index.js:84-103 | Clearing keeps the field sound and adds exactly 10 points per complete row. It leaves no complete row, changes nothing when no row is complete, and is idempotent. |
| Rules.KeyCodesRoundTrip | scripts/index.js:18-23 | Each of the four bound key codes selects its own move, and no other code selects that move. |
| Rules.ShiftEffect | scripts/index.js:143-169 | A horizontal move is either refused, changing nothing, or changes only the column by -1 or +1, onto a placement that fits. It is taken exactly when the candidate fits. |
| Rules.TurnEffect | scripts/index.js:191-203 | A rotation is either refused, changing nothing, or changes only the rotation index to `(activeIndex + 1) % 4`, which stays in [0, 4), onto a placement that fits. It is taken exactly when the rotated candidate fits. |
| Rules.WallRefusesShift | scripts/index.js:205-215 | With the origin row on the field, a move that would put an occupied cell outside the columns is refused. Above the field, the same move is accepted. |
| Rules.LandOverKeepsGrid | scripts/index.js:222-226 | Landing with the origin row at 0 or above sets game over, clears the playing flag, and leaves grid and score untouched. |
| Rules.LandCommitsPiece | scripts/index.js:228-235 | Landing lower down writes the piece id into exactly the covered cells, each empty before. It then clears rows, adds 10 points per row completed, and leaves the flags unchanged. |
| Rules.DriftLandsAsGameOver | scripts/index.js:171-189 | A brick at origin row -1 with any occupied cell outside the columns lands on the next step down. The game ends and the grid is unchanged. |
| Rules.SpawnPlaced | scripts/index.js:115-121 | A new brick is a sound piece with rotation index 0, and its spawn placement fits on any field. |
| Rules.ApplyKeepsInv | scripts/index.js:143-203 | Every move keeps the session invariant: sound field, non-negative score, rotation index in [0, 4), and a current placement that fits. It holds across landings and respawns too. |
| Rules.StepsKeepInv | scripts/index.js:247-282 | Key presses, timer ticks and play all keep the session invariant. |
| Rules.IdleIgnoresInput | scripts/index.js:263-282 | Key input changes nothing unless the game is playing and not over and the code is one of the four. After game over a tick changes nothing. |
| Rules.InitialInv | scripts/index.js:244-245 | The state before the first play satisfies the session invariant. |
| Playfield.Board.constructor | scripts/index.js:37-45 | A new board is empty, scores 0, and is neither over nor playing. |
| Playfield.Board.Reset | scripts/index.js:47-52 | Reset yields an all-empty grid, score 0 and not over. The playing flag is kept. |
| Playfield.Board.HandleCompleteRows | scripts/index.js:84-98 | The new board state is the cleared field: rows cleared and 10 points per complete row. The flags are unchanged. |
| Playfield.Board.HandleScore | scripts/index.js:100-103 | The score grows by exactly the given points. Nothing else changes. |
| Playfield.Board.HandleGameover | scripts/index.js:105-111 | Sets game over and clears the playing flag. Nothing else changes. |
| Pieces.Brick.constructor | scripts/index.js:115-121 | The new brick has the given id, that piece's layouts, rotation 0, column 3 and row -2. |
| Pieces.Brick.MoveLeft | scripts/index.js:143-155 | The brick becomes `Shift(board, brick, -1)`: one column left if that fits, otherwise unchanged. |
| Pieces.Brick.MoveRight | scripts/index.js:157-169 | The brick becomes `Shift(board, brick, 1)`: one column right if that fits, otherwise unchanged. |
| Pieces.Brick.Rotate | scripts/index.js:191-203 | The brick becomes `Turn(board, brick)`: the next rotation modulo 4 if that fits, otherwise unchanged. |
| Pieces.Brick.MoveDown | scripts/index.js:171-184 | The method reports a landing exactly when the row below does not fit. If there is no landing, only the row grows by one. If there is, the brick is unchanged and the board becomes `Land(board, brick)`. |
| Pieces.Brick.HandleLanded | scripts/index.js:222-237 | The board becomes `Land(board, brick)`. From row 0 or above that means game over. Lower down, the covered cells are written in place by the nested loops, then rows are cleared. |
| Controller.Game.constructor | scripts/index.js:244-245 | A new game has an empty board, no brick, and is neither playing nor over. |
| Controller.Game.Play | scripts/index.js:247-253 | Play resets the board, sets the playing flag and spawns a brick of the given id. |
| Controller.Game.MoveDown | scripts/index.js:171-189 | The session becomes `Apply(.., Down, ..)`: one row down, or a landing. After a landing that does not end the game, a new brick of the given id replaces the old one. |
| Controller.Game.Tick | scripts/index.js:254-260 | A tick is the down move unless the game is over, in which case nothing changes. |
| Controller.Game.HandleKey | scripts/index.js:263-282 | A key press is `KeyStep`. The four arrow codes map one to one onto the four moves. Any other code, and any key after game over or before play, changes nothing. |

## Left out

- Rendering is a set of drawing side effects with no game state, so it is not modelled. This covers `drawCell`, `drawBoard`, `Brick.draw`, `Brick.clear`, the colour table with its fallback, and the "Game Over!" text.
- Audio playback and the score text on the page are output only.
- Registering the timer and the event listeners is event plumbing. One tick is `Controller.Game.Tick`. Cancelling the timer after game over is not modelled: a tick after game over changes nothing anyway.
- `generateNewBrick` draws from `Math.random`. That draw is replaced by the `nextId` parameter, so the selection bias of `floor(random * 10) % N` is not modelled.
- The contents of the piece table in `brick_layout.js` are not part of this model. The table is a parameter, so scenarios that depend on a particular piece shape are not stated.
- Clicking play while a game is running starts a second timer. The model treats each tick as one atomic `Tick` and does not track how many timers exist.
