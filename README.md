# Tetris engine model

A Dafny model of the simulation core of a small falling-block game. Three parts
make up the core:

- **Pieces** (`tetromino.dfy`, module `Tetrominoes`). There are seven shape
  templates (I, O, T, L, J, S, Z), each a 0/1 matrix with a colour. A piece
  spawns centred on the top row. It turns 90 degrees clockwise with the
  reverse-then-transpose rule, and it can be translated by any offset. `Tetromino`
  is a class whose `shape`, `x` and `y` fields the methods overwrite. Shapes are
  immutable sequence values, so a turn builds a new matrix and can never alter
  the shared templates.
- **The board** (`board.dfy`, module `Boards`). The board is a 20 × 10 grid of
  cells, each empty or filled with a colour. It also holds the falling piece and
  the game-over flag. Its operations are a collision query, locking a piece into
  the grid, and a line-clearing loop. That loop deletes a full row and inserts an
  empty row on top, rescanning the same position, until no row is left to look
  at. `Board` is a class. Each operation is a method proved against pure
  specification functions: `Collides`, `Stamped` and `Cleared`.
- **The session** (`game.dfy`, module `Games`). The session holds the score, the
  level, the fall speed, the fall counter, and the running and paused flags.
  It handles one input event at a time, including pause and restart. It runs the
  per-tick step: fall one row, or lock, clear, score and spawn. `Game` is a class.
  Its `Valid()` invariant is kept by every method except `UpdateScore`, which
  runs in the middle of a settle step while the locked piece still overlaps its
  own cells; `Settle` restores the invariant by spawning the next piece. The
  invariant says the board is well formed, the falling piece has its kind's
  colour and is an orientation of its kind's template, and it never sits above
  the top row. Unless the game is over, the piece does not collide.

`constants.dfy` (module `Constants`) holds the grid size, the fall delay, the
speeds and the points table.

Three details of the input handling:

- After game over only R is intercepted; Left, Right, Down and Up still move or
  turn the piece, and only the clock step is blocked (src/game.py:81-84,
  `Games.Game.HandleGameKey`).
- P toggles the pause flag in every state, game over included
  (src/game.py:69-70).
- R while the game is not over reaches the movement handler and does nothing
  (src/game.py:81-84).

## Model

| member | source | states |
|---|---|---|
| Tetrominoes.Template | src/tetromino.py:29-37 | the table of seven kinds, each with its spawn matrix and colour; every template is one to three rows high and two to four columns wide |
| Tetrominoes.TemplateWellFormed | src/tetromino.py:29-37 | every template is a rectangular, non-empty matrix with exactly four occupied cells |
| Tetrominoes.TemplateIsShape | src/tetromino.py:29-37 | every template is rectangular with at least one row and one column |
| Tetrominoes.SpawnColumn | src/tetromino.py:47 | centring a template on a 10-wide grid puts I at column 3 and every other kind at column 4 |
| Tetrominoes.Rotated | src/tetromino.py:54 | an R×C matrix becomes a C×R matrix with `new[i][j] = old[R-1-j][i]`; for ragged input, only as many columns as the shortest row are kept, as `zip` truncates |
| Tetrominoes.RotatedTwice | src/tetromino.py:54 | two turns of a rectangle flip it upside down and mirror it |
| Tetrominoes.RotatedFourTimes | src/tetromino.py:54 | four turns of a rectangle give back exactly the original matrix |
| Tetrominoes.FourRotations | src/tetromino.py:54 | four turns of a rectangle are the identity, stated over the n-fold turn `Turned` |
| Tetrominoes.RotatedCells | src/tetromino.py:54 | the occupied cells after a turn are the images (b, R-1-a) of the occupied cells (a, b) before it |
| Tetrominoes.RotationKeepsCellCount | src/tetromino.py:54 | a turn keeps the number of occupied cells |
| Tetrominoes.TurnedTemplateWellFormed | src/tetromino.py:54 | any number of turns of a template is still a rectangle with four occupied cells |
| Tetrominoes.TurnedStep | src/tetromino.py:54 | one more turn takes orientation k of a template to orientation k+1, modulo four |
| Tetrominoes.Tetromino.constructor | src/tetromino.py:39-48 | a new piece of the chosen kind has that kind's template shape and colour, x = 10/2 - cols/2 and y = 0 |
| Tetrominoes.Tetromino.Rotate | src/tetromino.py:50-54 | the shape becomes its clockwise turn, x and y are unchanged, and the shape stays an orientation of the template |
| Tetrominoes.Tetromino.Move | src/tetromino.py:56-65 | x and y grow by dx and dy, and the shape is unchanged |
| Boards.EmptyGrid | src/board.py:19-21 | the starting grid has 20 rows of 10 empty cells |
| Boards.Board.constructor | src/board.py:15-23 | a new board has an empty grid, no piece, and is not over |
| Boards.Board.SpawnPiece | src/board.py:25-33 | a fresh piece of the given kind sits at the spawn position; the grid is unchanged; game over becomes true exactly when the piece collides there and is never reset |
| Boards.Board.CheckCollision | src/board.py:35-58 | the answer is true iff a piece exists and one of its occupied cells is beyond a side wall, at or below the floor, or on a filled cell at a row at or below the top; it changes nothing |
| Boards.AboveTopNeverCollides | src/board.py:51-56 | cells above the top row never consult the grid, so a piece held above it between the walls is free |
| Boards.CollisionIsLocal | src/board.py:46-57 | two grids that agree under the piece's occupied cells give the same collision answer |
| Boards.CollisionFreeIsLockable | src/board.py:51-56 | a collision-free piece that is not above the top row lies inside the grid and covers only empty cells |
| Boards.SpawnFitsEmptyGrid | src/board.py:31-33 | every template at its spawn position on an empty grid is free, so a new game is not over |
| Boards.Board.LockPiece | src/board.py:60-73 | the grid becomes the old grid with exactly the piece's covered cells painted in its colour; without a piece nothing changes |
| Boards.LockingOnlyFills | src/board.py:68-73 | locking never empties a cell and leaves every uncovered cell unchanged |
| Boards.LockedPieceCollides | src/board.py:68-73 | once locked, the same piece at the same place collides with its own cells |
| Boards.Board.ClearLines | src/board.py:75-91 | the grid becomes `Cleared` of the old grid, and the count returned is the number of full rows in the old grid; the loop terminates |
| Boards.KeptRows | src/board.py:84-90 | kept rows plus full rows add up to the grid's height, and every kept row is an original row that is not full |
| Boards.NothingToClear | src/board.py:84-90 | a grid without full rows has nothing to clear and keeps all its rows |
| Boards.ClearedIsGrid | src/board.py:84-90 | clearing keeps the row count and every row's width |
| Boards.ClearedHasNoFullRow | src/board.py:84-90 | no full row is left after clearing |
| Boards.ClearingIsIdempotent | src/board.py:82-91 | a second clear finds zero full rows and changes nothing |
| Boards.ClearBottomRow | src/board.py:84-90 | when only the bottom row is full, clearing removes it, shifts every other row down one and puts an empty row on top |
| Games.BasePoints | src/game.py:132-138 | a clear scores base points exactly when 1 to 4 rows go; the points are then at least 100 |
| Games.LevelUpAtThreshold | src/game.py:139-142 | one point short of `level * 1000`, any scoring clear raises the level |
| Games.ScoreNeverDrops | src/game.py:138-142 | the score never drops; only a clear of 1 to 4 rows can raise the level; any other count changes neither score nor level |
| Games.AttemptOutcome | src/game.py:86-102 | a move attempt ends at its target or where it started, never makes a free piece collide, and reaches its target exactly when the target is free (or is where the piece already was) |
| Games.LeftUndoesRight | src/game.py:86-93 | a move right followed by a move left, or the reverse, puts the piece back |
| Games.TurnBack | src/game.py:101-102 | three more quarter turns bring the piece back to the orientation it had before the last turn, at the same position |
| Games.Game.constructor | src/game.py:17-31 | a new session is in its initial state |
| Games.Game.InitGame | src/game.py:33-49 | score 0, level 1, running, not paused, counter 0, initial fall speed, a fresh empty board with a freshly spawned piece of the given kind in its template shape and colour at the spawn position, and the invariant holds |
| Games.Game.PieceKeepsItsKind | src/game.py:98-102 | in every valid state the falling piece is one of the four orientations of its kind's template, has four occupied cells and has its kind's colour |
| Games.Game.RestartGame | src/game.py:51-55 | a restart produces the same state as a new game |
| Games.Game.HandleEvent | src/game.py:57-72 | quit and Escape clear the running flag; P flips the pause flag in every state; any other key reaches the gameplay handler only while not paused; the invariant is kept |
| Games.Game.HandleGameKey | src/game.py:74-84 | after game over R restarts with the given next kind; every other key steers the piece, game over or not |
| Games.Game.Steer | src/game.py:86-102 | the piece ends at the target of the key if that target is free and otherwise where it was; grid, flags and score are unchanged |
| Games.Game.TryMove | src/game.py:86-97 | a move by (dx, dy) is kept when the new position is free and undone by the opposite move otherwise |
| Games.Game.TryRotate | src/game.py:98-102 | a turn is kept when the turned shape is free; otherwise three more turns restore the original shape |
| Games.Game.UpdateScore | src/game.py:125-142 | the score grows by the points times the level before any level-up; the level rises by one and the speed is multiplied by 0.9 exactly when the new score reaches `level * 1000`; other counts change nothing |
| Games.Game.Update | src/game.py:104-123 | paused or over: nothing changes; below the delay: only the counter grows by the speed; at the delay: the counter resets and a drop step happens |
| Games.Game.Fall | src/game.py:117-123 | the piece moves down one row if that row is free; otherwise it settles at its old row |
| Games.Game.Settle | src/game.py:119-123 | the grid becomes the locked grid with its full rows cleared; the clear is scored at the old level; a fresh piece of the next kind spawns in its template shape and colour, and game over is set exactly when it collides |

## Left out

- Rendering (`draw` and its helpers) is not part of this model. The same goes for the window, the frame clock, the run loop and `main.py`.
- `handle_input` loops over every pending window event. The model handles one event per `HandleEvent` call; the caller supplies the events in order.
- `random.choice` of the next piece kind is replaced by a parameter (`first`/`next`: a `ShapeName`).
- Colours are the seven constructors of `Color`. Their RGB values play no part in the logic.
- `move_counter` and `fall_speed` are exact reals. Rounding of the repeated multiplication by 0.9 in floating point is not modelled.
- Boards.Board.LockPiece: requires the piece's cells to be inside the grid. Outside it the source misbehaves: a negative row index wraps to a row counted from the bottom, a negative column index wraps within its row, and a row of 20 or more or a column of 10 or more raises `IndexError` (src/board.py:68-73). `Game.Valid()` keeps the falling piece collision-free and at row 0 or below, so locking from the session always meets this requirement.
- After a turn, the source's shape is a list of tuples rather than a list of lists. The model keeps one matrix type, since only the cell values are ever read.
- The test that one to three turns always change the shape is not modelled. It is false for O at every turn, and for I, S and Z after two turns.
- The rotate-back loop is specified through a ghost orientation counter on the piece (`turns`). The counter ties the shape to its template, and `Tetrominoes.FourRotations` proves that four turns are the identity.
