/**
 * The game session: score, level and fall speed, the pause and running flags,
 * and the board. Input events and clock ticks arrive one at a time; the
 * session moves, rotates, drops and locks the falling piece through the board
 * and keeps the score.
 */
module Games {
  import opened Constants
  import opened Tetrominoes
  import opened Boards

  /** The keys the game reacts to; every other key is `OtherKey`. */
  datatype Key = Escape | P | Left | Right | Down | Up | R | OtherKey

  /** One input event: the window's close request, a key press, or anything else. */
  datatype Event = Quit | KeyDown(key: Key) | OtherEvent

  // ----- Scoring -----

  /** Base points for clearing `lines` rows at once; zero for any other count. */
  function BasePoints(lines: int): (p: nat)
    ensures p > 0 <==> 1 <= lines <= 4
    ensures p >= 100 || p == 0
  {
    if lines == 1 then PointsSingle
    else if lines == 2 then PointsDouble
    else if lines == 3 then PointsTriple
    else if lines == 4 then PointsTetris
    else 0
  }

  /** The score after a clear of `lines` rows at `level`. */
  function ScoreAfter(score: int, level: int, lines: int): int
  {
    score + BasePoints(lines) * level
  }

  /**
   * A clear of `lines` rows raises the level: it scored, and the new score
   * reached `level * 1000`. At most one level is gained per clear.
   */
  predicate LevelsUp(score: int, level: int, lines: int)
  {
    1 <= lines <= 4 && ScoreAfter(score, level, lines) >= level * 1000
  }

  /** One point short of the threshold, any scoring clear raises the level. */
  lemma LevelUpAtThreshold(level: int, lines: int)
    requires level >= 1 && 1 <= lines <= 4
    ensures LevelsUp(level * 1000 - 1, level, lines)
  {
    assert BasePoints(lines) * level >= level;
  }

  /**
   * A clear never lowers the score, and only a clear of one to four rows
   * scores or raises the level; any other count changes neither.
   */
  lemma ScoreNeverDrops(score: int, level: int, lines: int)
    requires level >= 1 && score >= 0
    ensures ScoreAfter(score, level, lines) >= score
    ensures LevelsUp(score, level, lines) ==> 1 <= lines <= 4
    ensures !(1 <= lines <= 4) ==> ScoreAfter(score, level, lines) == score && !LevelsUp(score, level, lines)
  {
  }

  // ----- Moving and rotating -----

  /** Where the falling piece is: its current shape and the position of its top-left corner. */
  datatype Placement = Placement(shape: Matrix, x: int, y: int)

  /** Where a key asks the piece to go: one column left or right, one row down, or one turn. */
  function Target(key: Key, p: Placement): Placement
  {
    match key
    case Left => p.(x := p.x - 1)
    case Right => p.(x := p.x + 1)
    case Down => p.(y := p.y + 1)
    case Up => p.(shape := Rotated(p.shape))
    case _ => p
  }

  /** The piece goes to `to` if it fits there, and otherwise stays at `from`. */
  function Attempt(g: Grid, from: Placement, to: Placement): Placement
    requires IsGrid(g)
  {
    if Collides(g, to.shape, to.x, to.y) then from else to
  }

  /**
   * An attempted move ends at its target or where it started, it never makes a
   * collision-free piece collide, and it reaches its target exactly when the
   * target is free (or is where the piece already was).
   */
  lemma AttemptOutcome(g: Grid, from: Placement, to: Placement)
    requires IsGrid(g)
    ensures Attempt(g, from, to) == to || Attempt(g, from, to) == from
    ensures !Collides(g, from.shape, from.x, from.y) ==> !Collides(g, Attempt(g, from, to).shape, Attempt(g, from, to).x, Attempt(g, from, to).y)
    ensures Attempt(g, from, to) == to <==> (to == from || !Collides(g, to.shape, to.x, to.y))
  {
  }

  /** A sideways move followed by the opposite move puts the piece back where it was. */
  lemma LeftUndoesRight(p: Placement)
    ensures Target(Left, Target(Right, p)) == p
    ensures Target(Right, Target(Left, p)) == p
  {
  }

  /**
   * Three further quarter turns, which undo the quarter turn that took the
   * piece from orientation `t0` to its current one.
   */
  method TurnBack(piece: Tetromino, ghost t0: nat)
    requires piece.Valid() && t0 < 4 && piece.turns == (if t0 == 3 then 0 else t0 + 1)
    modifies piece
    ensures piece.Valid() && piece.turns == t0
    ensures piece.x == old(piece.x) && piece.y == old(piece.y)
  {
    for i := 0 to 3
      invariant piece.Valid() && piece.x == old(piece.x) && piece.y == old(piece.y)
      invariant piece.turns == if t0 + 1 + i < 4 then t0 + 1 + i else t0 + 1 + i - 4
    {
      piece.Rotate();
    }
  }

  /**
   * The part of the session a drop step depends on: the grid, where the
   * falling piece is and its colour, the score, the level, the fall speed and
   * the game-over flag.
   */
  datatype Snapshot = Snapshot(grid: Grid, at: Placement, color: Color, score: int, level: int, speed: real, over: bool)

  /** The piece of snapshot `s` can drop a row: the row below it is free. */
  predicate Falls(s: Snapshot)
  {
    IsGrid(s.grid) && !Collides(s.grid, s.at.shape, s.at.x, s.at.y + 1)
  }

  /** The session state. */
  class Game {
    var board: Board
    var score: int
    var level: int
    var running: bool
    var paused: bool
    var moveCounter: real
    var fallSpeed: real

    /**
     * The board is well formed and has a falling piece of its kind that has
     * not climbed above the top row; unless the game is over that piece is
     * collision-free.
     */
    ghost predicate Valid()
      reads this, board, board.currentPiece
    {
      && board.Valid()
      && board.currentPiece != null && board.currentPiece.OfKind()
      && board.currentPiece.y >= 0
      && (!board.gameOver ==> !Collides(board.grid, board.currentPiece.shape, board.currentPiece.x, board.currentPiece.y))
      && score >= 0 && level >= 1 && fallSpeed > 0.0 && moveCounter >= 0.0
    }

    /**
     * The falling piece is always one of the four orientations of its kind's
     * template, so it has four occupied cells, and it has its kind's colour.
     */
    lemma PieceKeepsItsKind()
      requires Valid()
      ensures exists n :: 0 <= n < 4 && board.currentPiece.shape == Turned(Template(board.currentPiece.name).shape, n)
      ensures |Cells(board.currentPiece.shape)| == 4
      ensures board.currentPiece.color == Template(board.currentPiece.name).color
    {
      var piece := board.currentPiece;
      TurnedTemplateWellFormed(piece.name, piece.turns);
    }

    /** The falling piece's current shape and position. */
    ghost function Where(): Placement
      reads this, board, board.currentPiece
      requires board.currentPiece != null
    {
      Placement(board.currentPiece.shape, board.currentPiece.x, board.currentPiece.y)
    }

    /** A new game whose first piece has kind `first`. */
    ghost predicate Initial(first: ShapeName)
      reads this, board, board.currentPiece
    {
      && score == 0 && level == 1 && running && !paused
      && moveCounter == 0.0 && fallSpeed == InitialFallSpeed
      && board.grid == EmptyGrid() && !board.gameOver
      && board.currentPiece != null
      && board.currentPiece.name == first && board.currentPiece.turns == 0
      && board.currentPiece.shape == Template(first).shape && board.currentPiece.color == Template(first).color
      && board.currentPiece.x == SpawnX(Template(first).shape) && board.currentPiece.y == 0
    }

    /** The board, its piece, the score, the level and the speed are as they were. */
    twostate predicate Untouched()
      reads this, board, board.currentPiece
    {
      && board == old(board) && board.currentPiece == old(board.currentPiece)
      && unchanged(board) && (board.currentPiece != null ==> unchanged(board.currentPiece))
      && score == old(score) && level == old(level) && fallSpeed == old(fallSpeed)
    }

    /**
     * The effect of a steering key: the piece moves or turns where the key asks
     * if it fits there and stays put if not, and nothing else changes.
     */
    twostate predicate Steered(key: Key)
      reads this, board, board.currentPiece
    {
      && board == old(board) && board.currentPiece == old(board.currentPiece)
      && board.grid == old(board.grid) && board.gameOver == old(board.gameOver)
      && score == old(score) && level == old(level)
      && moveCounter == old(moveCounter) && fallSpeed == old(fallSpeed)
      && running == old(running) && paused == old(paused)
      && old(IsGrid(board.grid)) && old(board.currentPiece) != null && board.currentPiece != null
      && Where() == Attempt(old(board.grid), old(Where()), Target(key, old(Where())))
    }

    /** The effect of a gameplay key: after game over R restarts, and any other key steers. */
    twostate predicate KeyHandled(key: Key, next: ShapeName)
      reads this, board, board.currentPiece
    {
      if old(board.gameOver) && key == R then
        fresh(board) && fresh(board.currentPiece) && Initial(next)
      else
        Steered(key)
    }

    /** A fresh game: empty board, first piece spawned, score 0, level 1. */
    constructor (first: ShapeName)
      ensures Valid() && Initial(first)
      ensures fresh(board) && fresh(board.currentPiece)
    {
      // Every field needs a value before the object exists; InitGame then sets them all.
      board := new Board();
      score, level, running, paused := 0, 1, true, false;
      moveCounter, fallSpeed := 0.0, InitialFallSpeed;
      new;
      InitGame(first);
    }

    /** Resets every field: a new empty board with a freshly spawned piece. */
    method InitGame(first: ShapeName)
      modifies this
      ensures Valid() && Initial(first)
      ensures fresh(board) && fresh(board.currentPiece)
    {
      board := new Board();
      score := 0;
      level := 1;
      running := true;
      paused := false;
      moveCounter := 0.0;
      fallSpeed := InitialFallSpeed;
      board.SpawnPiece(first);
      SpawnFitsEmptyGrid(first);
    }

    /** Starts over exactly as a new game does. */
    method RestartGame(first: ShapeName)
      modifies this
      ensures Valid() && Initial(first)
      ensures fresh(board) && fresh(board.currentPiece)
    {
      InitGame(first);
    }

    /**
     * One input event. Quit and Escape stop the game, P toggles the pause in
     * every state, and any other key reaches the gameplay handler only while
     * the game is not paused. `next` is the kind of piece a restart spawns.
     */
    method HandleEvent(e: Event, next: ShapeName)
      requires Valid()
      modifies this, board, board.currentPiece
      ensures Valid()
      ensures e == Quit || e == KeyDown(Escape) ==>
                Untouched() && moveCounter == old(moveCounter) && !running && paused == old(paused)
      ensures e == KeyDown(P) ==>
                Untouched() && moveCounter == old(moveCounter) && running == old(running) && paused == !old(paused)
      ensures e == OtherEvent || (e.KeyDown? && e.key !in {Escape, P} && old(paused)) ==>
                Untouched() && moveCounter == old(moveCounter) && running == old(running) && paused == old(paused)
      ensures e.KeyDown? && e.key !in {Escape, P} && !old(paused) ==> KeyHandled(e.key, next)
    {
      match e
      case Quit =>
        running := false;
      case KeyDown(key) =>
        if key == Escape {
          running := false;
        } else if key == P {
          paused := !paused;
        } else if !paused {
          HandleGameKey(key, next);
        }
      case OtherEvent =>
    }

    /**
     * A gameplay key. After game over R restarts the game; every other key,
     * game over or not, is applied to the piece: a move is undone by the
     * opposite move and a rotation by three more rotations when the result
     * collides.
     */
    method HandleGameKey(key: Key, next: ShapeName)
      requires Valid()
      modifies this, board, board.currentPiece
      ensures Valid()
      ensures KeyHandled(key, next)
    {
      if board.gameOver {
        if key == R {
          RestartGame(next);
          return;
        }
      }
      Steer(key);
    }

    /**
     * A key applied to the piece, game over or not: a move is undone by the
     * opposite move and a rotation by three more rotations when the result
     * collides; any other key does nothing.
     */
    method Steer(key: Key)
      requires Valid()
      modifies board.currentPiece
      ensures Valid() && Steered(key)
    {
      if key == Left {
        TryMove(key, -1, 0);
      } else if key == Right {
        TryMove(key, 1, 0);
      } else if key == Down {
        TryMove(key, 0, 1);
      } else if key == Up {
        TryRotate();
      } else {
        assert Target(key, Where()) == Where();
      }
    }

    /**
     * Moves the piece by (`dx`, `dy`), the offset `key` asks for, and moves it
     * back by the opposite offset when it then collides.
     */
    method TryMove(key: Key, dx: int, dy: int)
      requires Valid() && dy >= 0
      requires Target(key, Where()) == Where().(x := Where().x + dx, y := Where().y + dy)
      modifies board.currentPiece
      ensures Valid() && Steered(key)
    {
      var piece := board.currentPiece;
      ghost var from := Where();
      ghost var to := Target(key, from);
      piece.Move(dx, dy);
      assert Where() == to;
      var hit := board.CheckCollision();
      assert hit == Collides(board.grid, to.shape, to.x, to.y);
      if hit {
        piece.Move(-dx, -dy);
        assert Where() == from == Attempt(board.grid, from, to);
      } else {
        assert Where() == to == Attempt(board.grid, from, to);
      }
    }

    /**
     * Turns the piece a quarter clockwise and, when it then collides, turns it
     * three more times, which brings it back to the shape it had.
     */
    method TryRotate()
      requires Valid()
      modifies board.currentPiece
      ensures Valid() && Steered(Up)
    {
      var piece := board.currentPiece;
      ghost var t0 := piece.turns;
      piece.Rotate();
      var hit := board.CheckCollision();
      if hit {
        TurnBack(piece, t0);
      }
    }

    /**
     * Adds the points for a clear of `linesCleared` rows, scaled by the level
     * before any level-up, and raises the level (and the fall speed) by one
     * step when the new score reaches `level * 1000`.
     */
    method UpdateScore(linesCleared: int)
      modifies this
      ensures score == ScoreAfter(old(score), old(level), linesCleared)
      ensures level == if LevelsUp(old(score), old(level), linesCleared) then old(level) + 1 else old(level)
      ensures fallSpeed == if LevelsUp(old(score), old(level), linesCleared) then old(fallSpeed) * LevelSpeedup
                           else old(fallSpeed)
      ensures board == old(board) && running == old(running) && paused == old(paused)
      ensures moveCounter == old(moveCounter)
    {
      if 1 <= linesCleared <= 4 {
        score := score + BasePoints(linesCleared) * level;
        if score >= level * 1000 {
          level := level + 1;
          fallSpeed := fallSpeed * LevelSpeedup;
        }
      }
    }

    /**
     * One tick of the clock. While paused or after game over nothing happens.
     * Otherwise the fall counter grows by the fall speed; once it reaches the
     * delay it is reset and the piece drops a row, or, if it cannot, it is
     * locked where it is, full rows are cleared and scored, and the piece of
     * kind `next` is spawned.
     */
    method Update(next: ShapeName)
      requires Valid()
      modifies this, board, board.currentPiece
      ensures Valid() && running == old(running) && paused == old(paused)
      ensures old(paused) || old(board.gameOver) ==> Untouched() && moveCounter == old(moveCounter)
      ensures !old(paused) && !old(board.gameOver) && old(moveCounter) + old(fallSpeed) < MoveDelay ==>
                Untouched() && moveCounter == old(moveCounter) + old(fallSpeed)
      ensures !old(paused) && !old(board.gameOver) && old(moveCounter) + old(fallSpeed) >= MoveDelay ==>
                && moveCounter == 0.0 && board == old(board) && Dropped(old(Snap()), next)
                && (if Falls(old(Snap())) then board.currentPiece == old(board.currentPiece)
                    else fresh(board.currentPiece))
    {
      if paused || board.gameOver {
        return;
      }
      if board.currentPiece != null {
        ghost var snap := Snap();
        moveCounter := moveCounter + fallSpeed;
        if moveCounter >= MoveDelay {
          moveCounter := 0.0;
          assert Snap() == snap;
          Fall(next);
        }
      }
    }

    /**
     * The piece drops a row and is moved back up if it then collides, in
     * which case it settles where it was.
     */
    method Fall(next: ShapeName)
      requires Valid() && !board.gameOver
      modifies this, board, board.currentPiece
      ensures Valid() && moveCounter == old(moveCounter)
      ensures board == old(board) && running == old(running) && paused == old(paused)
      ensures Dropped(old(Snap()), next)
      ensures if Falls(old(Snap())) then board.currentPiece == old(board.currentPiece) else fresh(board.currentPiece)
    {
      var piece := board.currentPiece;
      ghost var snap := Snap();
      piece.Move(0, 1);
      var hit := board.CheckCollision();
      if hit {
        piece.Move(0, -1);
        assert Snap() == snap;
        Settle(next);
      } else {
        assert Where() == snap.at.(y := snap.at.y + 1);
      }
    }

    /**
     * The end of a piece's fall: it is locked where it is, full rows are
     * cleared and scored, and a piece of kind `next` is spawned, which ends
     * the game if it does not fit.
     */
    method Settle(next: ShapeName)
      requires Valid() && !board.gameOver
      modifies this, board
      ensures Valid() && moveCounter == old(moveCounter)
      ensures board == old(board) && running == old(running) && paused == old(paused)
      ensures fresh(board.currentPiece) && Settled(old(Snap()), next)
    {
      var piece := board.currentPiece;
      CollisionFreeIsLockable(board.grid, piece.shape, piece.x, piece.y);
      board.LockPiece();
      ghost var locked := board.grid;
      var lines := board.ClearLines();
      assert board.grid == Cleared(locked) && lines == FullCount(locked);
      ScoreNeverDrops(score, level, lines);
      UpdateScore(lines);
      assert score >= 0;
      assert level >= 1;
      assert fallSpeed > 0.0;
      board.SpawnPiece(next);
    }

    /** What a drop step depends on: the grid, the falling piece, the score, level, speed and game-over flag. */
    ghost function Snap(): Snapshot
      reads this, board, board.currentPiece
      requires board.currentPiece != null
    {
      Snapshot(board.grid, Where(), board.currentPiece.color, score, level, fallSpeed, board.gameOver)
    }

    /**
     * The state after the piece of snapshot `s` settled: the grid with the
     * piece locked in has its full rows cleared, the clear is scored at the
     * old level, and a piece of kind `next` sits at the spawn position, the
     * game being over exactly when it collides there.
     */
    ghost predicate Settled(s: Snapshot, next: ShapeName)
      reads this, board, board.currentPiece
    {
      && IsGrid(s.grid) && board.currentPiece != null
      && var locked := Stamped(s.grid, s.at.shape, s.at.x, s.at.y, s.color);
      var lines := FullCount(locked);
      && board.grid == Cleared(locked) && IsGrid(board.grid)
      && score == ScoreAfter(s.score, s.level, lines)
      && level == (if LevelsUp(s.score, s.level, lines) then s.level + 1 else s.level)
      && fallSpeed == (if LevelsUp(s.score, s.level, lines) then s.speed * LevelSpeedup else s.speed)
      && board.currentPiece.name == next
      && board.currentPiece.shape == Template(next).shape && board.currentPiece.color == Template(next).color
      && board.currentPiece.x == SpawnX(Template(next).shape) && board.currentPiece.y == 0
      && board.gameOver == Collides(board.grid, board.currentPiece.shape, board.currentPiece.x, 0)
    }

    /**
     * What a drop step does from snapshot `s`: the piece falls one row if that
     * row is free, with nothing else changing, and otherwise it settles where
     * it is.
     */
    ghost predicate Dropped(s: Snapshot, next: ShapeName)
      reads this, board, board.currentPiece
    {
      && IsGrid(s.grid) && board.currentPiece != null
      && if Falls(s) then
           && Where() == s.at.(y := s.at.y + 1)
           && board.grid == s.grid && board.gameOver == s.over
           && score == s.score && level == s.level && fallSpeed == s.speed
         else
           Settled(s, next)
    }
  }
}
