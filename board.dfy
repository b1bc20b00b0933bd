/**
 * The playfield: a fixed grid of cells that are empty or hold the colour of a
 * locked piece, the piece currently falling, and the game-over flag. The board
 * answers collision queries, locks the falling piece into the grid and clears
 * completed rows.
 */
module Boards {
  import opened Constants
  import opened Tetrominoes

  /** A grid cell: empty, or holding the colour of the piece that was locked there. */
  datatype Cell = Empty | Filled(color: Color)

  type Row = seq<Cell>

  /** Rows listed from the top (index 0) to the bottom. */
  type Grid = seq<Row>

  /** The grid has its fixed size: GridHeight rows of GridWidth cells. */
  predicate IsGrid(g: Grid)
  {
    |g| == GridHeight && forall r :: 0 <= r < |g| ==> |g[r]| == GridWidth
  }

  function EmptyRow(): Row
  {
    seq(GridWidth, _ => Empty)
  }

  /** `n` empty rows. */
  function EmptyRows(n: nat): Grid
  {
    seq(n, _ => EmptyRow())
  }

  /** The grid of a new board: every cell empty. */
  function EmptyGrid(): (g: Grid)
    ensures IsGrid(g)
  {
    EmptyRows(GridHeight)
  }

  // ----- Collision -----

  /**
   * The absolute position (row, col) is closed to a piece cell: outside the
   * side walls, at or below the floor, or an occupied grid cell. Rows above the
   * top of the grid are open and never look at the grid.
   */
  predicate Blocked(g: Grid, row: int, col: int)
    requires IsGrid(g)
  {
    col < 0 || col >= GridWidth || row >= GridHeight || (row >= 0 && g[row][col] != Empty)
  }

  /** Some occupied cell of `shape`, with its top-left corner at (px, py), is blocked. */
  predicate Collides(g: Grid, shape: Matrix, px: int, py: int)
    requires IsGrid(g)
  {
    exists r, c :: 0 <= r < |shape| && 0 <= c < |shape[r]| && shape[r][c] && Blocked(g, py + r, px + c)
  }

  /** Every occupied cell of `shape` at (px, py) lies inside the grid. */
  predicate InBounds(shape: Matrix, px: int, py: int)
  {
    forall r, c :: 0 <= r < |shape| && 0 <= c < |shape[r]| && shape[r][c] ==>
      0 <= py + r < GridHeight && 0 <= px + c < GridWidth
  }

  /**
   * A piece that does not collide and does not reach above the top row lies
   * inside the grid and covers only empty cells, so it may be locked there.
   */
  lemma CollisionFreeIsLockable(g: Grid, shape: Matrix, px: int, py: int)
    requires IsGrid(g) && py >= 0
    requires !Collides(g, shape, px, py)
    ensures InBounds(shape, px, py)
    ensures forall r, c :: 0 <= r < |shape| && 0 <= c < |shape[r]| && shape[r][c] ==>
              g[py + r][px + c] == Empty
  {
    forall r, c | 0 <= r < |shape| && 0 <= c < |shape[r]| && shape[r][c]
      ensures 0 <= py + r < GridHeight && 0 <= px + c < GridWidth && g[py + r][px + c] == Empty
    {
      assert !Blocked(g, py + r, px + c);
    }
  }

  /** A piece held entirely above the top row, between the walls, collides with nothing. */
  lemma AboveTopNeverCollides(g: Grid, shape: Matrix, px: int, py: int)
    requires IsGrid(g)
    requires forall r, c :: 0 <= r < |shape| && 0 <= c < |shape[r]| && shape[r][c] ==>
               py + r < 0 && 0 <= px + c < GridWidth
    ensures !Collides(g, shape, px, py)
  {
  }

  /** Collision looks at the grid only under the piece's occupied cells. */
  lemma CollisionIsLocal(g: Grid, h: Grid, shape: Matrix, px: int, py: int)
    requires IsGrid(g) && IsGrid(h)
    requires forall r, c ::
               (0 <= r < |shape| && 0 <= c < |shape[r]| && shape[r][c] &&
                0 <= py + r < GridHeight && 0 <= px + c < GridWidth) ==>
               g[py + r][px + c] == h[py + r][px + c]
    ensures Collides(g, shape, px, py) == Collides(h, shape, px, py)
  {
    if Collides(g, shape, px, py) {
      var r, c :| 0 <= r < |shape| && 0 <= c < |shape[r]| && shape[r][c] && Blocked(g, py + r, px + c);
      assert Blocked(h, py + r, px + c);
    }
    if Collides(h, shape, px, py) {
      var r, c :| 0 <= r < |shape| && 0 <= c < |shape[r]| && shape[r][c] && Blocked(h, py + r, px + c);
      assert Blocked(g, py + r, px + c);
    }
  }

  /** Every template, at its spawn position on an empty grid, is free. */
  lemma SpawnFitsEmptyGrid(name: ShapeName)
    ensures !Collides(EmptyGrid(), Template(name).shape, SpawnX(Template(name).shape), 0)
  {
    var m := Template(name).shape;
    TemplateIsShape(name);
    SpawnColumn(name);
    assert |m| <= 3 && Cols(m) <= 4;
    var g := EmptyGrid();
    forall r, c | 0 <= r < |m| && 0 <= c < |m[r]| && m[r][c]
      ensures !Blocked(g, r, SpawnX(m) + c)
    {
      assert g[r] == EmptyRow();
    }
  }

  // ----- Locking -----

  /** The occupied cell of `shape` at (px, py) covers the grid position (row, col). */
  predicate Covers(shape: Matrix, px: int, py: int, row: int, col: int)
  {
    0 <= row - py < |shape| && 0 <= col - px < |shape[row - py]| && shape[row - py][col - px]
  }

  /** `g` with every cell that the piece covers painted in `color`. */
  function Stamped(g: Grid, shape: Matrix, px: int, py: int, color: Color): (s: Grid)
    ensures IsGrid(g) ==> IsGrid(s)
  {
    seq(|g|, row requires 0 <= row < |g| =>
      seq(|g[row]|, col requires 0 <= col < |g[row]| =>
        if Covers(shape, px, py, row, col) then Filled(color) else g[row][col]))
  }

  /** After locking, the same piece at the same place collides with its own cells. */
  lemma LockedPieceCollides(g: Grid, shape: Matrix, px: int, py: int, color: Color)
    requires IsGrid(g) && InBounds(shape, px, py)
    requires Cells(shape) != {}
    ensures Collides(Stamped(g, shape, px, py, color), shape, px, py)
  {
    var p :| p in Cells(shape);
    var s := Stamped(g, shape, px, py, color);
    assert Covers(shape, px, py, py + p.0, px + p.1);
    assert s[py + p.0][px + p.1] == Filled(color);
    assert Blocked(s, py + p.0, px + p.1);
  }

  /** Locking never empties a cell, and outside the piece it changes nothing. */
  lemma LockingOnlyFills(g: Grid, shape: Matrix, px: int, py: int, color: Color)
    requires IsGrid(g)
    ensures forall row, col :: 0 <= row < GridHeight && 0 <= col < GridWidth ==>
              (g[row][col] != Empty ==> Stamped(g, shape, px, py, color)[row][col] != Empty) &&
              (!Covers(shape, px, py, row, col) ==> Stamped(g, shape, px, py, color)[row][col] == g[row][col])
  {
  }

  // ----- Line clearing -----

  /** Every cell of the row is occupied. */
  predicate IsFull(row: Row)
  {
    forall c :: 0 <= c < |row| ==> row[c] != Empty
  }

  /** Number of full rows. */
  function FullCount(g: Grid): nat
  {
    if g == [] then 0 else (if IsFull(g[0]) then 1 else 0) + FullCount(g[1..])
  }

  /** The rows that are not full, in their original order. */
  function Kept(g: Grid): Grid
  {
    if g == [] then [] else (if IsFull(g[0]) then [] else [g[0]]) + Kept(g[1..])
  }

  /**
   * The grid after clearing: one empty row on top for every full row removed,
   * then the remaining rows in their original order.
   */
  function Cleared(g: Grid): Grid
  {
    EmptyRows(FullCount(g)) + Kept(g)
  }

  /** The row inserted on top is never full. */
  lemma EmptyRowNotFull()
    ensures !IsFull(EmptyRow())
  {
    assert EmptyRow()[0] == Empty;
  }

  /** Filtering keeps exactly the non-full rows: sizes add up, and no kept row is full. */
  lemma {:induction false} KeptRows(g: Grid)
    ensures |Kept(g)| + FullCount(g) == |g|
    ensures forall i :: 0 <= i < |Kept(g)| ==> Kept(g)[i] in g && !IsFull(Kept(g)[i])
  {
    if g != [] {
      KeptRows(g[1..]);
      var head := if IsFull(g[0]) then [] else [g[0]];
      assert Kept(g) == head + Kept(g[1..]);
      forall i | 0 <= i < |Kept(g)|
        ensures Kept(g)[i] in g && !IsFull(Kept(g)[i])
      {
        if i >= |head| {
          assert Kept(g)[i] == Kept(g[1..])[i - |head|];
          assert Kept(g)[i] in g[1..];
        }
      }
    }
  }

  /** Counting and filtering distribute over concatenation. */
  lemma {:induction false} KeptAppend(a: Grid, b: Grid)
    ensures Kept(a + b) == Kept(a) + Kept(b)
    ensures FullCount(a + b) == FullCount(a) + FullCount(b)
  {
    if a != [] {
      assert (a + b)[1..] == a[1..] + b;
      KeptAppend(a[1..], b);
    } else {
      assert a + b == b;
    }
  }

  /** A grid with no full row is left as it is. */
  lemma {:induction false} NothingToClear(g: Grid)
    requires forall i :: 0 <= i < |g| ==> !IsFull(g[i])
    ensures FullCount(g) == 0 && Kept(g) == g
  {
    if g != [] {
      NothingToClear(g[1..]);
      assert [g[0]] + g[1..] == g;
    }
  }

  /** Clearing keeps the grid's size: GridHeight rows of GridWidth cells. */
  lemma ClearedIsGrid(g: Grid)
    requires IsGrid(g)
    ensures IsGrid(Cleared(g))
    ensures |Cleared(g)| == |g|
  {
    KeptRows(g);
    var c := Cleared(g);
    var n := FullCount(g);
    forall r | 0 <= r < |c|
      ensures |c[r]| == GridWidth
    {
      if r >= n {
        assert c[r] == Kept(g)[r - n];
      }
    }
  }

  /** No full row is left after clearing. */
  lemma ClearedHasNoFullRow(g: Grid)
    ensures forall r :: 0 <= r < |Cleared(g)| ==> !IsFull(Cleared(g)[r])
  {
    KeptRows(g);
    EmptyRowNotFull();
    var n := FullCount(g);
    forall r | 0 <= r < |Cleared(g)|
      ensures !IsFull(Cleared(g)[r])
    {
      if r >= n {
        assert Cleared(g)[r] == Kept(g)[r - n];
      }
    }
  }

  /** Clearing twice is clearing once: the second pass finds no full row. */
  lemma ClearingIsIdempotent(g: Grid)
    ensures FullCount(Cleared(g)) == 0
    ensures Cleared(Cleared(g)) == Cleared(g)
  {
    ClearedHasNoFullRow(g);
    NothingToClear(Cleared(g));
  }

  /**
   * When only the bottom row is full, clearing removes it, every other row
   * drops by one, and an empty row appears on top.
   */
  lemma ClearBottomRow(g: Grid)
    requires IsGrid(g)
    requires IsFull(g[GridHeight - 1])
    requires forall r :: 0 <= r < GridHeight - 1 ==> !IsFull(g[r])
    ensures FullCount(g) == 1
    ensures Cleared(g) == [EmptyRow()] + g[..GridHeight - 1]
  {
    var upper := g[..GridHeight - 1];
    var bottom := [g[GridHeight - 1]];
    assert g == upper + bottom;
    KeptAppend(upper, bottom);
    NothingToClear(upper);
    assert bottom[1..] == [];
  }

  /**
   * The row the clearing scan looks at: while unscanned rows remain it is the
   * lowest of them, afterwards it is one of the inserted empty rows.
   */
  lemma ScanPosition(g0: Grid, k: nat, n: nat, y: int)
    requires k <= |g0| && 0 <= y
    requires k > 0 ==> y + 1 == n + k
    requires k == 0 ==> y < n
    ensures y < |EmptyRows(n) + g0[..k] + Kept(g0[k..])|
    ensures k > 0 ==> (EmptyRows(n) + g0[..k] + Kept(g0[k..]))[y] == g0[k - 1]
    ensures k == 0 ==> !IsFull((EmptyRows(n) + g0[..k] + Kept(g0[k..]))[y])
  {
    EmptyRowNotFull();
  }

  /** Deleting the full row at the scan position and inserting an empty row on top. */
  lemma ClearStep(g0: Grid, k: nat, n: nat)
    requires 0 < k <= |g0| && IsFull(g0[k - 1])
    ensures var g := EmptyRows(n) + g0[..k] + Kept(g0[k..]);
            [EmptyRow()] + g[..n + k - 1] + g[n + k..] == EmptyRows(n + 1) + g0[..k - 1] + Kept(g0[k - 1..])
    ensures FullCount(g0[k - 1..]) == FullCount(g0[k..]) + 1
  {
    var g := EmptyRows(n) + g0[..k] + Kept(g0[k..]);
    assert g0[k - 1..][1..] == g0[k..];
    assert g[..n + k - 1] == EmptyRows(n) + g0[..k - 1];
    assert g[n + k..] == Kept(g0[k..]);
    assert [EmptyRow()] + EmptyRows(n) == EmptyRows(n + 1);
  }

  /** Moving the scan position up past a row that is not full. */
  lemma KeepStep(g0: Grid, k: nat, n: nat)
    requires 0 < k <= |g0| && !IsFull(g0[k - 1])
    ensures EmptyRows(n) + g0[..k] + Kept(g0[k..]) == EmptyRows(n) + g0[..k - 1] + Kept(g0[k - 1..])
    ensures FullCount(g0[k - 1..]) == FullCount(g0[k..])
  {
    assert g0[k - 1..][1..] == g0[k..];
    assert g0[..k] == g0[..k - 1] + [g0[k - 1]];
  }

  /** The board: the grid of locked cells, the falling piece and the game-over flag. */
  class Board {
    var grid: Grid
    var currentPiece: Tetromino?
    var gameOver: bool

    ghost predicate Valid()
      reads this, currentPiece
    {
      IsGrid(grid) && (currentPiece != null ==> currentPiece.Valid())
    }

    /** An empty board with no piece yet. */
    constructor ()
      ensures Valid()
      ensures grid == EmptyGrid() && currentPiece == null && !gameOver
    {
      grid := EmptyGrid();
      currentPiece := null;
      gameOver := false;
    }

    /**
     * Puts a new piece of kind `name` at the spawn position. If it collides
     * at once the game is over; the flag is never cleared here.
     */
    method SpawnPiece(name: ShapeName)
      requires Valid()
      modifies this
      ensures Valid() && grid == old(grid)
      ensures fresh(currentPiece) && currentPiece != null && currentPiece.OfKind()
      ensures currentPiece.name == name && currentPiece.turns == 0
      ensures currentPiece.shape == Template(name).shape && currentPiece.color == Template(name).color
      ensures currentPiece.x == SpawnX(currentPiece.shape) && currentPiece.y == 0
      ensures gameOver == (old(gameOver) || Collides(grid, currentPiece.shape, currentPiece.x, currentPiece.y))
    {
      currentPiece := new Tetromino(name);
      var hit := CheckCollision();
      if hit {
        gameOver := true;
      }
    }

    /** Whether the falling piece collides where it stands; false when there is none. */
    method CheckCollision() returns (hit: bool)
      requires Valid()
      ensures hit == (currentPiece != null && Collides(grid, currentPiece.shape, currentPiece.x, currentPiece.y))
    {
      var piece := currentPiece;
      if piece == null {
        return false;
      }
      var shape := piece.shape;
      var i := 0;
      while i < |shape|
        invariant 0 <= i <= |shape|
        invariant forall r, c :: 0 <= r < i && 0 <= c < |shape[r]| && shape[r][c] ==>
                    !Blocked(grid, piece.y + r, piece.x + c)
      {
        var j := 0;
        while j < |shape[i]|
          invariant 0 <= j <= |shape[i]|
          invariant forall r, c :: 0 <= r < i && 0 <= c < |shape[r]| && shape[r][c] ==>
                      !Blocked(grid, piece.y + r, piece.x + c)
          invariant forall c :: 0 <= c < j && shape[i][c] ==> !Blocked(grid, piece.y + i, piece.x + c)
        {
          if shape[i][j] {
            var absX := piece.x + j;
            var absY := piece.y + i;
            if absX < 0 || absX >= GridWidth || absY >= GridHeight || (absY >= 0 && grid[absY][absX] != Empty) {
              assert Blocked(grid, piece.y + i, piece.x + j);
              return true;
            }
          }
          j := j + 1;
        }
        i := i + 1;
      }
      return false;
    }

    /**
     * Writes the piece's colour into every grid cell under an occupied cell of
     * its shape. Nothing is checked here: the caller locks only a piece that
     * lies inside the grid.
     */
    method LockPiece()
      requires Valid()
      requires currentPiece != null ==> InBounds(currentPiece.shape, currentPiece.x, currentPiece.y)
      modifies this
      ensures Valid() && currentPiece == old(currentPiece) && gameOver == old(gameOver)
      ensures currentPiece == null ==> grid == old(grid)
      ensures currentPiece != null ==>
                grid == Stamped(old(grid), currentPiece.shape, currentPiece.x, currentPiece.y, currentPiece.color)
    {
      var piece := currentPiece;
      if piece == null {
        return;
      }
      var shape := piece.shape;
      ghost var g0 := grid;
      var i := 0;
      while i < |shape|
        invariant 0 <= i <= |shape|
        invariant currentPiece == piece && gameOver == old(gameOver)
        invariant IsGrid(grid)
        invariant forall row, col :: 0 <= row < GridHeight && 0 <= col < GridWidth ==>
                    grid[row][col] == if Covers(shape, piece.x, piece.y, row, col) && row - piece.y < i
                                      then Filled(piece.color) else g0[row][col]
      {
        var j := 0;
        while j < |shape[i]|
          invariant 0 <= j <= |shape[i]|
          invariant currentPiece == piece && gameOver == old(gameOver)
          invariant IsGrid(grid)
          invariant forall row, col :: 0 <= row < GridHeight && 0 <= col < GridWidth ==>
                      grid[row][col] == if Covers(shape, piece.x, piece.y, row, col) &&
                                           (row - piece.y < i || (row - piece.y == i && col - piece.x < j))
                                        then Filled(piece.color) else g0[row][col]
        {
          if shape[i][j] {
            var row, col := piece.y + i, piece.x + j;
            grid := grid[row := grid[row][col := Filled(piece.color)]];
          }
          j := j + 1;
        }
        i := i + 1;
      }
      ghost var s := Stamped(g0, shape, piece.x, piece.y, piece.color);
      forall row | 0 <= row < GridHeight
        ensures grid[row] == s[row]
      {
        assert |grid[row]| == |s[row]|;
      }
    }

    /**
     * Scans from the bottom row up. A full row is deleted and an empty row is
     * inserted on top; the scan then looks at the same index again, which now
     * holds the row that was above. Returns the number of rows removed.
     */
    method ClearLines() returns (linesCleared: nat)
      requires Valid()
      modifies this
      ensures Valid() && currentPiece == old(currentPiece) && gameOver == old(gameOver)
      ensures grid == Cleared(old(grid))
      ensures linesCleared == FullCount(old(grid))
    {
      ghost var g0 := grid;
      var rows := grid;
      // g0[k..] are the rows already scanned; g0[..k] still sit unchanged below the inserted rows.
      ghost var k := |rows|;
      linesCleared := 0;
      var y := GridHeight - 1;
      while y >= 0
        invariant currentPiece == old(currentPiece) && gameOver == old(gameOver)
        invariant 0 <= k <= |g0|
        invariant rows == EmptyRows(linesCleared) + g0[..k] + Kept(g0[k..])
        invariant linesCleared == FullCount(g0[k..])
        invariant k > 0 ==> y + 1 == linesCleared + k
        invariant k == 0 ==> -1 <= y < linesCleared
        decreases y + k
      {
        ScanPosition(g0, k, linesCleared, y);
        if IsFull(rows[y]) {
          ClearStep(g0, k, linesCleared);
          rows := [EmptyRow()] + rows[..y] + rows[y + 1..];
          linesCleared := linesCleared + 1;
          k := k - 1;
        } else {
          if k > 0 {
            KeepStep(g0, k, linesCleared);
            k := k - 1;
          }
          y := y - 1;
        }
      }
      assert k == 0 && g0[..k] == [] && g0[k..] == g0;
      assert EmptyRows(linesCleared) + g0[..k] == EmptyRows(linesCleared);
      assert rows == Cleared(g0);
      grid := rows;
      ClearedIsGrid(g0);
    }
  }
}
