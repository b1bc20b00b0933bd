/**
 * Falling pieces: the seven shape templates, the generic clockwise rotation
 * of a shape matrix, and the piece object whose shape and position the game
 * overwrites as the player rotates and moves it.
 */
module Tetrominoes {
  import opened Constants

  /** The colour a piece paints into the grid; the renderer maps each one to RGB. */
  datatype Color = Cyan | Yellow | Purple | Orange | Blue | Green | Red

  /** The seven piece kinds, in the order the template table lists them. */
  datatype ShapeName = I | O | T | L | J | S | Z

  /** A shape matrix: rows of cells, `true` where the piece occupies a cell. */
  type Matrix = seq<seq<bool>>

  /** An immutable template: the spawn orientation of a piece and its colour. */
  datatype TetrominoData = TetrominoData(shape: Matrix, color: Color)

  /**
   * The template table shared by every piece of a kind. Every template is
   * one to three rows high and two to four columns wide.
   */
  function Template(name: ShapeName): (d: TetrominoData)
    ensures 1 <= |d.shape| <= 3 && 2 <= Cols(d.shape) <= 4
  {
    match name
    case I => TetrominoData([[true, true, true, true]], Cyan)
    case O => TetrominoData([[true, true], [true, true]], Yellow)
    case T => TetrominoData([[false, true, false], [true, true, true]], Purple)
    case L => TetrominoData([[true, false], [true, false], [true, true]], Orange)
    case J => TetrominoData([[false, true], [false, true], [true, true]], Blue)
    case S => TetrominoData([[false, true, true], [true, true, false]], Green)
    case Z => TetrominoData([[true, true, false], [false, true, true]], Red)
  }

  /** Number of columns of a matrix, read off its first row. */
  function Cols(m: Matrix): nat
  {
    if |m| == 0 then 0 else |m[0]|
  }

  /** Every row has the same length. */
  predicate IsRect(m: Matrix)
  {
    forall r :: 0 <= r < |m| ==> |m[r]| == Cols(m)
  }

  /** A proper piece shape: a rectangle with at least one row and one column. */
  predicate IsShape(m: Matrix)
  {
    IsRect(m) && |m| > 0 && Cols(m) > 0
  }

  /** Length of the shortest row (zero for a matrix without rows). */
  function MinWidth(m: Matrix): (w: nat)
    ensures forall r :: 0 <= r < |m| ==> w <= |m[r]|
    ensures |m| > 0 ==> exists r :: 0 <= r < |m| && w == |m[r]|
    ensures |m| == 0 ==> w == 0
  {
    if |m| == 0 then 0
    else if |m| == 1 then |m[0]|
    else
      var rest := MinWidth(m[1..]);
      if |m[0]| <= rest then |m[0]| else rest
  }

  /**
   * The 90-degree clockwise rotation of a matrix (reverse the rows, then
   * transpose). Like zipping the reversed rows, it keeps only as many columns
   * as the shortest row has.
   */
  function Rotated(m: Matrix): (r: Matrix)
    ensures |r| == MinWidth(m)
    ensures forall i :: 0 <= i < |r| ==> |r[i]| == |m|
    ensures forall i, j :: 0 <= i < |r| && 0 <= j < |m| ==> r[i][j] == m[|m| - 1 - j][i]
    ensures IsRect(m) ==> IsRect(r) && |r| == Cols(m) && (|r| > 0 ==> Cols(r) == |m|)
  {
    seq(MinWidth(m), i requires 0 <= i < MinWidth(m) =>
      seq(|m|, j requires 0 <= j < |m| => m[|m| - 1 - j][i]))
  }

  /** `m` rotated `n` times. */
  function Turned(m: Matrix, n: nat): Matrix
  {
    if n == 0 then m else Rotated(Turned(m, n - 1))
  }

  /** The occupied cells of a matrix, as (row, column) pairs. */
  function Cells(m: Matrix): set<(int, int)>
  {
    set r, c | 0 <= r < |m| && 0 <= c < |m[r]| && m[r][c] :: (r, c)
  }

  /** Where clockwise rotation sends the cells of a matrix with `rows` rows. */
  function TurnImage(s: set<(int, int)>, rows: int): set<(int, int)>
  {
    set p | p in s :: (p.1, rows - 1 - p.0)
  }

  /** Spawn column: the template is centred horizontally, rounding down. */
  function SpawnX(m: Matrix): int
  {
    GridWidth / 2 - Cols(m) / 2
  }

  /** Rotating a rectangle twice turns it upside down and mirrors it. */
  lemma RotatedTwice(m: Matrix)
    requires IsRect(m) && (|m| == 0 || Cols(m) > 0)
    ensures IsRect(Rotated(Rotated(m)))
    ensures |Rotated(Rotated(m))| == |m| && Cols(Rotated(Rotated(m))) == Cols(m)
    ensures forall i, j :: 0 <= i < |m| && 0 <= j < Cols(m) ==>
              Rotated(Rotated(m))[i][j] == m[|m| - 1 - i][Cols(m) - 1 - j]
  {
    var r1 := Rotated(m);
    if |m| > 0 {
      assert Cols(r1) == |m|;
    }
  }

  /** Four clockwise rotations of a rectangle give back exactly the original matrix. */
  lemma RotatedFourTimes(m: Matrix)
    requires IsRect(m) && (|m| == 0 || Cols(m) > 0)
    ensures Rotated(Rotated(Rotated(Rotated(m)))) == m
  {
    var m2 := Rotated(Rotated(m));
    RotatedTwice(m);
    RotatedTwice(m2);
    var m4 := Rotated(Rotated(m2));
    forall i | 0 <= i < |m|
      ensures m4[i] == m[i]
    {
      forall j | 0 <= j < |m[i]|
        ensures m4[i][j] == m[i][j]
      {
        assert m4[i][j] == m2[|m| - 1 - i][Cols(m) - 1 - j];
      }
    }
  }

  /** Turning a proper shape four times is the identity. */
  lemma FourRotations(m: Matrix)
    requires IsRect(m) && (|m| == 0 || Cols(m) > 0)
    ensures Turned(m, 4) == m
  {
    RotatedFourTimes(m);
    assert Turned(m, 1) == Rotated(m);
    assert Turned(m, 2) == Rotated(Rotated(m));
    assert Turned(m, 3) == Rotated(Rotated(Rotated(m)));
  }

  /** Rotation sends the occupied cell (a, b) of an R-row rectangle to (b, R-1-a). */
  lemma RotatedCells(m: Matrix)
    requires IsRect(m)
    ensures Cells(Rotated(m)) == TurnImage(Cells(m), |m|)
  {
    var R := |m|;
    var r := Rotated(m);
    forall p | p in Cells(r)
      ensures p in TurnImage(Cells(m), R)
    {
      var q := (R - 1 - p.1, p.0);
      assert q in Cells(m);
    }
    forall p | p in TurnImage(Cells(m), R)
      ensures p in Cells(r)
    {
      var q :| q in Cells(m) && p == (q.1, R - 1 - q.0);
      assert r[q.1][R - 1 - q.0] == m[q.0][q.1];
    }
  }

  /** The rotation map on cells is injective, so it keeps the number of cells. */
  lemma {:induction false} TurnImageSize(s: set<(int, int)>, rows: int)
    ensures |TurnImage(s, rows)| == |s|
    decreases |s|
  {
    if s != {} {
      var p :| p in s;
      var rest := s - {p};
      TurnImageSize(rest, rows);
      var q := (p.1, rows - 1 - p.0);
      assert TurnImage(s, rows) == TurnImage(rest, rows) + {q};
      assert q !in TurnImage(rest, rows);
    }
  }

  /** Rotation never adds or removes an occupied cell. */
  lemma RotationKeepsCellCount(m: Matrix)
    requires IsRect(m)
    ensures |Cells(Rotated(m))| == |Cells(m)|
  {
    RotatedCells(m);
    TurnImageSize(Cells(m), |m|);
  }

  /**
   * Every template is a proper rectangle. This is the first half of
   * `TemplateWellFormed`, kept separate as a cheap fact for the constructor,
   * which does not need the cell count.
   */
  lemma TemplateIsShape(name: ShapeName)
    ensures IsShape(Template(name).shape)
  {
  }

  /** A set that lists exactly the occupied cells of a matrix is its cell set. */
  lemma CellsAre(m: Matrix, cells: set<(int, int)>)
    requires forall p :: p in cells ==> 0 <= p.0 < |m| && 0 <= p.1 < |m[p.0]| && m[p.0][p.1]
    requires forall r, c :: 0 <= r < |m| && 0 <= c < |m[r]| && m[r][c] ==> (r, c) in cells
    ensures Cells(m) == cells
  {
  }

  /** Every template is a proper rectangle with exactly four occupied cells. */
  lemma TemplateWellFormed(name: ShapeName)
    ensures IsShape(Template(name).shape)
    ensures |Cells(Template(name).shape)| == 4
  {
    match name
    case I => CellsI();
    case O => CellsO();
    case T => CellsT();
    case L => CellsL();
    case J => CellsJ();
    case S => CellsS();
    case Z => CellsZ();
  }

  /** The occupied cells of the I template. */
  lemma CellsI()
    ensures Cells(Template(I).shape) == {(0, 0), (0, 1), (0, 2), (0, 3)}
    ensures IsShape(Template(I).shape) && |Cells(Template(I).shape)| == 4
  {
    CellsAre(Template(I).shape, {(0, 0), (0, 1), (0, 2), (0, 3)});
  }

  /** The occupied cells of the O template. */
  lemma CellsO()
    ensures Cells(Template(O).shape) == {(0, 0), (0, 1), (1, 0), (1, 1)}
    ensures IsShape(Template(O).shape) && |Cells(Template(O).shape)| == 4
  {
    CellsAre(Template(O).shape, {(0, 0), (0, 1), (1, 0), (1, 1)});
  }

  /** The occupied cells of the T template. */
  lemma CellsT()
    ensures Cells(Template(T).shape) == {(0, 1), (1, 0), (1, 1), (1, 2)}
    ensures IsShape(Template(T).shape) && |Cells(Template(T).shape)| == 4
  {
    CellsAre(Template(T).shape, {(0, 1), (1, 0), (1, 1), (1, 2)});
  }

  /** The occupied cells of the L template. */
  lemma CellsL()
    ensures Cells(Template(L).shape) == {(0, 0), (1, 0), (2, 0), (2, 1)}
    ensures IsShape(Template(L).shape) && |Cells(Template(L).shape)| == 4
  {
    CellsAre(Template(L).shape, {(0, 0), (1, 0), (2, 0), (2, 1)});
  }

  /** The occupied cells of the J template. */
  lemma CellsJ()
    ensures Cells(Template(J).shape) == {(0, 1), (1, 1), (2, 0), (2, 1)}
    ensures IsShape(Template(J).shape) && |Cells(Template(J).shape)| == 4
  {
    CellsAre(Template(J).shape, {(0, 1), (1, 1), (2, 0), (2, 1)});
  }

  /** The occupied cells of the S template. */
  lemma CellsS()
    ensures Cells(Template(S).shape) == {(0, 1), (0, 2), (1, 0), (1, 1)}
    ensures IsShape(Template(S).shape) && |Cells(Template(S).shape)| == 4
  {
    CellsAre(Template(S).shape, {(0, 1), (0, 2), (1, 0), (1, 1)});
  }

  /** The occupied cells of the Z template. */
  lemma CellsZ()
    ensures Cells(Template(Z).shape) == {(0, 0), (0, 1), (1, 1), (1, 2)}
    ensures IsShape(Template(Z).shape) && |Cells(Template(Z).shape)| == 4
  {
    CellsAre(Template(Z).shape, {(0, 0), (0, 1), (1, 1), (1, 2)});
  }

  /** Any number of rotations of a template is still a proper four-cell shape. */
  lemma {:induction false} TurnedTemplateWellFormed(name: ShapeName, n: nat)
    ensures IsShape(Turned(Template(name).shape, n))
    ensures |Cells(Turned(Template(name).shape, n))| == 4
  {
    if n == 0 {
      TemplateWellFormed(name);
    } else {
      TurnedTemplateWellFormed(name, n - 1);
      RotationKeepsCellCount(Turned(Template(name).shape, n - 1));
    }
  }

  /** One more turn moves a template orientation to the next one, cyclically. */
  lemma TurnedStep(m: Matrix, k: nat)
    requires IsRect(m) && (|m| == 0 || Cols(m) > 0)
    requires k < 4
    ensures Turned(m, if k == 3 then 0 else k + 1) == Rotated(Turned(m, k))
  {
    if k == 3 {
      FourRotations(m);
      assert Turned(m, 4) == Rotated(Turned(m, 3));
    }
  }

  /** The I piece spawns at column 3, every other kind at column 4. */
  lemma SpawnColumn(name: ShapeName)
    ensures SpawnX(Template(name).shape) == if name == I then 3 else 4
  {
  }

  /** One falling piece: its kind and colour, its current orientation and its position. */
  class Tetromino {
    const name: ShapeName
    const color: Color
    var shape: Matrix
    var x: int
    var y: int
    /** The orientation the piece started in: its kind's template (see the constructor). */
    ghost const base: Matrix
    /** How many clockwise turns the shape is away from `base`, modulo four. */
    ghost var turns: nat

    /**
     * The shape is always an orientation of the starting shape. The constructor
     * fixes `base` and `color` to the kind's template, and neither can change.
     */
    ghost predicate Valid()
      reads this
    {
      turns < 4 && IsShape(base) && shape == Turned(base, turns)
    }

    /**
     * The piece belongs to its kind: it started in the kind's template shape
     * and has the kind's colour. Only constants are involved, so no method
     * can change it.
     */
    ghost predicate OfKind()
    {
      base == Template(name).shape && color == Template(name).color
    }

    /** A piece of the given kind, centred at the top row of the grid. */
    constructor (name: ShapeName)
      ensures Valid() && OfKind()
      ensures this.name == name && shape == Template(name).shape && color == Template(name).color
      ensures base == Template(name).shape
      ensures x == SpawnX(shape) && y == 0 && turns == 0
    {
      this.name := name;
      var data := Template(name);
      shape := data.shape;
      color := data.color;
      x := GridWidth / 2 - Cols(data.shape) / 2;
      y := 0;
      turns := 0;
      base := data.shape;
      TemplateIsShape(name);
    }

    /** Replaces the shape by its clockwise rotation; the position is not adjusted. */
    method Rotate()
      requires Valid()
      modifies this
      ensures Valid()
      ensures shape == Rotated(old(shape)) && turns == (if old(turns) == 3 then 0 else old(turns) + 1)
      ensures x == old(x) && y == old(y)
    {
      TurnedStep(base, turns);
      shape := Rotated(shape);
      turns := if turns == 3 then 0 else turns + 1;
    }

    /** Translates the piece unconditionally; callers undo the move on collision. */
    method Move(dx: int, dy: int)
      modifies this
      ensures x == old(x) + dx && y == old(y) + dy
      ensures shape == old(shape) && turns == old(turns)
    {
      x := x + dx;
      y := y + dy;
    }
  }
}
