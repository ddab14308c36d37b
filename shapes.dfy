/** Piece shapes as matrices of filled flags, the seven shapes the game
    draws from with their colours, and the clockwise rotation. */
module Shapes {
  import opened Grid

  /** Rows of filled (true) and empty (false) cells. */
  type Shape = seq<seq<bool>>

  /** A non-empty rectangular matrix. */
  ghost predicate IsShape(s: Shape)
  {
    |s| > 0 && |s[0]| > 0 && forall r :: 0 <= r < |s| ==> |s[r]| == |s[0]|
  }

  /** The seven shapes, in the program's order. The first one is commented
      as the I-shape in the program but is a T pattern, which makes it a
      half turn of the third (see FirstShapeIsTurnedT). */
  const SHAPES: seq<Shape> := [
    [[true, true, true],
     [false, true, false]],

    [[true, true],
     [true, true]],

    [[false, true, false],
     [true, true, true]],

    [[true, true, false],
     [false, true, true]],

    [[false, true, true],
     [true, true, false]],

    [[true, true, true],
     [false, false, true]],

    [[true, true, true],
     [true, false, false]]
  ]

  /** The colour listed for each shape. The program draws a piece's colour
      independently of its shape, so any colour can go with any shape. */
  const SHAPE_COLORS: seq<Colour> := [Cyan, Yellow, Purple, Green, Red, Blue, Orange]

  /** The rows of s in reverse order (Python's s[::-1]). */
  function Reversed(s: Shape): (r: Shape)
    ensures |r| == |s| && forall k :: 0 <= k < |s| ==> r[k] == s[|s| - 1 - k]
  {
    seq(|s|, k requires 0 <= k < |s| => s[|s| - 1 - k])
  }

  /** The length of the shortest row of a non-empty matrix. */
  function MinLength(s: Shape): (m: nat)
    requires |s| > 0
    ensures forall j :: 0 <= j < |s| ==> m <= |s[j]|
    ensures exists j :: 0 <= j < |s| && m == |s[j]|
  {
    if |s| == 1 then |s[0]|
    else
      var t := MinLength(s[1..]);
      if |s[0]| <= t then |s[0]| else t
  }

  /** Python's zip(*s): one row per column index shared by every row of s
      (so as many as the shortest row is long), the i-th holding the i-th
      cell of each row of s in order. */
  function Transposed(s: Shape): (t: Shape)
  {
    if s == [] then []
    else seq(MinLength(s), i requires 0 <= i < MinLength(s) =>
           seq(|s|, j requires 0 <= j < |s| => s[j][i]))
  }

  /** Clockwise rotation by a quarter turn, computed as the program does:
      reverse the rows, then transpose. */
  function Rotated(s: Shape): Shape
  {
    Transposed(Reversed(s))
  }

  // ---------------------------------------------------------------------
  // Properties of rotation

  /** An n-row, m-column shape rotates into an m-row, n-column shape with
      rotated[i][j] == s[n-1-j][i]. */
  lemma RotatedAt(s: Shape)
    requires IsShape(s)
    ensures IsShape(Rotated(s))
    ensures |Rotated(s)| == |s[0]| && |Rotated(s)[0]| == |s|
    ensures forall i, j :: 0 <= i < |s[0]| && 0 <= j < |s| ==>
      Rotated(s)[i][j] == s[|s| - 1 - j][i]
  {
    var v := Reversed(s);
    assert MinLength(v) == |s[0]| by {
      var j :| 0 <= j < |v| && MinLength(v) == |v[j]|;
    }
  }

  /** A half turn: an n-row, m-column shape keeps its size and has
      halfTurned[i][j] == s[n-1-i][m-1-j]. */
  lemma HalfTurnAt(s: Shape)
    requires IsShape(s)
    ensures IsShape(Rotated(Rotated(s)))
    ensures |Rotated(Rotated(s))| == |s| && |Rotated(Rotated(s))[0]| == |s[0]|
    ensures forall i, j :: 0 <= i < |s| && 0 <= j < |s[0]| ==>
      Rotated(Rotated(s))[i][j] == s[|s| - 1 - i][|s[0]| - 1 - j]
  {
    RotatedAt(s);
    RotatedAt(Rotated(s));
  }

  /** Four quarter turns give back the original shape. */
  lemma RotateFourTimes(s: Shape)
    requires IsShape(s)
    ensures Rotated(Rotated(Rotated(Rotated(s)))) == s
  {
    var h := Rotated(Rotated(s));
    HalfTurnAt(s);
    HalfTurnAt(h);
    var f := Rotated(Rotated(h));
    forall i | 0 <= i < |s|
      ensures f[i] == s[i]
    {
    }
  }

  /** The square shape is unchanged by a quarter turn. */
  lemma SquareRotationInvariant()
    ensures Rotated(SHAPES[1]) == SHAPES[1]
  {
    var o := SHAPES[1];
    RotatedAt(o);
    assert Rotated(o)[0] == o[0] && Rotated(o)[1] == o[1];
  }

  /** The first listed shape is the third one turned by half a turn, so the
      T pattern is drawn twice as often as any other and no straight
      four-cell bar exists. */
  lemma FirstShapeIsTurnedT()
    ensures Rotated(Rotated(SHAPES[0])) == SHAPES[2]
  {
    HalfTurnIs(SHAPES[0], SHAPES[2]);
  }

  /** A shape w of the same size as s whose cells are those of s read from
      the opposite corner is the half turn of s. */
  lemma HalfTurnIs(s: Shape, w: Shape)
    requires IsShape(s) && |w| == |s| && forall i :: 0 <= i < |w| ==> |w[i]| == |s[0]|
    requires forall i, j :: 0 <= i < |s| && 0 <= j < |s[0]| ==> w[i][j] == s[|s| - 1 - i][|s[0]| - 1 - j]
    ensures Rotated(Rotated(s)) == w
  {
    HalfTurnAt(s);
    var h := Rotated(Rotated(s));
    forall i | 0 <= i < |s|
      ensures h[i] == w[i]
    {
    }
  }

  /** Number of filled cells of a shape. */
  function CellCount(s: Shape): nat
  {
    if s == [] then 0 else RowCount(s[0]) + CellCount(s[1..])
  }

  function RowCount(row: seq<bool>): nat
  {
    if row == [] then 0 else (if row[0] then 1 else 0) + RowCount(row[1..])
  }

  /** A row without filled cells counts none. */
  lemma {:induction false} BlankRowCount(row: seq<bool>)
    requires forall c :: 0 <= c < |row| ==> !row[c]
    ensures RowCount(row) == 0
  {
    if row != [] {
      BlankRowCount(row[1..]);
    }
  }

  /** The cells of a shape are those of all rows but the last, plus those of
      the last. */
  lemma {:induction false} CellCountLast(s: Shape)
    requires s != []
    ensures CellCount(s) == CellCount(s[..|s| - 1]) + RowCount(s[|s| - 1])
  {
    if |s| == 1 {
      assert s[1..] == [];
      assert CellCount(s[..0]) == 0;
    } else {
      var n := |s| - 1;
      CellCountLast(s[1..]);
      assert s[1..][..n - 1] == s[..n][1..];
      assert s[1..][n - 1] == s[n];
    }
  }

  /** Rows without filled cells at the end of a shape add no cells. */
  lemma {:induction false} TrailingBlankRows(s: Shape, k: nat)
    requires k <= |s| && forall r :: k <= r < |s| ==> RowCount(s[r]) == 0
    ensures CellCount(s) == CellCount(s[..k])
  {
    if |s| > k {
      var n := |s| - 1;
      CellCountLast(s);
      TrailingBlankRows(s[..n], k);
      assert s[..n][..k] == s[..k];
    } else {
      assert s[..k] == s;
    }
  }

  /** Every listed shape is a non-empty rectangle of two rows and two or
      three columns with four filled cells. */
  lemma ShapesWellFormed()
    ensures |SHAPES| == |SHAPE_COLORS| == 7
    ensures forall k :: 0 <= k < |SHAPES| ==>
      IsShape(SHAPES[k]) && |SHAPES[k]| == 2 && 2 <= |SHAPES[k][0]| <= 3 &&
      CellCount(SHAPES[k]) == 4
    ensures Black !in SHAPE_COLORS
  {
    forall k | 0 <= k < |SHAPES|
      ensures CellCount(SHAPES[k]) == 4
    {
      var s := SHAPES[k];
      assert s[1..][1..] == [];
    }
  }
}
