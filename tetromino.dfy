/** A falling piece (Tetromino): where it starts, the collision test that
    guards every move (can_move), the lock that writes it into the board
    (place) and its rotation; with the board-level functions that say what
    these compute. */
module Tetrominoes {
  import opened Grid
  import opened Shapes

  datatype Option<T> = None | Some(value: T)

  /** The column a new piece starts in: the board's middle column less half
      the width of the shape's first row, both by integer division. */
  function SpawnX(s: Shape): int
    requires |s| > 0
  {
    GRID_WIDTH / 2 - |s[0]| / 2
  }

  /** The board cell (gx, gy) refuses a filled cell of a piece: it lies
      left or right of the walls, below the floor, or on a non-Black cell of
      the board. A cell above the top row (gy < 0) is refused only by the
      walls. */
  predicate Blocked(b: Board, gx: int, gy: int)
    requires IsBoard(b)
  {
    gx < 0 || gx >= GRID_WIDTH || gy >= GRID_HEIGHT || (gy >= 0 && b[gy][gx] != Black)
  }

  /** A row of a shape, its first cell at board column px of board row gy,
      fits the board: no filled cell lands on a refused cell. */
  predicate RowFits(b: Board, row: seq<bool>, px: int, gy: int)
    requires IsBoard(b)
  {
    row == [] ||
    (RowFits(b, row[..|row| - 1], px, gy) &&
     (row[|row| - 1] ==> !Blocked(b, px + |row| - 1, gy)))
  }

  /** Shape s anchored with its top-left corner at (px, py) fits the board:
      every row fits (see FitsAt for the cell-by-cell reading). */
  predicate Fits(b: Board, s: Shape, px: int, py: int)
    requires IsBoard(b)
  {
    s == [] ||
    (Fits(b, s[..|s| - 1], px, py) && RowFits(b, s[|s| - 1], px, py + |s| - 1))
  }

  /** Every filled cell of a row, its first cell at (px, gy), lies on the
      board. */
  predicate RowInBounds(row: seq<bool>, px: int, gy: int)
  {
    row == [] ||
    (RowInBounds(row[..|row| - 1], px, gy) &&
     (row[|row| - 1] ==> 0 <= px + |row| - 1 < GRID_WIDTH && 0 <= gy < GRID_HEIGHT))
  }

  /** Every filled cell of s anchored at (px, py) lies on the board (see
      InBoundsAt for the cell-by-cell reading). */
  predicate InBounds(s: Shape, px: int, py: int)
  {
    s == [] ||
    (InBounds(s[..|s| - 1], px, py) && RowInBounds(s[|s| - 1], px, py + |s| - 1))
  }

  /** A row fits exactly when none of its filled cells is refused. */
  lemma {:induction false} RowFitsAt(b: Board, row: seq<bool>, px: int, gy: int)
    requires IsBoard(b)
    ensures RowFits(b, row, px, gy) <==>
      forall c :: 0 <= c < |row| && row[c] ==> !Blocked(b, px + c, gy)
  {
    if row != [] {
      RowFitsAt(b, row[..|row| - 1], px, gy);
    }
  }

  /** A shape fits exactly when none of its filled cells is refused. */
  lemma {:induction false} FitsAt(b: Board, s: Shape, px: int, py: int)
    requires IsBoard(b)
    ensures Fits(b, s, px, py) <==>
      forall r, c :: 0 <= r < |s| && 0 <= c < |s[r]| && s[r][c] ==> !Blocked(b, px + c, py + r)
  {
    if s != [] {
      var n := |s| - 1;
      FitsAt(b, s[..n], px, py);
      RowFitsAt(b, s[n], px, py + n);
      assert forall r :: 0 <= r < n ==> s[..n][r] == s[r];
    }
  }

  /** A row lies on the board exactly when each of its filled cells does. */
  lemma {:induction false} RowInBoundsAt(row: seq<bool>, px: int, gy: int)
    ensures RowInBounds(row, px, gy) <==>
      forall c :: 0 <= c < |row| && row[c] ==> 0 <= px + c < GRID_WIDTH && 0 <= gy < GRID_HEIGHT
  {
    if row != [] {
      RowInBoundsAt(row[..|row| - 1], px, gy);
    }
  }

  /** A shape lies on the board exactly when each of its filled cells does. */
  lemma {:induction false} InBoundsAt(s: Shape, px: int, py: int)
    ensures InBounds(s, px, py) <==>
      forall r, c :: 0 <= r < |s| && 0 <= c < |s[r]| && s[r][c] ==>
        0 <= px + c < GRID_WIDTH && 0 <= py + r < GRID_HEIGHT
  {
    if s != [] {
      var n := |s| - 1;
      InBoundsAt(s[..n], px, py);
      RowInBoundsAt(s[n], px, py + n);
      assert forall r :: 0 <= r < n ==> s[..n][r] == s[r];
    }
  }

  /** The board cell (gx, gy) is under a filled cell of s anchored at (px, py). */
  predicate Covers(s: Shape, px: int, py: int, gx: int, gy: int)
  {
    0 <= gy - py < |s| && 0 <= gx - px < |s[gy - py]| && s[gy - py][gx - px]
  }

  /** The board after locking s, anchored at (px, py), in the given colour:
      the covered cells take the colour and every other cell keeps its own. */
  function Placed(b: Board, s: Shape, px: int, py: int, colour: Colour): (p: Board)
    requires IsBoard(b)
    ensures IsBoard(p)
  {
    seq(GRID_HEIGHT, gy requires 0 <= gy < GRID_HEIGHT =>
      seq(GRID_WIDTH, gx requires 0 <= gx < GRID_WIDTH =>
        if Covers(s, px, py, gx, gy) then colour else b[gy][gx]))
  }

  /** The contents of a two-dimensional array as a sequence of rows. */
  function BoardOf(g: array2<Colour>): (b: Board)
    reads g
    ensures |b| == g.Length0
    ensures forall r :: 0 <= r < |b| ==> |b[r]| == g.Length1
    ensures forall r, c :: 0 <= r < g.Length0 && 0 <= c < g.Length1 ==> b[r][c] == g[r, c]
  {
    seq(g.Length0, r requires 0 <= r < g.Length0 reads g =>
      seq(g.Length1, c requires 0 <= c < g.Length1 reads g => g[r, c]))
  }

  // ---------------------------------------------------------------------
  // Facts about fitting and locking

  /** A shape that fits with its anchor on or below the top row lies wholly
      on the board. */
  lemma FitsInBounds(b: Board, s: Shape, px: int, py: int)
    requires IsBoard(b) && py >= 0 && Fits(b, s, px, py)
    ensures InBounds(s, px, py)
  {
    FitsAt(b, s, px, py);
    InBoundsAt(s, px, py);
  }

  /** Above the top row only the walls refuse a cell: a shape wholly above
      the board fits any board exactly when it fits the empty one. */
  lemma FitsAboveTop(b: Board, s: Shape, px: int, py: int)
    requires IsBoard(b) && py + |s| <= 0
    ensures Fits(b, s, px, py) <==> Fits(EmptyBoard(), s, px, py)
  {
    FitsAt(b, s, px, py);
    FitsAt(EmptyBoard(), s, px, py);
  }

  /** One or two rows of at most three cells each: the size of every listed
      shape. */
  predicate SpawnSized(s: Shape)
  {
    0 < |s| <= 2 && |s[0]| <= 3 && (|s| == 2 ==> |s[1]| <= 3)
  }

  /** Every listed shape has the spawn size. */
  lemma ListedShapesSpawnSized()
    ensures forall k :: 0 <= k < |SHAPES| ==> SpawnSized(SHAPES[k])
  {
    ShapesWellFormed();
  }

  /** A shape of the spawn size, placed where a new piece starts, lies on
      the board and fits the empty board: a game never starts over. */
  lemma SpawnFits(s: Shape)
    requires SpawnSized(s)
    ensures InBounds(s, SpawnX(s), 0) && Fits(EmptyBoard(), s, SpawnX(s), 0)
  {
    GridSize();
    InBoundsAt(s, SpawnX(s), 0);
    FitsAt(EmptyBoard(), s, SpawnX(s), 0);
  }

  /** Once a piece with a filled cell is locked in a non-Black colour, it
      no longer fits where it was locked. */
  lemma PlacedNoLongerFits(b: Board, s: Shape, px: int, py: int, colour: Colour, r: nat, c: nat)
    requires IsBoard(b) && InBounds(s, px, py) && colour != Black
    requires r < |s| && c < |s[r]| && s[r][c]
    ensures !Fits(Placed(b, s, px, py, colour), s, px, py)
  {
    var p := Placed(b, s, px, py, colour);
    InBoundsAt(s, px, py);
    FitsAt(p, s, px, py);
    assert Covers(s, px, py, px + c, py + r);
    assert p[py + r][px + c] == colour;
    assert Blocked(p, px + c, py + r);
  }

  /** Locking a piece that fits overwrites no locked cell: every non-Black
      cell of the board keeps its colour. */
  lemma PlacedKeepsLockedCells(b: Board, s: Shape, px: int, py: int, colour: Colour)
    requires IsBoard(b) && Fits(b, s, px, py)
    ensures forall gy, gx :: 0 <= gy < GRID_HEIGHT && 0 <= gx < GRID_WIDTH && b[gy][gx] != Black ==>
      Placed(b, s, px, py, colour)[gy][gx] == b[gy][gx]
  {
    FitsAt(b, s, px, py);
  }

  /** Locking a piece that lies on the board shows its colour at the board
      cell of every filled cell of its shape. */
  lemma PlacedShowsPiece(b: Board, s: Shape, px: int, py: int, colour: Colour)
    requires IsBoard(b) && InBounds(s, px, py)
    ensures forall r, c :: 0 <= r < |s| && 0 <= c < |s[r]| && s[r][c] ==>
      0 <= py + r < GRID_HEIGHT && 0 <= px + c < GRID_WIDTH &&
      Placed(b, s, px, py, colour)[py + r][px + c] == colour
  {
    InBoundsAt(s, px, py);
    var p := Placed(b, s, px, py, colour);
    forall r, c | 0 <= r < |s| && 0 <= c < |s[r]| && s[r][c]
      ensures p[py + r][px + c] == colour
    {
      assert Covers(s, px, py, px + c, py + r);
    }
  }

  // ---------------------------------------------------------------------
  // Counting the cells a lock adds

  /** Writing a non-Black colour onto the cells of a board row under the
      filled cells of a row of a shape whose first cell is at column px,
      when each of those lies on the board row and is Black, adds the row's
      count of filled cells. */
  lemma {:induction false} RowAddsCells(before: Row, after: Row, row: seq<bool>, px: int, colour: Colour)
    requires |after| == |before| && colour != Black
    requires forall c :: 0 <= c < |row| && row[c] ==>
      0 <= px + c < |before| && before[px + c] == Black
    requires forall gx :: 0 <= gx < |before| ==>
      after[gx] == if 0 <= gx - px < |row| && row[gx - px] then colour else before[gx]
    ensures FilledInRow(after) == FilledInRow(before) + RowCount(row)
    decreases |before| + |row|
  {
    if row == [] {
      assert after == before;
    } else if px < 0 {
      RowAddsCells(before, after, row[1..], px + 1, colour);
    } else if before == [] {
      BlankRowCount(row);
    } else if px > 0 {
      RowAddsCells(before[1..], after[1..], row, px - 1, colour);
    } else {
      RowAddsCells(before[1..], after[1..], row[1..], 0, colour);
    }
  }

  /** The filled cells that shape s, its top row on board row py, has on
      board row gy. */
  ghost function RowGain(s: Shape, py: int, gy: int): nat
  {
    if 0 <= gy - py < |s| then RowCount(s[gy - py]) else 0
  }

  /** The filled cells that shape s, its top row on board row py, has on
      board rows 0 to n - 1. */
  ghost function Gain(s: Shape, py: int, n: nat): nat
  {
    if n == 0 then 0 else Gain(s, py, n - 1) + RowGain(s, py, n - 1)
  }

  /** k held within 0 and hi. */
  function Clamp(k: int, hi: nat): (c: nat)
    ensures c <= hi
    ensures c == k || (k < 0 && c == 0) || (k > hi && c == hi)
  {
    if k <= 0 then 0 else if k >= hi then hi else k
  }

  /** Boards whose rows gain the rows of s differ in their cells by the
      cells of s on those rows. */
  lemma {:induction false} FilledGains(before: Board, after: Board, s: Shape, py: int)
    requires |after| == |before|
    requires forall gy :: 0 <= gy < |before| ==>
      FilledInRow(after[gy]) == FilledInRow(before[gy]) + RowGain(s, py, gy)
    ensures Filled(after) == Filled(before) + Gain(s, py, |before|)
  {
    if before != [] {
      var n := |before| - 1;
      assert forall gy :: 0 <= gy < n ==> before[..n][gy] == before[gy] && after[..n][gy] == after[gy];
      FilledGains(before[..n], after[..n], s, py);
    }
  }

  /** The rows of s on board rows 0 to n - 1 are its first rows, when the
      rows of s above the board have no filled cell. */
  lemma {:induction false} GainIsFirstRows(s: Shape, py: int, n: nat)
    requires forall r :: 0 <= r < |s| && py + r < 0 ==> RowCount(s[r]) == 0
    ensures Gain(s, py, n) == CellCount(s[..Clamp(n - py, |s|)])
  {
    if n == 0 {
      var k := Clamp(-py, |s|);
      TrailingBlankRows(s[..k], 0);
      assert s[..k][..0] == [];
    } else {
      GainIsFirstRows(s, py, n - 1);
      var k := n - 1 - py;
      if 0 <= k < |s| {
        CellCountLast(s[..k + 1]);
        assert s[..k + 1][..k] == s[..k];
      }
    }
  }

  /** Locking a piece that fits the board adds to each board row the
      filled cells the piece has on it. */
  lemma PlacedRowGains(b: Board, s: Shape, px: int, py: int, colour: Colour)
    requires IsBoard(b) && Fits(b, s, px, py) && InBounds(s, px, py) && colour != Black
    ensures forall gy :: 0 <= gy < GRID_HEIGHT ==>
      FilledInRow(Placed(b, s, px, py, colour)[gy]) == FilledInRow(b[gy]) + RowGain(s, py, gy)
  {
    InBoundsAt(s, px, py);
    FitsAt(b, s, px, py);
    var p := Placed(b, s, px, py, colour);
    forall gy | 0 <= gy < GRID_HEIGHT
      ensures FilledInRow(p[gy]) == FilledInRow(b[gy]) + RowGain(s, py, gy)
    {
      if 0 <= gy - py < |s| {
        RowAddsCells(b[gy], p[gy], s[gy - py], px, colour);
      } else {
        assert p[gy] == b[gy];
      }
    }
  }

  /** The rows of a shape that lies on the board, off the board rows, have
      no filled cell. */
  lemma RowsOffBoardBlank(s: Shape, px: int, py: int)
    requires InBounds(s, px, py)
    ensures forall r :: 0 <= r < |s| && !(0 <= py + r < GRID_HEIGHT) ==> RowCount(s[r]) == 0
  {
    InBoundsAt(s, px, py);
    forall r | 0 <= r < |s| && !(0 <= py + r < GRID_HEIGHT)
      ensures RowCount(s[r]) == 0
    {
      BlankRowCount(s[r]);
    }
  }

  /** Locking a piece that lies on the board and fits it, in a non-Black
      colour, adds exactly the piece's filled cells to the board. */
  lemma PlacedAddsCells(b: Board, s: Shape, px: int, py: int, colour: Colour)
    requires IsBoard(b) && InBounds(s, px, py) && Fits(b, s, px, py) && colour != Black
    ensures Filled(Placed(b, s, px, py, colour)) == Filled(b) + CellCount(s)
  {
    var p := Placed(b, s, px, py, colour);
    PlacedRowGains(b, s, px, py, colour);
    FilledGains(b, p, s, py);
    GainIsCells(s, px, py);
  }

  /** Over all the board's rows, a shape that lies on the board gains all
      its filled cells. */
  lemma GainIsCells(s: Shape, px: int, py: int)
    requires InBounds(s, px, py)
    ensures Gain(s, py, GRID_HEIGHT) == CellCount(s)
  {
    RowsOffBoardBlank(s, px, py);
    GainIsFirstRows(s, py, GRID_HEIGHT);
    TrailingBlankRows(s, Clamp(GRID_HEIGHT - py, |s|));
  }

  /** Two boards that agree cell by cell are equal. */
  lemma BoardsEqual(a: Board, b: Board)
    requires IsBoard(a) && IsBoard(b)
    requires forall r, c :: 0 <= r < GRID_HEIGHT && 0 <= c < GRID_WIDTH ==> a[r][c] == b[r][c]
    ensures a == b
  {
    forall r | 0 <= r < GRID_HEIGHT
      ensures a[r] == b[r]
    {
    }
  }

  class Tetromino {
    var shape: Shape
    var color: Colour
    var x: int
    var y: int

    /** A new piece in the top row, centred horizontally. */
    constructor (shape: Shape, color: Colour)
      requires |shape| > 0
      ensures this.shape == shape && this.color == color
      ensures x == SpawnX(shape) && y == 0
    {
      this.shape := shape;
      this.color := color;
      x := SpawnX(shape);
      y := 0;
    }

    /** Replaces the shape by its quarter turn, the same shape the rotation
        check tests; the position and colour stay. */
    method Rotate()
      modifies this
      ensures shape == Rotated(old(shape))
      ensures color == old(color) && x == old(x) && y == old(y)
    {
      shape := Rotated(shape);
    }

    /** Whether the piece, moved by (dx, dy) and with the candidate shape if
        one is given, would fit the board; it reads the board only. */
    method CanMove(grid: array2<Colour>, dx: int, dy: int, candidate: Option<Shape>) returns (ok: bool)
      requires grid.Length0 == GRID_HEIGHT && grid.Length1 == GRID_WIDTH
      ensures ok == Fits(BoardOf(grid), if candidate.Some? then candidate.value else shape, x + dx, y + dy)
    {
      var s := if candidate.Some? then candidate.value else shape;
      ghost var b := BoardOf(grid);
      FitsAt(b, s, x + dx, y + dy);
      var r := 0;
      while r < |s|
        invariant 0 <= r <= |s|
        invariant forall i, j :: 0 <= i < r && 0 <= j < |s[i]| && s[i][j] ==>
          !Blocked(b, x + j + dx, y + i + dy)
      {
        var c := 0;
        while c < |s[r]|
          invariant 0 <= c <= |s[r]|
          invariant forall i, j :: 0 <= i < r && 0 <= j < |s[i]| && s[i][j] ==>
            !Blocked(b, x + j + dx, y + i + dy)
          invariant forall j :: 0 <= j < c && s[r][j] ==> !Blocked(b, x + j + dx, y + r + dy)
        {
          if s[r][c] {
            var newX := x + c + dx;
            var newY := y + r + dy;
            if newX < 0 || newX >= GRID_WIDTH || newY >= GRID_HEIGHT || (newY >= 0 && grid[newY, newX] != Black) {
              return false;
            }
          }
          c := c + 1;
        }
        r := r + 1;
      }
      return true;
    }

    /** Locks the piece: writes its colour into every board cell under a
        filled cell of its shape; every other cell keeps its colour. */
    method Place(grid: array2<Colour>)
      requires grid.Length0 == GRID_HEIGHT && grid.Length1 == GRID_WIDTH
      requires InBounds(shape, x, y)
      modifies grid
      ensures BoardOf(grid) == Placed(old(BoardOf(grid)), shape, x, y, color)
    {
      InBoundsAt(shape, x, y);
      var r := 0;
      while r < |shape|
        invariant 0 <= r <= |shape|
        invariant forall gy, gx :: 0 <= gy < GRID_HEIGHT && 0 <= gx < GRID_WIDTH ==>
          grid[gy, gx] == if Covers(shape[..r], x, y, gx, gy) then color else old(grid[gy, gx])
      {
        var c := 0;
        while c < |shape[r]|
          invariant 0 <= c <= |shape[r]|
          invariant forall gy, gx :: 0 <= gy < GRID_HEIGHT && 0 <= gx < GRID_WIDTH ==>
            grid[gy, gx] ==
              if Covers(shape[..r], x, y, gx, gy) || (gy == y + r && x <= gx < x + c && shape[r][gx - x])
              then color else old(grid[gy, gx])
        {
          if shape[r][c] {
            grid[y + r, x + c] := color;
          }
          c := c + 1;
        }
        r := r + 1;
      }
      assert shape[..r] == shape;
      ghost var want := Placed(old(BoardOf(grid)), shape, x, y, color);
      BoardsEqual(BoardOf(grid), want);
    }
  }
}
