/** The board of the falling-block game as a value: its dimensions, the
    colour held by each cell, and the full-row compaction performed after a
    piece locks (clear_lines). */
module Grid {

  // Screen size and cell size in pixels; the board's size in cells is
  // derived from them exactly as the program does.
  const WIDTH: nat := 300
  const HEIGHT: nat := 600
  const CELL_SIZE: nat := 30
  const GRID_WIDTH: nat := WIDTH / CELL_SIZE
  const GRID_HEIGHT: nat := HEIGHT / CELL_SIZE

  /** A cell's colour. Black is the empty cell; the other colours are those
      a locked piece can leave behind. Only equality with Black matters to
      the rules, so the RGB values are not modelled. */
  datatype Colour = Black | Cyan | Yellow | Purple | Green | Red | Blue | Orange

  /** The board is 10 cells wide and 20 cells high. */
  lemma GridSize()
    ensures GRID_WIDTH == 10 && GRID_HEIGHT == 20
  {
  }

  type Row = seq<Colour>
  type Board = seq<Row>

  /** Every row has GRID_WIDTH cells. */
  ghost predicate RowsOfWidth(b: Board)
  {
    forall r :: 0 <= r < |b| ==> |b[r]| == GRID_WIDTH
  }

  /** A well-formed board: GRID_HEIGHT rows of GRID_WIDTH cells. */
  ghost predicate IsBoard(b: Board)
  {
    |b| == GRID_HEIGHT && RowsOfWidth(b)
  }

  function EmptyRow(): Row
  {
    seq(GRID_WIDTH, _ => Black)
  }

  function EmptyRows(k: nat): Board
  {
    seq(k, _ => EmptyRow())
  }

  /** The board at the start of a game: every cell Black. */
  function EmptyBoard(): (b: Board)
    ensures IsBoard(b)
    ensures forall r, c :: 0 <= r < |b| && 0 <= c < |b[r]| ==> b[r][c] == Black
  {
    EmptyRows(GRID_HEIGHT)
  }

  /** A row is full when none of its cells is Black. */
  predicate IsFull(row: Row)
  {
    Black !in row
  }

  /** The rows that survive a clear: those holding some Black cell, in their
      original order. */
  function Kept(b: Board): (k: Board)
    ensures |k| <= |b|
  {
    if b == [] then []
    else Kept(b[..|b| - 1]) + (if IsFull(b[|b| - 1]) then [] else [b[|b| - 1]])
  }

  /** The number of rows a clear removes. */
  function ClearedCount(b: Board): nat
    requires |b| == GRID_HEIGHT
  {
    GRID_HEIGHT - |Kept(b)|
  }

  /** The board after a clear: as many empty rows as were removed, on top
      of the surviving rows. */
  function ClearedBoard(b: Board): Board
    requires |b| == GRID_HEIGHT
  {
    EmptyRows(ClearedCount(b)) + Kept(b)
  }

  /** Indices of the rows of b that survive a clear, in increasing order. */
  ghost function KeptIndices(b: Board): seq<nat>
  {
    if b == [] then []
    else KeptIndices(b[..|b| - 1]) + (if IsFull(b[|b| - 1]) then [] else [|b| - 1])
  }

  /** Indices of the full rows of b. */
  ghost function FullRows(b: Board): set<nat>
  {
    set r: nat | r < |b| && IsFull(b[r])
  }

  /** Number of non-Black cells of a row. */
  function FilledInRow(row: Row): nat
  {
    if row == [] then 0
    else (if row[0] == Black then 0 else 1) + FilledInRow(row[1..])
  }

  /** Number of non-Black cells of a board. */
  function Filled(b: Board): nat
  {
    if b == [] then 0 else Filled(b[..|b| - 1]) + FilledInRow(b[|b| - 1])
  }

  // ---------------------------------------------------------------------
  // What clear_lines promises

  /** The surviving rows are exactly the rows of b holding a Black cell,
      taken in their original top-to-bottom order. */
  lemma {:induction false} KeptIsOrderedSelection(b: Board)
    ensures |KeptIndices(b)| == |Kept(b)|
    ensures forall k :: 0 <= k < |Kept(b)| ==>
      KeptIndices(b)[k] < |b| && Kept(b)[k] == b[KeptIndices(b)[k]]
    ensures forall k1, k2 :: 0 <= k1 < k2 < |KeptIndices(b)| ==>
      KeptIndices(b)[k1] < KeptIndices(b)[k2]
    ensures forall i :: 0 <= i < |b| ==> (i in KeptIndices(b) <==> !IsFull(b[i]))
  {
    if b != [] {
      var n := |b| - 1;
      var p := b[..n];
      KeptIsOrderedSelection(p);
      assert forall i :: 0 <= i < n ==> p[i] == b[i];
      assert forall k :: 0 <= k < |KeptIndices(p)| ==> KeptIndices(p)[k] < n;
    }
  }

  /** No surviving row is full. */
  lemma {:induction false} KeptRowsNotFull(b: Board)
    ensures forall k :: 0 <= k < |Kept(b)| ==> !IsFull(Kept(b)[k])
  {
    if b != [] {
      KeptRowsNotFull(b[..|b| - 1]);
    }
  }

  /** Every row is either kept or counted as full. */
  lemma {:induction false} KeptPlusFull(b: Board)
    ensures |Kept(b)| + |FullRows(b)| == |b|
  {
    if b != [] {
      var n := |b| - 1;
      var p := b[..n];
      KeptPlusFull(p);
      if IsFull(b[n]) {
        assert FullRows(b) == FullRows(p) + {n};
      } else {
        assert FullRows(b) == FullRows(p);
      }
    }
  }

  /** The count clear_lines returns is the number of full rows. */
  lemma ClearedCountIsFullRows(b: Board)
    requires IsBoard(b)
    ensures ClearedCount(b) == |FullRows(b)|
  {
    KeptPlusFull(b);
  }

  /** Clearing keeps the board GRID_HEIGHT rows of GRID_WIDTH cells, and its
      top ClearedCount(b) rows are empty. */
  lemma ClearedBoardShape(b: Board)
    requires IsBoard(b)
    ensures IsBoard(ClearedBoard(b))
    ensures forall r :: 0 <= r < ClearedCount(b) ==> ClearedBoard(b)[r] == EmptyRow()
  {
    KeptIsOrderedSelection(b);
    var c := ClearedBoard(b);
    var k := ClearedCount(b);
    forall r | 0 <= r < |c|
      ensures |c[r]| == GRID_WIDTH
    {
      if r >= k {
        assert c[r] == Kept(b)[r - k];
      }
    }
  }

  /** After a clear no row of the board is full. */
  lemma NoFullRowRemains(b: Board)
    requires IsBoard(b)
    ensures forall r :: 0 <= r < GRID_HEIGHT ==> !IsFull(ClearedBoard(b)[r])
  {
    KeptRowsNotFull(b);
    var c := ClearedBoard(b);
    var k := ClearedCount(b);
    forall r | 0 <= r < GRID_HEIGHT
      ensures !IsFull(c[r])
    {
      if r < k {
        assert c[r][0] == Black;
      } else {
        assert c[r] == Kept(b)[r - k];
      }
    }
  }

  /** Below the empty rows a clear adds, the board holds the surviving rows
      of b, in their original order. */
  lemma SurvivorsKeepOrder(b: Board)
    requires IsBoard(b)
    ensures |KeptIndices(b)| == GRID_HEIGHT - ClearedCount(b)
    ensures forall k :: 0 <= k < GRID_HEIGHT - ClearedCount(b) ==>
      KeptIndices(b)[k] < GRID_HEIGHT &&
      ClearedBoard(b)[ClearedCount(b) + k] == b[KeptIndices(b)[k]]
    ensures forall k1, k2 :: 0 <= k1 < k2 < GRID_HEIGHT - ClearedCount(b) ==>
      KeptIndices(b)[k1] < KeptIndices(b)[k2]
    ensures forall i :: 0 <= i < GRID_HEIGHT ==> (i in KeptIndices(b) <==> !IsFull(b[i]))
  {
    KeptIsOrderedSelection(b);
  }

  // ---------------------------------------------------------------------
  // Cell counting

  lemma {:induction false} FullRowFilled(row: Row)
    requires IsFull(row)
    ensures FilledInRow(row) == |row|
  {
    if row != [] {
      FullRowFilled(row[1..]);
    }
  }

  lemma {:induction false} BlackRowEmpty(row: Row)
    requires forall c :: 0 <= c < |row| ==> row[c] == Black
    ensures FilledInRow(row) == 0
  {
    if row != [] {
      BlackRowEmpty(row[1..]);
    }
  }

  lemma {:induction false} EmptyRowsEmpty(k: nat)
    ensures Filled(EmptyRows(k)) == 0
  {
    if k > 0 {
      assert EmptyRows(k)[..k - 1] == EmptyRows(k - 1);
      EmptyRowsEmpty(k - 1);
      BlackRowEmpty(EmptyRow());
    }
  }

  lemma {:induction false} FilledAppend(a: Board, c: Board)
    ensures Filled(a + c) == Filled(a) + Filled(c)
  {
    if c == [] {
      assert a + c == a;
    } else {
      var n := |c| - 1;
      assert (a + c)[..|a + c| - 1] == a + c[..n];
      assert (a + c)[|a + c| - 1] == c[n];
      FilledAppend(a, c[..n]);
    }
  }

  /** Cells of b = cells of the surviving rows + GRID_WIDTH per full row. */
  lemma {:induction false} FilledSplit(b: Board)
    requires RowsOfWidth(b)
    ensures Filled(b) == Filled(Kept(b)) + GRID_WIDTH * (|b| - |Kept(b)|)
  {
    GridSize();
    if b != [] {
      var n := |b| - 1;
      var p := b[..n];
      FilledSplit(p);
      assert Filled(b) == Filled(p) + FilledInRow(b[n]);
      if IsFull(b[n]) {
        FullRowFilled(b[n]);
        assert Kept(b) == Kept(p);
      } else {
        assert Kept(b) == Kept(p) + [b[n]];
        FilledAppend(Kept(p), [b[n]]);
        assert [b[n]][..0] == [];
        assert Filled([b[n]]) == FilledInRow(b[n]);
      }
    }
  }

  /** A clear removes exactly GRID_WIDTH filled cells per cleared row. */
  lemma ClearedCellCount(b: Board)
    requires IsBoard(b)
    ensures Filled(ClearedBoard(b)) == Filled(b) - ClearedCount(b) * GRID_WIDTH
  {
    GridSize();
    FilledAppend(EmptyRows(ClearedCount(b)), Kept(b));
    EmptyRowsEmpty(ClearedCount(b));
    FilledSplit(b);
  }
}
