/** The game state and the two entry points of the main loop: the gravity
    step run on every frame (Tick) and the handling of one key press
    (Command). */
module Engine {
  import opened Grid
  import opened Shapes
  import opened Tetrominoes

  /** Milliseconds the frame counter must reach before gravity acts. */
  const FALL_SPEED: nat := 500

  /** Points per cleared row; several rows cleared at once earn no bonus. */
  const POINTS_PER_LINE: nat := 100

  /** The key presses the game reacts to; any other key is OtherKey. */
  datatype Key = Left | Right | Down | Up | OtherKey

  /** The random draw of a new piece's shape and, independently, of its
      colour: an index into SHAPES and one into SHAPE_COLORS. */
  type ShapeIndex = k: nat | k < 7
  type ColourIndex = k: nat | k < 7

  /** A piece where pieces are created: in the top row, centred, with a
      shape of the spawn size. */
  ghost predicate Spawned(t: Tetromino)
    reads t
  {
    SpawnSized(t.shape) && t.x == SpawnX(t.shape) && t.y == 0
  }

  /** The cell balance of a lock in the gravity step: locking a fitting
      piece adds its filled cells, and the clear that follows removes a
      full row's worth of cells for every row it scores. */
  lemma LockCellBalance(b: Board, s: Shape, px: int, py: int, colour: Colour)
    requires IsBoard(b) && InBounds(s, px, py) && Fits(b, s, px, py) && colour != Black
    ensures var locked := Placed(b, s, px, py, colour);
      Filled(ClearedBoard(locked)) == Filled(b) + CellCount(s) - ClearedCount(locked) * GRID_WIDTH
  {
    PlacedAddsCells(b, s, px, py, colour);
    ClearedCellCount(Placed(b, s, px, py, colour));
  }

  class Game {
    var grid: array2<Colour>
    var current: Tetromino
    var next: Tetromino
    var score: nat
    var fallTime: nat
    var gameOver: bool

    /** The board as rows of colours. */
    function Rows(): Board
      reads this, grid
    {
      BoardOf(grid)
    }

    /** The board keeps its size; the falling piece is never above the top
        row; while the game is not over it fits the board (so it lies on the
        board and overlaps no locked cell), and once the game is over it
        still lies on the board; the next piece is an unmoved one, distinct
        from the falling piece. */
    ghost predicate Valid()
      reads this, grid, current, next
    {
      grid.Length0 == GRID_HEIGHT && grid.Length1 == GRID_WIDTH &&
      current != next && current.y >= 0 &&
      (if gameOver then InBounds(current.shape, current.x, current.y)
       else Fits(BoardOf(grid), current.shape, current.x, current.y)) &&
      Spawned(next)
    }

    /** A new game: an empty board, two freshly drawn pieces, no score. */
    constructor (shape0: ShapeIndex, colour0: ColourIndex, shape1: ShapeIndex, colour1: ColourIndex)
      ensures Valid()
      ensures Rows() == EmptyBoard()
      ensures Spawned(current) && current.shape == SHAPES[shape0] && current.color == SHAPE_COLORS[colour0]
      ensures next.shape == SHAPES[shape1] && next.color == SHAPE_COLORS[colour1]
      ensures score == 0 && fallTime == 0 && !gameOver
    {
      ListedShapesSpawnSized();
      SpawnFits(SHAPES[shape0]);
      grid := new Colour[GRID_HEIGHT, GRID_WIDTH]((r, c) => Black);
      current := new Tetromino(SHAPES[shape0], SHAPE_COLORS[colour0]);
      next := new Tetromino(SHAPES[shape1], SHAPE_COLORS[colour1]);
      score := 0;
      fallTime := 0;
      gameOver := false;
      new;
      BoardsEqual(Rows(), EmptyBoard());
    }

    /** Removes every full row and puts as many empty rows on top; the
        board is rebuilt as a new array. Returns the number removed. */
    method ClearLines() returns (cleared: nat)
      requires grid.Length0 == GRID_HEIGHT && grid.Length1 == GRID_WIDTH
      modifies this
      ensures fresh(grid) && grid.Length0 == GRID_HEIGHT && grid.Length1 == GRID_WIDTH
      ensures Rows() == ClearedBoard(old(Rows())) && cleared == ClearedCount(old(Rows()))
      ensures current == old(current) && next == old(next)
      ensures score == old(score) && fallTime == old(fallTime) && gameOver == old(gameOver)
    {
      var rows := Rows();
      var kept := Kept(rows);
      cleared := GRID_HEIGHT - |kept|;
      var newRows := EmptyRows(cleared) + kept;
      ClearedBoardShape(rows);
      grid := new Colour[GRID_HEIGHT, GRID_WIDTH](
        (r, c) requires 0 <= r < GRID_HEIGHT && 0 <= c < GRID_WIDTH => newRows[r][c]);
      BoardsEqual(Rows(), newRows);
    }

    /** The gravity step: the falling piece moves down one row if it fits
        there; otherwise it is locked, full rows are cleared and scored, the
        next piece becomes the falling one, a new next piece is drawn from
        the given indices, and the game is over if the new falling piece
        does not fit where it stands. */
    method Gravity(shapeChoice: ShapeIndex, colourChoice: ColourIndex)
      requires Valid()
      modifies this, grid, current
      ensures Valid()
      ensures fallTime == old(fallTime)
      ensures old(Fits(Rows(), current.shape, current.x, current.y + 1)) ==>
        current == old(current) && next == old(next) &&
        current.y == old(current.y) + 1 && current.x == old(current.x) &&
        current.shape == old(current.shape) && current.color == old(current.color) &&
        grid == old(grid) && Rows() == old(Rows()) &&
        score == old(score) && gameOver == old(gameOver)
      ensures !old(Fits(Rows(), current.shape, current.x, current.y + 1)) ==>
        var locked := Placed(old(Rows()), old(current.shape), old(current.x), old(current.y), old(current.color));
        Rows() == ClearedBoard(locked) &&
        score == old(score) + POINTS_PER_LINE * ClearedCount(locked) &&
        current == old(next) && unchanged(old(next)) &&
        fresh(next) && Spawned(next) &&
        next.shape == SHAPES[shapeChoice] && next.color == SHAPE_COLORS[colourChoice] &&
        gameOver == (old(gameOver) || !Fits(Rows(), current.shape, current.x, current.y))
    {
      ghost var b := Rows();
      ghost var locked := Placed(b, current.shape, current.x, current.y, current.color);
      var canFall := current.CanMove(grid, 0, 1, None);
      assert canFall == Fits(b, current.shape, current.x, current.y + 1);
      if canFall {
        Fall();
      } else {
        Lock(locked, shapeChoice, colourChoice);
      }
    }

    /** The falling branch of the gravity step: the piece, which fits one
        row lower, moves down one row. */
    method Fall()
      requires Valid() && Fits(Rows(), current.shape, current.x, current.y + 1)
      modifies current
      ensures Valid()
      ensures current.y == old(current.y) + 1 && current.x == old(current.x)
      ensures current.shape == old(current.shape) && current.color == old(current.color)
    {
      FitsInBounds(Rows(), current.shape, current.x, current.y + 1);
      current.y := current.y + 1;
    }

    /** The lock branch of the gravity step; locked is the board with the
        falling piece written into it. */
    method Lock(ghost locked: Board, shapeChoice: ShapeIndex, colourChoice: ColourIndex)
      requires Valid()
      requires locked == Placed(Rows(), current.shape, current.x, current.y, current.color)
      modifies this, grid
      ensures Valid()
      ensures fallTime == old(fallTime)
      ensures
        Rows() == ClearedBoard(locked) &&
        score == old(score) + POINTS_PER_LINE * ClearedCount(locked) &&
        current == old(next) && unchanged(old(next)) &&
        fresh(next) && Spawned(next) &&
        next.shape == SHAPES[shapeChoice] && next.color == SHAPE_COLORS[colourChoice] &&
        gameOver == (old(gameOver) || !Fits(Rows(), current.shape, current.x, current.y))
    {
      if !gameOver {
        FitsInBounds(Rows(), current.shape, current.x, current.y);
      }
      current.Place(grid);
      var cleared := ClearLines();
      score := score + cleared * POINTS_PER_LINE;
      ListedShapesSpawnSized();
      Promote(SHAPES[shapeChoice], SHAPE_COLORS[colourChoice]);
    }

    /** The next piece becomes the falling one, a new next piece of the
        drawn shape and colour is created, and the game is over if the new
        falling piece does not fit where it stands. */
    method Promote(newShape: Shape, newColour: Colour)
      requires grid.Length0 == GRID_HEIGHT && grid.Length1 == GRID_WIDTH
      requires Spawned(next) && SpawnSized(newShape)
      modifies this
      ensures Valid()
      ensures grid == old(grid) && score == old(score) && fallTime == old(fallTime)
      ensures current == old(next) && unchanged(old(next))
      ensures fresh(next) && Spawned(next)
      ensures next.shape == newShape && next.color == newColour
      ensures gameOver == (old(gameOver) || !Fits(Rows(), current.shape, current.x, current.y))
    {
      ghost var b := Rows();
      SpawnFits(next.shape);
      current := next;
      next := new Tetromino(newShape, newColour);
      var fits := current.CanMove(grid, 0, 0, None);
      assert fits == Fits(b, current.shape, current.x, current.y);
      if !fits {
        gameOver := true;
      }
    }

    /** One frame of the main loop before its key presses: the frame's
        elapsed time is added to the counter, and once the counter reaches
        FALL_SPEED one gravity step is taken and the counter restarts at 0
        (however much time has passed). This runs whether or not the game
        is already over. */
    method Tick(elapsed: nat, shapeChoice: ShapeIndex, colourChoice: ColourIndex)
      requires Valid()
      modifies this, grid, current
      ensures Valid()
      ensures score >= old(score)
      ensures old(gameOver) ==> gameOver
      ensures old(fallTime) + elapsed < FALL_SPEED ==>
        fallTime == old(fallTime) + elapsed &&
        grid == old(grid) && Rows() == old(Rows()) &&
        current == old(current) && next == old(next) && unchanged(current) &&
        score == old(score) && gameOver == old(gameOver)
      ensures old(fallTime) + elapsed >= FALL_SPEED ==> fallTime == 0
      ensures (old(fallTime) + elapsed >= FALL_SPEED &&
               old(Fits(Rows(), current.shape, current.x, current.y + 1))) ==>
        current == old(current) && next == old(next) &&
        current.y == old(current.y) + 1 && current.x == old(current.x) &&
        current.shape == old(current.shape) && current.color == old(current.color) &&
        grid == old(grid) && Rows() == old(Rows()) &&
        score == old(score) && gameOver == old(gameOver)
      ensures (old(fallTime) + elapsed >= FALL_SPEED &&
               !old(Fits(Rows(), current.shape, current.x, current.y + 1))) ==>
        var locked := Placed(old(Rows()), old(current.shape), old(current.x), old(current.y), old(current.color));
        Rows() == ClearedBoard(locked) &&
        score == old(score) + POINTS_PER_LINE * ClearedCount(locked) &&
        current == old(next) && unchanged(old(next)) &&
        fresh(next) && Spawned(next) &&
        next.shape == SHAPES[shapeChoice] && next.color == SHAPE_COLORS[colourChoice] &&
        gameOver == (old(gameOver) || !Fits(Rows(), current.shape, current.x, current.y))
    {
      if fallTime + elapsed >= FALL_SPEED {
        Gravity(shapeChoice, colourChoice);
        fallTime := 0;
      } else {
        fallTime := fallTime + elapsed;
      }
    }

    /** Moves the falling piece by (dx, dy) if it fits there. */
    method TryMove(dx: int, dy: int)
      requires Valid() && !gameOver && dy >= 0
      modifies current
      ensures Valid()
      ensures current.color == old(current.color) && current.shape == old(current.shape)
      ensures if old(Fits(Rows(), current.shape, current.x + dx, current.y + dy))
        then current.x == old(current.x) + dx && current.y == old(current.y) + dy
        else unchanged(current)
    {
      var ok := current.CanMove(grid, dx, dy, None);
      if ok {
        current.x, current.y := current.x + dx, current.y + dy;
      }
    }

    /** Turns the falling piece a quarter turn if the turned shape fits where
        the piece stands. The turned shape tested is the one committed. */
    method TryRotate()
      requires Valid() && !gameOver
      modifies current
      ensures Valid()
      ensures current.color == old(current.color)
      ensures if old(Fits(Rows(), Rotated(current.shape), current.x, current.y))
        then current.x == old(current.x) && current.y == old(current.y) &&
             current.shape == Rotated(old(current.shape))
        else unchanged(current)
    {
      ghost var b, x0, y0 := Rows(), current.x, current.y;
      var rotated := Rotated(current.shape);
      var ok := current.CanMove(grid, 0, 0, Some(rotated));
      assert ok == Fits(b, rotated, x0, y0);
      if ok {
        current.Rotate();
      }
    }

    /** One key press. While the game is not over, Left, Right and Down move
        the falling piece by one cell and Up turns it a quarter turn, each
        only if the piece fits the board afterwards; otherwise, and for any
        key once the game is over, nothing changes. */
    method Command(key: Key)
      requires Valid()
      modifies current
      ensures Valid()
      ensures Rows() == old(Rows()) && current.color == old(current.color)
      ensures old(gameOver) || key == OtherKey ==> unchanged(current)
      ensures !old(gameOver) && key == Left ==>
        if old(Fits(Rows(), current.shape, current.x - 1, current.y))
        then current.x == old(current.x) - 1 && current.y == old(current.y) && current.shape == old(current.shape)
        else unchanged(current)
      ensures !old(gameOver) && key == Right ==>
        if old(Fits(Rows(), current.shape, current.x + 1, current.y))
        then current.x == old(current.x) + 1 && current.y == old(current.y) && current.shape == old(current.shape)
        else unchanged(current)
      ensures !old(gameOver) && key == Down ==>
        if old(Fits(Rows(), current.shape, current.x, current.y + 1))
        then current.x == old(current.x) && current.y == old(current.y) + 1 && current.shape == old(current.shape)
        else unchanged(current)
      ensures !old(gameOver) && key == Up ==>
        if old(Fits(Rows(), Rotated(current.shape), current.x, current.y))
        then current.x == old(current.x) && current.y == old(current.y) && current.shape == Rotated(old(current.shape))
        else unchanged(current)
    {
      if !gameOver {
        match key {
          case Left => TryMove(-1, 0);
          case Right => TryMove(1, 0);
          case Down => TryMove(0, 1);
          case Up => TryRotate();
          case OtherKey =>
        }
      }
    }
  }
}
