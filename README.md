# Classic Tetris: a verified model of the game engine

This project models the simulation core of `classic_tetris.py`, a single-file
falling-block game. It covers:

- the 20 × 10 board of colour cells;
- the seven piece shapes and their colours;
- the `Tetromino` class, with its spawn position, its rotation, the collision
  test `can_move` and the lock `place`;
- the row compaction `clear_lines`;
- the two rule blocks of the main loop: the gravity step, and the key commands
  that are guarded by `game_over`.

The model has four modules:

- `Grid` (`grid.dfy`): the board as a value. It holds the dimensions, the
  colours and `clear_lines` as a function (`ClearedBoard`), with its
  properties.
- `Shapes` (`shapes.dfy`): `SHAPES` and `SHAPE_COLORS`, and the rotation,
  computed as the program computes it (reverse the rows, then `zip`).
- `Tetrominoes` (`tetromino.dfy`): the collision predicate `Fits` and the lock
  function `Placed`. It also holds the `Tetromino` class, whose methods
  `CanMove` and `Place` run the program's nested loops over a two-dimensional
  array. Each method is proved against those functions.
- `Engine` (`engine.dfy`): the `Game` class. It holds the global game state of
  the program: the grid array, the current and next pieces, the score,
  `fall_time` and `game_over`. `Tick` is the frame's gravity block and
  `Command` one key press. `Valid()` is the invariant both keep.

The random draws of a new piece's shape and colour are parameters: an index
into `SHAPES` and an independent index into `SHAPE_COLORS`. The frame's
elapsed milliseconds are a parameter of `Tick`.

Where the code behaves in a way its comments or a reader might not expect,
the model follows the code:

- The first entry of `SHAPES`, commented as the I-shape, is a T pattern. It is
  the third shape turned half a turn (`Shapes.FirstShapeIsTurnedT`), so the
  game has no straight bar.
- A piece's colour is drawn independently of its shape.
- At most one gravity step is taken per frame. Once the counter reaches 500 ms
  it restarts at 0, whatever the overshoot.
- `game_over` only stops key commands. The gravity block still runs after the
  game is over, so pieces keep falling and locking, and the score can still
  grow. Only the drawing stops.
- The game-over test happens only when a new piece becomes current: the
  piece must fit where it spawns.
- `rotate` replaces the piece's shape by its rotated copy. The copy that the
  Up key tests is computed by the same expression, so what is tested is what
  is committed.
- `Tick` decides whether gravity acts before it updates the counter. That is
  equivalent to the program adding the time first and then testing.

## Model

| member | source | states |
|---|---|---|
| Grid.EmptyBoard | classic_tetris.py:59 | the initial grid has GRID_HEIGHT rows of GRID_WIDTH cells and every cell is BLACK |
| Grid.Kept | classic_tetris.py:100 | the filter of clear_lines: keeps the rows holding a BLACK cell, in order; its contract bounds the result by the board's length, and KeptIsOrderedSelection and KeptRowsNotFull give its full meaning |
| Grid.ClearedCount | classic_tetris.py:101 | `GRID_HEIGHT - len(new_grid)`; no contract of its own, ClearedCountIsFullRows gives its meaning (the number of full rows) |
| Grid.ClearedBoard | classic_tetris.py:102 | the empty rows on top of the kept rows; no contract of its own, ClearedBoardShape, NoFullRowRemains, SurvivorsKeepOrder and ClearedCellCount give its meaning |
| Grid.KeptIsOrderedSelection | classic_tetris.py:100 | the rows kept by the filter are exactly the rows holding a BLACK cell, listed by strictly increasing original index |
| Grid.KeptRowsNotFull | classic_tetris.py:100 | no kept row is full |
| Grid.KeptPlusFull | classic_tetris.py:100 | kept rows plus full rows account for every row of the grid |
| Grid.ClearedCountIsFullRows | classic_tetris.py:101 | the count clear_lines returns is the number of rows without a BLACK cell |
| Grid.ClearedBoardShape | classic_tetris.py:102 | after a clear the grid still has GRID_HEIGHT rows of GRID_WIDTH cells, and its top `count` rows are all BLACK |
| Grid.NoFullRowRemains | classic_tetris.py:100-102 | after a clear no row of the grid is full |
| Grid.SurvivorsKeepOrder | classic_tetris.py:100-102 | below the new empty rows, the grid holds exactly the non-full rows of the old grid, in their old relative order |
| Grid.FilledSplit | classic_tetris.py:100-101 | the non-BLACK cells of a grid are those of its kept rows plus GRID_WIDTH for every dropped row |
| Grid.ClearedCellCount | classic_tetris.py:100-102 | a clear reduces the number of non-BLACK cells by exactly `count * GRID_WIDTH` |
| Shapes.Reversed | classic_tetris.py:70 | `shape[::-1]`: the same number of rows, row k being row n-1-k of the shape |
| Shapes.Transposed | classic_tetris.py:70 | `zip(*rows)` with each tuple made a list; no contract of its own, RotatedAt gives its meaning on rectangles, MinLength its length |
| Shapes.Rotated | classic_tetris.py:70 | the shape `rotate` assigns, Transposed of Reversed; no contract of its own, RotatedAt, HalfTurnAt and RotateFourTimes give its meaning |
| Shapes.MinLength | classic_tetris.py:70 | the number of tuples zip yields: no longer than any row, and equal to the length of some row |
| Shapes.RotatedAt | classic_tetris.py:70 | rotating an n×m shape gives an m×n shape with `rotated[i][j] == shape[n-1-j][i]` |
| Shapes.HalfTurnAt | classic_tetris.py:70 | two rotations give an n×m shape with `cell[i][j] == shape[n-1-i][m-1-j]` |
| Shapes.HalfTurnIs | classic_tetris.py:70 | a shape whose cells are those of s read from the opposite corner is s rotated twice |
| Shapes.RotateFourTimes | classic_tetris.py:70 | four rotations give back the original shape |
| Shapes.SquareRotationInvariant | classic_tetris.py:30-31 | the O-shape is unchanged by one rotation |
| Shapes.FirstShapeIsTurnedT | classic_tetris.py:27-34 | the first listed shape is the third listed shape rotated twice, not a straight bar |
| Shapes.ShapesWellFormed | classic_tetris.py:26-50 | the constants SHAPES and SHAPE_COLORS: seven shapes and seven colours; each shape is a rectangle of 2 rows and 2 or 3 columns with four filled cells; no colour is BLACK |
| Tetrominoes.SpawnX | classic_tetris.py:66 | `GRID_WIDTH // 2 - len(shape[0]) // 2`; no contract of its own, SpawnFits says a listed shape there lies on the board and fits the empty one |
| Tetrominoes.Blocked | classic_tetris.py:80 | the refusal test of can_move: left of 0, at or right of GRID_WIDTH, at or below GRID_HEIGHT, or a non-BLACK grid cell when new_y >= 0; cells above row 0 are refused by the walls only. No contract of its own, FitsAt lifts it to whole shapes |
| Tetrominoes.RowFits | classic_tetris.py:76-81 | the inner loop of can_move over one row; no contract of its own, RowFitsAt gives its cell-by-cell reading |
| Tetrominoes.Fits | classic_tetris.py:72-82 | the whole can_move test; no contract of its own, FitsAt gives its cell-by-cell reading and Tetromino.CanMove is proved to compute it |
| Tetrominoes.FitsAt | classic_tetris.py:75-82 | a shape fits at (px, py) exactly when none of its filled cells lands left or right of the walls, below the floor, or on a non-BLACK cell on the board |
| Tetrominoes.InBoundsAt | classic_tetris.py:84-88 | a shape lies on the board exactly when every filled cell's board coordinates are valid grid indices |
| Tetrominoes.FitsInBounds | classic_tetris.py:80 | a shape that fits with its anchor at row 0 or below has every filled cell on the board |
| Tetrominoes.FitsAboveTop | classic_tetris.py:80 | a shape lying wholly above row 0 fits any grid exactly when it fits the empty one. The program never reaches that state, since pieces start at row 0 and only move down; the general rule that cells above row 0 meet only the walls is the `new_y >= 0` guard in Blocked, read through FitsAt |
| Tetrominoes.ListedShapesSpawnSized | classic_tetris.py:26-47 | every listed shape has one or two rows of at most three cells |
| Tetrominoes.SpawnFits | classic_tetris.py:66-67 | such a shape, placed at `x = GRID_WIDTH//2 - len(shape[0])//2`, `y = 0`, lies on the board and fits the empty board |
| Tetrominoes.PlacedNoLongerFits | classic_tetris.py:84-88 | once a piece with a filled cell is locked in a non-BLACK colour, it no longer fits where it was locked |
| Tetrominoes.PlacedKeepsLockedCells | classic_tetris.py:84-88 | locking a piece that fits overwrites no locked cell: every non-BLACK cell keeps its colour |
| Tetrominoes.PlacedShowsPiece | classic_tetris.py:84-88 | after a lock of a piece on the board, every filled cell of the shape shows the piece's colour at its board coordinates |
| Tetrominoes.PlacedAddsCells | classic_tetris.py:84-88 | locking a fitting piece on the board in a non-BLACK colour adds exactly its filled cells to the grid's non-BLACK cells |
| Tetrominoes.GainIsCells | classic_tetris.py:84-88 | summed over the board's rows, a shape lying on the board contributes all of its filled cells |
| Tetrominoes.Placed | classic_tetris.py:84-88 | the board after a lock is still GRID_HEIGHT × GRID_WIDTH |
| Tetrominoes.Tetromino.constructor | classic_tetris.py:63-67 | a new piece keeps its shape and colour, starts at row 0 and is centred by integer division |
| Tetrominoes.Tetromino.Rotate | classic_tetris.py:69-70 | the shape becomes its clockwise rotation; colour and position are unchanged |
| Tetrominoes.Tetromino.CanMove | classic_tetris.py:72-82 | the result is true exactly when the given shape, or the piece's own when none is given, fits at (x + dx, y + dy); nothing is modified |
| Tetrominoes.Tetromino.Place | classic_tetris.py:84-88 | for an in-bounds piece, the grid afterwards is the old grid with the piece's colour at exactly its filled cells' coordinates; every other cell is unchanged |
| Engine.LockCellBalance | classic_tetris.py:130-133 | a lock followed by its clear changes the number of non-BLACK cells by the piece's filled cells minus GRID_WIDTH per cleared row |
| Engine.Game.Valid | classic_tetris.py:127-154 | the invariant the gravity block and the key commands keep: a 20 × 10 grid, the falling piece at row 0 or below and fitting the grid while the game is not over (on the board once it is over), the next piece unmoved at its spawn position; Game.constructor, Tick and Command are proved to keep it |
| Engine.Game.constructor | classic_tetris.py:112-115 | the two drawn pieces at their spawn positions, score 0, game not over; also the empty grid of line 59 and fall time 0 of line 55; and the invariant holds |
| Engine.Game.ClearLines | classic_tetris.py:98-103 | the grid is rebound to a fresh array holding the cleared board, and the count of removed rows is returned |
| Engine.Game.Gravity | classic_tetris.py:128-137 | if the piece fits one row lower it moves down and nothing else changes; otherwise the grid becomes the cleared board with the piece locked in, the score grows by 100 per cleared row, the next piece becomes current, a new next piece is drawn, and game_over is set exactly when the new piece does not fit |
| Engine.Game.Fall | classic_tetris.py:128-129 | a piece that fits one row lower moves down one row and the invariant is kept |
| Engine.Game.Lock | classic_tetris.py:130-137 | lock, clear, score and promote, as in the locking case of Gravity |
| Engine.Game.Promote | classic_tetris.py:134-137 | the next piece becomes current, a fresh piece of the drawn shape and colour becomes next, and game_over is set if the new current piece does not fit |
| Engine.Game.Tick | classic_tetris.py:125-138 | below 500 ms only the counter grows; otherwise one gravity step is taken and the counter is 0. The score never decreases, game_over is never cleared, and the invariant is kept |
| Engine.Game.TryMove | classic_tetris.py:145-150 | the piece moves by (dx, dy) exactly when it fits there, and otherwise is unchanged |
| Engine.Game.TryRotate | classic_tetris.py:151-154 | the piece's shape becomes its rotation exactly when the rotated shape fits where the piece stands, and otherwise is unchanged |
| Engine.Game.Command | classic_tetris.py:144-154 | once the game is over no key changes anything. Otherwise Left, Right and Down move the piece by one cell, and Up rotates it, each only if the result fits. The grid and the piece's colour never change, and the invariant is kept |

## Left out

- pygame initialisation, the window, `draw_grid`, `draw_text` and the drawing of the falling piece: rendering only.
- `clock.tick(FPS)`: the frame's elapsed milliseconds are a parameter of `Tick`.
- `pygame.event.get`, the QUIT event and `sys.exit`: I/O and process control. A key press is the `Key` datatype. A frame's events are a sequence of `Command` calls made after `Tick`.
- `random.choice`: a foreign random generator. The drawn shape and colour are index parameters.
- The RGB values of the colours: only equality with BLACK matters to the rules, so colours are a datatype.
- Shape cells are booleans rather than the integers 0 and 1, because the program only tests their truth.
- Python's negative indexing is not modelled. The invariant keeps the falling piece on the board whenever it is written into the grid, so `place` never indexes outside it.
- Engine.Game.TryMove and Engine.Game.TryRotate: their requires include that the game is not over, because the program only reaches them through the game-over guard. Engine.Game.TryMove also requires dy >= 0, since the keys move the piece down by 0 or 1 rows only.
