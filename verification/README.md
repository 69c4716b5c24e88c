# Tetris and grid-world environments, modelled in Dafny

This project models the game rules behind two small reinforcement-learning
environments.

The first is a Tetris clone. The model covers:

- the seven-shape catalog and its colours;
- the `Piece` record and `get_shape`'s spawn position;
- `create_grid`, `convert_shape_format`, `valid_space`, `check_lost` and
  `clear_rows` from `gym_examples/envs/tetris.py`;
- `reset` and `step` of `TetrisEnv` in `gym_examples/envs/TetrisEnv.py`.

The second is the grid-world environment: the direction table, `step` and
`reset` of `GridWorldEnv` in `gym_examples/envs/grid_world.py`.

Modules, one per component:

| module | file | models |
|---|---|---|
| `Outcomes` | outcomes.dfy | `Option`, for Python exceptions (IndexError, KeyError) |
| `Shapes` | shapes.dfy | shape catalog, colours, 5x5 pattern facts |
| `Pieces` | pieces.dfy | `Piece`, `get_shape`, `convert_shape_format` (`Decode`) |
| `Board` | board.dfy | `create_grid`, `valid_space`, `check_lost` |
| `LineClear` | lineclear.dfy | `clear_rows` as a closed-form map transform, and its properties |
| `ClearLoop` | clearloop.dfy | `clear_rows` as the two loops the code runs, proved equal to the closed form |
| `TetrisEnv` | tetrisenv.dfy | `reset`, `step` (gravity, action, painting, lock, clearing, reward, loss) |
| `GridWorld` | gridworld.dfy | `_action_to_direction`, `step`, `reset` |

How time, randomness and errors are handled:

- Wall-clock time becomes a boolean `tick` argument to `Step`: the fall timer
  has run out.
- The random shape choice becomes a `spawn` catalog index.
- The grid world's random draws are arguments.
- Python's IndexError and KeyError become `None`.

Coordinates follow the code: a cell is `(column, row)`. Rows grow downward,
and rows above the playfield are negative.

Behaviour the model keeps exactly as the code has it:

- **The grid is never rebuilt.** `step` paints the piece into the grid built by
  `reset` and never calls `create_grid` again. Cells painted on earlier steps
  stay painted, including cells the piece has since left. `clear_rows` changes
  only the locked map, so full rows stay painted too.
- **The lock uses the post-action position.** Gravity sets `change_piece`, and
  then the action still runs. The cells locked are those of the piece after
  the action.
- **Locked keys need not be on the board.** Cells with negative rows are locked
  with whatever column they have, and `valid_space` accepts any cell with a
  negative row.
- **Painting uses Python list indexing.** Only cells with row > -1 are written.
  A column in -10..-1 wraps to the other edge; any other out-of-range index
  raises. `TetrisEnv.StepDefined` proves that no write fails from any state
  satisfying `TetrisEnv.Inv`.
- **`clear_rows` shifts only what lies above the topmost full row, by the total
  count.** Suppose the full rows are contiguous and every locked key on a grid
  row has a column that row has. Then nothing is overwritten
  (`LineClear.ClearRowsContiguous`). When a non-full row lies between two full
  rows, it is not compacted. The entry moved down from above lands on it and
  replaces what was there (`LineClear.ClearRowsGapOverwrites`).

## Model

| member | source | states |
|---|---|---|
| `Shapes.CatalogTetrominoes` | gym_examples/envs/tetris.py:18-120 | every rotation state of every shape is 5 lines of 5 characters over '.' and '0', with exactly four '0' cells |
| `Shapes.CatalogStateCounts` | gym_examples/envs/tetris.py:18-120 | every shape has one to four rotation states |
| `Shapes.ColourOf` | gym_examples/envs/tetris.py:121 | no shape is coloured black, the empty-cell colour |
| `Pieces.MakePiece` | gym_examples/envs/tetris.py:124-130 | a new piece takes one catalog entry's shape and (non-black) colour, at the given position with rotation 0 |
| `Pieces.Spawn` | gym_examples/envs/tetris.py:179-180 | get_shape's piece: the chosen catalog entry at (5, 0), rotation 0 |
| `Pieces.Decode` | gym_examples/envs/tetris.py:143-156 | convert_shape_format: as many cells as the selected state has '0' marks; its meaning is carried by DecodeMembers, DecodeShape, DecodeFour and the shift lemmas below |
| `Pieces.DecodeFour` | gym_examples/envs/tetris.py:143-156 | a catalog piece always decodes to exactly four cells, in any rotation and at any position |
| `Pieces.DecodeMembers` | gym_examples/envs/tetris.py:143-156 | a cell is decoded iff some '0' at line i, column j of state rotation mod n gives it as (x + j - 2, y + i - 4) |
| `Pieces.DecodeShape` | gym_examples/envs/tetris.py:147-154 | decoded cells come in row-major order and lie in the box [x-2, x+2] x [y-4, y] |
| `Pieces.DecodeShiftX` | gym_examples/envs/tetris.py:151-154 | adding d to the piece's x adds d to the column of every decoded cell, in the same order |
| `Pieces.DecodeShiftY` | gym_examples/envs/tetris.py:151-154 | adding d to the piece's y adds d to the row of every decoded cell, in the same order |
| `Pieces.DecodeRotationPeriodic` | gym_examples/envs/tetris.py:145 | the rotation index only matters modulo the number of states |
| `Pieces.CatalogFormat` | gym_examples/envs/tetris.py:124-130 | a piece built from the catalog always reads a well-formed 5x5 state, whatever its rotation index |
| `Board.CreateGrid` | gym_examples/envs/tetris.py:133-140 | the grid has 20 rows of 10 cells; cell (x, y) holds locked[(x, y)] when that key is present and black otherwise |
| `Board.CreateGridIgnoresOffBoard` | gym_examples/envs/tetris.py:133-140 | two locked maps that agree on the 10x20 board give the same grid, whatever keys they hold off the board |
| `Board.ValidSpace` | gym_examples/envs/tetris.py:158-168 | true iff every decoded cell with row >= 0 is inside the grid and black there; cells with negative rows are accepted in any column |
| `Board.ValidSpaceOnBoard` | gym_examples/envs/tetris.py:158-168 | on a 20x10 grid, a valid piece has every cell with row >= 0 on the board |
| `Board.CheckLost` | gym_examples/envs/tetris.py:171-176 | the loop returns true iff some locked key has row < 1, and false on an empty map |
| `LineClear.ClearRows` | gym_examples/envs/tetris.py:200-220 | clear_rows as a map transform: its count is the number of full rows counted from the top; what happens to each key is carried by the ClearRows lemmas below, and ClearLoop.ClearRowsLoop proves it equal to the two loops |
| `LineClear.ClearRowsCount` | gym_examples/envs/tetris.py:200-206 | the count returned is the number of grid rows holding no black cell |
| `LineClear.ClearRowsNoFullRows` | gym_examples/envs/tetris.py:200-214 | with no full row the locked map is returned unchanged |
| `LineClear.ClearRowsDropsFullRows` | gym_examples/envs/tetris.py:203-218 | a key of a full row that is present afterwards holds the entry moved down from count rows above the topmost full row, never its own |
| `LineClear.ClearRowsShiftsAbove` | gym_examples/envs/tetris.py:213-218 | every entry above the topmost full row reappears exactly count rows lower with its colour |
| `LineClear.ClearRowsKeepsBelow` | gym_examples/envs/tetris.py:213-218 | an entry outside the full rows at or below the topmost full row keeps its key and colour unless a moved entry lands on it |
| `LineClear.ClearRowsContiguous` | gym_examples/envs/tetris.py:207-218 | when the full rows are contiguous and every locked key on a grid row has a column that row has, no entry outside the full rows is lost: entries below stay, entries above move down by the count |
| `LineClear.ClearRowsGapOverwrites` | gym_examples/envs/tetris.py:213-218 | with full rows a and a + 2 only, the entry from row a - 1 replaces the one at row a + 1, and row a + 2 is left empty |
| `ClearLoop.ClearRowsLoop` | gym_examples/envs/tetris.py:200-220 | the two loops of clear_rows return exactly the count and map of the closed form |
| `ClearLoop.DeleteFullRows` | gym_examples/envs/tetris.py:202-211 | the bottom-up scan counts the full rows, ends with ind at the topmost one and deletes exactly the keys of full rows |
| `ClearLoop.ShiftDown` | gym_examples/envs/tetris.py:213-218 | visiting keys from the largest row down and re-keying those above ind gives the kept entries overlaid with the shifted ones |
| `TetrisEnv.Reset` | gym_examples/envs/TetrisEnv.py:57-79 | reset: all-black 20x10 grid, nothing locked, score 0, no pending lock, running, current and next pieces spawned from the two chosen shapes; ResetFacts adds the step invariant |
| `TetrisEnv.Step` | gym_examples/envs/TetrisEnv.py:81-156 | step: when painting does not raise, truncated is false, the score is unchanged, change_piece ends false and the game stops exactly on termination; the lemmas StepDefined to StepPaints carry the rest |
| `TetrisEnv.ResetFacts` | gym_examples/envs/TetrisEnv.py:57-79 | reset gives no locked cells, an all-black 20x10 grid, score 0, no pending lock, the game running, both pieces at (5, 0) with rotation 0, and the step invariant |
| `TetrisEnv.SpawnFacts` | gym_examples/envs/tetris.py:179-180 | a new piece comes from the catalog, at row 0 and rotation 0, with every visible cell on the board |
| `TetrisEnv.Gravity` | gym_examples/envs/TetrisEnv.py:97-102 | on a tick the piece moves down one row unless that place is not free and the new row is positive; then it stays and change_piece is set |
| `TetrisEnv.ApplyAction` | gym_examples/envs/TetrisEnv.py:105-124 | left, right and down move the piece one square exactly when the new place is free; rotate keeps a free turn and otherwise turns back; other actions do nothing; shape and colour never change |
| `TetrisEnv.TurnRoundTrip` | gym_examples/envs/TetrisEnv.py:113-116 | turning back undoes a turn, and a turn keeps an in-range rotation in range |
| `TetrisEnv.ActionOutcome` | gym_examples/envs/TetrisEnv.py:105-124 | after any action the rotation is still in range, and the piece either did not move or stands on a free place |
| `TetrisEnv.PyIndex` | gym_examples/envs/TetrisEnv.py:133 | Python list indexing: -n..n-1 is accepted, negative indices counting from the end; everything else raises |
| `TetrisEnv.Overlay` | gym_examples/envs/TetrisEnv.py:130-133 | the painting loop keeps the grid's row count and row lengths, and leaves the grid as it was when no cell has row > -1; OverlayOnBoard gives the painted cells |
| `TetrisEnv.OverlayOnBoard` | gym_examples/envs/TetrisEnv.py:127-133 | painting on-board cells succeeds, keeps the 20x10 shape, paints exactly those cells and leaves every other cell unchanged |
| `TetrisEnv.Lock` | gym_examples/envs/TetrisEnv.py:136-139 | every decoded cell, negative rows included, becomes a locked key with the piece's colour; other keys keep theirs |
| `TetrisEnv.Finish` | gym_examples/envs/TetrisEnv.py:146-149 | terminated iff the locked map loses, then 50 is subtracted and the game stops; truncated is false |
| `TetrisEnv.StepDefined` | gym_examples/envs/TetrisEnv.py:81-156 | from a state satisfying the invariant, step never raises |
| `TetrisEnv.StepPreservesInv` | gym_examples/envs/TetrisEnv.py:81-156 | step keeps the invariant: 20x10 grid, catalog piece with in-range rotation, row index at least 0 and visible cells on the board, spawned next piece, no pending lock |
| `TetrisEnv.StepWithoutLock` | gym_examples/envs/TetrisEnv.py:127-149 | a step without a lock keeps the locked map and the next piece, and rewards 0, or -50 when the map already loses |
| `TetrisEnv.StepWithLock` | gym_examples/envs/TetrisEnv.py:136-149 | a locking step clears rows of the painted grid, rewards 10 per full row less 50 on a loss, promotes the next piece and spawns a new one |
| `TetrisEnv.StepBookkeeping` | gym_examples/envs/TetrisEnv.py:81-156 | truncated is always false, the score never changes, change_piece ends false, and the game stops exactly on termination |
| `TetrisEnv.StepPaints` | gym_examples/envs/TetrisEnv.py:127-133 | painted cells are never erased, and every visible cell of the moved piece shows its colour afterwards |
| `GridWorld.Direction` | gym_examples/envs/grid_world.py:28-33 | exactly the actions 0 to 3 have a direction, each a unit step along one axis |
| `GridWorld.DirectionsOpposite` | gym_examples/envs/grid_world.py:28-33 | actions a and a + 2 (mod 4) point in opposite directions, and the four directions differ |
| `GridWorld.Clip` | gym_examples/envs/grid_world.py:84-86 | clipping lands in [lo, hi], leaves values already inside unchanged, and sends values outside to the nearer bound |
| `GridWorld.Step` | gym_examples/envs/grid_world.py:80-97 | defined for actions 0 to 3 only; the target and size stay; terminated iff the agent reaches the target; reward 1 iff terminated, else 0; truncated false |
| `GridWorld.StepStaysInGrid` | gym_examples/envs/grid_world.py:84-86 | on a non-empty grid the agent always ends inside it |
| `GridWorld.StepMovesOneSquare` | gym_examples/envs/grid_world.py:82-86 | from inside the grid the agent moves one square in the action's direction, or stays when that square is outside |
| `GridWorld.StepUndo` | gym_examples/envs/grid_world.py:82-86 | a move the edge did not block is undone by the opposite action |
| `GridWorld.StepDistance` | gym_examples/envs/grid_world.py:82-91 | one step changes the Manhattan distance to the target by at most one |
| `GridWorld.Reset` | gym_examples/envs/grid_world.py:56-68 | with agent and draws in the grid, the target is the first draw that differs from the agent, so both lie in the grid, are distinct, and the grid is at least 2x2; an empty grid raises (None); if every draw equals the agent, no world results |
| `GridWorld.ResetWorld` | gym_examples/envs/grid_world.py:61-68 | distinct agent and target inside the grid need a grid of at least 2x2, and stand at distance at least 1 |

## Left out

- Rendering and windowing are not modelled, because they are calls into the
  drawing library. This covers `draw_text_middle`, `draw_grid`,
  `draw_window`, `TetrisEnv.render`/`close`, and grid-world `render`,
  `_render_frame` and `close`.
- The commented-out `main` loop in tetris.py is dead code and is not modelled.
- Wall-clock timing, the fall-speed ramp and `pygame.time.Clock` are not
  modelled. They decide only whether the fall happens this step, so the model
  takes that as the `tick` argument.
- `random.choice` in `get_shape`, the seeding, and the grid world's random
  draws are not modelled. The chosen shape index and positions are arguments.
- The info dictionary's float distance (`np.linalg.norm`, ord 1) is modelled
  only as the integer Manhattan distance `GridWorld.Distance`.
- The gym space declarations, the debug `print` calls and the screen-size
  constants are not modelled. None of them affects the game state.
- The observation returned by `step` and `reset` is the state itself
  (`game.grid` or the grid world). No arrays are built.
- TetrisEnv.Step: requires a 20x10 grid instead of modelling `valid_space` on
  a ragged grid. Every grid the environment holds is 20x10: `reset` builds one,
  and `TetrisEnv.StepPreservesInv` shows `step` keeps it so.
- GridWorld.Reset: a finite list of draws stands for the random stream. When
  every given draw equals the agent, the result is None; the source's loop
  would keep drawing. On a non-empty grid the agent and every draw must lie in
  the grid, which is the generator's range; on an empty grid the generator
  raises ValueError, and the model returns None without using any draw.
- LineClear.ClearRowsGapOverwrites: states the overwrite for one pattern of
  full rows (two full rows with one non-full row between them). It does not
  characterise every non-contiguous layout; `LineClear.ClearRowsAt` gives each
  key's fate in general.
