# Dinomite engine, modelled in Dafny

Dinomite is a terminal minesweeper in which the mines are dinos. The model covers
the game engine, `src/components/lib/dinomite.rs`. This engine owns:

- a `width` x `height` board of `Position(x, y)` cells;
- the set of hidden dinos;
- the set of uncovered (`seen`) cells;
- the set of flags;
- the two terminal flags `game_over` and `won`.

The model has three modules.

- `Field` (`field.dfy`) is the board geometry, as pure functions:
  - the cells of the board;
  - the clamped neighbourhood of a cell. It is built from eight candidates with saturating
    decrement and `min(c + 1, dim - 1)`, then deduplicated keeping first occurrences;
  - the number of dinos around a cell;
  - the flood-fill relation `Reaches`. `Reaches(…, seen, p, q)` holds when a path of
    uncoverable cells leads from `p` to `q`, and every cell of the path except the last has
    no dino around it.
  - `Closed` says that a set of uncovered cells is closed under the cascade.
- `Engine` (`engine.dfy`) holds the `Dinomite` class. Its fields are updated in place by:
  - the constructor (`Dinomite::new`), with the rejection-sampling placement of the dinos;
  - `CheckPosition` (`check_position`). Its guards are in `CheckPosition`; the reveal of a
    fresh cell, with its recursive cascade, is in `Uncover`;
  - `ToggleFlag` (`toggle_flag`).

  It also holds the getters and the per-cell classification that `Display::fmt` draws
  (`CellAt`, `ShowCell`, `Render`). `Valid()` is the class invariant that every operation
  keeps:
  - dinos and flags lie on the board;
  - uncovered cells are safe and never flagged;
  - there are never more flags than dinos;
  - `won` implies `game_over`;
  - `won` holds exactly when every safe cell is uncovered and at least one cell is uncovered.
- `Scenarios` (`scenarios.dfy`) replays the unit tests of `dinomite.rs` on the model, one
  member per test (`test_check_win` and `test_check_pos_clear` are split into a few). Each
  outcome a test asserts becomes a postcondition.

The central property is the postcondition of `CheckPosition`. When a covered, unflagged,
safe cell `p` is uncovered in a running game:

- `p` becomes uncovered;
- the result is `Clear` if no dino is around `p`, and `DinosInSurrounding(n)` otherwise;
- the new uncovered set is exactly the old one plus every cell the cascade reaches from `p`;
- the game ends exactly when it is won.

The guard cases are stated separately: `Over`, `Flagged`, `Dino` (a loss) and `Clear` on a
cell that was already uncovered.

`get_neighbors` clamps its eight candidates to the board instead of dropping the ones that
fall off it. A cell on the border of the board is therefore its own neighbour: `test_neighbors`
expects the neighbourhood `{(0,0), (0,1), (1,0), (1,1)}` for corner `(0, 0)`.
`NeighborsShape` states the exact neighbourhood. Counts are unaffected, because a cell's
count is only taken when the cell holds no dino. The cascade is unaffected too, because
revealing an uncovered cell again does nothing.

## Model

| member | source | states |
|---|---|---|
| Field.Cells | src/components/lib/dinomite.rs:210-212 | the cells of the board are exactly the positions with `x < width` and `y < height` |
| Field.CellsCount | src/components/lib/dinomite.rs:131 | the board has `width * height` cells, the total the win prediction subtracts from |
| Field.OnBoardCount | src/components/lib/dinomite.rs:131 | a set of cells on the board has at most `width * height` elements, and fewer when it misses a cell, so `width * height - dinos - 1` cannot underflow once `pos` is a safe cell |
| Field.SaturatingDec | src/components/lib/dinomite.rs:159-169 | `saturating_sub(1)` lowers a coordinate by one, and leaves it alone exactly when it is 0 |
| Field.ClampInc | src/components/lib/dinomite.rs:159-169 | `min(c + 1, dim - 1)` stays on the board, never exceeds `c + 1`, is `c + 1` or the last index, and never falls below an on-board `c` |
| Field.CandidatesNear | src/components/lib/dinomite.rs:158-170 | there are always eight candidates, each on the board and within one step of `p` in each coordinate |
| Field.LastSafeCell | src/components/lib/dinomite.rs:131-136 | with the uncovered cells safe and `pos` a further safe cell, `width * height - dinos - 1` does not underflow, and the uncovered count equals it exactly when uncovering `pos` uncovers the last safe cell |
| Field.Unique | src/components/lib/dinomite.rs:171 | deduplication yields a duplicate-free list with the same elements, no longer than its input |
| Field.NeighborList | src/components/lib/dinomite.rs:157-171 | the neighbour list has no duplicates, at most 8 entries, and exactly the elements of the eight clamped candidates |
| Field.Neighbors | src/components/lib/dinomite.rs:157-172 | a cell is its own neighbour exactly when it lies on the border of the board |
| Field.NeighborsShape | src/components/lib/dinomite.rs:157-171 | `q` is a neighbour of `p` iff `q` is on the board, differs from `p` by at most one in each coordinate, and, when `q == p`, `p` lies on the border |
| Field.NearIsNeighbor | src/components/lib/dinomite.rs:157-171 | every other on-board cell adjacent to `p` is a neighbour of `p` |
| Field.FarIsNoNeighbor | src/components/lib/dinomite.rs:157-171 | a cell that is not adjacent to `p` is not a neighbour of `p` |
| Field.NeighborsBounded | src/components/lib/dinomite.rs:157-171 | neighbours lie on the board, and there are as many as list entries, at most 8 |
| Field.DinoCount | src/components/lib/dinomite.rs:173-181 | the count of dinos around a cell is at most 8 and at most the number of dinos |
| Field.DinoCountAdjacent | src/components/lib/dinomite.rs:173-181 | for a cell without a dino, the count equals the number of dinos adjacent to it in the usual sense, at most 8 |
| Field.ReachesSelf | src/components/lib/dinomite.rs:144 | an uncoverable cell reaches itself |
| Field.ReachesStep | src/components/lib/dinomite.rs:143-147 | whatever a neighbour reaches, as the cascade proceeds, is reached from the zero-count cell that spread to it |
| Field.ReachesCounted | src/components/lib/dinomite.rs:150-152 | from a cell with dinos around it the cascade reaches that cell only |
| Field.ClosedHoldsReach | src/components/lib/dinomite.rs:143-147 | a set of uncovered cells that holds `p` and is closed under the cascade holds every cell `p` reaches |
| Field.ClosedTrans | src/components/lib/dinomite.rs:145-147 | closure composes across successive recursive reveals |
| Field.ClosedStart | src/components/lib/dinomite.rs:143-147 | once the neighbours of `p` are covered, the region uncovered since before `p` is closed |
| Engine.InsertBatch | src/components/lib/dinomite.rs:63-68 | inserting the drawn positions of one batch stops exactly when `count` dinos are placed; the dinos are the old ones plus the inserted prefix of the batch |
| Engine.PlaceDinos | src/components/lib/dinomite.rs:59-80 | rejection sampling places exactly `count` distinct dinos, all drawn from the batches used and all on the board |
| Engine.RandomBatches | src/components/lib/dinomite.rs:36-43 | a run of draws zipped from `get_random_numbers(count, width)` and `get_random_numbers(count, height)` (lines 60-61, 70-71) holds only cells of the board |
| Engine.DrawnOnBoard | src/components/lib/dinomite.rs:36-43 | every drawn position lies on the board, because each coordinate is drawn below its bound |
| Engine.FlagsAfterToggle | src/components/lib/dinomite.rs:182-198 | a toggle leaves the flags alone after the game ends or on an uncovered cell; in a running game on a covered cell it removes a flag on `p`, plants one when there are fewer flags than dinos, and otherwise changes nothing; it keeps flags at most as many as dinos and disjoint from the uncovered cells |
| Engine.ToggleTwice | src/components/lib/dinomite.rs:182-198 | a toggle that changed the flags is undone by the same toggle |
| Engine.PlantAndRemoveFlag | src/components/lib/dinomite.rs:182-198 | on a covered, unflagged cell of a running game with flags to spare, a toggle plants a flag and a second toggle restores the old flags |
| Engine.DefaultBoard | src/components/lib/dinomite.rs:31-35 | the default board is 9 x 8 with 9 dinos and a fresh game state |
| Engine.Dinomite.constructor | src/components/lib/dinomite.rs:48-86 | the requested dino count is clamped to `width * height`; exactly that many dinos are placed; nothing is uncovered or flagged; the game is running; `Valid()` holds |
| Engine.Dinomite.NumDinos | src/components/lib/dinomite.rs:101-103 | the dino count never exceeds the number of cells |
| Engine.Dinomite.IsGameOver | src/components/lib/dinomite.rs:200-202 | a game that is not over is not won |
| Engine.Dinomite.IsWon | src/components/lib/dinomite.rs:203-205 | the game is won iff every safe cell is uncovered (and there is one), and a won game is over |
| Engine.Dinomite.ToggleFlag | src/components/lib/dinomite.rs:182-198 | the new flags are `FlagsAfterToggle` of the old state; nothing else changes; `Valid()` is kept |
| Engine.Dinomite.NeighboringDinoCount | src/components/lib/dinomite.rs:173-181 | the loop counts the dinos among the neighbours, i.e. `DinoCount` |
| Engine.Dinomite.Uncover | src/components/lib/dinomite.rs:131-154 | on a covered, unflagged, safe cell of a running game: the cell is uncovered, the result is its count, the new uncovered set is the old one plus exactly the cells the cascade reaches, and the game ends iff it is won; `Valid()` is kept |
| Engine.Dinomite.RevealedCovers | src/components/lib/dinomite.rs:143-148 | once the cells uncovered since `before` are reached from `p` and closed under the cascade, they are exactly the cells `p` reaches |
| Engine.Dinomite.CheckPosition | src/components/lib/dinomite.rs:111-155 | the guard results `Over`, `Flagged`, `Dino` (a loss) and `Clear` on an uncovered cell, each with its state change; on a fresh safe cell the result is its count, the new uncovered set is the old one plus exactly the cells the cascade reaches, and the game ends iff it is won; `Valid()` is kept |
| Engine.Dinomite.Cascade | src/components/lib/dinomite.rs:143-148 | revealing every neighbour of a zero-count cell uncovers only reachable cells and leaves the uncovered region closed |
| Engine.Dinomite.VisitNeighbor | src/components/lib/dinomite.rs:145-147 | one recursive reveal keeps the cascade invariant and covers its neighbour (uncovered or flagged) |
| Engine.Dinomite.CellAt | src/components/lib/dinomite.rs:210-283 | how each cell is shown in the won, lost and running tables: a flag only while running; a correct flag or a dino only once the game is over; a wrong flag only after a loss; a count exactly on uncovered, unflagged, safe cells |
| Engine.Dinomite.ShowCell | src/components/lib/dinomite.rs:214-283 | one cell of the drawing, counting the dinos by the loop, agrees with `CellAt` |
| Engine.Dinomite.RenderRow | src/components/lib/dinomite.rs:211-285 | one row of the drawing has `width` cells, column `x` showing `CellAt(Position(x, y))` |
| Engine.Dinomite.Render | src/components/lib/dinomite.rs:208-288 | the drawing has `height` rows of `width` cells, row `y` column `x` showing `CellAt(Position(x, y))` |
| Engine.Dinomite.WonBoard | src/components/lib/dinomite.rs:214-237 | in a won game every flag is on a dino, so the "should never happen" case is impossible, and no cell is left hidden |
| Engine.Dinomite.LostBoard | src/components/lib/dinomite.rs:238-264 | after a loss a cell holds a dino iff it is shown as a dino or a correct flag |
| Engine.Dinomite.RunningBoard | src/components/lib/dinomite.rs:265-283 | while the game runs, cells are only hidden, flagged or counted, and no dino is shown |
| Scenarios.EmptyBoard | src/components/lib/dinomite.rs:48-86 | `Dinomite::new(width, height, 0)` makes an empty, running, valid board |
| Scenarios.CornerNeighbors | src/components/lib/dinomite.rs:321-338 | the neighbourhood of corner `(0, 0)` on a 10 x 10 board is `{(0,0), (0,1), (1,0), (1,1)}` |
| Scenarios.Surrounding | src/components/lib/dinomite.rs:340-350 | uncovering `(0, 1)` next to three dinos returns `DinosInSurrounding(3)` |
| Scenarios.ToggleFlags | src/components/lib/dinomite.rs:352-369 | a flagged cell reports `Flagged`; after unflagging it and flagging two cells, two flags remain |
| Scenarios.CornerRegion | src/components/lib/dinomite.rs:371-390 | a cascade-closed region of a 5 x 5 board with a corner dino that holds the far corner holds every safe cell |
| Scenarios.ClearCascade | src/components/lib/dinomite.rs:371-390 | uncovering `(4, 4)` uncovers all 24 safe cells, which wins the game |
| Scenarios.DinoCountAfterReveal | src/components/lib/dinomite.rs:392-407 | the count at `(1, 1)` next to two dinos is 2 |
| Scenarios.Loss | src/components/lib/dinomite.rs:408-420 | uncovering the dino ends the game as a loss |
| Scenarios.RevealNextToDino | src/components/lib/dinomite.rs:421-444 | uncovering a cell next to a dino uncovers that cell alone |
| Scenarios.WinInAnyOrder | src/components/lib/dinomite.rs:421-444 | with the middle dino of a 3 x 3 board flagged, uncovering the other eight cells in any order wins |
| Scenarios.WinOrderCovers | src/components/lib/dinomite.rs:428-437 | the test's eight reveals cover every cell but the middle one |
| Scenarios.Win | src/components/lib/dinomite.rs:421-444 | the test's reveals end in a won, finished game |
| Scenarios.FlagProtection | src/components/lib/dinomite.rs:445-459 | uncovering a flagged dino returns `Flagged` and the game goes on |
| Scenarios.FiveDinos | src/components/lib/dinomite.rs:297-303 | a 10 x 10 board asked for five dinos holds five, whatever the draws, and is drawn as 10 rows of 10 hidden cells |
| Scenarios.SixDinos | src/components/lib/dinomite.rs:461-466 | a 10 x 10 board asked for six dinos has six, whatever the draws |
| Scenarios.FullBoard | src/components/lib/dinomite.rs:304-310 | asking for 100 dinos on a 10 x 10 board fills every cell |

## Left out

- Randomness: `get_random_numbers` is not modelled. `Dinomite::new` takes the random draws
  as `batches`. Each batch stands for one pair of coordinate vectors zipped together.
- Engine.Dinomite.constructor: it requires that the batches hold at least the requested
  number of distinct cells. The source's `while` loop draws until that happens, which ends
  only with probability 1.
- Glyphs: the emoji and digits that `Display::fmt` writes, and the `write!` plumbing, are
  left out. `CellView` names the case behind each glyph, so cases that share a glyph stay
  apart and cases with different glyphs may share a view:
  - a hidden cell is 🌺 when won, 🍂 when lost and 🌿 while running; all three are `Hidden`;
  - a count of zero is 🌠 when won and 🔲 both when lost and while running; all three are
    `Revealed(0)`;
  - a correct flag is 😼 when won and 😬 when lost; both are `CorrectFlag`.
  The game state tells the glyphs within a view apart.
- The second `flags.contains(pos)` test in `check_position` (lines 125-127) is not modelled.
  It cannot be reached, because the same test at lines 115-117 has already returned.
- `get_width` and `get_height` are not separate members; `width` and `height` are public
  constant fields of the class.
- Integer widths: `width * height` is unbounded here. A `usize` overflow of that product on
  huge boards is not modelled.
- Engine.Dinomite.CheckPosition and Engine.Dinomite.ToggleFlag: both require an on-board
  position. The only caller, the game screen, keeps its cursor on the board. An off-board
  position would put an off-board cell into `seen` or `flags`.
- `reconfigure` and `test_reset` are commented out in the source and are not modelled.
- `src/components/game.rs` (the terminal UI, cursor and timer) and `src/cli.rs` (argument
  parsing) are not part of this model.
- Field.Unique: its body keeps the first occurrence of every element, in order, as
  `unique()` does, but its contract does not state that order. It states only that the
  result is duplicate-free, has the same elements and is no longer. The final uncovered
  set and the dino count do not depend on the order.
- Field.NeighborList keeps the order of first occurrences that `unique()` yields. The
  cascade's postcondition does not depend on that order.
