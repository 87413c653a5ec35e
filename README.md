# Game of Life universe

A model of the `Universe` of a WebAssembly Game-of-Life crate (`src/lib.rs`): a toroidal
grid of `width` x `height` cells, each `Dead` or `Alive`, kept in one row-major buffer.
The universe is built from a fixed seed pattern or all dead, advanced one generation at
a time under the B3/S23 rule (born with three live neighbours, survives with two or
three), and edited in place: a cell toggled or set, the grid cleared or randomised, a
glider stamped, or the grid resized with its top-left overlap kept.

The project has five modules:

- `Grid` (`grid.dfy`): the cell type, the row-major index mapping and its inverse, reading
  and replacing one cell, counting live cells, and the seed pattern.
- `Rules` (`rules.dfy`): the live-neighbour count, computed the way the source computes it
  over the offset lists `[height - 1, 0, 1]` x `[width - 1, 0, 1]` with every `(0, 0)`
  pair skipped; the B3/S23 rule for one cell; the next generation of a whole grid; and an
  independent eight-neighbour torus count that agrees with it once both sides are at
  least 2.
- `Edits` (`edits.dfy`): the positions a glider stamp sets alive, and the grid a resize
  produces, both as functions of the old grid, with the loop states of the resize copy.
- `Life` (`universe.dfy`): the `Universe` class. Its fields are `width`, `height` and
  `cells`, and `Valid()` states `|cells| == width * height`. Each method updates the fields
  in place, with loops where the source has them, and is proved against the functions of
  the first three modules.
- `Scenarios` (`scenarios.dfy`): callers of the class. They derive behaviours a caller
  relies on from the method contracts alone: toggling twice restores the grid, an empty
  universe stays empty across a tick, a cleared universe has no live cell, a glider on an
  empty grid is five live cells, and a 4 x 4 grid resized to 2 x 2 or 6 x 6 keeps its
  overlap.

Three facts about the code shape the model:

- The code checks no bounds and no dimensions, and returns no errors. Out-of-range
  coordinates, and a zero side in `set_glider`, are therefore preconditions here, not
  error results.
- `tick` on a grid with a zero side is a no-op, because its loops never run. The model's
  `Tick` accepts such a grid, and `NextGeneration` of an empty buffer is empty.
- The neighbour count does not always range over 8 distinct cells. On a side of length 1
  the code counts the same cell more than once, and can count the cell itself.
  `Rules.SingleCellCountsItselfFiveTimes` shows this on a 1 x 1 grid.

Integers are unbounded `nat`s. The source's `u32` arithmetic is not modelled (see below).

## Model

| member | source | states |
|---|---|---|
| Grid.CellValue | src/lib.rs:176 | the `as u8` cast of a cell adds 1 for Alive and 0 for Dead (discriminants at src/lib.rs:20-23), never more than 1 |
| Grid.At | src/lib.rs:175 | the buffer read through `get_index` at (row, col) |
| Grid.Flip | src/lib.rs:120-123 | toggling stores the other state, never the same one |
| Grid.Index | src/lib.rs:161-163 | the row-major position of (row, col) gives back row as its quotient by the width and col as its remainder, so distinct in-range coordinates have distinct positions |
| Grid.IndexInGrid | src/lib.rs:161-163 | every in-range coordinate pair has a position inside the width * height buffer |
| Grid.IndexOfPosition | src/lib.rs:161-163 | every position of the buffer is the index of the in-range pair (i / width, i % width), so the mapping is onto |
| Grid.SameGrid | src/lib.rs:161-163 | two buffers of one shape that agree at every coordinate are equal |
| Grid.WithCell | src/lib.rs:126-129 | writing a cell at (row, col) makes that coordinate hold the new cell, keeps the buffer length and leaves every other coordinate unchanged |
| Grid.ToggleTwice | src/lib.rs:118-124 | flipping the same cell twice gives back the original grid |
| Grid.AllDead | src/lib.rs:56-57 | the all-dead buffer has the requested length and no live cell |
| Grid.CountAlive | src/lib.rs:204-206 | the live count is at most the buffer length and equals the number of occurrences of Alive in the buffer |
| Grid.CountAliveIsCardinality | src/lib.rs:204-206 | the live count equals the number of positions holding a live cell |
| Grid.CountAliveZero | src/lib.rs:204-206 | the live count is zero exactly when every cell is dead |
| Grid.SeedPattern | src/lib.rs:39-47 | the seed buffer has one cell per position, as many as requested |
| Grid.SeedPatternAliveCount | src/lib.rs:39-47 | the seed of n cells holds 8 * (n / 14) + (n % 14 + 1) / 2 live cells, plus one when n % 14 >= 8 |
| Grid.DefaultSeedAliveCount | src/lib.rs:34-36 | the default 64 x 64 universe starts with 2341 live cells |
| Rules.Deltas | src/lib.rs:167-168 | the offset list has three entries, the middle one being 0 |
| Rules.Contribution | src/lib.rs:169-176 | one offset pair adds at most 1 to the count, nothing for a (0, 0) pair |
| Rules.RowSum | src/lib.rs:168-177 | one row of offsets adds at most one per column offset |
| Rules.OffsetSum | src/lib.rs:167-178 | the offset lists add at most one per pair |
| Rules.LiveNeighbors | src/lib.rs:165-180 | the live-neighbour count never exceeds 8 |
| Rules.NineContributions | src/lib.rs:167-178 | the count is the sum of the nine pair contributions, in the order the loops visit them |
| Rules.NextCell | src/lib.rs:87-102 | the next state is Alive exactly when the count is 3, or when the cell is alive and the count is 2 |
| Rules.NextGeneration | src/lib.rs:78-109 | the next grid has the same length and holds, at every coordinate, the rule applied to the old cell and its count over the old grid |
| Rules.NoNeighborsInDeadGrid | src/lib.rs:165-180 | in an all-dead grid every cell counts zero live neighbours |
| Rules.DeadGridStaysDead | src/lib.rs:78-109 | an all-dead grid is all dead after a generation |
| Rules.WrapSteps | src/lib.rs:173-174 | adding side - 1 wraps to one step back, adding 1 to one step forward, both inside the side |
| Rules.LiveNeighborsOnTorus | src/lib.rs:165-180 | with both sides at least 2 the count equals the sum over the eight distinct torus neighbours |
| Rules.SingleCellCountsItselfFiveTimes | src/lib.rs:167-171 | on a live 1 x 1 grid the count is 5, not 8 as the torus reading would give, and the cell dies |
| Edits.GliderPattern | src/lib.rs:150-152 | the glider's five (row offset, column offset) pairs, in the order the stamp loop visits them |
| Edits.Target | src/lib.rs:155-156 | a stamped offset, each coordinate wrapped around its side, lands inside the buffer |
| Edits.Targets | src/lib.rs:154-158 | every position a stamp sets alive is inside the buffer |
| Edits.GliderTargets | src/lib.rs:150-157 | the glider stamp sets exactly its five wrapped offsets (0, 1), (1, 2), (2, 0), (2, 1), (2, 2) |
| Edits.ThreeApart | src/lib.rs:155-156 | three consecutive coordinates wrap to three distinct ones on a side of at least 3 |
| Edits.GliderHasFiveCells | src/lib.rs:149-159 | on a grid of at least 3 x 3 the glider covers five distinct cells |
| Edits.Resized | src/lib.rs:183-201 | the resized grid has new width * new height cells; inside the overlap each coordinate keeps its old cell, outside it the cell is dead |
| Edits.ResizeToSameShape | src/lib.rs:183-201 | resizing to the same shape changes nothing |
| Edits.GrowThenShrink | src/lib.rs:183-201 | growing and then shrinking back to the old shape restores the old grid |
| Edits.NothingCopied | src/lib.rs:184 | before any copy the new all-dead buffer satisfies the copy invariant at (0, 0) |
| Edits.CopyOneCell | src/lib.rs:192-194 | copying the overlap cell at (row, col) advances the copy invariant by one column |
| Edits.CopyRowDone | src/lib.rs:190-196 | a row copied up to the narrower width is a row copied in full |
| Edits.CopyDone | src/lib.rs:187-200 | once every overlap row is copied the new buffer is the resized grid |
| Life.Universe.Valid | src/lib.rs:26-30 | the struct's invariant: the buffer holds width * height cells |
| Life.Universe.constructor | src/lib.rs:34-36 | the default universe is 64 x 64 in the seed pattern |
| Life.Universe.WithSize | src/lib.rs:38-54 | a sized universe has the given sides and the seed pattern, cell i alive when i is even or a multiple of 7 |
| Life.Universe.Empty | src/lib.rs:56-64 | an empty universe has the given sides and only dead cells |
| Life.Universe.Cells | src/lib.rs:74-76 | the exposed buffer holds width * height cells |
| Life.Universe.AliveCount | src/lib.rs:204-206 | the live count is the number of positions holding a live cell |
| Life.Universe.LiveNeighborCount | src/lib.rs:165-180 | the nested loops over the offset lists compute the live-neighbour count |
| Life.Universe.Tick | src/lib.rs:78-109 | the sides are kept and the buffer becomes the next generation of the pre-tick buffer |
| Life.Universe.ToggleCell | src/lib.rs:118-124 | the cell at (row, col) is flipped, every other cell and both sides are kept |
| Life.Universe.SetCell | src/lib.rs:126-129 | the cell at (row, col) becomes the given cell, every other cell and both sides are kept |
| Life.Universe.Clear | src/lib.rs:131-135 | every cell becomes dead, with length and sides kept |
| Life.Universe.Randomize | src/lib.rs:137-146 | each cell becomes alive exactly when its draw is below 0.5, with length and sides kept |
| Life.Universe.SetGlider | src/lib.rs:149-159 | the five glider positions become alive and every other cell keeps its old state |
| Life.Universe.Resize | src/lib.rs:183-201 | the sides become the new ones and the buffer becomes the resized grid |
| Life.Universe.CopyRow | src/lib.rs:191-195 | the inner resize loop copies the overlap cells of one row, after which the copy invariant holds for the next row |
| Scenarios.ToggleTwiceRestores | src/lib.rs:118-124 | two toggles of one cell leave the universe as it was |
| Scenarios.EmptyUniverseStaysEmpty | src/lib.rs:78-109 | an empty universe has no live cell and still none after a tick |
| Scenarios.ClearedUniverseIsEmpty | src/lib.rs:131-135 | after a clear the live count is zero |
| Scenarios.GliderOnEmptyUniverse | src/lib.rs:149-159 | a glider stamped on an empty grid of at least 3 x 3 gives five live cells |
| Scenarios.ResizeKeepsOverlap | src/lib.rs:183-201 | a 4 x 4 grid with only (1, 1) alive, resized to 2 x 2 or to 6 x 6, keeps (1, 1) alive and every other cell dead |

## Left out

- The host bindings `log`, `time` and `timeEnd` and the WebAssembly export attributes (src/lib.rs:1-13) are runtime glue with no behaviour of the universe.
- `tick_with_timing` (src/lib.rs:112-116) only wraps `tick` in a console timer.
- `width()` and `height()` (src/lib.rs:66-72) only return the fields; callers of the model read `width` and `height` directly.
- `cells()` (src/lib.rs:74-76) returns a raw pointer into the buffer; the model exposes the buffer as a value, `Cells()`, so no aliasing is modelled.
- Life.Universe.Randomize: the foreign random source is replaced by a parameter, one draw per cell in buffer order, and a float comparison by one on `real`; which draws the host produces is not modelled.
- All integers are unbounded: `u32` overflow in `width * height`, `row * width + col`, `start_row + row_offset` and `row + delta_row` is not modelled. The source would wrap or panic there.
- Out-of-range coordinates are a precondition of `ToggleCell` and `SetCell`. The source has no check there: it panics on a buffer access, or aliases into the next row.
- Life.Universe.LiveNeighborCount requires an in-range (row, col). The source reduces every neighbour coordinate modulo its side (src/lib.rs:173-174), so an out-of-range pair would neither panic nor alias: it would give the count at (row % height, col % width). The only caller, `tick` (src/lib.rs:81-85), passes in-range pairs only.
- Life.Universe.SetGlider requires both sides to be at least 1: the source divides by zero on a zero side.
- The `Vec` buffer is a `seq<Cell>` field that each method reassigns, so in-place writes into shared memory are not modelled.
- The classic examples of a 2 x 2 block staying still and of a glider moving by (1, 1) every four generations are not proved here: evaluating the rule concretely on a grid that large is too costly to prove. Only the 1 x 1 grid is evaluated concretely (`Rules.SingleCellCountsItselfFiveTimes`).
