# Toroidal Game of Life — verified model of the simulation engine

This project models, in Dafny, the simulation core of a small Ruby Game of
Life: the two cell states, the cell and its transition rule, the square grid
built from a generator block (with its reverse index from items to
coordinates), the neighbour lookup on a grid whose rows and columns wrap, and
the one-generation step that the viewer script wires together.

Files, one module each:

- `wrappers.dfy` — `Option`, standing for a value or Ruby's `nil`.
- `states.dfy` — `States`: the enum `State = Alive | Dead`, `STATES`, `Random`.
- `cell.dfy` — `Cells`: `Cell`, `alive?`/`dead?`, `new_with_random_state`, `subsequent_state`.
- `grid.dfy` — `Grids`: `Grid<T>` holding a size and an optional block; `to_a`, `to_h`,
  `coordinates_of`, `new_random`, `new_from`.
- `neighbours.dfy` — `Neighbourhood`: `Neighbours`, `local_group`, `to_a`, `count`, and the
  proof that the tripling-and-slicing construction equals the modular form
  `((row + dr + size) % size, (col + dc + size) % size)`.
- `viewer.dfy` — `Generation`: the step from one grid to the next, both as intended and as wired.

Everything is an immutable value and every operation a pure function. Random
draws are parameters: `States.Random(draw)` picks `STATES[draw % 2]`, and
`Grids.NewRandom` takes the draw used at each coordinate.

Where the code's comments and the code disagree, the model follows the code:

- `new_from` without a block does not copy the grid, although the comment at
  `lib/game_of_life/grid.rb:35-36` says the block only transforms the items. It builds a grid
  with no block, whose items are all `nil` (`Grids.NewFrom`). A copying variant is kept beside
  it (`Grids.NewFromKeeping`).
- The neighbour count seen by the rule, as the viewer wires it, is always 8, although the
  comment at `lib/game_of_life/cell.rb:25` speaks of an array of neighbours. `Neighbours#count`
  ignores the `&:alive?` block, so every cell of the next generation is dead (`Generation.StepAsWired`).
  `Generation.Step` models the intended step, with the live count of the neighbours.

Two further facts about the code that the model makes explicit:

- When an item repeats, `coordinates_of` answers its last position in row-major order,
  because `to_h` folds one-entry hashes with `merge`, and later keys win.
- A grid of size 0 is allowed: `to_a` is empty and `to_h` is `nil`. Sizes are natural numbers.

## Model

| member | source | states |
|---|---|---|
| States.StatesAreExactlyAliveAndDead | lib/game_of_life/states.rb:8-14 | `STATES` is `[:alive, :dead]` in that order; the two differ and no other state exists |
| States.Random | lib/game_of_life/states.rb:16-18 | a random state is always a member of `STATES` |
| States.RandomReachesEveryState | lib/game_of_life/states.rb:16-18 | every member of `STATES` is a possible outcome of a draw |
| Cells.AliveXorDead | lib/game_of_life/cell.rb:11-17 | the predicates `IsAlive` (`alive?`) and `IsDead` (`dead?`) are exclusive and exhaustive: `alive?` holds exactly when `dead?` does not |
| Cells.NewWithRandomState | lib/game_of_life/cell.rb:21-23 | the new cell carries a state from `STATES`; any state qualifies, since the enum has just the two values, so the substance is in the next row |
| Cells.NewWithRandomStateReachesEveryState | lib/game_of_life/cell.rb:21-23 | `new_with_random_state` can produce a cell in either state |
| Cells.CountAlive | lib/game_of_life/cell.rb:27 | `count(&:alive?)` on an array of cells never exceeds the array's length; its value is pinned down by the next row |
| Cells.CountAliveIsMultiplicity | lib/game_of_life/cell.rb:27 | the live count equals the multiplicity of the live cell in the multiset of neighbours, so order does not matter |
| Cells.Subsequent | lib/game_of_life/cell.rb:29-43 | the next cell is alive iff the live count is 3, or the cell is alive and the count is 2 (B3/S23); otherwise it is dead |
| Cells.ConwayRules | lib/game_of_life/cell.rb:29-43 | survival on 2 or 3, birth on exactly 3, death by under- or overpopulation, dead stays dead unless 3 |
| Cells.SubsequentState | lib/game_of_life/cell.rb:26-44 | for any array of neighbours, the next cell is alive iff the number of live cells among them is 3, or 2 with a live receiver |
| Cells.SubsequentStateDependsOnLiveCountOnly | lib/game_of_life/cell.rb:27 | two neighbour arrays of any order and length with the same number of live cells give the same next cell |
| Grids.ToA | lib/game_of_life/grid.rb:11-15 | `size` rows of `size` items; item `(r, c)` is `block(r, c)`, or `nil` at every position without a block |
| Grids.At | lib/game_of_life/grid.rb:13 | `block&.call(row, col)` is `nil` exactly when the grid has no block (blocks are taken to return non-nil values) |
| Grids.RowEntries | lib/game_of_life/grid.rb:21-23 | one entry per item of the row; entry `c` pairs item `c` with `[row, c]` |
| Grids.FlatMapRows | lib/game_of_life/grid.rb:20-23 | every flattened entry carries the index of one of the rows it was built from |
| Grids.FlatMapRowsLength | lib/game_of_life/grid.rb:20-23 | `size` rows of `size` items flatten to `size * size` entries |
| Grids.FlatMapRowsForward | lib/game_of_life/grid.rb:20-23 | the item at `(r, c)` appears, paired with `[r, c]`, at entry `r * size + c` |
| Grids.FlatMapRowsBackward | lib/game_of_life/grid.rb:20-23 | every entry pairs an in-range position's own item with that position, at its row-major index |
| Grids.MergeAll | lib/game_of_life/grid.rb:24 | the key of the last one-entry hash is in the merged hash with that hash's value: the last `merge` wins |
| Grids.MergeAllKeys | lib/game_of_life/grid.rb:24 | folding one-entry hashes with `merge` gives a hash whose keys are exactly the keys of the entries |
| Grids.MergeAllLastWins | lib/game_of_life/grid.rb:24 | the value kept for a key is the one from the last entry with that key; no later entry has the key |
| Grids.LookupPresent | lib/game_of_life/grid.rb:19-29 | a key found in `to_h` maps to an in-range position holding the item, and no later position in row-major order holds it |
| Grids.LookupAbsent | lib/game_of_life/grid.rb:19-29 | a key missing from `to_h` is held by no position of the grid |
| Grids.AbsentKeyNotCarried | lib/game_of_life/grid.rb:24 | a key missing from the merged hash is carried by none of the one-entry hashes |
| Grids.NotCarriedNotHeld | lib/game_of_life/grid.rb:11-23 | an item that no flattened entry carries is held at no position of the grid |
| Grids.ToH | lib/game_of_life/grid.rb:19-25 | `to_h` is `nil` exactly for the empty grid |
| Grids.CoordinatesOf | lib/game_of_life/grid.rb:27-29 | `nil` iff the item is nowhere in the grid; otherwise an in-range position holding the item, after which in row-major order the item does not occur |
| Grids.DistinctRoundTrip | lib/game_of_life/grid.rb:17-29 | with pairwise-distinct items, `coordinates_of(to_a[r][c]) == [r, c]` |
| Grids.DuplicateReportsLater | lib/game_of_life/grid.rb:20-24 | an item that occurs twice is never reported at its earlier position |
| Grids.UniformGridLookup | lib/game_of_life/grid.rb:19-29 | when every position holds the same item, `coordinates_of` reports it at the last cell `[size-1, size-1]` |
| Grids.NilGridLookup | lib/game_of_life/grid.rb:11-29 | on a grid without a block, `coordinates_of(nil)` is the last cell `[size-1, size-1]` |
| Grids.CellGridsRepeat | lib/game_of_life/grid.rb:19-29 | compared by value, a grid of cells of size 2 or more always holds some item twice |
| Grids.NewRandom | lib/game_of_life/grid.rb:31-33 | a grid of the given size whose every item is a cell (never `nil`), namely the random cell drawn for that coordinate alone |
| Grids.NewRandomCanDrawAnyPattern | lib/game_of_life/grid.rb:31-33 | every pattern of alive and dead cells is produced by some draws |
| Grids.NewFrom | lib/game_of_life/grid.rb:37-41 | keeps the source's size; item `(r, c)` is `block(r, c)`, and without a block every item is `nil` |
| Grids.NewFromKeeping | lib/game_of_life/grid.rb:35-41 | keeps the source's size; with a block as above, without one every item equals the source's item |
| Grids.NewFromDiffersOnlyWithoutBlock | lib/game_of_life/grid.rb:35-41 | with a block both agree on every item; without one they differ on a non-empty grid whose block yields a non-nil item at (0, 0) |
| Neighbourhood.WrapAroundEdges | lib/game_of_life/neighbours.rb:4-5 | stepping off the first row or column lands on the last, off the last lands on the first, and any other step is plain addition |
| Neighbourhood.TripledWraps | lib/game_of_life/neighbours.rb:26-37 | reading the tripled array at `size + (x - 1)` plus an offset of 0, 1 or 2 reads the original at the wrapped index of `x` moved by -1, 0 or 1 |
| Neighbourhood.Tripled | lib/game_of_life/neighbours.rb:26-27 | `a * 3` is three times as long as `a`, and its item `k` is item `k` modulo the length of `a` |
| Neighbourhood.Slice | lib/game_of_life/neighbours.rb:26-27 | `a[start, len]` for a window inside `a` has `len` items, item `i` being `a[start + i]` |
| Neighbourhood.RowBefore | lib/game_of_life/neighbours.rb:31-33 | for an in-range coordinate of a non-empty grid, the 3-row window starting at `row_before` lies inside the tripled rows |
| Neighbourhood.ColumnBefore | lib/game_of_life/neighbours.rb:35-37 | for an in-range coordinate of a non-empty grid, the 3-item window starting at `column_before` lies inside each tripled row |
| Neighbourhood.FlatMapWindows | lib/game_of_life/neighbours.rb:26-28 | the `flat_map` of 3-wide windows has 3 items per row; item `m` is item `m mod 3` of row `m / 3`'s window |
| Neighbourhood.LocalGroup | lib/game_of_life/neighbours.rb:24-37 | 9 items; item `m` is the grid item at the wrapped offset `(m / 3 - 1, m mod 3 - 1)` |
| Neighbourhood.WindowItem | lib/game_of_life/neighbours.rb:25-37 | cutting three rows out of the tripled table at `row_before`, and three items out of each tripled row at `column_before`, puts the entry at the wrapped offset `(m / 3 - 1, m mod 3 - 1)` at position `m` |
| Neighbourhood.WindowRow | lib/game_of_life/neighbours.rb:26-33 | row `i` of the three rows cut out of the tripled grid at `row_before` is the grid row at the wrapped offset `i - 1` |
| Neighbourhood.RejectIndex | lib/game_of_life/neighbours.rb:13 | `reject.with_index` with the test `i == i0` drops exactly position `i0`: one item fewer, items before it kept, items after it moved down by one |
| Neighbourhood.OffsetsSkipCentre | lib/game_of_life/neighbours.rb:12-14 | the eight offsets are the 3-by-3 block positions in order with position 4, the centre, skipped |
| Neighbourhood.OffsetsAreTheEightDirections | lib/game_of_life/neighbours.rb:12-14 | a pair `(dr, dc)` is one of the offsets iff both lie in -1..1 and it is not `(0, 0)`: exactly the eight moves to an adjacent square |
| Neighbourhood.ToA | lib/game_of_life/neighbours.rb:12-14 | exactly 8 items; item `k` is the grid item at `((row + dr + size) % size, (col + dc + size) % size)` for the `k`-th offset |
| Neighbourhood.CentreRemoved | lib/game_of_life/neighbours.rb:12-14 | rejecting index 4 of the local group leaves, in order, the items at the eight wrapped neighbour coordinates |
| Neighbourhood.Count | lib/game_of_life/neighbours.rb:16-18 | `count` is always 8 |
| Neighbourhood.SizeOneSeesItselfEightTimes | lib/game_of_life/neighbours.rb:12-14 | on a 1-by-1 grid all 8 neighbours are the single item: the centre is removed by position, not by value |
| Neighbourhood.SizeTwoKeepsDuplicates | lib/game_of_life/neighbours.rb:25-29 | on a 2-by-2 grid the 8 coordinates repeat: the other row and column are reached both ways |
| Neighbourhood.DistinctFromSizeThree | lib/game_of_life/neighbours.rb:25-37 | from size 3 upwards the 8 coordinates are pairwise distinct and none is the centre |
| Neighbourhood.SlicingFindsWrappedCoordinates | lib/game_of_life/neighbours.rb:25-37 | run on a grid of coordinates, the slicing yields exactly the wrapped coordinates |
| Neighbourhood.ExampleBottomLeftOfFour | lib/game_of_life/neighbours.rb:25-37 | on a 4-by-4 grid, (3, 0) has neighbours (2,3) (2,0) (2,1) (3,3) (3,1) (0,3) (0,0) (0,1) |
| Neighbourhood.ExampleTopRightOfFour | lib/game_of_life/neighbours.rb:25-37 | on a 4-by-4 grid, (0, 3) has neighbours (3,2) (3,3) (3,0) (0,2) (0,0) (1,2) (1,3) (1,0) |
| Generation.NeighbourCells | game_of_life_viewer.rb:38-42 | the neighbour cells the rule is meant to receive (`Neighbours#to_a`) are the cells at the 8 wrapped coordinates of the old grid |
| Generation.Step | game_of_life_viewer.rb:34-43 | same size, every item a cell, and cell `(r, c)` is alive iff its old wrapped neighbourhood has 3 live cells, or 2 with the old cell alive |
| Generation.SubsequentStateAsWired | lib/game_of_life/cell.rb:26-43 | given a `Neighbours` object, the rule always answers a dead cell |
| Generation.StepAsWired | game_of_life_viewer.rb:37-43 | same size, every item a cell, and every cell of the next generation is dead |
| Generation.AsWiredDiffersFromConway | game_of_life_viewer.rb:37-43 | on a 3-by-3 grid with a live top row, the centre is born under the intended step and dead under the wired one |

## Left out

- Terminal rendering and the driver loop of `game_of_life_viewer.rb` (`print_grid`, `squares`, cursor movement, the endless `loop`, `$stdout.sync`, `pry`, the fixed size 40): output and process plumbing.
- States.Random: the model states that every state can be drawn (`States.RandomReachesEveryState`, `Cells.NewWithRandomStateReachesEveryState`, `Grids.NewRandomCanDrawAnyPattern`), but not the uniform distribution of `Array#sample`, because the model has no probabilities. Membership in `STATES` holds of every state by itself, since the enum has just the two values.
- Ruby object identity: `to_h` keys are compared by value. For cells, which Ruby hashes by identity, the round trip is stated for grids whose items are pairwise distinct. No grid of cells of size 2 or more has pairwise-distinct items (`Grids.CellGridsRepeat`), because an item is only `nil`, a live cell or a dead cell. So for the simulation's own grids the model's `coordinates_of` answers the last position holding a cell of the same state: on a 2-by-2 all-dead grid it reports the cell at (0, 0) at (1, 1) (`Grids.UniformGridLookup`), where Ruby's identity hash answers `[0, 0]`.
- Memoisation of `to_a` and `to_h` (`||=`): the model's functions are pure, so every call gives the same rows.
- The setters `Cell#state=` and `Grid#size=`: the simulation never calls them, and cells and grids are immutable values here.
- Negative sizes (Ruby's `Array.new` raises): sizes are natural numbers.
- Ruby slices that run past the end, start beyond it, or start negative: slices are modelled only inside the array, which always holds for an in-range coordinate of a non-empty grid (`Neighbourhood.RowBefore`, `Neighbourhood.ColumnBefore`).
- Neighbourhood.ToA: requires a non-empty grid and an in-range coordinate; other coordinates are not modelled. In Ruby some of them still give the wrapped neighbourhood of the coordinate modulo the size (row -1 acts as row size-1, row size as row 0); the rest give truncated, empty, negative or `nil` slices.
- Grids.NewFromDiffersOnlyWithoutBlock: blocks are taken to return non-nil values. Every item a block yields is wrapped in `Some`, so a Ruby block that returns `nil` becomes `Some(None)` and stays distinct from the `None` of a grid without a block. In Ruby both are the same `nil` (`block&.call` at `lib/game_of_life/grid.rb:13`): `new_from` without a block then agrees with the copy at such a position, and `coordinates_of(nil)` finds it. The simulation's blocks always return cells.
- Grids.CoordinatesOf: requires a non-empty grid, because on an empty grid `to_h` is `nil` and the lookup raises.
- Generation.Step: requires every item to be a cell; on a `nil` item Ruby raises `NoMethodError`.
- `game_of_life.rb`, a superseded single-file revision that the viewer does not load, and `test/game_of_life_test.rb`, which refers to names that no longer exist.

## Findings

| source | as written | input that shows it | evidently intended | confidence | as-written member | corrected member |
|---|---|---|---|---|---|---|
| lib/game_of_life/neighbours.rb:16-18 | `count` takes no predicate, so `neighbours.count(&:alive?)` in `cell.rb` gets 8 for every cell and every generation is all dead | 3-by-3 grid with the top row alive: the centre has 3 live neighbours and should be born, but dies | the rule receives the number of live neighbours | not executed | Generation.StepAsWired, Generation.AsWiredDiffersFromConway | Generation.Step |
| lib/game_of_life/grid.rb:38 | without a block `new_from` returns `new(grid.size)`, whose items are all `nil` | a grid whose block yields a non-nil item at (0, 0): that item becomes `nil` | the comment at lines 35-36 says the block is optional and only transforms; without it the items are kept | not executed | Grids.NewFrom, Grids.NewFromDiffersOnlyWithoutBlock | Grids.NewFromKeeping |
