# Sparse Game of Life engine

This project models the engine of a Game of Life program in Dafny. The engine is a
sparse, unbounded grid that evolves under Conway's rules. It keeps a finite set of live
integer cells, `field`. Beside it sits a count index, `counts`, that maps a cell to its
number of live Moore neighbours. A cell with no key has count zero. Every time a cell is
set or reset, the counts of its eight neighbours are updated. One generation works like
this:

- queue every live cell whose count is not 2 or 3 for removal (`to_reset`);
- queue every dead key of the index whose count is 3 for birth (`to_set`);
- apply both queues as one batch: all resets first, then all sets.

The model follows the program's structure:

- `cells.dfy` (module `Cells`): cells as pairs of unbounded integers. It defines the
  eight-neighbour enumeration `Neighbours` and the adjacency relation it must agree with.
  It also defines `NCount`, the live-neighbour count that the index is meant to hold.
- `countmap.dfy` (module `CountMap`): the dictionary primitives, modelled as pure maps.
  `Get` is `get(k, 0)`. `Inc` and `Dec` model the increment and the decrement that drops
  zero keys. `IncAll` and `DecAll` are the per-neighbour passes.
- `lifespec.dfy` (module `LifeSpec`): the grid as a value `Board(field, counts)`.
  - `Consistent` is the invariant: every cell reads its live-neighbour count, and only
    positive counts are stored.
  - `SetCell`, `ResetCell` and `Toggle` are the point mutations.
  - `ResetSeq` and `SetSeq` are the batched application. `ResetSeq` stops at the first
    reset that raises.
  - `NextField` is the generation decided against one snapshot. `LivesNext` is Conway's
    rule stated on the live set alone.
- `grid.dfy` (module `SparseGrid`): the `Grid` class. It has the four mutable fields of
  the source and the in-place methods `Increase`, `Decrease`, `Set`, `Reset` and
  `ApplyBuffers`, with their loops. Each method is proved against the `LifeSpec` function
  that gives its new state.
- `automaton.dfy` (module `Automaton`): the `CellularAutomaton` class. It owns a `Grid`.
  `Update` is one generation. `Pressed` is the toggle of a cell given in grid
  coordinates.
- `patterns.dfy` (module `Patterns`): the 2×2 block is a still life, and the three-cell
  blinker oscillates with period 2. Two client methods drive the real
  `CellularAutomaton` through those patterns.

The program does not guard `set` on a live cell or `reset` on a dead one. Both behaviours
are modelled as the code is written:

- Calling `set` on a live cell is not rejected. Its neighbours are counted twice. The
  model's `Grid.Set` does the same, and `LifeSpec.SetCellConsistent` proves that the
  index stays consistent exactly when the cell was dead.
- Calling `reset` on a dead cell is not rejected cleanly. The neighbour decrements run
  first, and then `field.remove` raises. `Grid.Reset` returns `ok == false` in that case
  and leaves the decremented counts in place. `LifeSpec.ResetCellConsistent` proves that
  consistency survives exactly when the cell was live.

Neither path is reachable from the program's own callers. `Update` only resets live
cells and only sets dead ones (`LifeSpec.GenerationBatch`), and `Pressed` checks
membership first.

## Model

| member | source | states |
|---|---|---|
| `Cells.Neighbours` | main.py:8-18 | eight pairwise-distinct cells, each at Chebyshev distance 1 from c; c itself is not among them |
| `Cells.NeighboursComplete` | main.py:8-18 | a cell is listed exactly when it is adjacent to c, so no Moore neighbour is missed |
| `Cells.NeighbourOccurrences` | main.py:8-18 | each adjacent cell appears exactly once in the list and every other cell never appears |
| `Cells.NCountZero` | main.py:62 | a cell's live-neighbour count is zero exactly when none of its adjacent cells is live |
| `Cells.NCountInsert` | main.py:95-99 | making a dead cell live raises the count of each of its neighbours by one and of no other cell |
| `Cells.NCountRemove` | main.py:101-105 | making a live cell dead lowers the count of each of its neighbours by one and of no other cell |
| `CountMap.Get` | main.py:83 | the value stored for the key, or 0 when the key is absent, as the dictionary's `get(key, 0)` computes it (no contract; `Inc`, `Dec` and `Consistent` read every count through it) |
| `CountMap.Inc` | main.py:82-85 | the key ends up stored with its old value (missing = 0) plus one; every other key keeps its presence and value |
| `CountMap.Dec` | main.py:87-93 | the key reads its old value (missing = 0) minus one and is stored exactly when that is non-zero; every other key is unchanged |
| `CountMap.IncAll` | main.py:96-97 | the increment of each neighbour's entry in list order, a fold of `Inc` (no contract; `IncAllAt` gives each key's final count and presence) |
| `CountMap.DecAll` | main.py:102-103 | the decrement of each neighbour's entry in list order, a fold of `Dec` (no contract; `DecAllAt` gives each key's final count and presence) |
| `CountMap.IncAllAt` | main.py:96-97 | after the increment pass each key reads its old value plus the times it is listed and is present iff it was present or is listed |
| `CountMap.DecAllAt` | main.py:102-103 | after the decrement pass each key reads its old value minus the times it is listed; a listed key is present iff it reads non-zero |
| `CountMap.IncAllPositive` | main.py:96-97 | incrementing a map of positive counts leaves every stored count positive |
| `CountMap.DecAllNoZero` | main.py:102-103 | the decrement pass never leaves a zero stored |
| `CountMap.IncAllDecAll` | main.py:95-105 | with no stored zero, decrementing the neighbours just incremented restores the map exactly |
| `CountMap.DecAllIncAll` | main.py:95-105 | when every listed key is stored, incrementing the neighbours just decremented restores the map exactly |
| `LifeSpec.EmptyConsistent` | main.py:59-62 | the empty live set with the empty index satisfies the count invariant |
| `LifeSpec.ConsistentUnique` | main.py:61-62 | under the invariant the index is a function of the live set: two consistent indexes of one live set are equal |
| `LifeSpec.SetCell` | main.py:95-99 | set as a value: the increment pass over the eight neighbours, then c added to the live set, with no check that c was dead (no contract; `SetCellConsistent` states its effect on the invariant) |
| `LifeSpec.ResetCell` | main.py:101-105 | reset as a value: the decrement pass over the eight neighbours, then c taken out of the live set; on a dead cell the decrements stay and the set is unchanged (no contract; `ResetCellConsistent` states its effect) |
| `LifeSpec.SetCellConsistent` | main.py:95-99 | on a consistent board, set keeps the invariant (positive counts, every count right) if and only if the cell was dead |
| `LifeSpec.ResetCellConsistent` | main.py:101-105 | on a consistent board, reset keeps the invariant if and only if the cell was live; on a dead cell the counts are corrupted |
| `LifeSpec.SetThenReset` | main.py:95-105 | set followed by reset of a dead cell restores live set and index exactly |
| `LifeSpec.ResetThenSet` | main.py:95-105 | on a consistent board, reset followed by set of a live cell restores live set and index exactly |
| `LifeSpec.Toggle` | main.py:183-188 | reset when the cell is live, set when it is dead; the cell's membership flips and every other cell's membership is unchanged |
| `LifeSpec.ToggleFlips` | main.py:183-188 | the toggle keeps the invariant, flips the membership of the pressed cell only, and a second toggle restores the board |
| `LifeSpec.ResetSeq` | main.py:73-74 | resets in queue order; the first reset of a dead cell gives `Raised` with its decrements applied and the live set unchanged, and the later resets do not run; the live set never grows |
| `LifeSpec.ResetSeqCompletes` | main.py:73-74 | a run of resets completes without raising exactly when every queued cell is live and no cell is queued twice |
| `LifeSpec.SetSeq` | main.py:76-77 | sets in queue order; the live set never shrinks |
| `LifeSpec.SetSeqNeverHitsLive` | main.py:76-77 | when distinct dead cells are queued, no set meets a cell that is already live at its turn |
| `LifeSpec.ResetSeqLive` | main.py:73-74 | resetting distinct live cells in order never raises, keeps the invariant and removes exactly those cells |
| `LifeSpec.SetSeqDead` | main.py:76-77 | setting distinct dead cells in order keeps the invariant and adds exactly those cells |
| `LifeSpec.Dies` | main.py:164-165 | a cell whose stored count (missing = 0) is 0, below 2 or above 3 is queued to die (no contract; `ConwayRule` relates it to the rule) |
| `LifeSpec.Born` | main.py:168-169 | a dead cell whose stored count is exactly 3 is queued to be born (no contract; `ConwayRule` relates it to the rule) |
| `LifeSpec.NextField` | main.py:163-171 | the live set after the batch: the live cells that do not die plus the stored keys that are born; it lies within the live cells and the stored keys |
| `LifeSpec.GenerationBatch` | main.py:162-172 | the queues a generation builds are legal for the batch (no reset raises, and no set meets a cell live at its turn) and the batch yields a consistent board whose live set is NextField of the snapshot |
| `LifeSpec.ConwayRule` | main.py:161-172 | on a consistent board, a cell is in NextField iff it is live with 2 or 3 live neighbours or dead with exactly 3, for every cell of the plane |
| `LifeSpec.CountsBound` | main.py:82-105 | under the invariant every key of the index is adjacent to a live cell, so the index has at most 8 entries per live cell |
| `SparseGrid.Grid.constructor` | main.py:59-69 | a new grid has no live cell, an empty index, empty queues, and satisfies the invariant |
| `SparseGrid.Grid.Increase` | main.py:82-85 | the index becomes Inc of the old index at the cell |
| `SparseGrid.Grid.Decrease` | main.py:87-93 | the index becomes Dec of the old index at the cell |
| `SparseGrid.Grid.Set` | main.py:95-99 | the new state is SetCell of the old one; the invariant is kept iff the cell was dead |
| `SparseGrid.Grid.Reset` | main.py:101-105 | the new state is ResetCell of the old one; ok reports whether the cell was live (the remove did not raise); the invariant is kept iff ok |
| `SparseGrid.Grid.ApplyBuffers` | main.py:72-80 | the state is that of resetting each queued cell in order and then setting each queued cell in order, and both queues are emptied; a raising reset stops the call with the queues kept |
| `Automaton.CellularAutomaton.constructor` | main.py:158-159 | a new automaton owns a fresh empty grid satisfying the invariant with empty queues |
| `Automaton.CellularAutomaton.Update` | main.py:162-172 | the new live set is NextField of the snapshot, every cell follows Conway's rule, the invariant holds and both queues are empty |
| `Automaton.CellularAutomaton.Pressed` | main.py:183-188 | the new state is Toggle of the old one: only the pressed cell changes membership and the invariant holds |
| `Patterns.BlockStillLife` | main.py:161-172 | under the rule the 2×2 block maps to itself |
| `Patterns.BlinkerHorizontalStep` | main.py:161-172 | under the rule the horizontal three-cell blinker becomes the vertical one |
| `Patterns.BlinkerVerticalStep` | main.py:161-172 | under the rule the vertical blinker becomes the horizontal one, so the blinker has period 2 |

## Left out

- Rendering is not modelled: `Grid.draw`, the render buffers `lines` and `cells_data`, and the pixel size `cell`. They build pyglet shapes with floating-point steps.
- `Camera` and `Buttons` are not modelled. They are floating-point movement and keyboard plumbing that read a global input object.
- The pixel-to-cell conversion at the start of `pressed` is not modelled. It divides by the camera zoom in floating point. `Pressed` takes the integer cell directly.
- `Window` is not modelled: the event handlers, the clock scheduling of ticks, time scaling, zoom clamping, the info label and the GL calls. Neither are the module-level globals and the application loop.
- `Automaton.CellularAutomaton.Update`: the order in which Python iterates over a set is up to the implementation, and dictionary keys come in insertion order. The model picks each next element nondeterministically, so the proof holds for every order, these two included. The queues do not fix the order in which births and deaths are applied, and the result does not depend on it.
- `Automaton.CellularAutomaton.Update` requires both queues to be empty on entry. The program only fills them inside `update`, and `apply_buffers` empties them at its end. A `reset` that raised would leave them filled, but the generation never queues such a reset.
- The glider translation after four generations is not proved. It needs about four times the case analysis of the blinker.
