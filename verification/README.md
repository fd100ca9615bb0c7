# Incremental breadth-first grid search, modelled in Dafny

This project models the core of grid-search-visualizer. That core has two parts.

- **The `Grid` value** (`src/model.rs`). It holds a row-major vector of per-cell flag sets and two role indices, `source_idx` and `target_idx`.
  - The flags are WALL, FRONTIER and VISITED, plus four origin bits that record which neighbour a cell was reached from.
  - An unset role index holds the sentinel `usize::MAX`.
- **The breadth-first stepper** (`src/controller.rs`). Each `step_search` call does one unit of search work on the grid. The stepper's only state is a FIFO queue of positions. `DynamicGridSearcher` is a one-variant wrapper that delegates to it.

All operations are pure functions on immutable values. A step is a transition from (grid, queue) to (grid, queue, outcome).

Files and modules:

- `cells.dfy`, module `Cells`: the flag record `CellInfo`, the display classes `CellState`, and the origin encode/decode (`origin_offset`).
- `grid.dfy`, module `Grids`: the `Grid` value and its per-cell operations.
- `grid_scan.dfy`, module `GridScans`: `regenerate`, `cell_states` and `cell_origins`. Each is written as a loop over every cell.
- `search.dfy`, module `Search`: `BreadthFirstSearcher` and `DynamicGridSearcher`.
- `termination.dfy`, module `SearchTermination`: properties of repeated steps.
- `app.dfy`, module `App`: `AppState::set_search_endpoints`.

Modelling choices:

- `usize` is the subset type `0 .. 2^64-1`.
- `Valid(g)` captures what every grid built by the operations satisfies:
  - one cell per (row, column);
  - `n_rows * n_cols <= isize::MAX`, the most cells a vector may hold, so the sentinel never equals a real index;
  - each role index is a cell index or the sentinel.
- Reading or writing the flags of an off-grid position indexes the vector at `usize::MAX` and panics. Every operation that does so takes "on the grid" as a precondition. These are `is_wall`, `is_visited`, `is_frontier`, `set_state` and its wrappers, and `set_origin`.
- `cell_state` reads flags only when the position matches neither role. Its precondition is therefore "on the grid, or the position's index equals a role index".
- `is_source` and `is_target` only compare indices, so they have no precondition. An off-grid query answers "is that role unset?" (`RoleQueryLayout`).
- `neighbors` casts the position to `i64` before adding the offsets. `AsI64` models that wrap, and adjacency is measured on the signed values.
- `is_untouched` is called by `step_search` (src/controller.rs:70) but is not defined in src/model.rs or src/controller.rs. `Grids.IsUntouched` assumes it means not WALL, not VISITED and not FRONTIER. That body is an assumption.
- `step_search` returns nothing in both implementations, so the model does not invent a "done" flag. `Outcome` names the exit that was taken:
  - `AlreadyDone`: the queue was empty;
  - `FoundTarget`: the popped position is the target;
  - `AlreadyVisited`: the popped position was already visited;
  - `Expanded`: the position was visited and its neighbours were pushed.
- `regenerate` takes a `FnMut` generator. The model takes a pure function of (row, column) instead. This is not a restriction: the generator is asked exactly once per cell, in row-major order, so any generator's answers amount to such a function.

Behaviour of the code worth knowing:

- Popping the target does not clear the queue and does not mark the target visited. The step simply returns. Later steps keep expanding the rest of the queue.
- Every `set_state` call rewrites all three flags, each becoming "is this the requested state", so SOURCE, TARGET and OPEN clear all three.
- Off-grid coordinates are not rejected. They become the sentinel index.
- `Grid::empty` accepts zero rows or columns.
- `BreadthFirstSearcher::new` seeds the queue with the off-grid position `(usize::MAX, usize::MAX)`. On a grid whose target is unset, the first step therefore reports the target found (`FreshSearcherFindsUnsetTarget`).

## Model

| member | source | states |
|---|---|---|
| Cells.WithStateFlags | src/model.rs:195-197 | exactly the flag named by the requested state is set (none for OPEN, SOURCE, TARGET); the origin bits are kept |
| Cells.OriginOffset | src/model.rs:99-103 | FROM_UP gives row offset -1, otherwise FROM_DOWN gives +1; FROM_LEFT gives column offset -1, otherwise FROM_RIGHT gives +1; the offset is (0, 0) iff no origin bit is set |
| Cells.WithOrigin | src/model.rs:258-261 | decoding the bits written for a source/target pair gives back (sign of row difference, sign of column difference); at most one vertical and one horizontal bit; state flags kept |
| Grids.RcToIdx | src/model.rs:145-150 | a position is on the grid iff its index is below n_rows*n_cols; on-grid positions get row*n_cols+col; off-grid positions get usize::MAX |
| Grids.IdxToRc | src/model.rs:152-154 | every cell index decodes to an on-grid position that rc_to_idx maps back to the same index |
| Grids.RcToIdxRoundTrip | src/model.rs:145-154 | idx_to_rc inverts rc_to_idx on the grid, so the two are inverse bijections |
| Grids.RcToIdxInjective | src/model.rs:145-150 | distinct on-grid positions occupy distinct cells |
| Grids.Empty | src/model.rs:124-132 | n*m cells with no flags, both roles unset, every on-grid cell classified OPEN |
| Grids.FlagQueryLayout | src/model.rs:218-236 | on the grid, is_wall, is_visited and is_frontier (the predicates `IsWall`, `IsVisited`, `IsFrontier`) read the WALL, VISITED and FRONTIER flag of the cell at row-major index row*n_cols+col, which lies inside the vector |
| Grids.RoleQueryLayout | src/model.rs:238-244 | on the grid: is_source (is_target), the predicate `IsSource` (`IsTarget`), holds iff the source (target) index is row*n_cols+col; off the grid: iff that role is unset (usize::MAX) |
| Grids.UntouchedLayout | src/controller.rs:70 | (assumed meaning) is_untouched, the predicate `IsUntouched`, holds iff none of WALL, VISITED, FRONTIER is set on the cell at row-major index row*n_cols+col |
| Grids.StateAt | src/model.rs:164-179 | classification by strict priority TARGET, SOURCE, WALL, VISITED, FRONTIER, OPEN; each class holds iff its condition holds and no earlier one does |
| Grids.SetTarget | src/model.rs:181-183 | the position becomes the target (sentinel when off-grid); cells and source unchanged |
| Grids.SetSource | src/model.rs:185-187 | the position becomes the source (sentinel when off-grid); cells and target unchanged |
| Grids.SetState | src/model.rs:189-204 | afterwards exactly the named flag is set; SOURCE/TARGET move their index; origin bits, every other cell and the other index unchanged; reading back through cell_state gives the requested state when the cell holds neither role (TARGET always reads back, SOURCE when the cell is not the target) |
| Grids.SetWall | src/model.rs:156-158 | the cell is WALL iff asked, never FRONTIER or VISITED; everything else unchanged |
| Grids.MarkVisited | src/model.rs:222-224 | the cell is VISITED and neither WALL nor FRONTIER; everything else unchanged |
| Grids.MarkVisitedIdempotent | src/model.rs:222-224 | marking a cell visited twice equals marking it once |
| Grids.MarkFrontier | src/model.rs:230-232 | the cell is FRONTIER and neither WALL nor VISITED; everything else unchanged |
| Grids.Clear | src/model.rs:160-162 | no cell keeps any flag; roles kept, so each cell classifies as TARGET, SOURCE or OPEN |
| Grids.Neighbors | src/model.rs:246-252 | at most 4 positions, all on the grid; a position is listed iff it is on the grid and orthogonally adjacent to the signed (i64) input; listed in row-major order, which is up, left, right, down |
| Grids.NeighborsOfCell | src/model.rs:246-252 | for an on-grid cell: exactly its on-grid cells at Manhattan distance 1, never itself, no repeats |
| Grids.NeighborsOfInteriorCell | src/model.rs:120-121 | (2,2) on a grid of at least 4x4 gives [(1,2),(2,1),(2,3),(3,2)] |
| Grids.SetOrigin | src/model.rs:254-262 | origin_offset of the target cell becomes (sign(s.row-t.row), sign(s.col-t.col)); at most one bit per axis; state flags and all other cells unchanged |
| GridScans.Regenerate | src/model.rs:134-143 | every cell is WALL iff the generator says so, with FRONTIER and VISITED cleared and origin bits kept; dimensions and both roles unchanged |
| GridScans.CellStates | src/model.rs:206-210 | n_rows*n_cols triples; the i-th names the cell with index i and its cell_state; cell (r,c) sits at position r*n_cols+c |
| GridScans.CellOrigins | src/model.rs:212-216 | n_rows*n_cols quadruples in row-major order, each with the decoded origin of its cell |
| Search.Untouched | src/controller.rs:69-73 | keeps exactly the positions that are untouched in the grid |
| Search.UntouchedFrame | src/controller.rs:69-75 | which neighbours qualify depends only on their own cells, so marking one neighbour does not change the verdict on the others |
| Search.Expand | src/controller.rs:69-77 | the neighbour loop, checking each neighbour against the grid as it stands, appends exactly the neighbours untouched at the start, in order; marks exactly those FRONTIER; changes no other cell |
| Search.Visit | src/controller.rs:66-77 | the popped cell ends VISITED with WALL and FRONTIER cleared; the queue becomes the old tail plus its untouched neighbours, each marked FRONTIER with its origin bits kept; no other cell changes |
| Search.Step | src/controller.rs:48-78 | each exit holds iff its condition; an empty queue changes nothing; the target or a visited position is dropped with the grid unchanged and the queue becoming its tail (not cleared); expansion visits the popped cell, appends at most 4 frontier-marked neighbours whose origin bits are kept, changes no other cell, keeps roles and dimensions; an all-on-grid queue stays all-on-grid |
| Search.New | src/controller.rs:40-44 | a fresh searcher's queue is [(usize::MAX, usize::MAX)] |
| Search.Reset | src/controller.rs:80-83 | the queue becomes exactly [source], whatever it held; the target is ignored and no grid is touched |
| Search.DynamicStep | src/controller.rs:13-18 | the wrapper's step is the delegate's step |
| Search.DynamicReset | src/controller.rs:20-25 | the wrapper's reset is the delegate's reset |
| Search.FreshSearcherFindsUnsetTarget | src/controller.rs:40-60 | on a grid whose target is unset, the first step of a fresh searcher reports FoundTarget and empties the queue |
| SearchTermination.ExpandCount | src/controller.rs:69-77 | the neighbour loop removes as many untouched cells as it pushes positions |
| SearchTermination.StepDecreasesMeasure | src/controller.rs:48-78 | every step on a non-empty queue strictly decreases queue length plus untouched-cell count |
| SearchTermination.RunUnfold | src/controller.rs:48-78 | one step on a non-empty all-on-grid queue is defined, keeps the queue on the grid and strictly lowers the measure |
| SearchTermination.RunDrainsQueue | src/controller.rs:48-78 | from an all-on-grid queue, any number of steps at least Measure(g, b) (queue length plus untouched cells) drains the queue |
| SearchTermination.SearchFromResetTerminates | src/controller.rs:48-83 | after reset with an on-grid source, n_rows*n_cols+1 steps drain the queue and the next step reports AlreadyDone |
| SearchTermination.StepNeverVisitsTarget | src/controller.rs:57-77 | a step never marks an unvisited target cell VISITED |
| SearchTermination.RunNeverVisitsTarget | src/controller.rs:48-78 | over any number of steps from an all-on-grid queue, an unvisited on-grid target stays unvisited |
| SearchTermination.StepKeepsTargetUnvisited | src/controller.rs:57-77 | one step keeps the cell at the (set) target index unvisited |
| SearchTermination.RunKeepsTargetUnvisited | src/controller.rs:48-78 | over any number of steps from an all-on-grid queue, the cell at the (set) target index stays unvisited |
| App.SetSearchEndpoints | src/model.rs:40-44 | the grid records both endpoints, keeps every cell, and the searcher's queue becomes [source] |

## Left out

- Grids.Empty: requires `n_rows * n_cols <= isize::MAX` instead of modelling `usize` overflow of the product; grids are assumed to fit in a vector (`Valid`), as any allocated grid does.
- Debug-mode overflow panic in `neighbors`: when a coordinate is `i64::MAX` or `2^63`, adding an offset overflows `i64`. The model uses unbounded arithmetic. That gives the same list as release-mode wrap-around, because every such candidate falls off the grid either way.
- `AppState::new`, `fill_randomly`, `regenerate_grid` and `search_step_delay`: random wall generation and floating-point slider and duration arithmetic.
- `AppState::step_search` and `toggle_paused`: the first relies on a return value that the steppers do not produce, and the second is a UI toggle.
- The `GridSearchStepper` trait's `bool` result: neither implementation returns one, so `Outcome` reports the exit taken instead.
- `println!` tracing inside `step_search`.
- The `Arc` copy-on-write sharing and the `Data`/`Lens`/`Clone` derives: a grid is a plain value.
- The bit layout of `CellInfo`: the numeric flag values are not observable.
- `NEIGHBOR_OFFSETS_8WAY`: it is unused.
- src/view.rs (painting, layout, timer, colour table) and src/main.rs (an unrelated demo): user interface code.
- The body of `is_untouched`: it is not defined in src/model.rs or src/controller.rs, so its meaning (not WALL, not VISITED, not FRONTIER) is assumed rather than taken from the Rust code.
