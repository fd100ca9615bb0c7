/**
  Properties of repeated `step_search` calls on one grid.

  Every step that does any work strictly decreases the queue length plus the
  number of untouched cells: dropping an entry shortens the queue, and an
  expansion pops one entry while each entry it pushes turns an untouched cell
  into a frontier cell. So a search started by `reset` drains its queue
  within n_rows * n_cols + 1 steps, after which every step reports
  `AlreadyDone`.
 */
module SearchTermination {
  import opened Cells
  import opened Grids
  import opened Search

  function Indicator(b: bool): nat {
    if b then 1 else 0
  }

  /** Number of untouched cells in a cell vector. */
  function CountUntouched(cells: seq<CellInfo>): (n: nat)
    ensures n <= |cells|
  {
    if |cells| == 0 then 0
    else Indicator(CellUntouched(cells[0])) + CountUntouched(cells[1..])
  }

  /** Replacing one cell changes the count by that cell's contribution only. */
  lemma {:induction false} CountUntouchedUpdate(cells: seq<CellInfo>, i: nat, v: CellInfo)
    requires i < |cells|
    ensures CountUntouched(cells[i := v]) + Indicator(CellUntouched(cells[i]))
         == CountUntouched(cells) + Indicator(CellUntouched(v))
  {
    if i == 0 {
      assert cells[i := v][1..] == cells[1..];
    } else {
      assert cells[i := v][1..] == cells[1..][i - 1 := v];
      CountUntouchedUpdate(cells[1..], i - 1, v);
    }
  }

  /** `set_state` on one cell, seen through the count. */
  lemma SetStateCount(g: Grid, row: usize, col: usize, s: CellState)
    requires Valid(g) && InBounds(g, row, col)
    ensures CountUntouched(SetState(g, row, col, s).cells) + Indicator(IsUntouched(g, row, col))
         == CountUntouched(g.cells) + Indicator(CellUntouched(CellAt(SetState(g, row, col, s), row, col)))
  {
    var h := SetState(g, row, col, s);
    var idx := RcToIdx(g, row, col);
    assert h.cells == g.cells[idx := CellAt(h, row, col)];
    CountUntouchedUpdate(g.cells, idx, CellAt(h, row, col));
  }

  /** The neighbour loop removes exactly as many untouched cells as it pushes
      positions. */
  lemma {:induction false} ExpandCount(g: Grid, ns: seq<Pos>, q: seq<Pos>)
    requires Valid(g) && AllInBounds(g, ns) && Distinct(ns)
    ensures CountUntouched(Expand(g, ns, q).0.cells) + |Untouched(g, ns)| == CountUntouched(g.cells)
    decreases |ns|
  {
    if |ns| > 0 {
      var (nr, nc) := ns[0];
      if IsUntouched(g, nr, nc) {
        var g' := MarkFrontier(g, nr, nc);
        assert ns[0] !in ns[1..];
        UntouchedFrame(g, g', ns[1..]);
        SetStateCount(g, nr, nc, Frontier);
        ExpandCount(g', ns[1..], q + [(nr, nc)]);
      } else {
        ExpandCount(g, ns[1..], q);
      }
    }
  }

  /** Queue length plus untouched cells: the quantity every working step
      decreases. */
  function Measure(g: Grid, b: BreadthFirstSearcher): nat {
    |b.frontier| + CountUntouched(g.cells)
  }

  /** Every step except on an empty queue strictly decreases the measure. */
  lemma StepDecreasesMeasure(b: BreadthFirstSearcher, g: Grid)
    requires CanStep(g, b)
    ensures Step(b, g).outcome != AlreadyDone ==>
      Measure(Step(b, g).grid, Step(b, g).searcher) < Measure(g, b)
  {
    var s := Step(b, g);
    if s.outcome == Expanded {
      var (row, col) := b.frontier[0];
      var rest := b.frontier[1..];
      var g1 := MarkVisited(g, row, col);
      var ns := Neighbors(g1, row, col);
      NeighborsDependOnShape(g, g1, row, col);
      NeighborsOfCell(g, row, col);
      SetStateCount(g, row, col, Visited);
      ExpandCount(g1, ns, rest);
      assert s.grid == Expand(g1, ns, rest).0;
    }
  }

  /** `k` steps in a row. Keeping every queued position on the grid keeps
      each step defined. */
  function Run(g: Grid, b: BreadthFirstSearcher, k: nat): (r: (Grid, BreadthFirstSearcher))
    requires Valid(g) && AllInBounds(g, b.frontier)
    ensures Valid(r.0) && SameShape(g, r.0) && AllInBounds(r.0, r.1.frontier)
    decreases k
  {
    if k == 0 then (g, b)
    else
      assert b.frontier != [] ==> b.frontier[0] in b.frontier;
      var s := Step(b, g);
      Run(s.grid, s.searcher, k - 1)
  }

  /** Once the queue is empty, further steps change nothing. */
  lemma {:induction false} RunIdle(g: Grid, b: BreadthFirstSearcher, k: nat)
    requires Valid(g) && b.frontier == []
    ensures Run(g, b, k) == (g, b)
  {
    if k > 0 {
      RunIdle(g, b, k - 1);
    }
  }

  /** One step of `Run` on a non-empty queue: the step is defined, keeps the
      queue on the grid, and lowers the measure. */
  lemma RunUnfold(g: Grid, b: BreadthFirstSearcher, k: nat)
    requires Valid(g) && AllInBounds(g, b.frontier) && k > 0 && b.frontier != []
    ensures b.frontier[0] in b.frontier && CanStep(g, b)
    ensures var s := Step(b, g);
      && Valid(s.grid) && AllInBounds(s.grid, s.searcher.frontier)
      && Measure(s.grid, s.searcher) < Measure(g, b)
      && Run(g, b, k) == Run(s.grid, s.searcher, k - 1)
  {
    assert b.frontier[0] in b.frontier;
    StepDecreasesMeasure(b, g);
  }

  /** Within `Measure(g, b)` steps the queue is drained. */
  lemma {:induction false} RunDrainsQueue(g: Grid, b: BreadthFirstSearcher, k: nat)
    requires Valid(g) && AllInBounds(g, b.frontier)
    requires k >= Measure(g, b)
    ensures Run(g, b, k).1.frontier == []
    decreases k
  {
    if b.frontier == [] {
      RunIdle(g, b, k);
    } else {
      RunUnfold(g, b, k);
      var s := Step(b, g);
      RunDrainsQueue(s.grid, s.searcher, k - 1);
    }
  }

  /** A search seeded by `reset` with an on-grid source drains its queue
      within n_rows * n_cols + 1 steps, whatever the grid holds; the next
      step then reports `AlreadyDone`. */
  lemma SearchFromResetTerminates(g: Grid, b: BreadthFirstSearcher, source: Pos, target: Pos)
    requires Valid(g) && InBounds(g, source.0, source.1)
    ensures var r := Run(g, Reset(b, source, target), g.nRows * g.nCols + 1);
      && r.1.frontier == []
      && Step(r.1, r.0).outcome == AlreadyDone
  {
    var b0 := Reset(b, source, target);
    var k := g.nRows * g.nCols + 1;
    assert AllInBounds(g, b0.frontier);
    assert Measure(g, b0) <= k;
    RunDrainsQueue(g, b0, k);
    var r := Run(g, b0, k);
    assert r.1.frontier == [];
    assert Step(r.1, r.0).outcome == AlreadyDone;
  }

  /** A step never marks the target cell visited: the target is only ever
      popped and dropped, or pushed as frontier. */
  lemma StepNeverVisitsTarget(b: BreadthFirstSearcher, g: Grid, tr: usize, tc: usize)
    requires CanStep(g, b) && InBounds(g, tr, tc) && IsTarget(g, tr, tc)
    requires !IsVisited(g, tr, tc)
    ensures !IsVisited(Step(b, g).grid, tr, tc)
  {
  }

  /** The target is set and its cell is not VISITED, read through the cell
      vector directly. */
  predicate TargetUnvisited(g: Grid) {
    Valid(g) && g.targetIdx < |g.cells| && !g.cells[g.targetIdx].visited
  }

  /** One step keeps the target cell unvisited. */
  lemma StepKeepsTargetUnvisited(b: BreadthFirstSearcher, g: Grid)
    requires CanStep(g, b) && TargetUnvisited(g)
    ensures TargetUnvisited(Step(b, g).grid)
  {
    var (tr, tc) := IdxToRc(g, g.targetIdx);
    StepNeverVisitsTarget(b, g, tr, tc);
    RolesDependOnShape(g, Step(b, g).grid, tr, tc);
  }

  /** One step of `Run`, named: it keeps the queue on the grid and the target
      unvisited, and the remaining `k - 1` steps start from its result. */
  lemma RunStepKeepsTarget(g: Grid, b: BreadthFirstSearcher, k: nat) returns (g': Grid, b': BreadthFirstSearcher)
    requires Valid(g) && AllInBounds(g, b.frontier) && k > 0 && b.frontier != []
    requires TargetUnvisited(g)
    ensures AllInBounds(g', b'.frontier) && TargetUnvisited(g')
    ensures Run(g, b, k) == Run(g', b', k - 1)
  {
    RunUnfold(g, b, k);
    StepKeepsTargetUnvisited(b, g);
    var s := Step(b, g);
    g', b' := s.grid, s.searcher;
  }

  lemma {:induction false} RunKeepsTargetUnvisited(g: Grid, b: BreadthFirstSearcher, k: nat)
    requires Valid(g) && AllInBounds(g, b.frontier) && TargetUnvisited(g)
    ensures TargetUnvisited(Run(g, b, k).0)
    decreases k
  {
    var r := Run(g, b, k);
    if b.frontier == [] {
      RunIdle(g, b, k);
      assert r.0 == g;
    } else if k == 0 {
      assert r.0 == g;
    } else {
      var g', b' := RunStepKeepsTarget(g, b, k);
      RunKeepsTargetUnvisited(g', b', k - 1);
      assert r == Run(g', b', k - 1);
    }
  }

  /** Over any number of steps the target cell is never marked VISITED, so a
      search that never reaches the target leaves it unvisited. */
  lemma RunNeverVisitsTarget(g: Grid, b: BreadthFirstSearcher, k: nat, tr: usize, tc: usize)
    requires Valid(g) && AllInBounds(g, b.frontier)
    requires InBounds(g, tr, tc) && IsTarget(g, tr, tc) && !IsVisited(g, tr, tc)
    ensures !IsVisited(Run(g, b, k).0, tr, tc)
  {
    RunKeepsTargetUnvisited(g, b, k);
    RolesDependOnShape(g, Run(g, b, k).0, tr, tc);
  }
}
