/**
  The incremental breadth-first search of src/controller.rs: a FIFO queue of
  positions and a step that does one unit of work on the grid, plus the
  one-variant `DynamicGridSearcher` that delegates to it.

  A step is a pure transition from (grid, queue) to (grid, queue, outcome).
  The Rust `step_search` returns nothing; `Outcome` names which of its
  four exits was taken.
 */
module Search {
  import opened Cells
  import opened Grids

  datatype BreadthFirstSearcher = BreadthFirstSearcher(frontier: seq<Pos>)

  /** The exits of `step_search`: the queue was empty; the popped position
      is the target; it was already visited; it was expanded. */
  datatype Outcome = AlreadyDone | FoundTarget | AlreadyVisited | Expanded

  /** The grid, searcher and outcome after one step. */
  datatype Stepped<S> = Stepped(grid: Grid, searcher: S, outcome: Outcome)

  predicate AllInBounds(g: Grid, ps: seq<Pos>) {
    forall p :: p in ps ==> InBounds(g, p.0, p.1)
  }

  /** The positions of `ps` that are untouched in `g`, in their order. */
  function Untouched(g: Grid, ps: seq<Pos>): (us: seq<Pos>)
    requires Valid(g) && AllInBounds(g, ps)
    ensures |us| <= |ps|
    ensures forall p :: p in us <==> p in ps && IsUntouched(g, p.0, p.1)
  {
    if |ps| == 0 then []
    else if IsUntouched(g, ps[0].0, ps[0].1) then [ps[0]] + Untouched(g, ps[1..])
    else Untouched(g, ps[1..])
  }

  /** Which positions are untouched depends only on the cells at those
      positions. */
  lemma {:induction false} UntouchedFrame(g: Grid, h: Grid, ps: seq<Pos>)
    requires Valid(g) && Valid(h) && g.nRows == h.nRows && g.nCols == h.nCols
    requires AllInBounds(g, ps)
    requires forall p :: p in ps ==> CellAt(h, p.0, p.1) == CellAt(g, p.0, p.1)
    ensures Untouched(h, ps) == Untouched(g, ps)
  {
    if |ps| > 0 {
      assert ps[0] in ps;
      UntouchedFrame(g, h, ps[1..]);
    }
  }

  /** The neighbour loop of `step_search`: each neighbour found untouched in
      the grid as it stands is marked FRONTIER and appended to the queue.
      On distinct positions this appends exactly the positions untouched at
      the start, marks exactly them, and changes no other cell. */
  function Expand(g: Grid, ns: seq<Pos>, q: seq<Pos>): (r: (Grid, seq<Pos>))
    requires Valid(g) && AllInBounds(g, ns) && Distinct(ns)
    ensures Valid(r.0) && SameShape(g, r.0)
    ensures r.1 == q + Untouched(g, ns)
    ensures forall p :: p in Untouched(g, ns) ==>
      IsFrontier(r.0, p.0, p.1) && !IsWall(r.0, p.0, p.1) && !IsVisited(r.0, p.0, p.1)
    ensures forall p :: p in Untouched(g, ns) ==> SameOrigin(CellAt(r.0, p.0, p.1), CellAt(g, p.0, p.1))
    ensures forall row, col :: InBounds(g, row, col) && (row, col) !in Untouched(g, ns) ==>
      CellAt(r.0, row, col) == CellAt(g, row, col)
    decreases |ns|
  {
    if |ns| == 0 then (g, q)
    else
      var (nr, nc) := ns[0];
      if !IsUntouched(g, nr, nc) then
        Expand(g, ns[1..], q)
      else
        var g' := MarkFrontier(g, nr, nc);
        assert ns[0] !in ns[1..];
        UntouchedFrame(g, g', ns[1..]);
        Expand(g', ns[1..], q + [(nr, nc)])
  }

  /** `BreadthFirstSearcher::new`: the queue is seeded with the off-grid
      position (usize::MAX, usize::MAX) through `reset`. */
  function New(): (b: BreadthFirstSearcher)
    ensures b.frontier == [(USIZE_MAX, USIZE_MAX)]
  {
    Reset(BreadthFirstSearcher([]), (USIZE_MAX, USIZE_MAX), (USIZE_MAX, USIZE_MAX))
  }

  /** `reset`: the queue becomes exactly [source], whatever it held before;
      the target is ignored and no grid is involved. */
  function Reset(b: BreadthFirstSearcher, source: Pos, target: Pos): (b': BreadthFirstSearcher)
    ensures b'.frontier == [source]
  {
    BreadthFirstSearcher([source])
  }

  /** `neighbors` reads only the dimensions of the grid. */
  lemma NeighborsDependOnShape(g: Grid, h: Grid, row: usize, col: usize)
    requires g.nRows == h.nRows && g.nCols == h.nCols
    ensures Neighbors(g, row, col) == Neighbors(h, row, col)
  {
  }

  /** The popped cell (row, col) of `g` ends VISITED in `h`, with WALL and
      FRONTIER clear and its origin bits kept. */
  predicate PoppedVisited(g: Grid, h: Grid, row: usize, col: usize)
    requires Valid(g) && Valid(h) && SameShape(g, h) && InBounds(g, row, col)
  {
    && IsVisited(h, row, col) && !IsWall(h, row, col) && !IsFrontier(h, row, col)
    && SameOrigin(CellAt(h, row, col), CellAt(g, row, col))
  }

  /** Every position of `us` ends FRONTIER in `h`, with WALL and VISITED clear
      and its origin bits kept from `g`. */
  predicate PushedFrontier(g: Grid, h: Grid, us: seq<Pos>)
    requires Valid(g) && Valid(h) && SameShape(g, h) && AllInBounds(g, us)
  {
    forall p :: p in us ==>
      && IsFrontier(h, p.0, p.1) && !IsWall(h, p.0, p.1) && !IsVisited(h, p.0, p.1)
      && SameOrigin(CellAt(h, p.0, p.1), CellAt(g, p.0, p.1))
  }

  /** Every cell of `g` other than (row, col) and the positions of `us` is the
      same in `h`. */
  ghost predicate OthersUnchanged(g: Grid, h: Grid, row: usize, col: usize, us: seq<Pos>)
    requires Valid(g) && Valid(h) && SameShape(g, h)
  {
    forall r: usize, c: usize :: InBounds(g, r, c) && (r, c) != (row, col) && (r, c) !in us ==>
      CellAt(h, r, c) == CellAt(g, r, c)
  }

  /** What expanding the popped on-grid position (row, col) does, taking grid
      `g` and the rest of the queue `rest` to grid `h` and queue `q`: the cell
      ends VISITED; its neighbours untouched in `g` are appended to the queue
      in order and each ends FRONTIER; origin bits are kept; no other cell
      changes. */
  ghost predicate Expansion(g: Grid, row: usize, col: usize, rest: seq<Pos>, h: Grid, q: seq<Pos>) {
    && Valid(g) && InBounds(g, row, col) && Valid(h) && SameShape(g, h)
    && PoppedVisited(g, h, row, col)
    && q == rest + Untouched(g, Neighbors(g, row, col))
    && PushedFrontier(g, h, Untouched(g, Neighbors(g, row, col)))
    && OthersUnchanged(g, h, row, col, Untouched(g, Neighbors(g, row, col)))
  }

  /** The expanding exit of `step_search` for the popped position (row, col)
      and the rest of the queue: mark it visited, then run the neighbour loop. */
  function Visit(g: Grid, row: usize, col: usize, rest: seq<Pos>): (s: (Grid, seq<Pos>))
    requires Valid(g) && InBounds(g, row, col)
    ensures Expansion(g, row, col, rest, s.0, s.1)
  {
    var g1 := MarkVisited(g, row, col);
    NeighborsDependOnShape(g, g1, row, col);
    NeighborsOfCell(g, row, col);
    VisitExpands(g, row, col, rest);
    Expand(g1, Neighbors(g, row, col), rest)
  }

  /** Marking the popped cell visited and then running the neighbour loop over
      its neighbours is an `Expansion`: the popped cell is not among its own
      neighbours, so the loop sees the neighbours' cells as they were. */
  lemma VisitExpands(g: Grid, row: usize, col: usize, rest: seq<Pos>)
    requires Valid(g) && InBounds(g, row, col)
    requires AllInBounds(g, Neighbors(g, row, col)) && Distinct(Neighbors(g, row, col))
    requires (row, col) !in Neighbors(g, row, col)
    ensures var r := Expand(MarkVisited(g, row, col), Neighbors(g, row, col), rest);
      Expansion(g, row, col, rest, r.0, r.1)
  {
    var g1 := MarkVisited(g, row, col);
    assert PoppedVisited(g, g1, row, col);
    ExpandAfterMark(g, g1, row, col, Neighbors(g, row, col), rest);
  }

  /** The neighbour loop run on a grid `g1` that differs from `g` only at the
      popped cell (row, col), over positions other than (row, col): it keeps
      the popped cell as it is in `g1`, pushes
      the positions untouched in `g`, marks them FRONTIER keeping their origin
      bits from `g`, and leaves every other cell but (row, col) as in `g`. */
  lemma ExpandAfterMark(g: Grid, g1: Grid, row: usize, col: usize, ns: seq<Pos>, rest: seq<Pos>)
    requires Valid(g) && Valid(g1) && SameShape(g, g1) && InBounds(g, row, col)
    requires AllInBounds(g, ns) && Distinct(ns) && (row, col) !in ns
    requires forall r, c :: InBounds(g, r, c) && (r, c) != (row, col) ==> CellAt(g1, r, c) == CellAt(g, r, c)
    requires PoppedVisited(g, g1, row, col)
    ensures var r := Expand(g1, ns, rest);
      && Valid(r.0) && SameShape(g, r.0)
      && PoppedVisited(g, r.0, row, col)
      && r.1 == rest + Untouched(g, ns)
      && PushedFrontier(g, r.0, Untouched(g, ns))
      && OthersUnchanged(g, r.0, row, col, Untouched(g, ns))
  {
    UntouchedFrame(g, g1, ns);
    var r := Expand(g1, ns, rest);
    var us := Untouched(g, ns);
    assert (row, col) !in us;
    assert CellAt(r.0, row, col) == CellAt(g1, row, col);
    forall p | p in us
      ensures SameOrigin(CellAt(r.0, p.0, p.1), CellAt(g, p.0, p.1))
    {
      assert p in ns && p != (row, col);
    }
    forall rr: usize, cc: usize | InBounds(g, rr, cc) && (rr, cc) != (row, col) && (rr, cc) !in us
      ensures CellAt(r.0, rr, cc) == CellAt(g, rr, cc)
    {
      assert CellAt(r.0, rr, cc) == CellAt(g1, rr, cc);
    }
  }

  /** What `step_search` needs to not panic: the popped position, unless it
      is the target, is read with `is_visited` and so must be on the grid. */
  predicate CanStep(g: Grid, b: BreadthFirstSearcher) {
    && Valid(g)
    && (|b.frontier| > 0 && !IsTarget(g, b.frontier[0].0, b.frontier[0].1) ==>
          InBounds(g, b.frontier[0].0, b.frontier[0].1))
  }

  /** `step_search` of `BreadthFirstSearcher`: pop the front; stop if the
      queue was empty, the position is the target, or it is already visited;
      otherwise mark it visited and push its untouched neighbours, each marked
      FRONTIER. */
  function Step(b: BreadthFirstSearcher, g: Grid): (s: Stepped<BreadthFirstSearcher>)
    requires CanStep(g, b)
    ensures Valid(s.grid) && SameShape(g, s.grid)
    // an empty queue: nothing changes
    ensures s.outcome == AlreadyDone <==> |b.frontier| == 0
    ensures s.outcome == AlreadyDone ==> s.grid == g && s.searcher == b
    // the target or a visited position is dropped, and nothing else happens
    ensures s.outcome == FoundTarget <==>
      |b.frontier| > 0 && IsTarget(g, b.frontier[0].0, b.frontier[0].1)
    ensures s.outcome == AlreadyVisited <==>
      && |b.frontier| > 0 && !IsTarget(g, b.frontier[0].0, b.frontier[0].1)
      && IsVisited(g, b.frontier[0].0, b.frontier[0].1)
    ensures s.outcome in {FoundTarget, AlreadyVisited} ==>
      s.grid == g && s.searcher.frontier == b.frontier[1..]
    // expansion
    ensures s.outcome == Expanded ==>
      && Expansion(g, b.frontier[0].0, b.frontier[0].1, b.frontier[1..], s.grid, s.searcher.frontier)
      && |s.searcher.frontier| <= |b.frontier| + 3
    // only positions on the grid are ever pushed
    ensures AllInBounds(g, b.frontier) ==> AllInBounds(s.grid, s.searcher.frontier)
  {
    if |b.frontier| == 0 then
      Stepped(g, b, AlreadyDone)
    else
      var (row, col) := b.frontier[0];
      var rest := b.frontier[1..];
      if IsTarget(g, row, col) then
        Stepped(g, BreadthFirstSearcher(rest), FoundTarget)
      else if IsVisited(g, row, col) then
        Stepped(g, BreadthFirstSearcher(rest), AlreadyVisited)
      else
        var v := Visit(g, row, col, rest);
        Stepped(v.0, BreadthFirstSearcher(v.1), Expanded)
  }

  /** `DynamicGridSearcher`: a closed choice of search strategy, breadth-first
      being the only one. */
  datatype DynamicGridSearcher = BreadthFirst(delegate: BreadthFirstSearcher)

  predicate DynamicCanStep(g: Grid, d: DynamicGridSearcher) {
    match d
    case BreadthFirst(b) => CanStep(g, b)
  }

  /** `step_search` of `DynamicGridSearcher`: exactly the delegate's step. */
  function DynamicStep(d: DynamicGridSearcher, g: Grid): (s: Stepped<DynamicGridSearcher>)
    requires DynamicCanStep(g, d)
    ensures s.grid == Step(d.delegate, g).grid
    ensures s.outcome == Step(d.delegate, g).outcome
    ensures s.searcher == BreadthFirst(Step(d.delegate, g).searcher)
  {
    match d
    case BreadthFirst(b) =>
      var r := Step(b, g);
      Stepped(r.grid, BreadthFirst(r.searcher), r.outcome)
  }

  /** `reset` of `DynamicGridSearcher`: exactly the delegate's reset. */
  function DynamicReset(d: DynamicGridSearcher, source: Pos, target: Pos): (d': DynamicGridSearcher)
    ensures d' == BreadthFirst(Reset(d.delegate, source, target))
    ensures d'.delegate.frontier == [source]
  {
    match d
    case BreadthFirst(b) => BreadthFirst(Reset(b, source, target))
  }

  /** A searcher fresh from `new` holds the off-grid position
      (usize::MAX, usize::MAX); on a grid whose target is unset, `is_target`
      answers true for it, so the first step reports the target found. */
  lemma FreshSearcherFindsUnsetTarget(g: Grid)
    requires Valid(g) && g.targetIdx == USIZE_MAX
    ensures CanStep(g, New())
    ensures Step(New(), g).outcome == FoundTarget
    ensures Step(New(), g).searcher.frontier == []
  {
  }
}
