/**
  The `Grid` value of src/model.rs: a row-major vector of cell flag sets with
  its dimensions and the indices of the source and target cells.

  `Grid` is a plain value here; the Rust code's copy-on-write `Arc` around the
  cell vector changes nothing that a caller can observe.
 */
module Grids {
  import opened Cells

  const USIZE_MAX: int := 0xFFFF_FFFF_FFFF_FFFF
  const ISIZE_MAX: int := 0x7FFF_FFFF_FFFF_FFFF
  const I64_MAX: int := 0x7FFF_FFFF_FFFF_FFFF

  /** A 64-bit unsigned machine integer. */
  type usize = x: int | 0 <= x <= USIZE_MAX

  /** `GridPos`: a (row, column) pair. */
  type Pos = (usize, usize)

  datatype Grid = Grid(
    nRows: usize,
    nCols: usize,
    cells: seq<CellInfo>,
    targetIdx: usize,
    sourceIdx: usize)

  /** What every grid the operations build satisfies: one cell per (row, column),
      no more cells than a vector may hold, and each role index either names a
      cell or is the "unset" sentinel `usize::MAX`. */
  predicate Valid(g: Grid) {
    && g.nRows * g.nCols <= ISIZE_MAX
    && |g.cells| == g.nRows * g.nCols
    && (g.targetIdx < |g.cells| || g.targetIdx == USIZE_MAX)
    && (g.sourceIdx < |g.cells| || g.sourceIdx == USIZE_MAX)
  }

  predicate InBounds(g: Grid, row: int, col: int) {
    0 <= row < g.nRows && 0 <= col < g.nCols
  }

  /** Grids that differ at most in their cell contents. */
  predicate SameShape(g: Grid, h: Grid) {
    g.nRows == h.nRows && g.nCols == h.nCols && g.targetIdx == h.targetIdx && g.sourceIdx == h.sourceIdx
  }

  lemma MulMonotonic(a: int, b: int, m: int)
    requires a <= b && 0 <= m
    ensures a * m <= b * m
  {
    assert b * m - a * m == (b - a) * m;
  }

  lemma RowMajorBound(row: int, col: int, n: int, m: int)
    requires 0 <= row < n && 0 <= col < m
    ensures 0 <= row * m + col < n * m
  {
    MulMonotonic(0, row, m);
    MulMonotonic(row + 1, n, m);
  }

  lemma DivModUnique(a: int, m: int, q: int, r: int)
    requires m > 0 && 0 <= r < m && a == q * m + r
    ensures a / m == q && a % m == r
  {
    var q', r' := a / m, a % m;
    assert a == q' * m + r';
    if q' < q {
      MulMonotonic(q' + 1, q, m);
    } else if q' > q {
      MulMonotonic(q + 1, q', m);
    }
  }

  /** `rc_to_idx`: the row-major index of a cell, or the sentinel `usize::MAX`
      for a position off the grid. */
  function RcToIdx(g: Grid, row: usize, col: usize): (idx: usize)
    requires Valid(g)
    ensures InBounds(g, row, col) <==> idx < |g.cells|
    ensures !InBounds(g, row, col) ==> idx == USIZE_MAX
    ensures InBounds(g, row, col) ==> idx == row * g.nCols + col
  {
    if row >= g.nRows || col >= g.nCols then USIZE_MAX
    else RowMajorBound(row, col, g.nRows, g.nCols); row * g.nCols + col
  }

  /** `idx_to_rc`: the position of a row-major index. Every index of a cell
      names an in-bounds position that `rc_to_idx` maps back to it. */
  function IdxToRc(g: Grid, idx: usize): (p: Pos)
    requires Valid(g) && g.nCols > 0
    ensures idx < |g.cells| ==> InBounds(g, p.0, p.1) && RcToIdx(g, p.0, p.1) == idx
  {
    IndexSplit(idx, g.nRows, g.nCols);
    (idx / g.nCols, idx % g.nCols)
  }

  lemma IndexSplit(idx: int, n: int, m: int)
    requires m > 0 && 0 <= idx
    ensures 0 <= idx / m <= idx && 0 <= idx % m < m
    ensures idx == (idx / m) * m + idx % m
    ensures idx < n * m ==> idx / m < n
  {
    var row := idx / m;
    MulMonotonic(0, row, m);
    MulMonotonic(1, m, row);
    if row >= n {
      MulMonotonic(n, row, m);
    }
  }

  /** For in-bounds positions `idx_to_rc` inverts `rc_to_idx`; together with
      the contract of `IdxToRc` the two are mutually inverse bijections
      between positions and cell indices. */
  lemma RcToIdxRoundTrip(g: Grid, row: usize, col: usize)
    requires Valid(g) && InBounds(g, row, col)
    ensures IdxToRc(g, RcToIdx(g, row, col)) == (row, col)
  {
    DivModUnique(RcToIdx(g, row, col), g.nCols, row, col);
  }

  /** Distinct in-bounds positions occupy distinct cells. */
  lemma RcToIdxInjective(g: Grid, r1: usize, c1: usize, r2: usize, c2: usize)
    requires Valid(g) && InBounds(g, r1, c1) && InBounds(g, r2, c2)
    requires (r1, c1) != (r2, c2)
    ensures RcToIdx(g, r1, c1) != RcToIdx(g, r2, c2)
  {
    RcToIdxRoundTrip(g, r1, c1);
    RcToIdxRoundTrip(g, r2, c2);
  }

  /** The flag set of an in-bounds cell. */
  function CellAt(g: Grid, row: usize, col: usize): CellInfo
    requires Valid(g) && InBounds(g, row, col)
  {
    g.cells[RcToIdx(g, row, col)]
  }

  /** `Grid::empty`: every cell without flags, source and target unset. */
  function Empty(nRows: usize, nCols: usize): (g: Grid)
    requires nRows * nCols <= ISIZE_MAX
    ensures Valid(g) && g.nRows == nRows && g.nCols == nCols
    ensures g.targetIdx == USIZE_MAX && g.sourceIdx == USIZE_MAX
    ensures forall row, col :: InBounds(g, row, col) ==> CellAt(g, row, col) == NoFlags
    ensures forall row, col :: InBounds(g, row, col) ==> StateAt(g, row, col) == Open
  {
    Grid(nRows, nCols, seq(nRows * nCols, _ => NoFlags), USIZE_MAX, USIZE_MAX)
  }

  /** `is_wall`: the WALL flag of the cell at (row, col). */
  predicate IsWall(g: Grid, row: usize, col: usize)
    requires Valid(g) && InBounds(g, row, col)
  {
    CellAt(g, row, col).wall
  }

  /** `is_visited`: the VISITED flag of the cell at (row, col). */
  predicate IsVisited(g: Grid, row: usize, col: usize)
    requires Valid(g) && InBounds(g, row, col)
  {
    CellAt(g, row, col).visited
  }

  /** `is_frontier`: the FRONTIER flag of the cell at (row, col). */
  predicate IsFrontier(g: Grid, row: usize, col: usize)
    requires Valid(g) && InBounds(g, row, col)
  {
    CellAt(g, row, col).frontier
  }

  /** `is_source` compares indices: an off-grid query maps to the sentinel and
      so answers true exactly when no source is set. */
  predicate IsSource(g: Grid, row: usize, col: usize)
    requires Valid(g)
  {
    g.sourceIdx == RcToIdx(g, row, col)
  }

  /** `is_target`, with the same off-grid behaviour as `IsSource`. */
  predicate IsTarget(g: Grid, row: usize, col: usize)
    requires Valid(g)
  {
    g.targetIdx == RcToIdx(g, row, col)
  }

  /** `is_untouched`, which the search calls but which is not defined in
      src/model.rs or src/controller.rs. Assumed meaning: a cell that is
      neither a wall, nor visited, nor already on the frontier, i.e. none of
      its three state flags is set. */
  predicate IsUntouched(g: Grid, row: usize, col: usize)
    requires Valid(g) && InBounds(g, row, col)
  {
    CellUntouched(CellAt(g, row, col))
  }

  /** The flag queries read the cell stored at row-major index
      row * n_cols + col. */
  lemma FlagQueryLayout(g: Grid, row: usize, col: usize)
    requires Valid(g) && InBounds(g, row, col)
    ensures var i := row * g.nCols + col;
      && i < |g.cells|
      && (IsWall(g, row, col) <==> g.cells[i].wall)
      && (IsVisited(g, row, col) <==> g.cells[i].visited)
      && (IsFrontier(g, row, col) <==> g.cells[i].frontier)
  {
    RowMajorBound(row, col, g.nRows, g.nCols);
  }

  /** `is_untouched` holds exactly when none of the three state flags of the
      cell stored at row-major index row * n_cols + col is set. */
  lemma UntouchedLayout(g: Grid, row: usize, col: usize)
    requires Valid(g) && InBounds(g, row, col)
    ensures var i := row * g.nCols + col;
      && i < |g.cells|
      && (IsUntouched(g, row, col) <==> StateFlagCount(g.cells[i]) == 0)
  {
    RowMajorBound(row, col, g.nRows, g.nCols);
  }

  /** The role queries compare the role index with row * n_cols + col on the
      grid; off the grid they answer whether the role is unset. */
  lemma RoleQueryLayout(g: Grid, row: usize, col: usize)
    requires Valid(g)
    ensures InBounds(g, row, col) ==>
      && (IsSource(g, row, col) <==> g.sourceIdx == row * g.nCols + col)
      && (IsTarget(g, row, col) <==> g.targetIdx == row * g.nCols + col)
    ensures !InBounds(g, row, col) ==>
      && (IsSource(g, row, col) <==> g.sourceIdx == USIZE_MAX)
      && (IsTarget(g, row, col) <==> g.targetIdx == USIZE_MAX)
  {
  }

  /** The role queries read only the dimensions and the role indices. */
  lemma RolesDependOnShape(g: Grid, h: Grid, row: usize, col: usize)
    requires Valid(g) && Valid(h) && SameShape(g, h)
    ensures InBounds(h, row, col) == InBounds(g, row, col)
    ensures IsTarget(h, row, col) == IsTarget(g, row, col)
    ensures IsSource(h, row, col) == IsSource(g, row, col)
  {
    assert RcToIdx(h, row, col) == RcToIdx(g, row, col);
  }

  /** The positions `cell_state` can classify without reading outside the cell
      vector: cells of the grid, and any position whose index equals a role
      index (including off-grid ones while that role is unset). */
  predicate Classifiable(g: Grid, row: usize, col: usize)
    requires Valid(g)
  {
    InBounds(g, row, col) || IsTarget(g, row, col) || IsSource(g, row, col)
  }

  /** `cell_state`: TARGET, then SOURCE, then WALL, then VISITED, then FRONTIER,
      then OPEN -- the first that applies wins. */
  function StateAt(g: Grid, row: usize, col: usize): (s: CellState)
    requires Valid(g) && Classifiable(g, row, col)
    ensures s == Target <==> IsTarget(g, row, col)
    ensures s == Source <==> !IsTarget(g, row, col) && IsSource(g, row, col)
    ensures s == Wall <==> !IsTarget(g, row, col) && !IsSource(g, row, col) && IsWall(g, row, col)
    ensures s == Visited <==>
      !IsTarget(g, row, col) && !IsSource(g, row, col) && !IsWall(g, row, col) && IsVisited(g, row, col)
    ensures s == Frontier <==>
      && !IsTarget(g, row, col) && !IsSource(g, row, col)
      && !IsWall(g, row, col) && !IsVisited(g, row, col) && IsFrontier(g, row, col)
    ensures s == Open <==>
      && !IsTarget(g, row, col) && !IsSource(g, row, col)
      && IsUntouched(g, row, col)
  {
    var idx := RcToIdx(g, row, col);
    if idx == g.targetIdx then Target
    else if idx == g.sourceIdx then Source
    else if g.cells[idx].wall then Wall
    else if g.cells[idx].visited then Visited
    else if g.cells[idx].frontier then Frontier
    else Open
  }

  /** `set_target`: the target index becomes the position's index, which is
      the sentinel (target unset) for an off-grid position. */
  function SetTarget(g: Grid, row: usize, col: usize): (h: Grid)
    requires Valid(g)
    ensures Valid(h) && h.cells == g.cells
    ensures h.nRows == g.nRows && h.nCols == g.nCols && h.sourceIdx == g.sourceIdx
    ensures IsTarget(h, row, col)
    ensures !InBounds(g, row, col) ==> h.targetIdx == USIZE_MAX
  {
    g.(targetIdx := RcToIdx(g, row, col))
  }

  /** `set_source`, the counterpart of `SetTarget`. */
  function SetSource(g: Grid, row: usize, col: usize): (h: Grid)
    requires Valid(g)
    ensures Valid(h) && h.cells == g.cells
    ensures h.nRows == g.nRows && h.nCols == g.nCols && h.targetIdx == g.targetIdx
    ensures IsSource(h, row, col)
    ensures !InBounds(g, row, col) ==> h.sourceIdx == USIZE_MAX
  {
    g.(sourceIdx := RcToIdx(g, row, col))
  }

  /** The grid with the cell at (row, col) replaced by `v`. */
  function WithCell(g: Grid, row: usize, col: usize, v: CellInfo): (h: Grid)
    requires Valid(g) && InBounds(g, row, col)
    ensures Valid(h) && SameShape(g, h)
    ensures CellAt(h, row, col) == v
    ensures forall r, c :: InBounds(g, r, c) && (r, c) != (row, col) ==> CellAt(h, r, c) == CellAt(g, r, c)
    ensures forall i :: 0 <= i < |g.cells| && i != RcToIdx(g, row, col) ==> h.cells[i] == g.cells[i]
  {
    var h := g.(cells := g.cells[RcToIdx(g, row, col) := v]);
    forall r, c | InBounds(g, r, c) && (r, c) != (row, col)
      ensures CellAt(h, r, c) == CellAt(g, r, c)
    {
      RcToIdxInjective(g, r, c, row, col);
    }
    h
  }

  /** `set_state`: WALL, FRONTIER and VISITED of the cell are rewritten so that
      at most the one named by `s` is set (none for OPEN, SOURCE and TARGET);
      SOURCE and TARGET also move the matching role index to this cell.
      Writing to an off-grid position panics in the Rust code, hence the
      precondition. */
  function SetState(g: Grid, row: usize, col: usize, s: CellState): (h: Grid)
    requires Valid(g) && InBounds(g, row, col)
    ensures Valid(h) && h.nRows == g.nRows && h.nCols == g.nCols
    ensures StateFlagCount(CellAt(h, row, col)) == (if s in {Wall, Frontier, Visited} then 1 else 0)
    ensures IsWall(h, row, col) <==> s == Wall
    ensures IsFrontier(h, row, col) <==> s == Frontier
    ensures IsVisited(h, row, col) <==> s == Visited
    ensures SameOrigin(CellAt(h, row, col), CellAt(g, row, col))
    ensures forall r, c :: InBounds(g, r, c) && (r, c) != (row, col) ==> CellAt(h, r, c) == CellAt(g, r, c)
    ensures forall i :: 0 <= i < |g.cells| && i != RcToIdx(g, row, col) ==> h.cells[i] == g.cells[i]
    ensures s == Target ==> IsTarget(h, row, col) && h.sourceIdx == g.sourceIdx
    ensures s == Source ==> IsSource(h, row, col) && h.targetIdx == g.targetIdx
    ensures s !in {Source, Target} ==> h.sourceIdx == g.sourceIdx && h.targetIdx == g.targetIdx
    // read back through the classification
    ensures s == Target ==> StateAt(h, row, col) == Target
    ensures s == Source && !IsTarget(g, row, col) ==> StateAt(h, row, col) == Source
    ensures s !in {Source, Target} && !IsTarget(g, row, col) && !IsSource(g, row, col) ==>
      StateAt(h, row, col) == s
  {
    var idx := RcToIdx(g, row, col);
    var g' := WithCell(g, row, col, WithStateFlags(CellAt(g, row, col), s));
    if s == Target then g'.(targetIdx := idx)
    else if s == Source then g'.(sourceIdx := idx)
    else g'
  }

  /** `set_wall`: `set_state` with WALL or OPEN. */
  function SetWall(g: Grid, row: usize, col: usize, isWall: bool): (h: Grid)
    requires Valid(g) && InBounds(g, row, col)
    ensures Valid(h) && SameShape(g, h)
    ensures IsWall(h, row, col) == isWall && !IsFrontier(h, row, col) && !IsVisited(h, row, col)
    ensures SameOrigin(CellAt(h, row, col), CellAt(g, row, col))
    ensures forall r, c :: InBounds(g, r, c) && (r, c) != (row, col) ==> CellAt(h, r, c) == CellAt(g, r, c)
  {
    SetState(g, row, col, if isWall then Wall else Open)
  }

  /** `mark_visited`: `set_state` with VISITED. */
  function MarkVisited(g: Grid, row: usize, col: usize): (h: Grid)
    requires Valid(g) && InBounds(g, row, col)
    ensures Valid(h) && SameShape(g, h)
    ensures IsVisited(h, row, col) && !IsWall(h, row, col) && !IsFrontier(h, row, col)
    ensures SameOrigin(CellAt(h, row, col), CellAt(g, row, col))
    ensures forall r, c :: InBounds(g, r, c) && (r, c) != (row, col) ==> CellAt(h, r, c) == CellAt(g, r, c)
    ensures forall i :: 0 <= i < |g.cells| && i != RcToIdx(g, row, col) ==> h.cells[i] == g.cells[i]
  {
    SetState(g, row, col, Visited)
  }

  /** `mark_frontier`: `set_state` with FRONTIER. */
  function MarkFrontier(g: Grid, row: usize, col: usize): (h: Grid)
    requires Valid(g) && InBounds(g, row, col)
    ensures Valid(h) && SameShape(g, h)
    ensures IsFrontier(h, row, col) && !IsWall(h, row, col) && !IsVisited(h, row, col)
    ensures SameOrigin(CellAt(h, row, col), CellAt(g, row, col))
    ensures forall r, c :: InBounds(g, r, c) && (r, c) != (row, col) ==> CellAt(h, r, c) == CellAt(g, r, c)
    ensures forall i :: 0 <= i < |g.cells| && i != RcToIdx(g, row, col) ==> h.cells[i] == g.cells[i]
  {
    SetState(g, row, col, Frontier)
  }

  /** Marking a cell visited twice is the same as marking it once. */
  lemma MarkVisitedIdempotent(g: Grid, row: usize, col: usize)
    requires Valid(g) && InBounds(g, row, col)
    ensures MarkVisited(MarkVisited(g, row, col), row, col) == MarkVisited(g, row, col)
  {
  }

  /** `clear`: every cell loses all its flags; the role indices stay. */
  function Clear(g: Grid): (h: Grid)
    requires Valid(g)
    ensures Valid(h) && SameShape(g, h)
    ensures forall row, col :: InBounds(g, row, col) ==> CellAt(h, row, col) == NoFlags
    ensures forall row, col :: InBounds(g, row, col) ==>
      StateAt(h, row, col) == (if IsTarget(g, row, col) then Target else if IsSource(g, row, col) then Source else Open)
  {
    g.(cells := seq(|g.cells|, _ => NoFlags))
  }

  /** `NEIGHBOR_OFFSETS_4WAY`: up, left, right, down. */
  const NeighborOffsets: seq<(int, int)> := [(-1, 0), (0, -1), (0, 1), (1, 0)]

  /** `x as i64` for a 64-bit unsigned value: values past `i64::MAX` wrap to
      negatives. */
  function AsI64(x: usize): int {
    if x <= I64_MAX then x else x - (USIZE_MAX + 1)
  }

  /** Row-major order on positions, the order `neighbors` yields them in. */
  predicate RowMajorBefore(a: Pos, b: Pos) {
    a.0 < b.0 || (a.0 == b.0 && a.1 < b.1)
  }

  /** Orthogonal adjacency of p to the signed position (r, c). */
  predicate Adjacent(p: Pos, r: int, c: int) {
    (if p.0 < r then r - p.0 else p.0 - r) + (if p.1 < c then c - p.1 else p.1 - c) == 1
  }

  /** The signed position (r, c) as a one-element list when it lies on the
      grid, else the empty list: the filter-and-convert step of `neighbors`. */
  function KeepInBounds(g: Grid, r: int, c: int): (ps: seq<Pos>)
    ensures forall p: Pos :: p in ps <==> InBounds(g, p.0, p.1) && p == (r, c)
    ensures |ps| <= 1
  {
    if 0 <= r < g.nRows && 0 <= c < g.nCols then [(r as usize, c as usize)] else []
  }

  /** The k-th offset applied to the signed position (r, c), kept only when
      it lies on the grid. */
  function Candidate(g: Grid, r: int, c: int, k: nat): seq<Pos>
    requires k < 4
  {
    KeepInBounds(g, NeighborOffsets[k].0 + r, NeighborOffsets[k].1 + c)
  }

  /** No position is listed twice. */
  predicate Distinct(ps: seq<Pos>) {
    forall i, j :: 0 <= i < j < |ps| ==> ps[i] != ps[j]
  }

  predicate SortedRowMajor(ps: seq<Pos>) {
    forall i, j :: 0 <= i < j < |ps| ==> RowMajorBefore(ps[i], ps[j])
  }

  /** The four candidates of (r, c), in offset order, are the in-bounds
      positions adjacent to (r, c), in row-major order. */
  lemma CandidatesShape(g: Grid, r: int, c: int)
    ensures var ns := Candidate(g, r, c, 0) + Candidate(g, r, c, 1) + Candidate(g, r, c, 2) + Candidate(g, r, c, 3);
      && |ns| <= 4
      && (forall p: Pos :: p in ns <==> InBounds(g, p.0, p.1) && Adjacent(p, r, c))
      && SortedRowMajor(ns)
  {
    var c0, c1, c2, c3 := Candidate(g, r, c, 0), Candidate(g, r, c, 1), Candidate(g, r, c, 2), Candidate(g, r, c, 3);
    var ns := c0 + c1 + c2 + c3;
    forall p: Pos
      ensures p in ns <==> InBounds(g, p.0, p.1) && Adjacent(p, r, c)
    {
      AdjacentCases(p, r, c);
    }
    SortedAppend([], c0);
    SortedAppend(c0, c1);
    SortedAppend(c0 + c1, c2);
    SortedAppend(c0 + c1 + c2, c3);
  }

  /** The four positions adjacent to (r, c), written out. */
  lemma AdjacentCases(p: Pos, r: int, c: int)
    ensures Adjacent(p, r, c) <==>
      || (p.0 == r - 1 && p.1 == c) || (p.0 == r && p.1 == c - 1)
      || (p.0 == r && p.1 == c + 1) || (p.0 == r + 1 && p.1 == c)
  {
  }

  /** Appending at most one position that comes after all of `a` keeps `a`
      sorted. */
  lemma SortedAppend(a: seq<Pos>, x: seq<Pos>)
    requires SortedRowMajor(a) && |x| <= 1
    requires forall p, q :: p in a && q in x ==> RowMajorBefore(p, q)
    ensures SortedRowMajor(a + x)
  {
    var ax := a + x;
    forall i, j | 0 <= i < j < |ax|
      ensures RowMajorBefore(ax[i], ax[j])
    {
      if j >= |a| {
        assert ax[i] in a && ax[j] in x;
      }
    }
  }

  /** `neighbors`: the in-bounds orthogonal neighbours, up, left, right, down.
      The Rust code converts the position to `i64` before adding the offsets, so
      adjacency is measured on the signed values. It also casts `n_rows` and
      `n_cols` to `i64`. On a `Valid` grid with at least one column both fit,
      since the cell count is at most isize::MAX; with no columns there is no
      neighbour whatever `n_rows` becomes. So the bounds are compared
      unconverted. */
  function Neighbors(g: Grid, row: usize, col: usize): (ns: seq<Pos>)
    ensures |ns| <= 4
    ensures forall p :: p in ns ==> InBounds(g, p.0, p.1)
    ensures forall p: Pos :: p in ns <==> InBounds(g, p.0, p.1) && Adjacent(p, AsI64(row), AsI64(col))
    ensures SortedRowMajor(ns)
  {
    var r, c := AsI64(row), AsI64(col);
    CandidatesShape(g, r, c);
    Candidate(g, r, c, 0) + Candidate(g, r, c, 1) + Candidate(g, r, c, 2) + Candidate(g, r, c, 3)
  }

  /** For a cell of the grid the neighbours are exactly the in-bounds cells at
      Manhattan distance one; the cell itself is not among them and none is
      listed twice. */
  lemma NeighborsOfCell(g: Grid, row: usize, col: usize)
    requires Valid(g) && InBounds(g, row, col)
    ensures forall p: Pos :: p in Neighbors(g, row, col) <==> InBounds(g, p.0, p.1) && Adjacent(p, row, col)
    ensures (row, col) !in Neighbors(g, row, col)
    ensures Distinct(Neighbors(g, row, col))
  {
    MulMonotonic(1, g.nCols, g.nRows);
    MulMonotonic(1, g.nRows, g.nCols);
    assert AsI64(row) == row && AsI64(col) == col;
    var ns := Neighbors(g, row, col);
    forall i, j | 0 <= i < j < |ns|
      ensures ns[i] != ns[j]
    {
      assert RowMajorBefore(ns[i], ns[j]);
    }
  }

  /** The interior cell (2, 2) of a grid of at least 4 x 4 cells. */
  lemma NeighborsOfInteriorCell(g: Grid)
    requires Valid(g) && g.nRows >= 4 && g.nCols >= 4
    ensures Neighbors(g, 2, 2) == [(1, 2), (2, 1), (2, 3), (3, 2)]
  {
  }

  /** `set_origin`: records on the target cell the direction of `source`.
      Writing to an off-grid target panics in the Rust code, hence the
      precondition. */
  function SetOrigin(g: Grid, source: Pos, target: Pos): (h: Grid)
    requires Valid(g) && InBounds(g, target.0, target.1)
    ensures Valid(h) && SameShape(g, h)
    ensures OriginOffset(CellAt(h, target.0, target.1)) == (Sign(source.0 - target.0), Sign(source.1 - target.1))
    ensures !(CellAt(h, target.0, target.1).fromUp && CellAt(h, target.0, target.1).fromDown)
    ensures !(CellAt(h, target.0, target.1).fromLeft && CellAt(h, target.0, target.1).fromRight)
    ensures SameStateFlags(CellAt(h, target.0, target.1), CellAt(g, target.0, target.1))
    ensures forall r, c :: InBounds(g, r, c) && (r, c) != target ==> CellAt(h, r, c) == CellAt(g, r, c)
  {
    WithCell(g, target.0, target.1,
      WithOrigin(CellAt(g, target.0, target.1), source.0, source.1, target.0, target.1))
  }
}
