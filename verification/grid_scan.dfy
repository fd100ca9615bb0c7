/**
  The whole-grid operations of `Grid` in src/model.rs: `regenerate`, which
  visits every cell in row-major order, and the two enumerations
  `cell_states` and `cell_origins` that rendering consumes.

  The Rust code's enumerations are lazy iterators; here they are materialised
  as sequences, which yield the same items in the same order.
 */
module GridScans {
  import opened Cells
  import opened Grids

  /** `regenerate`: every cell becomes WALL exactly when the generator says so,
      and loses FRONTIER and VISITED. The generator is asked once per cell in
      row-major order, so whatever it returns amounts to one answer per
      (row, column): a function of the position stands for it. */
  method Regenerate(g: Grid, wallAt: (usize, usize) -> bool) returns (h: Grid)
    requires Valid(g)
    ensures Valid(h) && SameShape(g, h)
    ensures forall row, col :: InBounds(g, row, col) ==>
      && IsWall(h, row, col) == wallAt(row, col)
      && !IsFrontier(h, row, col)
      && !IsVisited(h, row, col)
      && SameOrigin(CellAt(h, row, col), CellAt(g, row, col))
  {
    h := g;
    var row: usize := 0;
    while row < g.nRows
      invariant 0 <= row <= g.nRows
      invariant Valid(h) && SameShape(g, h)
      invariant forall r, c :: InBounds(g, r, c) ==>
        CellAt(h, r, c) == (if r < row then WithStateFlags(CellAt(g, r, c), if wallAt(r, c) then Wall else Open)
                            else CellAt(g, r, c))
    {
      var col: usize := 0;
      while col < g.nCols
        invariant 0 <= col <= g.nCols
        invariant Valid(h) && SameShape(g, h)
        invariant forall r, c :: InBounds(g, r, c) ==>
          CellAt(h, r, c) == (if r < row || (r == row && c < col)
                              then WithStateFlags(CellAt(g, r, c), if wallAt(r, c) then Wall else Open)
                              else CellAt(g, r, c))
      {
        h := SetWall(h, row, col, wallAt(row, col));
        col := col + 1;
      }
      row := row + 1;
    }
  }

  /** `cell_states`: one (row, column, state) triple per cell, in row-major
      order. The i-th triple names the cell whose index is i. */
  method CellStates(g: Grid) returns (out: seq<(usize, usize, CellState)>)
    requires Valid(g)
    ensures |out| == g.nRows * g.nCols
    ensures forall i :: 0 <= i < |out| ==>
      && InBounds(g, out[i].0, out[i].1)
      && RcToIdx(g, out[i].0, out[i].1) == i
      && out[i].2 == StateAt(g, out[i].0, out[i].1)
    ensures forall row, col :: InBounds(g, row, col) ==>
      out[RcToIdx(g, row, col)] == (row, col, StateAt(g, row, col))
  {
    out := [];
    var idx: usize := 0;
    while idx < g.nRows * g.nCols
      invariant 0 <= idx <= |g.cells|
      invariant |out| == idx
      invariant forall i :: 0 <= i < idx ==>
        && InBounds(g, out[i].0, out[i].1)
        && RcToIdx(g, out[i].0, out[i].1) == i
        && out[i].2 == StateAt(g, out[i].0, out[i].1)
    {
      var (row, col) := IdxToRc(g, idx);
      out := out + [(row, col, StateAt(g, row, col))];
      idx := idx + 1;
    }
    forall row, col | InBounds(g, row, col)
      ensures out[RcToIdx(g, row, col)] == (row, col, StateAt(g, row, col))
    {
      var (r, c, _) := out[RcToIdx(g, row, col)];
      if (r, c) != (row, col) {
        RcToIdxInjective(g, r, c, row, col);
      }
    }
  }

  /** `cell_origins`: one (row, column, dr, dc) quadruple per cell, in
      row-major order, carrying the decoded origin direction of that cell. */
  method CellOrigins(g: Grid) returns (out: seq<(usize, usize, int, int)>)
    requires Valid(g)
    ensures |out| == g.nRows * g.nCols
    ensures forall i :: 0 <= i < |out| ==>
      && InBounds(g, out[i].0, out[i].1)
      && RcToIdx(g, out[i].0, out[i].1) == i
      && (out[i].2, out[i].3) == OriginOffset(CellAt(g, out[i].0, out[i].1))
  {
    out := [];
    var idx: usize := 0;
    while idx < g.nRows * g.nCols
      invariant 0 <= idx <= |g.cells|
      invariant |out| == idx
      invariant forall i :: 0 <= i < idx ==>
        && InBounds(g, out[i].0, out[i].1)
        && RcToIdx(g, out[i].0, out[i].1) == i
        && (out[i].2, out[i].3) == OriginOffset(CellAt(g, out[i].0, out[i].1))
    {
      var (row, col) := IdxToRc(g, idx);
      var (dr, dc) := OriginOffset(g.cells[idx]);
      out := out + [(row, col, dr, dc)];
      idx := idx + 1;
    }
  }
}
