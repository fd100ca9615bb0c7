/**
  The part of `AppState` in src/model.rs that ties the grid to the searcher:
  choosing the endpoints of a search.
 */
module App {
  import opened Grids
  import opened Search

  /** `set_search_endpoints`: the grid records source and target (the
      sentinel for an off-grid position) and the searcher is reset to start
      from the source. No cell flag changes. */
  function SetSearchEndpoints(g: Grid, d: DynamicGridSearcher, source: Pos, target: Pos)
    : (r: (Grid, DynamicGridSearcher))
    requires Valid(g)
    ensures Valid(r.0) && r.0.nRows == g.nRows && r.0.nCols == g.nCols && r.0.cells == g.cells
    ensures IsSource(r.0, source.0, source.1) && IsTarget(r.0, target.0, target.1)
    ensures r.1.delegate.frontier == [source]
  {
    var g' := SetTarget(SetSource(g, source.0, source.1), target.0, target.1);
    (g', DynamicReset(d, source, target))
  }
}
