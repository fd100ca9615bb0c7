/**
  The per-cell flag set of the grid (`CellInfo` in src/model.rs) and the
  classification a cell is displayed with (`CellState`).

  The Rust code packs the seven flags into one byte with `bitflags`; the bit
  values are never observed, so a record of seven booleans stands for it.
 */
module Cells {

  /** WALL, FRONTIER and VISITED, plus the four origin bits that record which
      neighbour a cell was reached from. */
  datatype CellInfo = CellInfo(
    wall: bool,
    frontier: bool,
    visited: bool,
    fromLeft: bool,
    fromRight: bool,
    fromUp: bool,
    fromDown: bool)

  /** `CellInfo::empty()`: no flag set. */
  const NoFlags := CellInfo(false, false, false, false, false, false, false)

  /** How a cell is classified for display. */
  datatype CellState = Open | Wall | Frontier | Visited | Source | Target

  /** Number of the three mutually exclusive state flags that are set. */
  function StateFlagCount(info: CellInfo): nat {
    (if info.wall then 1 else 0) + (if info.frontier then 1 else 0) + (if info.visited then 1 else 0)
  }

  /** None of WALL, FRONTIER and VISITED is set. */
  predicate CellUntouched(info: CellInfo) {
    !info.wall && !info.visited && !info.frontier
  }

  /** True when the two flag sets carry the same four origin bits. */
  predicate SameOrigin(a: CellInfo, b: CellInfo) {
    && a.fromLeft == b.fromLeft
    && a.fromRight == b.fromRight
    && a.fromUp == b.fromUp
    && a.fromDown == b.fromDown
  }

  /** True when the two flag sets agree on WALL, FRONTIER and VISITED. */
  predicate SameStateFlags(a: CellInfo, b: CellInfo) {
    a.wall == b.wall && a.frontier == b.frontier && a.visited == b.visited
  }

  /** The flag rewrite done by `set_state` on one cell: WALL, FRONTIER and
      VISITED each become "is this the requested state". A SOURCE, TARGET or
      OPEN request therefore clears all three. */
  function WithStateFlags(info: CellInfo, s: CellState): (r: CellInfo)
    ensures StateFlagCount(r) == (if s in {Wall, Frontier, Visited} then 1 else 0)
    ensures r.wall <==> s == Wall
    ensures r.frontier <==> s == Frontier
    ensures r.visited <==> s == Visited
    ensures SameOrigin(r, info)
  {
    info.(wall := s == Wall, frontier := s == Frontier, visited := s == Visited)
  }

  /** Sign of an integer, as a unit step. */
  function Sign(x: int): int {
    if x < 0 then -1 else if x > 0 then 1 else 0
  }

  /** `CellInfo::origin_offset`: the (row, column) step towards the cell this
      one was reached from. FROM_UP is read before FROM_DOWN and FROM_LEFT
      before FROM_RIGHT. */
  function OriginOffset(info: CellInfo): (d: (int, int))
    ensures -1 <= d.0 <= 1 && -1 <= d.1 <= 1
    ensures d == (0, 0) <==> !info.fromUp && !info.fromDown && !info.fromLeft && !info.fromRight
    ensures info.fromUp ==> d.0 == -1
    ensures !info.fromUp && info.fromDown ==> d.0 == 1
    ensures info.fromLeft ==> d.1 == -1
    ensures !info.fromLeft && info.fromRight ==> d.1 == 1
  {
    var dr := if info.fromUp then -1 else if info.fromDown then 1 else 0;
    var dc := if info.fromLeft then -1 else if info.fromRight then 1 else 0;
    (dr, dc)
  }

  /** The bit update `set_origin` applies to the target cell, given the
      coordinates of the cell it was reached from (sr, sc) and its own (tr, tc).
      Decoding the result gives back the direction of the source. */
  function WithOrigin(info: CellInfo, sr: int, sc: int, tr: int, tc: int): (r: CellInfo)
    ensures OriginOffset(r) == (Sign(sr - tr), Sign(sc - tc))
    ensures !(r.fromUp && r.fromDown) && !(r.fromLeft && r.fromRight)
    ensures SameStateFlags(r, info)
  {
    info.(fromUp := sr < tr, fromDown := sr > tr, fromLeft := sc < tc, fromRight := sc > tc)
  }
}
