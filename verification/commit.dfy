/** Committing a pair (tryMatch): check the identity, value and
    line-of-sight rules, then mark the chosen cells matched. */
module Commit {
  import opened Wrappers
  import opened Types
  import opened Grid
  import opened Pairing

  datatype MatchResult = MatchResult(success: bool, updated: seq<Cell>)

  /** The cell after a successful commit of a and b: matched when it carries
      the identity of either. */
  function Mark(c: Cell, a: Cell, b: Cell): Cell {
    if c.id == a.id || c.id == b.id then c.(matched := true) else c
  }

  /** tryMatch. A missing selection is None; the source's reference identity
      test `a === b` is equality of the two cell values. */
  function TryMatch(a: Option<Cell>, b: Option<Cell>, grid: seq<Cell>, cols: int): (r: MatchResult)
    requires a.Some? && b.Some? ==> InGrid(a.value, grid, cols) && InGrid(b.value, grid, cols)
    ensures |r.updated| == |grid|
    ensures r.success <==>
              && a.Some? && b.Some? && a != b
              && CanMatch(a.value, b.value)
              && IsPathClear(a.value, b.value, grid, cols)
    ensures !r.success ==> r.updated == grid
  {
    if a.None? || b.None? then MatchResult(false, grid)
    else if a == b then MatchResult(false, grid)
    else if !CanMatch(a.value, b.value) then MatchResult(false, grid)
    else if !IsPathClear(a.value, b.value, grid, cols) then MatchResult(false, grid)
    else MatchResult(true, seq(|grid|, i requires 0 <= i < |grid| => Mark(grid[i], a.value, b.value)))
  }

  /** A successful commit marks matched exactly the cells carrying either
      chosen identity, and changes nothing else. */
  lemma TryMatchMarks(a: Cell, b: Cell, grid: seq<Cell>, cols: int)
    requires InGrid(a, grid, cols) && InGrid(b, grid, cols)
    requires TryMatch(Some(a), Some(b), grid, cols).success
    ensures var g := TryMatch(Some(a), Some(b), grid, cols).updated;
            forall i :: 0 <= i < |grid| ==>
              && g[i].matched == (grid[i].matched || grid[i].id in {a.id, b.id})
              && g[i].(matched := grid[i].matched) == grid[i]
  {
  }

  /** A commit never brings a cell back into play and never moves one. */
  lemma TryMatchOnlyRetires(a: Option<Cell>, b: Option<Cell>, grid: seq<Cell>, cols: int)
    requires a.Some? && b.Some? ==> InGrid(a.value, grid, cols) && InGrid(b.value, grid, cols)
    ensures var g := TryMatch(a, b, grid, cols).updated;
            && (forall i :: 0 <= i < |g| && Live(g[i]) ==> Live(grid[i]))
            && (cols > 0 && Positioned(grid, cols) ==> Positioned(g, cols))
            && RemainingUnmatched(g) <= RemainingUnmatched(grid)
  {
    var g := TryMatch(a, b, grid, cols).updated;
    if TryMatch(a, b, grid, cols).success {
      TryMatchMarks(a.value, b.value, grid, cols);
    }
    RemainingMonotone(grid, g);
  }

  /** When the two picks are the board's own cells, a successful commit
      retires both, so at least two live cells fewer remain. */
  lemma {:induction false} TryMatchRetiresPair(a: Cell, b: Cell, grid: seq<Cell>, cols: int)
    requires InGrid(a, grid, cols) && InGrid(b, grid, cols)
    requires grid[IdxOf(a, cols)] == a && grid[IdxOf(b, cols)] == b
    requires TryMatch(Some(a), Some(b), grid, cols).success
    ensures var g := TryMatch(Some(a), Some(b), grid, cols).updated;
            && g[IdxOf(a, cols)].matched && g[IdxOf(b, cols)].matched
            && RemainingUnmatched(g) <= RemainingUnmatched(grid) - 2
  {
    var g := TryMatch(Some(a), Some(b), grid, cols).updated;
    var p, q := IdxOf(a, cols), IdxOf(b, cols);
    assert a != b && CanMatch(a, b);
    assert p != q;
    assert Live(grid[p]) && Live(grid[q]);
    TryMatchMarks(a, b, grid, cols);
    assert g[p].matched by {
      assert grid[p].id in {a.id, b.id};
    }
    assert g[q].matched by {
      assert grid[q].id in {a.id, b.id};
    }
    TryMatchOnlyRetires(Some(a), Some(b), grid, cols);
    RemainingDropsTwo(grid, g, p, q);
  }

  /** The two-by-two completion scenario: one live pair (3 and 7) beside an
      already matched pair; committing the live pair finishes the board,
      whatever the identities. */
  lemma CompletionExample(ia: Id, ib: Id, ic: Id, id: Id)
    ensures var grid := [Cell(ia, 0, 0, 3, false), Cell(ib, 0, 1, 7, false),
                         Cell(ic, 1, 0, 5, true), Cell(id, 1, 1, 5, true)];
            var r := TryMatch(Some(grid[0]), Some(grid[1]), grid, 2);
            r.success && RemainingUnmatched(r.updated) == 0
  {
    var grid := [Cell(ia, 0, 0, 3, false), Cell(ib, 0, 1, 7, false),
                 Cell(ic, 1, 0, 5, true), Cell(id, 1, 1, 5, true)];
    IsPathClearAdjacent(grid[0], grid[1], grid, 2);
    var r := TryMatch(Some(grid[0]), Some(grid[1]), grid, 2);
    assert forall i :: 0 <= i < |r.updated| ==> !Live(r.updated[i]);
  }
}
