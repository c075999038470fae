/** Row injection (addRow): deal the front of the reserve into the first
    spent row, compacting the board upward when no row is spent. */
module Inject {
  import opened Wrappers
  import opened Types
  import opened Grid

  /** Every cell of row r is empty or matched. The row is read as the
      source's slice reads it: slots past the end of the board are not part
      of it. */
  predicate RowSpent(grid: seq<Cell>, cols: int, r: int) {
    forall i :: r * cols <= i < r * cols + cols && 0 <= i < |grid| ==> !Live(grid[i])
  }

  /** The search for a target row: the first spent row among r .. rows-1. */
  function FirstSpentRow(grid: seq<Cell>, cols: int, rows: int, r: int): (t: Option<int>)
    ensures t.Some? ==> r <= t.value < rows && RowSpent(grid, cols, t.value)
    ensures t.Some? ==> forall r' :: r <= r' < t.value ==> !RowSpent(grid, cols, r')
    ensures t.None? <==> forall r' :: r <= r' < rows ==> !RowSpent(grid, cols, r')
    decreases if r < rows then rows - r else 0
  {
    if r >= rows then None
    else if RowSpent(grid, cols, r) then Some(r)
    else FirstSpentRow(grid, cols, rows, r + 1)
  }

  /** The board shifted up one row: each slot takes the cell one row below,
      renumbered, and the last row is emptied in place. */
  function Compact(grid: seq<Cell>, cols: int, rows: int): seq<Cell>
    requires cols > 0 && |grid| == rows * cols
  {
    seq(|grid|, i requires 0 <= i < |grid| =>
      if i + cols < |grid| then grid[i + cols].(row := i / cols, col := i % cols)
      else grid[i].(row := rows - 1, col := i % cols, value := 0, matched := false))
  }

  /** The first |vals| slots of row t take the values in order, unmatched. */
  function FillRow(grid: seq<Cell>, cols: int, t: int, vals: seq<int>): seq<Cell> {
    seq(|grid|, i requires 0 <= i < |grid| =>
      if t * cols <= i < t * cols + |vals| then grid[i].(value := vals[i - t * cols], matched := false)
      else grid[i])
  }

  /** `g` is `grid` with the values `vals` dealt into row t from its left
      end: every other slot is untouched. */
  predicate RowDealt(grid: seq<Cell>, g: seq<Cell>, cols: int, t: int, vals: seq<int>)
    requires cols > 0 && |vals| <= cols
  {
    && |g| == |grid|
    && (forall i :: 0 <= i < |grid| && i / cols == t && i % cols < |vals| ==>
          g[i] == grid[i].(value := vals[i % cols], matched := false))
    && (forall i :: 0 <= i < |grid| && !(i / cols == t && i % cols < |vals|) ==> g[i] == grid[i])
  }

  /** `g` is `grid` shifted up one row (identities, values and match flags
      kept, positions renumbered), with the last row emptied and then dealt
      `vals` from its left end; the last row keeps its slots' identities. */
  predicate ShiftedAndDealt(grid: seq<Cell>, g: seq<Cell>, cols: int, rows: int, vals: seq<int>)
    requires cols > 0 && |vals| <= cols && |grid| == rows * cols
  {
    && |g| == |grid|
    && (forall i :: 0 <= i < |grid| && i / cols < rows - 1 ==>
          i + cols < |grid| && g[i] == grid[i + cols].(row := i / cols, col := i % cols))
    && (forall i :: 0 <= i < |grid| && i / cols == rows - 1 ==>
          && g[i].id == grid[i].id && g[i].row == rows - 1 && g[i].col == i % cols && !g[i].matched
          && g[i].value == (if i % cols < |vals| then vals[i % cols] else 0))
  }

  /** addRow. The source consumes the reserve in place with `shift`; here
      the remaining suffix is returned. */
  function AddRow(grid: seq<Cell>, pool: seq<int>, level: LevelSpec): (d: Deal)
    requires level.cols > 0 && |grid| == level.rows * level.cols
    ensures |d.grid| == |grid|
    ensures |pool| == 0 ==> d == Deal(grid, pool)
    ensures d.pool == pool[Min(level.cols, |pool|)..]
    ensures |pool| % level.cols == 0 ==> |d.pool| % level.cols == 0
  {
    if |pool| == 0 then Deal(grid, pool)
    else
      var cols, rows := level.cols, level.rows;
      var n := Min(cols, |pool|);
      PoolStaysRowMultiple(|pool|, cols);
      match FirstSpentRow(grid, cols, rows, 0)
      case Some(t) => Deal(FillRow(grid, cols, t, pool[..n]), pool[n..])
      case None => Deal(FillRow(Compact(grid, cols, rows), cols, rows - 1, pool[..n]), pool[n..])
  }

  /** What addRow does to the board with a non-empty reserve: deal the front
      of the reserve into the first spent row, or, with no spent row,
      compact and deal into the last row. */
  lemma AddRowDeals(grid: seq<Cell>, pool: seq<int>, level: LevelSpec)
    requires level.cols > 0 && |grid| == level.rows * level.cols && |pool| > 0
    ensures var g := AddRow(grid, pool, level).grid;
            var vals := pool[..Min(level.cols, |pool|)];
            match FirstSpentRow(grid, level.cols, level.rows, 0)
            case Some(t) => RowDealt(grid, g, level.cols, t, vals)
            case None => ShiftedAndDealt(grid, g, level.cols, level.rows, vals)
  {
    match FirstSpentRow(grid, level.cols, level.rows, 0)
    case Some(t) => AddRowFillsLowestSpentRow(grid, pool, level, t);
    case None => AddRowCompactsFullBoard(grid, pool, level);
  }

  lemma PoolStaysRowMultiple(len: int, cols: int)
    requires cols > 0 && len > 0
    ensures len % cols == 0 ==> (len - Min(cols, len)) % cols == 0
  {
    if len % cols == 0 && len < cols {
      assert false;
    }
    if len % cols == 0 {
      DivModOf(len / cols - 1, 0, cols);
      assert len - cols == (len / cols - 1) * cols;
    }
  }

  lemma FillRowDeals(grid: seq<Cell>, cols: int, t: int, vals: seq<int>)
    requires cols > 0 && |vals| <= cols
    ensures RowDealt(grid, FillRow(grid, cols, t, vals), cols, t, vals)
  {
    var g := FillRow(grid, cols, t, vals);
    forall i | 0 <= i < |grid|
      ensures (t * cols <= i < t * cols + |vals|) <==> (i / cols == t && i % cols < |vals|)
      ensures t * cols <= i < t * cols + |vals| ==> i - t * cols == i % cols
    {
      RowOfSlot(i, t, cols);
      SplitSlot(i, cols);
    }
  }

  lemma CompactDeals(grid: seq<Cell>, cols: int, rows: int, vals: seq<int>)
    requires cols > 0 && |vals| <= cols && |grid| == rows * cols
    ensures ShiftedAndDealt(grid, FillRow(Compact(grid, cols, rows), cols, rows - 1, vals), cols, rows, vals)
  {
    var c := Compact(grid, cols, rows);
    var g := FillRow(c, cols, rows - 1, vals);
    FillRowDeals(c, cols, rows - 1, vals);
    forall i | 0 <= i < |grid| && i / cols < rows - 1
      ensures i + cols < |grid| && g[i] == grid[i + cols].(row := i / cols, col := i % cols)
    {
      NextRowSlot(i, rows, cols);
      assert g[i] == c[i];
    }
    forall i | 0 <= i < |grid| && i / cols == rows - 1
      ensures && g[i].id == grid[i].id && g[i].row == rows - 1 && g[i].col == i % cols && !g[i].matched
              && g[i].value == (if i % cols < |vals| then vals[i % cols] else 0)
    {
      NextRowSlot(i, rows, cols);
      assert c[i] == grid[i].(row := rows - 1, col := i % cols, value := 0, matched := false);
    }
  }

  /** A slot has a slot one row below it exactly when it is above the last
      row. */
  lemma NextRowSlot(i: int, rows: int, cols: int)
    requires cols > 0 && 0 <= i < rows * cols
    ensures i + cols < rows * cols <==> i / cols < rows - 1
    ensures i / cols <= rows - 1
  {
    SplitSlot(i, cols);
    SlotInRange(i / cols, i % cols, rows, cols);
    SlotInRange(i / cols + 1, i % cols, rows, cols);
    assert i + cols == (i / cols + 1) * cols + i % cols;
  }

  /** The target of a non-empty reserve is the lowest spent row, and only
      that row changes. */
  lemma AddRowFillsLowestSpentRow(grid: seq<Cell>, pool: seq<int>, level: LevelSpec, t: int)
    requires level.cols > 0 && |grid| == level.rows * level.cols && |pool| > 0
    requires 0 <= t < level.rows && RowSpent(grid, level.cols, t)
    requires forall r :: 0 <= r < t ==> !RowSpent(grid, level.cols, r)
    ensures RowDealt(grid, AddRow(grid, pool, level).grid, level.cols, t, pool[..Min(level.cols, |pool|)])
  {
    var cols := level.cols;
    var vals := pool[..Min(cols, |pool|)];
    assert FirstSpentRow(grid, cols, level.rows, 0) == Some(t);
    assert AddRow(grid, pool, level).grid == FillRow(grid, cols, t, vals);
    FillRowDeals(grid, cols, t, vals);
  }

  /** With no spent row, the board compacts and the last row takes the front
      of the reserve. */
  lemma AddRowCompactsFullBoard(grid: seq<Cell>, pool: seq<int>, level: LevelSpec)
    requires level.cols > 0 && |grid| == level.rows * level.cols && |pool| > 0
    requires forall r :: 0 <= r < level.rows ==> !RowSpent(grid, level.cols, r)
    ensures ShiftedAndDealt(grid, AddRow(grid, pool, level).grid, level.cols, level.rows,
                            pool[..Min(level.cols, |pool|)])
  {
    var cols, rows := level.cols, level.rows;
    var vals := pool[..Min(cols, |pool|)];
    assert FirstSpentRow(grid, cols, rows, 0).None?;
    assert AddRow(grid, pool, level).grid == FillRow(Compact(grid, cols, rows), cols, rows - 1, vals);
    CompactDeals(grid, cols, rows, vals);
  }

  /** On compaction the original top row is lost: once the board has two rows
      or more, the result does not depend on row 0. */
  lemma AddRowForgetsTopRow(grid: seq<Cell>, grid': seq<Cell>, pool: seq<int>, level: LevelSpec)
    requires level.cols > 0 && level.rows >= 2 && |pool| > 0
    requires |grid| == level.rows * level.cols && |grid'| == |grid|
    requires forall r :: 0 <= r < level.rows ==> !RowSpent(grid, level.cols, r)
    requires forall r :: 0 <= r < level.rows ==> !RowSpent(grid', level.cols, r)
    requires forall i :: level.cols <= i < |grid| ==> grid'[i] == grid[i]
    ensures AddRow(grid', pool, level) == AddRow(grid, pool, level)
  {
    var cols, rows := level.cols, level.rows;
    var g, g' := AddRow(grid, pool, level).grid, AddRow(grid', pool, level).grid;
    AddRowDeals(grid, pool, level);
    AddRowDeals(grid', pool, level);
    forall i | 0 <= i < |grid|
      ensures g'[i] == g[i]
    {
      SplitSlot(i, cols);
      RowOfSlot(i, i / cols, cols);
      SlotInRange(i / cols, i % cols, rows, cols);
      if i / cols == rows - 1 {
        MulAtLeast(rows - 1, cols);
        assert i >= (rows - 1) * cols;
      }
    }
  }

  /** Row injection keeps every cell at the position of its slot. */
  lemma AddRowKeepsPositions(grid: seq<Cell>, pool: seq<int>, level: LevelSpec)
    requires level.cols > 0 && |grid| == level.rows * level.cols
    requires Positioned(grid, level.cols)
    ensures Positioned(AddRow(grid, pool, level).grid, level.cols)
  {
    var cols, rows := level.cols, level.rows;
    var g := AddRow(grid, pool, level).grid;
    if |pool| > 0 {
      AddRowDeals(grid, pool, level);
    }
    if |pool| > 0 && FirstSpentRow(grid, cols, rows, 0).None? {
      forall i | 0 <= i < |g|
        ensures g[i].row == i / cols && g[i].col == i % cols
      {
        SplitSlot(i, cols);
        SlotInRange(i / cols, i % cols, rows, cols);
      }
    }
  }
}
