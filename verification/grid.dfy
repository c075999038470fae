/** The board as a flat row-major sequence of cells: slot addressing, the
    initial deal, and the count of tiles still in play. */
module Grid {
  import opened Types

  /** A cell that is neither empty nor matched. Only live cells can be
      paired, only they block a line of sight, and only they keep a level
      unfinished. */
  predicate Live(c: Cell) {
    c.value != 0 && !c.matched
  }

  predicate Digits(s: seq<int>) {
    forall k :: 0 <= k < |s| ==> 1 <= s[k] <= 9
  }

  /** Flattened slot of a cell, from the position it carries. */
  function IdxOf(c: Cell, cols: int): int {
    c.row * cols + c.col
  }

  /** The cell carries a position whose slot exists in `grid`. */
  predicate InGrid(c: Cell, grid: seq<Cell>, cols: int) {
    cols > 0 && 0 <= c.row && 0 <= c.col < cols && IdxOf(c, cols) < |grid|
  }

  /** Every cell carries the position of the slot it occupies. */
  predicate Positioned(grid: seq<Cell>, cols: int)
    requires cols > 0
  {
    forall i :: 0 <= i < |grid| ==> grid[i].row == i / cols && grid[i].col == i % cols
  }

  // ---------------------------------------------------------------------
  // Row-major arithmetic

  function Abs(x: int): int {
    if x < 0 then -x else x
  }

  function Min(x: int, y: int): int {
    if x <= y then x else y
  }

  function Max(x: int, y: int): int {
    if x <= y then y else x
  }

  lemma MulAtLeast(k: int, cols: int)
    requires k >= 1 && cols > 0
    ensures k * cols >= cols
  {
    assert k * cols == (k - 1) * cols + cols;
  }

  /** Row-major slot order is lexicographic order on (row, col). */
  lemma RowMajorOrder(r: int, c: int, r2: int, c2: int, cols: int)
    requires cols > 0 && 0 <= c < cols && 0 <= c2 < cols
    ensures r * cols + c < r2 * cols + c2 <==> r < r2 || (r == r2 && c < c2)
    ensures r * cols + c == r2 * cols + c2 <==> r == r2 && c == c2
  {
    if r < r2 {
      MulAtLeast(r2 - r, cols);
      assert r2 * cols - r * cols == (r2 - r) * cols;
    } else if r > r2 {
      MulAtLeast(r - r2, cols);
      assert r * cols - r2 * cols == (r - r2) * cols;
    }
  }

  /** Division and remainder recover the row and column of a slot. */
  lemma DivModOf(r: int, c: int, cols: int)
    requires cols > 0 && 0 <= c < cols
    ensures (r * cols + c) / cols == r
    ensures (r * cols + c) % cols == c
  {
    var i := r * cols + c;
    assert i == (i / cols) * cols + i % cols;
    RowMajorOrder(i / cols, i % cols, r, c, cols);
  }

  /** A slot is in range exactly when its row and column are. */
  lemma SlotInRange(r: int, c: int, rows: int, cols: int)
    requires cols > 0 && 0 <= c < cols
    ensures 0 <= r * cols + c < rows * cols <==> 0 <= r < rows
  {
    RowMajorOrder(r, c, rows, 0, cols);
    RowMajorOrder(0, 0, r, c, cols);
  }

  /** The slot index orders cells by (row, col) and splits back into them. */
  lemma SplitSlot(i: int, cols: int)
    requires cols > 0
    ensures i == (i / cols) * cols + i % cols && 0 <= i % cols < cols
  {
  }

  /** Slots in flattened order have non-decreasing rows, and within a row
      non-decreasing columns. */
  lemma SlotOrder(i: int, j: int, cols: int)
    requires cols > 0 && i <= j
    ensures i / cols <= j / cols
    ensures i / cols == j / cols ==> i % cols <= j % cols
  {
    SplitSlot(i, cols);
    SplitSlot(j, cols);
    RowMajorOrder(i / cols, i % cols, j / cols, j % cols, cols);
  }

  /** The slots of row `r` are the indices from r*cols up to, not including,
      (r+1)*cols. */
  lemma RowOfSlot(i: int, r: int, cols: int)
    requires cols > 0
    ensures i / cols == r <==> r * cols <= i < r * cols + cols
  {
    SplitSlot(i, cols);
    RowMajorOrder(r, 0, i / cols, i % cols, cols);
    RowMajorOrder(i / cols, i % cols, r + 1, 0, cols);
  }

  /** IdxOf inverts the row/column split for a cell whose column is in range,
      and lands inside a rows-by-cols board exactly when its row does. */
  lemma IdxOfInverse(c: Cell, rows: int, cols: int)
    requires cols > 0 && 0 <= c.col < cols
    ensures IdxOf(c, cols) / cols == c.row && IdxOf(c, cols) % cols == c.col
    ensures 0 <= IdxOf(c, cols) < rows * cols <==> 0 <= c.row < rows
  {
    DivModOf(c.row, c.col, cols);
    SlotInRange(c.row, c.col, rows, cols);
  }

  // ---------------------------------------------------------------------
  // seedGrid

  /** How many leading slots seedGrid fills: `initialFilledRows` rows,
      clamped to the board. */
  function FilledCells(level: LevelSpec): int {
    if level.initialFilledRows <= 0 then 0
    else if level.initialFilledRows >= level.rows then level.rows * level.cols
    else level.initialFilledRows * level.cols
  }

  /** Length of the reserve seedGrid deals: one value per slot of the rows
      left empty, and none when no row is left empty. */
  function PoolLength(level: LevelSpec): int {
    if level.initialFilledRows >= level.rows then 0
    else level.cols * (level.rows - level.initialFilledRows)
  }

  /** The cell seedGrid puts in slot i. */
  function SeedCell(level: LevelSpec, ids: seq<Id>, draws: seq<int>, i: int): (c: Cell)
    requires level.cols > 0 && level.rows >= 0 && 0 <= i < level.rows * level.cols
    requires |ids| == level.rows * level.cols && |draws| == FilledCells(level)
    ensures c.row < level.initialFilledRows ==> i < |draws| && c.value == draws[i]
    ensures c.row >= level.initialFilledRows ==> c.value == 0
  {
    var row := i / level.cols;
    SeedIndex(i, level);
    Cell(ids[i], row, i % level.cols, if row < level.initialFilledRows then draws[i] else 0, false)
  }

  /** The initial deal. The source samples values at random; here `draws`
      holds the values given to the filled slots, in slot order, and
      `poolDraws` the reserve. `ids` gives every slot its identity. */
  function SeedGrid(level: LevelSpec, ids: seq<Id>, draws: seq<int>, poolDraws: seq<int>): (d: Deal)
    requires level.cols > 0 && level.rows >= 0
    requires |ids| == level.rows * level.cols
    requires |draws| == FilledCells(level) && Digits(draws)
    requires |poolDraws| == PoolLength(level) && Digits(poolDraws)
    ensures |d.grid| == level.rows * level.cols
    ensures |d.pool| == PoolLength(level) && Digits(d.pool)
  {
    var total := level.rows * level.cols;
    var grid := seq(total, i requires 0 <= i < total => SeedCell(level, ids, draws, i));
    Deal(grid, poolDraws)
  }

  /** The layout of the initial deal: every cell at its slot's position,
      unmatched, with its slot's identity; the first initialFilledRows rows
      hold the draws in slot order and the rest are empty. */
  lemma SeedGridLayout(level: LevelSpec, ids: seq<Id>, draws: seq<int>, poolDraws: seq<int>)
    requires level.cols > 0 && level.rows >= 0
    requires |ids| == level.rows * level.cols
    requires |draws| == FilledCells(level) && Digits(draws)
    requires |poolDraws| == PoolLength(level) && Digits(poolDraws)
    ensures var g := SeedGrid(level, ids, draws, poolDraws).grid;
            && |draws| <= |g|
            && Positioned(g, level.cols)
            && (forall i :: 0 <= i < |g| ==> g[i].id == ids[i] && !g[i].matched)
            && (forall i :: 0 <= i < |g| ==> (1 <= g[i].value <= 9 <==> g[i].row < level.initialFilledRows))
            && (forall i :: 0 <= i < |g| && g[i].row >= level.initialFilledRows ==> g[i].value == 0)
            && (forall i :: 0 <= i < |draws| ==> g[i].value == draws[i])
  {
    FilledFits(level);
    SeedCells(level, ids, draws, SeedGrid(level, ids, draws, poolDraws).grid);
  }

  lemma FilledFits(level: LevelSpec)
    requires level.cols > 0 && level.rows >= 0
    ensures 0 <= FilledCells(level) <= level.rows * level.cols
  {
    if 0 < level.initialFilledRows < level.rows {
      SlotInRange(level.initialFilledRows, 0, level.rows, level.cols);
    }
  }

  /** The reserve of a fresh deal is whole rows. */
  lemma PoolWholeRows(level: LevelSpec)
    requires level.cols > 0
    ensures PoolLength(level) % level.cols == 0
  {
    if level.initialFilledRows < level.rows {
      DivModOf(level.rows - level.initialFilledRows, 0, level.cols);
    }
  }

  lemma SeedCells(level: LevelSpec, ids: seq<Id>, draws: seq<int>, grid: seq<Cell>)
    requires level.cols > 0 && level.rows >= 0
    requires |ids| == level.rows * level.cols && |draws| == FilledCells(level) && Digits(draws)
    requires |grid| == level.rows * level.cols
    requires forall i :: 0 <= i < |grid| ==> grid[i] == SeedCell(level, ids, draws, i)
    ensures Positioned(grid, level.cols)
    ensures forall i :: 0 <= i < |grid| ==> grid[i].id == ids[i] && !grid[i].matched
    ensures forall i :: 0 <= i < |grid| ==>
              (1 <= grid[i].value <= 9 <==> grid[i].row < level.initialFilledRows)
    ensures forall i :: 0 <= i < |grid| && grid[i].row >= level.initialFilledRows ==>
              grid[i].value == 0
    ensures forall i :: 0 <= i < |draws| ==> grid[i].value == draws[i]
  {
    forall i | 0 <= i < |grid|
      ensures 1 <= grid[i].value <= 9 <==> grid[i].row < level.initialFilledRows
    {
      var c := SeedCell(level, ids, draws, i);
      if c.row < level.initialFilledRows {
        assert 1 <= draws[i] <= 9;
      }
    }
    forall i | 0 <= i < |draws|
      ensures grid[i].value == draws[i]
    {
      SeedIndex(i, level);
    }
  }

  /** A slot of the board is filled by seedGrid exactly when it is one of the
      first FilledCells(level) slots. */
  lemma SeedIndex(i: int, level: LevelSpec)
    requires level.cols > 0 && level.rows >= 0 && 0 <= i < level.rows * level.cols
    ensures i / level.cols < level.initialFilledRows <==> i < FilledCells(level)
    ensures 0 <= FilledCells(level) <= level.rows * level.cols
  {
    var cols := level.cols;
    SplitSlot(i, cols);
    SlotInRange(i / cols, i % cols, level.rows, cols);
    RowMajorOrder(i / cols, i % cols, level.initialFilledRows, 0, cols);
    SlotInRange(level.initialFilledRows, 0, level.rows, cols);
    if level.initialFilledRows > 0 && level.initialFilledRows < level.rows {
      RowMajorOrder(level.initialFilledRows, 0, level.rows, 0, cols);
    }
  }

  // ---------------------------------------------------------------------
  // remainingUnmatched

  /** Number of live cells on the board. */
  function RemainingUnmatched(grid: seq<Cell>): (n: nat)
    ensures n <= |grid|
    ensures n == 0 <==> forall i :: 0 <= i < |grid| ==> !Live(grid[i])
  {
    if |grid| == 0 then 0
    else
      var rest := grid[..|grid| - 1];
      assert forall i :: 0 <= i < |rest| ==> rest[i] == grid[i];
      RemainingUnmatched(rest) + (if Live(grid[|grid| - 1]) then 1 else 0)
  }

  /** The slots holding live cells. */
  function LiveSlots(grid: seq<Cell>): set<int> {
    set i | 0 <= i < |grid| && Live(grid[i])
  }

  /** The count is the size of the set of live slots. */
  lemma {:induction false} RemainingIsLiveSlots(grid: seq<Cell>)
    ensures RemainingUnmatched(grid) == |LiveSlots(grid)|
  {
    if |grid| > 0 {
      var n := |grid| - 1;
      var rest := grid[..n];
      RemainingIsLiveSlots(rest);
      assert LiveSlots(rest) == set i | 0 <= i < n && Live(grid[i]);
      if Live(grid[n]) {
        assert LiveSlots(grid) == LiveSlots(rest) + {n};
      } else {
        assert LiveSlots(grid) == LiveSlots(rest);
      }
    }
  }

  /** A subset is no larger than its superset, and removing it leaves the
      difference in size. */
  lemma SubsetSize(small: set<int>, big: set<int>)
    requires small <= big
    ensures |small| <= |big| && |big - small| == |big| - |small|
  {
    var rest := big - small;
    assert big == small + rest;
    assert small * rest == {};
  }

  /** A board on which no cell gained liveness has no more live cells. */
  lemma RemainingMonotone(g: seq<Cell>, h: seq<Cell>)
    requires |g| == |h|
    requires forall i :: 0 <= i < |h| && Live(h[i]) ==> Live(g[i])
    ensures RemainingUnmatched(h) <= RemainingUnmatched(g)
  {
    RemainingIsLiveSlots(g);
    RemainingIsLiveSlots(h);
    SubsetSize(LiveSlots(h), LiveSlots(g));
  }

  /** If, in addition, the cell at slot k lost its liveness, the count drops. */
  lemma RemainingDrops(g: seq<Cell>, h: seq<Cell>, k: int)
    requires |g| == |h|
    requires forall i :: 0 <= i < |h| && Live(h[i]) ==> Live(g[i])
    requires 0 <= k < |g| && Live(g[k]) && !Live(h[k])
    ensures RemainingUnmatched(h) < RemainingUnmatched(g)
  {
    RemainingIsLiveSlots(g);
    RemainingIsLiveSlots(h);
    var s := LiveSlots(g);
    SubsetSize({k}, s);
    SubsetSize(LiveSlots(h), s - {k});
  }

  /** Two distinct slots losing their liveness drop the count by two. */
  lemma RemainingDropsTwo(g: seq<Cell>, h: seq<Cell>, p: int, q: int)
    requires |g| == |h|
    requires forall i :: 0 <= i < |h| && Live(h[i]) ==> Live(g[i])
    requires 0 <= p < |g| && 0 <= q < |g| && p != q
    requires Live(g[p]) && !Live(h[p]) && Live(g[q]) && !Live(h[q])
    ensures RemainingUnmatched(h) <= RemainingUnmatched(g) - 2
  {
    RemainingIsLiveSlots(g);
    RemainingIsLiveSlots(h);
    var s := LiveSlots(g);
    assert |{p, q}| == 2;
    SubsetSize({p, q}, s);
    SubsetSize(LiveSlots(h), s - {p, q});
  }
}
