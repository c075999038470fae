/** Sequences of engine calls from a fresh deal: the states they reach and
    what holds in all of them. Choosing the calls (selection, add-row
    budget, timer) is the caller's business; a session here is any sequence
    of commits and row injections. */
module Session {
  import opened Wrappers
  import opened Types
  import opened Grid
  import opened Pairing
  import opened Commit
  import opened Inject
  import opened Levels

  datatype Move = Pick(a: Option<Cell>, b: Option<Cell>) | AddRowMove

  /** A picked cell carries a position on the board. */
  predicate CellFits(o: Option<Cell>, level: LevelSpec) {
    o.Some? ==> 0 <= o.value.row < level.rows && 0 <= o.value.col < level.cols
  }

  predicate MovesFit(moves: seq<Move>, level: LevelSpec) {
    forall k :: 0 <= k < |moves| && moves[k].Pick? ==>
      CellFits(moves[k].a, level) && CellFits(moves[k].b, level)
  }

  lemma FitsInGrid(o: Option<Cell>, grid: seq<Cell>, level: LevelSpec)
    requires level.cols > 0 && |grid| == level.rows * level.cols && CellFits(o, level)
    ensures o.Some? ==> InGrid(o.value, grid, level.cols)
  {
    if o.Some? {
      IdxOfInverse(o.value, level.rows, level.cols);
    }
  }

  /** One engine call: a commit leaves the reserve alone. */
  function Step(d: Deal, m: Move, level: LevelSpec): (d': Deal)
    requires level.cols > 0 && |d.grid| == level.rows * level.cols
    requires m.Pick? ==> CellFits(m.a, level) && CellFits(m.b, level)
    ensures |d'.grid| == |d.grid|
    ensures m.Pick? ==> d'.pool == d.pool
  {
    match m
    case Pick(a, b) =>
      FitsInGrid(a, d.grid, level);
      FitsInGrid(b, d.grid, level);
      Deal(TryMatch(a, b, d.grid, level.cols).updated, d.pool)
    case AddRowMove => AddRow(d.grid, d.pool, level)
  }

  function Play(d: Deal, moves: seq<Move>, level: LevelSpec): (d': Deal)
    requires level.cols > 0 && |d.grid| == level.rows * level.cols && MovesFit(moves, level)
    ensures |d'.grid| == |d.grid|
    decreases |moves|
  {
    if |moves| == 0 then d
    else Play(Step(d, moves[0], level), moves[1..], level)
  }

  function AddCount(moves: seq<Move>): nat {
    if |moves| == 0 then 0 else (if moves[0].AddRowMove? then 1 else 0) + AddCount(moves[1..])
  }

  /** Number of spent rows among rows 0 .. r-1. */
  function SpentRows(grid: seq<Cell>, cols: int, r: int): nat
    decreases if r > 0 then r else 0
  {
    if r <= 0 then 0
    else SpentRows(grid, cols, r - 1) + (if RowSpent(grid, cols, r - 1) then 1 else 0)
  }

  /** What every state of a session satisfies: the board keeps its shape and
      positions, values stay in 0..9, the reserve is whole rows of digits, and
      there are at least as many spent rows as reserve rows. */
  predicate Inv(d: Deal, level: LevelSpec) {
    && level.cols > 0 && |d.grid| == level.rows * level.cols
    && Positioned(d.grid, level.cols)
    && (forall i :: 0 <= i < |d.grid| ==> 0 <= d.grid[i].value <= 9)
    && Digits(d.pool)
    && |d.pool| % level.cols == 0
    && |d.pool| <= level.cols * SpentRows(d.grid, level.cols, level.rows)
  }

  lemma MulMono(x: int, y: int, cols: int)
    requires cols > 0 && x <= y
    ensures cols * x <= cols * y
  {
    if x < y {
      MulAtLeast(y - x, cols);
      assert cols * y - cols * x == (y - x) * cols;
    }
  }

  // ---------------------------------------------------------------------
  // Counting spent rows

  lemma {:induction false} SpentRowsAtLeast(grid: seq<Cell>, cols: int, lo: int, r: int)
    requires 0 <= lo <= r
    requires forall r' :: lo <= r' < r ==> RowSpent(grid, cols, r')
    ensures SpentRows(grid, cols, r) >= r - lo
    decreases r
  {
    if r > lo {
      SpentRowsAtLeast(grid, cols, lo, r - 1);
    }
  }

  lemma {:induction false} SpentRowsNone(grid: seq<Cell>, cols: int, r: int)
    requires forall r' :: 0 <= r' < r ==> !RowSpent(grid, cols, r')
    ensures SpentRows(grid, cols, r) == 0
    decreases if r > 0 then r else 0
  {
    if r > 0 {
      SpentRowsNone(grid, cols, r - 1);
    }
  }

  /** Spent rows that stay spent keep the count from falling. */
  lemma {:induction false} SpentRowsMonotone(g: seq<Cell>, h: seq<Cell>, cols: int, r: int)
    requires forall r' :: 0 <= r' < r && RowSpent(g, cols, r') ==> RowSpent(h, cols, r')
    ensures SpentRows(h, cols, r) >= SpentRows(g, cols, r)
    decreases if r > 0 then r else 0
  {
    if r > 0 {
      SpentRowsMonotone(g, h, cols, r - 1);
    }
  }

  /** When every row but t stays spent, the count falls by at most one. */
  lemma {:induction false} SpentRowsAllButOne(g: seq<Cell>, h: seq<Cell>, cols: int, t: int, r: int)
    requires forall r' :: 0 <= r' < r && r' != t && RowSpent(g, cols, r') ==> RowSpent(h, cols, r')
    ensures SpentRows(h, cols, r) + 1 >= SpentRows(g, cols, r)
    ensures r <= t ==> SpentRows(h, cols, r) >= SpentRows(g, cols, r)
    decreases if r > 0 then r else 0
  {
    if r > 0 {
      SpentRowsAllButOne(g, h, cols, t, r - 1);
    }
  }

  // ---------------------------------------------------------------------
  // The invariant

  /** The rows seedGrid leaves empty are spent. */
  lemma SeedTailSpent(level: LevelSpec, ids: seq<Id>, draws: seq<int>, poolDraws: seq<int>)
    requires level.cols > 0 && level.rows >= 0 && level.initialFilledRows >= 0
    requires |ids| == level.rows * level.cols
    requires |draws| == FilledCells(level) && Digits(draws)
    requires |poolDraws| == PoolLength(level) && Digits(poolDraws)
    ensures var g := SeedGrid(level, ids, draws, poolDraws).grid;
            forall r' :: level.initialFilledRows <= r' < level.rows ==> RowSpent(g, level.cols, r')
  {
    var cols := level.cols;
    var g := SeedGrid(level, ids, draws, poolDraws).grid;
    SeedGridLayout(level, ids, draws, poolDraws);
    forall r' | level.initialFilledRows <= r' < level.rows
      ensures RowSpent(g, cols, r')
    {
      forall i | r' * cols <= i < r' * cols + cols && 0 <= i < |g|
        ensures !Live(g[i])
      {
        RowOfSlot(i, r', cols);
      }
    }
  }

  /** A fresh deal satisfies the invariant: the rows seedGrid leaves empty are
      spent, and the reserve holds exactly one row of values for each. */
  lemma SeedGridInv(level: LevelSpec, ids: seq<Id>, draws: seq<int>, poolDraws: seq<int>)
    requires level.cols > 0 && level.rows >= 0 && level.initialFilledRows >= 0
    requires |ids| == level.rows * level.cols
    requires |draws| == FilledCells(level) && Digits(draws)
    requires |poolDraws| == PoolLength(level) && Digits(poolDraws)
    ensures Inv(SeedGrid(level, ids, draws, poolDraws), level)
  {
    var cols, rows, f := level.cols, level.rows, level.initialFilledRows;
    var d := SeedGrid(level, ids, draws, poolDraws);
    SeedGridLayout(level, ids, draws, poolDraws);
    PoolWholeRows(level);
    if f < rows {
      SeedTailSpent(level, ids, draws, poolDraws);
      SpentRowsAtLeast(d.grid, cols, f, rows);
      MulMono(rows - f, SpentRows(d.grid, cols, rows), cols);
    }
  }

  /** A commit keeps the invariant: it only retires cells. */
  lemma TryMatchKeepsInv(d: Deal, a: Option<Cell>, b: Option<Cell>, level: LevelSpec)
    requires Inv(d, level) && CellFits(a, level) && CellFits(b, level)
    ensures Inv(Step(d, Pick(a, b), level), level)
  {
    FitsInGrid(a, d.grid, level);
    FitsInGrid(b, d.grid, level);
    var g := TryMatch(a, b, d.grid, level.cols).updated;
    TryMatchOnlyRetires(a, b, d.grid, level.cols);
    SpentRowsMonotone(d.grid, g, level.cols, level.rows);
    MulMono(SpentRows(d.grid, level.cols, level.rows), SpentRows(g, level.cols, level.rows), level.cols);
  }

  /** Under the invariant a non-empty reserve always finds a spent row, so
      row injection never compacts the board. */
  lemma InvFindsSpentRow(d: Deal, level: LevelSpec)
    requires Inv(d, level) && |d.pool| > 0
    ensures FirstSpentRow(d.grid, level.cols, level.rows, 0).Some?
    ensures |d.pool| >= level.cols
  {
    if FirstSpentRow(d.grid, level.cols, level.rows, 0).None? {
      SpentRowsNone(d.grid, level.cols, level.rows);
      assert false;
    }
    WholeRows(|d.pool|, level.cols);
  }

  /** cols * (n + 1) spelled out, for the reserve arithmetic. */
  lemma MulSucc(cols: int, n: int)
    ensures cols * (n + 1) == cols * n + cols
  {
  }

  /** cols * (n - 1) spelled out, for the reserve arithmetic. */
  lemma MulPred(cols: int, n: int)
    ensures cols * (n - 1) == cols * n - cols
  {
  }

  /** cols * (a - b) spelled out, for the reserve arithmetic. */
  lemma MulSub(cols: int, a: int, b: int)
    ensures cols * (a - b) == cols * a - cols * b
  {
  }

  /** Row injection into spent row t leaves every other row's spent status
      as it was. */
  lemma AddRowOtherRows(d: Deal, level: LevelSpec, t: int)
    requires Inv(d, level) && |d.pool| > 0
    requires FirstSpentRow(d.grid, level.cols, level.rows, 0) == Some(t)
    ensures forall r' :: 0 <= r' < level.rows && r' != t && RowSpent(d.grid, level.cols, r') ==>
              RowSpent(AddRow(d.grid, d.pool, level).grid, level.cols, r')
  {
    var cols, rows := level.cols, level.rows;
    var g := AddRow(d.grid, d.pool, level).grid;
    AddRowDeals(d.grid, d.pool, level);
    forall r' | 0 <= r' < rows && r' != t && RowSpent(d.grid, cols, r')
      ensures RowSpent(g, cols, r')
    {
      forall i | r' * cols <= i < r' * cols + cols && 0 <= i < |g|
        ensures g[i] == d.grid[i]
      {
        RowOfSlot(i, r', cols);
      }
    }
  }

  /** Row injection keeps every value in 0..9 when the reserve holds digits. */
  lemma AddRowKeepsValues(d: Deal, level: LevelSpec)
    requires Inv(d, level)
    ensures var g := AddRow(d.grid, d.pool, level).grid;
            forall i :: 0 <= i < |g| ==> 0 <= g[i].value <= 9
  {
    var cols, rows := level.cols, level.rows;
    var g := AddRow(d.grid, d.pool, level).grid;
    if |d.pool| > 0 {
      var vals := d.pool[..Min(cols, |d.pool|)];
      assert Digits(vals);
      match FirstSpentRow(d.grid, cols, rows, 0)
      case Some(t) =>
        AddRowFillsLowestSpentRow(d.grid, d.pool, level, t);
        forall i | 0 <= i < |g|
          ensures 0 <= g[i].value <= 9
        {
          SplitSlot(i, cols);
        }
      case None =>
        AddRowCompactsFullBoard(d.grid, d.pool, level);
        forall i | 0 <= i < |g|
          ensures 0 <= g[i].value <= 9
        {
          SplitSlot(i, cols);
          NextRowSlot(i, rows, cols);
        }
    }
  }

  /** The accounting of one injection: a row of the reserve goes, and at
      most one spent row with it. */
  lemma AddRowBalance(d: Deal, level: LevelSpec)
    requires Inv(d, level) && |d.pool| > 0
    ensures var d' := AddRow(d.grid, d.pool, level);
            && |d'.pool| == |d.pool| - level.cols
            && SpentRows(d'.grid, level.cols, level.rows) + 1 >= SpentRows(d.grid, level.cols, level.rows)
  {
    InvFindsSpentRow(d, level);
    var t := FirstSpentRow(d.grid, level.cols, level.rows, 0).value;
    AddRowOtherRows(d, level, t);
    SpentRowsAllButOne(d.grid, AddRow(d.grid, d.pool, level).grid, level.cols, t, level.rows);
  }

  /** Row injection keeps the invariant: one spent row is used up for one
      row of the reserve. */
  lemma AddRowKeepsInv(d: Deal, level: LevelSpec)
    requires Inv(d, level)
    ensures Inv(Step(d, AddRowMove, level), level)
  {
    if |d.pool| > 0 {
      AddRowInv(d, level);
    }
  }

  lemma AddRowInv(d: Deal, level: LevelSpec)
    requires Inv(d, level) && |d.pool| > 0
    ensures Inv(AddRow(d.grid, d.pool, level), level)
  {
    var cols, rows := level.cols, level.rows;
    var d' := AddRow(d.grid, d.pool, level);
    AddRowKeepsPositions(d.grid, d.pool, level);
    AddRowKeepsValues(d, level);
    AddRowKeepsDigits(d, level);
    AddRowBalance(d, level);
    BalanceStep(|d.pool|, |d'.pool|, cols, SpentRows(d.grid, cols, rows), SpentRows(d'.grid, cols, rows));
  }

  /** One row of reserve fewer against at most one spent row fewer keeps
      the reserve within the spent rows. */
  lemma BalanceStep(p: int, p': int, cols: int, s: int, s': int)
    requires cols > 0 && p <= cols * s && p' == p - cols && s' + 1 >= s
    ensures p' <= cols * s'
  {
    MulMono(s - 1, s', cols);
    MulPred(cols, s);
  }

  /** What is left of a reserve of digits is digits. */
  lemma AddRowKeepsDigits(d: Deal, level: LevelSpec)
    requires Inv(d, level)
    ensures Digits(AddRow(d.grid, d.pool, level).pool)
  {
    var p := AddRow(d.grid, d.pool, level).pool;
    forall i | 0 <= i < |p|
      ensures p[i] == d.pool[i + Min(level.cols, |d.pool|)]
    {
    }
  }

  /** Every engine call keeps the invariant. */
  lemma StepKeepsInv(d: Deal, m: Move, level: LevelSpec)
    requires Inv(d, level)
    requires m.Pick? ==> CellFits(m.a, level) && CellFits(m.b, level)
    ensures Inv(Step(d, m, level), level)
  {
    match m {
      case Pick(a, b) => TryMatchKeepsInv(d, a, b, level);
      case AddRowMove => AddRowKeepsInv(d, level);
    }
  }

  /** The moves after the first still fit the board. */
  lemma RestFit(moves: seq<Move>, level: LevelSpec)
    requires |moves| > 0 && MovesFit(moves, level)
    ensures MovesFit(moves[1..], level)
  {
    forall k | 0 <= k < |moves| - 1
      ensures moves[1..][k] == moves[k + 1]
    {
    }
  }

  lemma {:induction false} PlayKeepsInv(d: Deal, moves: seq<Move>, level: LevelSpec)
    requires Inv(d, level) && MovesFit(moves, level)
    ensures Inv(Play(d, moves, level), level)
    decreases |moves|
  {
    if |moves| > 0 {
      StepKeepsInv(d, moves[0], level);
      RestFit(moves, level);
      PlayKeepsInv(Step(d, moves[0], level), moves[1..], level);
    }
  }

  /** Every state reached from a fresh deal satisfies the invariant, and in
      every such state addRow with a non-empty reserve deals into a spent
      row: the compaction branch is never taken in play. */
  lemma ReachableNeverCompacts(level: LevelSpec, ids: seq<Id>, draws: seq<int>, poolDraws: seq<int>, moves: seq<Move>)
    requires level.cols > 0 && level.rows >= 0 && level.initialFilledRows >= 0
    requires |ids| == level.rows * level.cols
    requires |draws| == FilledCells(level) && Digits(draws)
    requires |poolDraws| == PoolLength(level) && Digits(poolDraws)
    requires MovesFit(moves, level)
    ensures var d := Play(SeedGrid(level, ids, draws, poolDraws), moves, level);
            Inv(d, level) && (|d.pool| > 0 ==> FirstSpentRow(d.grid, level.cols, level.rows, 0).Some?)
  {
    SeedGridInv(level, ids, draws, poolDraws);
    var d := Play(SeedGrid(level, ids, draws, poolDraws), moves, level);
    PlayKeepsInv(SeedGrid(level, ids, draws, poolDraws), moves, level);
    if |d.pool| > 0 {
      InvFindsSpentRow(d, level);
    }
  }

  // ---------------------------------------------------------------------
  // Reserve accounting

  /** A non-empty reserve of whole rows holds at least one row. */
  lemma WholeRows(len: int, cols: int)
    requires cols > 0 && len > 0 && len % cols == 0
    ensures len >= cols
  {
    if len < cols {
      DivModOf(0, len, cols);
      assert false;
    }
  }

  /** Each addRow takes one full row from a reserve of whole rows until it
      is empty; commits leave it alone. */
  lemma {:induction false} PlayPool(d: Deal, moves: seq<Move>, level: LevelSpec)
    requires level.cols > 0 && |d.grid| == level.rows * level.cols
    requires |d.pool| % level.cols == 0 && MovesFit(moves, level)
    ensures |Play(d, moves, level).pool| == Max(0, |d.pool| - level.cols * AddCount(moves))
    decreases |moves|
  {
    var cols := level.cols;
    if |moves| == 0 {
      assert cols * AddCount(moves) == 0;
    } else {
      var d1 := Step(d, moves[0], level);
      var rest := moves[1..];
      RestFit(moves, level);
      PlayPool(d1, rest, level);
      assert Play(d, moves, level) == Play(d1, rest, level);
      var n := AddCount(rest);
      MulMono(0, n, cols);
      if moves[0].AddRowMove? {
        assert AddCount(moves) == n + 1;
        MulSucc(cols, n);
        if |d.pool| > 0 {
          WholeRows(|d.pool|, cols);
          assert |d1.pool| == |d.pool| - cols;
        } else {
          assert |d1.pool| == 0;
        }
      } else {
        assert AddCount(moves) == n;
        assert d1.pool == d.pool;
      }
    }
  }

  /** PlayPool with the starting reserve length given by name. */
  lemma PlayPoolFrom(d: Deal, moves: seq<Move>, level: LevelSpec, p: int)
    requires level.cols > 0 && |d.grid| == level.rows * level.cols
    requires |d.pool| == p && p % level.cols == 0 && MovesFit(moves, level)
    ensures |Play(d, moves, level).pool| == Max(0, p - level.cols * AddCount(moves))
  {
    PlayPool(d, moves, level);
  }

  /** The reserve left after a session from a fresh deal. */
  lemma SeededPool(level: LevelSpec, ids: seq<Id>, draws: seq<int>, poolDraws: seq<int>, moves: seq<Move>)
    requires level.cols > 0 && level.rows >= 0
    requires |ids| == level.rows * level.cols
    requires |draws| == FilledCells(level) && Digits(draws)
    requires |poolDraws| == PoolLength(level) && Digits(poolDraws)
    requires MovesFit(moves, level)
    ensures |Play(SeedGrid(level, ids, draws, poolDraws), moves, level).pool|
            == Max(0, PoolLength(level) - level.cols * AddCount(moves))
  {
    var d := SeedGrid(level, ids, draws, poolDraws);
    assert |d.pool| == PoolLength(level) && |d.grid| == level.rows * level.cols;
    PoolWholeRows(level);
    PlayPoolFrom(d, moves, level, PoolLength(level));
  }

  /** Level 2: after the six addRows its reserve supplies, the reserve is
      empty, so the seventh addRow of its budget changes nothing. */
  lemma Level2LastAddRowIsNoop(ids: seq<Id>, draws: seq<int>, poolDraws: seq<int>, moves: seq<Move>)
    requires |ids| == LEVELS[1].rows * LEVELS[1].cols
    requires |draws| == FilledCells(LEVELS[1]) && Digits(draws)
    requires |poolDraws| == PoolLength(LEVELS[1]) && Digits(poolDraws)
    requires MovesFit(moves, LEVELS[1]) && AddCount(moves) == PoolRows(LEVELS[1])
    ensures AddCount(moves) + 1 == LEVELS[1].addRowLimit
    ensures var d := Play(SeedGrid(LEVELS[1], ids, draws, poolDraws), moves, LEVELS[1]);
            d.pool == [] && AddRow(d.grid, d.pool, LEVELS[1]) == d
  {
    SeededPool(LEVELS[1], ids, draws, poolDraws, moves);
  }

  /** Levels 1 and 3: every addRow within the budget finds values to deal,
      and the budget ends exactly when the reserve does. */
  lemma BudgetMatchesPool(k: int, ids: seq<Id>, draws: seq<int>, poolDraws: seq<int>, moves: seq<Move>)
    requires k == 0 || k == 2
    requires |ids| == LEVELS[k].rows * LEVELS[k].cols
    requires |draws| == FilledCells(LEVELS[k]) && Digits(draws)
    requires |poolDraws| == PoolLength(LEVELS[k]) && Digits(poolDraws)
    requires MovesFit(moves, LEVELS[k]) && AddCount(moves) <= LEVELS[k].addRowLimit
    ensures var d := Play(SeedGrid(LEVELS[k], ids, draws, poolDraws), moves, LEVELS[k]);
            |d.pool| == LEVELS[k].cols * (LEVELS[k].addRowLimit - AddCount(moves))
  {
    var level := LEVELS[k];
    LevelsWellFormed();
    LevelBudgets();
    assert level.addRowLimit == PoolRows(level);
    SeededPool(level, ids, draws, poolDraws, moves);
    RowsLeft(PoolLength(level), level.cols, level.addRowLimit, AddCount(moves));
  }

  /** From a reserve of exactly `limit` rows, taking n <= limit rows leaves
      limit - n rows. */
  lemma RowsLeft(p: int, cols: int, limit: int, n: int)
    requires cols > 0 && 0 <= n <= limit && p == cols * limit
    ensures Max(0, p - cols * n) == cols * (limit - n)
  {
    MulSub(cols, limit, n);
    MulMono(n, limit, cols);
  }
}
