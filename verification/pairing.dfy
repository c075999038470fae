/** Pair legality: the value rule (canMatch) and the line-of-sight rule
    (isPathClear). */
module Pairing {
  import opened Types
  import opened Grid

  /** The value rule: two live cells whose values are equal or sum to ten. */
  function CanMatch(a: Cell, b: Cell): (ok: bool)
    ensures ok <==> Live(a) && Live(b) && (a.value == b.value || a.value + b.value == 10)
  {
    if a.matched || b.matched then false
    else if a.value == 0 || b.value == 0 then false
    else a.value == b.value || a.value + b.value == 10
  }

  lemma CanMatchSymmetric(a: Cell, b: Cell)
    ensures CanMatch(a, b) == CanMatch(b, a)
  {
  }

  /** For a live cell, the partners the value rule admits are the live cells
      holding the same value or its complement to ten. */
  lemma CanMatchPartners(a: Cell, b: Cell)
    requires Live(a)
    ensures CanMatch(a, b) <==> Live(b) && b.value in {a.value, 10 - a.value}
  {
  }

  function Sign(x: int): int {
    if x > 0 then 1 else if x < 0 then -1 else 0
  }

  /** The source's test for a horizontal, vertical or diagonal pair, from the
      upper end (ar, ac) to the lower end (br, bc). */
  predicate Straight(ar: int, ac: int, br: int, bc: int) {
    var dr := Sign(br - ar);
    var dc := Sign(bc - ac);
    (dr == 0 && dc != 0) || (dc == 0 && dr != 0) || (Abs(br - ar) == Abs(bc - ac) && dr != 0)
  }

  /** j times the unit step d, for d in {-1, 0, 1}. */
  function Offset(d: int, j: int): int {
    if d == 0 then 0 else if d > 0 then j else -j
  }

  /** From (r, c), repeated steps (dr, dc) land on (br, bc): the four
      directions a straight walk from the upper end can take. */
  predicate Reaches(r: int, c: int, dr: int, dc: int, br: int, bc: int) {
    || (dr == 0 && dc == 1 && r == br && c <= bc)
    || (dr == 1 && dc == 0 && r <= br && c == bc)
    || (dr == 1 && dc == 1 && r <= br && bc - c == br - r)
    || (dr == 1 && dc == -1 && r <= br && c - bc == br - r)
  }

  /** The straight walk: visit (r, c), (r+dr, c+dc), ... up to, not
      including, (br, bc), and fail at the first live cell. */
  function Walk(grid: seq<Cell>, cols: int, r: int, c: int, dr: int, dc: int, br: int, bc: int): bool
    requires cols > 0 && 0 <= r && 0 <= c < cols && 0 <= bc < cols && br * cols + bc < |grid|
    requires Reaches(r, c, dr, dc, br, bc)
    decreases if dr == 1 then br - r else bc - c
  {
    if r == br && c == bc then true
    else
      RowMajorOrder(r, c, br, bc, cols);
      RowMajorOrder(0, 0, r, c, cols);
      if Live(grid[r * cols + c]) then false
      else Walk(grid, cols, r + dr, c + dc, dr, dc, br, bc)
  }

  /** The flattened scan: fail at the first live cell among slots i .. to-1. */
  function Scan(grid: seq<Cell>, i: int, to: int): bool
    requires 0 <= i && to <= |grid|
    decreases |grid| - i
  {
    if i >= to then true
    else if Live(grid[i]) then false
    else Scan(grid, i + 1, to)
  }

  /** The line-of-sight rule between slots `from` and `to` (from <= to). */
  function PathClear(grid: seq<Cell>, cols: int, from: int, to: int): bool
    requires cols > 0 && 0 <= from <= to < |grid|
  {
    var ar, ac := from / cols, from % cols;
    var br, bc := to / cols, to % cols;
    var dr, dc := Sign(br - ar), Sign(bc - ac);
    if Straight(ar, ac, br, bc) then
      WalkStart(cols, from, to);
      Walk(grid, cols, ar + dr, ac + dc, dr, dc, br, bc)
    else
      Scan(grid, from + 1, to)
  }

  /** isPathClear: the rule applied to the two cells' slots, smaller first. */
  function IsPathClear(a: Cell, b: Cell, grid: seq<Cell>, cols: int): bool
    requires InGrid(a, grid, cols) && InGrid(b, grid, cols)
  {
    var ai, bi := IdxOf(a, cols), IdxOf(b, cols);
    if ai < bi then PathClear(grid, cols, ai, bi) else PathClear(grid, cols, bi, ai)
  }

  /** The walk of a straight pair starts one unit step from the upper end
      and reaches the lower end. */
  lemma WalkStart(cols: int, from: int, to: int)
    requires cols > 0 && 0 <= from <= to
    requires Straight(from / cols, from % cols, to / cols, to % cols)
    ensures var ar, ac, br, bc := from / cols, from % cols, to / cols, to % cols;
            var dr, dc := Sign(br - ar), Sign(bc - ac);
            && 0 <= ar + dr && 0 <= ac + dc < cols && 0 <= bc < cols && br * cols + bc == to
            && Reaches(ar + dr, ac + dc, dr, dc, br, bc)
  {
    SlotOrder(from, to, cols);
    SplitSlot(from, cols);
    SplitSlot(to, cols);
  }

  // ---------------------------------------------------------------------
  // Reference definitions

  /** Every slot strictly between `from` and `to` in row-major order is dead. */
  predicate FlatClear(grid: seq<Cell>, from: int, to: int)
    requires 0 <= from && to <= |grid|
  {
    forall i :: from < i < to ==> !Live(grid[i])
  }

  /** Slot i is collinear with slots `from` and `to` and lies inside their
      bounding box. */
  predicate OnLine(cols: int, from: int, to: int, i: int)
    requires cols > 0
  {
    var ar, ac, br, bc := from / cols, from % cols, to / cols, to % cols;
    var r, c := i / cols, i % cols;
    && ar <= r <= br && Min(ac, bc) <= c <= Max(ac, bc)
    && (r - ar) * (bc - ac) == (c - ac) * (br - ar)
  }

  /** Every cell on the straight line strictly between `from` and `to` is dead. */
  predicate LineClear(grid: seq<Cell>, cols: int, from: int, to: int)
    requires cols > 0 && 0 <= from && to <= |grid|
  {
    forall i :: from < i < to && OnLine(cols, from, to, i) ==> !Live(grid[i])
  }

  /** The reference line of sight: every cell on the segment for a straight
      pair, every slot in row-major order between the two otherwise. */
  predicate SightClear(grid: seq<Cell>, cols: int, from: int, to: int)
    requires cols > 0 && 0 <= from && to <= |grid|
  {
    if Straight(from / cols, from % cols, to / cols, to % cols) then LineClear(grid, cols, from, to)
    else FlatClear(grid, from, to)
  }

  // ---------------------------------------------------------------------
  // The loops meet their reference definitions

  lemma {:induction false} ScanClear(grid: seq<Cell>, i: int, to: int)
    requires 0 <= i && to <= |grid|
    ensures Scan(grid, i, to) <==> (forall k :: i <= k < to ==> !Live(grid[k]))
    decreases |grid| - i
  {
    if i < to {
      ScanClear(grid, i + 1, to);
    }
  }

  /** The slots the walk from (r, c) visits. */
  predicate Visited(cols: int, r: int, c: int, dr: int, dc: int, br: int, bc: int, i: int)
    requires cols > 0
  {
    var r', c' := i / cols, i % cols;
    if dr == 0 then r' == r && c <= c' < bc
    else r <= r' < br && c' == c + Offset(dc, r' - r)
  }

  /** One step of the walk: the visited slots are the current one and those
      visited from the next position. */
  lemma VisitedStep(cols: int, r: int, c: int, dr: int, dc: int, br: int, bc: int, i: int)
    requires cols > 0 && 0 <= c < cols && Reaches(r, c, dr, dc, br, bc) && !(r == br && c == bc)
    ensures Visited(cols, r, c, dr, dc, br, bc, i) <==>
            i == r * cols + c || Visited(cols, r + dr, c + dc, dr, dc, br, bc, i)
  {
    SplitSlot(i, cols);
    RowMajorOrder(i / cols, i % cols, r, c, cols);
  }

  lemma {:induction false} WalkVisits(grid: seq<Cell>, cols: int, r: int, c: int, dr: int, dc: int, br: int, bc: int)
    requires cols > 0 && 0 <= r && 0 <= c < cols && 0 <= bc < cols && br * cols + bc < |grid|
    requires Reaches(r, c, dr, dc, br, bc)
    ensures Walk(grid, cols, r, c, dr, dc, br, bc) <==>
            forall i :: 0 <= i < |grid| && Visited(cols, r, c, dr, dc, br, bc, i) ==> !Live(grid[i])
    decreases if dr == 1 then br - r else bc - c
  {
    if r == br && c == bc {
      forall i | 0 <= i < |grid|
        ensures !Visited(cols, r, c, dr, dc, br, bc, i)
      {
      }
    } else {
      RowMajorOrder(r, c, br, bc, cols);
      RowMajorOrder(0, 0, r, c, cols);
      WalkVisits(grid, cols, r + dr, c + dc, dr, dc, br, bc);
      forall i | 0 <= i < |grid|
        ensures Visited(cols, r, c, dr, dc, br, bc, i) <==>
                i == r * cols + c || Visited(cols, r + dr, c + dc, dr, dc, br, bc, i)
      {
        VisitedStep(cols, r, c, dr, dc, br, bc, i);
      }
    }
  }

  /** For a straight pair, the slots the walk visits are the slots on the
      line strictly between the two ends. */
  lemma VisitedIsOnLine(cols: int, from: int, to: int, i: int)
    requires cols > 0 && 0 <= from <= to
    requires Straight(from / cols, from % cols, to / cols, to % cols)
    ensures var ar, ac, br, bc := from / cols, from % cols, to / cols, to % cols;
            var dr, dc := Sign(br - ar), Sign(bc - ac);
            Visited(cols, ar + dr, ac + dc, dr, dc, br, bc, i) <==> from < i < to && OnLine(cols, from, to, i)
  {
    var ar, ac, br, bc := from / cols, from % cols, to / cols, to % cols;
    var r, c := i / cols, i % cols;
    SplitSlot(from, cols);
    SplitSlot(to, cols);
    SplitSlot(i, cols);
    SlotOrder(from, to, cols);
    RowMajorOrder(ar, ac, r, c, cols);
    RowMajorOrder(r, c, br, bc, cols);
    var k := br - ar;
    if k > 0 {
      var dc := Sign(bc - ac);
      if bc == ac {
        ProductZero(r - ar, k);
      } else if dc == 1 {
        Cancel(r - ar, c - ac, k);
      } else {
        Cancel(ar - r, c - ac, k);
        assert (r - ar) * (bc - ac) == (ar - r) * k;
      }
    }
  }

  lemma ProductZero(x: int, k: int)
    requires k != 0
    ensures x * k == 0 <==> x == 0
  {
    if x > 0 && k > 0 { MulAtLeast(x, k); }
    else if x > 0 && k < 0 { MulAtLeast(x, -k); assert x * k == -(x * -k); }
    else if x < 0 && k > 0 { MulAtLeast(-x, k); assert x * k == -(-x * k); }
    else if x < 0 && k < 0 { MulAtLeast(-x, -k); assert x * k == (-x) * (-k); }
  }

  lemma Cancel(x: int, y: int, k: int)
    requires k != 0
    ensures x * k == y * k <==> x == y
  {
    ProductZero(x - y, k);
    assert x * k - y * k == (x - y) * k;
  }

  // ---------------------------------------------------------------------
  // Properties of the line-of-sight rule

  /** For a straight pair, the walk checks exactly the cells on the line. */
  lemma WalkIsLineClear(grid: seq<Cell>, cols: int, from: int, to: int)
    requires cols > 0 && 0 <= from <= to < |grid|
    requires Straight(from / cols, from % cols, to / cols, to % cols)
    ensures PathClear(grid, cols, from, to) <==> LineClear(grid, cols, from, to)
  {
    var ar, ac, br, bc := from / cols, from % cols, to / cols, to % cols;
    var dr, dc := Sign(br - ar), Sign(bc - ac);
    WalkStart(cols, from, to);
    WalkVisits(grid, cols, ar + dr, ac + dc, dr, dc, br, bc);
    if Walk(grid, cols, ar + dr, ac + dc, dr, dc, br, bc) {
      forall i | from < i < to && OnLine(cols, from, to, i)
        ensures !Live(grid[i])
      {
        VisitedIsOnLine(cols, from, to, i);
      }
    }
    if LineClear(grid, cols, from, to) {
      forall i | 0 <= i < |grid| && Visited(cols, ar + dr, ac + dc, dr, dc, br, bc, i)
        ensures !Live(grid[i])
      {
        VisitedIsOnLine(cols, from, to, i);
      }
    }
  }

  /** The walk and the scan implement the reference line of sight: the walk
      for straight pairs, the scan for all others. */
  lemma PathClearIsSight(grid: seq<Cell>, cols: int, from: int, to: int)
    requires cols > 0 && 0 <= from <= to < |grid|
    ensures PathClear(grid, cols, from, to) <==> SightClear(grid, cols, from, to)
  {
    if Straight(from / cols, from % cols, to / cols, to % cols) {
      WalkIsLineClear(grid, cols, from, to);
    } else {
      ScanClear(grid, from + 1, to);
    }
  }

  /** isPathClear against the reference, for the two cells' sorted slots. */
  lemma IsPathClearSpec(a: Cell, b: Cell, grid: seq<Cell>, cols: int)
    requires InGrid(a, grid, cols) && InGrid(b, grid, cols)
    ensures var lo, hi := Min(IdxOf(a, cols), IdxOf(b, cols)), Max(IdxOf(a, cols), IdxOf(b, cols));
            IsPathClear(a, b, grid, cols) <==> SightClear(grid, cols, lo, hi)
  {
    var ai, bi := IdxOf(a, cols), IdxOf(b, cols);
    PathClearIsSight(grid, cols, Min(ai, bi), Max(ai, bi));
  }

  /** Straight pairs: clear exactly when every cell on the line strictly
      between them is dead. */
  lemma IsPathClearStraight(a: Cell, b: Cell, grid: seq<Cell>, cols: int)
    requires InGrid(a, grid, cols) && InGrid(b, grid, cols)
    requires var lo, hi := Min(IdxOf(a, cols), IdxOf(b, cols)), Max(IdxOf(a, cols), IdxOf(b, cols));
             Straight(lo / cols, lo % cols, hi / cols, hi % cols)
    ensures var lo, hi := Min(IdxOf(a, cols), IdxOf(b, cols)), Max(IdxOf(a, cols), IdxOf(b, cols));
            IsPathClear(a, b, grid, cols) <==> LineClear(grid, cols, lo, hi)
  {
    IsPathClearSpec(a, b, grid, cols);
  }

  /** Other pairs: clear exactly when every slot strictly between them in
      flattened order is dead, across row ends included. */
  lemma IsPathClearFlat(a: Cell, b: Cell, grid: seq<Cell>, cols: int)
    requires InGrid(a, grid, cols) && InGrid(b, grid, cols)
    requires var lo, hi := Min(IdxOf(a, cols), IdxOf(b, cols)), Max(IdxOf(a, cols), IdxOf(b, cols));
             !Straight(lo / cols, lo % cols, hi / cols, hi % cols)
    ensures var lo, hi := Min(IdxOf(a, cols), IdxOf(b, cols)), Max(IdxOf(a, cols), IdxOf(b, cols));
            IsPathClear(a, b, grid, cols) <==> FlatClear(grid, lo, hi)
  {
    IsPathClearSpec(a, b, grid, cols);
  }

  lemma IsPathClearSymmetric(a: Cell, b: Cell, grid: seq<Cell>, cols: int)
    requires InGrid(a, grid, cols) && InGrid(b, grid, cols)
    ensures IsPathClear(a, b, grid, cols) == IsPathClear(b, a, grid, cols)
  {
  }

  /** The rule reads only the cells strictly between the two slots. */
  lemma IsPathClearLocal(a: Cell, b: Cell, grid: seq<Cell>, grid': seq<Cell>, cols: int)
    requires InGrid(a, grid, cols) && InGrid(b, grid, cols) && |grid'| == |grid|
    requires forall i :: Min(IdxOf(a, cols), IdxOf(b, cols)) < i < Max(IdxOf(a, cols), IdxOf(b, cols)) ==>
               grid'[i] == grid[i]
    ensures IsPathClear(a, b, grid', cols) == IsPathClear(a, b, grid, cols)
  {
    IsPathClearSpec(a, b, grid, cols);
    IsPathClearSpec(a, b, grid', cols);
  }

  /** Cells in neighbouring slots always see each other, including the last
      cell of a row and the first of the next. */
  lemma IsPathClearAdjacent(a: Cell, b: Cell, grid: seq<Cell>, cols: int)
    requires InGrid(a, grid, cols) && InGrid(b, grid, cols)
    requires Abs(IdxOf(a, cols) - IdxOf(b, cols)) == 1
    ensures IsPathClear(a, b, grid, cols)
  {
    IsPathClearSpec(a, b, grid, cols);
  }
}
