/**
 * Ulam's square spiral: a cursor starts at the centre of an odd-sized
 * grid and walks legs of length 1, 1, 2, 2, 3, 3, ... alternating between
 * the x and y axes, colouring the cell of each number 1, 2, 3, ... it
 * passes, until it reaches size * size.
 */
module Ulam {
  import opened Primes
  import opened Classification
  import opened Grids

  function Abs(v: int): nat {
    if v < 0 then -v else v
  }

  /** Two cells at Manhattan distance 1. */
  predicate Adjacent(p: Cell, q: Cell) {
    Abs(p.0 - q.0) + Abs(p.1 - q.1) == 1
  }

  ghost predicate NoRepeats(v: seq<Cell>) {
    forall a, b :: 0 <= a < b < |v| ==> v[a] != v[b]
  }

  /**
   * The w cells (x, y) a straight leg visits from (x, y) when it advances
   * coordinate `side` (0 for x, 1 for y) by d at each step.
   */
  function Leg(x: int, y: int, d: int, side: int, w: nat): (l: seq<Cell>)
    ensures |l| == w && forall t :: 0 <= t < w ==> l[t] == LegCell(x, y, d, side, t)
  {
    if w == 0 then [] else Leg(x, y, d, side, w - 1) + [LegCell(x, y, d, side, w - 1)]
  }

  /**
   * The cell a leg from (x, y) reaches after t unit steps along coordinate
   * `side`, forwards when d is positive and backwards otherwise (the step is
   * always 1 or -1).
   */
  function LegCell(x: int, y: int, d: int, side: int, t: int): Cell {
    var o := if d > 0 then t else -t;
    if side == 0 then (x + o, y) else (x, y + o)
  }

  /** One step further along a leg: the next cell is adjacent, and the leg grows by the current one. */
  lemma LegStep(x: int, y: int, d: int, side: int, t: nat)
    requires d == 1 || d == -1
    ensures LegCell(x, y, d, side, t + 1) ==
      (if side == 0 then (LegCell(x, y, d, side, t).0 + d, y) else (x, LegCell(x, y, d, side, t).1 + d))
    ensures Adjacent(LegCell(x, y, d, side, t), LegCell(x, y, d, side, t + 1))
  {
  }

  /** The leg is cut short exactly when num reaches maxNum first. */
  lemma LegLengthBound(iterations: int, num: int, maxNum: int, i: int)
    requires num <= maxNum && 0 <= i <= LegLength(iterations, num, maxNum)
    ensures i < iterations && num + i < maxNum ==> i < LegLength(iterations, num, maxNum)
    ensures i >= iterations || num + i == maxNum ==> i == LegLength(iterations, num, maxNum)
  {
  }

  /** The first w cells of a leg lie on the grid of size n. */
  predicate LegOnGrid(x: int, y: int, d: int, side: int, w: int, n: int) {
    forall t :: 0 <= t < w ==> OnGrid(LegCell(x, y, d, side, t), n)
  }

  /** A leg one step longer, after some earlier cells, ends with one more cell. */
  lemma LegSnoc(v: seq<Cell>, x: int, y: int, d: int, side: int, t: nat)
    ensures v + Leg(x, y, d, side, t + 1) == (v + Leg(x, y, d, side, t)) + [LegCell(x, y, d, side, t)]
  {
  }

  /**
   * Cell t of a leg that stays on the grid is on the grid, one more step
   * from it is cell t + 1, and the leg grows by it.
   */
  lemma LegAdvance(v: seq<Cell>, x: int, y: int, d: int, side: int, w: int, n: int, t: nat)
    requires d == 1 || d == -1
    requires LegOnGrid(x, y, d, side, w, n) && t < w
    ensures OnGrid(LegCell(x, y, d, side, t), n)
    ensures LegCell(LegCell(x, y, d, side, t).0, LegCell(x, y, d, side, t).1, d, side, 1) == LegCell(x, y, d, side, t + 1)
    ensures v + Leg(x, y, d, side, t + 1) == (v + Leg(x, y, d, side, t)) + [LegCell(x, y, d, side, t)]
  {
    LegStep(x, y, d, side, t);
    LegSnoc(v, x, y, d, side, t);
  }

  /** How many cells a leg of `iterations` steps writes before num reaches maxNum. */
  function LegLength(iterations: int, num: int, maxNum: int): (w: nat)
    requires num <= maxNum
    ensures num + w <= maxNum
  {
    if iterations <= 0 then 0
    else if maxNum - num < iterations then maxNum - num
    else iterations
  }

  /**
   * The colour of cell p once the numbers 1..|v| have been written, number
   * k + 1 at v[k], in order (a later write replaces an earlier one).
   */
  ghost function Painted(v: seq<Cell>, p: Cell): Colour {
    if |v| == 0 then Black
    else if v[|v| - 1] == p then Classify(|v|)
    else Painted(v[..|v| - 1], p)
  }

  lemma PaintedAppend(v: seq<Cell>, q: Cell)
    ensures forall p :: Painted(v + [q], p) == if q == p then Classify(|v| + 1) else Painted(v, p)
  {
    assert (v + [q])[..|v|] == v;
  }

  /** Without repeated cells, the cell of number k + 1 shows that number's colour. */
  lemma {:induction false} PaintedAtVisited(v: seq<Cell>, k: int)
    requires NoRepeats(v) && 0 <= k < |v|
    ensures Painted(v, v[k]) == Classify(k + 1)
  {
    if k < |v| - 1 {
      var u := v[..|v| - 1];
      assert u[k] == v[k];
      PaintedAtVisited(u, k);
    }
  }

  /** A cell no number was written to stays black. */
  lemma {:induction false} PaintedUnvisited(v: seq<Cell>, p: Cell)
    requires p !in v
    ensures Painted(v, p) == Black
  {
    if |v| > 0 {
      var u := v[..|v| - 1];
      assert forall i :: 0 <= i < |u| ==> u[i] == v[i];
      PaintedUnvisited(u, p);
    }
  }

  lemma NoRepeatsConcat(a: seq<Cell>, b: seq<Cell>)
    requires NoRepeats(a) && NoRepeats(b)
    requires forall i, j :: 0 <= i < |a| && 0 <= j < |b| ==> a[i] != b[j]
    ensures NoRepeats(a + b)
  {
    var ab := a + b;
    forall i, j | 0 <= i < j < |ab|
      ensures ab[i] != ab[j]
    {
      if j < |a| {
        assert ab[i] == a[i] && ab[j] == a[j];
      } else if i >= |a| {
        assert ab[i] == b[i - |a|] && ab[j] == b[j - |a|];
      } else {
        assert ab[i] == a[i] && ab[j] == b[j - |a|];
      }
    }
  }

  // The geometry of the spiral around the centre (c, c). Turn k (k >= 1) is
  // one round of the driver loop: a leg of k cells along x followed by a leg
  // of k cells along y, the second with the step reversed.

  /** Where the cursor stands when turn k starts. */
  function TurnStart(c: int, k: int): Cell {
    if k % 2 == 1 then (c - k / 2, c + k / 2) else (c + k / 2, c - k / 2)
  }

  /** The step in force when turn k starts. */
  function TurnStep(k: int): int {
    if k % 2 == 1 then 1 else -1
  }

  /** The rectangle the first k turns cover (empty for k = 0). */
  predicate InRect(p: Cell, c: int, k: int) {
    c - k / 2 <= p.0 <= c + (k + 1) / 2 && c - k / 2 <= p.1 <= c + (k - 1) / 2
  }

  /** The step of the y leg of turn k: the step of its x leg, reversed. */
  function TurnBackStep(k: int): int {
    -TurnStep(k)
  }

  /** Where the x leg of turn k ends after w1 cells. */
  function TurnCorner(c: int, k: int, w1: nat): Cell {
    LegCell(TurnStart(c, k).0, TurnStart(c, k).1, TurnStep(k), 0, w1)
  }

  /** The cells turn k writes when its two legs write w1 and w2 cells. */
  function TurnCells(c: int, k: int, w1: nat, w2: nat): seq<Cell> {
    var start := TurnStart(c, k);
    var corner := TurnCorner(c, k, w1);
    Leg(start.0, start.1, TurnStep(k), 0, w1) + Leg(corner.0, corner.1, TurnBackStep(k), 1, w2)
  }

  /** The number turn k starts at: 1, 3, 7, 13, ..., each turn writing 2(k - 1) more. */
  function TurnFirst(k: int): (n: int)
    ensures n >= 1
  {
    if k <= 1 then 1 else TurnFirst(k - 1) + 2 * (k - 1)
  }

  /** Turn k starts at number k(k - 1) + 1. */
  lemma {:induction false} TurnFirstClosed(k: int)
    requires k >= 1
    ensures TurnFirst(k) == k * (k - 1) + 1
  {
    if k > 1 {
      TurnFirstClosed(k - 1);
      assert (k - 1) * (k - 2) + 2 * (k - 1) == k * (k - 1);
    }
  }

  /**
   * On a grid of the given size, every turn before the last writes two whole
   * legs; the last one (k = size) writes size - 1 cells along x and stops at
   * size * size.
   */
  lemma TurnLegs(size: int, k: int)
    requires 1 <= k <= size
    ensures TurnFirst(k) <= size * size
    ensures k < size ==> LegLength(k, TurnFirst(k), size * size) == k
    ensures k < size ==> TurnFirst(k) + k <= size * size && LegLength(k, TurnFirst(k) + k, size * size) == k
    ensures k < size ==> TurnFirst(k + 1) == TurnFirst(k) + k + k
    ensures k == size ==> LegLength(k, TurnFirst(k), size * size) == k - 1
    ensures k == size ==> TurnFirst(k) + (k - 1) == size * size
    ensures k == size ==> LegLength(k, TurnFirst(k) + (k - 1), size * size) == 0
  {
    TurnFirstClosed(k);
    MulMono(k, size);
    assert k * (k - 1) == k * k - k;
    if k < size {
      MulMono(k + 1, size);
      assert (k + 1) * (k + 1) == k * k + 2 * k + 1;
    }
  }

  /** The cells of turn k, coordinate by coordinate. */
  lemma TurnCellsAt(c: int, k: int, w1: nat, w2: nat)
    requires k >= 1
    ensures |TurnCells(c, k, w1, w2)| == w1 + w2
    ensures forall t :: 0 <= t < w1 ==>
      TurnCells(c, k, w1, w2)[t] == LegCell(TurnStart(c, k).0, TurnStart(c, k).1, TurnStep(k), 0, t)
    ensures forall t :: w1 <= t < w1 + w2 ==>
      TurnCells(c, k, w1, w2)[t] == LegCell(TurnCorner(c, k, w1).0, TurnCorner(c, k, w1).1, TurnBackStep(k), 1, t - w1)
    ensures k % 2 == 1 ==> forall t :: 0 <= t < w1 + w2 ==>
      TurnCells(c, k, w1, w2)[t] == (if t < w1 then (c - k / 2 + t, c + k / 2) else (c - k / 2 + w1, c + k / 2 - (t - w1)))
    ensures k % 2 == 0 ==> forall t :: 0 <= t < w1 + w2 ==>
      TurnCells(c, k, w1, w2)[t] == (if t < w1 then (c + k / 2 - t, c - k / 2) else (c + k / 2 - w1, c - k / 2 + (t - w1)))
  {
  }

  /**
   * Turn k on a grid of size 2c + 1: its cells are distinct, lie in the
   * rectangle of k turns and outside the one of k - 1 turns, and the first is
   * the turn's start.
   */
  lemma TurnFresh(c: int, k: int, w1: nat, w2: nat)
    requires 1 <= k && w1 <= k && w2 <= k && (w2 > 0 ==> w1 == k)
    ensures NoRepeats(TurnCells(c, k, w1, w2))
    ensures forall t :: 0 <= t < |TurnCells(c, k, w1, w2)| ==>
      InRect(TurnCells(c, k, w1, w2)[t], c, k) && !InRect(TurnCells(c, k, w1, w2)[t], c, k - 1)
    ensures w1 > 0 ==> TurnCells(c, k, w1, w2)[0] == TurnStart(c, k)
  {
    TurnCellsAt(c, k, w1, w2);
    var j := k / 2;
    if k % 2 == 1 {
      assert k == 2 * j + 1;
    } else {
      assert k == 2 * j;
    }
  }

  /**
   * Both legs of turn k stay on the grid of size 2c + 1; the last turn,
   * k = 2c + 1, writes at most 2c cells along row y = 2c (the last row of
   * the array) and ends in the corner (2c, 2c).
   */
  lemma TurnOnGrid(c: int, k: int, w1: nat, w2: nat)
    requires c >= 0 && 1 <= k <= 2 * c + 1 && w1 <= k && w2 <= k && (w2 > 0 ==> w1 == k)
    requires k == 2 * c + 1 ==> w1 < k && w2 == 0
    ensures LegOnGrid(TurnStart(c, k).0, TurnStart(c, k).1, TurnStep(k), 0, w1, 2 * c + 1)
    ensures LegOnGrid(TurnCorner(c, k, w1).0, TurnCorner(c, k, w1).1, TurnBackStep(k), 1, w2, 2 * c + 1)
    ensures k == 2 * c + 1 && w1 == k - 1 ==> TurnCorner(c, k, w1) == (2 * c, 2 * c)
  {
    TurnCellsAt(c, k, w1, w2);
    var l := TurnCells(c, k, w1, w2);
    var j := k / 2;
    if k % 2 == 1 {
      assert k == 2 * j + 1;
    } else {
      assert k == 2 * j;
    }
    assert forall t :: 0 <= t < |l| ==> OnGrid(l[t], 2 * c + 1);
    forall t | 0 <= t < w2
      ensures OnGrid(LegCell(TurnCorner(c, k, w1).0, TurnCorner(c, k, w1).1, TurnBackStep(k), 1, t), 2 * c + 1)
    {
      assert l[w1 + t] == LegCell(TurnCorner(c, k, w1).0, TurnCorner(c, k, w1).1, TurnBackStep(k), 1, t);
    }
  }

  /** Turn k + 1 starts where the whole turn k ends, with the step reversed. */
  lemma TurnAdvance(c: int, k: int)
    requires k >= 1
    ensures TurnStep(k + 1) == TurnBackStep(k) == -TurnStep(k)
    ensures TurnStart(c, k + 1) == LegCell(TurnCorner(c, k, k).0, TurnCorner(c, k, k).1, TurnBackStep(k), 1, k)
  {
    var j := k / 2;
    if k % 2 == 1 {
      assert k == 2 * j + 1 && (k + 1) / 2 == j + 1;
    } else {
      assert k == 2 * j && (k + 1) / 2 == j;
    }
  }

  /**
   * Appending turn k to the cells of the earlier turns keeps them distinct,
   * inside the rectangle of k turns, and starting at the centre.
   */
  lemma TurnExtendsSpiral(c: int, k: int, v0: seq<Cell>, w1: nat, w2: nat)
    requires c >= 0 && 1 <= k <= 2 * c + 1 && w1 <= k && w2 <= k && (w2 > 0 ==> w1 == k)
    requires k == 2 * c + 1 ==> w1 < k && w2 == 0
    requires NoRepeats(v0) && forall t :: 0 <= t < |v0| ==> InRect(v0[t], c, k - 1)
    requires |v0| > 0 ==> v0[0] == (c, c)
    requires |v0| == 0 ==> k == 1
    ensures NoRepeats(v0 + TurnCells(c, k, w1, w2))
    ensures forall t :: 0 <= t < |v0 + TurnCells(c, k, w1, w2)| ==> InRect((v0 + TurnCells(c, k, w1, w2))[t], c, k)
    ensures |v0 + TurnCells(c, k, w1, w2)| > 0 ==> (v0 + TurnCells(c, k, w1, w2))[0] == (c, c)
  {
    var cells := TurnCells(c, k, w1, w2);
    TurnFresh(c, k, w1, w2);
    NoRepeatsConcat(v0, cells);
    var v := v0 + cells;
    forall t | 0 <= t < |v|
      ensures InRect(v[t], c, k)
    {
      if t < |v0| {
        RectGrows(v0[t], c, k);
      } else {
        assert v[t] == cells[t - |v0|];
      }
    }
  }

  /** The cells the first k whole turns around (c, c) write, in order. */
  function Spiral(c: int, k: nat): seq<Cell> {
    if k == 0 then [] else Spiral(c, k - 1) + TurnCells(c, k, k, k)
  }

  /**
   * The cells of the numbers 1 .. (2c + 1)^2 - 1 on a grid of size 2c + 1:
   * 2c whole turns and the x leg of the last turn, short by one cell.
   */
  function FullSpiral(c: nat): seq<Cell> {
    Spiral(c, 2 * c) + TurnCells(c, 2 * c + 1, 2 * c, 0)
  }

  /** The legs of turn k written one after the other are the turn's cells. */
  lemma TurnAppend(v0: seq<Cell>, c: int, k: int, w1: nat, w2: nat)
    ensures var start := TurnStart(c, k);
      var corner := TurnCorner(c, k, w1);
      (v0 + Leg(start.0, start.1, TurnStep(k), 0, w1)) + Leg(corner.0, corner.1, TurnBackStep(k), 1, w2)
        == v0 + TurnCells(c, k, w1, w2)
  {
  }

  /**
   * The first k turns write TurnFirst(k + 1) - 1 distinct cells, starting at
   * the centre and inside the rectangle of k turns.
   */
  lemma {:induction false} SpiralShape(c: int, k: nat)
    requires c >= 0 && k <= 2 * c
    ensures |Spiral(c, k)| == TurnFirst(k + 1) - 1
    ensures NoRepeats(Spiral(c, k))
    ensures forall t :: 0 <= t < |Spiral(c, k)| ==> InRect(Spiral(c, k)[t], c, k)
    ensures k > 0 ==> Spiral(c, k)[0] == (c, c)
  {
    if k > 0 {
      SpiralShape(c, k - 1);
      TurnExtendsSpiral(c, k, Spiral(c, k - 1), k, k);
    }
  }

  /**
   * The whole walk on a grid of size 2c + 1 visits (2c + 1)^2 - 1 distinct
   * cells, the first of them the centre.
   */
  lemma FullSpiralShape(c: nat)
    ensures |FullSpiral(c)| == (2 * c + 1) * (2 * c + 1) - 1
    ensures NoRepeats(FullSpiral(c))
    ensures c > 0 ==> FullSpiral(c)[0] == (c, c)
  {
    SpiralShape(c, 2 * c);
    TurnLegs(2 * c + 1, 2 * c + 1);
    TurnExtendsSpiral(c, 2 * c + 1, Spiral(c, 2 * c), 2 * c, 0);
  }

  /**
   * The state of a walk between the steps of the driver loop: the next
   * number, the cursor, the step and the cells written so far.
   */
  datatype Pen = Pen(num: int, cursor: Cell, step: int, visited: seq<Cell>)

  /**
   * The pen after `fill_side(iterations, side)` on a grid of m cells: the
   * leg of LegLength(iterations, num, m) cells from the cursor is written,
   * the cursor moves past it, and the step is reversed.
   */
  function AfterSide(p: Pen, iterations: int, side: int, m: int): (q: Pen)
    requires p.num <= m
    ensures q.num <= m
  {
    var w := LegLength(iterations, p.num, m);
    Pen(p.num + w, LegCell(p.cursor.0, p.cursor.1, p.step, side, w), -p.step,
      p.visited + Leg(p.cursor.0, p.cursor.1, p.step, side, w))
  }

  /** The pen after round k of the loop of `get_spiral`: both legs, then the step reversed again. */
  function AfterTurn(p: Pen, k: int, m: int): Pen
    requires p.num <= m
  {
    var q := AfterSide(AfterSide(p, k, 0, m), k, 1, m);
    q.(step := -q.step)
  }

  /** The leg `fill_side(iterations, side)` writes from p stays on the grid of size n. */
  predicate LegFits(p: Pen, iterations: int, side: int, m: int, n: int) {
    p.num <= m && LegOnGrid(p.cursor.0, p.cursor.1, p.step, side, LegLength(iterations, p.num, m), n)
  }

  /**
   * The pen when turn k starts on a grid of the given odd size with m
   * cells: up to the last turn, number TurnFirst(k) at the turn's start with
   * the earlier turns written; after the last turn, every number written and
   * the cursor in the corner (size - 1, size - 1).
   */
  ghost function PenBefore(size: int, m: int, k: int): Pen
    requires size >= 1 && k >= 1
  {
    if k <= size then Pen(TurnFirst(k), TurnStart(size / 2, k), TurnStep(k), Spiral(size / 2, k - 1))
    else Pen(m, (size - 1, size - 1), TurnStep(k), FullSpiral(size / 2))
  }

  /**
   * What one turn does on a grid of m = size * size cells: from the pen
   * before turn k both legs `fill_side` writes (cut short once num reaches
   * m) stay on the grid, and they lead to the pen before turn k + 1.
   */
  lemma TurnOutcome(size: int, m: int, k: int)
    requires size >= 1 && size % 2 == 1 && m == size * size && k >= 1
    ensures PenBefore(size, m, k).num <= m
    ensures LegFits(PenBefore(size, m, k), k, 0, m, size)
    ensures LegFits(AfterSide(PenBefore(size, m, k), k, 0, m), k, 1, m, size)
    ensures AfterTurn(PenBefore(size, m, k), k, m) == PenBefore(size, m, k + 1)
  {
    if k < size {
      TurnLegs(size, k);
      TurnMiddle(size, m, k);
    } else if k == size {
      TurnLegs(size, k);
      TurnLast(size, m, k);
    } else {
      TurnDone(size, m, k);
    }
  }

  /** A turn before the last one: both legs are whole. */
  lemma TurnMiddle(size: int, m: int, k: int)
    requires size % 2 == 1 && 1 <= k < size
    requires TurnFirst(k) + k + k <= m && TurnFirst(k + 1) == TurnFirst(k) + k + k
    ensures PenBefore(size, m, k).num <= m
    ensures LegFits(PenBefore(size, m, k), k, 0, m, size)
    ensures LegFits(AfterSide(PenBefore(size, m, k), k, 0, m), k, 1, m, size)
    ensures AfterTurn(PenBefore(size, m, k), k, m) == PenBefore(size, m, k + 1)
  {
    var c := size / 2;
    assert size == 2 * c + 1;
    TurnAdvance(c, k);
    TurnOnGrid(c, k, k, k);
    TurnAppend(Spiral(c, k - 1), c, k, k, k);
  }

  /** The last turn: its x leg is one cell short and its y leg is empty. */
  lemma TurnLast(size: int, m: int, k: int)
    requires size >= 1 && size % 2 == 1 && k == size
    requires TurnFirst(k) + (k - 1) == m
    ensures PenBefore(size, m, k).num <= m
    ensures LegFits(PenBefore(size, m, k), k, 0, m, size)
    ensures LegFits(AfterSide(PenBefore(size, m, k), k, 0, m), k, 1, m, size)
    ensures AfterTurn(PenBefore(size, m, k), k, m) == PenBefore(size, m, k + 1)
  {
    var c := size / 2;
    assert size == 2 * c + 1;
    TurnAdvance(c, k);
    TurnOnGrid(c, k, k - 1, 0);
    TurnAppend(Spiral(c, k - 1), c, k, k - 1, 0);
  }

  /** The rounds after the last turn write nothing and only flip the step. */
  lemma TurnDone(size: int, m: int, k: int)
    requires size >= 1 && k > size
    ensures PenBefore(size, m, k).num <= m
    ensures LegFits(PenBefore(size, m, k), k, 0, m, size)
    ensures LegFits(AfterSide(PenBefore(size, m, k), k, 0, m), k, 1, m, size)
    ensures AfterTurn(PenBefore(size, m, k), k, m) == PenBefore(size, m, k + 1)
  {
    var p := PenBefore(size, m, k);
    assert p == Pen(m, (size - 1, size - 1), TurnStep(k), FullSpiral(size / 2));
    TurnAdvance(size / 2, k);
    IdleSide(p, k, 0, m, size);
    IdleSide(AfterSide(p, k, 0, m), k, 1, m, size);
  }

  /** A leg that starts with every number written writes nothing. */
  lemma IdleSide(p: Pen, iterations: int, side: int, m: int, n: int)
    requires p.num == m
    ensures LegFits(p, iterations, side, m, n)
    ensures AfterSide(p, iterations, side, m) == p.(step := -p.step)
  {
    assert Leg(p.cursor.0, p.cursor.1, p.step, side, 0) == [];
    assert p.visited + [] == p.visited;
  }

  /** The pen after the last round of the loop, turn size * size. */
  lemma PenAtEnd(size: int)
    requires size >= 1 && size % 2 == 1
    ensures PenBefore(size, size * size, size * size) == Pen(size * size, (size - 1, size - 1), 1, FullSpiral(size / 2))
  {
    OddSquare(size);
    if size > 1 {
      SquareExceeds(size);
    }
    PenAtLast(size, size * size, size * size);
  }

  /** PenAtEnd, with the number of cells and of the last round abstracted as m and k. */
  lemma PenAtLast(size: int, m: int, k: int)
    requires size >= 1 && size % 2 == 1 && k % 2 == 1
    requires size == 1 ==> m == 1 && k == 1
    requires size > 1 ==> k > size
    ensures PenBefore(size, m, k) == Pen(m, (size - 1, size - 1), 1, FullSpiral(size / 2))
  {
    if size == 1 {
      SpiralOfOne();
    }
  }

  /** On a grid of size one the spiral writes no cell: number 1 is the last. */
  lemma SpiralOfOne()
    ensures TurnFirst(1) == 1 && TurnStart(0, 1) == (0, 0)
    ensures Spiral(0, 0) == [] && FullSpiral(0) == []
  {
    assert Leg(0, 0, TurnStep(1), 0, 0) == [];
    assert TurnCells(0, 1, 0, 0) == [];
  }

  lemma RectGrows(p: Cell, c: int, k: int)
    requires k >= 1 && InRect(p, c, k - 1)
    ensures InRect(p, c, k)
  {
  }

  lemma SquareExceeds(s: int)
    requires s > 1
    ensures s * s > s
  {
    MulAtLeastOne(s, s - 1);
    assert s * s == s * (s - 1) + s;
  }

  lemma OddSquare(s: int)
    requires s % 2 == 1
    ensures (s * s) % 2 == 1
  {
    var h := s / 2;
    assert s == 2 * h + 1;
    assert s * s == 2 * (2 * h * h + 2 * h) + 1;
  }

  /** Each cell of v is next to the one after it, and the last one is next to `cursor`. */
  ghost predicate Chain(v: seq<Cell>, cursor: Cell) {
    |v| == 0 || (Adjacent(v[|v| - 1], cursor) && Chain(v[..|v| - 1], v[|v| - 1]))
  }

  /** The chain, stated cell by cell. */
  lemma {:induction false} ChainAdjacent(v: seq<Cell>, cursor: Cell)
    requires Chain(v, cursor)
    ensures forall k :: 0 <= k < |v| - 1 ==> Adjacent(v[k], v[k + 1])
    ensures |v| > 0 ==> Adjacent(v[|v| - 1], cursor)
  {
    if |v| > 0 {
      var u := v[..|v| - 1];
      ChainAdjacent(u, v[|v| - 1]);
      forall k | 0 <= k < |v| - 1
        ensures Adjacent(v[k], v[k + 1])
      {
        if k < |u| - 1 {
          assert v[k] == u[k] && v[k + 1] == u[k + 1];
        }
      }
    }
  }

  /**
   * The walk so far: the numbers 1..num-1 were written on the grid at
   * `visited`, each next to the one before, the last next to the cursor.
   */
  ghost predicate Walk(size: int, num: int, visited: seq<Cell>, cursor: Cell) {
    && |visited| == num - 1
    && (forall k :: 0 <= k < |visited| ==> OnGrid(visited[k], size))
    && Chain(visited, cursor)
  }

  lemma WalkExtends(size: int, num: int, visited: seq<Cell>, cursor: Cell, next: Cell)
    requires Walk(size, num, visited, cursor) && OnGrid(cursor, size) && Adjacent(cursor, next)
    ensures Walk(size, num + 1, visited + [cursor], next)
  {
    assert (visited + [cursor])[..|visited|] == visited;
  }

  /** The array shows the writes of `visited`: cell (x, y) is a[y, x]. */
  ghost predicate Shows(a: array2<Colour>, visited: seq<Cell>)
    reads a
  {
    forall y, x {:trigger a[y, x]} :: 0 <= y < a.Length0 && 0 <= x < a.Length1 ==> a[y, x] == Painted(visited, (x, y))
  }

  /**
   * An array that shows distinct writes holds the colour of number k + 1 at
   * the k-th cell written, and black wherever nothing was written.
   */
  lemma ShowsColours(a: array2<Colour>, v: seq<Cell>)
    requires Shows(a, v) && NoRepeats(v)
    requires forall k :: 0 <= k < |v| ==> 0 <= v[k].1 < a.Length0 && 0 <= v[k].0 < a.Length1
    ensures forall k :: 0 <= k < |v| ==> a[v[k].1, v[k].0] == Classify(k + 1)
    ensures forall y, x :: 0 <= y < a.Length0 && 0 <= x < a.Length1 && (x, y) !in v ==> a[y, x] == Black
  {
    forall k | 0 <= k < |v|
      ensures a[v[k].1, v[k].0] == Classify(k + 1)
    {
      PaintedAtVisited(v, k);
    }
    forall y, x | 0 <= y < a.Length0 && 0 <= x < a.Length1 && (x, y) !in v
      ensures a[y, x] == Black
    {
      PaintedUnvisited(v, (x, y));
    }
  }

  /** Cells on the grid, coordinate by coordinate. */
  lemma OnGridBounds(v: seq<Cell>, n: int)
    requires forall k :: 0 <= k < |v| ==> OnGrid(v[k], n)
    ensures forall k :: 0 <= k < |v| ==> 0 <= v[k].1 < n && 0 <= v[k].0 < n
  {
    forall k | 0 <= k < |v|
      ensures 0 <= v[k].1 < n && 0 <= v[k].0 < n
    {
      assert OnGrid(v[k], n);
    }
  }

  /**
   * The finished walk on a grid of size 2c + 1: the cells are distinct and
   * begin at the centre, consecutive numbers are neighbours, each cell shows
   * its number's colour and every other cell stays black.
   */
  lemma SpiralDrawn(a: array2<Colour>, v: seq<Cell>, cursor: Cell, n: int)
    requires n >= 1 && n % 2 == 1 && a.Length0 == n && a.Length1 == n
    requires forall k :: 0 <= k < |v| ==> 0 <= v[k].1 < a.Length0 && 0 <= v[k].0 < a.Length1
    requires v == FullSpiral(n / 2) && Shows(a, v) && Chain(v, cursor)
    ensures NoRepeats(v)
    ensures |v| > 0 ==> v[0] == (n / 2, n / 2)
    ensures forall k :: 0 <= k < |v| - 1 ==> Adjacent(v[k], v[k + 1])
    ensures forall k :: 0 <= k < |v| ==> a[v[k].1, v[k].0] == Classify(k + 1)
    ensures forall y, x :: 0 <= y < n && 0 <= x < n && (x, y) !in v ==> a[y, x] == Black
  {
    FullSpiralShape(n / 2);
    ChainAdjacent(v, cursor);
    ShowsColours(a, v);
  }

  class UlamSpiral {
    const size: int
    const maxNum: int
    const arr: array2<Colour>
    const primes41: set<int> := FamilySet(41)
    const primes17: set<int> := FamilySet(17)
    const primes11: set<int> := FamilySet(11)
    /** The cursor `pos`: posX is pos[0], posY is pos[1]; the cell written is arr[posY, posX]. */
    var posX: int
    var posY: int
    var step: int
    var num: int
    /** Where each number went: visited[k] is the cell (x, y) written for number k + 1. */
    ghost var visited: seq<Cell>

    /**
     * The object invariant: size is odd, the step is a unit, every number
     * below num has been written on the grid next to the one before it, and
     * the array shows exactly those writes.
     */
    ghost predicate Valid()
      reads this, arr
    {
      && size >= 1 && size % 2 == 1 && maxNum == size * size
      && arr.Length0 == size && arr.Length1 == size
      && (step == 1 || step == -1)
      && 1 <= num <= maxNum
      && Walk(size, num, visited, (posX, posY))
      && Shows(arr, visited)
    }

    /** The state right after construction. */
    ghost predicate Initial()
      reads this
    {
      num == 1 && step == 1 && posX == size / 2 && posY == size / 2 && visited == []
    }

    /** An even size is raised to the next odd one; the cursor starts at the centre. */
    constructor (requested: int)
      requires requested >= 0
      ensures Valid() && Initial() && fresh(arr)
      ensures size % 2 == 1 && (requested % 2 == 1 ==> size == requested)
      ensures requested % 2 == 0 ==> size == requested + 1
      ensures maxNum == size * size
      ensures forall y, x :: 0 <= y < size && 0 <= x < size ==> arr[y, x] == Black
    {
      var s := if requested % 2 == 1 then requested else requested + 1;
      MulAtLeastOne(s, s);
      size := s;
      maxNum := s * s;
      arr := new Colour[s, s]((y, x) => Black);
      posX, posY := s / 2, s / 2;
      step := 1;
      num := 1;
      visited := [];
    }

    /**
     * The colour chain of `fill_side`: family 41, then 17, then 11, then the
     * primality test; it is exactly the colour Classify gives.
     */
    method ColourOf(n: int) returns (colour: Colour)
      ensures colour == Classify(n)
    {
      if n in primes41 {
        colour := Red;
      } else if n in primes17 {
        colour := Green;
      } else if n in primes11 {
        colour := Blue;
      } else {
        var p := IsPrimeTrial(n);
        colour := if p then White else Black;
      }
    }

    /**
     * The rest of one round of `fill_side` once the colour is chosen: write
     * it at the cursor, move the cursor one step along `side`, count the
     * number.
     */
    method Advance(colour: Colour, side: int)
      requires Valid() && num < maxNum && colour == Classify(num)
      requires side == 0 || side == 1
      requires OnGrid((posX, posY), size)
      modifies this, arr
      ensures Valid()
      ensures State() == Pen(old(num) + 1, LegCell(old(posX), old(posY), old(step), side, 1), old(step), old(visited) + [(old(posX), old(posY))])
    {
      ghost var here := (posX, posY);
      ghost var next := LegCell(posX, posY, step, side, 1);
      WalkExtends(size, num, visited, here, next);
      PaintedAppend(visited, here);
      arr[posY, posX] := colour;
      visited := visited + [here];
      if side == 0 {
        posX := posX + (if step != 0 then step else -step);
      } else {
        posY := posY + (if step != 0 then step else -step);
      }
      num := num + 1;
    }

    /** The pen: the walk's state as one value. */
    ghost function State(): Pen
      reads this
    {
      Pen(num, (posX, posY), step, visited)
    }

    /** `self.step *= -1`. */
    method ReverseStep()
      requires Valid()
      modifies this
      ensures Valid() && State() == old(State()).(step := -old(step))
    {
      step := -step;
    }

    /**
     * `fill_side`: walks up to `iterations` cells along coordinate `side`,
     * writing the colour of each number, and stops early once num reaches
     * maxNum; then reverses the step.
     */
    method FillSide(iterations: int, side: int)
      requires Valid() && (side == 0 || side == 1)
      requires LegFits(State(), iterations, side, maxNum, size)
      modifies this, arr
      ensures Valid() && State() == AfterSide(old(State()), iterations, side, maxNum)
    {
      ghost var x0, y0, n0, v0, d := posX, posY, num, visited, step;
      ghost var w := LegLength(iterations, num, maxNum);
      assert LegOnGrid(x0, y0, d, side, w, size);
      var i := 0;
      while i < iterations
        invariant 0 <= i <= w
        invariant Valid() && State() == Pen(n0 + i, LegCell(x0, y0, d, side, i), d, v0 + Leg(x0, y0, d, side, i))
      {
        LegLengthBound(iterations, n0, maxNum, i);
        if num == maxNum {
          break;
        }
        var colour := ColourOf(num);
        LegAdvance(v0, x0, y0, d, side, w, size, i);
        Advance(colour, side);
        i := i + 1;
      }
      LegLengthBound(iterations, n0, maxNum, i);
      ReverseStep();
    }

    /** The walk is at the start of turn k of `get_spiral`. */
    ghost predicate Before(k: int)
      reads this
    {
      size >= 1 && k >= 1 && State() == PenBefore(size, maxNum, k)
    }

    /**
     * One round of the loop of `get_spiral`: the two legs of turn k, then a
     * step reversal, leading from the start of turn k to the start of turn
     * k + 1.
     */
    method Turn(k: int)
      requires Valid() && Before(k)
      modifies this, arr
      ensures Valid() && State() == AfterTurn(old(State()), k, maxNum)
      ensures Before(k + 1)
    {
      TurnOutcome(size, maxNum, k);
      FillSide(k, 0);
      FillSide(k, 1);
      ReverseStep();
    }

    /** The state `get_spiral` leaves behind: every number written, the cursor in the far corner. */
    ghost predicate Finished()
      reads this
    {
      && size >= 1
      && num == maxNum && step == 1 && posX == size - 1 && posY == size - 1
      && visited == FullSpiral(size / 2)
    }

    /**
     * What the finished spiral shows: number k + 1 at the k-th cell of the
     * walk, all cells distinct, starting at the centre, consecutive numbers
     * side by side, and black wherever no number went.
     */
    lemma Drawing()
      requires Valid() && Finished()
      ensures |visited| == maxNum - 1 && NoRepeats(visited)
      ensures maxNum > 1 ==> visited[0] == (size / 2, size / 2)
      ensures forall k :: 0 <= k < |visited| - 1 ==> Adjacent(visited[k], visited[k + 1])
      ensures forall k :: 0 <= k < |visited| ==> arr[visited[k].1, visited[k].0] == Classify(k + 1)
      ensures forall y, x :: 0 <= y < size && 0 <= x < size && (x, y) !in visited ==> arr[y, x] == Black
    {
      OnGridBounds(visited, size);
      SpiralDrawn(arr, visited, (posX, posY), size);
    }

    /**
     * `get_spiral`: runs turns 1 .. size*size - 1 (two legs each, then a
     * step reversal) and returns the grid flipped upside down and turned
     * clockwise, which is its transpose.
     */
    method GetSpiral() returns (out: seq<seq<Colour>>)
      requires Valid() && Initial()
      modifies this, arr
      ensures Valid() && Finished()
      ensures |visited| == maxNum - 1 && NoRepeats(visited)
      ensures maxNum > 1 ==> visited[0] == (size / 2, size / 2)
      ensures forall k :: 0 <= k < |visited| - 1 ==> Adjacent(visited[k], visited[k + 1])
      ensures forall k :: 0 <= k < |visited| ==> arr[visited[k].1, visited[k].0] == Classify(k + 1)
      ensures forall y, x :: 0 <= y < size && 0 <= x < size && (x, y) !in visited ==> arr[y, x] == Black
      ensures IsSquare(Cells(arr), size) && out == RotateCw(FlipRows(Cells(arr)))
      ensures out == Transpose(Cells(arr))
    {
      for k := 1 to size * size
        invariant Valid() && Before(k)
      {
        Turn(k);
      }
      PenAtEnd(size);
      assert Finished();
      Drawing();
      FlipThenRotateIsTranspose(Cells(arr));
      out := RotateCw(FlipRows(Cells(arr)));
    }
  }
}
