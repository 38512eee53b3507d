/** The costmap, the hexagonal neighbourhood laid over its square cells, and routes. */
module HexGrid {
  import opened Bytes

  datatype Cell = Cell(x: nat, y: nat)

  /** Costs row by row, as the costmap stores them. */
  datatype Costmap = Costmap(width: nat, height: nat, costs: seq<Byte>)

  const TWO_TO_32 := 0x1_0000_0000
  const LETHAL_FROM := 253
  const UNSAFE_FROM := 180
  const NO_INFORMATION := 255

  /** Cell indices are kept in an `int`. */
  predicate WellSized(m: Costmap) {
    |m.costs| == m.width * m.height && |m.costs| <= 0x8000_0000
  }

  predicate InMap(m: Costmap, c: Cell) {
    c.x < m.width && c.y < m.height
  }

  function Index(m: Costmap, c: Cell): (k: nat)
    requires InMap(m, c)
    ensures k < m.width * m.height
  {
    IndexInRange(m.width, m.height, c.x, c.y);
    c.y * m.width + c.x
  }

  lemma IndexInRange(w: nat, h: nat, x: nat, y: nat)
    requires x < w && y < h
    ensures y * w + x < w * h
  {
    assert y * w + w == (y + 1) * w;
    assert (y + 1) * w <= h * w;
  }

  lemma RowsApart(w: nat, n: nat)
    requires n > 0
    ensures n * w >= w
  {
  }

  lemma RowsDoNotOverlap(w: nat, x0: nat, y0: nat, x1: nat, y1: nat)
    requires x0 < w && x1 < w && y0 < y1
    ensures y0 * w + x0 < y1 * w + x1
  {
    RowsApart(w, y1 - y0);
    assert y1 * w == y0 * w + (y1 - y0) * w;
  }

  lemma IndexInjective(m: Costmap, a: Cell, b: Cell)
    requires InMap(m, a) && InMap(m, b) && Index(m, a) == Index(m, b)
    ensures a == b
  {
    if a.y < b.y {
      RowsDoNotOverlap(m.width, a.x, a.y, b.x, b.y);
    } else if b.y < a.y {
      RowsDoNotOverlap(m.width, b.x, b.y, a.x, a.y);
    }
  }

  function Cost(m: Costmap, c: Cell): Byte
    requires WellSized(m) && InMap(m, c)
  {
    m.costs[Index(m, c)]
  }

  predicate IsNodeValid(m: Costmap, c: Cell)
    requires WellSized(m)
  {
    InMap(m, c) && Cost(m, c) < LETHAL_FROM && Cost(m, c) != NO_INFORMATION
  }

  predicate IsSightValid(m: Costmap, c: Cell)
    requires WellSized(m)
  {
    InMap(m, c) && Cost(m, c) < UNSAFE_FROM && Cost(m, c) != NO_INFORMATION
  }

  // ---------- neighbours ----------

  datatype Offset = Offset(dx: int, dy: int)

  /** Rows of odd number are shifted: the diagonal neighbours depend on the parity. */
  function HexNeighbors(y: nat): (r: seq<Offset>)
    ensures |r| == 6
  {
    if y % 2 == 0 then
      [Offset(1, 0), Offset(0, 1), Offset(-1, 0), Offset(0, -1), Offset(1, 1), Offset(1, -1)]
    else
      [Offset(1, 0), Offset(0, 1), Offset(-1, 0), Offset(0, -1), Offset(-1, 1), Offset(-1, -1)]
  }

  /** Coordinates are 32-bit and unsigned: stepping below zero wraps around. */
  function Move(c: Cell, d: Offset): Cell {
    Cell((c.x + d.dx) % TWO_TO_32, (c.y + d.dy) % TWO_TO_32)
  }

  predicate IsStep(m: Costmap, a: Cell, b: Cell)
    requires WellSized(m)
  {
    IsNodeValid(m, b) && exists k :: 0 <= k < 6 && b == Move(a, HexNeighbors(a.y)[k])
  }

  lemma SidesFit(m: Costmap, c: Cell)
    requires WellSized(m) && InMap(m, c)
    ensures m.width <= 0x8000_0000 && m.height <= 0x8000_0000
  {
    assert m.width * m.height >= m.width && m.width * m.height >= m.height by {
      assert m.width * m.height == m.width * (m.height - 1) + m.width;
      assert m.width * m.height == (m.width - 1) * m.height + m.height;
    }
  }

  /** Wrapping never leads into the map: a step changes the coordinates by its offset. */
  lemma StepsDoNotWrap(m: Costmap, a: Cell, d: Offset)
    requires WellSized(m) && InMap(m, a) && d in HexNeighbors(a.y) && InMap(m, Move(a, d))
    ensures Move(a, d).x == a.x + d.dx && Move(a, d).y == a.y + d.dy
  {
    SidesFit(m, a);
  }

  /** The opposite of an offset is listed in the row it leads to. */
  lemma OppositeListed(y: nat, k: nat) returns (back: nat)
    requires k < 6 && y + HexNeighbors(y)[k].dy >= 0
    ensures back < 6
    ensures var d := HexNeighbors(y)[k]; HexNeighbors(y + d.dy)[back] == Offset(-d.dx, -d.dy)
  {
    back := if k < 4 then (k + 2) % 4 else 9 - k;
  }

  /** The neighbourhood is symmetric although the table depends on the row. */
  lemma StepBack(m: Costmap, a: Cell, b: Cell)
    requires WellSized(m) && IsNodeValid(m, a) && IsStep(m, a, b)
    ensures IsStep(m, b, a)
  {
    hide HexNeighbors, Cost;
    var k :| 0 <= k < 6 && b == Move(a, HexNeighbors(a.y)[k]);
    var d := HexNeighbors(a.y)[k];
    StepsDoNotWrap(m, a, d);
    SidesFit(m, a);
    var back := OppositeListed(a.y, k);
    MoveBack(a, b, d);
  }

  lemma MoveBack(a: Cell, b: Cell, d: Offset)
    requires a.x < TWO_TO_32 && a.y < TWO_TO_32 && b.x == a.x + d.dx && b.y == a.y + d.dy
    ensures a == Move(b, Offset(-d.dx, -d.dy))
  {
  }

  // ---------- the neighbourhood as a grid of hexagons ----------

  /** Columns in half cells: the rows of even number are shifted half a cell to the right. */
  function HalfColumns(c: Cell): int {
    2 * c.x + (if c.y % 2 == 0 then 1 else 0)
  }

  /** Side by side in a row, or half a cell apart in neighbouring rows. */
  predicate Adjacent(a: Cell, b: Cell) {
    var across, down := HalfColumns(b) - HalfColumns(a), b.y - a.y;
    (down == 0 && (across == 2 || across == -2)) || ((down == 1 || down == -1) && (across == 1 || across == -1))
  }

  lemma ListedIsAdjacent(a: Cell, b: Cell, k: nat)
    requires k < 6 && b.x == a.x + HexNeighbors(a.y)[k].dx && b.y == a.y + HexNeighbors(a.y)[k].dy
    ensures Adjacent(a, b)
  {
  }

  lemma AdjacentIsListed(a: Cell, b: Cell) returns (k: nat)
    requires Adjacent(a, b)
    ensures k < 6 && HexNeighbors(a.y)[k] == Offset(b.x - a.x, b.y - a.y)
  {
    var dx, dy := b.x - a.x, b.y - a.y;
    if dy == 0 {
      k := if dx == 1 then 0 else 2;
    } else if dx == 0 {
      k := if dy == 1 then 1 else 3;
    } else {
      k := if dy == 1 then 4 else 5;
    }
  }

  lemma MoveReaches(a: Cell, b: Cell)
    requires b.x < TWO_TO_32 && b.y < TWO_TO_32
    ensures Move(a, Offset(b.x - a.x, b.y - a.y)) == b
  {
  }

  /** A step leads exactly to the valid ones among the six cells around a cell. */
  lemma StepIffAdjacent(m: Costmap, a: Cell, b: Cell)
    requires WellSized(m) && InMap(m, a)
    ensures IsStep(m, a, b) <==> IsNodeValid(m, b) && Adjacent(a, b)
  {
    hide HexNeighbors, Cost, Adjacent, Move;
    if IsStep(m, a, b) {
      var k :| 0 <= k < 6 && b == Move(a, HexNeighbors(a.y)[k]);
      StepsDoNotWrap(m, a, HexNeighbors(a.y)[k]);
      ListedIsAdjacent(a, b, k);
    }
    if IsNodeValid(m, b) && Adjacent(a, b) {
      var k := AdjacentIsListed(a, b);
      SidesFit(m, b);
      MoveReaches(a, b);
    }
  }

  /** What a cell must cost to be entered, and to be seen through. */
  lemma ValidIffCheap(m: Costmap, c: Cell)
    requires WellSized(m)
    ensures IsNodeValid(m, c) <==>
            c.x < m.width && c.y < m.height && 0 <= c.y * m.width + c.x < |m.costs|
            && m.costs[c.y * m.width + c.x] <= 252
    ensures IsSightValid(m, c) <==>
            c.x < m.width && c.y < m.height && 0 <= c.y * m.width + c.x < |m.costs|
            && m.costs[c.y * m.width + c.x] <= 179
  {
    if InMap(m, c) {
      IndexInRange(m.width, m.height, c.x, c.y);
    }
  }

  // ---------- routes ----------

  predicate IsRoute(m: Costmap, r: seq<Cell>)
    requires WellSized(m)
  {
    r != [] && forall k :: 0 <= k < |r| - 1 ==> IsStep(m, r[k], r[k + 1])
  }

  ghost predicate Reachable(m: Costmap, a: Cell, b: Cell)
    requires WellSized(m)
  {
    exists r :: IsRoute(m, r) && r[0] == a && r[|r| - 1] == b
  }

  /** A set of cells that no step leaves holds whatever is reachable from it. */
  lemma {:induction false} RouteStays(m: Costmap, cells: set<Cell>, r: seq<Cell>)
    requires WellSized(m) && IsRoute(m, r) && r[0] in cells
    requires forall a, b :: a in cells && IsStep(m, a, b) ==> b in cells
    ensures r[|r| - 1] in cells
  {
    if |r| > 1 {
      var init := r[..|r| - 1];
      forall k | 0 <= k < |init| - 1 ensures IsStep(m, init[k], init[k + 1]) {
        assert IsStep(m, r[k], r[k + 1]);
      }
      RouteStays(m, cells, init);
      assert IsStep(m, r[|r| - 2], r[|r| - 2 + 1]);
    }
  }

  predicate NoRepeats(r: seq<Cell>) {
    forall j, k :: 0 <= j < k < |r| ==> r[j] != r[k]
  }

  // ---------- the cost of a route ----------

  function SafetyPenalty(m: Costmap, c: Cell): real
    requires WellSized(m) && InMap(m, c)
  {
    var normalized := Cost(m, c) as real / 254.0;
    normalized * normalized * 100.0
  }

  function Direction(a: Cell, b: Cell): Offset {
    Offset(b.x - a.x, b.y - a.y)
  }

  /** Sum over the steps: one for the distance, the safety of the cell entered, and three for
      each change of direction. */
  function RouteCost(m: Costmap, r: seq<Cell>): real
    requires WellSized(m) && forall k :: 0 < k < |r| ==> InMap(m, r[k])
  {
    if |r| < 2 then 0.0
    else
      var n := |r|;
      var turn := if n > 2 && Direction(r[n - 3], r[n - 2]) != Direction(r[n - 2], r[n - 1]) then 3.0 else 0.0;
      RouteCost(m, r[..n - 1]) + 1.0 + SafetyPenalty(m, r[n - 1]) + turn
  }

  // ---------- the cost, summed up ----------

  /** The step into cell k goes another way than the step before it. */
  predicate TurnsAt(r: seq<Cell>, k: nat)
    requires 2 <= k < |r|
  {
    r[k].x - r[k - 1].x != r[k - 1].x - r[k - 2].x || r[k].y - r[k - 1].y != r[k - 1].y - r[k - 2].y
  }

  function Turns(r: seq<Cell>): set<nat> {
    set k: nat | 2 <= k < |r| && TurnsAt(r, k)
  }

  /** The squares of the costs of the cells entered. */
  function SquaredCosts(m: Costmap, r: seq<Cell>): nat
    requires WellSized(m) && forall k :: 0 < k < |r| ==> InMap(m, r[k])
  {
    if |r| < 2 then 0
    else SquaredCosts(m, r[..|r| - 1]) + Cost(m, r[|r| - 1]) * Cost(m, r[|r| - 1])
  }

  lemma TurnsOfLast(r: seq<Cell>)
    requires |r| > 1
    ensures var n := |r| - 1;
            |Turns(r)| == |Turns(r[..n])| + if n > 1 && TurnsAt(r, n) then 1 else 0
  {
    var n := |r| - 1;
    var init := r[..n];
    SameTurns(r, n);
    hide TurnsAt;
    if n > 1 && TurnsAt(r, n) {
      assert Turns(r) == Turns(init) + {n} && n !in Turns(init);
    } else {
      assert Turns(r) == Turns(init);
    }
  }

  lemma SameTurns(r: seq<Cell>, n: nat)
    requires n <= |r|
    ensures forall k: nat :: 2 <= k < n ==> TurnsAt(r[..n], k) == TurnsAt(r, k)
  {
  }

  lemma PenaltyOf(m: Costmap, c: Cell)
    requires WellSized(m) && InMap(m, c)
    ensures SafetyPenalty(m, c) == (Cost(m, c) * Cost(m, c)) as real * 100.0 / 64516.0
  {
    var x := Cost(m, c) as real;
    assert (x / 254.0) * (x / 254.0) == x * x / 64516.0;
  }

  /** A route costs one per step, three per change of direction, and for each cell entered the
      square of its cost, scaled so that 254 counts a hundred. */
  lemma {:induction false} RouteCostIs(m: Costmap, r: seq<Cell>)
    requires WellSized(m) && r != [] && forall k :: 0 < k < |r| ==> InMap(m, r[k])
    ensures RouteCost(m, r) ==
            (|r| - 1) as real + 3.0 * |Turns(r)| as real + SquaredCosts(m, r) as real * 100.0 / 64516.0
  {
    if |r| == 1 {
      assert Turns(r) == {};
    } else {
      hide Turns, SafetyPenalty, Cost;
      assert |r| > 2 ==>
               (TurnsAt(r, |r| - 1) <==> Direction(r[|r| - 3], r[|r| - 2]) != Direction(r[|r| - 2], r[|r| - 1]));
      RouteCostIs(m, r[..|r| - 1]);
      TurnsOfLast(r);
      PenaltyOf(m, r[|r| - 1]);
    }
  }
}
