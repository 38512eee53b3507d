/** The graph search of the planner, with duplicate queue entries and a closed list. Which
    queue entry is taken next is left open, so the results hold for every priority. */
module HexSearch {
  import opened Bytes
  import opened HexGrid

  /** A queue entry; entries are shared and never change. */
  datatype Node = Node(cell: Cell, gCost: real, parent: Option<Node>)

  /** The cells from the start to this entry. */
  function Chain(n: Node): (r: seq<Cell>)
    ensures r != [] && r[|r| - 1] == n.cell
    decreases n
  {
    match n.parent
    case None => [n.cell]
    case Some(p) => Chain(p) + [n.cell]
  }

  /** The chain is a route from the start without repeats, and the stored cost is its cost. */
  predicate Sound(m: Costmap, start: Cell, n: Node)
    requires WellSized(m)
  {
    && IsRoute(m, Chain(n)) && Chain(n)[0] == start && InMap(m, start)
    && NoRepeats(Chain(n)) && RouteInMap(m, Chain(n))
    && n.gCost == RouteCost(m, Chain(n))
  }

  /** Taking one entry out leaves all others in. */
  lemma WithoutOne(open: seq<Node>, k: nat)
    requires k < |open|
    ensures var rest := open[..k] + open[k + 1..];
            && OpenCells(rest) + {open[k].cell} == OpenCells(open)
            && forall j :: 0 <= j < |rest| ==> rest[j] in open
  {
    var rest := open[..k] + open[k + 1..];
    forall j | 0 <= j < |open| ensures open[j].cell in OpenCells(rest) + {open[k].cell} {
      assert j < k ==> rest[j] == open[j];
      assert j > k ==> rest[j - 1] == open[j];
    }
  }

  predicate RouteInMap(m: Costmap, r: seq<Cell>) {
    forall k :: 0 <= k < |r| ==> InMap(m, r[k])
  }

  function CellsOf(r: seq<Cell>): set<Cell> {
    set k | 0 <= k < |r| :: r[k]
  }

  function OpenCells(open: seq<Node>): set<Cell> {
    set k | 0 <= k < |open| :: open[k].cell
  }

  /** The cost of reaching `next` from an entry, as the loop body computes it. */
  function NextCost(m: Costmap, n: Node, next: Cell): real
    requires WellSized(m) && InMap(m, next)
  {
    var turn := if n.parent.Some? && Direction(n.parent.value.cell, n.cell) != Direction(n.cell, next)
               then 3.0 else 0.0;
    n.gCost + 1.0 + SafetyPenalty(m, next) + turn
  }

  lemma SoundExtends(m: Costmap, start: Cell, n: Node, next: Cell)
    requires WellSized(m) && Sound(m, start, n) && IsStep(m, n.cell, next) && next !in CellsOf(Chain(n))
    ensures Sound(m, start, Node(next, NextCost(m, n, next), Some(n)))
  {
    var r := Chain(n);
    var longer := r + [next];
    assert Chain(Node(next, NextCost(m, n, next), Some(n))) == longer;
    assert forall k :: 0 <= k < |r| ==> r[k] in CellsOf(r);
    forall k | 0 <= k < |longer| - 1 ensures IsStep(m, longer[k], longer[k + 1]) {
      if k < |r| - 1 { assert IsStep(m, r[k], r[k + 1]); }
    }
    CostExtends(m, n, next);
  }

  lemma CostExtends(m: Costmap, n: Node, next: Cell)
    requires WellSized(m) && RouteInMap(m, Chain(n)) && InMap(m, next) && n.gCost == RouteCost(m, Chain(n))
    ensures RouteInMap(m, Chain(n) + [next]) && RouteCost(m, Chain(n) + [next]) == NextCost(m, n, next)
  {
    var r := Chain(n);
    var longer := r + [next];
    assert longer[..|r|] == r;
    if n.parent.Some? {
      assert longer[|r| - 2] == n.parent.value.cell;
    }
  }

  /** The closed list marks exactly these cells. */
  ghost predicate Marks(m: Costmap, closed: array<bool>, done: set<Cell>)
    reads closed
  {
    && closed.Length == m.width * m.height
    && forall c :: InMap(m, c) ==> (closed[Index(m, c)] <==> c in done)
  }

  /** Queue entries are sound, and all cells on the way to them are done. */
  ghost predicate GoodQueue(m: Costmap, start: Cell, open: seq<Node>, done: set<Cell>)
    requires WellSized(m)
  {
    forall k :: 0 <= k < |open| ==> GoodEntry(m, start, open[k], done)
  }

  ghost predicate GoodEntry(m: Costmap, start: Cell, n: Node, done: set<Cell>)
    requires WellSized(m)
  {
    Sound(m, start, n) && CellsOf(Chain(n)) <= done + {n.cell}
  }

  /** Every step out of a done cell leads to a done cell or to one in the queue. */
  ghost predicate Frontier(m: Costmap, done: set<Cell>, open: set<Cell>)
    requires WellSized(m)
  {
    forall a, b :: a in done && IsStep(m, a, b) ==> b in done || b in open
  }

  function AllCells(m: Costmap): set<Cell> {
    set x, y | 0 <= x < m.width && 0 <= y < m.height :: Cell(x, y)
  }

  lemma Exhausted(m: Costmap, start: Cell, goal: Cell, done: set<Cell>)
    requires WellSized(m) && Frontier(m, done, {}) && start in done && goal !in done
    ensures !Reachable(m, start, goal)
  {
    forall r | IsRoute(m, r) && r[0] == start ensures r[|r| - 1] != goal {
      RouteStays(m, done, r);
    }
  }

  class Search {
    const m: Costmap
    const start: Cell
    const goal: Cell
    const closed: array<bool>
    var open: seq<Node>
    ghost var done: set<Cell>

    ghost predicate Valid()
      reads this, closed
    {
      && WellSized(m) && InMap(m, start) && InMap(m, goal)
      && Marks(m, closed, done) && done <= AllCells(m)
      && GoodQueue(m, start, open, done)
    }

    /** Between two turns of the loop the goal is not done and nothing reachable is lost. */
    ghost predicate Searching()
      requires WellSized(m)
      reads this
    {
      && goal !in done
      && (start in done || start in OpenCells(open))
      && Frontier(m, done, OpenCells(open))
    }

    constructor (m: Costmap, start: Cell, goal: Cell)
      requires WellSized(m) && InMap(m, start) && InMap(m, goal)
      ensures Valid() && Searching() && fresh(closed)
      ensures this.m == m && this.start == start && this.goal == goal
    {
      this.m, this.start, this.goal := m, start, goal;
      closed := new bool[m.width * m.height](_ => false);
      var first := Node(start, 0.0, None);
      open := [first];
      done := {};
      new;
      assert Chain(first) == [start];
      assert open[0].cell == start;
    }

    /** Takes any entry from the queue. */
    method Pop() returns (n: Node)
      requires Valid() && open != []
      modifies this`open
      ensures Valid() && |open| == old(|open|) - 1
      ensures GoodEntry(m, start, n, done)
      ensures OpenCells(open) + {n.cell} == old(OpenCells(open))
    {
      var k :| 0 <= k < |open|;
      n := open[k];
      WithoutOne(open, k);
      open := open[..k] + open[k + 1..];
    }

    /** Marks a cell in the closed list. */
    method Close(n: Node)
      requires Valid() && GoodEntry(m, start, n, done) && n.cell !in done
      modifies this`done, closed
      ensures Valid() && done == old(done) + {n.cell}
      ensures CellsOf(Chain(n)) <= done
    {
      LastInMap(m, start, n);
      forall c | InMap(m, c) && Index(m, c) == Index(m, n.cell) ensures c == n.cell { IndexInjective(m, c, n.cell); }
      closed[Index(m, n.cell)] := true;
      done := done + {n.cell};
      assert n.cell in AllCells(m);
    }

    /** Pushes the neighbours that are valid and not closed. */
    method Expand(n: Node)
      requires Valid() && Sound(m, start, n) && CellsOf(Chain(n)) <= done
      modifies this`open
      ensures Valid() && OpenCells(old(open)) <= OpenCells(open)
      ensures forall b :: IsStep(m, n.cell, b) ==> b in done || b in OpenCells(open)
    {
      hide HexNeighbors, Sound, GoodQueue, CellsOf, OpenCells, Move;
      var dirs := HexNeighbors(n.cell.y);
      for k := 0 to |dirs|
        invariant Valid() && OpenCells(old(open)) <= OpenCells(open)
        invariant forall j :: 0 <= j < k && IsNodeValid(m, Move(n.cell, dirs[j])) ==>
                    Move(n.cell, dirs[j]) in done || Move(n.cell, dirs[j]) in OpenCells(open)
      {
        var next := Move(n.cell, dirs[k]);
        if IsNodeValid(m, next) {
          if !closed[Index(m, next)] {
            Push(n, next);
          }
        }
      }
    }

    method Push(n: Node, next: Cell)
      requires Valid() && Sound(m, start, n) && CellsOf(Chain(n)) <= done
      requires IsStep(m, n.cell, next) && next !in done
      modifies this`open
      ensures Valid() && OpenCells(open) == OpenCells(old(open)) + {next}
    {
      var child := Node(next, NextCost(m, n, next), Some(n));
      SoundExtends(m, start, n, next);
      assert CellsOf(Chain(child)) <= CellsOf(Chain(n)) + {next};
      ghost var was := open;
      open := open + [child];
      assert OpenCells(open) == OpenCells(was) + {next} by {
        assert open[|was|].cell == next;
        assert forall j :: 0 <= j < |was| ==> open[j] == was[j];
      }
    }

    method IsClosed(c: Cell) returns (b: bool)
      requires Valid() && InMap(m, c)
      ensures b <==> c in done
    {
      b := closed[Index(m, c)];
    }

    /** A path is reported exactly when the goal is the start or can be reached through valid
        cells, and what is reported is such a path, without repeats and with its own cost. */
    method Run() returns (found: Option<Node>)
      requires Valid() && Searching()
      modifies this, closed
      ensures found.Some? <==> Reachable(m, start, goal)
      ensures found.Some? ==> Sound(m, start, found.value) && found.value.cell == goal
    {
      hide *;
      ValidParts();
      while open != []
        invariant WellSized(m) && Valid() && Searching()
        decreases |AllCells(m) - done|, |open|
      {
        ghost var was := OpenCells(open);
        SearchingParts();
        var current := Pop();
        EntryParts(m, start, current, done);
        var closedAlready := IsClosed(current.cell);
        if closedAlready {
          StillSearching(was, done, current.cell);
          continue;
        }
        ghost var wasDone := done;
        Close(current);
        ValidParts();
        Smaller(AllCells(m), wasDone, current.cell);
        if current.cell == goal {
          FoundIsReachable(m, start, current);
          return Some(current);
        }
        Expand(current);
        StillSearching(was, wasDone, current.cell);
      }
      NothingLeft();
      return None;
    }

    lemma ValidParts()
      requires Valid()
      ensures WellSized(m) && done <= AllCells(m)
    {
    }

    lemma SearchingParts()
      requires WellSized(m) && Searching()
      ensures goal !in done && Frontier(m, done, OpenCells(open))
      ensures start in done || start in OpenCells(open)
    {
    }

    /** An entry was taken, its cell is now done, and its neighbours are done or in the queue. */
    lemma StillSearching(was: set<Cell>, wasDone: set<Cell>, c: Cell)
      requires WellSized(m) && goal !in wasDone && Frontier(m, wasDone, was)
      requires start in wasDone || start in was
      requires was <= OpenCells(open) + {c} && done == wasDone + {c} && goal !in done
      requires c !in wasDone ==> forall b :: IsStep(m, c, b) ==> b in done || b in OpenCells(open)
      ensures Searching()
    {
      hide IsStep, OpenCells;
    }

    lemma NothingLeft()
      requires WellSized(m) && Searching() && open == []
      ensures !Reachable(m, start, goal)
    {
      assert OpenCells(open) == {};
      Exhausted(m, start, goal, done);
    }
  }

  lemma EntryParts(m: Costmap, start: Cell, n: Node, done: set<Cell>)
    requires WellSized(m) && GoodEntry(m, start, n, done)
    ensures Sound(m, start, n) && InMap(m, n.cell)
  {
    LastInMap(m, start, n);
  }

  lemma FoundIsReachable(m: Costmap, start: Cell, n: Node)
    requires WellSized(m) && Sound(m, start, n)
    ensures Reachable(m, start, n.cell)
  {
    assert IsRoute(m, Chain(n));
  }

  lemma LastInMap(m: Costmap, start: Cell, n: Node)
    requires WellSized(m) && Sound(m, start, n)
    ensures InMap(m, n.cell)
  {
  }

  lemma Smaller(all: set<Cell>, done: set<Cell>, c: Cell)
    requires c in all && c !in done
    ensures |all - (done + {c})| < |all - done|
  {
    assert all - (done + {c}) == (all - done) - {c};
  }
}
