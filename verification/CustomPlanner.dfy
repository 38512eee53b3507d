/** The planner plugin: search, smoothing and interpolation put together. */
module CustomPlanner {
  import opened Bytes
  import opened HexGrid
  import opened HexSearch
  import opened PathSmoothing

  datatype Pose = Pose(frame: string, position: Point)

  /** A path, or the reason for the exception. */
  datatype Outcome =
    | Path(poses: seq<Point>)
    | WrongFrame
    | OutsideMap
    | NotFound

  function ToPoints(w: World, route: seq<Cell>): (r: seq<Point>)
    ensures |r| == |route|
  {
    seq(|route|, k requires 0 <= k < |route| => w.toWorld(route[k]))
  }

  /** A path made from this route: smoothed and interpolated if it has more than two cells,
      and with exact ends. */
  ghost predicate MadeFrom(m: Costmap, w: World, resolution: real, route: seq<Cell>,
                           start: Point, goal: Point, path: seq<Point>)
    requires WellSized(m) && resolution != 0.0 && route != []
  {
    if |route| <= 2 then path == Pinned(ToPoints(w, route), start, goal)
    else exists smoothed :: MadeThrough(m, w, resolution, route, start, goal, path, smoothed)
  }

  ghost predicate MadeThrough(m: Costmap, w: World, resolution: real, route: seq<Cell>,
                              start: Point, goal: Point, path: seq<Point>, smoothed: seq<Point>)
    requires WellSized(m) && resolution != 0.0
  {
    && smoothed != [] && SmoothedFrom(m, w, ToPoints(w, route), smoothed)
    && path == Pinned(Interpolated(w, resolution, smoothed), start, goal)
  }

  /** Smoothing keeps the two ends, which are different points of the path. */
  lemma SmoothedEnds(m: Costmap, w: World, path: seq<Point>, smoothed: seq<Point>)
    requires WellSized(m) && path != [] && SmoothedFrom(m, w, path, smoothed)
    ensures |smoothed| > 1 && smoothed[0] == path[0] && smoothed[|smoothed| - 1] == path[|path| - 1]
  {
  }

  lemma SameCellIsWholeRoute(route: seq<Cell>)
    requires route != [] && NoRepeats(route)
    ensures |route| == 1 <==> route[0] == route[|route| - 1]
  {
  }

  function Reversed(s: seq<Point>): (r: seq<Point>)
    ensures |r| == |s|
  {
    seq(|s|, k requires 0 <= k < |s| => s[|s| - 1 - k])
  }

  lemma Nothing(points: seq<Point>)
    ensures points + Reversed([]) == points
  {
  }

  /** Collecting one entry moves its point from the chain to the reversed tail. */
  lemma LastPoint(w: World, node: Node, back: seq<Point>)
    ensures ToPoints(w, Chain(node)) + Reversed(back) ==
            (if node.parent.Some? then ToPoints(w, Chain(node.parent.value)) else [])
            + Reversed(back + [w.toWorld(node.cell)])
  {
    hide *;
    ChainUnfold(node);
    ReversedLast(back, w.toWorld(node.cell));
    if node.parent.Some? {
      PointsLast(w, Chain(node.parent.value), node.cell);
    } else {
      PointsLast(w, [], node.cell);
      assert [] + [node.cell] == [node.cell];
    }
  }

  lemma ChainUnfold(node: Node)
    ensures Chain(node) == if node.parent.Some? then Chain(node.parent.value) + [node.cell] else [node.cell]
  {
  }

  lemma ReversedLast(back: seq<Point>, p: Point)
    ensures Reversed(back + [p]) == [p] + Reversed(back)
  {
  }

  lemma PointsLast(w: World, cells: seq<Cell>, c: Cell)
    ensures ToPoints(w, cells + [c]) == ToPoints(w, cells) + [w.toWorld(c)] && ToPoints(w, []) == []
  {
  }

  class Planner {
    const costmap: Costmap
    const world: World
    const globalFrame: string
    const resolution: real

    ghost predicate Valid() {
      WellSized(costmap) && Converts(costmap, world) && resolution != 0.0
    }

    constructor (costmap: Costmap, world: World, globalFrame: string, resolution: real)
      requires WellSized(costmap) && Converts(costmap, world) && resolution != 0.0
      ensures Valid()
      ensures this.costmap == costmap && this.globalFrame == globalFrame && this.resolution == resolution
    {
      this.costmap, this.world, this.globalFrame, this.resolution := costmap, world, globalFrame, resolution;
    }

    /** Follows the parents back to the start, then reverses what was collected. */
    method Backtrack(n: Node) returns (path: seq<Point>)
      ensures path == ToPoints(world, Chain(n))
    {
      hide Chain, ToPoints, Reversed;
      var back: seq<Point>, current := [], Some(n);
      Nothing(ToPoints(world, Chain(n)));
      while current.Some?
        invariant (if current.Some? then ToPoints(world, Chain(current.value)) else []) + Reversed(back) ==
                  ToPoints(world, Chain(n))
        decreases current
      {
        var node := current.value;
        LastPoint(world, node, back);
        back := back + [world.toWorld(node.cell)];
        current := node.parent;
      }
      path := Reversed(back);
      assert [] + path == path;
    }

    /** A route without repeats between the cells of start and goal, and a path made from it. */
    ghost predicate Answers(start: Point, goal: Point, path: seq<Point>)
      requires WellSized(costmap) && resolution != 0.0
    {
      exists route :: Answer(start, goal, path, route)
    }

    ghost predicate Answer(start: Point, goal: Point, path: seq<Point>, route: seq<Cell>)
      requires WellSized(costmap) && resolution != 0.0
    {
      && IsRoute(costmap, route) && NoRepeats(route)
      && world.toMap(start) == Some(route[0]) && world.toMap(goal) == Some(route[|route| - 1])
      && MadeFrom(costmap, world, resolution, route, start, goal, path)
    }

    /** The path ends at the goal. It begins at the start unless both lie in one cell: the goal
        is then all of it. */
    ghost predicate RightEnds(start: Point, goal: Point, path: seq<Point>) {
      && path != [] && path[|path| - 1] == goal
      && if world.toMap(start) == world.toMap(goal) then path == [goal] else |path| > 1 && path[0] == start
    }

    /** The distance of a position on the map from the centre of its cell. */
    ghost function OffCentre(p: Point): real
      requires world.toMap(p).Some?
    {
      Distance(world, p, world.toWorld(world.toMap(p).value))
    }

    /** Neighbouring poses are within the resolution; at the two ends, the distance of start and
        goal from the centres of their cells is added. Two poses alone are the start and goal
        of neighbouring cells, which are not interpolated, or an interpolated path. */
    ghost predicate WellSpaced(start: Point, goal: Point, path: seq<Point>)
      requires world.toMap(start).Some? && world.toMap(goal).Some?
    {
      |path| > 2 ==> SpacedBut(world, path, resolution, OffCentre(start), OffCentre(goal))
    }

    /** Exceptions come exactly from a wrong frame, a position off the map, or a goal that no
        route reaches; a path is made by greedy smoothing and interpolation from a route
        without repeats, has the right ends, and is spaced by the resolution. */
    method CreatePlan(start: Pose, goal: Pose) returns (outcome: Outcome)
      requires Valid()
      ensures outcome.WrongFrame? <==> start.frame != globalFrame || goal.frame != globalFrame
      ensures outcome.OutsideMap? <==>
                !outcome.WrongFrame? && (world.toMap(start.position).None? || world.toMap(goal.position).None?)
      ensures !outcome.WrongFrame? && !outcome.OutsideMap? ==>
                (outcome.Path? <==>
                 Reachable(costmap, world.toMap(start.position).value, world.toMap(goal.position).value))
      ensures outcome.Path? ==> Answers(start.position, goal.position, outcome.poses)
      ensures outcome.Path? ==> RightEnds(start.position, goal.position, outcome.poses)
      ensures outcome.Path? && resolution > 0.0 && Measures(world) ==>
                WellSpaced(start.position, goal.position, outcome.poses)
    {
      hide *;
      if start.frame != globalFrame || goal.frame != globalFrame {
        return WrongFrame;
      }
      var from, to := world.toMap(start.position), world.toMap(goal.position);
      if from.None? || to.None? {
        return OutsideMap;
      }
      ValidParts(start.position, goal.position);
      var search := new Search(costmap, from.value, to.value);
      var found := search.Run();
      if found.None? {
        return NotFound;
      }
      SoundParts(costmap, from.value, found.value);
      var poses := Shape(found.value, start.position, goal.position);
      RouteAnswers(Chain(found.value), start.position, goal.position, poses);
      AnswerEnds(start.position, goal.position, poses);
      if resolution > 0.0 && Measures(world) {
        AnswerSpaced(start.position, goal.position, poses);
      }
      return Path(poses);
    }

    lemma ValidParts(start: Point, goal: Point)
      requires Valid() && world.toMap(start).Some? && world.toMap(goal).Some?
      ensures WellSized(costmap) && Converts(costmap, world) && resolution != 0.0
      ensures InMap(costmap, world.toMap(start).value) && InMap(costmap, world.toMap(goal).value)
    {
    }

    lemma RouteAnswers(route: seq<Cell>, start: Point, goal: Point, path: seq<Point>)
      requires WellSized(costmap) && resolution != 0.0 && IsRoute(costmap, route) && NoRepeats(route)
      requires world.toMap(start) == Some(route[0]) && world.toMap(goal) == Some(route[|route| - 1])
      requires MadeFrom(costmap, world, resolution, route, start, goal, path)
      ensures Answers(start, goal, path)
    {
      assert Answer(start, goal, path, route);
    }

    /** Whatever answers has the right ends. */
    lemma AnswerEnds(start: Point, goal: Point, path: seq<Point>)
      requires WellSized(costmap) && resolution != 0.0 && Answers(start, goal, path)
      ensures RightEnds(start, goal, path)
    {
      hide SmoothedFrom, Interpolated, WellSized, IsStep;
      var route :| Answer(start, goal, path, route);
      SameCellIsWholeRoute(route);
      if |route| > 2 {
        var smoothed :| MadeThrough(costmap, world, resolution, route, start, goal, path, smoothed);
        SmoothedEnds(costmap, world, ToPoints(world, route), smoothed);
        InterpolationKeepsPoints(world, resolution, smoothed, 0, |smoothed| - 1);
      }
    }

    /** A route of one cell or two is not smoothed or interpolated: its path is the goal, or the
        start and the goal. */
    lemma ShortRoutes(start: Point, goal: Point, path: seq<Point>, route: seq<Cell>)
      requires WellSized(costmap) && resolution != 0.0 && Answer(start, goal, path, route) && |route| <= 2
      ensures path == if |route| == 1 then [goal] else [start, goal]
    {
      hide WellSized, IsStep, NoRepeats;
    }

    lemma AnswerSpaced(start: Point, goal: Point, path: seq<Point>)
      requires WellSized(costmap) && resolution > 0.0 && Measures(world) && Answers(start, goal, path)
      ensures world.toMap(start).Some? && world.toMap(goal).Some? && WellSpaced(start, goal, path)
    {
      hide IsRoute, SmoothedFrom, Interpolated, WellSized, NoRepeats, Measures, SpacedBut;
      var route :| Answer(start, goal, path, route);
      if |route| > 2 {
        var smoothed :| MadeThrough(costmap, world, resolution, route, start, goal, path, smoothed);
        SmoothedEnds(costmap, world, ToPoints(world, route), smoothed);
        InterpolationKeepsPoints(world, resolution, smoothed, 0, |smoothed| - 1);
        InterpolationKeepsPoints(world, resolution, smoothed, |smoothed| - 1, |smoothed| - 1);
        InterpolationIsSpaced(world, resolution, smoothed);
        PinnedIsSpaced(world, resolution, Interpolated(world, resolution, smoothed), start, goal);
        SquaredDistance(world, world.toWorld(route[|route| - 1]), goal, resolution);
      }
    }

    /** From the goal's entry to the path. */
    method Shape(n: Node, start: Point, goal: Point) returns (path: seq<Point>)
      requires Valid() && forall k :: 0 <= k < |Chain(n)| ==> InMap(costmap, Chain(n)[k])
      ensures MadeFrom(costmap, world, resolution, Chain(n), start, goal, path)
    {
      hide SmoothedFrom, Interpolated, Chain, WellSized;
      path := Backtrack(n);
      var smoothed: seq<Point> := [];
      if |path| > 2 {
        smoothed := Smooth(costmap, world, path);
        path := Interpolate(world, resolution, smoothed);
        InterpolationKeepsPoints(world, resolution, smoothed, 0, 0);
      }
      path := path[0 := start];
      path := path[|path| - 1 := goal];
      assert |Chain(n)| > 2 ==> MadeThrough(costmap, world, resolution, Chain(n), start, goal, path, smoothed);
    }
  }

  lemma SoundParts(m: Costmap, start: Cell, n: Node)
    requires WellSized(m) && Sound(m, start, n)
    ensures IsRoute(m, Chain(n)) && NoRepeats(Chain(n)) && Chain(n)[0] == start
    ensures forall k :: 0 <= k < |Chain(n)| ==> InMap(m, Chain(n)[k])
  {
  }
}
