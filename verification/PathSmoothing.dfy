/** What the planner does to a route: greedy line-of-sight smoothing, then interpolation. */
module PathSmoothing {
  import opened Bytes
  import opened HexGrid

  datatype Point = Point(x: real, y: real)

  /** Outside services: the costmap's conversions between world and cells, the cells that a
      line crosses, and the length of a vector. */
  datatype World = World(
    toMap: Point -> Option<Cell>,
    toWorld: Cell -> Point,
    line: (Cell, Cell) -> seq<Cell>,
    hypot: (real, real) -> real)

  /** Cells given for points are in the map, and the centre of a cell converts back to it. */
  ghost predicate Converts(m: Costmap, w: World) {
    && (forall p :: w.toMap(p).Some? ==> InMap(m, w.toMap(p).value))
    && (forall c :: InMap(m, c) ==> w.toMap(w.toWorld(c)) == Some(c))
  }

  ghost predicate Measures(w: World) {
    forall dx, dy :: w.hypot(dx, dy) >= 0.0 && w.hypot(dx, dy) * w.hypot(dx, dy) == dx * dx + dy * dy
  }

  // ---------- smoothing ----------

  predicate Visible(m: Costmap, w: World, a: Cell, b: Cell)
    requires WellSized(m)
  {
    forall k :: 0 <= k < |w.line(a, b)| ==> IsSightValid(m, w.line(a, b)[k])
  }

  method HasLineOfSight(m: Costmap, w: World, a: Cell, b: Cell) returns (clear: bool)
    requires WellSized(m)
    ensures clear == Visible(m, w, a, b)
  {
    var line := w.line(a, b);
    for k := 0 to |line|
      invariant forall j :: 0 <= j < k ==> IsSightValid(m, line[j])
    {
      if !IsSightValid(m, line[k]) { return false; }
    }
    return true;
  }

  /** j is the last cell of the route visible from i, or the one after i if none is. */
  predicate Farthest(m: Costmap, w: World, route: seq<Cell>, i: nat, j: nat)
    requires WellSized(m)
  {
    && i < j < |route|
    && (j == i + 1 || Visible(m, w, route[i], route[j]))
    && forall t :: j < t < |route| ==> !Visible(m, w, route[i], route[t])
  }

  lemma FarthestIsUnique(m: Costmap, w: World, route: seq<Cell>, i: nat, j: nat, k: nat)
    requires WellSized(m) && Farthest(m, w, route, i, j) && Farthest(m, w, route, i, k)
    ensures j == k
  {
  }

  /** From the first cell of the route to its last, always to the farthest. */
  predicate Smoothed(m: Costmap, w: World, route: seq<Cell>, picked: seq<nat>)
    requires WellSized(m)
  {
    && |picked| > 1 && picked[0] == 0 && picked[|picked| - 1] == |route| - 1
    && forall k :: 0 <= k < |picked| - 1 ==> Farthest(m, w, route, picked[k], picked[k + 1])
  }

  /** What smoothing keeps: indices grow, and what follows a cell is the next one of the route
      or one seen from it through safe cells only. */
  lemma {:induction false} SmoothedIsOrdered(m: Costmap, w: World, route: seq<Cell>, picked: seq<nat>, i: nat, j: nat)
    requires WellSized(m) && Smoothed(m, w, route, picked) && i < j < |picked|
    ensures picked[i] < picked[j] < |route|
    decreases j - i
  {
    assert Farthest(m, w, route, picked[j - 1], picked[j - 1 + 1]);
    if i < j - 1 {
      SmoothedIsOrdered(m, w, route, picked, i, j - 1);
    }
  }

  /** The cells that the points of a path lie in. */
  ghost predicate InCells(w: World, path: seq<Point>, route: seq<Cell>) {
    |route| == |path| && forall k :: 0 <= k < |path| ==> w.toMap(path[k]) == Some(route[k])
  }

  function Chosen(path: seq<Point>, picked: seq<nat>): (r: seq<Point>)
    requires forall k :: 0 <= k < |picked| ==> picked[k] < |path|
    ensures |r| == |picked|
  {
    seq(|picked|, k requires 0 <= k < |picked| => path[picked[k]])
  }

  /** Points of the path, chosen as smoothing chooses. */
  ghost predicate SmoothedFrom(m: Costmap, w: World, path: seq<Point>, smoothed: seq<Point>)
    requires WellSized(m)
  {
    exists route, picked ::
      && InCells(w, path, route) && Smoothed(m, w, route, picked)
      && (forall k :: 0 <= k < |picked| ==> picked[k] < |path|)
      && smoothed == Chosen(path, picked)
  }

  method Smooth(m: Costmap, w: World, path: seq<Point>) returns (smoothed: seq<Point>)
    requires WellSized(m) && |path| > 1 && forall k :: 0 <= k < |path| ==> w.toMap(path[k]).Some?
    ensures SmoothedFrom(m, w, path, smoothed) && |smoothed| > 1
  {
    hide Visible;
    ghost var route := seq(|path|, k requires 0 <= k < |path| => w.toMap(path[k]).value);
    ghost var picked: seq<nat> := [0];
    smoothed := [path[0]];
    var current := 0;
    while current < |path| - 1
      invariant |smoothed| == |picked| > 0 && picked[0] == 0 && picked[|picked| - 1] == current < |path|
      invariant current > 0 ==> |picked| > 1
      invariant forall k :: 0 <= k < |picked| ==> picked[k] < |path| && smoothed[k] == path[picked[k]]
      invariant forall k :: 0 <= k < |picked| - 1 ==> Farthest(m, w, route, picked[k], picked[k + 1])
    {
      var next := NextIndex(m, w, path, route, current);
      smoothed, picked := smoothed + [path[next]], picked + [next];
      current := next;
    }
    assert smoothed == Chosen(path, picked) && InCells(w, path, route);
  }

  method NextIndex(m: Costmap, w: World, path: seq<Point>, ghost route: seq<Cell>, current: nat) returns (next: nat)
    requires WellSized(m) && current < |path| - 1 && InCells(w, path, route)
    ensures Farthest(m, w, route, current, next)
  {
    hide Visible;
    var target := |path| - 1;
    while target > current
      invariant current <= target < |path|
      invariant forall t :: target < t < |path| ==> !Visible(m, w, route[current], route[t])
    {
      var clear := HasLineOfSight(m, w, w.toMap(path[current]).value, w.toMap(path[target]).value);
      if clear { return target; }
      target := target - 1;
    }
    return current + 1;
  }

  // ---------- interpolation ----------

  function Ceiling(r: real): int {
    -(-r).Floor
  }

  function DistanceSquared(a: Point, b: Point): real {
    (b.x - a.x) * (b.x - a.x) + (b.y - a.y) * (b.y - a.y)
  }

  function PointCount(w: World, resolution: real, a: Point, b: Point): (n: nat)
    requires resolution != 0.0
    ensures n > 0
  {
    var n := Ceiling(w.hypot(b.x - a.x, b.y - a.y) / resolution);
    if n > 1 then n else 1
  }

  function Between(a: Point, b: Point, j: nat, n: nat): Point
    requires n > 0
  {
    Point(a.x + j as real * (b.x - a.x) / n as real, a.y + j as real * (b.y - a.y) / n as real)
  }

  function Segment(w: World, resolution: real, a: Point, b: Point): (s: seq<Point>)
    requires resolution != 0.0
    ensures |s| == PointCount(w, resolution, a, b)
  {
    var n := PointCount(w, resolution, a, b);
    seq(n, j requires 0 <= j < n => Between(a, b, j, n))
  }

  /** The points inserted for the first k stretches. */
  function Along(w: World, resolution: real, points: seq<Point>, k: nat): seq<Point>
    requires resolution != 0.0 && k < |points|
  {
    if k == 0 then [] else Along(w, resolution, points, k - 1) + Segment(w, resolution, points[k - 1], points[k])
  }

  function Interpolated(w: World, resolution: real, points: seq<Point>): seq<Point>
    requires resolution != 0.0 && points != []
  {
    Along(w, resolution, points, |points| - 1) + [points[|points| - 1]]
  }

  /** Where the k-th smoothed point stands in the interpolated path. */
  function Mark(w: World, resolution: real, points: seq<Point>, k: nat): nat
    requires resolution != 0.0 && k < |points|
  {
    |Along(w, resolution, points, k)|
  }

  lemma FirstBetween(a: Point, b: Point, n: nat)
    requires n > 0
    ensures Between(a, b, 0, n) == a && Between(a, b, n, n) == b
  {
  }

  lemma {:induction false} AlongPrefix(w: World, resolution: real, points: seq<Point>, j: nat, k: nat)
    requires resolution != 0.0 && j <= k < |points|
    ensures Along(w, resolution, points, j) <= Along(w, resolution, points, k)
    ensures j < k ==> Mark(w, resolution, points, j) < Mark(w, resolution, points, k)
    ensures j < k ==> Along(w, resolution, points, k)[Mark(w, resolution, points, j)] == points[j]
    decreases k - j
  {
    if j + 1 == k {
      FirstBetween(points[j], points[k], PointCount(w, resolution, points[j], points[k]));
    } else if j < k {
      AlongPrefix(w, resolution, points, j, k - 1);
    }
  }

  /** Interpolation keeps every smoothed point, in order, the ends at the ends. */
  lemma InterpolationKeepsPoints(w: World, resolution: real, points: seq<Point>, j: nat, k: nat)
    requires resolution != 0.0 && j <= k < |points|
    ensures var out := Interpolated(w, resolution, points);
            && Mark(w, resolution, points, j) < |out|
            && out[Mark(w, resolution, points, j)] == points[j]
            && (j < k ==> Mark(w, resolution, points, j) < Mark(w, resolution, points, k))
            && Mark(w, resolution, points, 0) == 0
            && Mark(w, resolution, points, |points| - 1) == |out| - 1
  {
    AlongPrefix(w, resolution, points, j, k);
    AlongPrefix(w, resolution, points, j, |points| - 1);
  }

  predicate Spaced(points: seq<Point>, limit: real) {
    forall k :: 0 <= k < |points| - 1 ==> DistanceSquared(points[k], points[k + 1]) <= limit * limit
  }

  /** Cutting a length into n pieces, n at least length over resolution. */
  lemma PieceLength(dx: real, dy: real, d: real, n: real, resolution: real)
    requires n > 0.0 && resolution > 0.0 && d >= 0.0
    requires d * d == dx * dx + dy * dy && d <= n * resolution
    ensures (dx / n) * (dx / n) + (dy / n) * (dy / n) <= resolution * resolution
  {
    var a, b, q := dx / n, dy / n, d / n;
    QuotientBound(d, n, resolution);
    SquareGrows(q, resolution);
    var nn := Product(n, n);
    QuotientSquare(dx, n, nn);
    QuotientSquare(dy, n, nn);
    QuotientSquare(d, n, nn);
    QuotientOfSum(dx * dx, dy * dy, nn);
  }

  lemma Product(a: real, b: real) returns (p: real)
    requires a > 0.0 && b > 0.0
    ensures p == a * b && p > 0.0
  {
    p := a * b;
  }

  lemma QuotientSquare(x: real, n: real, nn: real)
    requires n > 0.0 && nn == n * n && nn > 0.0
    ensures (x / n) * (x / n) == (x * x) / nn
  {
    var y := x / n;
    assert x == y * n;
    ScaledSquare(x, y, n, nn);
    DivideBack(x * x, y * y, nn);
  }

  lemma DivideBack(a: real, b: real, c: real)
    requires c > 0.0 && a == b * c
    ensures a / c == b
  {
  }

  lemma QuotientOfSum(a: real, b: real, c: real)
    requires c > 0.0
    ensures (a + b) / c == a / c + b / c
  {
  }

  lemma QuotientBound(d: real, n: real, bound: real)
    requires n > 0.0 && 0.0 <= d <= n * bound
    ensures 0.0 <= d / n <= bound
  {
  }

  lemma ScaledSquare(x: real, y: real, n: real, nn: real)
    requires x == y * n && nn == n * n
    ensures x * x == (y * y) * nn
  {
    assert (y * n) * (y * n) == y * (n * (y * n));
    assert n * (y * n) == y * nn;
  }

  lemma SquareGrows(q: real, r: real)
    requires 0.0 <= q <= r
    ensures q * q <= r * r
  {
    assert r * r - q * q == (r - q) * (r + q);
    assert (r - q) * (r + q) >= 0.0;
  }

  lemma CountCovers(w: World, resolution: real, a: Point, b: Point)
    requires resolution > 0.0
    ensures w.hypot(b.x - a.x, b.y - a.y) <= PointCount(w, resolution, a, b) as real * resolution
  {
    var d, n := w.hypot(b.x - a.x, b.y - a.y), PointCount(w, resolution, a, b);
    var q := d / resolution;
    assert q <= Ceiling(q) as real <= n as real;
    assert d == q * resolution;
    assert (n as real - q) * resolution >= 0.0;
  }

  /** No smaller number of pieces would keep them within the resolution. */
  lemma CountIsLeast(w: World, resolution: real, a: Point, b: Point, n: nat)
    requires resolution > 0.0 && n > 0 && w.hypot(b.x - a.x, b.y - a.y) <= n as real * resolution
    ensures PointCount(w, resolution, a, b) <= n
  {
    var d := w.hypot(b.x - a.x, b.y - a.y);
    var q := d / resolution;
    assert d == q * resolution;
    if q > n as real {
      assert (q - n as real) * resolution > 0.0;
    }
  }

  lemma Neighbouring(a: Point, b: Point, j: nat, n: nat)
    requires j < n
    ensures var p, q := Between(a, b, j, n), Between(a, b, j + 1, n);
            q.x - p.x == (b.x - a.x) / n as real && q.y - p.y == (b.y - a.y) / n as real
  {
    Difference(b.x - a.x, j as real, n as real);
    Difference(b.y - a.y, j as real, n as real);
  }

  lemma Difference(d: real, j: real, n: real)
    requires n > 0.0
    ensures (j + 1.0) * d / n - j * d / n == d / n
  {
    assert (j + 1.0) * d == j * d + d;
  }

  lemma PieceFits(w: World, resolution: real, a: Point, b: Point, k: nat)
    requires resolution > 0.0 && Measures(w) && k < PointCount(w, resolution, a, b)
    ensures var n := PointCount(w, resolution, a, b);
            DistanceSquared(Between(a, b, k, n), Between(a, b, k + 1, n)) <= resolution * resolution
  {
    hide PointCount, Between;
    var n := PointCount(w, resolution, a, b);
    Neighbouring(a, b, k, n);
    CountCovers(w, resolution, a, b);
    PieceLength(b.x - a.x, b.y - a.y, w.hypot(b.x - a.x, b.y - a.y), n as real, resolution);
  }

  lemma SegmentSpaced(w: World, resolution: real, a: Point, b: Point)
    requires resolution > 0.0 && Measures(w)
    ensures Spaced(Segment(w, resolution, a, b) + [b], resolution)
  {
    var n := PointCount(w, resolution, a, b);
    var s := Segment(w, resolution, a, b) + [b];
    FirstBetween(a, b, n);
    forall k | 0 <= k < n ensures DistanceSquared(s[k], s[k + 1]) <= resolution * resolution {
      assert s[k] == Between(a, b, k, n) && s[k + 1] == Between(a, b, k + 1, n);
      PieceFits(w, resolution, a, b, k);
    }
  }

  lemma {:induction false} AlongSpaced(w: World, resolution: real, points: seq<Point>, k: nat)
    requires resolution > 0.0 && Measures(w) && k < |points|
    ensures Spaced(Along(w, resolution, points, k) + [points[k]], resolution)
  {
    if k > 0 {
      AlongSpaced(w, resolution, points, k - 1);
      SegmentSpaced(w, resolution, points[k - 1], points[k]);
      FirstBetween(points[k - 1], points[k], PointCount(w, resolution, points[k - 1], points[k]));
      SpacedJoin(Along(w, resolution, points, k - 1), Segment(w, resolution, points[k - 1], points[k]),
                 points[k], resolution);
    }
  }

  lemma SpacedJoin(s: seq<Point>, t: seq<Point>, last: Point, limit: real)
    requires t != [] && Spaced(s + [t[0]], limit) && Spaced(t + [last], limit)
    ensures Spaced(s + t + [last], limit)
  {
    var a, b, c := s + [t[0]], t + [last], s + t + [last];
    forall k | 0 <= k < |c| - 1 ensures DistanceSquared(c[k], c[k + 1]) <= limit * limit {
      if k < |s| {
        assert c[k] == a[k] && c[k + 1] == a[k + 1];
      } else {
        assert c[k] == b[k - |s|] && c[k + 1] == b[k - |s| + 1];
      }
    }
  }

  /** With a positive resolution, neighbouring points are no farther apart than it. */
  lemma InterpolationIsSpaced(w: World, resolution: real, points: seq<Point>)
    requires resolution > 0.0 && Measures(w) && points != []
    ensures Spaced(Interpolated(w, resolution, points), resolution)
  {
    AlongSpaced(w, resolution, points, |points| - 1);
  }

  // ---------- the two ends moved away ----------

  function Distance(w: World, a: Point, b: Point): real {
    w.hypot(b.x - a.x, b.y - a.y)
  }

  lemma SquareOrder(a: real, b: real)
    requires b >= 0.0 && a * a <= b * b
    ensures a <= b
  {
    if a > b {
      assert a * a - b * b == (a - b) * (a + b);
      var p := Product(a - b, a + b);
    }
  }

  /** The inner product of two vectors is at most the product of their lengths. */
  lemma InnerProductBound(x: real, y: real, u: real, v: real, d: real, e: real)
    requires d >= 0.0 && e >= 0.0 && d * d == x * x + y * y && e * e == u * u + v * v
    ensures x * u + y * v <= d * e
  {
    var cross := x * v - y * u;
    Lagrange(x, y, u, v);
    ProductOfSquares(d, e);
    assert cross * cross >= 0.0;
    assert d * e >= 0.0;
    SquareOrder(x * u + y * v, d * e);
  }

  lemma Lagrange(x: real, y: real, u: real, v: real)
    ensures (x * x + y * y) * (u * u + v * v) ==
            (x * u + y * v) * (x * u + y * v) + (x * v - y * u) * (x * v - y * u)
  {
  }

  lemma ProductOfSquares(d: real, e: real)
    ensures (d * e) * (d * e) == (d * d) * (e * e)
  {
  }

  lemma SquareOfSum(x: real, u: real)
    ensures (x + u) * (x + u) == x * x + u * u + 2.0 * (x * u)
  {
  }

  lemma TriangleInequality(w: World, a: Point, b: Point, c: Point)
    requires Measures(w)
    ensures Distance(w, a, c) <= Distance(w, a, b) + Distance(w, b, c)
  {
    var x, y, u, v := b.x - a.x, b.y - a.y, c.x - b.x, c.y - b.y;
    var d, e, f := w.hypot(x, y), w.hypot(u, v), w.hypot(x + u, y + v);
    assert c.x - a.x == x + u && c.y - a.y == y + v;
    InnerProductBound(x, y, u, v, d, e);
    SquareOfSum(x, u);
    SquareOfSum(y, v);
    SquareOfSum(d, e);
    SquareOrder(f, d + e);
  }

  lemma SquaredDistance(w: World, a: Point, b: Point, limit: real)
    requires Measures(w) && limit >= 0.0
    ensures Distance(w, a, b) == Distance(w, b, a)
    ensures DistanceSquared(a, b) <= limit * limit ==> Distance(w, a, b) <= limit
  {
    var d, e, x, y := Distance(w, a, b), Distance(w, b, a), b.x - a.x, b.y - a.y;
    assert a.x - b.x == -x && a.y - b.y == -y;
    assert (-x) * (-x) == x * x && (-y) * (-y) == y * y;
    assert d * d == x * x + y * y && e * e == x * x + y * y;
    SquareOrder(d, e);
    SquareOrder(e, d);
    if d * d <= limit * limit {
      SquareOrder(d, limit);
    }
  }

  /** The two ends of a path, overwritten by the exact start and goal. */
  function Pinned(path: seq<Point>, start: Point, goal: Point): (r: seq<Point>)
    requires path != []
    ensures |r| == |path|
  {
    var front := path[0 := start];
    front[|front| - 1 := goal]
  }

  /** Neighbouring points are no farther apart than the limit, save for what the two ends were moved. */
  ghost predicate SpacedBut(w: World, path: seq<Point>, limit: real, atStart: real, atGoal: real) {
    forall k :: 0 <= k < |path| - 1 ==>
      Distance(w, path[k], path[k + 1]) <=
      limit + (if k == 0 then atStart else 0.0) + (if k == |path| - 2 then atGoal else 0.0)
  }

  /** Overwriting the ends lengthens only the first and the last stretch, each by no more than
      its end was moved. */
  lemma PinnedIsSpaced(w: World, limit: real, path: seq<Point>, start: Point, goal: Point)
    requires limit >= 0.0 && Measures(w) && |path| > 1 && Spaced(path, limit)
    ensures SpacedBut(w, Pinned(path, start, goal), limit,
                      Distance(w, start, path[0]), Distance(w, path[|path| - 1], goal))
  {
    hide Measures, Distance, DistanceSquared;
    var out, last := Pinned(path, start, goal), |path| - 1;
    forall k | 0 <= k < last
      ensures Distance(w, out[k], out[k + 1]) <=
              limit + (if k == 0 then Distance(w, start, path[0]) else 0.0)
              + (if k == last - 1 then Distance(w, path[last], goal) else 0.0)
    {
      SquaredDistance(w, path[k], path[k + 1], limit);
      if k == 0 {
        TriangleInequality(w, start, path[0], path[1]);
      }
      if k == last - 1 {
        TriangleInequality(w, out[k], path[last], goal);
      }
    }
  }

  lemma NegativeCount(w: World, resolution: real, a: Point, b: Point)
    requires resolution < 0.0 && Measures(w)
    ensures PointCount(w, resolution, a, b) == 1
  {
    var d := w.hypot(b.x - a.x, b.y - a.y);
    assert d >= 0.0;
    assert d / resolution <= 0.0;
  }

  /** With a negative resolution nothing is inserted, however far the points are apart. */
  lemma {:induction false} NegativeResolution(w: World, resolution: real, points: seq<Point>, k: nat)
    requires resolution < 0.0 && Measures(w) && k < |points|
    ensures Along(w, resolution, points, k) == points[..k]
    ensures Interpolated(w, resolution, points[..k + 1]) == points[..k + 1]
  {
    hide *;
    AlongUnfold(w, resolution, points, k);
    if k > 0 {
      NegativeResolution(w, resolution, points, k - 1);
      NegativeSegment(w, resolution, points[k - 1], points[k]);
      assert points[..k - 1] + [points[k - 1]] == points[..k];
    }
    AlongPart(w, resolution, points, k, k + 1);
    InterpolatedUnfold(w, resolution, points[..k + 1]);
    assert points[..k] + [points[k]] == points[..k + 1];
  }

  lemma NegativeSegment(w: World, resolution: real, a: Point, b: Point)
    requires resolution < 0.0 && Measures(w)
    ensures Segment(w, resolution, a, b) == [a]
  {
    NegativeCount(w, resolution, a, b);
    FirstBetween(a, b, 1);
  }

  lemma AlongUnfold(w: World, resolution: real, points: seq<Point>, k: nat)
    requires resolution != 0.0 && k < |points|
    ensures k == 0 ==> Along(w, resolution, points, k) == []
    ensures k > 0 ==> Along(w, resolution, points, k) ==
                      Along(w, resolution, points, k - 1) + Segment(w, resolution, points[k - 1], points[k])
  {
  }

  lemma InterpolatedUnfold(w: World, resolution: real, points: seq<Point>)
    requires resolution != 0.0 && points != []
    ensures Interpolated(w, resolution, points) == Along(w, resolution, points, |points| - 1) + [points[|points| - 1]]
  {
  }

  lemma {:induction false} AlongPart(w: World, resolution: real, points: seq<Point>, k: nat, n: nat)
    requires resolution != 0.0 && k < n <= |points|
    ensures Along(w, resolution, points[..n], k) == Along(w, resolution, points, k)
  {
    if k > 0 {
      AlongPart(w, resolution, points, k - 1, n);
    }
  }

  method Interpolate(w: World, resolution: real, points: seq<Point>) returns (out: seq<Point>)
    requires resolution != 0.0 && points != []
    ensures out == Interpolated(w, resolution, points)
  {
    out := [];
    for i := 0 to |points| - 1
      invariant out == Along(w, resolution, points, i)
    {
      var a, b := points[i], points[i + 1];
      var n := PointCount(w, resolution, a, b);
      ghost var before := out;
      for j := 0 to n
        invariant out == before + Segment(w, resolution, a, b)[..j]
      {
        out := out + [Between(a, b, j, n)];
      }
      assert Segment(w, resolution, a, b)[..n] == Segment(w, resolution, a, b);
    }
    out := out + [points[|points| - 1]];
  }
}
