/** The occupancy grid shared by every path search: `grid[y][x] == 0` is an
    open cell, anything else a wall.  `isInside`, `isWalkable`,
    `getNeighbors` and `reconstructPath` are written out identically in each
    search file of the repository; they are defined once here. */
module Grid {
  import opened Wrappers

  datatype Point = Point(x: int, y: int)

  type Grid = seq<seq<int>>

  /** `grid[0]?.length ?? 0`: the width is taken from the first row. */
  function Width(g: Grid): nat {
    if |g| == 0 then 0 else |g[0]|
  }

  /** `isInside`: the row index is below the height, the column index below
      the width of the first row. */
  predicate Inside(g: Grid, p: Point) {
    0 <= p.y < |g| && 0 <= p.x < Width(g)
  }

  /** `isWalkable`: inside and holding 0.  A row shorter than the first one
      reads `undefined` past its end, which is not 0. */
  predicate Walkable(g: Grid, p: Point) {
    Inside(g, p) && p.x < |g[p.y]| && g[p.y][p.x] == 0
  }

  function Abs(n: int): nat {
    if n < 0 then -n else n
  }

  /** Number of unit moves between two cells when only the four orthogonal
      moves are allowed. */
  function Manhattan(a: Point, b: Point): nat {
    Abs(a.x - b.x) + Abs(a.y - b.y)
  }

  /** Orthogonal neighbours in 4-neighbour mode, king-move neighbours in
      8-neighbour mode. */
  predicate Adjacent(a: Point, b: Point, diagonal: bool) {
    if diagonal then a != b && Abs(a.x - b.x) <= 1 && Abs(a.y - b.y) <= 1
    else Manhattan(a, b) == 1
  }

  /** The candidate cells of `getNeighbors`, in the order it lists them. */
  function Candidates(p: Point, diagonal: bool): (r: seq<Point>)
    ensures forall q :: q in r <==> Adjacent(p, q, diagonal)
    ensures Distinct(r)
  {
    var orth := [Point(p.x + 1, p.y), Point(p.x - 1, p.y), Point(p.x, p.y + 1), Point(p.x, p.y - 1)];
    var diag := [Point(p.x + 1, p.y + 1), Point(p.x + 1, p.y - 1), Point(p.x - 1, p.y + 1), Point(p.x - 1, p.y - 1)];
    var r := if diagonal then orth + diag else orth;
    assert forall q :: Adjacent(p, q, diagonal) ==> q in r by {
      forall q | Adjacent(p, q, diagonal)
        ensures q in r
      {
        if q.x == p.x + 1 && q.y == p.y { assert q == r[0]; }
        else if q.x == p.x - 1 && q.y == p.y { assert q == r[1]; }
        else if q.x == p.x && q.y == p.y + 1 { assert q == r[2]; }
        else if q.x == p.x && q.y == p.y - 1 { assert q == r[3]; }
        else if q.x == p.x + 1 && q.y == p.y + 1 { assert q == r[4]; }
        else if q.x == p.x + 1 && q.y == p.y - 1 { assert q == r[5]; }
        else if q.x == p.x - 1 && q.y == p.y + 1 { assert q == r[6]; }
        else { assert q == r[7]; }
      }
    }
    r
  }

  /** No element occurs twice. */
  predicate Distinct<T(==)>(s: seq<T>) {
    forall i, j :: 0 <= i < j < |s| ==> s[i] != s[j]
  }

  /** Two repeat-free sequences with no element in common join into a
      repeat-free one. */
  lemma DistinctConcat<T>(a: seq<T>, b: seq<T>)
    requires Distinct(a) && Distinct(b) && forall x :: x in a ==> x !in b
    ensures Distinct(a + b)
  {
    forall i, j | 0 <= i < j < |a + b|
      ensures (a + b)[i] != (a + b)[j]
    {
      if i < |a| <= j {
        assert (a + b)[i] == a[i] && (a + b)[j] == b[j - |a|];
        assert a[i] in a;
      }
    }
  }

  /** Dropping the first element keeps a sequence repeat-free. */
  lemma DistinctTail<T>(a: seq<T>)
    requires Distinct(a) && |a| > 0
    ensures Distinct(a[1..])
  {
    forall i, j | 0 <= i < j < |a| - 1
      ensures a[1..][i] != a[1..][j]
    {
      assert a[1..][i] == a[i + 1] && a[1..][j] == a[j + 1];
    }
  }

  /** The walkable elements of `s`, in order. */
  function KeepWalkable(g: Grid, s: seq<Point>): (r: seq<Point>)
    ensures forall q :: q in r <==> q in s && Walkable(g, q)
    ensures Distinct(s) ==> Distinct(r)
    ensures |r| <= |s|
  {
    if |s| == 0 then []
    else
      var rest := KeepWalkable(g, s[1..]);
      if Walkable(g, s[0]) then [s[0]] + rest else rest
  }

  /** `getNeighbors`: the walkable candidates, in candidate order. */
  function Neighbors(g: Grid, p: Point, diagonal: bool): (r: seq<Point>)
    ensures forall q :: q in r <==> Walkable(g, q) && Adjacent(p, q, diagonal)
    ensures Distinct(r)
  {
    KeepWalkable(g, Candidates(p, diagonal))
  }

  /** Every walkable cell of the grid; finite, so it bounds every search. */
  function WalkableCells(g: Grid): (r: set<Point>)
    ensures forall p :: p in r <==> Walkable(g, p)
  {
    var r := set y, x | 0 <= y < |g| && 0 <= x < Width(g) && Walkable(g, Point(x, y)) :: Point(x, y);
    assert forall p :: Walkable(g, p) ==> p in r by {
      forall p | Walkable(g, p)
        ensures p in r
      {
        assert Walkable(g, Point(p.x, p.y));
      }
    }
    r
  }

  /** A set strictly inside another is smaller. */
  lemma SubsetSmaller<T>(a: set<T>, b: set<T>)
    requires a <= b
    ensures |a| <= |b|
    ensures a != b ==> |a| < |b|
  {
    assert b == a + (b - a);
    if a != b {
      var x :| x in b && x !in a;
      assert x in b - a;
    }
  }

  // ----------------------------------------------------------------- paths

  /** A nonempty walk over walkable cells, each step to an adjacent cell. */
  predicate IsPath(g: Grid, path: seq<Point>, diagonal: bool) {
    |path| >= 1 &&
    (forall i :: 0 <= i < |path| ==> Walkable(g, path[i])) &&
    (forall i :: 0 <= i < |path| - 1 ==> Adjacent(path[i], path[i + 1], diagonal))
  }

  /** A walk from `s` to `t`. */
  predicate PathFromTo(g: Grid, path: seq<Point>, s: Point, t: Point, diagonal: bool) {
    IsPath(g, path, diagonal) && path[0] == s && path[|path| - 1] == t
  }

  ghost predicate Reachable(g: Grid, s: Point, t: Point, diagonal: bool) {
    exists path :: PathFromTo(g, path, s, t, diagonal)
  }

  /** A walk from `s` to `t` with no more points than any other. */
  ghost predicate Shortest(g: Grid, path: seq<Point>, s: Point, t: Point, diagonal: bool) {
    PathFromTo(g, path, s, t, diagonal) &&
    forall other :: PathFromTo(g, other, s, t, diagonal) ==> |path| <= |other|
  }

  /** `d` is the number of steps of a shortest walk from `s` to `t`. */
  ghost predicate IsDistance(g: Grid, s: Point, t: Point, d: nat, diagonal: bool) {
    (exists path :: PathFromTo(g, path, s, t, diagonal) && |path| == d + 1) &&
    (forall path :: PathFromTo(g, path, s, t, diagonal) ==> d + 1 <= |path|)
  }

  /** The tables of a finished exploration: exactly the reachable cells have
      a distance, and it is the shortest one. */
  ghost predicate Explored(g: Grid, start: Point, diagonal: bool, dist: map<Point, nat>) {
    (forall p :: p in dist <==> Reachable(g, start, p, diagonal)) &&
    (forall p :: p in dist ==> IsDistance(g, start, p, dist[p], diagonal))
  }

  /** Two shortest walks between the same cells have the same number of
      points; different searches that return shortest walks agree in length. */
  lemma ShortestAgree(g: Grid, p1: seq<Point>, p2: seq<Point>, s: Point, t: Point, diagonal: bool)
    requires Shortest(g, p1, s, t, diagonal) && Shortest(g, p2, s, t, diagonal)
    ensures |p1| == |p2|
  {
  }

  /** The distance table of a finished exploration is unique: searches
      that explore the same grid from the same start agree on every cell. */
  lemma ExploredUnique(g: Grid, start: Point, diagonal: bool, d1: map<Point, nat>, d2: map<Point, nat>)
    requires Explored(g, start, diagonal, d1) && Explored(g, start, diagonal, d2)
    ensures d1 == d2
  {
    forall p | p in d1
      ensures p in d2 && d1[p] == d2[p]
    {
      assert IsDistance(g, start, p, d1[p], diagonal) && IsDistance(g, start, p, d2[p], diagonal);
      var w1 :| PathFromTo(g, w1, start, p, diagonal) && |w1| == d1[p] + 1;
      var w2 :| PathFromTo(g, w2, start, p, diagonal) && |w2| == d2[p] + 1;
    }
  }

  /** A set of cells that holds the start of a walk and every walkable
      neighbour of each of its cells holds the whole walk.  A search that
      stops with such a set not containing the goal has proved the goal
      unreachable. */
  lemma {:induction false} ClosedSetHoldsPath(g: Grid, closed: set<Point>, path: seq<Point>, diagonal: bool)
    requires IsPath(g, path, diagonal) && path[0] in closed
    requires forall c, q :: c in closed && Walkable(g, q) && Adjacent(c, q, diagonal) ==> q in closed
    ensures forall i :: 0 <= i < |path| ==> path[i] in closed
    decreases |path|
  {
    if |path| > 1 {
      var prefix := path[..|path| - 1];
      assert IsPath(g, prefix, diagonal);
      ClosedSetHoldsPath(g, closed, prefix, diagonal);
      assert path[|path| - 2] == prefix[|prefix| - 1];
      assert Adjacent(path[|path| - 2], path[|path| - 1], diagonal);
    }
  }

  lemma ClosedSetBlocks(g: Grid, closed: set<Point>, s: Point, t: Point, diagonal: bool)
    requires s in closed && t !in closed
    requires forall c, q :: c in closed && Walkable(g, q) && Adjacent(c, q, diagonal) ==> q in closed
    ensures !Reachable(g, s, t, diagonal)
  {
    if Reachable(g, s, t, diagonal) {
      var path :| PathFromTo(g, path, s, t, diagonal);
      ClosedSetHoldsPath(g, closed, path, diagonal);
    }
  }

  /** Only walkable cells are reachable, and only from walkable cells. */
  lemma ReachableWalkable(g: Grid, s: Point, t: Point, diagonal: bool)
    ensures Reachable(g, s, t, diagonal) ==> Walkable(g, s) && Walkable(g, t)
  {
    if Reachable(g, s, t, diagonal) {
      var path :| PathFromTo(g, path, s, t, diagonal);
      assert Walkable(g, path[|path| - 1]);
    }
  }

  /** A walk extended by one adjacent walkable cell. */
  lemma ExtendPath(g: Grid, path: seq<Point>, q: Point, diagonal: bool)
    requires IsPath(g, path, diagonal) && Walkable(g, q) && Adjacent(path[|path| - 1], q, diagonal)
    ensures IsPath(g, path + [q], diagonal)
  {
  }

  // ----------------------------------------------------- search records

  /** A search node: a cell and the node it was reached from. */
  datatype Rec = Rec(pos: Point, parent: Option<Rec>)

  /** `reconstructPath`: the cells from the root node to this one. */
  function Chain(r: Rec): (path: seq<Point>)
    ensures |path| >= 1 && path[|path| - 1] == r.pos
    ensures r.parent.None? ==> path == [r.pos]
    ensures r.parent.Some? ==> path == Chain(r.parent.value) + [r.pos]
    decreases r
  {
    match r.parent
    case None => [r.pos]
    case Some(p) => Chain(p) + [r.pos]
  }

  /** Steps from the root node. */
  function Depth(r: Rec): nat {
    |Chain(r)| - 1
  }

  /** The root of a node's parent chain. */
  function Root(r: Rec): Point
    decreases r
  {
    match r.parent
    case None => r.pos
    case Some(p) => Root(p)
  }

  lemma {:induction false} ChainStartsAtRoot(r: Rec)
    ensures Chain(r)[0] == Root(r)
    decreases r
  {
    match r.parent
    case None =>
    case Some(p) => ChainStartsAtRoot(p);
  }

  /** A node whose chain is a walk from `s`, extended to an adjacent walkable
      cell, is again a walk from `s`. */
  lemma ChildChain(g: Grid, r: Rec, q: Point, s: Point, diagonal: bool)
    requires PathFromTo(g, Chain(r), s, r.pos, diagonal)
    requires Walkable(g, q) && Adjacent(r.pos, q, diagonal)
    ensures PathFromTo(g, Chain(Rec(q, Some(r))), s, q, diagonal)
    ensures |Chain(Rec(q, Some(r)))| == |Chain(r)| + 1
  {
    ExtendPath(g, Chain(r), q, diagonal);
  }

  /** The Manhattan distance never exceeds the number of steps of a
      4-neighbour walk, so it is an admissible estimate. */
  lemma {:induction false} ManhattanBelowSteps(g: Grid, path: seq<Point>)
    requires IsPath(g, path, false)
    ensures Manhattan(path[0], path[|path| - 1]) <= |path| - 1
    decreases |path|
  {
    if |path| > 1 {
      var prefix := path[..|path| - 1];
      assert IsPath(g, prefix, false);
      ManhattanBelowSteps(g, prefix);
      assert Adjacent(path[|path| - 2], path[|path| - 1], false);
    }
  }
}
