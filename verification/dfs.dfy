/** Depth-first search, `project_ts/src/dfs.ts` (`findPathDFS`, `dfsAll`,
    `findPathDFSRecursive`) and the `findPathDFS` generator of
    `pathfinding-visualizer/additional-algorithms.js`.  The iterative
    versions run the visit-on-pop loop with a stack; the recursive one
    threads its `visited` table through the calls. */
module Dfs {
  import opened Wrappers
  import opened Grid
  import opened Events
  import opened VisitOnPop

  // ------------------------------------------------------------ iterative

  /** `findPathDFS` with `options.maxDepth` (`None` is the default
      `Infinity`): a walk from start to goal that repeats no cell and, under
      a limit `d`, has at most `d + 1` points.  Without a limit it finds a
      walk exactly when one exists; a blocked endpoint gives none. */
  method FindPathDFS(g: Grid, start: Point, goal: Point, diagonal: bool, maxDepth: Option<int>)
    returns (path: Option<seq<Point>>)
    ensures !Walkable(g, start) || !Walkable(g, goal) ==> path.None?
    ensures path.Some? ==> PathFromTo(g, path.value, start, goal, diagonal) && Distinct(path.value)
    ensures path.Some? && maxDepth.Some? ==> |path.value| <= Max0(maxDepth.value) + 1
    ensures maxDepth.None? ==> (path.None? <==> !Reachable(g, start, goal, diagonal))
  {
    ReachableWalkable(g, start, goal, diagonal);
    if !Walkable(g, start) || !Walkable(g, goal) {
      return None;
    }
    var c := Setup(g, start, Some(goal), diagonal, maxDepth, Lifo);
    var found, s := Run(c);
    if found.Some? {
      path := Some(Chain(found.value));
    } else {
      path := None;
    }
  }

  /** `dfsAll`: the cells in the order the search marks them.  A blocked
      start gives `[]`; otherwise the start comes first, no cell twice, every
      cell reachable, and without a depth limit every reachable cell is
      listed. */
  method DfsAll(g: Grid, start: Point, diagonal: bool, maxDepth: Option<int>) returns (cells: seq<Point>)
    ensures !Walkable(g, start) ==> cells == []
    ensures Walkable(g, start) ==> |cells| > 0 && cells[0] == start
    ensures Distinct(cells)
    ensures forall p :: p in cells ==> Reachable(g, start, p, diagonal)
    ensures maxDepth.None? ==> forall p :: p in cells <==> Reachable(g, start, p, diagonal)
  {
    if !Walkable(g, start) {
      forall p
        ensures !Reachable(g, start, p, diagonal)
      {
        ReachableWalkable(g, start, p, diagonal);
      }
      return [];
    }
    var c := Setup(g, start, None, diagonal, maxDepth, Lifo);
    var found, s := Run(c);
    cells := s.reached;
  }

  /** The visualizer's `findPathDFS` generator (no depth limit).  A blocked
      endpoint yields one error; otherwise the `'current'` counts run 1, 2,
      ..., no cell is reported as `'current'` twice, and the run ends with a
      repetition-free walk to the goal, or with the not-found error exactly
      when the goal is unreachable. */
  method DfsEvents(g: Grid, start: Point, goal: Point, diagonal: bool)
    returns (events: seq<Event>, path: Option<seq<Point>>)
    ensures !Walkable(g, start) || !Walkable(g, goal) ==> events == [Error(EndpointBlocked)] && path.None?
    ensures Walkable(g, start) && Walkable(g, goal) ==>
      Finished(events, path, |Counts(events)|) && Counts(events) == UpTo(|Counts(events)|)
    ensures Distinct(Expanded(events))
    ensures path.None? <==> !Reachable(g, start, goal, diagonal)
    ensures path.Some? ==> PathFromTo(g, path.value, start, goal, diagonal) && Distinct(path.value)
  {
    ReachableWalkable(g, start, goal, diagonal);
    if !Walkable(g, start) || !Walkable(g, goal) {
      QuietEvents([Error(EndpointBlocked)]);
      return [Error(EndpointBlocked)], None;
    }
    var c := Setup(g, start, Some(goal), diagonal, None, Lifo);
    var found, s := Run(c);
    events, path := Outcome(c, found, s);
  }

  // ------------------------------------------------------------ push order

  lemma {:induction false} UnvisitedAppend(a: seq<Point>, b: seq<Point>, visited: set<Point>)
    ensures Unvisited(a + b, visited) == Unvisited(a, visited) + Unvisited(b, visited)
    decreases |a|
  {
    if |a| == 0 {
      assert a + b == b;
    } else {
      assert (a + b)[1..] == a[1..] + b;
      UnvisitedAppend(a[1..], b, visited);
    }
  }

  lemma ReversedAppend<T>(a: seq<T>, b: seq<T>)
    ensures Reversed(a + b) == Reversed(b) + Reversed(a)
  {
  }

  lemma {:induction false} UnvisitedReversed(ns: seq<Point>, visited: set<Point>)
    ensures Unvisited(Reversed(ns), visited) == Reversed(Unvisited(ns, visited))
    decreases |ns|
  {
    if |ns| > 0 {
      var tail := ns[1..];
      var head := Unvisited([ns[0]], visited);
      calc {
        Unvisited(Reversed(ns), visited);
        { ReversedCons(ns); }
        Unvisited(Reversed(tail) + [ns[0]], visited);
        { UnvisitedAppend(Reversed(tail), [ns[0]], visited); }
        Unvisited(Reversed(tail), visited) + head;
        { UnvisitedReversed(tail, visited); }
        Reversed(Unvisited(tail, visited)) + head;
        { ReversedAppend(head, Unvisited(tail, visited)); ReversedShort(head); }
        Reversed(head + Unvisited(tail, visited));
        { UnvisitedCons(ns, visited); }
        Reversed(Unvisited(ns, visited));
      }
    }
  }

  lemma ReversedCons<T>(s: seq<T>)
    requires |s| > 0
    ensures Reversed(s) == Reversed(s[1..]) + [s[0]]
  {
  }

  lemma ReversedShort<T>(s: seq<T>)
    requires |s| <= 1
    ensures Reversed(s) == s
  {
  }

  lemma UnvisitedCons(ns: seq<Point>, visited: set<Point>)
    requires |ns| > 0
    ensures Unvisited(ns, visited) == Unvisited([ns[0]], visited) + Unvisited(ns[1..], visited)
  {
    assert Unvisited([ns[0]], visited) == (if ns[0] in visited then [] else [ns[0]]) by {
      assert [ns[0]][1..] == [];
    }
  }

  /** Pushing the neighbours in reverse keeps `getNeighbors`' order of
      exploration: after a node is expanded, the top of the stack is its
      first neighbour, in the order `getNeighbors` lists them, that is not
      yet visited. */
  lemma StackTopIsFirstNeighbour(c: Setup, s: State)
    requires c.order.Lifo? && |s.open| > 0
    requires s.open[|s.open| - 1].value.pos !in s.visited
    requires !AtLimit(c, s.open[|s.open| - 1].value)
    ensures var cur := s.open[|s.open| - 1].value;
      var first := Unvisited(Neighbors(c.g, cur.pos, c.diagonal), s.visited + {cur.pos});
      |first| > 0 ==>
        |Step(c, s).open| > 0 && Step(c, s).open[|Step(c, s).open| - 1].value == Rec(first[0], Some(cur))
  {
    var cur := s.open[|s.open| - 1].value;
    var rest := s.open[..|s.open| - 1];
    var ns := Neighbors(c.g, cur.pos, c.diagonal);
    var v := s.visited + {cur.pos};
    var F := Unvisited(Reversed(ns), v);
    UnvisitedReversed(ns, v);
    PushAllStacks(rest, cur, F);
    assert Step(c, s).open == rest + ChildItems(Lifo, cur, F);
  }

  // ------------------------------------------------------------ recursive

  /** The fixed arguments of the recursive search. */
  datatype Job = Job(g: Grid, goal: Point, diagonal: bool, maxDepth: Option<int>)

  /** Every cell newly marked has each walkable neighbour marked too. */
  ghost predicate ClosedFrom(j: Job, before: set<Point>, after: set<Point>) {
    forall e, n :: e in after && e !in before && Walkable(j.g, n) && Adjacent(e, n, j.diagonal) ==> n in after
  }

  /** The cells of `p` are all marked during the call. */
  ghost predicate MarkedDuring(before: set<Point>, after: set<Point>, p: seq<Point>) {
    forall k :: 0 <= k < |p| ==> p[k] in after && p[k] !in before
  }

  /** The inner `dfs(current, depth)`: returns the walk it found, if any,
      and the `visited` table after the call. */
  function Explore(j: Job, cur: Point, depth: int, visited: set<Point>): (r: (Option<seq<Point>>, set<Point>))
    requires visited <= WalkableCells(j.g) && Walkable(j.g, cur)
    ensures visited <= r.1 <= WalkableCells(j.g)
    ensures r.0.Some? ==>
      PathFromTo(j.g, r.0.value, cur, j.goal, j.diagonal) && Distinct(r.0.value) &&
      MarkedDuring(visited, r.1, r.0.value) &&
      (j.maxDepth.Some? ==> depth + |r.0.value| - 1 <= j.maxDepth.value)
    ensures r.0.None? && j.goal !in visited ==> j.goal !in r.1
    ensures r.0.None? && j.maxDepth.None? ==> cur in r.1 && ClosedFrom(j, visited, r.1)
    decreases |WalkableCells(j.g) - visited|, 0
  {
    if j.maxDepth.Some? && depth > j.maxDepth.value then (None, visited)
    else if cur in visited then (None, visited)
    else
      var marked := visited + {cur};
      SubsetSmaller(WalkableCells(j.g) - marked, WalkableCells(j.g) - visited);
      assert cur in WalkableCells(j.g) - visited;
      if cur == j.goal then (Some([cur]), marked)
      else
        var ns := Neighbors(j.g, cur, j.diagonal);
        var (res, after) := ExploreEach(j, ns, depth + 1, marked);
        if res.Some? then
          PrependCell(j, cur, res.value, depth, visited, after);
          (Some([cur] + res.value), after)
        else
          CloseOver(j, cur, visited, after);
          (None, after)
  }

  /** `[current, ...result]`: the walk found from a neighbour, with the
      current cell in front. */
  lemma PrependCell(j: Job, cur: Point, p: seq<Point>, depth: int, visited: set<Point>, after: set<Point>)
    requires Walkable(j.g, cur) && cur !in visited && visited + {cur} <= after
    requires |p| > 0 && Walkable(j.g, p[0]) && Adjacent(cur, p[0], j.diagonal)
    requires PathFromTo(j.g, p, p[0], j.goal, j.diagonal) && Distinct(p)
    requires MarkedDuring(visited + {cur}, after, p)
    requires j.maxDepth.Some? ==> depth + 1 + |p| - 1 <= j.maxDepth.value
    ensures PathFromTo(j.g, [cur] + p, cur, j.goal, j.diagonal) && Distinct([cur] + p)
    ensures MarkedDuring(visited, after, [cur] + p)
    ensures j.maxDepth.Some? ==> depth + |[cur] + p| - 1 <= j.maxDepth.value
  {
    var q := [cur] + p;
    forall a, b | 0 <= a < b < |q|
      ensures q[a] != q[b]
    {
      if a == 0 {
        assert q[b] == p[b - 1];
      } else {
        assert q[a] == p[a - 1] && q[b] == p[b - 1];
      }
    }
    forall k | 0 <= k < |q| - 1
      ensures Adjacent(q[k], q[k + 1], j.diagonal)
    {
      if k > 0 {
        assert q[k] == p[k - 1] && q[k + 1] == p[k];
      }
    }
  }

  /** A cell whose neighbours are all marked, added to the cells marked
      after it, keeps them closed. */
  lemma CloseOver(j: Job, cur: Point, visited: set<Point>, after: set<Point>)
    requires visited + {cur} <= after
    requires j.maxDepth.None? ==>
      (forall k :: 0 <= k < |Neighbors(j.g, cur, j.diagonal)| ==> Neighbors(j.g, cur, j.diagonal)[k] in after) &&
      ClosedFrom(j, visited + {cur}, after)
    ensures j.maxDepth.None? ==> cur in after && ClosedFrom(j, visited, after)
  {
    if j.maxDepth.None? {
      var ns := Neighbors(j.g, cur, j.diagonal);
      forall n | Walkable(j.g, n) && Adjacent(cur, n, j.diagonal)
        ensures n in after
      {
        var k :| 0 <= k < |ns| && ns[k] == n;
      }
    }
  }

  /** `for (const neighbor of neighbors)`: tries each neighbour in turn and
      stops at the first walk found. */
  function ExploreEach(j: Job, ns: seq<Point>, depth: int, visited: set<Point>): (r: (Option<seq<Point>>, set<Point>))
    requires visited <= WalkableCells(j.g)
    requires forall k :: 0 <= k < |ns| ==> Walkable(j.g, ns[k])
    ensures visited <= r.1 <= WalkableCells(j.g)
    ensures r.0.Some? ==>
      |r.0.value| > 0 && r.0.value[0] in ns &&
      PathFromTo(j.g, r.0.value, r.0.value[0], j.goal, j.diagonal) && Distinct(r.0.value) &&
      MarkedDuring(visited, r.1, r.0.value) &&
      (j.maxDepth.Some? ==> depth + |r.0.value| - 1 <= j.maxDepth.value)
    ensures r.0.None? && j.goal !in visited ==> j.goal !in r.1
    ensures r.0.None? && j.maxDepth.None? ==>
      (forall k :: 0 <= k < |ns| ==> ns[k] in r.1) && ClosedFrom(j, visited, r.1)
    decreases |WalkableCells(j.g) - visited|, 1, |ns|
  {
    if |ns| == 0 then (None, visited)
    else
      var (res, mid) := Explore(j, ns[0], depth, visited);
      if res.Some? then (res, mid)
      else
        SubsetSmaller(WalkableCells(j.g) - mid, WalkableCells(j.g) - visited);
        var (res', after) := ExploreEach(j, ns[1..], depth, mid);
        assert res'.Some? ==> MarkedDuring(visited, after, res'.value);
        assert res'.None? && j.maxDepth.None? ==> forall k :: 0 <= k < |ns| ==> ns[k] in after by {
          if res'.None? && j.maxDepth.None? {
            forall k | 0 <= k < |ns|
              ensures ns[k] in after
            {
              if k > 0 {
                assert ns[k] == ns[1..][k - 1];
              }
            }
          }
        }
        (res', after)
  }

  /** `findPathDFSRecursive`: a blocked endpoint gives `null`; a walk found
      runs from start to goal, repeats no cell and, under a limit `d`, has at
      most `d + 1` points; without a limit a walk is found exactly when one
      exists. */
  function FindPathDFSRecursive(g: Grid, start: Point, goal: Point, diagonal: bool, maxDepth: Option<int>)
    : (path: Option<seq<Point>>)
    ensures !Walkable(g, start) || !Walkable(g, goal) ==> path.None?
    ensures path.Some? ==> PathFromTo(g, path.value, start, goal, diagonal) && Distinct(path.value)
    ensures path.Some? && maxDepth.Some? ==> |path.value| <= maxDepth.value + 1
    ensures maxDepth.None? ==> (path.None? <==> !Reachable(g, start, goal, diagonal))
  {
    ReachableWalkable(g, start, goal, diagonal);
    if !Walkable(g, start) || !Walkable(g, goal) then None
    else
      var j := Job(g, goal, diagonal, maxDepth);
      var (res, after) := Explore(j, start, 0, {});
      assert res.None? && maxDepth.None? ==> !Reachable(g, start, goal, diagonal) by {
        if res.None? && maxDepth.None? {
          ClosedSetBlocks(g, after, start, goal, diagonal);
        }
      }
      res
  }
}
