/** A* in 4-neighbour mode: `findPath` of `project_ts/src/index.ts` (open
    list scanned for the first node of least `f`), `findPathHeap` of
    `project_ts/src/astar_heap.ts` (binary heap, ties to the larger `g`) and
    the `findPathAStar` generator of `pathfinding-visualizer/algorithms.js`
    (the same heap, reported as events).  All three run the loop of
    `BestFirst` with the Manhattan estimate toward the goal. */
module AStar {
  import opened Wrappers
  import opened Grid
  import opened Events
  import opened BestFirst

  /** The search `findPath` runs. */
  function ArraySetup(g: Grid, start: Point, goal: Point): Setup {
    Setup(g, start, Some(goal), Some(goal), Scan, false)
  }

  /** The search `findPathHeap` and the A* generator run. */
  function HeapSetup(g: Grid, start: Point, goal: Point): Setup {
    Setup(g, start, Some(goal), Some(goal), Heap(true), false)
  }

  /** `findPath`: null for a blocked endpoint; otherwise a shortest walk
      from start to goal, or null exactly when the goal cannot be
      reached. */
  method FindPath(g: Grid, start: Point, goal: Point) returns (path: Option<seq<Point>>)
    ensures !Walkable(g, start) || !Walkable(g, goal) ==> path.None?
    ensures path.None? <==> !Reachable(g, start, goal, false)
    ensures path.Some? ==> Shortest(g, path.value, start, goal, false)
  {
    path := Search(ArraySetup(g, start, goal));
  }

  /** `findPathHeap`: the same answer as `findPath`. */
  method FindPathHeap(g: Grid, start: Point, goal: Point) returns (path: Option<seq<Point>>)
    ensures !Walkable(g, start) || !Walkable(g, goal) ==> path.None?
    ensures path.None? <==> !Reachable(g, start, goal, false)
    ensures path.Some? ==> Shortest(g, path.value, start, goal, false)
  {
    path := Search(HeapSetup(g, start, goal));
  }

  /** The common body of the path searches: the endpoint check, the loop,
      `reconstructPath`. */
  method Search(c: Setup) returns (path: Option<seq<Point>>)
    requires c.stopAt.Some?
    ensures !Walkable(c.g, c.start) || !Walkable(c.g, c.stopAt.value) ==> path.None?
    ensures path.None? <==> !Reachable(c.g, c.start, c.stopAt.value, false)
    ensures path.Some? ==> Shortest(c.g, path.value, c.start, c.stopAt.value, false)
  {
    ReachableWalkable(c.g, c.start, c.stopAt.value, false);
    if !Walkable(c.g, c.start) || !Walkable(c.g, c.stopAt.value) {
      return None;
    }
    var found, s := Run(c);
    if found.Some? {
      path := Some(Chain(found.value.rec));
    } else {
      path := None;
    }
  }

  /** The `findPathAStar` generator.  A blocked endpoint yields one error;
      otherwise the `'current'` counts run 1, 2, ..., no cell is reported
      as `'current'` twice, and the run ends with a shortest walk, or with
      the not-found error exactly when the goal is unreachable. */
  method AStarEvents(g: Grid, start: Point, goal: Point) returns (events: seq<Event>, path: Option<seq<Point>>)
    ensures !Walkable(g, start) || !Walkable(g, goal) ==> events == [Error(EndpointBlocked)] && path.None?
    ensures Walkable(g, start) && Walkable(g, goal) ==>
      Finished(events, path, |Counts(events)|) && Counts(events) == UpTo(|Counts(events)|)
    ensures Distinct(Expanded(events))
    ensures path.None? <==> !Reachable(g, start, goal, false)
    ensures path.Some? ==> Shortest(g, path.value, start, goal, false)
  {
    events, path := Generate(HeapSetup(g, start, goal));
  }

  /** The common body of the visualizer's Dijkstra and A* generators. */
  method Generate(c: Setup) returns (events: seq<Event>, path: Option<seq<Point>>)
    requires c.stopAt.Some?
    ensures !Walkable(c.g, c.start) || !Walkable(c.g, c.stopAt.value) ==>
      events == [Error(EndpointBlocked)] && path.None?
    ensures Walkable(c.g, c.start) && Walkable(c.g, c.stopAt.value) ==>
      Finished(events, path, |Counts(events)|) && Counts(events) == UpTo(|Counts(events)|)
    ensures Distinct(Expanded(events))
    ensures path.None? <==> !Reachable(c.g, c.start, c.stopAt.value, false)
    ensures path.Some? ==> Shortest(c.g, path.value, c.start, c.stopAt.value, false)
  {
    ReachableWalkable(c.g, c.start, c.stopAt.value, false);
    if !Walkable(c.g, c.start) || !Walkable(c.g, c.stopAt.value) {
      QuietEvents([Error(EndpointBlocked)]);
      return [Error(EndpointBlocked)], None;
    }
    var found, s := Run(c);
    path := if found.Some? then Some(Chain(found.value.rec)) else None;
    events := Conclude(s.events, path, s.count);
  }
}
