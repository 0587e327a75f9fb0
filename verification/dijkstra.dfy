/** Dijkstra in 4-neighbour mode, where every step costs 1:
    `findPathDijkstra` and `dijkstraAll` of `project_ts/src/dijkstra.ts` and
    the `findPathDijkstra` generator of `pathfinding-visualizer/algorithms.js`.
    They run the loop of `BestFirst` with no estimate and a heap ordered by
    `gCost` alone; `dijkstraAll` runs without a goal and drops a node whose
    cell is already closed before the staleness test. */
module Dijkstra {
  import opened Wrappers
  import opened Grid
  import opened Events
  import opened BestFirst
  import AStar
  import Bfs

  function GoalSetup(g: Grid, start: Point, goal: Point): Setup {
    Setup(g, start, Some(goal), None, Heap(false), false)
  }

  function AllSetup(g: Grid, start: Point): Setup {
    Setup(g, start, None, None, Heap(false), true)
  }

  /** `findPathDijkstra`: null for a blocked endpoint; otherwise a shortest
      walk, or null exactly when the goal cannot be reached. */
  method FindPathDijkstra(g: Grid, start: Point, goal: Point) returns (path: Option<seq<Point>>)
    ensures !Walkable(g, start) || !Walkable(g, goal) ==> path.None?
    ensures path.None? <==> !Reachable(g, start, goal, false)
    ensures path.Some? ==> Shortest(g, path.value, start, goal, false)
  {
    path := AStar.Search(GoalSetup(g, start, goal));
  }

  /** `dijkstraAll`: the distance and parent tables.  A cell is in `dist`
      (its entry is not `+Infinity`) exactly when it is reachable, with its
      least number of steps; every other reached cell than the start has a
      parent, a neighbour one step nearer.  A blocked start leaves both
      tables empty. */
  method DijkstraAll(g: Grid, start: Point) returns (dist: map<Point, nat>, parent: map<Point, Point>)
    ensures !Walkable(g, start) ==> dist == map[] && parent == map[]
    ensures Walkable(g, start) ==> Explored(g, start, false, dist) && start in dist && dist[start] == 0
    ensures start !in parent
    ensures forall v :: v in dist && v != start ==> v in parent
    ensures forall v :: v in parent ==>
      v in dist && parent[v] in dist && Adjacent(parent[v], v, false) && dist[v] == dist[parent[v]] + 1
  {
    if !Walkable(g, start) {
      return map[], map[];
    }
    var c := AllSetup(g, start);
    var found, s := Run(c);
    dist := map p | p in s.best :: s.best[p].g;
    parent := map p | p in s.best && s.best[p].rec.parent.Some? :: s.best[p].rec.parent.value.pos;
    forall v | v in dist
      ensures v != start <==> v in parent
      ensures v in parent ==>
        parent[v] in dist && Adjacent(parent[v], v, false) && dist[v] == dist[parent[v]] + 1
    {
      var n := s.best[v];
      assert NodeOk(c, n) && n.rec.pos == v;
      if v == start {
        assert n.rec.parent.None?;
      } else {
        ParentLink(g, start, dist, v, n.rec);
      }
    }
  }

  /** In an explored table, a walk to `v` with `dist[v]` steps ends with a
      step from a cell whose distance is one less. */
  lemma ParentLink(g: Grid, start: Point, dist: map<Point, nat>, v: Point, r: Rec)
    requires Explored(g, start, false, dist) && v in dist && v != start
    requires PathFromTo(g, Chain(r), start, v, false) && |Chain(r)| == dist[v] + 1
    ensures r.parent.Some?
    ensures var u := r.parent.value.pos;
      u in dist && Adjacent(u, v, false) && dist[v] == dist[u] + 1
  {
    var path := Chain(r);
    var pr := r.parent.value;
    var u := pr.pos;
    var pre := Chain(pr);
    assert path == pre + [v];
    assert pre == path[..|path| - 1];
    assert IsPath(g, pre, false) && pre[0] == start && pre[|pre| - 1] == u;
    assert PathFromTo(g, pre, start, u, false);
    assert Adjacent(path[|path| - 2], path[|path| - 1], false);
    assert Reachable(g, start, u, false);
    assert IsDistance(g, start, u, dist[u], false);
    var w :| PathFromTo(g, w, start, u, false) && |w| == dist[u] + 1;
    ExtendPath(g, w, v, false);
    assert PathFromTo(g, w + [v], start, v, false);
  }

  /** The visualizer's `findPathDijkstra` generator.  A blocked endpoint
      yields one error; otherwise the `'current'` counts run 1, 2, ..., no
      cell is reported as `'current'` twice, and the run ends with a
      shortest walk, or with the not-found error exactly when the goal is
      unreachable. */
  method DijkstraEvents(g: Grid, start: Point, goal: Point) returns (events: seq<Event>, path: Option<seq<Point>>)
    ensures !Walkable(g, start) || !Walkable(g, goal) ==> events == [Error(EndpointBlocked)] && path.None?
    ensures Walkable(g, start) && Walkable(g, goal) ==>
      Finished(events, path, |Counts(events)|) && Counts(events) == UpTo(|Counts(events)|)
    ensures Distinct(Expanded(events))
    ensures path.None? <==> !Reachable(g, start, goal, false)
    ensures path.Some? ==> Shortest(g, path.value, start, goal, false)
  {
    events, path := AStar.Generate(Setup(g, start, Some(goal), None, Heap(false), false));
  }

  /** In 4-neighbour mode `findPathDijkstra` and `findPathBFS` find a walk
      for the same pairs of cells, with the same number of points, and
      `dijkstraAll` and `bfsAll` produce the same distance table. */
  method AgreesWithBfs(g: Grid, start: Point, goal: Point)
    returns (dij: Option<seq<Point>>, bfs: Option<seq<Point>>, dijDist: map<Point, nat>, bfsDist: map<Point, nat>)
    ensures dij.Some? <==> bfs.Some?
    ensures dij.Some? ==> |dij.value| == |bfs.value|
    ensures dijDist == bfsDist
  {
    dij := FindPathDijkstra(g, start, goal);
    bfs := Bfs.FindPathBFS(g, start, goal, false);
    if dij.Some? {
      ShortestAgree(g, dij.value, bfs.value, start, goal, false);
    }
    var dp, bp;
    dijDist, dp := DijkstraAll(g, start);
    bfsDist, bp := Bfs.BfsAll(g, start, false);
    if Walkable(g, start) {
      ExploredUnique(g, start, false, dijDist, bfsDist);
    }
  }
}
