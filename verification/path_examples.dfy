/** The worked examples of `runExamples` in `project_ts/src/index.ts`, in
    4-neighbour mode: on the 5x5 grid every search finds a 9-point walk and
    `dijkstraAll` gives the goal distance 8; on the 3x3 grid the goal is
    walled off. */
module PathExamples {
  import opened Wrappers
  import opened Grid
  import AStar
  import Dijkstra

  /** `grid1`: two walls of three cells, open border. */
  function Grid1(): Grid {
    [[0, 0, 0, 0, 0],
     [0, 1, 1, 1, 0],
     [0, 0, 0, 0, 0],
     [0, 1, 1, 1, 0],
     [0, 0, 0, 0, 0]]
  }

  /** `grid2`: the bottom-left cell is shut in. */
  function Grid2(): Grid {
    [[0, 0, 0],
     [1, 1, 0],
     [0, 1, 0]]
  }

  /** The distance from the top-left to the bottom-right corner of `grid1`
      is 8 steps: along the top row and down the right column, and no walk
      beats the Manhattan distance. */
  lemma Grid1Distance()
    ensures IsDistance(Grid1(), Point(0, 0), Point(4, 4), 8, false)
    ensures Reachable(Grid1(), Point(0, 0), Point(4, 4), false)
  {
    var g := Grid1();
    Grid1Walk();
    forall path | PathFromTo(g, path, Point(0, 0), Point(4, 4), false)
      ensures 9 <= |path|
    {
      ManhattanBelowSteps(g, path);
    }
  }

  /** Along the top row and down the right column of `grid1`. */
  lemma Grid1Walk()
    ensures PathFromTo(Grid1(), Grid1Route(), Point(0, 0), Point(4, 4), false)
  {
    var g, w := Grid1(), Grid1Route();
    assert forall i :: 0 <= i < |w| ==> Walkable(g, w[i]);
    assert forall i :: 0 <= i < |w| - 1 ==> Adjacent(w[i], w[i + 1], false);
  }

  function Grid1Route(): seq<Point> {
    [Point(0, 0), Point(1, 0), Point(2, 0), Point(3, 0), Point(4, 0),
     Point(4, 1), Point(4, 2), Point(4, 3), Point(4, 4)]
  }

  /** On `grid1` array A*, heap A* and Dijkstra each return a 9-point walk
      from `(0,0)` to `(4,4)`, and `dijkstraAll` gives the start distance 0
      and the goal distance 8. */
  method Grid1Example() returns (path4: Option<seq<Point>>, heap4: Option<seq<Point>>, dij4: Option<seq<Point>>, dist: map<Point, nat>)
    ensures path4.Some? && |path4.value| == 9
    ensures heap4.Some? && |heap4.value| == 9
    ensures dij4.Some? && |dij4.value| == 9
    ensures Point(0, 0) in dist && dist[Point(0, 0)] == 0
    ensures Point(4, 4) in dist && dist[Point(4, 4)] == |path4.value| - 1
  {
    var g, start, goal := Grid1(), Point(0, 0), Point(4, 4);
    Grid1Distance();
    path4 := AStar.FindPath(g, start, goal);
    heap4 := AStar.FindPathHeap(g, start, goal);
    dij4 := Dijkstra.FindPathDijkstra(g, start, goal);
    var parent;
    assert Walkable(g, start);
    dist, parent := Dijkstra.DijkstraAll(g, start);
    assert IsDistance(g, start, goal, dist[goal], false);
  }

  /** On `grid2` the cells reachable from `(0,0)` are the top row and the
      right column, so `(0,2)` cannot be reached. */
  lemma Grid2Blocked()
    ensures !Reachable(Grid2(), Point(0, 0), Point(0, 2), false)
  {
    var g := Grid2();
    var S := {Point(0, 0), Point(1, 0), Point(2, 0), Point(2, 1), Point(2, 2)};
    forall c, q | c in S && Walkable(g, q) && Adjacent(c, q, false)
      ensures q in S
    {
    }
    ClosedSetBlocks(g, S, Point(0, 0), Point(0, 2), false);
  }

  /** On `grid2` `findPath` returns null. */
  method Grid2Example() returns (noPath: Option<seq<Point>>)
    ensures noPath.None?
  {
    Grid2Blocked();
    noPath := AStar.FindPath(Grid2(), Point(0, 0), Point(0, 2));
  }
}
