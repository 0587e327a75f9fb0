/** Greedy best-first search, `project_ts/src/gbfs.ts` (`findPathGBFS`,
    `gbfsAll`) and the `findPathGBFS` generator of
    `pathfinding-visualizer/additional-algorithms.js`: the visit-on-pop
    loop with a binary heap ordered by the heuristic distance to the goal.

    In 4-neighbour mode the heuristic is the Manhattan distance.  In
    8-neighbour mode it is the octile distance computed in floating point;
    the heap only compares these values, so the model takes their order as
    an argument `octile`, an integer rank per cell.  What is stated about
    the searches holds for every such ranking. */
module Gbfs {
  import opened Wrappers
  import opened Grid
  import opened Events
  import BinaryHeap
  import opened VisitOnPop

  /** The heap order: Manhattan distance to the goal in 4-neighbour mode,
      the octile ranking in 8-neighbour mode. */
  function HeapOrder(goal: Point, diagonal: bool, octile: Point -> int): Order {
    if diagonal then Ranked(octile) else Greedy(goal)
  }

  /** The search of `findPathGBFS` and its generator. */
  function GoalSetup(g: Grid, start: Point, goal: Point, diagonal: bool, octile: Point -> int): Setup {
    Setup(g, start, Some(goal), diagonal, None, HeapOrder(goal, diagonal, octile))
  }

  /** `findPathGBFS`: a walk from start to goal that repeats no cell,
      found exactly when one exists; a blocked endpoint gives none. */
  method FindPathGBFS(g: Grid, start: Point, goal: Point, diagonal: bool, octile: Point -> int)
    returns (path: Option<seq<Point>>)
    ensures !Walkable(g, start) || !Walkable(g, goal) ==> path.None?
    ensures path.Some? ==> PathFromTo(g, path.value, start, goal, diagonal) && Distinct(path.value)
    ensures path.None? <==> !Reachable(g, start, goal, diagonal)
  {
    ReachableWalkable(g, start, goal, diagonal);
    if !Walkable(g, start) || !Walkable(g, goal) {
      return None;
    }
    var found, s := Run(GoalSetup(g, start, goal, diagonal, octile));
    if found.Some? {
      path := Some(Chain(found.value));
    } else {
      path := None;
    }
  }

  /** `gbfsAll`: the cells in the order the heap hands them out.  A blocked
      start gives `[]`; otherwise the start comes first, no cell twice, and
      the cells listed are exactly the reachable ones. */
  method GbfsAll(g: Grid, start: Point, goal: Point, diagonal: bool, octile: Point -> int)
    returns (cells: seq<Point>)
    ensures !Walkable(g, start) ==> cells == []
    ensures Walkable(g, start) ==> |cells| > 0 && cells[0] == start
    ensures Distinct(cells)
    ensures forall p :: p in cells <==> Reachable(g, start, p, diagonal)
  {
    if !Walkable(g, start) {
      forall p
        ensures !Reachable(g, start, p, diagonal)
      {
        ReachableWalkable(g, start, p, diagonal);
      }
      return [];
    }
    var found, s := Run(Setup(g, start, None, diagonal, None, HeapOrder(goal, diagonal, octile)));
    cells := s.reached;
  }

  /** The visualizer's `findPathGBFS` generator.  A blocked endpoint yields
      one error; otherwise the `'current'` counts run 1, 2, ..., no cell is
      reported as `'current'` twice, and the run ends with a repetition-free
      walk to the goal, or with the not-found error exactly when the goal is
      unreachable. */
  method GbfsEvents(g: Grid, start: Point, goal: Point, diagonal: bool, octile: Point -> int)
    returns (events: seq<Event>, path: Option<seq<Point>>)
    ensures !Walkable(g, start) || !Walkable(g, goal) ==> events == [Error(EndpointBlocked)] && path.None?
    ensures Walkable(g, start) && Walkable(g, goal) ==>
      Finished(events, path, |Counts(events)|) && Counts(events) == UpTo(|Counts(events)|)
    ensures Distinct(Expanded(events))
    ensures path.None? <==> !Reachable(g, start, goal, diagonal)
    ensures path.Some? ==> PathFromTo(g, path.value, start, goal, diagonal) && Distinct(path.value)
  {
    ReachableWalkable(g, start, goal, diagonal);
    if !Walkable(g, start) || !Walkable(g, goal) {
      QuietEvents([Error(EndpointBlocked)]);
      return [Error(EndpointBlocked)], None;
    }
    var c := GoalSetup(g, start, goal, diagonal, octile);
    var found, s := Run(c);
    events, path := Outcome(c, found, s);
  }

  // ------------------------------------------------------------ greedy order

  /** Every node on the heap carries its cell's distance to the target as
      its key. */
  predicate Keyed(order: Order, open: seq<Item>) {
    forall it :: it in open ==> it.key == KeyOf(order, it.value.pos)
  }

  lemma KeyedInitial(c: Setup)
    ensures Keyed(c.order, Initial(c).open)
  {
  }

  /** Each iteration keeps the keys right: what stays was keyed, what is
      pushed is keyed on creation. */
  lemma StepKeeps(c: Setup, s: State)
    requires |s.open| > 0 && WellKept(c.order, s.open) && Keyed(c.order, s.open)
    ensures Keyed(c.order, Step(c, s).open)
  {
    var (top, rest) := Take(c.order, s.open);
    KeyedRest(c.order, s.open);
    if top.value.pos !in s.visited {
      var v := Visit(s, rest, top.value);
      KeyedPushAll(c.order, rest, top.value, FreshCells(c, v.visited, top.value));
    }
  }

  lemma KeyedRest(order: Order, open: seq<Item>)
    requires |open| > 0 && WellKept(order, open) && Keyed(order, open)
    ensures Keyed(order, Take(order, open).1)
  {
    var rest := Take(order, open).1;
    forall it | it in rest
      ensures it.key == KeyOf(order, it.value.pos)
    {
      assert it in multiset(rest);
      assert it in multiset(open);
    }
  }

  lemma KeyedPushAll(order: Order, open: seq<Item>, cur: Rec, cells: seq<Point>)
    requires WellKept(order, open) && Keyed(order, open)
    ensures Keyed(order, PushAll(order, open, cur, cells))
  {
    var kids := ChildItems(order, cur, cells);
    var r := PushAll(order, open, cur, cells);
    PushAllAdds(order, open, cur, cells);
    forall it | it in r
      ensures it.key == KeyOf(order, it.value.pos)
    {
      assert it in multiset(r);
      if it !in multiset(open) {
        assert it in multiset(kids);
        assert it in kids;
      }
    }
  }

  /** The node `findPathGBFS` takes next is one whose cell lies nearest the
      goal among all nodes waiting on the heap. */
  lemma NearestFirst(c: Setup, s: State)
    requires c.order.Greedy? && |s.open| > 0 && WellKept(c.order, s.open) && Keyed(c.order, s.open)
    ensures var top := Take(c.order, s.open).0;
      top in s.open &&
      forall it :: it in s.open ==> Manhattan(top.value.pos, c.order.target) <= Manhattan(it.value.pos, c.order.target)
  {
    var (top, rest) := Take(c.order, s.open);
    assert top in multiset(s.open);
    forall it | it in s.open
      ensures Manhattan(top.value.pos, c.order.target) <= Manhattan(it.value.pos, c.order.target)
    {
      assert BinaryHeap.Le(top.key, it.key);
    }
  }

  /** In 8-neighbour mode the node taken next has the least octile rank
      among all nodes waiting on the heap. */
  lemma LeastRankFirst(c: Setup, s: State)
    requires c.order.Ranked? && |s.open| > 0 && WellKept(c.order, s.open) && Keyed(c.order, s.open)
    ensures var top := Take(c.order, s.open).0;
      top in s.open &&
      forall it :: it in s.open ==> c.order.rank(top.value.pos) <= c.order.rank(it.value.pos)
  {
    var (top, rest) := Take(c.order, s.open);
    assert top in multiset(s.open);
    forall it | it in s.open
      ensures c.order.rank(top.value.pos) <= c.order.rank(it.value.pos)
    {
      assert BinaryHeap.Le(top.key, it.key);
    }
  }
}
