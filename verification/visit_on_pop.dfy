/** The search loop shared by depth-first search (`project_ts/src/dfs.ts`)
    and greedy best-first search (`project_ts/src/gbfs.ts`), and by their
    generator versions in the visualizer.

    Unlike breadth-first search, these mark a cell visited when a node for
    it is taken off the open list: a node whose cell is already visited is
    dropped (`if (visited[y][x]) continue`), so one cell may sit on the open
    list several times.  After the mark come the `'current'` event, the goal
    test, the optional depth limit and the push of every neighbour not yet
    visited.  The open list is a stack or a binary heap; everything proved
    here holds for both. */
module VisitOnPop {
  import opened Wrappers
  import opened Grid
  import opened Events
  import BinaryHeap

  type Item = BinaryHeap.Item<Rec>

  /** How the open list is kept: a stack that receives the neighbours in
      reverse order (`findPathDFS`, `dfsAll`), or a binary heap ordered by
      the Manhattan distance to `target` (`findPathGBFS`, `gbfsAll` in
      4-neighbour mode), or a binary heap ordered by `rank`, the order of
      the floating-point octile distances to the goal (8-neighbour mode). */
  datatype Order = Lifo | Greedy(target: Point) | Ranked(rank: Point -> int)

  /** The heap's comparator key of a node for cell `p`; the stack ignores
      it. */
  function KeyOf(order: Order, p: Point): BinaryHeap.Key {
    match order
    case Lifo => BinaryHeap.Key(0, 0)
    case Greedy(t) => BinaryHeap.Key(Manhattan(p, t), 0)
    case Ranked(rank) => BinaryHeap.Key(rank(p), 0)
  }

  ghost predicate WellKept(order: Order, open: seq<Item>) {
    !order.Lifo? ==> BinaryHeap.IsHeap(open)
  }

  function ItemOf(order: Order, r: Rec): Item {
    BinaryHeap.Item(r, KeyOf(order, r.pos))
  }

  /** `stack.push` or `open.push`. */
  function Put(order: Order, open: seq<Item>, r: Rec): (res: seq<Item>)
    requires WellKept(order, open)
    ensures WellKept(order, res)
    ensures multiset(res) == multiset(open) + multiset{ItemOf(order, r)}
    ensures order.Lifo? ==> res == open + [ItemOf(order, r)]
  {
    match order
    case Lifo => open + [ItemOf(order, r)]
    case _ => BinaryHeap.Push(open, ItemOf(order, r))
  }

  /** `stack.pop` or `open.pop`: the node pushed last, or one of least
      key. */
  function Take(order: Order, open: seq<Item>): (res: (Item, seq<Item>))
    requires |open| > 0 && WellKept(order, open)
    ensures WellKept(order, res.1) && |res.1| == |open| - 1
    ensures multiset(res.1) + multiset{res.0} == multiset(open)
    ensures order.Lifo? ==> res.0 == open[|open| - 1] && res.1 == open[..|open| - 1]
    ensures !order.Lifo? ==> forall x :: x in open ==> BinaryHeap.Le(res.0.key, x.key)
  {
    match order
    case Lifo =>
      assert open == open[..|open| - 1] + [open[|open| - 1]];
      (open[|open| - 1], open[..|open| - 1])
    case _ => BinaryHeap.Pop(open).value
  }

  function Reversed<T>(s: seq<T>): (r: seq<T>)
    ensures |r| == |s| && forall i :: 0 <= i < |s| ==> r[i] == s[|s| - 1 - i]
  {
    seq(|s|, i requires 0 <= i < |s| => s[|s| - 1 - i])
  }

  lemma ReversedSame<T>(s: seq<T>)
    ensures forall x :: x in Reversed(s) <==> x in s
    ensures Distinct(s) ==> Distinct(Reversed(s))
  {
    var r := Reversed(s);
    forall x | x in s
      ensures x in r
    {
      var k :| 0 <= k < |s| && s[k] == x;
      assert r[|s| - 1 - k] == x;
    }
  }

  /** The order the neighbour loop walks `getNeighbors`: backwards for the
      stack, so that the first neighbour ends on top, forwards for the
      heap. */
  function PushOrder(order: Order, ns: seq<Point>): (r: seq<Point>)
    ensures forall p :: p in r <==> p in ns
    ensures Distinct(ns) ==> Distinct(r)
  {
    ReversedSame(ns);
    if order.Lifo? then Reversed(ns) else ns
  }

  /** The cells of `cells` not in `visited`, in order. */
  function Unvisited(cells: seq<Point>, visited: set<Point>): (r: seq<Point>)
    ensures forall p :: p in r <==> p in cells && p !in visited
    ensures Distinct(cells) ==> Distinct(r)
    ensures |r| <= |cells|
    decreases |cells|
  {
    if |cells| == 0 then []
    else (if cells[0] in visited then [] else [cells[0]]) + Unvisited(cells[1..], visited)
  }

  /** The nodes the loop pushes for the cells `cells`, with `cur` as their
      parent. */
  function ChildItems(order: Order, cur: Rec, cells: seq<Point>): (r: seq<Item>)
    ensures |r| == |cells| && forall i :: 0 <= i < |r| ==> r[i] == ItemOf(order, Rec(cells[i], Some(cur)))
  {
    seq(|cells|, i requires 0 <= i < |cells| => ItemOf(order, Rec(cells[i], Some(cur))))
  }

  lemma ChildItemsCons(order: Order, cur: Rec, cells: seq<Point>)
    requires |cells| > 0
    ensures ChildItems(order, cur, cells) ==
      [ItemOf(order, Rec(cells[0], Some(cur)))] + ChildItems(order, cur, cells[1..])
  {
  }

  /** The neighbour loop's pushes, one after the other. */
  function PushAll(order: Order, open: seq<Item>, cur: Rec, cells: seq<Point>): (r: seq<Item>)
    requires WellKept(order, open)
    ensures WellKept(order, r)
    decreases |cells|
  {
    if |cells| == 0 then open
    else PushAll(order, Put(order, open, Rec(cells[0], Some(cur))), cur, cells[1..])
  }

  /** The loop adds exactly one node per cell, whatever the discipline. */
  lemma {:induction false} PushAllAdds(order: Order, open: seq<Item>, cur: Rec, cells: seq<Point>)
    requires WellKept(order, open)
    ensures multiset(PushAll(order, open, cur, cells)) == multiset(open) + multiset(ChildItems(order, cur, cells))
    decreases |cells|
  {
    if |cells| > 0 {
      var first := ItemOf(order, Rec(cells[0], Some(cur)));
      var next := Put(order, open, Rec(cells[0], Some(cur)));
      var kids, later := ChildItems(order, cur, cells), ChildItems(order, cur, cells[1..]);
      assert PushAll(order, open, cur, cells) == PushAll(order, next, cur, cells[1..]);
      PushAllAdds(order, next, cur, cells[1..]);
      ChildItemsCons(order, cur, cells);
      assert multiset(kids) == multiset{first} + multiset(later);
      assert multiset(next) == multiset(open) + multiset{first};
    }
  }

  /** On the stack the pushed nodes lie on top, the last pushed uppermost. */
  lemma {:induction false} PushAllStacks(open: seq<Item>, cur: Rec, cells: seq<Point>)
    ensures PushAll(Lifo, open, cur, cells) == open + ChildItems(Lifo, cur, cells)
    decreases |cells|
  {
    if |cells| > 0 {
      var first := ItemOf(Lifo, Rec(cells[0], Some(cur)));
      PushAllStacks(open + [first], cur, cells[1..]);
      assert ChildItems(Lifo, cur, cells) == [first] + ChildItems(Lifo, cur, cells[1..]);
    }
  }

  // ------------------------------------------------------------ the loop

  /** One search: the grid, the start, the goal to stop at (none for the
      `*All` variants), the neighbourhood, the depth limit (`None` for the
      default `Infinity`) and the open list's discipline. */
  datatype Setup = Setup(g: Grid, start: Point, stopAt: Option<Point>, diagonal: bool,
                         maxDepth: Option<int>, order: Order)

  /** The loop state: the visited cells, the open list, the cells in the
      order they were marked (`reachable` of the `*All` variants) and the
      events yielded so far.  `visitedCount` is the number of marked cells. */
  datatype State = State(visited: set<Point>, open: seq<Item>, reached: seq<Point>, events: seq<Event>)

  function Initial(c: Setup): State {
    State({}, [ItemOf(c.order, Rec(c.start, None))], [], [])
  }

  /** `current.depth >= maxDepth`: the node's neighbours are not pushed. */
  predicate AtLimit(c: Setup, r: Rec) {
    c.maxDepth.Some? && Depth(r) >= c.maxDepth.value
  }

  function Max0(d: int): nat {
    if d < 0 then 0 else d
  }

  /** Marking the cell of a node taken off the list and reporting it with
      the incremented count. */
  function Visit(s: State, rest: seq<Item>, cur: Rec): State {
    State(s.visited + {cur.pos}, rest, s.reached + [cur.pos],
          s.events + [Current(cur.pos, |s.reached| + 1)])
  }

  /** The neighbours of `cur` the loop pushes: none at the depth limit,
      otherwise those not visited, in push order. */
  function FreshCells(c: Setup, visited: set<Point>, cur: Rec): seq<Point> {
    if AtLimit(c, cur) then []
    else Unvisited(PushOrder(c.order, Neighbors(c.g, cur.pos, c.diagonal)), visited)
  }

  /** Pushing each fresh neighbour and reporting it as `'visited'`. */
  function Expand(c: Setup, s: State, cur: Rec): State
    requires WellKept(c.order, s.open)
  {
    var F := FreshCells(c, s.visited, cur);
    s.(open := PushAll(c.order, s.open, cur, F), events := s.events + VisitedEvents(F))
  }

  /** One iteration that does not end the search. */
  function Step(c: Setup, s: State): State
    requires |s.open| > 0 && WellKept(c.order, s.open)
  {
    var (top, rest) := Take(c.order, s.open);
    if top.value.pos in s.visited then s.(open := rest)
    else Expand(c, Visit(s, rest, top.value), top.value)
  }

  /** The state after the goal's node is taken off the list: the cell is
      marked and reported, then the path and the completion event. */
  function Found(s: State, rest: seq<Item>, cur: Rec): State {
    var v := Visit(s, rest, cur);
    v.(events := v.events + [PathFound(Chain(cur)), Complete(Chain(cur), |v.reached|)])
  }

  // ------------------------------------------------------------ invariant

  function OpenCells(open: seq<Item>): set<Point> {
    set it | it in open :: it.value.pos
  }

  /** A node on the open list: its chain is a walk from the start with no
      repeated cell, every cell before its own already visited, and no
      deeper than the limit allows. */
  ghost predicate NodeValid(c: Setup, visited: set<Point>, r: Rec) {
    PathFromTo(c.g, Chain(r), c.start, r.pos, c.diagonal) && Distinct(Chain(r)) &&
    (forall k :: 0 <= k < |Chain(r)| - 1 ==> Chain(r)[k] in visited) &&
    (c.maxDepth.Some? ==> Depth(r) <= Max0(c.maxDepth.value))
  }

  ghost predicate OpenValid(c: Setup, s: State) {
    WellKept(c.order, s.open) &&
    forall it :: it in s.open ==> NodeValid(c, s.visited, it.value)
  }

  /** The marked cells: reachable walkable cells, each listed once, the
      start first; before the first mark the open list is the start node. */
  ghost predicate Marks(c: Setup, s: State) {
    s.visited <= WalkableCells(c.g) &&
    (forall p :: p in s.reached <==> p in s.visited) && Distinct(s.reached) &&
    (|s.reached| > 0 ==> s.reached[0] == c.start) &&
    (|s.reached| == 0 ==> s.open == Initial(c).open) &&
    (forall v :: v in s.visited ==> Reachable(c.g, c.start, v, c.diagonal))
  }

  /** Every walkable neighbour of an expanded cell is visited or waiting on
      the open list.  Without a depth limit every visited cell is
      expanded. */
  ghost predicate Covered(c: Setup, s: State, expanded: set<Point>) {
    expanded <= s.visited &&
    (c.maxDepth.None? ==> expanded == s.visited) &&
    forall e, n :: e in expanded && Walkable(c.g, n) && Adjacent(e, n, c.diagonal) ==>
      n in s.visited || n in OpenCells(s.open)
  }

  /** The events so far: progress only, one `'current'` per marked cell
      with the counts 1, 2, .... */
  ghost predicate Reported(s: State) {
    Progress(s.events) && Counts(s.events) == UpTo(|s.reached|) && Expanded(s.events) == s.reached
  }

  ghost predicate Inv(c: Setup, s: State, expanded: set<Point>) {
    Marks(c, s) && OpenValid(c, s) && Covered(c, s, expanded) && Reported(s) &&
    (c.stopAt.Some? ==> c.stopAt.value !in s.visited)
  }

  lemma InitialInv(c: Setup)
    requires Walkable(c.g, c.start)
    ensures Inv(c, Initial(c), {})
  {
    assert Chain(Rec(c.start, None)) == [c.start];
  }

  // ------------------------------------------------------------ one step

  /** Dropping a node whose cell is already visited. */
  lemma DropStep(c: Setup, s: State, expanded: set<Point>, top: Item, rest: seq<Item>)
    requires Inv(c, s, expanded) && WellKept(c.order, rest)
    requires multiset(rest) + multiset{top} == multiset(s.open)
    requires top.value.pos in s.visited
    ensures Inv(c, s.(open := rest), expanded)
  {
    var r := s.(open := rest);
    forall it | it in rest
      ensures it in s.open
    {
      assert it in multiset(s.open);
    }
    forall e, n | e in expanded && Walkable(c.g, n) && Adjacent(e, n, c.diagonal)
      ensures n in r.visited || n in OpenCells(rest)
    {
      if n !in s.visited {
        var it :| it in s.open && it.value.pos == n;
        assert it in multiset(rest) + multiset{top};
      }
    }
  }

  /** What the iteration for a fresh node does, in terms of the fresh cells
      `F` it pushes. */
  ghost predicate MarkOf(s: State, top: Item, rest: seq<Item>, r: State) {
    multiset(rest) + multiset{top} == multiset(s.open) && top.value.pos !in s.visited &&
    r.visited == s.visited + {top.value.pos} && r.reached == s.reached + [top.value.pos]
  }

  ghost predicate FreshOf(c: Setup, s: State, top: Item, rest: seq<Item>, F: seq<Point>, r: State) {
    var cur := top.value;
    MarkOf(s, top, rest, r) && Distinct(F) &&
    (forall p :: p in F <==> (!AtLimit(c, cur) && Walkable(c.g, p) && Adjacent(cur.pos, p, c.diagonal) &&
                             p !in s.visited && p != cur.pos)) &&
    r.events == s.events + [Current(cur.pos, |s.reached| + 1)] + VisitedEvents(F) &&
    WellKept(c.order, r.open) &&
    multiset(r.open) == multiset(rest) + multiset(ChildItems(c.order, cur, F))
  }

  lemma StepIsFreshOf(c: Setup, s: State)
    requires |s.open| > 0 && WellKept(c.order, s.open)
    requires Take(c.order, s.open).0.value.pos !in s.visited
    ensures var (top, rest) := Take(c.order, s.open);
      WellKept(c.order, rest) &&
      FreshOf(c, s, top, rest, FreshCells(c, s.visited + {top.value.pos}, top.value), Step(c, s))
  {
    var (top, rest) := Take(c.order, s.open);
    var cur := top.value;
    var ns := Neighbors(c.g, cur.pos, c.diagonal);
    assert Distinct(PushOrder(c.order, ns));
    var v := Visit(s, rest, cur);
    PushAllAdds(c.order, rest, cur, FreshCells(c, v.visited, cur));
  }

  lemma FreshMarks(c: Setup, s: State, top: Item, rest: seq<Item>, r: State)
    requires Marks(c, s) && OpenValid(c, s) && MarkOf(s, top, rest, r)
    ensures Marks(c, r)
  {
    var cur := top.value;
    assert top in multiset(s.open);
    assert NodeValid(c, s.visited, cur);
    if |s.reached| == 0 {
      assert top in multiset(Initial(c).open);
    }
    var reached := s.reached + [cur.pos];
    forall i, j | 0 <= i < j < |reached|
      ensures reached[i] != reached[j]
    {
      if j == |s.reached| {
        assert reached[i] == s.reached[i];
      }
    }
  }

  lemma FreshOpen(c: Setup, s: State, top: Item, rest: seq<Item>, F: seq<Point>, r: State)
    requires OpenValid(c, s) && FreshOf(c, s, top, rest, F, r)
    ensures OpenValid(c, r)
  {
    var cur := top.value;
    assert top in multiset(s.open);
    assert NodeValid(c, s.visited, cur);
    forall it | it in r.open
      ensures NodeValid(c, r.visited, it.value)
    {
      assert it in multiset(rest) + multiset(ChildItems(c.order, cur, F));
      if it in multiset(rest) {
        assert it in multiset(s.open);
      } else {
        var i :| 0 <= i < |F| && ChildItems(c.order, cur, F)[i] == it;
        var n := F[i];
        assert it.value == Rec(n, Some(cur));
        ChildChain(c.g, cur, n, c.start, c.diagonal);
        var ch := Chain(it.value);
        assert ch == Chain(cur) + [n];
        forall k | 0 <= k < |ch| - 1
          ensures ch[k] in r.visited
        {
          assert ch[k] == Chain(cur)[k];
        }
        forall a, b | 0 <= a < b < |ch|
          ensures ch[a] != ch[b]
        {
          if b == |ch| - 1 {
            assert ch[a] in r.visited;
          } else {
            assert ch[a] == Chain(cur)[a] && ch[b] == Chain(cur)[b];
          }
        }
      }
    }
  }

  lemma FreshCovered(c: Setup, s: State, expanded: set<Point>, top: Item, rest: seq<Item>, F: seq<Point>, r: State)
    requires Covered(c, s, expanded) && FreshOf(c, s, top, rest, F, r)
    ensures Covered(c, r, if AtLimit(c, top.value) then expanded else expanded + {top.value.pos})
  {
    var cur := top.value;
    var ex := if AtLimit(c, cur) then expanded else expanded + {cur.pos};
    forall e, n | e in ex && Walkable(c.g, n) && Adjacent(e, n, c.diagonal)
      ensures n in r.visited || n in OpenCells(r.open)
    {
      if n !in r.visited {
        if e == cur.pos && !AtLimit(c, cur) {
          var i :| 0 <= i < |F| && F[i] == n;
          var it := ChildItems(c.order, cur, F)[i];
          assert it in multiset(r.open);
          assert it.value.pos == n;
        } else {
          var it :| it in s.open && it.value.pos == n;
          assert it in multiset(rest) + multiset{top};
          assert it in multiset(r.open);
        }
      }
    }
  }

  lemma FreshReported(c: Setup, s: State, top: Item, rest: seq<Item>, F: seq<Point>, r: State)
    requires Reported(s) && FreshOf(c, s, top, rest, F, r)
    ensures Reported(r)
  {
    ReportStep(s.events, Current(top.value.pos, |s.reached| + 1), F, |s.reached|);
  }

  lemma StepPreserves(c: Setup, s: State, expanded: set<Point>)
    requires Inv(c, s, expanded) && |s.open| > 0
    requires var top := Take(c.order, s.open).0;
      top.value.pos in s.visited || Some(top.value.pos) != c.stopAt
    ensures var top := Take(c.order, s.open).0;
      Inv(c, Step(c, s), if top.value.pos in s.visited || AtLimit(c, top.value) then expanded
                         else expanded + {top.value.pos})
  {
    var (top, rest) := Take(c.order, s.open);
    if top.value.pos in s.visited {
      DropStep(c, s, expanded, top, rest);
    } else {
      var F := FreshCells(c, s.visited + {top.value.pos}, top.value);
      var r := Step(c, s);
      StepIsFreshOf(c, s);
      FreshMarks(c, s, top, rest, r);
      FreshOpen(c, s, top, rest, F, r);
      FreshCovered(c, s, expanded, top, rest, F, r);
      FreshReported(c, s, top, rest, F, r);
    }
  }

  /** Each iteration marks a new walkable cell or shortens the open list. */
  lemma StepMeasure(c: Setup, s: State, expanded: set<Point>)
    requires Inv(c, s, expanded) && |s.open| > 0
    ensures Step(c, s).visited <= WalkableCells(c.g)
    ensures |WalkableCells(c.g) - Step(c, s).visited| < |WalkableCells(c.g) - s.visited|
         || (Step(c, s).visited == s.visited && |Step(c, s).open| < |s.open|)
  {
    var (top, rest) := Take(c.order, s.open);
    var W := WalkableCells(c.g);
    if top.value.pos !in s.visited {
      var F := FreshCells(c, s.visited + {top.value.pos}, top.value);
      StepIsFreshOf(c, s);
      FreshMarks(c, s, top, rest, Step(c, s));
      assert top.value.pos in W - s.visited;
      SubsetSmaller(W - Step(c, s).visited, W - s.visited);
    }
  }

  /** The events of a run that takes the goal's node off the list. */
  lemma FoundEvents(s: State, rest: seq<Item>, cur: Rec)
    requires Reported(s)
    ensures Counts(Found(s, rest, cur).events) == UpTo(|Found(s, rest, cur).reached|)
    ensures Expanded(Found(s, rest, cur).events) == Found(s, rest, cur).reached
    ensures Finished(Found(s, rest, cur).events, Some(Chain(cur)), |Found(s, rest, cur).reached|)
  {
    var path := Chain(cur);
    var e := Current(cur.pos, |s.reached| + 1);
    ReportStep(s.events, e, [], |s.reached|);
    var p := s.events + [e] + VisitedEvents([]);
    assert VisitedEvents([]) == [];
    var tail := [PathFound(path), Complete(path, |s.reached| + 1)];
    AppendEvents(p, tail);
    QuietEvents(tail);
    assert Found(s, rest, cur).events == p + tail;
    assert (p + tail)[..|p + tail| - 2] == p;
  }

  /** The goal's node carries a valid chain, and marking it keeps the marks
      consistent. */
  lemma FoundMarks(c: Setup, s: State, expanded: set<Point>, top: Item, rest: seq<Item>)
    requires Inv(c, s, expanded) && multiset(rest) + multiset{top} == multiset(s.open)
    requires top.value.pos !in s.visited
    ensures NodeValid(c, s.visited, top.value)
    ensures Marks(c, Found(s, rest, top.value))
  {
    assert top in multiset(s.open);
    var v := Visit(s, rest, top.value);
    FreshMarks(c, s, top, rest, v);
  }

  /** With the open list empty and no depth limit, the marked cells are
      exactly the cells reachable from the start. */
  lemma ExhaustedReach(c: Setup, s: State, expanded: set<Point>)
    requires Inv(c, s, expanded) && |s.open| == 0 && c.maxDepth.None?
    ensures |s.reached| > 0
    ensures forall p :: p in s.reached <==> Reachable(c.g, c.start, p, c.diagonal)
  {
    assert |s.reached| > 0;
    assert c.start in s.visited;
    forall p | Reachable(c.g, c.start, p, c.diagonal)
      ensures p in s.visited
    {
      if p !in s.visited {
        ClosedSetBlocks(c.g, s.visited, c.start, p, c.diagonal);
      }
    }
  }

  // ------------------------------------------------------------ the engine

  /** The loop.  With a goal it stops when the goal's node is taken off the
      list, with that node; otherwise it runs until the list is empty. */
  method Run(c: Setup) returns (found: Option<Rec>, s: State)
    requires Walkable(c.g, c.start)
    ensures found.Some? ==>
      c.stopAt.Some? && NodeValid(c, s.visited, found.value) && found.value.pos == c.stopAt.value
    ensures found.None? && c.maxDepth.None? ==>
      forall p :: p in s.reached <==> Reachable(c.g, c.start, p, c.diagonal)
    ensures found.None? && c.stopAt.Some? ==> c.stopAt.value !in s.reached
    ensures Marks(c, s) && |s.reached| > 0
    ensures Counts(s.events) == UpTo(|s.reached|) && Expanded(s.events) == s.reached
    ensures found.Some? ==> Finished(s.events, Some(Chain(found.value)), |s.reached|)
    ensures found.None? ==> Progress(s.events)
  {
    s := Initial(c);
    ghost var expanded: set<Point> := {};
    InitialInv(c);
    while |s.open| > 0
      invariant Inv(c, s, expanded)
      invariant s.visited <= WalkableCells(c.g)
      decreases |WalkableCells(c.g) - s.visited|, |s.open|
    {
      var (top, rest) := Take(c.order, s.open);
      if top.value.pos !in s.visited && c.stopAt == Some(top.value.pos) {
        FoundMarks(c, s, expanded, top, rest);
        FoundEvents(s, rest, top.value);
        found, s := Some(top.value), Found(s, rest, top.value);
        return;
      }
      StepPreserves(c, s, expanded);
      StepMeasure(c, s, expanded);
      if top.value.pos !in s.visited && !AtLimit(c, top.value) {
        expanded := expanded + {top.value.pos};
      }
      s := Step(c, s);
    }
    found := None;
    if c.maxDepth.None? {
      ExhaustedReach(c, s, expanded);
    }
  }

  /** The generator's final events for a finished loop. */
  method Outcome(c: Setup, found: Option<Rec>, s: State) returns (events: seq<Event>, path: Option<seq<Point>>)
    requires found.Some? ==> Finished(s.events, Some(Chain(found.value)), |s.reached|)
    requires found.None? ==> Progress(s.events)
    requires Counts(s.events) == UpTo(|s.reached|) && Expanded(s.events) == s.reached
    ensures path == (if found.Some? then Some(Chain(found.value)) else None)
    ensures Finished(events, path, |Counts(events)|) && Counts(events) == UpTo(|Counts(events)|)
    ensures Expanded(events) == s.reached
  {
    path := if found.Some? then Some(Chain(found.value)) else None;
    events := Conclude(s.events, path, |s.reached|);
  }
}
