/** Breadth-first search over the occupancy grid: `findPathBFS` and
    `bfsAll` of `project_ts/src/bfs.ts`, and the `findPathBFS` generator of
    the visualizer, which runs the same loop and reports it as events.

    One engine, `Search`, runs the queue loop of all three: a cell is marked
    visited when it is enqueued, the goal test happens when a node is taken
    off the queue, and each expansion records the neighbour's distance and
    parent as `bfsAll` does.  The TypeScript search ignores the events and
    the tables; `bfsAll` runs without a goal. */
module Bfs {
  import opened Wrappers
  import opened Grid
  import opened Events

  /** The cells of a queue of nodes. */
  function Positions(q: seq<Rec>): (r: seq<Point>)
    ensures |r| == |q| && forall i :: 0 <= i < |q| ==> r[i] == q[i].pos
  {
    seq(|q|, i requires 0 <= i < |q| => q[i].pos)
  }

  /** The cells of `ns` that an expansion enqueues: those not visited yet,
      each the first time it appears. */
  function Fresh(ns: seq<Point>, visited: set<Point>): (r: seq<Point>)
    ensures forall p :: p in r <==> p in ns && p !in visited
    ensures Distinct(r)
    decreases |ns|
  {
    if |ns| == 0 then []
    else if ns[0] in visited then Fresh(ns[1..], visited)
    else [ns[0]] + Fresh(ns[1..], visited + {ns[0]})
  }

  /** New nodes whose parent is `cur`. */
  function Children(cur: Rec, cells: seq<Point>): (r: seq<Rec>)
    ensures |r| == |cells| && forall i :: 0 <= i < |r| ==> r[i] == Rec(cells[i], Some(cur))
  {
    seq(|cells|, i requires 0 <= i < |cells| => Rec(cells[i], Some(cur)))
  }

  /** The search state: the visited cells, the queue, the distance and
      parent tables of `bfsAll`, the events yielded so far and the number of
      nodes taken off the queue.  A cell missing from `dist` stands for the
      table's -1, one missing from `parent` for `undefined`. */
  datatype State = State(
    visited: set<Point>,
    queue: seq<Rec>,
    dist: map<Point, nat>,
    parent: map<Point, Point>,
    events: seq<Event>,
    count: nat)

  function Initial(start: Point): State {
    State({start}, [Rec(start, None)], map[start := 0], map[], [], 0)
  }

  /** Taking the head node off the queue and reporting it. */
  function Pop(s: State): State
    requires |s.queue| > 0
  {
    s.(queue := s.queue[1..], count := s.count + 1,
       events := s.events + [Current(s.queue[0].pos, s.count + 1)])
  }

  /** Marking one unvisited neighbour `n` of `cur`. */
  function Mark(s: State, cur: Rec, n: Point): State {
    s.(visited := s.visited + {n}, queue := s.queue + [Rec(n, Some(cur))],
       dist := s.dist[n := Depth(cur) + 1], parent := s.parent[n := cur.pos],
       events := s.events + [Visited(n)])
  }

  /** The neighbour loop: every neighbour not yet visited is marked, gets
      `cur` as parent and distance one more than `cur`, is enqueued and is
      reported. */
  function Expand(s: State, cur: Rec, ns: seq<Point>): State
    decreases |ns|
  {
    if |ns| == 0 then s
    else if ns[0] in s.visited then Expand(s, cur, ns[1..])
    else Expand(Mark(s, cur, ns[0]), cur, ns[1..])
  }

  /** The loop enqueues and reports exactly the fresh neighbours, in order. */
  lemma {:induction false} ExpandQueue(s: State, cur: Rec, ns: seq<Point>)
    ensures Expand(s, cur, ns).count == s.count
    ensures forall p :: p in Expand(s, cur, ns).visited <==> p in s.visited || p in ns
    ensures Expand(s, cur, ns).queue == s.queue + Children(cur, Fresh(ns, s.visited))
    ensures Expand(s, cur, ns).events == s.events + VisitedEvents(Fresh(ns, s.visited))
    decreases |ns|
  {
    if |ns| > 0 {
      var n := ns[0];
      if n in s.visited {
        ExpandQueue(s, cur, ns[1..]);
      } else {
        var s' := Mark(s, cur, n);
        ExpandQueue(s', cur, ns[1..]);
        var F' := Fresh(ns[1..], s'.visited);
        assert Children(cur, [n] + F') == [Rec(n, Some(cur))] + Children(cur, F');
        assert VisitedEvents([n] + F') == [Visited(n)] + VisitedEvents(F');
      }
    }
  }

  /** The loop records distance and parent exactly for the fresh
      neighbours and leaves every other entry alone. */
  lemma {:induction false} ExpandTables(s: State, cur: Rec, ns: seq<Point>)
    ensures forall p :: p in Expand(s, cur, ns).dist <==> p in s.dist || p in Fresh(ns, s.visited)
    ensures forall p :: p in Expand(s, cur, ns).parent <==> p in s.parent || p in Fresh(ns, s.visited)
    ensures forall p :: p in Fresh(ns, s.visited) ==>
      Expand(s, cur, ns).dist[p] == Depth(cur) + 1 && Expand(s, cur, ns).parent[p] == cur.pos
    ensures forall p :: p in s.dist && p !in Fresh(ns, s.visited) ==> Expand(s, cur, ns).dist[p] == s.dist[p]
    ensures forall p :: p in s.parent && p !in Fresh(ns, s.visited) ==> Expand(s, cur, ns).parent[p] == s.parent[p]
    decreases |ns|
  {
    if |ns| > 0 {
      var n := ns[0];
      if n in s.visited {
        ExpandTables(s, cur, ns[1..]);
      } else {
        ExpandTables(Mark(s, cur, n), cur, ns[1..]);
      }
    }
  }

  /** One iteration of the loop for a head node that is not the goal. */
  function Step(g: Grid, diagonal: bool, s: State): State
    requires |s.queue| > 0
  {
    var cur := s.queue[0];
    Expand(Pop(s), cur, Neighbors(g, cur.pos, diagonal))
  }

  /** The cells an expansion of the head enqueues: its walkable neighbours
      not visited yet, each once. */
  ghost predicate FreshOf(g: Grid, diagonal: bool, s: State, F: seq<Point>)
    requires |s.queue| > 0
  {
    Distinct(F) &&
    forall p :: p in F <==> Walkable(g, p) && Adjacent(s.queue[0].pos, p, diagonal) && p !in s.visited
  }

  /** What one iteration does, stated in terms of the fresh cells `F`. */
  ghost predicate StepOf(s: State, F: seq<Point>, r: State)
    requires |s.queue| > 0
  {
    var cur := s.queue[0];
    r.count == s.count + 1 &&
    (forall p :: p in r.visited <==> p in s.visited || p in F) &&
    r.queue == s.queue[1..] + Children(cur, F) &&
    r.events == s.events + [Current(cur.pos, s.count + 1)] + VisitedEvents(F) &&
    (forall p :: p in r.dist <==> p in s.dist || p in F) &&
    (forall p :: p in r.parent <==> p in s.parent || p in F) &&
    (forall p :: p in F ==> r.dist[p] == Depth(cur) + 1 && r.parent[p] == cur.pos) &&
    (forall p :: p in s.dist && p !in F ==> r.dist[p] == s.dist[p]) &&
    (forall p :: p in s.parent && p !in F ==> r.parent[p] == s.parent[p])
  }

  lemma StepIsStepOf(g: Grid, diagonal: bool, s: State)
    requires |s.queue| > 0
    ensures FreshOf(g, diagonal, s, Fresh(Neighbors(g, s.queue[0].pos, diagonal), s.visited))
    ensures StepOf(s, Fresh(Neighbors(g, s.queue[0].pos, diagonal), s.visited), Step(g, diagonal, s))
  {
    var cur := s.queue[0];
    var ns := Neighbors(g, cur.pos, diagonal);
    var F := Fresh(ns, s.visited);
    ExpandIsStepOf(s, Pop(s), cur, ns);
  }

  lemma ExpandIsStepOf(s: State, p: State, cur: Rec, ns: seq<Point>)
    requires |s.queue| > 0 && p == Pop(s) && cur == s.queue[0]
    ensures StepOf(s, Fresh(ns, s.visited), Expand(p, cur, ns))
  {
    assert p.visited == s.visited;
    ExpandQueue(p, cur, ns);
    ExpandTables(p, cur, ns);
  }

  // ------------------------------------------------------------ invariant

  /** The distance table covers the visited cells, which are walkable and
      include the start at distance 0. */
  ghost predicate Tables(g: Grid, start: Point, s: State, closed: set<Point>) {
    start in s.visited && s.dist.Keys == s.visited && s.dist[start] == 0 &&
    (forall v :: v in s.visited ==> Walkable(g, v)) &&
    closed <= s.visited
  }

  /** Every queued node carries a walk from the start to its cell whose
      length is the cell's recorded distance. */
  ghost predicate QueueValid(g: Grid, start: Point, diagonal: bool, s: State, closed: set<Point>) {
    forall i :: 0 <= i < |s.queue| ==>
      PathFromTo(g, Chain(s.queue[i]), start, s.queue[i].pos, diagonal) &&
      s.queue[i].pos in s.visited && s.queue[i].pos !in closed &&
      s.queue[i].pos in s.dist && s.dist[s.queue[i].pos] == Depth(s.queue[i])
  }

  /** The visited cells are the expanded ones and the queued ones, each
      queued once. */
  ghost predicate QueueCover(s: State, closed: set<Point>) {
    Distinct(Positions(s.queue)) &&
    (forall v :: v in s.visited && v !in closed ==> v in Positions(s.queue))
  }

  ghost predicate Frontier(g: Grid, start: Point, diagonal: bool, s: State, closed: set<Point>) {
    Tables(g, start, s, closed) && QueueValid(g, start, diagonal, s, closed) && QueueCover(s, closed)
  }

  /** `dist[v] == dist[parent[v]] + 1` for every visited cell but the start,
      whose parent is adjacent. */
  ghost predicate ParentLinks(start: Point, diagonal: bool, s: State) {
    s.dist.Keys == s.visited && start !in s.parent &&
    (forall v :: v in s.visited && v != start ==> v in s.parent) &&
    (forall v :: v in s.parent ==>
       v in s.visited && s.parent[v] in s.visited && Adjacent(s.parent[v], v, diagonal) &&
       s.dist[v] == s.dist[s.parent[v]] + 1)
  }

  /** Queue depths never decrease and span at most one level; expanded
      cells are no deeper than the head. */
  ghost predicate Layered(s: State, closed: set<Point>) {
    (forall i, j :: 0 <= i < j < |s.queue| ==> Depth(s.queue[i]) <= Depth(s.queue[j])) &&
    (forall j :: 0 <= j < |s.queue| ==> Depth(s.queue[j]) <= Depth(s.queue[0]) + 1) &&
    (forall c :: c in closed && c in s.dist && |s.queue| > 0 ==> s.dist[c] <= Depth(s.queue[0]))
  }

  /** Every neighbour of an expanded cell is visited, at most one step
      further away. */
  ghost predicate ClosedExpanded(g: Grid, diagonal: bool, s: State, closed: set<Point>) {
    forall c, n :: c in closed && Walkable(g, n) && Adjacent(c, n, diagonal) ==>
      n in s.visited && c in s.dist && n in s.dist && s.dist[n] <= s.dist[c] + 1
  }

  /** The events so far: progress only, `current` counts 1, 2, ..., and
      each cell but the start reported as visited at most once. */
  ghost predicate Reported(start: Point, s: State) {
    Progress(s.events) && Counts(s.events) == UpTo(s.count) &&
    Distinct(Pushed(s.events)) &&
    (forall p :: p in Pushed(s.events) ==> p in s.visited && p != start)
  }

  ghost predicate Inv(g: Grid, start: Point, goal: Option<Point>, diagonal: bool, s: State, closed: set<Point>) {
    Frontier(g, start, diagonal, s, closed) && ParentLinks(start, diagonal, s) &&
    Layered(s, closed) && ClosedExpanded(g, diagonal, s, closed) && Reported(start, s) &&
    (goal.Some? ==> goal.value !in closed)
  }

  lemma InitialInv(g: Grid, start: Point, goal: Option<Point>, diagonal: bool)
    requires Walkable(g, start)
    ensures Inv(g, start, goal, diagonal, Initial(start), {})
  {
    var s := Initial(start);
    assert Chain(s.queue[0]) == [start];
    assert s.events == [];
  }

  // ------------------------------------------------------------ one step

  lemma StepTables(g: Grid, start: Point, diagonal: bool, s: State, closed: set<Point>, F: seq<Point>, r: State)
    requires Tables(g, start, s, closed) && QueueValid(g, start, diagonal, s, closed) && |s.queue| > 0
    requires FreshOf(g, diagonal, s, F) && StepOf(s, F, r)
    ensures Tables(g, start, r, closed + {s.queue[0].pos})
  {
    assert r.dist.Keys == r.visited;
  }

  lemma StepQueue(g: Grid, start: Point, diagonal: bool, s: State, closed: set<Point>, F: seq<Point>, r: State)
    requires Tables(g, start, s, closed) && QueueValid(g, start, diagonal, s, closed)
    requires QueueCover(s, closed) && |s.queue| > 0
    requires FreshOf(g, diagonal, s, F) && StepOf(s, F, r)
    ensures QueueValid(g, start, diagonal, r, closed + {s.queue[0].pos})
  {
    var cur := s.queue[0];
    var n := |s.queue| - 1;
    forall i | 0 <= i < |r.queue|
      ensures PathFromTo(g, Chain(r.queue[i]), start, r.queue[i].pos, diagonal)
      ensures r.queue[i].pos in r.visited && r.queue[i].pos !in closed + {cur.pos}
      ensures r.queue[i].pos in r.dist && r.dist[r.queue[i].pos] == Depth(r.queue[i])
    {
      if i < n {
        assert r.queue[i] == s.queue[i + 1];
        assert Positions(s.queue)[i + 1] != Positions(s.queue)[0];
      } else {
        var f := F[i - n];
        assert r.queue[i] == Rec(f, Some(cur));
        ChildChain(g, cur, f, start, diagonal);
      }
    }
  }

  lemma StepDistinct(g: Grid, start: Point, diagonal: bool, s: State, closed: set<Point>, F: seq<Point>, r: State)
    requires Tables(g, start, s, closed) && QueueValid(g, start, diagonal, s, closed)
    requires Distinct(Positions(s.queue)) && |s.queue| > 0
    requires FreshOf(g, diagonal, s, F) && StepOf(s, F, r)
    ensures Distinct(Positions(r.queue))
  {
    var n := |s.queue| - 1;
    var rp := Positions(r.queue);
    forall i, j | 0 <= i < j < |rp|
      ensures rp[i] != rp[j]
    {
      if j < n {
        assert Positions(s.queue)[i + 1] != Positions(s.queue)[j + 1];
      } else if i < n {
        assert rp[i] == s.queue[i + 1].pos;
        assert rp[j] == F[j - n];
      } else {
        assert rp[i] == F[i - n] && rp[j] == F[j - n];
      }
    }
  }

  lemma StepCover(g: Grid, start: Point, diagonal: bool, s: State, closed: set<Point>, F: seq<Point>, r: State)
    requires QueueCover(s, closed) && |s.queue| > 0
    requires FreshOf(g, diagonal, s, F) && StepOf(s, F, r)
    ensures forall v :: v in r.visited && v !in closed + {s.queue[0].pos} ==> v in Positions(r.queue)
  {
    var cur := s.queue[0];
    var n := |s.queue| - 1;
    var rp := Positions(r.queue);
    forall v | v in r.visited && v !in closed + {cur.pos}
      ensures v in rp
    {
      if v in s.visited {
        var j :| 0 <= j < |s.queue| && Positions(s.queue)[j] == v;
        assert j != 0;
        assert rp[j - 1] == v;
      } else {
        var k :| 0 <= k < |F| && F[k] == v;
        assert rp[n + k] == v;
      }
    }
  }

  lemma StepParents(g: Grid, start: Point, diagonal: bool, s: State, F: seq<Point>, r: State)
    requires ParentLinks(start, diagonal, s) && start in s.visited && |s.queue| > 0
    requires s.queue[0].pos in s.visited && s.dist[s.queue[0].pos] == Depth(s.queue[0])
    requires FreshOf(g, diagonal, s, F) && StepOf(s, F, r)
    ensures ParentLinks(start, diagonal, r)
  {
    assert r.dist.Keys == r.visited;
  }

  lemma StepLayered(g: Grid, start: Point, diagonal: bool, s: State, closed: set<Point>, F: seq<Point>, r: State)
    requires QueueValid(g, start, diagonal, s, closed) && Layered(s, closed) && closed <= s.visited
    requires |s.queue| > 0 && FreshOf(g, diagonal, s, F) && StepOf(s, F, r)
    ensures Layered(r, closed + {s.queue[0].pos})
  {
    var cur := s.queue[0];
    var L := Depth(cur);
    var n := |s.queue| - 1;
    forall j | 0 <= j < |r.queue|
      ensures L <= Depth(r.queue[j]) <= L + 1
    {
      if j < n {
        assert r.queue[j] == s.queue[j + 1];
      } else {
        assert Chain(r.queue[j]) == Chain(cur) + [r.queue[j].pos];
      }
    }
    forall i, j | 0 <= i < j < |r.queue|
      ensures Depth(r.queue[i]) <= Depth(r.queue[j])
    {
      if j < n {
        assert r.queue[i] == s.queue[i + 1] && r.queue[j] == s.queue[j + 1];
      } else {
        assert Chain(r.queue[j]) == Chain(cur) + [r.queue[j].pos];
      }
    }
  }

  lemma StepClosed(g: Grid, start: Point, diagonal: bool, s: State, closed: set<Point>, F: seq<Point>, r: State)
    requires Tables(g, start, s, closed) && QueueValid(g, start, diagonal, s, closed)
    requires QueueCover(s, closed) && Layered(s, closed)
    requires ClosedExpanded(g, diagonal, s, closed)
    requires |s.queue| > 0 && FreshOf(g, diagonal, s, F) && StepOf(s, F, r)
    ensures ClosedExpanded(g, diagonal, r, closed + {s.queue[0].pos})
  {
    var cur := s.queue[0];
    forall c, n | c in closed + {cur.pos} && Walkable(g, n) && Adjacent(c, n, diagonal)
      ensures n in r.visited && c in r.dist && n in r.dist && r.dist[n] <= r.dist[c] + 1
    {
      if c == cur.pos && n in s.visited && n !in closed {
        var j :| 0 <= j < |s.queue| && Positions(s.queue)[j] == n;
        assert s.dist[n] == Depth(s.queue[j]);
      }
    }
  }

  lemma StepReported(g: Grid, start: Point, diagonal: bool, s: State, F: seq<Point>, r: State)
    requires Reported(start, s) && start in s.visited && |s.queue| > 0
    requires FreshOf(g, diagonal, s, F) && StepOf(s, F, r)
    ensures Reported(start, r)
  {
    var cur := s.queue[0];
    var e := Current(cur.pos, s.count + 1);
    ReportStep(s.events, e, F, s.count);
    var old_ := Pushed(s.events);
    assert Pushed(r.events) == old_ + F;
    forall i, j | 0 <= i < j < |old_ + F|
      ensures (old_ + F)[i] != (old_ + F)[j]
    {
      if j >= |old_| && i < |old_| {
        assert (old_ + F)[i] in s.visited;
        assert (old_ + F)[j] in F;
      }
    }
  }

  lemma StepPreserves(g: Grid, start: Point, goal: Option<Point>, diagonal: bool, s: State, closed: set<Point>)
    requires Inv(g, start, goal, diagonal, s, closed) && |s.queue| > 0
    requires goal != Some(s.queue[0].pos)
    ensures Inv(g, start, goal, diagonal, Step(g, diagonal, s), closed + {s.queue[0].pos})
  {
    var r := Step(g, diagonal, s);
    var F := Fresh(Neighbors(g, s.queue[0].pos, diagonal), s.visited);
    StepIsStepOf(g, diagonal, s);
    StepTables(g, start, diagonal, s, closed, F, r);
    StepQueue(g, start, diagonal, s, closed, F, r);
    StepDistinct(g, start, diagonal, s, closed, F, r);
    StepCover(g, start, diagonal, s, closed, F, r);
    StepParents(g, start, diagonal, s, F, r);
    StepLayered(g, start, diagonal, s, closed, F, r);
    StepClosed(g, start, diagonal, s, closed, F, r);
    StepReported(g, start, diagonal, s, F, r);
  }

  /** Each iteration visits a new walkable cell or shortens the queue. */
  lemma StepMeasure(g: Grid, start: Point, diagonal: bool, s: State, closed: set<Point>)
    requires Tables(g, start, s, closed) && |s.queue| > 0
    ensures Step(g, diagonal, s).visited <= WalkableCells(g)
    ensures |WalkableCells(g) - Step(g, diagonal, s).visited| < |WalkableCells(g) - s.visited|
         || (Step(g, diagonal, s).visited == s.visited && |Step(g, diagonal, s).queue| < |s.queue|)
  {
    StepIsStepOf(g, diagonal, s);
    MeasureOf(g, start, diagonal, s, closed, Fresh(Neighbors(g, s.queue[0].pos, diagonal), s.visited), Step(g, diagonal, s));
  }

  lemma MeasureOf(g: Grid, start: Point, diagonal: bool, s: State, closed: set<Point>, F: seq<Point>, r: State)
    requires Tables(g, start, s, closed) && |s.queue| > 0
    requires FreshOf(g, diagonal, s, F) && StepOf(s, F, r)
    ensures r.visited <= WalkableCells(g)
    ensures |WalkableCells(g) - r.visited| < |WalkableCells(g) - s.visited|
         || (r.visited == s.visited && |r.queue| < |s.queue|)
  {
    var W := WalkableCells(g);
    assert r.visited <= W;
    if |F| > 0 {
      assert F[0] in W - s.visited && F[0] !in W - r.visited;
      SubsetSmaller(W - r.visited, W - s.visited);
    } else {
      assert r.visited == s.visited;
    }
  }

  // ------------------------------------------------------------ outcomes

  /** The head of the queue is no further from the start than any
      unexpanded cell: in particular the goal, when it is taken off the
      queue, is at its shortest distance. */
  lemma HeadIsNearest(g: Grid, start: Point, diagonal: bool, s: State, closed: set<Point>, path: seq<Point>)
    requires Frontier(g, start, diagonal, s, closed) && Layered(s, closed)
    requires ClosedExpanded(g, diagonal, s, closed) && |s.queue| > 0
    requires IsPath(g, path, diagonal) && path[0] == start && path[|path| - 1] !in closed
    ensures Depth(s.queue[0]) <= |path| - 1
  {
    var L := Depth(s.queue[0]);
    var i := 0;
    NearestBase(g, start, diagonal, s, closed);
    while i < |path| - 1
      invariant 0 <= i <= |path| - 1
      invariant L <= i || (path[i] in closed && path[i] in s.dist && s.dist[path[i]] <= i)
    {
      if L > i {
        assert Adjacent(path[i], path[i + 1], diagonal) && Walkable(g, path[i + 1]);
        NearestStep(g, start, diagonal, s, closed, path[i], path[i + 1], i);
      }
      i := i + 1;
    }
  }

  lemma NearestBase(g: Grid, start: Point, diagonal: bool, s: State, closed: set<Point>)
    requires Frontier(g, start, diagonal, s, closed) && Layered(s, closed) && |s.queue| > 0
    ensures Depth(s.queue[0]) <= 0 || (start in closed && start in s.dist && s.dist[start] <= 0)
  {
    if start !in closed {
      var j :| 0 <= j < |s.queue| && Positions(s.queue)[j] == start;
      assert Depth(s.queue[0]) <= Depth(s.queue[j]);
    }
  }

  /** One more cell of a walk: either it is still expanded and near, or
      the head is within reach of it. */
  lemma NearestStep(g: Grid, start: Point, diagonal: bool, s: State, closed: set<Point>, a: Point, b: Point, i: int)
    requires Frontier(g, start, diagonal, s, closed) && Layered(s, closed)
    requires ClosedExpanded(g, diagonal, s, closed) && |s.queue| > 0
    requires a in closed && a in s.dist && s.dist[a] <= i && Walkable(g, b) && Adjacent(a, b, diagonal)
    ensures Depth(s.queue[0]) <= i + 1 || (b in closed && b in s.dist && s.dist[b] <= i + 1)
  {
    if b !in closed {
      var j :| 0 <= j < |s.queue| && Positions(s.queue)[j] == b;
      assert s.dist[b] == Depth(s.queue[j]);
      assert Depth(s.queue[0]) <= Depth(s.queue[j]);
    }
  }

  lemma GoalShortest(g: Grid, start: Point, goal: Point, diagonal: bool, s: State, closed: set<Point>)
    requires Frontier(g, start, diagonal, s, closed) && Layered(s, closed)
    requires ClosedExpanded(g, diagonal, s, closed) && |s.queue| > 0
    requires s.queue[0].pos == goal && goal !in closed
    ensures Shortest(g, Chain(s.queue[0]), start, goal, diagonal)
  {
    forall other | PathFromTo(g, other, start, goal, diagonal)
      ensures |Chain(s.queue[0])| <= |other|
    {
      HeadIsNearest(g, start, diagonal, s, closed, other);
    }
  }

  /** The walk that follows the parent table back from a visited cell. */
  lemma {:induction false} ParentWalk(g: Grid, start: Point, diagonal: bool, s: State, v: Point)
    returns (path: seq<Point>)
    requires ParentLinks(start, diagonal, s) && v in s.visited && start in s.dist && s.dist[start] == 0
    requires forall u :: u in s.visited ==> Walkable(g, u)
    ensures PathFromTo(g, path, start, v, diagonal) && |path| == s.dist[v] + 1
    decreases s.dist[v]
  {
    if v == start {
      path := [start];
    } else {
      var u := s.parent[v];
      var before := ParentWalk(g, start, diagonal, s, u);
      ExtendPath(g, before, v, diagonal);
      path := before + [v];
    }
  }

  /** Along any walk from the start over expanded cells the recorded
      distance grows by at most one per step. */
  lemma DistanceBelowSteps(g: Grid, start: Point, diagonal: bool, s: State, path: seq<Point>)
    requires Frontier(g, start, diagonal, s, s.visited) && ClosedExpanded(g, diagonal, s, s.visited)
    requires IsPath(g, path, diagonal) && path[0] == start
    ensures path[|path| - 1] in s.dist && s.dist[path[|path| - 1]] + 1 <= |path|
  {
    var i := 0;
    while i < |path| - 1
      invariant 0 <= i <= |path| - 1
      invariant path[i] in s.visited && s.dist[path[i]] <= i
    {
      assert Adjacent(path[i], path[i + 1], diagonal);
      i := i + 1;
    }
  }

  lemma ExhaustedExplored(g: Grid, start: Point, diagonal: bool, s: State, closed: set<Point>)
    requires Frontier(g, start, diagonal, s, closed) && ParentLinks(start, diagonal, s)
    requires ClosedExpanded(g, diagonal, s, closed) && |s.queue| == 0
    ensures closed == s.visited
    ensures Explored(g, start, diagonal, s.dist)
  {
    assert closed == s.visited;
    forall p | Reachable(g, start, p, diagonal)
      ensures p in s.dist
    {
      var path :| PathFromTo(g, path, start, p, diagonal);
      DistanceBelowSteps(g, start, diagonal, s, path);
    }
    forall p | p in s.dist
      ensures IsDistance(g, start, p, s.dist[p], diagonal)
    {
      var w := ParentWalk(g, start, diagonal, s, p);
      forall path | PathFromTo(g, path, start, p, diagonal)
        ensures s.dist[p] + 1 <= |path|
      {
        DistanceBelowSteps(g, start, diagonal, s, path);
      }
    }
  }

  // ------------------------------------------------------------ the engine

  /** The queue loop.  With a goal it stops when the goal is taken off the
      queue, with the node that reached it; without one it runs until the
      queue is empty. */
  method Search(g: Grid, start: Point, goal: Option<Point>, diagonal: bool)
    returns (found: Option<Rec>, s: State)
    requires Walkable(g, start)
    ensures found.Some? ==> goal.Some? && Shortest(g, Chain(found.value), start, goal.value, diagonal)
    ensures found.None? && goal.Some? ==> !Reachable(g, start, goal.value, diagonal)
    ensures goal.None? ==> found.None? && Explored(g, start, diagonal, s.dist)
    ensures ParentLinks(start, diagonal, s) && start in s.dist && s.dist[start] == 0
    ensures Counts(s.events) == UpTo(s.count)
    ensures Distinct(Pushed(s.events)) && start !in Pushed(s.events)
    ensures found.Some? ==> Finished(s.events, Some(Chain(found.value)), s.count)
    ensures found.None? ==> Progress(s.events)
  {
    s := Initial(start);
    ghost var closed: set<Point> := {};
    InitialInv(g, start, goal, diagonal);
    while |s.queue| > 0
      invariant Inv(g, start, goal, diagonal, s, closed)
      invariant s.visited <= WalkableCells(g)
      decreases |WalkableCells(g) - s.visited|, |s.queue|
    {
      var cur := s.queue[0];
      if goal == Some(cur.pos) {
        GoalShortest(g, start, cur.pos, diagonal, s, closed);
        FoundReported(start, s);
        found, s := Some(cur), Found(s);
        return;
      }
      StepPreserves(g, start, goal, diagonal, s, closed);
      StepMeasure(g, start, diagonal, s, closed);
      s, closed := Step(g, diagonal, s), closed + {cur.pos};
    }
    found := None;
    ExhaustedExplored(g, start, diagonal, s, closed);
    if goal.Some? {
      ClosedSetBlocks(g, closed, start, goal.value, diagonal);
    }
  }

  /** The state after the goal node is taken off the queue and the path
      is reported. */
  function Found(s: State): State
    requires |s.queue| > 0
  {
    var p := Pop(s);
    var path := Chain(s.queue[0]);
    p.(events := p.events + [PathFound(path), Complete(path, p.count)])
  }

  lemma FoundReported(start: Point, s: State)
    requires Reported(start, s) && |s.queue| > 0
    ensures Counts(Found(s).events) == UpTo(Found(s).count)
    ensures Distinct(Pushed(Found(s).events)) && start !in Pushed(Found(s).events)
    ensures Finished(Found(s).events, Some(Chain(s.queue[0])), Found(s).count)
  {
    var path := Chain(s.queue[0]);
    var e := Current(s.queue[0].pos, s.count + 1);
    ReportStep(s.events, e, [], s.count);
    var p := s.events + [e] + VisitedEvents([]);
    assert VisitedEvents([]) == [];
    var tail := [PathFound(path), Complete(path, s.count + 1)];
    AppendEvents(p, tail);
    QuietEvents(tail);
    assert Found(s).events == p + tail;
    assert (p + tail)[..|p + tail| - 2] == p;
  }

  // ------------------------------------------------------------ the entry points

  /** `findPathBFS`: a shortest walk from start to goal, and no walk exactly
      when the goal cannot be reached, which includes an endpoint that is a
      wall or off the grid. */
  method FindPathBFS(g: Grid, start: Point, goal: Point, diagonal: bool) returns (path: Option<seq<Point>>)
    ensures path.None? <==> !Reachable(g, start, goal, diagonal)
    ensures path.Some? ==> Shortest(g, path.value, start, goal, diagonal)
    ensures !Walkable(g, start) || !Walkable(g, goal) ==> path.None?
  {
    ReachableWalkable(g, start, goal, diagonal);
    if !Walkable(g, start) || !Walkable(g, goal) {
      return None;
    }
    var found, s := Search(g, start, Some(goal), diagonal);
    if found.Some? {
      path := Some(Chain(found.value));
    } else {
      path := None;
    }
  }

  /** `bfsAll`: the distance and parent tables.  A cell is in `dist` (the
      table's entry is not -1) exactly when it is reachable, with its
      shortest distance; `dist[v] == dist[parent[v]] + 1` for every other
      reached cell than the start.  A blocked start leaves both tables
      empty. */
  method BfsAll(g: Grid, start: Point, diagonal: bool) returns (dist: map<Point, nat>, parent: map<Point, Point>)
    ensures !Walkable(g, start) ==> dist == map[] && parent == map[]
    ensures Walkable(g, start) ==> Explored(g, start, diagonal, dist) && start in dist && dist[start] == 0
    ensures start !in parent
    ensures forall v :: v in dist && v != start ==> v in parent
    ensures forall v :: v in parent ==>
      v in dist && parent[v] in dist && Adjacent(parent[v], v, diagonal) && dist[v] == dist[parent[v]] + 1
  {
    if !Walkable(g, start) {
      return map[], map[];
    }
    var found, s := Search(g, start, None, diagonal);
    dist, parent := s.dist, s.parent;
  }

  /** The visualizer's `findPathBFS` generator: the events it yields and the
      path its `'path'` event carries.  A blocked endpoint yields one error
      and nothing else; otherwise the `'current'` counts run 1, 2, ..., each
      cell gets at most one `'visited'` event, and the run ends with the
      shortest path or with the not-found error when there is none. */
  method BfsEvents(g: Grid, start: Point, goal: Point, diagonal: bool)
    returns (events: seq<Event>, path: Option<seq<Point>>)
    ensures !Walkable(g, start) || !Walkable(g, goal) ==> events == [Error(EndpointBlocked)] && path.None?
    ensures Walkable(g, start) && Walkable(g, goal) ==>
      Finished(events, path, |Counts(events)|) && Counts(events) == UpTo(|Counts(events)|)
    ensures path.None? <==> !Reachable(g, start, goal, diagonal)
    ensures path.Some? ==> Shortest(g, path.value, start, goal, diagonal)
    ensures Distinct(Pushed(events)) && start !in Pushed(events)
  {
    ReachableWalkable(g, start, goal, diagonal);
    if !Walkable(g, start) || !Walkable(g, goal) {
      QuietEvents([Error(EndpointBlocked)]);
      return [Error(EndpointBlocked)], None;
    }
    var found, s := Search(g, start, Some(goal), diagonal);
    if found.Some? {
      events, path := s.events, Some(Chain(found.value));
    } else {
      events, path := s.events + [Error(NoPath)], None;
      AppendEvents(s.events, [Error(NoPath)]);
      QuietEvents([Error(NoPath)]);
      assert events[..|events| - 1] == s.events;
    }
  }
}
