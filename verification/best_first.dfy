/** The search loop shared by A* (`findPath` of `project_ts/src/index.ts`,
    `findPathHeap` of `project_ts/src/astar_heap.ts`), Dijkstra
    (`findPathDijkstra` and `dijkstraAll` of `project_ts/src/dijkstra.ts`)
    and the visualizer's Dijkstra and A* generators, in 4-neighbour mode,
    where every step costs 1.

    A cell's best known cost (`gScore`) only falls.  Each improvement pushes
    a new node; an older node for the same cell stays on the open list and
    is skipped when it comes off (`current.gCost !== gScore[y][x]`).  The
    node taken off is one of least `f = g + h`, with `h` the Manhattan
    distance to the goal for A* and 0 for Dijkstra.  Because that estimate
    never drops by more than the cost of a step, the first node taken off
    for a cell already has the cell's least cost. */
module BestFirst {
  import opened Wrappers
  import opened Grid
  import opened Events
  import BinaryHeap

  /** A search node: its record (cell and parent chain) and `gCost`. */
  datatype Node = Node(rec: Rec, g: nat)

  type Item = BinaryHeap.Item<Node>

  /** How the open list is kept: an array scanned for the first node of
      least `f` and spliced out (`findPath`), or a binary heap ordered by
      `f`, with ties going to the larger `g` when `deeperFirst`
      (`findPathHeap` and the A* generator) and left to the heap otherwise
      (Dijkstra). */
  datatype Discipline = Scan | Heap(deeperFirst: bool)

  /** One search: the grid, the start, the cell to stop at (none for
      `dijkstraAll`), the cell the estimate aims at (none for Dijkstra),
      the open list, and whether a node whose cell is already closed is
      dropped before the cost test (`dijkstraAll`). */
  datatype Setup = Setup(g: Grid, start: Point, stopAt: Option<Point>, toward: Option<Point>,
                         disc: Discipline, skipClosed: bool)

  /** `heuristic(p, goal, false)` for A*; 0 for Dijkstra. */
  function Estimate(c: Setup, p: Point): nat {
    match c.toward
    case None => 0
    case Some(t) => Manhattan(p, t)
  }

  /** `fCost`. */
  function F(c: Setup, n: Node): nat {
    n.g + Estimate(c, n.rec.pos)
  }

  /** The comparator's view of a node. */
  function KeyOf(c: Setup, n: Node): BinaryHeap.Key {
    if c.disc == Heap(true) then BinaryHeap.Key(F(c, n), -(n.g as int)) else BinaryHeap.Key(F(c, n), 0)
  }

  function ItemOf(c: Setup, n: Node): Item {
    BinaryHeap.Item(n, KeyOf(c, n))
  }

  /** The comparator of `findPathHeap`: smaller `f` first, and on equal `f`
      the larger `g`. */
  lemma DeeperFirst(c: Setup, a: Node, b: Node)
    requires c.disc == Heap(true)
    ensures BinaryHeap.Less(KeyOf(c, a), KeyOf(c, b)) <==>
      F(c, a) < F(c, b) || (F(c, a) == F(c, b) && a.g > b.g)
  {
  }

  /** Between neighbours the estimate changes by at most one step, and it is
      0 at the cell it aims at. */
  lemma EstimateStep(c: Setup, a: Point, b: Point)
    requires Adjacent(a, b, false)
    ensures Estimate(c, a) <= Estimate(c, b) + 1 && Estimate(c, b) <= Estimate(c, a) + 1
    ensures c.toward == Some(a) ==> Estimate(c, a) == 0
  {
  }

  /** Along a walk, the estimate at a cell is at most the steps left plus
      the estimate at the walk's end: the estimate never overshoots. */
  lemma {:induction false} EstimateAlong(c: Setup, g: Grid, path: seq<Point>, i: nat)
    requires IsPath(g, path, false) && i < |path|
    ensures Estimate(c, path[i]) <= |path| - 1 - i + Estimate(c, path[|path| - 1])
    decreases |path| - i
  {
    if i < |path| - 1 {
      EstimateAlong(c, g, path, i + 1);
      EstimateStep(c, path[i], path[i + 1]);
    }
  }

  // ------------------------------------------------------------ open list

  ghost predicate WellKept(c: Setup, open: seq<Item>) {
    c.disc.Heap? ==> BinaryHeap.IsHeap(open)
  }

  /** `open.push`. */
  function Put(c: Setup, open: seq<Item>, n: Node): (r: seq<Item>)
    requires WellKept(c, open)
    ensures WellKept(c, r)
    ensures multiset(r) == multiset(open) + multiset{ItemOf(c, n)}
    ensures c.disc.Scan? ==> r == open + [ItemOf(c, n)]
  {
    if c.disc.Scan? then open + [ItemOf(c, n)] else BinaryHeap.Push(open, ItemOf(c, n))
  }

  /** The scan of `findPath` from index `i` on: the index of the first node
      of least `f`, replaced only by a strictly smaller `f`. */
  function ScanFrom(open: seq<Item>, i: nat, best: nat): (r: nat)
    requires best < i <= |open|
    requires forall j :: 0 <= j < i ==> open[best].key.primary <= open[j].key.primary
    requires forall j :: 0 <= j < best ==> open[best].key.primary < open[j].key.primary
    ensures r < |open|
    ensures forall j :: 0 <= j < |open| ==> open[r].key.primary <= open[j].key.primary
    ensures forall j :: 0 <= j < r ==> open[r].key.primary < open[j].key.primary
    decreases |open| - i
  {
    if i == |open| then best
    else ScanFrom(open, i + 1, if open[i].key.primary < open[best].key.primary then i else best)
  }

  /** `open.splice(bestIdx, 1)[0]` or `open.pop()`: a node of least `f` and
      the list without it. */
  function Take(c: Setup, open: seq<Item>): (res: (Item, seq<Item>))
    requires |open| > 0 && WellKept(c, open)
    ensures WellKept(c, res.1) && |res.1| == |open| - 1
    ensures multiset(res.1) + multiset{res.0} == multiset(open)
    ensures forall x :: x in open ==> res.0.key.primary <= x.key.primary
  {
    if c.disc.Scan? then
      var i := ScanFrom(open, 1, 0);
      assert open == open[..i] + [open[i]] + open[i + 1..];
      (open[i], open[..i] + open[i + 1..])
    else
      BinaryHeap.Pop(open).value
  }

  // ------------------------------------------------------------ the loop

  /** The loop state: the node of each cell's latest improvement (its `g`
      is `gScore`, its parent is `dijkstraAll`'s `parent` entry), the closed
      cells, the open list, the events yielded so far and `visitedCount`. */
  datatype State = State(best: map<Point, Node>, closed: set<Point>, open: seq<Item>,
                         events: seq<Event>, count: nat)

  function StartNode(c: Setup): Node {
    Node(Rec(c.start, None), 0)
  }

  function Initial(c: Setup): State {
    State(map[c.start := StartNode(c)], {}, [ItemOf(c, StartNode(c))], [], 0)
  }

  /** The node carries the cell's current best cost. */
  predicate Live(best: map<Point, Node>, n: Node) {
    n.rec.pos in best && best[n.rec.pos].g == n.g
  }

  /** A node the loop drops: its cell is closed (`dijkstraAll` only) or it
      is stale. */
  predicate Skipped(c: Setup, s: State, n: Node) {
    (c.skipClosed && n.rec.pos in s.closed) || !Live(s.best, n)
  }

  /** Recording a cheaper node for its cell, pushing it and reporting it. */
  function Improve(c: Setup, s: State, n: Node): State
    requires WellKept(c, s.open)
  {
    s.(best := s.best[n.rec.pos := n], open := Put(c, s.open, n),
       events := s.events + [Visited(n.rec.pos)])
  }

  /** Whether going through `cur` improves the cell `nb`: it is not closed
      and the step beats its cost so far (none counts as infinite). */
  predicate Improves(s: State, cur: Node, nb: Point) {
    nb !in s.closed && (nb !in s.best || cur.g + 1 < s.best[nb].g)
  }

  function ChildOf(cur: Node, nb: Point): Node {
    Node(Rec(nb, Some(cur.rec)), cur.g + 1)
  }

  /** The neighbour loop. */
  function Relax(c: Setup, s: State, cur: Node, ns: seq<Point>): (r: State)
    requires WellKept(c, s.open)
    ensures WellKept(c, r.open)
    decreases |ns|
  {
    if |ns| == 0 then s
    else if Improves(s, cur, ns[0]) then Relax(c, Improve(c, s, ChildOf(cur, ns[0])), cur, ns[1..])
    else Relax(c, s, cur, ns[1..])
  }

  /** Closing the cell of a live node taken off the list and reporting it
      with the incremented count. */
  function Close(s: State, rest: seq<Item>, n: Node): State {
    s.(closed := s.closed + {n.rec.pos}, open := rest,
       events := s.events + [Current(n.rec.pos, s.count + 1)], count := s.count + 1)
  }

  /** One iteration that does not end the search. */
  function Step(c: Setup, s: State): State
    requires |s.open| > 0 && WellKept(c, s.open)
  {
    var (top, rest) := Take(c, s.open);
    if Skipped(c, s, top.value) then s.(open := rest)
    else Relax(c, Close(s, rest, top.value), top.value, Neighbors(c.g, top.value.rec.pos, false))
  }

  /** The state after the goal's live node comes off: reported as
      `'current'`, then the path and the completion event. */
  function Found(s: State, rest: seq<Item>, n: Node): State {
    var v := Close(s, rest, n);
    v.(events := v.events + [PathFound(Chain(n.rec)), Complete(Chain(n.rec), v.count)])
  }

  // ------------------------------------------------------------ invariant

  /** The node's chain is a walk from the start with one step per unit of
      cost. */
  ghost predicate NodeOk(c: Setup, n: Node) {
    PathFromTo(c.g, Chain(n.rec), c.start, n.rec.pos, false) && |Chain(n.rec)| == n.g + 1
  }

  /** No walk from the start to `p` has fewer than `d` steps. */
  ghost predicate Optimal(c: Setup, p: Point, d: nat) {
    forall path :: PathFromTo(c.g, path, c.start, p, false) ==> d + 1 <= |path|
  }

  /** The best-node table: valid nodes, filed under their own cells, the
      start at cost 0; every closed cell has one. */
  ghost predicate Table(c: Setup, best: map<Point, Node>, closed: set<Point>) {
    c.start in best && best[c.start].g == 0 &&
    (forall p :: p in best ==> best[p].rec.pos == p && NodeOk(c, best[p])) &&
    closed <= best.Keys
  }

  /** Every node on the open list is keyed, valid, and no cheaper than its
      cell's best. */
  ghost predicate OpenNodes(c: Setup, best: map<Point, Node>, open: seq<Item>) {
    forall it :: it in open ==>
      it == ItemOf(c, it.value) && NodeOk(c, it.value) &&
      it.value.rec.pos in best && best[it.value.rec.pos].g <= it.value.g
  }

  /** A live node on the list is its cell's best node, occurs once, and its
      cell is not closed. */
  ghost predicate OpenLive(best: map<Point, Node>, closed: set<Point>, open: seq<Item>) {
    forall it :: it in open && Live(best, it.value) ==>
      it.value == best[it.value.rec.pos] && it.value.rec.pos !in closed &&
      multiset(open)[it] == 1
  }

  /** Each cell with a best node that is not closed has it on the list. */
  ghost predicate OpenCovers(c: Setup, best: map<Point, Node>, closed: set<Point>, open: seq<Item>) {
    forall p :: p in best && p !in closed ==> ItemOf(c, best[p]) in open
  }

  /** A closed cell's cost is final: no walk reaches it in fewer steps. */
  ghost predicate OptimalClosed(c: Setup, best: map<Point, Node>, closed: set<Point>) {
    forall p :: p in closed && p in best ==> Optimal(c, p, best[p].g)
  }

  /** The cells of `K` have been expanded: each walkable neighbour is closed
      or has a best cost at most one more. */
  ghost predicate Relaxed(c: Setup, best: map<Point, Node>, closed: set<Point>, K: set<Point>) {
    forall v, n :: v in K && v in best && Walkable(c.g, n) && Adjacent(v, n, false) ==>
      n in closed || (n in best && best[n].g <= best[v].g + 1)
  }

  /** The events so far: progress only, one `'current'` per closed cell with
      the counts 1, 2, .... */
  ghost predicate Reported(s: State) {
    Progress(s.events) && Counts(s.events) == UpTo(s.count) &&
    Distinct(Expanded(s.events)) && |Expanded(s.events)| == s.count &&
    (forall p :: p in Expanded(s.events) <==> p in s.closed)
  }

  ghost predicate OpenOk(c: Setup, s: State) {
    WellKept(c, s.open) && OpenNodes(c, s.best, s.open) && OpenLive(s.best, s.closed, s.open) &&
    OpenCovers(c, s.best, s.closed, s.open)
  }

  ghost predicate Inv(c: Setup, s: State) {
    Table(c, s.best, s.closed) && OpenOk(c, s) && OptimalClosed(c, s.best, s.closed) &&
    Relaxed(c, s.best, s.closed, s.closed) && Reported(s) &&
    (c.stopAt.Some? ==> c.stopAt.value !in s.closed)
  }

  lemma InitialInv(c: Setup)
    requires Walkable(c.g, c.start)
    ensures Inv(c, Initial(c))
  {
    var s := Initial(c);
    assert Chain(StartNode(c).rec) == [c.start];
    assert multiset(s.open)[ItemOf(c, StartNode(c))] == 1;
  }

  // ------------------------------------------------------------ closing

  /** The index of the first cell of `path` outside `S`. */
  function FirstOutside(path: seq<Point>, S: set<Point>): (i: nat)
    requires |path| > 0 && path[|path| - 1] !in S
    ensures i < |path| && path[i] !in S && forall j :: 0 <= j < i ==> path[j] in S
    decreases |path|
  {
    if path[0] !in S then 0 else 1 + FirstOutside(path[1..], S)
  }

  /** Along a walk from the start, the first cell that is not closed
      already has a best cost no larger than its position on the walk. */
  lemma FrontierCost(c: Setup, best: map<Point, Node>, closed: set<Point>, path: seq<Point>, i: nat)
    requires Table(c, best, closed) && OptimalClosed(c, best, closed) && Relaxed(c, best, closed, closed)
    requires IsPath(c.g, path, false) && path[0] == c.start
    requires i < |path| && path[i] !in closed && forall j :: 0 <= j < i ==> path[j] in closed
    ensures path[i] in best && best[path[i]].g <= i
  {
    if i > 0 {
      var v := path[i - 1];
      var pre := path[..i];
      assert IsPath(c.g, pre, false) && pre[|pre| - 1] == v;
      assert v in closed && Optimal(c, v, best[v].g);
      assert Adjacent(v, path[i], false);
    }
  }

  /** The node taken off the list, when live, has its cell's least cost. */
  lemma CloseOptimal(c: Setup, s: State, top: Item)
    requires Table(c, s.best, s.closed) && OptimalClosed(c, s.best, s.closed)
    requires Relaxed(c, s.best, s.closed, s.closed)
    requires OpenLive(s.best, s.closed, s.open) && OpenCovers(c, s.best, s.closed, s.open)
    requires top in s.open && top == ItemOf(c, top.value) && Live(s.best, top.value)
    requires forall x :: x in s.open ==> top.key.primary <= x.key.primary
    ensures Optimal(c, top.value.rec.pos, top.value.g)
  {
    var n := top.value;
    var p := n.rec.pos;
    assert p !in s.closed;
    forall path | PathFromTo(c.g, path, c.start, p, false)
      ensures n.g + 1 <= |path|
    {
      if |path| < n.g + 1 {
        var i := FirstOutside(path, s.closed);
        var u := path[i];
        FrontierCost(c, s.best, s.closed, path, i);
        EstimateAlong(c, c.g, path, i);
        assert false;
      }
    }
  }

  // ------------------------------------------------------------ improving a cell

  /** The condition under which the relax loop records `n`: its cell is not
      closed and `n` beats the cell's cost so far. */
  predicate Better(best: map<Point, Node>, closed: set<Point>, n: Node) {
    n.rec.pos !in closed && (n.rec.pos in best ==> n.g < best[n.rec.pos].g)
  }

  lemma ImproveTable(c: Setup, best: map<Point, Node>, closed: set<Point>, n: Node)
    requires Table(c, best, closed) && NodeOk(c, n) && Better(best, closed, n)
    ensures Table(c, best[n.rec.pos := n], closed)
  {
  }

  lemma ImproveNodes(c: Setup, best: map<Point, Node>, closed: set<Point>, open: seq<Item>, n: Node, open': seq<Item>)
    requires OpenNodes(c, best, open) && NodeOk(c, n) && Better(best, closed, n)
    requires multiset(open') == multiset(open) + multiset{ItemOf(c, n)}
    ensures multiset(open)[ItemOf(c, n)] == 0
    ensures OpenNodes(c, best[n.rec.pos := n], open')
  {
    var x := ItemOf(c, n);
    if x in open {
      assert false;
    }
    var best' := best[n.rec.pos := n];
    forall it: Item | it in open'
      ensures it == ItemOf(c, it.value) && NodeOk(c, it.value)
      ensures it.value.rec.pos in best' && best'[it.value.rec.pos].g <= it.value.g
    {
      assert it in multiset(open');
      if it != x {
        assert it in multiset(open);
      }
    }
  }

  /** Closed cells keep their nodes, so their costs stay final. */
  lemma ImproveOptimal(c: Setup, best: map<Point, Node>, closed: set<Point>, n: Node)
    requires OptimalClosed(c, best, closed) && Better(best, closed, n)
    ensures OptimalClosed(c, best[n.rec.pos := n], closed)
  {
    var best' := best[n.rec.pos := n];
    forall p | p in closed && p in best'
      ensures Optimal(c, p, best'[p].g)
    {
      assert best'[p] == best[p];
    }
  }

  /** Lowering one open cell's cost keeps the expanded cells relaxed. */
  lemma ImproveRelaxed(c: Setup, best: map<Point, Node>, closed: set<Point>, K: set<Point>, n: Node)
    requires Relaxed(c, best, closed, K) && K <= closed && Better(best, closed, n)
    ensures Relaxed(c, best[n.rec.pos := n], closed, K)
  {
    var best' := best[n.rec.pos := n];
    forall v, q | v in K && v in best' && Walkable(c.g, q) && Adjacent(v, q, false)
      ensures q in closed || (q in best' && best'[q].g <= best'[v].g + 1)
    {
      assert v in best && best'[v] == best[v];
    }
  }

  lemma ImproveLive(c: Setup, best: map<Point, Node>, closed: set<Point>, open: seq<Item>, n: Node, open': seq<Item>)
    requires OpenNodes(c, best, open) && OpenLive(best, closed, open) && Better(best, closed, n)
    requires multiset(open)[ItemOf(c, n)] == 0
    requires multiset(open') == multiset(open) + multiset{ItemOf(c, n)}
    ensures OpenLive(best[n.rec.pos := n], closed, open')
  {
    var x := ItemOf(c, n);
    var best' := best[n.rec.pos := n];
    forall it: Item | it in open' && Live(best', it.value)
      ensures it.value == best'[it.value.rec.pos] && it.value.rec.pos !in closed
      ensures multiset(open')[it] == 1
    {
      assert it in multiset(open');
      if it != x {
        assert it in multiset(open);
        assert it.value.rec.pos != n.rec.pos;
      }
    }
  }

  lemma ImproveCovers(c: Setup, best: map<Point, Node>, closed: set<Point>, open: seq<Item>, n: Node, open': seq<Item>)
    requires OpenCovers(c, best, closed, open) && n.rec.pos !in closed
    requires multiset(open') == multiset(open) + multiset{ItemOf(c, n)}
    ensures OpenCovers(c, best[n.rec.pos := n], closed, open')
  {
    var best' := best[n.rec.pos := n];
    forall p | p in best' && p !in closed
      ensures ItemOf(c, best'[p]) in open'
    {
      if p == n.rec.pos {
        assert ItemOf(c, n) in multiset(open');
      } else {
        assert ItemOf(c, best[p]) in multiset(open);
        assert ItemOf(c, best[p]) in multiset(open');
      }
    }
  }

  /** A `'visited'` event adds no count, no expansion and no error. */
  lemma VisitedQuiet(ev: seq<Event>, p: Point)
    ensures Counts(ev + [Visited(p)]) == Counts(ev) && Expanded(ev + [Visited(p)]) == Expanded(ev)
    ensures Progress(ev) ==> Progress(ev + [Visited(p)])
  {
    assert (ev + [Visited(p)])[..|ev|] == ev;
  }

  /** What one improvement keeps. */
  ghost predicate Kept(c: Setup, s: State, K: set<Point>) {
    Table(c, s.best, s.closed) && OpenOk(c, s) && OptimalClosed(c, s.best, s.closed) &&
    Relaxed(c, s.best, s.closed, K) && K <= s.closed
  }

  lemma ImproveKeeps(c: Setup, s: State, cur: Node, nb: Point, K: set<Point>)
    requires Kept(c, s, K) && NodeOk(c, cur)
    requires Walkable(c.g, nb) && Adjacent(cur.rec.pos, nb, false) && Improves(s, cur, nb)
    ensures var r := Improve(c, s, ChildOf(cur, nb));
      Kept(c, r, K) && r.closed == s.closed && r.count == s.count &&
      (forall q :: q in s.closed ==> r.best[q] == s.best[q]) &&
      nb in r.best && r.best[nb].g <= cur.g + 1 &&
      (forall q :: q in s.best ==> q in r.best && r.best[q].g <= s.best[q].g) &&
      Counts(r.events) == Counts(s.events) && Expanded(r.events) == Expanded(s.events) &&
      (Progress(s.events) ==> Progress(r.events))
  {
    var n := ChildOf(cur, nb);
    var r := Improve(c, s, n);
    ChildChain(c.g, cur.rec, nb, c.start, false);
    assert NodeOk(c, n);
    assert Better(s.best, s.closed, n);
    ImproveTable(c, s.best, s.closed, n);
    ImproveNodes(c, s.best, s.closed, s.open, n, r.open);
    ImproveLive(c, s.best, s.closed, s.open, n, r.open);
    ImproveCovers(c, s.best, s.closed, s.open, n, r.open);
    ImproveOptimal(c, s.best, s.closed, n);
    ImproveRelaxed(c, s.best, s.closed, K, n);
    VisitedQuiet(s.events, nb);
    assert OpenOk(c, r);
  }

  /** What the relax loop changes: costs only fall, closed cells keep
      their nodes, and the events gain no count and no expansion. */
  ghost predicate Lowered(s: State, r: State) {
    r.closed == s.closed && r.count == s.count &&
    (forall q :: q in s.closed && q in s.best ==> q in r.best && r.best[q] == s.best[q]) &&
    (forall q :: q in s.best ==> q in r.best && r.best[q].g <= s.best[q].g) &&
    Counts(r.events) == Counts(s.events) && Expanded(r.events) == Expanded(s.events) &&
    (Progress(s.events) ==> Progress(r.events))
  }

  lemma LoweredTrans(a: State, b: State, d: State)
    requires Lowered(a, b) && Lowered(b, d)
    ensures Lowered(a, d)
  {
  }

  /** Each cell of `ns` is closed or costs at most one more than `cur`. */
  ghost predicate Reaches(r: State, cur: Node, ns: seq<Point>) {
    forall q :: q in ns ==> q in r.closed || (q in r.best && r.best[q].g <= cur.g + 1)
  }

  lemma ReachesCons(s: State, r: State, cur: Node, ns: seq<Point>)
    requires |ns| > 0 && Lowered(s, r) && Reaches(r, cur, ns[1..])
    requires ns[0] in s.closed || (ns[0] in s.best && s.best[ns[0]].g <= cur.g + 1)
    ensures Reaches(r, cur, ns)
  {
    forall q | q in ns
      ensures q in r.closed || (q in r.best && r.best[q].g <= cur.g + 1)
    {
      if q != ns[0] {
        assert q in ns[1..];
      }
    }
  }

  /** The relax loop keeps the invariant's parts, only lowers costs, leaves
      closed cells alone, adds only `'visited'` events, and leaves each
      listed neighbour closed or at a cost at most one more than `cur`'s. */
  lemma {:induction false} RelaxKeeps(c: Setup, s: State, cur: Node, ns: seq<Point>, K: set<Point>)
    requires Kept(c, s, K) && NodeOk(c, cur)
    requires forall q :: q in ns ==> Walkable(c.g, q) && Adjacent(cur.rec.pos, q, false)
    ensures Kept(c, Relax(c, s, cur, ns), K)
    ensures Lowered(s, Relax(c, s, cur, ns))
    ensures Reaches(Relax(c, s, cur, ns), cur, ns)
    decreases |ns|
  {
    var r := Relax(c, s, cur, ns);
    if |ns| > 0 {
      var nb := ns[0];
      if Improves(s, cur, nb) {
        var s1 := Improve(c, s, ChildOf(cur, nb));
        ImproveKeeps(c, s, cur, nb, K);
        assert Lowered(s, s1);
        assert r == Relax(c, s1, cur, ns[1..]);
        RelaxKeeps(c, s1, cur, ns[1..], K);
        LoweredTrans(s, s1, r);
        ReachesCons(s1, r, cur, ns);
      } else {
        assert r == Relax(c, s, cur, ns[1..]);
        RelaxKeeps(c, s, cur, ns[1..], K);
        ReachesCons(s, r, cur, ns);
      }
    }
  }

  // ------------------------------------------------------------ one step

  /** What taking `top` off leaves on the list. */
  lemma TakeSub(open: seq<Item>, top: Item, rest: seq<Item>)
    requires multiset(rest) + multiset{top} == multiset(open)
    ensures top in open
    ensures forall it :: it in rest ==> it in open && multiset(rest)[it] <= multiset(open)[it]
    ensures multiset(rest)[top] == multiset(open)[top] - 1
    ensures forall it :: it in open && it != top ==> it in rest
  {
    assert top in multiset(open);
    forall it: Item | it in rest
      ensures it in open && multiset(rest)[it] <= multiset(open)[it]
    {
      assert it in multiset(rest);
      assert multiset(open)[it] == multiset(rest)[it] + multiset{top}[it];
    }
    forall it: Item | it in open && it != top
      ensures it in rest
    {
      assert it in multiset(open);
    }
  }

  lemma TakeNodes(c: Setup, best: map<Point, Node>, open: seq<Item>, top: Item, rest: seq<Item>)
    requires OpenNodes(c, best, open) && multiset(rest) + multiset{top} == multiset(open)
    ensures OpenNodes(c, best, rest)
  {
    TakeSub(open, top, rest);
  }

  /** Dropping a stale node, or one whose cell is closed. */
  lemma SkipStep(c: Setup, s: State, top: Item, rest: seq<Item>)
    requires Inv(c, s) && WellKept(c, rest) && multiset(rest) + multiset{top} == multiset(s.open)
    requires Skipped(c, s, top.value)
    ensures Inv(c, s.(open := rest))
  {
    TakeSub(s.open, top, rest);
    TakeNodes(c, s.best, s.open, top, rest);
    assert !Live(s.best, top.value);
    forall p | p in s.best && p !in s.closed
      ensures ItemOf(c, s.best[p]) in rest
    {
      assert ItemOf(c, s.best[p]) != top;
    }
    forall it: Item | it in rest && Live(s.best, it.value)
      ensures multiset(rest)[it] == 1
    {
      assert it in multiset(rest);
    }
  }

  /** Closing the cell of a live node: the cell is new, its cost final. */
  lemma CloseKeeps(c: Setup, s: State, top: Item, rest: seq<Item>)
    requires Inv(c, s) && WellKept(c, rest) && multiset(rest) + multiset{top} == multiset(s.open)
    requires forall x :: x in s.open ==> top.key.primary <= x.key.primary
    requires !Skipped(c, s, top.value)
    ensures var n := top.value;
      n == s.best[n.rec.pos] && n.rec.pos !in s.closed && NodeOk(c, n) &&
      Optimal(c, n.rec.pos, n.g)
    ensures Kept(c, Close(s, rest, top.value), s.closed) && Reported(Close(s, rest, top.value))
  {
    var n := top.value;
    TakeSub(s.open, top, rest);
    CloseOptimal(c, s, top);
    assert OpenOk(c, Close(s, rest, n)) by {
      CloseOpenOk(c, s, top, rest);
    }
    CloseReported(s, rest, n);
  }

  /** Closing the popped node leaves the rest of the heap in order. */
  lemma CloseOpenOk(c: Setup, s: State, top: Item, rest: seq<Item>)
    requires Inv(c, s) && WellKept(c, rest) && multiset(rest) + multiset{top} == multiset(s.open)
    requires forall x :: x in s.open ==> top.key.primary <= x.key.primary
    requires !Skipped(c, s, top.value)
    ensures OpenOk(c, Close(s, rest, top.value))
  {
    var n := top.value;
    var p := n.rec.pos;
    var v := Close(s, rest, n);
    TakeSub(s.open, top, rest);
    TakeNodes(c, s.best, s.open, top, rest);
    CloseOptimal(c, s, top);
    forall it: Item | it in rest && Live(v.best, it.value)
      ensures it.value == v.best[it.value.rec.pos] && it.value.rec.pos !in v.closed
      ensures multiset(rest)[it] == 1
    {
      assert it in multiset(rest);
      if it.value.rec.pos == p {
        assert false;
      }
    }
    forall q | q in v.best && q !in v.closed
      ensures ItemOf(c, v.best[q]) in rest
    {
      assert ItemOf(c, s.best[q]) != top;
    }
  }

  lemma CloseReported(s: State, rest: seq<Item>, n: Node)
    requires Reported(s) && n.rec.pos !in s.closed
    ensures Reported(Close(s, rest, n))
  {
    var e := Current(n.rec.pos, s.count + 1);
    ReportStep(s.events, e, [], s.count);
    assert s.events + [e] + VisitedEvents([]) == s.events + [e];
    var ex := Expanded(s.events) + [n.rec.pos];
    forall i, j | 0 <= i < j < |ex|
      ensures ex[i] != ex[j]
    {
      if j == |ex| - 1 {
        assert ex[i] in Expanded(s.events);
      }
    }
  }

  /** After closing `p` and relaxing its neighbours, `p` counts as
      expanded. */
  lemma RelaxedAfter(c: Setup, r: State, K: set<Point>, p: Point, pg: nat)
    requires Relaxed(c, r.best, r.closed, K) && p in r.best && r.best[p].g == pg
    requires forall q :: Walkable(c.g, q) && Adjacent(p, q, false) ==>
      q in r.closed || (q in r.best && r.best[q].g <= pg + 1)
    ensures Relaxed(c, r.best, r.closed, K + {p})
  {
  }

  lemma StepPreserves(c: Setup, s: State)
    requires Inv(c, s) && |s.open| > 0
    requires var top := Take(c, s.open).0;
      Skipped(c, s, top.value) || Some(top.value.rec.pos) != c.stopAt
    ensures Inv(c, Step(c, s))
  {
    var (top, rest) := Take(c, s.open);
    if Skipped(c, s, top.value) {
      SkipStep(c, s, top, rest);
    } else {
      var n := top.value;
      var p := n.rec.pos;
      var v := Close(s, rest, n);
      CloseKeeps(c, s, top, rest);
      var ns := Neighbors(c.g, p, false);
      RelaxKeeps(c, v, n, ns, s.closed);
      var r := Relax(c, v, n, ns);
      assert r == Step(c, s);
      RelaxedAfter(c, r, s.closed, p, n.g);
      assert s.closed + {p} == r.closed;
    }
  }

  /** Each iteration closes a new walkable cell or shortens the open list. */
  lemma StepMeasure(c: Setup, s: State)
    requires Inv(c, s) && |s.open| > 0
    ensures s.closed <= WalkableCells(c.g)
    ensures |WalkableCells(c.g) - Step(c, s).closed| < |WalkableCells(c.g) - s.closed|
         || (Step(c, s).closed == s.closed && |Step(c, s).open| < |s.open|)
  {
    var (top, rest) := Take(c, s.open);
    var W := WalkableCells(c.g);
    assert s.closed <= W by {
      forall q | q in s.closed
        ensures q in W
      {
        assert NodeOk(c, s.best[q]);
      }
    }
    if !Skipped(c, s, top.value) {
      var n := top.value;
      CloseKeeps(c, s, top, rest);
      var v := Close(s, rest, n);
      RelaxKeeps(c, v, n, Neighbors(c.g, n.rec.pos, false), s.closed);
      assert n.rec.pos in W - s.closed;
      assert Step(c, s).closed == s.closed + {n.rec.pos};
      SubsetSmaller(W - Step(c, s).closed, W - s.closed);
    }
  }

  /** The events of a run that takes the goal's live node off the list. */
  lemma FoundEvents(s: State, rest: seq<Item>, n: Node)
    requires Reported(s) && n.rec.pos !in s.closed
    ensures var f := Found(s, rest, n);
      Counts(f.events) == UpTo(f.count) && Distinct(Expanded(f.events)) &&
      Finished(f.events, Some(Chain(n.rec)), f.count)
  {
    var v := Close(s, rest, n);
    CloseReported(s, rest, n);
    var path := Chain(n.rec);
    var tail := [PathFound(path), Complete(path, v.count)];
    AppendEvents(v.events, tail);
    QuietEvents(tail);
    var all := v.events + tail;
    assert all[..|all| - 2] == v.events;
  }

  /** With the open list empty, the closed cells are exactly the cells
      reachable from the start, each at its least number of steps. */
  lemma Exhausted(c: Setup, s: State)
    requires Inv(c, s) && |s.open| == 0
    ensures s.best.Keys == s.closed
    ensures c.stopAt.Some? ==> c.stopAt.value !in s.best
    ensures forall p :: p in s.best <==> Reachable(c.g, c.start, p, false)
    ensures forall p :: p in s.best ==> IsDistance(c.g, c.start, p, s.best[p].g, false)
  {
    forall p | p in s.best
      ensures p in s.closed
    {
      if p !in s.closed {
        assert false;
      }
    }
    forall w, q | w in s.closed && Walkable(c.g, q) && Adjacent(w, q, false)
      ensures q in s.closed
    {
    }
    forall p
      ensures p in s.best <==> Reachable(c.g, c.start, p, false)
    {
      if p in s.best {
        assert PathFromTo(c.g, Chain(s.best[p].rec), c.start, p, false);
      } else {
        ClosedSetBlocks(c.g, s.closed, c.start, p, false);
      }
    }
    forall p | p in s.best
      ensures IsDistance(c.g, c.start, p, s.best[p].g, false)
    {
      assert PathFromTo(c.g, Chain(s.best[p].rec), c.start, p, false);
    }
  }

  /** The goal's live node, when it comes off the list, carries a
      shortest walk. */
  lemma GoalShortest(c: Setup, s: State, top: Item, rest: seq<Item>)
    requires Inv(c, s) && WellKept(c, rest) && multiset(rest) + multiset{top} == multiset(s.open)
    requires forall x :: x in s.open ==> top.key.primary <= x.key.primary
    requires !Skipped(c, s, top.value)
    ensures var n := top.value;
      Shortest(c.g, Chain(n.rec), c.start, n.rec.pos, false) && |Chain(n.rec)| == n.g + 1
    ensures var f := Found(s, rest, top.value);
      Counts(f.events) == UpTo(f.count) && Distinct(Expanded(f.events)) &&
      Finished(f.events, Some(Chain(top.value.rec)), f.count)
  {
    CloseKeeps(c, s, top, rest);
    FoundEvents(s, rest, top.value);
  }

  /** With the list empty, the best costs are the distances of the cells
      reachable from the start and a goal left unclosed is unreachable. */
  lemma ExhaustedResult(c: Setup, best: map<Point, Node>)
    requires forall p :: p in best <==> Reachable(c.g, c.start, p, false)
    requires forall p :: p in best ==> IsDistance(c.g, c.start, p, best[p].g, false)
    requires c.stopAt.Some? ==> c.stopAt.value !in best
    ensures Explored(c.g, c.start, false, map p | p in best :: best[p].g)
    ensures c.stopAt.Some? ==> !Reachable(c.g, c.start, c.stopAt.value, false)
  {
    var dist := map p | p in best :: best[p].g;
    forall p
      ensures p in dist <==> Reachable(c.g, c.start, p, false)
    {
      assert p in dist <==> p in best;
    }
    forall p | p in dist
      ensures IsDistance(c.g, c.start, p, dist[p], false)
    {
      assert dist[p] == best[p].g;
    }
  }

  // ------------------------------------------------------------ the engine

  /** The loop.  With a goal it stops when the goal's live node comes off
      the list, with that node; otherwise it runs until the list is empty. */
  method Run(c: Setup) returns (found: Option<Node>, s: State)
    requires Walkable(c.g, c.start)
    ensures found.Some? ==>
      c.stopAt.Some? && found.value.rec.pos == c.stopAt.value &&
      Shortest(c.g, Chain(found.value.rec), c.start, c.stopAt.value, false) &&
      |Chain(found.value.rec)| == found.value.g + 1
    ensures found.None? ==> Explored(c.g, c.start, false, map p | p in s.best :: s.best[p].g)
    ensures found.None? && c.stopAt.Some? ==> !Reachable(c.g, c.start, c.stopAt.value, false)
    ensures found.None? ==> forall p :: p in s.best ==> NodeOk(c, s.best[p]) && s.best[p].rec.pos == p
    ensures found.None? ==> c.start in s.best && s.best[c.start].g == 0
    ensures Counts(s.events) == UpTo(s.count) && Distinct(Expanded(s.events))
    ensures found.Some? ==> Finished(s.events, Some(Chain(found.value.rec)), s.count)
    ensures found.None? ==> Progress(s.events)
  {
    s := Initial(c);
    InitialInv(c);
    while |s.open| > 0
      invariant Inv(c, s)
      decreases |WalkableCells(c.g) - s.closed|, |s.open|
    {
      var (top, rest) := Take(c, s.open);
      if !Skipped(c, s, top.value) && c.stopAt == Some(top.value.rec.pos) {
        GoalShortest(c, s, top, rest);
        found, s := Some(top.value), Found(s, rest, top.value);
        return;
      }
      StepPreserves(c, s);
      StepMeasure(c, s);
      s := Step(c, s);
    }
    found := None;
    Exhausted(c, s);
    ExhaustedResult(c, s.best);
  }
}
