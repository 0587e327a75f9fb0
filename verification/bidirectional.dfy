/** Bidirectional breadth-first search: `findPathBidirectional` and
    `bidirectionalAll` of `project_ts/src/bidirectional-search.ts`, and the
    `findPathBidirectional` generator of
    `pathfinding-visualizer/additional-algorithms.js`.

    Two queues take turns, one grown from the start and one from the goal.
    Each side marks a cell when it enqueues it and remembers the node it
    came from; a node taken off one queue whose cell the other side has
    marked is the meeting point.  The TypeScript function and the generator
    run the same loop (`Loop`) and differ only in how they rebuild the path
    from the meeting point. */
module Bidirectional {
  import opened Wrappers
  import opened Grid
  import opened Events
  import VisitOnPop
  import Bfs

  // ------------------------------------------------------------ one side

  /** One side of the search: the marked cells (`visitedFrom*`), the node
      each marked cell other than the root was reached from
      (`parentFrom*`), the queue, every cell ever enqueued in order, and
      the cells taken off the queue so far.  The last two are bookkeeping
      of the model; the source keeps neither. */
  datatype Side = Side(visited: set<Point>, parent: map<Point, Rec>, queue: seq<Rec>,
                       log: seq<Point>, closed: set<Point>)

  function Begin(root: Point): Side {
    Side({root}, map[], [Rec(root, None)], [root], {})
  }

  /** Taking the head node off the queue. */
  function Take(s: Side): Side
    requires |s.queue| > 0
  {
    s.(queue := s.queue[1..], closed := s.closed + {s.queue[0].pos})
  }

  /** Marking an unmarked neighbour `n` of `cur`, recording `cur` as its
      parent and enqueuing its node. */
  function Mark(s: Side, cur: Rec, n: Point): Side {
    s.(visited := s.visited + {n}, parent := s.parent[n := cur],
       queue := s.queue + [Rec(n, Some(cur))], log := s.log + [n])
  }

  /** The neighbour loop of one side. */
  function Expand(s: Side, cur: Rec, ns: seq<Point>): Side
    decreases |ns|
  {
    if |ns| == 0 then s
    else if ns[0] in s.visited then Expand(s, cur, ns[1..])
    else Expand(Mark(s, cur, ns[0]), cur, ns[1..])
  }

  /** The neighbour loop marks and enqueues exactly the fresh neighbours,
      in order, and closes nothing. */
  lemma ExpandQueue(s: Side, cur: Rec, ns: seq<Point>)
    ensures var r := Expand(s, cur, ns); var F := Bfs.Fresh(ns, s.visited);
      r.closed == s.closed &&
      (forall p :: p in r.visited <==> p in s.visited || p in ns) &&
      r.queue == s.queue + Bfs.Children(cur, F) && r.log == s.log + F
  {
    ExpandMarks(s, cur, ns);
    ExpandOrder(s, cur, ns);
    ExpandLog(s, cur, ns);
  }

  /** The neighbour loop marks every neighbour and closes nothing. */
  lemma {:induction false} ExpandMarks(s: Side, cur: Rec, ns: seq<Point>)
    ensures var r := Expand(s, cur, ns);
      r.closed == s.closed && (forall p :: p in r.visited <==> p in s.visited || p in ns)
    decreases |ns|
  {
    if |ns| > 0 {
      if ns[0] in s.visited {
        ExpandMarks(s, cur, ns[1..]);
      } else {
        ExpandMarks(Mark(s, cur, ns[0]), cur, ns[1..]);
      }
    }
  }

  /** The neighbour loop appends the fresh neighbours' nodes, in order, to
      the queue. */
  lemma {:induction false} ExpandOrder(s: Side, cur: Rec, ns: seq<Point>)
    ensures Expand(s, cur, ns).queue == s.queue + Bfs.Children(cur, Bfs.Fresh(ns, s.visited))
    decreases |ns|
  {
    if |ns| > 0 {
      var n := ns[0];
      if n in s.visited {
        ExpandOrder(s, cur, ns[1..]);
      } else {
        var s' := Mark(s, cur, n);
        ExpandOrder(s', cur, ns[1..]);
        var F' := Bfs.Fresh(ns[1..], s'.visited);
        assert Bfs.Fresh(ns, s.visited) == [n] + F';
        assert Bfs.Children(cur, [n] + F') == [Rec(n, Some(cur))] + Bfs.Children(cur, F');
        assert s.queue + [Rec(n, Some(cur))] + Bfs.Children(cur, F') == s.queue + Bfs.Children(cur, [n] + F');
      }
    }
  }

  /** The neighbour loop appends the fresh neighbours, in order, to the
      log. */
  lemma {:induction false} ExpandLog(s: Side, cur: Rec, ns: seq<Point>)
    ensures Expand(s, cur, ns).log == s.log + Bfs.Fresh(ns, s.visited)
    decreases |ns|
  {
    if |ns| > 0 {
      var n := ns[0];
      if n in s.visited {
        ExpandLog(s, cur, ns[1..]);
      } else {
        var s' := Mark(s, cur, n);
        ExpandLog(s', cur, ns[1..]);
        var F' := Bfs.Fresh(ns[1..], s'.visited);
        assert Bfs.Fresh(ns, s.visited) == [n] + F';
        assert s.log + [n] + F' == s.log + ([n] + F');
      }
    }
  }

  /** The neighbour loop links each fresh neighbour, and only those, to
      `cur`. */
  lemma {:induction false} ExpandParent(s: Side, cur: Rec, ns: seq<Point>)
    ensures var r := Expand(s, cur, ns); var F := Bfs.Fresh(ns, s.visited);
      (forall p :: p in r.parent <==> p in s.parent || p in F) &&
      (forall p :: p in F ==> r.parent[p] == cur) &&
      (forall p :: p in s.parent && p !in F ==> r.parent[p] == s.parent[p])
    decreases |ns|
  {
    if |ns| > 0 {
      var n := ns[0];
      if n in s.visited {
        ExpandParent(s, cur, ns[1..]);
      } else {
        ExpandParent(Mark(s, cur, n), cur, ns[1..]);
      }
    }
  }

  /** What one side knows: its root is marked and has no parent; every
      other marked cell has a parent node, a walk from the root to a closed
      cell next to it; every queued node is a walk from the root to its
      cell; the log lists the marked cells, each once. */
  ghost predicate Tables(g: Grid, root: Point, diagonal: bool, s: Side) {
    root in s.visited && root !in s.parent &&
    (forall p :: p in s.visited <==> p == root || p in s.parent) &&
    (forall p :: p in s.visited ==> Walkable(g, p)) &&
    (forall p {:trigger s.parent[p]} :: p in s.parent ==>
       PathFromTo(g, Chain(s.parent[p]), root, s.parent[p].pos, diagonal) &&
       Adjacent(s.parent[p].pos, p, diagonal) && s.parent[p].pos in s.closed) &&
    (forall r :: r in s.queue ==> PathFromTo(g, Chain(r), root, r.pos, diagonal)) &&
    Distinct(s.log) && (forall p :: p in s.log <==> p in s.visited)
  }

  /** The queue holds each marked but not yet closed cell once; every
      closed cell has all its walkable neighbours marked; before the first
      node is taken off, the queue holds only the root. */
  ghost predicate Frontier(g: Grid, root: Point, diagonal: bool, s: Side) {
    Distinct(Bfs.Positions(s.queue)) &&
    (forall r :: r in s.queue ==> r.pos in s.visited && r.pos !in s.closed) &&
    (forall p :: p in s.visited ==> p in s.closed || p in Bfs.Positions(s.queue)) &&
    s.closed <= s.visited &&
    (forall p, q :: p in s.closed && Walkable(g, q) && Adjacent(p, q, diagonal) ==> q in s.visited) &&
    (s.closed == {} ==> s.queue == [Rec(root, None)]) &&
    (s.closed != {} ==> root in s.closed)
  }

  lemma BeginInv(g: Grid, root: Point, diagonal: bool)
    requires Walkable(g, root)
    ensures Tables(g, root, diagonal, Begin(root)) && Frontier(g, root, diagonal, Begin(root))
  {
    var s := Begin(root);
    assert Bfs.Positions(s.queue) == [root];
    assert PathFromTo(g, Chain(Rec(root, None)), root, root, diagonal);
  }

  /** The cell marked on a side lies on a walk from its root: the chain of
      its parent node followed by the cell itself. */
  function NodeAt(s: Side, p: Point): Rec {
    Rec(p, if p in s.parent then Some(s.parent[p]) else None)
  }

  lemma NodeAtWalk(g: Grid, root: Point, diagonal: bool, s: Side, p: Point)
    requires Tables(g, root, diagonal, s) && p in s.visited
    ensures PathFromTo(g, Chain(NodeAt(s, p)), root, p, diagonal)
  {
    if p in s.parent {
      ChildChain(g, s.parent[p], p, root, diagonal);
    } else {
      assert p == root;
    }
  }

  // ------------------------------------------------------------ one half-step

  /** The side after its head node is taken off and expanded. */
  function Half(g: Grid, diagonal: bool, s: Side): Side
    requires |s.queue| > 0
  {
    var cur := s.queue[0];
    Expand(Take(s), cur, Neighbors(g, cur.pos, diagonal))
  }

  /** The head node of a side lies on a walk from its root; its cell is
      marked and not closed yet. */
  lemma HeadFacts(g: Grid, root: Point, diagonal: bool, s: Side)
    requires Tables(g, root, diagonal, s) && Frontier(g, root, diagonal, s) && |s.queue| > 0
    ensures PathFromTo(g, Chain(s.queue[0]), root, s.queue[0].pos, diagonal)
    ensures s.queue[0].pos in s.visited && s.queue[0].pos !in s.closed
    ensures Walkable(g, s.queue[0].pos)
  {
    assert s.queue[0] in s.queue;
  }

  /** Taking the head off keeps the tables. */
  lemma TakeTables(g: Grid, root: Point, diagonal: bool, s: Side)
    requires Tables(g, root, diagonal, s) && |s.queue| > 0
    ensures Tables(g, root, diagonal, Take(s))
  {
    forall r | r in Take(s).queue
      ensures PathFromTo(g, Chain(r), root, r.pos, diagonal)
    {
      assert r in s.queue;
    }
  }

  /** The parent links after a half-step: the fresh neighbours of the head
      point at the head, the other links are as before. */
  lemma HalfParents(g: Grid, root: Point, diagonal: bool, s: Side)
    requires Tables(g, root, diagonal, s) && Frontier(g, root, diagonal, s) && |s.queue| > 0
    ensures var r := Half(g, diagonal, s);
      forall p {:trigger r.parent[p]} :: p in r.parent ==>
        PathFromTo(g, Chain(r.parent[p]), root, r.parent[p].pos, diagonal) &&
        Adjacent(r.parent[p].pos, p, diagonal) && r.parent[p].pos in r.closed
  {
    var cur := s.queue[0];
    HeadFacts(g, root, diagonal, s);
    var t := Take(s);
    var ns := Neighbors(g, cur.pos, diagonal);
    var r := Half(g, diagonal, s);
    var F := Bfs.Fresh(ns, t.visited);
    ExpandQueue(t, cur, ns);
    ExpandParent(t, cur, ns);
    forall p | p in r.parent
      ensures PathFromTo(g, Chain(r.parent[p]), root, r.parent[p].pos, diagonal) &&
        Adjacent(r.parent[p].pos, p, diagonal) && r.parent[p].pos in r.closed
    {
      if p in F {
        assert r.parent[p] == cur && p in ns;
      } else {
        assert r.parent[p] == s.parent[p];
      }
    }
  }

  /** Every node queued after a half-step is a walk from the root. */
  lemma HalfQueueWalks(g: Grid, root: Point, diagonal: bool, s: Side)
    requires Tables(g, root, diagonal, s) && Frontier(g, root, diagonal, s) && |s.queue| > 0
    ensures var r := Half(g, diagonal, s);
      forall x :: x in r.queue ==> PathFromTo(g, Chain(x), root, x.pos, diagonal)
  {
    var cur := s.queue[0];
    HeadFacts(g, root, diagonal, s);
    var t := Take(s);
    var ns := Neighbors(g, cur.pos, diagonal);
    var r := Half(g, diagonal, s);
    var F := Bfs.Fresh(ns, t.visited);
    ExpandQueue(t, cur, ns);
    forall x | x in r.queue
      ensures PathFromTo(g, Chain(x), root, x.pos, diagonal)
    {
      var k :| 0 <= k < |r.queue| && r.queue[k] == x;
      if k < |t.queue| {
        assert x == s.queue[k + 1] && s.queue[k + 1] in s.queue;
      } else {
        var n := F[k - |t.queue|];
        assert x == Rec(n, Some(cur)) && n in ns;
        ChildChain(g, cur, n, root, diagonal);
      }
    }
  }

  /** After a half-step the log still lists the marked cells, each once. */
  lemma HalfLog(g: Grid, root: Point, diagonal: bool, s: Side)
    requires Tables(g, root, diagonal, s) && Frontier(g, root, diagonal, s) && |s.queue| > 0
    ensures var r := Half(g, diagonal, s);
      Distinct(r.log) && (forall p :: p in r.log <==> p in r.visited)
  {
    var cur := s.queue[0];
    var t := Take(s);
    var ns := Neighbors(g, cur.pos, diagonal);
    ExpandLog(t, cur, ns);
    ExpandMarks(t, cur, ns);
    DistinctConcat(s.log, Bfs.Fresh(ns, s.visited));
  }

  /** A half-step keeps the tables of its side. */
  lemma HalfTables(g: Grid, root: Point, diagonal: bool, s: Side)
    requires Tables(g, root, diagonal, s) && Frontier(g, root, diagonal, s) && |s.queue| > 0
    ensures Tables(g, root, diagonal, Half(g, diagonal, s))
  {
    var cur := s.queue[0];
    var t := Take(s);
    var ns := Neighbors(g, cur.pos, diagonal);
    ExpandQueue(t, cur, ns);
    ExpandParent(t, cur, ns);
    HalfParents(g, root, diagonal, s);
    HalfQueueWalks(g, root, diagonal, s);
    HalfLog(g, root, diagonal, s);
  }

  /** The cells queued after a half-step are distinct. */
  lemma HalfQueueDistinct(g: Grid, root: Point, diagonal: bool, s: Side)
    requires Tables(g, root, diagonal, s) && Frontier(g, root, diagonal, s) && |s.queue| > 0
    ensures Distinct(Bfs.Positions(Half(g, diagonal, s).queue))
  {
    var P0 := Bfs.Positions(s.queue);
    var F := Bfs.Fresh(Neighbors(g, s.queue[0].pos, diagonal), s.visited);
    HalfPositions(g, diagonal, s);
    DistinctTail(P0);
    assert forall x :: x in P0[1..] ==> x !in F by {
      QueuedMarked(s);
    }
    DistinctConcat(P0[1..], F);
  }

  /** Every queued cell is marked. */
  lemma QueuedMarked(s: Side)
    requires forall r :: r in s.queue ==> r.pos in s.visited
    ensures forall x :: x in Bfs.Positions(s.queue) ==> x in s.visited
  {
    forall x | x in Bfs.Positions(s.queue)
      ensures x in s.visited
    {
      var k :| 0 <= k < |s.queue| && Bfs.Positions(s.queue)[k] == x;
      assert s.queue[k] in s.queue;
    }
  }

  /** The cells queued after a half-step are marked and open. */
  lemma HalfQueueOpen(g: Grid, root: Point, diagonal: bool, s: Side)
    requires Tables(g, root, diagonal, s) && Frontier(g, root, diagonal, s) && |s.queue| > 0
    ensures var r := Half(g, diagonal, s);
      forall x :: x in r.queue ==> x.pos in r.visited && x.pos !in r.closed
  {
    var cur := s.queue[0];
    HeadFacts(g, root, diagonal, s);
    var t := Take(s);
    var ns := Neighbors(g, cur.pos, diagonal);
    var r := Half(g, diagonal, s);
    var F := Bfs.Fresh(ns, t.visited);
    ExpandQueue(t, cur, ns);
    var P0 := Bfs.Positions(s.queue);
    forall x | x in r.queue
      ensures x.pos in r.visited && x.pos !in r.closed
    {
      var k :| 0 <= k < |r.queue| && r.queue[k] == x;
      if k < |t.queue| {
        assert x == s.queue[k + 1] && s.queue[k + 1] in s.queue;
        assert P0[k + 1] != P0[0];
      } else {
        assert x.pos == F[k - |t.queue|];
      }
    }
  }

  /** The cells queued after a half-step: those behind the head, then the
      head's fresh neighbours in order. */
  lemma HalfPositions(g: Grid, diagonal: bool, s: Side)
    requires |s.queue| > 0
    ensures Bfs.Positions(Half(g, diagonal, s).queue) ==
      Bfs.Positions(s.queue)[1..] + Bfs.Fresh(Neighbors(g, s.queue[0].pos, diagonal), s.visited)
  {
    var cur := s.queue[0];
    var t := Take(s);
    var ns := Neighbors(g, cur.pos, diagonal);
    ExpandOrder(t, cur, ns);
    var P := Bfs.Positions(Half(g, diagonal, s).queue);
    var F := Bfs.Fresh(ns, s.visited);
    var A := Bfs.Positions(s.queue)[1..] + F;
    var n := |t.queue|;
    forall k | 0 <= k < |P|
      ensures P[k] == A[k]
    {
      if k < n {
        assert P[k] == s.queue[k + 1].pos;
      } else {
        assert P[k] == F[k - n];
      }
    }
  }

  /** After a half-step every marked cell is closed or queued. */
  lemma HalfCovered(g: Grid, root: Point, diagonal: bool, s: Side)
    requires Frontier(g, root, diagonal, s) && |s.queue| > 0
    ensures var r := Half(g, diagonal, s);
      forall p :: p in r.visited ==> p in r.closed || p in Bfs.Positions(r.queue)
  {
    var cur := s.queue[0];
    var t := Take(s);
    var ns := Neighbors(g, cur.pos, diagonal);
    var r := Half(g, diagonal, s);
    var F := Bfs.Fresh(ns, s.visited);
    var P0 := Bfs.Positions(s.queue);
    ExpandMarks(t, cur, ns);
    HalfPositions(g, diagonal, s);
    assert r.closed == s.closed + {cur.pos};
    forall p | p in r.visited
      ensures p in r.closed || p in P0[1..] + F
    {
      if p in s.closed || p == cur.pos {
      } else if p in s.visited {
        CoveredBehindHead(P0, p);
      } else {
        assert p in F;
      }
    }
  }

  /** A queued cell other than the head's lies behind the head. */
  lemma CoveredBehindHead(P0: seq<Point>, p: Point)
    requires |P0| > 0 && p in P0 && p != P0[0]
    ensures p in P0[1..]
  {
    var k :| 0 <= k < |P0| && P0[k] == p;
    assert P0[1..][k - 1] == p;
  }

  /** A half-step keeps the frontier of its side, closing the head's cell
      and marking its walkable neighbours. */
  lemma HalfFrontier(g: Grid, root: Point, diagonal: bool, s: Side)
    requires Tables(g, root, diagonal, s) && Frontier(g, root, diagonal, s) && |s.queue| > 0
    ensures Frontier(g, root, diagonal, Half(g, diagonal, s))
    ensures Half(g, diagonal, s).closed == s.closed + {s.queue[0].pos}
    ensures forall p :: p in Half(g, diagonal, s).visited <==>
      p in s.visited || (Walkable(g, p) && Adjacent(s.queue[0].pos, p, diagonal))
  {
    var cur := s.queue[0];
    var r := Half(g, diagonal, s);
    assert Distinct(Bfs.Positions(r.queue)) by {
      HalfQueueDistinct(g, root, diagonal, s);
    }
    assert forall x :: x in r.queue ==> x.pos in r.visited && x.pos !in r.closed by {
      HalfQueueOpen(g, root, diagonal, s);
    }
    assert forall p :: p in r.visited ==> p in r.closed || p in Bfs.Positions(r.queue) by {
      HalfCovered(g, root, diagonal, s);
    }
    HalfMarks(g, root, diagonal, s);
  }

  /** A half-step closes the head's cell and marks exactly its walkable
      neighbours, so every closed cell keeps its neighbours marked and the
      root is closed from then on. */
  lemma HalfMarks(g: Grid, root: Point, diagonal: bool, s: Side)
    requires Frontier(g, root, diagonal, s) && |s.queue| > 0
    ensures var r := Half(g, diagonal, s);
      r.closed == s.closed + {s.queue[0].pos} &&
      (forall p :: p in r.visited <==> p in s.visited || (Walkable(g, p) && Adjacent(s.queue[0].pos, p, diagonal))) &&
      (forall p, q :: p in r.closed && Walkable(g, q) && Adjacent(p, q, diagonal) ==> q in r.visited) &&
      root in r.closed
  {
    var cur := s.queue[0];
    var ns := Neighbors(g, cur.pos, diagonal);
    ExpandMarks(Take(s), cur, ns);
    if s.closed == {} {
      assert cur == Rec(root, None);
    }
  }

  // ------------------------------------------------------------ the loop

  /** One search: the grid, the two endpoints and the neighbour mode. */
  datatype Setup = Setup(g: Grid, start: Point, goal: Point, diagonal: bool)

  /** The loop state: the start side, the goal side, the events yielded so
      far and `visitedCount`. */
  datatype State = State(fs: Side, fg: Side, events: seq<Event>, count: nat)

  /** Which side took the meeting node off its queue, and that node. */
  datatype Meeting = AtStart(cur: Rec) | AtGoal(cur: Rec)

  function Initial(c: Setup): State {
    State(Begin(c.start), Begin(c.goal), [], 0)
  }

  /** The `'current'` event of a node taken off a queue. */
  function Report(st: State, p: Point): State {
    st.(events := st.events + [Current(p, st.count + 1)], count := st.count + 1)
  }

  /** The start side's half of an iteration that does not meet. */
  function StepStart(c: Setup, st: State): State
    requires |st.fs.queue| > 0
  {
    var cur := st.fs.queue[0];
    var F := Bfs.Fresh(Neighbors(c.g, cur.pos, c.diagonal), st.fs.visited);
    var r := Report(st, cur.pos);
    r.(fs := Half(c.g, c.diagonal, st.fs), events := r.events + VisitedEvents(F))
  }

  /** The goal side's half of an iteration that does not meet. */
  function StepGoal(c: Setup, st: State): State
    requires |st.fg.queue| > 0
  {
    var cur := st.fg.queue[0];
    var F := Bfs.Fresh(Neighbors(c.g, cur.pos, c.diagonal), st.fg.visited);
    var r := Report(st, cur.pos);
    r.(fg := Half(c.g, c.diagonal, st.fg), events := r.events + VisitedEvents(F))
  }

  /** No cell one side has closed is marked by the other.  A side closes
      only cells the other has not marked, and it marks only neighbours of
      a cell the other has not marked, which cannot be neighbours of a cell
      the other has closed. */
  ghost predicate Apart(a: Side, b: Side) {
    (forall p :: p in a.visited ==> p !in b.closed) &&
    (forall p :: p in b.visited ==> p !in a.closed)
  }

  ghost predicate Reported(st: State) {
    Progress(st.events) && Counts(st.events) == UpTo(st.count)
  }

  ghost predicate Inv(c: Setup, st: State) {
    Tables(c.g, c.start, c.diagonal, st.fs) && Frontier(c.g, c.start, c.diagonal, st.fs) &&
    Tables(c.g, c.goal, c.diagonal, st.fg) && Frontier(c.g, c.goal, c.diagonal, st.fg) &&
    Apart(st.fs, st.fg) && (st.fs.closed == {} <==> st.fg.closed == {}) && Reported(st)
  }

  lemma InitialInv(c: Setup)
    requires Walkable(c.g, c.start) && Walkable(c.g, c.goal)
    ensures Inv(c, Initial(c))
  {
    BeginInv(c.g, c.start, c.diagonal);
    BeginInv(c.g, c.goal, c.diagonal);
  }

  /** A half-step of side `a` whose head the other side `b` has not marked
      keeps the two sides apart. */
  lemma HalfApart(g: Grid, ra: Point, rb: Point, diagonal: bool, a: Side, b: Side)
    requires Tables(g, ra, diagonal, a) && Frontier(g, ra, diagonal, a) && |a.queue| > 0
    requires Frontier(g, rb, diagonal, b) && Apart(a, b)
    requires a.queue[0].pos !in b.visited
    ensures Apart(Half(g, diagonal, a), b)
  {
    var cur := a.queue[0].pos;
    HalfFrontier(g, ra, diagonal, a);
    var a' := Half(g, diagonal, a);
    HeadFacts(g, ra, diagonal, a);
    forall p | p in a'.visited
      ensures p !in b.closed
    {
      if p !in a.visited {
        ClosedNeighbour(g, rb, diagonal, b, p, cur);
      }
    }
  }

  /** A cell next to a closed cell of a side is marked by that side. */
  lemma ClosedNeighbour(g: Grid, rb: Point, diagonal: bool, b: Side, p: Point, q: Point)
    requires Frontier(g, rb, diagonal, b) && Walkable(g, q) && Adjacent(q, p, diagonal)
    ensures p in b.closed ==> q in b.visited
  {
    assert Adjacent(p, q, diagonal) == Adjacent(q, p, diagonal);
  }

  /** The events of a half-step: one `'current'` event with the next count
      and one `'visited'` event per fresh neighbour. */
  lemma HalfEvents(st: State, p: Point, F: seq<Point>)
    requires Reported(st)
    ensures var r := Report(st, p); Reported(r.(events := r.events + VisitedEvents(F)))
  {
    ReportStep(st.events, Current(p, st.count + 1), F, st.count);
  }

  lemma ReportEvents(st: State, p: Point)
    requires Reported(st)
    ensures Reported(Report(st, p))
  {
    HalfEvents(st, p, []);
    assert VisitedEvents([]) == [];
  }

  /** The start side's half keeps the invariant, minus the balance of the
      closed sets, and closes a new cell. */
  lemma StartHalfKeeps(c: Setup, st: State)
    requires Inv(c, st) && |st.fs.queue| > 0 && st.fs.queue[0].pos !in st.fg.visited
    ensures var r := StepStart(c, st);
      Tables(c.g, c.start, c.diagonal, r.fs) && Frontier(c.g, c.start, c.diagonal, r.fs) &&
      r.fg == st.fg && Apart(r.fs, r.fg) && Reported(r) &&
      r.fs.closed == st.fs.closed + {st.fs.queue[0].pos} && st.fs.queue[0].pos !in st.fs.closed
  {
    var cur := st.fs.queue[0];
    HalfTables(c.g, c.start, c.diagonal, st.fs);
    HalfFrontier(c.g, c.start, c.diagonal, st.fs);
    HalfApart(c.g, c.start, c.goal, c.diagonal, st.fs, st.fg);
    HalfEvents(st, cur.pos, Bfs.Fresh(Neighbors(c.g, cur.pos, c.diagonal), st.fs.visited));
    HeadFacts(c.g, c.start, c.diagonal, st.fs);
  }

  /** The goal side's half, after the start side's, restores the whole
      invariant. */
  lemma GoalHalfKeeps(c: Setup, st: State)
    requires Tables(c.g, c.start, c.diagonal, st.fs) && Frontier(c.g, c.start, c.diagonal, st.fs)
    requires Tables(c.g, c.goal, c.diagonal, st.fg) && Frontier(c.g, c.goal, c.diagonal, st.fg)
    requires Apart(st.fs, st.fg) && Reported(st) && st.fs.closed != {}
    requires |st.fg.queue| > 0 && st.fg.queue[0].pos !in st.fs.visited
    ensures Inv(c, StepGoal(c, st))
  {
    var cur := st.fg.queue[0];
    HalfTables(c.g, c.goal, c.diagonal, st.fg);
    HalfFrontier(c.g, c.goal, c.diagonal, st.fg);
    HalfApart(c.g, c.goal, c.start, c.diagonal, st.fg, st.fs);
    HalfEvents(st, cur.pos, Bfs.Fresh(Neighbors(c.g, cur.pos, c.diagonal), st.fg.visited));
  }

  /** How the loop ends.  Without a meeting one queue is empty and the
      invariant holds.  At a meeting the node taken off is a walk from its
      side's root to a cell the other side has marked but not closed, and
      that cell is the other side's root only when the endpoints coincide;
      every `'current'` event so far carries the counts 1, 2, .... */
  ghost predicate Done(c: Setup, m: Option<Meeting>, st: State) {
    Tables(c.g, c.start, c.diagonal, st.fs) && Tables(c.g, c.goal, c.diagonal, st.fg) && Reported(st) &&
    match m
    case None =>
      Inv(c, st) && (|st.fs.queue| == 0 || |st.fg.queue| == 0)
    case Some(AtStart(cur)) =>
      PathFromTo(c.g, Chain(cur), c.start, cur.pos, c.diagonal) &&
      cur.pos in st.fg.visited && cur.pos !in st.fg.closed && (cur.pos == c.goal ==> c.start == c.goal)
    case Some(AtGoal(cur)) =>
      PathFromTo(c.g, Chain(cur), c.goal, cur.pos, c.diagonal) &&
      cur.pos in st.fs.visited && cur.pos !in st.fs.closed && cur.pos != c.start
  }

  /** Closing more of the walkable cells leaves fewer of them open. */
  lemma FewerLeft(w: set<Point>, a: set<Point>, b: set<Point>)
    requires a <= b <= w && a != b
    ensures |w - b| < |w - a|
  {
    var p :| p in b && p !in a;
    assert p in w - a && p !in w - b;
    SubsetSmaller(w - b, w - a);
  }

  /** The `while` loop of both searches: each iteration takes one node off
      the start queue, then one off the goal queue, and stops at the first
      node whose cell the other side has marked. */
  function Loop(c: Setup, st: State): (r: (Option<Meeting>, State))
    requires Inv(c, st)
    ensures Done(c, r.0, r.1)
    decreases |WalkableCells(c.g) - st.fs.closed|
  {
    if |st.fs.queue| == 0 || |st.fg.queue| == 0 then (None, st)
    else
      var cur := st.fs.queue[0];
      if cur.pos in st.fg.visited then
        MeetStart(c, st);
        (Some(AtStart(cur)), Report(st.(fs := Take(st.fs)), cur.pos))
      else
        StartHalfKeeps(c, st);
        var st1 := StepStart(c, st);
        var cg := st1.fg.queue[0];
        if cg.pos in st1.fs.visited then
          MeetGoal(c, st);
          (Some(AtGoal(cg)), Report(st1.(fg := Take(st1.fg)), cg.pos))
        else
          StepBoth(c, st);
          Loop(c, StepGoal(c, st1))
  }

  /** A start-side head the goal side has marked ends the loop. */
  lemma MeetStart(c: Setup, st: State)
    requires Inv(c, st) && |st.fs.queue| > 0 && |st.fg.queue| > 0
    requires st.fs.queue[0].pos in st.fg.visited
    ensures var cur := st.fs.queue[0];
      Done(c, Some(AtStart(cur)), Report(st.(fs := Take(st.fs)), cur.pos))
  {
    var cur := st.fs.queue[0];
    var end := Report(st.(fs := Take(st.fs)), cur.pos);
    HeadFacts(c.g, c.start, c.diagonal, st.fs);
    TakeTables(c.g, c.start, c.diagonal, st.fs);
    ReportEvents(st.(fs := Take(st.fs)), cur.pos);
    assert cur.pos !in st.fg.closed;
    assert st.fs.closed != {} ==> c.goal in st.fg.closed;
    DoneAtStart(c, end, cur);
  }

  /** The conditions of `Done` for a start-side meeting, one by one. */
  lemma DoneAtStart(c: Setup, st: State, cur: Rec)
    requires Tables(c.g, c.start, c.diagonal, st.fs) && Tables(c.g, c.goal, c.diagonal, st.fg) && Reported(st)
    requires PathFromTo(c.g, Chain(cur), c.start, cur.pos, c.diagonal)
    requires cur.pos in st.fg.visited && cur.pos !in st.fg.closed && (cur.pos == c.goal ==> c.start == c.goal)
    ensures Done(c, Some(AtStart(cur)), st)
  {
  }

  /** After the start side's half, a goal-side head the start side has
      marked ends the loop. */
  lemma MeetGoal(c: Setup, st: State)
    requires Inv(c, st) && |st.fs.queue| > 0 && |st.fg.queue| > 0
    requires st.fs.queue[0].pos !in st.fg.visited
    requires StepStart(c, st).fg.queue[0].pos in StepStart(c, st).fs.visited
    ensures var st1 := StepStart(c, st); var cg := st1.fg.queue[0];
      Done(c, Some(AtGoal(cg)), Report(st1.(fg := Take(st1.fg)), cg.pos))
  {
    StartHalfKeeps(c, st);
    var st1 := StepStart(c, st);
    var cg := st1.fg.queue[0];
    var end := Report(st1.(fg := Take(st1.fg)), cg.pos);
    HeadFacts(c.g, c.goal, c.diagonal, st1.fg);
    TakeTables(c.g, c.goal, c.diagonal, st1.fg);
    ReportEvents(st1.(fg := Take(st1.fg)), cg.pos);
    assert cg.pos !in st1.fs.closed;
    assert cg.pos != c.start by {
      assert c.start in st1.fs.closed;
    }
    DoneAtGoal(c, end, cg);
  }

  /** The conditions of `Done` for a goal-side meeting, one by one. */
  lemma DoneAtGoal(c: Setup, st: State, cg: Rec)
    requires Tables(c.g, c.start, c.diagonal, st.fs) && Tables(c.g, c.goal, c.diagonal, st.fg) && Reported(st)
    requires PathFromTo(c.g, Chain(cg), c.goal, cg.pos, c.diagonal)
    requires cg.pos in st.fs.visited && cg.pos !in st.fs.closed && cg.pos != c.start
    ensures Done(c, Some(AtGoal(cg)), st)
  {
  }

  /** An iteration in which neither side meets keeps the invariant and
      closes at least one more walkable cell on the start side. */
  lemma StepBoth(c: Setup, st: State)
    requires Inv(c, st) && |st.fs.queue| > 0 && |st.fg.queue| > 0
    requires st.fs.queue[0].pos !in st.fg.visited
    requires StepStart(c, st).fg.queue[0].pos !in StepStart(c, st).fs.visited
    ensures var st2 := StepGoal(c, StepStart(c, st));
      Inv(c, st2) && |WalkableCells(c.g) - st2.fs.closed| < |WalkableCells(c.g) - st.fs.closed|
  {
    StartHalfKeeps(c, st);
    var st1 := StepStart(c, st);
    HeadFacts(c.g, c.start, c.diagonal, st.fs);
    GoalHalfKeeps(c, st1);
    var st2 := StepGoal(c, st1);
    HalfFrontier(c.g, c.start, c.diagonal, st.fs);
    FewerLeft(WalkableCells(c.g), st.fs.closed, st2.fs.closed);
  }

  /** The whole loop from the initial state. */
  function Run(c: Setup): (r: (Option<Meeting>, State))
    requires Walkable(c.g, c.start) && Walkable(c.g, c.goal)
    ensures Done(c, r.0, r.1)
  {
    InitialInv(c);
    Loop(c, Initial(c))
  }

  // ------------------------------------------------------------ walks

  /** Read backwards, a walk leads from its last cell to its first. */
  lemma ReversedWalk(g: Grid, p: seq<Point>, s: Point, t: Point, diagonal: bool)
    requires PathFromTo(g, p, s, t, diagonal)
    ensures PathFromTo(g, VisitOnPop.Reversed(p), t, s, diagonal)
  {
    var r := VisitOnPop.Reversed(p);
    var n := |p|;
    forall i | 0 <= i < n - 1
      ensures Adjacent(r[i], r[i + 1], diagonal)
    {
      assert r[i] == p[n - 1 - i] && r[i + 1] == p[n - 2 - i];
      assert Adjacent(p[n - 2 - i], p[n - 1 - i], diagonal);
    }
  }

  /** A walk to `m` joined to a walk from `m`, the shared cell once. */
  lemma JoinWalks(g: Grid, p: seq<Point>, q: seq<Point>, s: Point, m: Point, t: Point, diagonal: bool)
    requires PathFromTo(g, p, s, m, diagonal) && PathFromTo(g, q, m, t, diagonal)
    ensures PathFromTo(g, p + q[1..], s, t, diagonal)
  {
    var r := p + q[1..];
    forall i | 0 <= i < |r| - 1
      ensures Adjacent(r[i], r[i + 1], diagonal)
    {
      if i == |p| - 1 {
        assert r[i] == q[0] && r[i + 1] == q[1];
      } else if i >= |p| {
        assert r[i] == q[i - |p| + 1] && r[i + 1] == q[i - |p| + 2];
      }
    }
    if |q| == 1 {
      assert r == p;
    }
  }

  lemma ReachableBack(g: Grid, s: Point, t: Point, diagonal: bool)
    requires Reachable(g, t, s, diagonal)
    ensures Reachable(g, s, t, diagonal)
  {
    var p :| PathFromTo(g, p, t, s, diagonal);
    ReversedWalk(g, p, t, s, diagonal);
  }

  /** A loop that ends without a meeting has proved the goal unreachable:
      the side whose queue ran empty closed a set that holds its root,
      holds every walkable neighbour of its cells, and misses the other
      root, which the other side marked from the start. */
  lemma NoMeetingUnreachable(c: Setup, st: State)
    requires Inv(c, st) && (|st.fs.queue| == 0 || |st.fg.queue| == 0)
    ensures !Reachable(c.g, c.start, c.goal, c.diagonal)
  {
    if |st.fs.queue| == 0 {
      assert st.fs.visited == st.fs.closed;
      ClosedSetBlocks(c.g, st.fs.closed, c.start, c.goal, c.diagonal);
    } else {
      assert st.fg.visited == st.fg.closed;
      ClosedSetBlocks(c.g, st.fg.closed, c.goal, c.start, c.diagonal);
      if Reachable(c.g, c.start, c.goal, c.diagonal) {
        ReachableBack(c.g, c.goal, c.start, c.diagonal);
      }
    }
  }

  /** The walk through the meeting cell, with that cell's own node on
      both sides: what the search evidently meant to return. */
  function MeetingWalk(st: State, m: Meeting): seq<Point> {
    match m
    case AtStart(cur) => Chain(cur) + VisitOnPop.Reversed(Chain(NodeAt(st.fg, cur.pos)))[1..]
    case AtGoal(cur) => Chain(NodeAt(st.fs, cur.pos)) + VisitOnPop.Reversed(Chain(cur))[1..]
  }

  lemma MeetingWalkSound(c: Setup, m: Meeting, st: State)
    requires Done(c, Some(m), st)
    ensures PathFromTo(c.g, MeetingWalk(st, m), c.start, c.goal, c.diagonal)
  {
    match m
    case AtStart(cur) =>
      NodeAtWalk(c.g, c.goal, c.diagonal, st.fg, cur.pos);
      ReversedWalk(c.g, Chain(NodeAt(st.fg, cur.pos)), c.goal, cur.pos, c.diagonal);
      JoinWalks(c.g, Chain(cur), VisitOnPop.Reversed(Chain(NodeAt(st.fg, cur.pos))), c.start, cur.pos, c.goal, c.diagonal);
    case AtGoal(cur) =>
      NodeAtWalk(c.g, c.start, c.diagonal, st.fs, cur.pos);
      ReversedWalk(c.g, Chain(cur), c.goal, cur.pos, c.diagonal);
      JoinWalks(c.g, Chain(NodeAt(st.fs, cur.pos)), VisitOnPop.Reversed(Chain(cur)), c.start, cur.pos, c.goal, c.diagonal);
  }

  /** The loop meets exactly when the goal can be reached. */
  lemma LoopMeetsIffReachable(c: Setup)
    requires Walkable(c.g, c.start) && Walkable(c.g, c.goal)
    ensures Run(c).0.Some? <==> Reachable(c.g, c.start, c.goal, c.diagonal)
  {
    var r := Run(c);
    if r.0.Some? {
      MeetingWalkSound(c, r.0.value, r.1);
    } else {
      NoMeetingUnreachable(c, r.1);
    }
  }

  /** When start and goal coincide, the first node taken off meets. */
  lemma SameEndpoints(c: Setup)
    requires Walkable(c.g, c.start) && c.start == c.goal
    ensures Run(c).0 == Some(AtStart(Rec(c.start, None)))
  {
    InitialInv(c);
  }

  // ------------------------------------------------------------ findPathBidirectional

  /** The `while (current)` loop of `reconstructPath`: the cells from a
      node back to its root. */
  function Backward(r: Rec): (b: seq<Point>)
    ensures b == VisitOnPop.Reversed(Chain(r))
    decreases r
  {
    match r.parent
    case None => [r.pos]
    case Some(p) =>
      var b := [r.pos] + Backward(p);
      assert Chain(r) == Chain(p) + [r.pos];
      b
  }

  /** `reconstructPath(fromStart, fromGoal, meetingPoint)`: the start-side
      chain reversed into root-first order, then the goal-side chain from
      its node back to the goal without its first cell.  The meeting point
      itself is not used. */
  function ReconstructPath(fromStart: Option<Rec>, fromGoal: Option<Rec>): (path: seq<Point>)
    ensures fromStart.Some? && fromGoal.Some? ==>
      path == Chain(fromStart.value) + VisitOnPop.Reversed(Chain(fromGoal.value))[1..]
    ensures fromStart.None? && fromGoal.Some? ==> path == VisitOnPop.Reversed(Chain(fromGoal.value))[1..]
    ensures fromStart.Some? && fromGoal.None? ==> path == Chain(fromStart.value)
  {
    var head := if fromStart.Some? then VisitOnPop.Reversed(Backward(fromStart.value)) else [];
    var tail := if fromGoal.Some? then Backward(fromGoal.value)[1..] else [];
    ReversedTwice(if fromStart.Some? then Chain(fromStart.value) else []);
    head + tail
  }

  /** Reversing twice gives the sequence back. */
  lemma ReversedTwice<T>(s: seq<T>)
    ensures VisitOnPop.Reversed(VisitOnPop.Reversed(s)) == s
  {
  }

  /** `parentFrom*[y][x]`: the node the cell was reached from, `undefined`
      for the side's root and for unmarked cells. */
  function ParentAt(s: Side, p: Point): Option<Rec> {
    if p in s.parent then Some(s.parent[p]) else None
  }

  /** The path the TypeScript search rebuilds at a meeting: the meeting
      cell's parent record on the other side, not its own. */
  function AsWritten(st: State, m: Meeting): seq<Point> {
    match m
    case AtStart(cur) => ReconstructPath(Some(cur), ParentAt(st.fg, cur.pos))
    case AtGoal(cur) => ReconstructPath(ParentAt(st.fs, cur.pos), Some(cur))
  }

  /** `findPathBidirectional` as written: `null` for a blocked endpoint and
      exactly when the goal cannot be reached, `[start]` when the endpoints
      coincide, otherwise whatever `reconstructPath` builds. */
  function FindPathBidirectional(g: Grid, start: Point, goal: Point, diagonal: bool): (path: Option<seq<Point>>)
    ensures !Walkable(g, start) || !Walkable(g, goal) ==> path.None?
    ensures path.None? <==> !Reachable(g, start, goal, diagonal)
    ensures Walkable(g, start) && start == goal ==> path == Some([start])
  {
    ReachableWalkable(g, start, goal, diagonal);
    if !Walkable(g, start) || !Walkable(g, goal) then None
    else
      var c := Setup(g, start, goal, diagonal);
      InitialInv(c);
      LoopMeetsIffReachable(c);
      if start == goal then SameEndpoints(c); Found(c)
      else Found(c)
  }

  function Found(c: Setup): (path: Option<seq<Point>>)
    requires Walkable(c.g, c.start) && Walkable(c.g, c.goal)
  {
    var r := Run(c);
    if r.0.None? then None else Some(AsWritten(r.1, r.0.value))
  }

  /** At every meeting with distinct endpoints the rebuilt path is the
      walk through the meeting point with one cell left out: the meeting
      cell itself when the goal side meets, the cell after it when the
      start side meets. */
  lemma AsWrittenDropsOne(c: Setup, m: Meeting, st: State)
    requires Done(c, Some(m), st) && c.start != c.goal
    ensures var w := MeetingWalk(st, m);
      exists k :: 0 < k < |w| && AsWritten(st, m) == Drop(w, k)
  {
    match m
    case AtStart(cur) =>
      DropsAtStart(st, cur);
      var k := |Chain(cur)|;
      assert AsWritten(st, m) == Drop(MeetingWalk(st, m), k);
    case AtGoal(cur) =>
      DropsAtGoal(st, cur);
      var k := |Chain(st.fs.parent[cur.pos])|;
      assert AsWritten(st, m) == Drop(MeetingWalk(st, m), k);
  }

  /** A start-side meeting drops the cell after the meeting cell. */
  lemma DropsAtStart(st: State, cur: Rec)
    requires cur.pos in st.fg.parent
    ensures 0 < |Chain(cur)| < |MeetingWalk(st, AtStart(cur))|
    ensures AsWritten(st, AtStart(cur)) == Drop(MeetingWalk(st, AtStart(cur)), |Chain(cur)|)
  {
    var P := st.fg.parent[cur.pos];
    var R := VisitOnPop.Reversed(Chain(P));
    var a := Chain(cur);
    assert VisitOnPop.Reversed(Chain(NodeAt(st.fg, cur.pos)))[1..] == R by {
      assert Chain(NodeAt(st.fg, cur.pos)) == Chain(P) + [cur.pos];
      ReversedSnoc(Chain(P), cur.pos);
      assert ([cur.pos] + R)[1..] == R;
    }
    assert |R| > 0;
    DropAfter(AsWritten(st, AtStart(cur)), MeetingWalk(st, AtStart(cur)), a, R);
  }

  /** `w` without its element at `k`. */
  function Drop<T>(w: seq<T>, k: nat): seq<T>
    requires k < |w|
  {
    w[..k] + w[k + 1..]
  }

  /** Leaving out the first element of the second part of a join. */
  lemma DropAfter<T>(x: seq<T>, w: seq<T>, a: seq<T>, b: seq<T>)
    requires |a| > 0 && |b| > 0 && w == a + b && x == a + b[1..]
    ensures 0 < |a| < |w| && x == Drop(w, |a|)
  {
    assert w[..|a|] == a;
    assert w[|a| + 1..] == b[1..];
  }

  /** Reversing a sequence with one more element at the end puts it first. */
  lemma ReversedSnoc<T>(s: seq<T>, x: T)
    ensures VisitOnPop.Reversed(s + [x]) == [x] + VisitOnPop.Reversed(s)
  {
  }

  /** A goal-side meeting drops the meeting cell itself. */
  lemma DropsAtGoal(st: State, cur: Rec)
    requires cur.pos in st.fs.parent
    ensures 0 < |Chain(st.fs.parent[cur.pos])| < |MeetingWalk(st, AtGoal(cur))|
    ensures AsWritten(st, AtGoal(cur)) == Drop(MeetingWalk(st, AtGoal(cur)), |Chain(st.fs.parent[cur.pos])|)
  {
    var w := MeetingWalk(st, AtGoal(cur));
    var P := st.fs.parent[cur.pos];
    var R := VisitOnPop.Reversed(Chain(cur));
    assert Chain(NodeAt(st.fs, cur.pos)) == Chain(P) + [cur.pos];
    assert w == Chain(P) + [cur.pos] + R[1..];
    var k := |Chain(P)|;
    assert AsWritten(st, AtGoal(cur)) == Chain(P) + R[1..];
    assert w[..k] == Chain(P) && w[k + 1..] == R[1..];
  }

  /** Leaving one cell other than the first out of a 4-neighbour walk
      never leaves a 4-neighbour walk between the same endpoints: the two
      cells around the gap are both one step from the missing one, hence
      0 or 2 steps apart, and a missing last cell changes the end. */
  lemma GapBreaksWalk(g: Grid, w: seq<Point>, k: nat, s: Point, t: Point)
    requires PathFromTo(g, w, s, t, false) && 0 < k < |w|
    ensures !PathFromTo(g, Drop(w, k), s, t, false)
  {
    var r := w[..k] + w[k + 1..];
    if k == |w| - 1 {
      assert r[|r| - 1] == w[k - 1];
      assert Adjacent(w[k - 1], w[k], false);
    } else {
      assert r[k - 1] == w[k - 1] && r[k] == w[k + 1];
      assert Adjacent(w[k - 1], w[k], false) && Adjacent(w[k], w[k + 1], false);
    }
  }

  /** In 4-neighbour mode `findPathBidirectional` never returns a walk from
      the start to a different goal: it returns `null` or a path with a gap
      (or with the wrong last cell). */
  lemma FindPathNeverWalks(g: Grid, start: Point, goal: Point)
    requires start != goal
    ensures var path := FindPathBidirectional(g, start, goal, false);
      path.Some? ==> !PathFromTo(g, path.value, start, goal, false)
  {
    if Walkable(g, start) && Walkable(g, goal) {
      var c := Setup(g, start, goal, false);
      var r := Run(c);
      if r.0.Some? {
        MeetingWalkSound(c, r.0.value, r.1);
        AsWrittenDropsOne(c, r.0.value, r.1);
        var w := MeetingWalk(r.1, r.0.value);
        var k :| 0 < k < |w| && AsWritten(r.1, r.0.value) == Drop(w, k);
        GapBreaksWalk(g, w, k, start, goal);
      }
    }
  }

  /** The search as evidently intended: each side's path half built from
      the meeting cell's own node.  It returns `null` exactly when the goal
      cannot be reached, `[start]` when the endpoints coincide, and
      otherwise a walk from start to goal. */
  function FindPathBidirectionalFixed(g: Grid, start: Point, goal: Point, diagonal: bool): (path: Option<seq<Point>>)
    ensures !Walkable(g, start) || !Walkable(g, goal) ==> path.None?
    ensures path.None? <==> !Reachable(g, start, goal, diagonal)
    ensures path.Some? ==> PathFromTo(g, path.value, start, goal, diagonal)
    ensures Walkable(g, start) && start == goal ==> path == Some([start])
  {
    ReachableWalkable(g, start, goal, diagonal);
    if !Walkable(g, start) || !Walkable(g, goal) then None
    else
      var c := Setup(g, start, goal, diagonal);
      LoopMeetsIffReachable(c);
      var r := Run(c);
      if r.0.None? then None
      else
        MeetingWalkSound(c, r.0.value, r.1);
        if start == goal then
          SameEndpoints(c);
          assert NodeAt(r.1.fg, start) == Rec(start, None);
          assert VisitOnPop.Reversed([start]) == [start];
          assert MeetingWalk(r.1, r.0.value) == [start];
          Some(MeetingWalk(r.1, r.0.value))
        else Some(MeetingWalk(r.1, r.0.value))
  }

  // ------------------------------------------------------------ the generator

  /** The generator's `goalNode` / `startNode` scan: the first cell, rows
      top to bottom and each row left to right from position `k` on, whose
      recorded parent cell on side `s` is `m`. */
  function FirstChild(g: Grid, s: Side, m: Point, k: nat): (c: Option<Point>)
    ensures c.Some? ==> c.value in s.parent && s.parent[c.value].pos == m
    decreases |g| * Width(g) - k
  {
    if Width(g) == 0 || k >= |g| * Width(g) then None
    else
      var p := Point(k % Width(g), k / Width(g));
      if p in s.visited && p in s.parent && s.parent[p].pos == m then Some(p)
      else FirstChild(g, s, m, k + 1)
  }

  /** The loop that follows the scan, `while (node && node.position.x !==
      t.x || node.position.y !== t.y)`, over the nodes `nodes`.  JavaScript
      reads the test as `(node && x !== t.x) || y !== t.y`: it collects the
      nodes up to the first one on `t`, and once the nodes run out the `y`
      test reads `position` of `undefined` and throws. */
  function Collect(nodes: seq<Point>, t: Point): (r: Result<seq<Point>>)
    ensures r.Success? <==> t in nodes
    ensures r.Success? ==>
      (r.value <= nodes && |r.value| > 0 && r.value[|r.value| - 1] == t && t !in r.value[..|r.value| - 1])
    decreases |nodes|
  {
    if |nodes| == 0 then Failure("TypeError: cannot read 'position' of undefined")
    else if nodes[0].x != t.x || nodes[0].y != t.y then
      match Collect(nodes[1..], t)
      case Success(rest) => Success([nodes[0]] + rest)
      case Failure(e) => Failure(e)
    else Success([nodes[0]])
  }

  /** The generator's path at a meeting: the chain of the node taken off,
      root first, extended by the scan's find (the goal side's chain starts
      at the goal). */
  function GeneratorPath(c: Setup, st: State, m: Meeting): Result<seq<Point>> {
    match m
    case AtStart(cur) =>
      var f := FirstChild(c.g, st.fg, cur.pos, 0);
      if f.None? then Success(Chain(cur))
      else
        var tail := Collect([f.value, cur.pos], c.goal);
        if tail.Failure? then Failure(tail.error) else Success(Chain(cur) + tail.value)
    case AtGoal(cur) =>
      var f := FirstChild(c.g, st.fs, cur.pos, 0);
      if f.None? then Success(Chain(cur))
      else
        var head := Collect([f.value, cur.pos], c.start);
        if head.Failure? then Failure(head.error) else Success(head.value + Chain(cur))
  }

  /** The scan never finds a cell, so the faulty loop after it never runs:
      a recorded parent cell is one its side has closed, and the meeting
      cell is one the other side has not closed.  The generator's path is
      therefore the chain of the node taken off, from that side's root to
      the meeting cell. */
  lemma GeneratorPathIsChain(c: Setup, m: Meeting, st: State)
    requires Done(c, Some(m), st)
    ensures GeneratorPath(c, st, m) == Success(Chain(m.cur))
  {
  }

  /** What a generator run yields: its events, the path it reports, and
      whether it threw. */
  datatype Outcome = Outcome(events: seq<Event>, path: Option<seq<Point>>, threw: bool)

  /** The `'path'` and `'complete'` events of a meeting, or the not-found
      error. */
  function Close(st: State, path: Option<seq<Point>>): seq<Event> {
    match path
    case Some(p) => st.events + [PathFound(p), Complete(p, st.count)]
    case None => st.events + [Error(NoPath)]
  }

  lemma CloseFinished(st: State, path: Option<seq<Point>>)
    requires Reported(st)
    ensures Finished(Close(st, path), path, st.count) && Counts(Close(st, path)) == UpTo(st.count)
  {
    match path
    case Some(p) =>
      EndFound(st.events, p, st.count);
    case None =>
      var ev := st.events + [Error(NoPath)];
      AppendEvents(st.events, [Error(NoPath)]);
      QuietEvents([Error(NoPath)]);
      assert ev[..|ev| - 1] == st.events;
  }

  /** The visualizer's `findPathBidirectional` generator as written.  It
      never throws; a blocked endpoint yields one error; otherwise the
      `'current'` counts run 1, 2, ... and the run ends with a path exactly
      when the goal can be reached.  That path is a walk from the start or
      from the goal to the meeting cell, and for distinct endpoints it is
      never a walk from the start to the goal. */
  function BidirectionalEvents(g: Grid, start: Point, goal: Point, diagonal: bool): (o: Outcome)
    ensures !o.threw
    ensures !Walkable(g, start) || !Walkable(g, goal) ==> o.events == [Error(EndpointBlocked)] && o.path.None?
    ensures Walkable(g, start) && Walkable(g, goal) ==>
      Finished(o.events, o.path, |Counts(o.events)|) && Counts(o.events) == UpTo(|Counts(o.events)|)
    ensures o.path.None? <==> !Reachable(g, start, goal, diagonal)
    ensures o.path.Some? ==> var p := o.path.value;
      |p| > 0 && (PathFromTo(g, p, start, p[|p| - 1], diagonal) || PathFromTo(g, p, goal, p[|p| - 1], diagonal))
    ensures o.path.Some? && start != goal ==> !PathFromTo(g, o.path.value, start, goal, diagonal)
    ensures Walkable(g, start) && start == goal ==> o.path == Some([start])
  {
    ReachableWalkable(g, start, goal, diagonal);
    if !Walkable(g, start) || !Walkable(g, goal) then Outcome([Error(EndpointBlocked)], None, false)
    else
      var c := Setup(g, start, goal, diagonal);
      LoopMeetsIffReachable(c);
      Settle(c, Run(c))
  }

  /** The generator after its loop: the not-found error when the sides never
      met, otherwise the path `reconstructPath` gives it, which is the
      meeting node's own chain. */
  function Settle(c: Setup, r: (Option<Meeting>, State)): (o: Outcome)
    requires Walkable(c.g, c.start) && Walkable(c.g, c.goal)
    requires Done(c, r.0, r.1) && r == Run(c)
    ensures !o.threw
    ensures Finished(o.events, o.path, |Counts(o.events)|) && Counts(o.events) == UpTo(|Counts(o.events)|)
    ensures o.path.None? <==> r.0.None?
    ensures o.path.Some? ==> var p := o.path.value;
      |p| > 0 && (PathFromTo(c.g, p, c.start, p[|p| - 1], c.diagonal) || PathFromTo(c.g, p, c.goal, p[|p| - 1], c.diagonal))
    ensures o.path.Some? && c.start != c.goal ==> !PathFromTo(c.g, o.path.value, c.start, c.goal, c.diagonal)
    ensures c.start == c.goal && r.0.Some? ==> o.path == Some([c.start])
  {
    if r.0.None? then
      CloseFinished(r.1, None);
      Outcome(Close(r.1, None), None, false)
    else
      var m := r.0.value;
      GeneratorPathIsChain(c, m, r.1);
      MeetingChain(c, m, r.1);
      match GeneratorPath(c, r.1, m)
      case Failure(_) => Outcome(r.1.events, None, true)
      case Success(p) =>
        CloseFinished(r.1, Some(p));
        assert c.start == c.goal ==> m == AtStart(Rec(c.start, None)) by {
          if c.start == c.goal {
            SameEndpoints(c);
          }
        }
        Outcome(Close(r.1, Some(p)), Some(p), false)
  }

  /** The chain of the meeting node walks from one of the two roots to the
      meeting cell, and for distinct endpoints it never walks from the
      start to the goal. */
  lemma MeetingChain(c: Setup, m: Meeting, st: State)
    requires Done(c, Some(m), st)
    ensures var p := Chain(m.cur);
      (PathFromTo(c.g, p, c.start, p[|p| - 1], c.diagonal) || PathFromTo(c.g, p, c.goal, p[|p| - 1], c.diagonal)) &&
      (c.start != c.goal ==> !PathFromTo(c.g, p, c.start, c.goal, c.diagonal))
  {
  }

  /** The generator as evidently intended: the meeting cell's own nodes on
      both sides.  It ends with a walk from the start to the goal exactly
      when one exists. */
  function BidirectionalEventsFixed(g: Grid, start: Point, goal: Point, diagonal: bool): (o: Outcome)
    ensures !o.threw
    ensures !Walkable(g, start) || !Walkable(g, goal) ==> o.events == [Error(EndpointBlocked)] && o.path.None?
    ensures Walkable(g, start) && Walkable(g, goal) ==>
      Finished(o.events, o.path, |Counts(o.events)|) && Counts(o.events) == UpTo(|Counts(o.events)|)
    ensures o.path.None? <==> !Reachable(g, start, goal, diagonal)
    ensures o.path.Some? ==> PathFromTo(g, o.path.value, start, goal, diagonal)
  {
    ReachableWalkable(g, start, goal, diagonal);
    if !Walkable(g, start) || !Walkable(g, goal) then Outcome([Error(EndpointBlocked)], None, false)
    else
      var c := Setup(g, start, goal, diagonal);
      LoopMeetsIffReachable(c);
      var r := Run(c);
      if r.0.None? then
        CloseFinished(r.1, None);
        Outcome(Close(r.1, None), None, false)
      else
        var p := MeetingWalk(r.1, r.0.value);
        MeetingWalkSound(c, r.0.value, r.1);
        CloseFinished(r.1, Some(p));
        Outcome(Close(r.1, Some(p)), Some(p), false)
  }

  // ------------------------------------------------------------ bidirectionalAll

  /** One side of `bidirectionalAll`: the cells taken off its queue
      (`visitedFrom*`), its distance table (`distFrom*`, a missing key for
      -1) and its queue of cells with distances. */
  datatype Wave = Wave(visited: set<Point>, dist: map<Point, nat>, queue: seq<(Point, nat)>)

  /** Both sides and the shared `parent` table. */
  datatype AllState = AllState(a: Wave, b: Wave, parent: map<Point, Point>)

  function StartWave(g: Grid, root: Point): Wave {
    if Walkable(g, root) then Wave({}, map[root := 0], [(root, 0)]) else Wave({}, map[], [])
  }

  /** The neighbour loop of `bidirectionalAll`: each neighbour without a
      distance on this side gets `d + 1`, the shared parent entry `cur`,
      and a place in the queue. */
  function Relax(w: Wave, parent: map<Point, Point>, cur: Point, d: nat, ns: seq<Point>): (r: (Wave, map<Point, Point>))
    ensures r.0.visited == w.visited
    ensures forall p :: p in w.dist ==> p in r.0.dist && r.0.dist[p] == w.dist[p]
    ensures forall p :: p in r.0.dist ==> p in w.dist || p in ns
    ensures forall x :: x in r.0.queue ==> x in w.queue || x.0 in ns
    ensures (forall i :: 0 <= i < |w.queue| ==> w.queue[i].0 in w.dist) ==>
      (forall i :: 0 <= i < |r.0.queue| ==> r.0.queue[i].0 in r.0.dist)
    decreases |ns|
  {
    if |ns| == 0 then (w, parent)
    else if ns[0] in w.dist then Relax(w, parent, cur, d, ns[1..])
    else
      var n := ns[0];
      Relax(w.(dist := w.dist[n := d + 1], queue := w.queue + [(n, d + 1)]), parent[n := cur], cur, d, ns[1..])
  }

  /** The double loop that merges the two tables at a meeting: a cell with
      a start-side distance keeps it, any other cell with a goal-side
      distance takes that one. */
  function Merge(fromStart: map<Point, nat>, fromGoal: map<Point, nat>): (dist: map<Point, nat>)
    ensures forall p :: p in dist <==> p in fromStart || p in fromGoal
    ensures forall p :: p in fromStart ==> dist[p] == fromStart[p]
    ensures forall p :: p in fromGoal && p !in fromStart ==> dist[p] == fromGoal[p]
  {
    map p | p in fromStart.Keys + fromGoal.Keys :: if p in fromStart then fromStart[p] else fromGoal[p]
  }

  /** Every cell a wave has queued, visited or given a distance is
      walkable and reachable from its root, and the root keeps distance 0. */
  ghost predicate WaveInv(g: Grid, root: Point, diagonal: bool, w: Wave) {
    (forall i :: 0 <= i < |w.queue| ==> w.queue[i].0 in w.dist) &&
    (forall p :: p in w.dist ==> Walkable(g, p) && Reachable(g, root, p, diagonal)) &&
    (forall p :: p in w.visited ==> Walkable(g, p) && Reachable(g, root, p, diagonal)) &&
    (Walkable(g, root) ==> root in w.dist && w.dist[root] == 0) &&
    (!Walkable(g, root) ==> w.queue == [])
  }

  ghost predicate AllInv(c: Setup, st: AllState) {
    WaveInv(c.g, c.start, c.diagonal, st.a) && WaveInv(c.g, c.goal, c.diagonal, st.b)
  }

  lemma ReachableStep(g: Grid, s: Point, p: Point, n: Point, diagonal: bool)
    requires Reachable(g, s, p, diagonal) && Walkable(g, n) && Adjacent(p, n, diagonal)
    ensures Reachable(g, s, n, diagonal)
  {
    var w :| PathFromTo(g, w, s, p, diagonal);
    ExtendPath(g, w, n, diagonal);
    assert PathFromTo(g, w + [n], s, n, diagonal);
  }

  lemma ReachableRoot(g: Grid, s: Point, diagonal: bool)
    requires Walkable(g, s)
    ensures Reachable(g, s, s, diagonal)
  {
    assert PathFromTo(g, [s], s, s, diagonal);
  }

  /** Two walks into the same cell join the roots. */
  lemma ReachableMeet(g: Grid, s: Point, t: Point, m: Point, diagonal: bool)
    requires Reachable(g, s, m, diagonal) && Reachable(g, t, m, diagonal)
    ensures Reachable(g, s, t, diagonal)
  {
    var p :| PathFromTo(g, p, s, m, diagonal);
    var q :| PathFromTo(g, q, t, m, diagonal);
    ReversedWalk(g, q, t, m, diagonal);
    JoinWalks(g, p, VisitOnPop.Reversed(q), s, m, t, diagonal);
  }

  lemma StartWaveInv(g: Grid, root: Point, diagonal: bool)
    ensures WaveInv(g, root, diagonal, StartWave(g, root))
  {
    if Walkable(g, root) {
      ReachableRoot(g, root, diagonal);
    }
  }

  /** Relaxing the neighbours of a cell the wave has a distance for keeps
      the wave's invariant. */
  lemma RelaxKeeps(g: Grid, root: Point, diagonal: bool, w: Wave, parent: map<Point, Point>, p: Point, d: nat)
    requires WaveInv(g, root, diagonal, w) && p in w.dist
    ensures WaveInv(g, root, diagonal, Relax(w, parent, p, d, Neighbors(g, p, diagonal)).0)
  {
    var ns := Neighbors(g, p, diagonal);
    var r := Relax(w, parent, p, d, ns).0;
    forall n | n in r.dist && n !in w.dist
      ensures Walkable(g, n) && Reachable(g, root, n, diagonal)
    {
      ReachableStep(g, root, p, n, diagonal);
    }
  }

  /** What one side's turn does: skip a node whose cell it has visited,
      meet, or expand. */
  datatype Turn = Skipped(w: Wave) | Met(w: Wave) | Expanded(w: Wave, parent: map<Point, Point>)

  /** One side's turn against the other side's visited cells `other`. */
  function WaveTurn(g: Grid, diagonal: bool, w: Wave, other: set<Point>, parent: map<Point, Point>): Turn
    requires |w.queue| > 0
  {
    var (p, d) := w.queue[0];
    if p in w.visited then Skipped(w.(queue := w.queue[1..]))
    else
      var w1 := w.(queue := w.queue[1..], visited := w.visited + {p});
      if p in other then Met(w1)
      else
        var r := Relax(w1, parent, p, d, Neighbors(g, p, diagonal));
        Expanded(r.0, r.1)
  }

  /** A turn keeps the wave's invariant; a skip shortens the queue and
      visits nothing; a meeting happens on a cell of `other`; an expansion
      visits a new cell. */
  lemma WaveTurnKeeps(g: Grid, root: Point, diagonal: bool, w: Wave, other: set<Point>, parent: map<Point, Point>)
    requires WaveInv(g, root, diagonal, w) && |w.queue| > 0
    ensures var t := WaveTurn(g, diagonal, w, other, parent);
      WaveInv(g, root, diagonal, t.w) &&
      (t.Skipped? ==> t.w.visited == w.visited && |t.w.queue| < |w.queue|) &&
      (t.Met? ==> w.queue[0].0 in other && w.queue[0].0 in t.w.visited && t.w.dist == w.dist) &&
      (t.Expanded? ==> w.visited <= t.w.visited && w.queue[0].0 in t.w.visited - w.visited)
  {
    var (p, d) := w.queue[0];
    assert w.queue[0].0 in w.dist;
    if p !in w.visited {
      var w1 := w.(queue := w.queue[1..], visited := w.visited + {p});
      assert WaveInv(g, root, diagonal, w1) by {
        forall i | 0 <= i < |w1.queue|
          ensures w1.queue[i].0 in w1.dist
        {
          assert w1.queue[i] == w.queue[i + 1];
        }
      }
      if p !in other {
        RelaxKeeps(g, root, diagonal, w1, parent, p, d);
      }
    } else {
      var w1 := w.(queue := w.queue[1..]);
      forall i | 0 <= i < |w1.queue|
        ensures w1.queue[i].0 in w1.dist
      {
        assert w1.queue[i] == w.queue[i + 1];
      }
    }
  }

  /** The `while` loop of `bidirectionalAll`.  A node whose cell its side
      has already visited is skipped with `continue`, which also skips the
      other side's turn.  A meeting returns the merged tables and the shared
      parent table; an empty queue returns the empty distance table and the
      parent table as it stands. */
  function AllLoop(c: Setup, st: AllState): (r: (map<Point, nat>, map<Point, Point>))
    requires AllInv(c, st)
    ensures r.0 != map[] ==> Reachable(c.g, c.start, c.goal, c.diagonal)
    ensures r.0 != map[] ==> c.start in r.0 && r.0[c.start] == 0
    ensures forall p :: p in r.0 ==> Walkable(c.g, p)
    decreases |WalkableCells(c.g) - st.a.visited|, |st.a.queue|
  {
    if |st.a.queue| == 0 || |st.b.queue| == 0 then (map[], st.parent)
    else
      WaveTurnKeeps(c.g, c.start, c.diagonal, st.a, st.b.visited, st.parent);
      var ta := WaveTurn(c.g, c.diagonal, st.a, st.b.visited, st.parent);
      if ta.Skipped? then AllLoop(c, st.(a := ta.w))
      else if ta.Met? then
        ReachableMeet(c.g, c.start, c.goal, st.a.queue[0].0, c.diagonal);
        (Merge(ta.w.dist, st.b.dist), st.parent)
      else
        FewerLeft(WalkableCells(c.g), st.a.visited, ta.w.visited);
        WaveTurnKeeps(c.g, c.goal, c.diagonal, st.b, ta.w.visited, ta.parent);
        var tb := WaveTurn(c.g, c.diagonal, st.b, ta.w.visited, ta.parent);
        if tb.Skipped? then AllLoop(c, AllState(ta.w, tb.w, ta.parent))
        else if tb.Met? then
          ReachableMeet(c.g, c.start, c.goal, st.b.queue[0].0, c.diagonal);
          (Merge(ta.w.dist, tb.w.dist), ta.parent)
        else AllLoop(c, AllState(ta.w, tb.w, tb.parent))
  }

  /** `bidirectionalAll` as written.  A blocked endpoint leaves both tables
      empty; an unreachable goal leaves the distance table empty; a
      nonempty distance table holds only walkable cells and gives the start
      distance 0. */
  function BidirectionalAll(g: Grid, start: Point, goal: Point, diagonal: bool): (r: (map<Point, nat>, map<Point, Point>))
    ensures !Walkable(g, start) || !Walkable(g, goal) ==> r.0 == map[] && r.1 == map[]
    ensures !Reachable(g, start, goal, diagonal) ==> r.0 == map[]
    ensures r.0 != map[] ==> start in r.0 && r.0[start] == 0
    ensures forall p :: p in r.0 ==> Walkable(g, p)
  {
    var c := Setup(g, start, goal, diagonal);
    StartWaveInv(g, start, diagonal);
    StartWaveInv(g, goal, diagonal);
    AllLoop(c, AllState(StartWave(g, start), StartWave(g, goal), map[]))
  }

  /** `bidirectionalAll` as its documentation describes it: the shortest
      distance from the start to every reachable cell, `-1` (no entry)
      elsewhere, with a parent table that steps one cell closer to the
      start.  The goal plays no part; this is breadth-first search from the
      start. */
  method BidirectionalAllFixed(g: Grid, start: Point, goal: Point, diagonal: bool)
    returns (dist: map<Point, nat>, parent: map<Point, Point>)
    ensures !Walkable(g, start) ==> dist == map[] && parent == map[]
    ensures Walkable(g, start) ==> Explored(g, start, diagonal, dist) && start in dist && dist[start] == 0
    ensures forall v :: v in parent ==>
      v in dist && parent[v] in dist && Adjacent(parent[v], v, diagonal) && dist[v] == dist[parent[v]] + 1
  {
    dist, parent := Bfs.BfsAll(g, start, diagonal);
  }
}
