/** Jump point search, `project_ts/src/astar_jps.ts` (`findPathJPS` and its
    helpers) and the `findPathJPS` generator of
    `pathfinding-visualizer/algorithms.js`.

    From each cell the search follows a direction cell by cell (`jump`)
    until it meets the goal, a cell with a forced neighbour, or a wall, and
    pushes only the cell it stopped at.  A cell reached from a parent
    follows only the directions `getDirectionsFromParent` allows.  The
    helpers are modelled in both modes; the search loop in 4-neighbour mode,
    where a jump of `k` cells costs `k`. */
module Jps {
  import opened Wrappers
  import opened Grid
  import opened Events
  import BinaryHeap
  import VisitOnPop
  import AStar

  /** A direction `[dx, dy]`. */
  datatype Dir = Dir(dx: int, dy: int)

  /** `Math.sign` on integers. */
  function Sign(n: int): int {
    if n > 0 then 1 else if n < 0 then -1 else 0
  }

  /** One of the eight king moves. */
  predicate Unit(d: Dir) {
    -1 <= d.dx <= 1 && -1 <= d.dy <= 1 && d != Dir(0, 0)
  }

  /** One of the four rook moves. */
  predicate Straight(d: Dir) {
    Unit(d) && (d.dx == 0 || d.dy == 0)
  }

  function Move(p: Point, d: Dir): Point {
    Point(p.x + d.dx, p.y + d.dy)
  }

  /** The direction from `a` towards `b`, one sign per coordinate. */
  function Toward(a: Point, b: Point): Dir {
    Dir(Sign(b.x - a.x), Sign(b.y - a.y))
  }

  // ------------------------------------------------------------ directions

  /** The directions a root node searches: the four rook moves, then the
      four diagonals in 8-neighbour mode. */
  function RootDirs(diagonal: bool): seq<Dir> {
    [Dir(1, 0), Dir(-1, 0), Dir(0, 1), Dir(0, -1)] +
    (if diagonal then [Dir(1, 1), Dir(1, -1), Dir(-1, 1), Dir(-1, -1)] else [])
  }

  /** `getDirectionsFromParent`: a node without a parent searches every
      direction the mode allows.  A node reached from a parent keeps the
      arrival direction; in 8-neighbour mode a diagonal arrival adds its two
      rook components and a rook arrival the two diagonals beside it.  A
      zero direction is filtered out. */
  function DirectionsFromParent(curr: Point, parent: Option<Point>, diagonal: bool): (dirs: seq<Dir>)
    ensures forall d :: d in dirs ==> Unit(d)
    ensures !diagonal && (parent.Some? ==> parent.value.x == curr.x || parent.value.y == curr.y) ==>
      forall d :: d in dirs ==> Straight(d)
  {
    match parent
    case None => RootDirs(diagonal)
    case Some(p) =>
      var dx := Sign(curr.x - p.x);
      var dy := Sign(curr.y - p.y);
      var sides :=
        if !diagonal then []
        else if dx != 0 then [Dir(dx, 1), Dir(dx, -1)]
        else if dy != 0 then [Dir(1, dy), Dir(-1, dy)]
        else [];
      var dirs := if diagonal && dx != 0 && dy != 0 then [Dir(dx, dy), Dir(dx, 0), Dir(0, dy)] else [Dir(dx, dy)] + sides;
      NonZero(dirs)
  }

  /** `dirs.filter(([sx, sy]) => !(sx === 0 && sy === 0))`. */
  function NonZero(dirs: seq<Dir>): (r: seq<Dir>)
    ensures forall d :: d in r <==> d in dirs && d != Dir(0, 0)
    ensures |r| <= |dirs|
  {
    if |dirs| == 0 then []
    else (if dirs[0] == Dir(0, 0) then [] else [dirs[0]]) + NonZero(dirs[1..])
  }

  /** `a . b`. */
  function Dot(a: Dir, b: Dir): int {
    a.dx * b.dx + a.dy * b.dy
  }

  /** A node without a parent searches exactly the directions of its
      mode, each once. */
  lemma RootDirections(curr: Point, diagonal: bool)
    ensures var dirs := DirectionsFromParent(curr, None, diagonal);
      Distinct(dirs) && forall d :: d in dirs <==> Unit(d) && (diagonal || Straight(d))
  {
    var dirs := DirectionsFromParent(curr, None, diagonal);
    forall d | Unit(d) && (diagonal || Straight(d))
      ensures d in dirs
    {
      if d == Dir(1, 0) { assert d == dirs[0]; }
      else if d == Dir(-1, 0) { assert d == dirs[1]; }
      else if d == Dir(0, 1) { assert d == dirs[2]; }
      else if d == Dir(0, -1) { assert d == dirs[3]; }
      else if d == Dir(1, 1) { assert d == dirs[4]; }
      else if d == Dir(1, -1) { assert d == dirs[5]; }
      else if d == Dir(-1, 1) { assert d == dirs[6]; }
      else { assert d == dirs[7]; }
    }
  }

  /** A node with a parent only searches forward: every direction it keeps
      makes an acute angle with the direction it was reached in. */
  lemma ForwardDirections(curr: Point, parent: Point, diagonal: bool)
    ensures forall d :: d in DirectionsFromParent(curr, Some(parent), diagonal) ==> Dot(d, Toward(parent, curr)) > 0
  {
    var a := Toward(parent, curr);
    var dx, dy := a.dx, a.dy;
    forall d | d in DirectionsFromParent(curr, Some(parent), diagonal)
      ensures Dot(d, a) > 0
    {
      if diagonal && dx != 0 && dy != 0 {
        assert d == Dir(dx, dy) || d == Dir(dx, 0) || d == Dir(0, dy);
        assert dx * dx == 1 && dy * dy == 1;
      } else if !diagonal || (dx == 0 && dy == 0) {
        assert d == Dir(dx, dy);
        assert dx * dx + dy * dy > 0;
      } else if dx != 0 {
        assert d == Dir(dx, dy) || d == Dir(dx, 1) || d == Dir(dx, -1);
        assert dy == 0 && dx * dx == 1;
      } else {
        assert d == Dir(dx, dy) || d == Dir(1, dy) || d == Dir(-1, dy);
        assert dx == 0 && dy * dy == 1;
      }
    }
  }

  /** In 4-neighbour mode a node with a parent keeps at most one direction,
      the one it was reached in: the search never turns. */
  lemma StraightOn(curr: Point, parent: Point)
    ensures var dirs := DirectionsFromParent(curr, Some(parent), false);
      |dirs| <= 1 && forall d :: d in dirs ==> d == Toward(parent, curr)
  {
  }

  // ------------------------------------------------------------ forced neighbours

  /** `hasForcedNeighbor`: moving diagonally, a blocked cell behind one
      side with the cell beside it open; moving straight, a blocked cell
      beside the current one with the cell diagonally ahead open. */
  predicate ForcedNeighbor(g: Grid, p: Point, d: Dir, diagonal: bool) {
    var x, y, dx, dy := p.x, p.y, d.dx, d.dy;
    if diagonal && dx != 0 && dy != 0 then
      (!Walkable(g, Point(x - dx, y + dy)) && Walkable(g, Point(x, y + dy))) ||
      (!Walkable(g, Point(x + dx, y - dy)) && Walkable(g, Point(x + dx, y)))
    else if dx != 0 then
      (!Walkable(g, Point(x, y + 1)) && Walkable(g, Point(x + dx, y + 1))) ||
      (!Walkable(g, Point(x, y - 1)) && Walkable(g, Point(x + dx, y - 1)))
    else if dy != 0 then
      (!Walkable(g, Point(x + 1, y)) && Walkable(g, Point(x + 1, y + dy))) ||
      (!Walkable(g, Point(x - 1, y)) && Walkable(g, Point(x - 1, y + dy)))
    else false
  }

  /** A forced neighbour needs an obstacle: where every cell around `p` is
      open, no direction forces a stop. */
  lemma ForcedNeedsWall(g: Grid, p: Point, d: Dir, diagonal: bool)
    requires Unit(d)
    requires forall q :: Adjacent(p, q, true) ==> Walkable(g, q)
    ensures !ForcedNeighbor(g, p, d, diagonal)
  {
    var x, y := p.x, p.y;
    assert Adjacent(p, Point(x, y + 1), true) && Adjacent(p, Point(x, y - 1), true);
    assert Adjacent(p, Point(x + 1, y), true) && Adjacent(p, Point(x - 1, y), true);
    if diagonal && d.dx != 0 && d.dy != 0 {
      assert Adjacent(p, Point(x - d.dx, y + d.dy), true);
      assert Adjacent(p, Point(x + d.dx, y - d.dy), true);
    }
  }

  // ------------------------------------------------------------ jump

  /** How many more steps along `d` can stay inside the grid's bounding
      box. */
  function Room(g: Grid, p: Point, d: Dir): nat {
    var rx := if d.dx > 0 then Width(g) - p.x else if d.dx < 0 then p.x + 1 else 0;
    var ry := if d.dy > 0 then |g| - p.y else if d.dy < 0 then p.y + 1 else 0;
    (if rx < 0 then 0 else rx) + (if ry < 0 then 0 else ry)
  }

  /** `jump`: from `p` one step along `d`; `null` on a cell that is not
      walkable; that cell when it is the goal or has a forced neighbour, or,
      moving diagonally in 8-neighbour mode, when a rook jump from it along
      either component succeeds; otherwise the jump goes on. */
  function Jump(g: Grid, p: Point, d: Dir, goal: Point, diagonal: bool): (r: Option<Point>)
    requires Unit(d)
    ensures r.Some? ==> Walkable(g, r.value) && Toward(p, r.value) == d
    decreases Room(g, p, d)
  {
    var n := Move(p, d);
    if !Walkable(g, n) then None
    else if n == goal then Some(n)
    else if ForcedNeighbor(g, n, d, diagonal) then Some(n)
    else if diagonal && d.dx != 0 && d.dy != 0 && Jump(g, n, Dir(d.dx, 0), goal, diagonal).Some? then Some(n)
    else if diagonal && d.dx != 0 && d.dy != 0 && Jump(g, n, Dir(0, d.dy), goal, diagonal).Some? then Some(n)
    else Jump(g, n, d, goal, diagonal)
  }

  /** A jump reports a cell only after walking to it over open cells. */
  lemma {:induction false} JumpClear(g: Grid, p: Point, d: Dir, goal: Point, diagonal: bool)
    requires Unit(d)
    ensures var r := Jump(g, p, d, goal, diagonal);
      r.Some? ==> Open(g, p, r.value)
    decreases Room(g, p, d)
  {
    var r := Jump(g, p, d, goal, diagonal);
    var n := Move(p, d);
    if r.Some? {
      var t := r.value;
      WalkFirst(p, t);
      if t != n {
        assert r == Jump(g, n, d, goal, diagonal);
        JumpClear(g, n, d, goal, diagonal);
      }
    }
  }

  /** Whether the cell a jump has reached ends it, along a rook direction. */
  predicate Stops(g: Grid, n: Point, d: Dir, goal: Point, diagonal: bool) {
    n == goal || ForcedNeighbor(g, n, d, diagonal)
  }

  /** Along a rook direction a jump returns the first cell ahead that is
      the goal or has a forced neighbour, provided the way to it is open,
      and returns `null` exactly when a wall or the edge comes first. */
  lemma {:induction false} JumpStraight(g: Grid, p: Point, d: Dir, goal: Point, diagonal: bool)
    requires Straight(d)
    ensures var r := Jump(g, p, d, goal, diagonal);
      r.Some? ==> Stops(g, r.value, d, goal, diagonal)
    ensures var r := Jump(g, p, d, goal, diagonal);
      r.Some? ==> forall q :: q in Walk(p, r.value) && q != r.value ==> !Stops(g, q, d, goal, diagonal)
    ensures Jump(g, p, d, goal, diagonal).None? ==>
      forall q :: Toward(p, q) == d && Open(g, p, q) ==> !Stops(g, q, d, goal, diagonal)
    decreases Room(g, p, d)
  {
    var r := Jump(g, p, d, goal, diagonal);
    var n := Move(p, d);
    if r.Some? {
      var t := r.value;
      WalkFirst(p, t);
      if t != n {
        assert r == Jump(g, n, d, goal, diagonal);
        JumpStraight(g, n, d, goal, diagonal);
      }
    } else {
      forall q | Toward(p, q) == d && Open(g, p, q)
        ensures !Stops(g, q, d, goal, diagonal)
      {
        WalkFirst(p, q);
        assert n in Walk(p, q);
        if q != n {
          StraightAhead(p, q, d);
          JumpStraight(g, n, d, goal, diagonal);
        }
      }
    }
  }

  /** Past the first step of a rook ray, the rest of the ray still lies in
      the same direction. */
  lemma StraightAhead(p: Point, q: Point, d: Dir)
    requires Straight(d) && Toward(p, q) == d && q != Move(p, d)
    ensures Toward(Move(p, d), q) == d
  {
  }

  // ------------------------------------------------------------ expanding the path

  function Max(a: int, b: int): int {
    if a < b then b else a
  }

  /** The cells the inner loop of `expandPath` appends on its way from `c`
      to `t` with the step signs `s` fixed at the start: each coordinate
      moves by its sign until it matches the target's.  There is one cell
      per king move (`WalkLength`), and the last one is `t`. */
  function WalkTo(c: Point, t: Point, s: Dir): (r: seq<Point>)
    requires c.x != t.x ==> s.dx == Sign(t.x - c.x)
    requires c.y != t.y ==> s.dy == Sign(t.y - c.y)
    ensures |r| == 0 <==> c == t
    ensures |r| > 0 ==> r[|r| - 1] == t
    decreases Abs(t.x - c.x) + Abs(t.y - c.y)
  {
    if c == t then []
    else
      var n := Point(if c.x != t.x then c.x + s.dx else c.x, if c.y != t.y then c.y + s.dy else c.y);
      [n] + WalkTo(n, t, s)
  }

  /** The walk takes as many king moves as the larger coordinate gap. */
  lemma {:induction false} WalkLength(c: Point, t: Point, s: Dir)
    requires c.x != t.x ==> s.dx == Sign(t.x - c.x)
    requires c.y != t.y ==> s.dy == Sign(t.y - c.y)
    ensures |WalkTo(c, t, s)| == Max(Abs(t.x - c.x), Abs(t.y - c.y))
    decreases Abs(t.x - c.x) + Abs(t.y - c.y)
  {
    if c != t {
      var n := Point(if c.x != t.x then c.x + s.dx else c.x, if c.y != t.y then c.y + s.dy else c.y);
      WalkLength(n, t, s);
    }
  }

  /** The cells from `a` (excluded) to `b`, with the signs taken once. */
  function Walk(a: Point, b: Point): seq<Point> {
    WalkTo(a, b, Toward(a, b))
  }

  /** Every cell of the walk from `a` to `b` is open. */
  predicate Open(g: Grid, a: Point, b: Point) {
    forall q :: q in Walk(a, b) ==> Walkable(g, q)
  }

  /** The first cell of a walk in a king direction is one move along it. */
  lemma WalkFirst(a: Point, b: Point)
    requires Unit(Toward(a, b))
    ensures var d := Toward(a, b);
      Walk(a, b) == [Move(a, d)] + (if Move(a, d) == b then [] else Walk(Move(a, d), b))
  {
    var d := Toward(a, b);
    var n := Move(a, d);
    if n != b {
      assert WalkTo(n, b, d) == Walk(n, b) by {
        assert n.x != b.x ==> d.dx == Sign(b.x - n.x);
        assert n.y != b.y ==> d.dy == Sign(b.y - n.y);
        WalkSigns(n, b, d);
      }
    }
  }

  /** The walk depends on the signs only through the coordinates that still
      have to move. */
  lemma WalkSigns(c: Point, t: Point, s: Dir)
    requires c.x != t.x ==> s.dx == Sign(t.x - c.x)
    requires c.y != t.y ==> s.dy == Sign(t.y - c.y)
    ensures WalkTo(c, t, s) == Walk(c, t)
  {
    WalkSame(c, t, s, Toward(c, t));
  }

  lemma {:induction false} WalkSame(c: Point, t: Point, s1: Dir, s2: Dir)
    requires c.x != t.x ==> s1.dx == Sign(t.x - c.x) && s2.dx == s1.dx
    requires c.y != t.y ==> s1.dy == Sign(t.y - c.y) && s2.dy == s1.dy
    ensures WalkTo(c, t, s1) == WalkTo(c, t, s2)
    decreases Abs(t.x - c.x) + Abs(t.y - c.y)
  {
    if c != t {
      var n := Point(if c.x != t.x then c.x + s1.dx else c.x, if c.y != t.y then c.y + s1.dy else c.y);
      WalkSame(n, t, s1, s2);
    }
  }

  /** Consecutive cells one king move apart; one rook move apart in
      4-neighbour mode. */
  predicate Steps(path: seq<Point>, diagonal: bool) {
    forall i :: 0 <= i < |path| - 1 ==> Adjacent(path[i], path[i + 1], diagonal)
  }

  /** The walk moves by king moves, and by rook moves when `c` and `t`
      share a row or a column. */
  lemma {:induction false} WalkSteps(c: Point, t: Point, s: Dir)
    requires c.x != t.x ==> s.dx == Sign(t.x - c.x)
    requires c.y != t.y ==> s.dy == Sign(t.y - c.y)
    ensures Steps([c] + WalkTo(c, t, s), true)
    ensures c.x == t.x || c.y == t.y ==> Steps([c] + WalkTo(c, t, s), false)
    decreases Abs(t.x - c.x) + Abs(t.y - c.y)
  {
    if c != t {
      var n := Point(if c.x != t.x then c.x + s.dx else c.x, if c.y != t.y then c.y + s.dy else c.y);
      var rest := WalkTo(n, t, s);
      WalkSteps(n, t, s);
      assert [c] + WalkTo(c, t, s) == [c] + ([n] + rest);
      StepsCons(c, [n] + rest, true);
      if c.x == t.x || c.y == t.y {
        StepsCons(c, [n] + rest, false);
      }
    }
  }

  lemma StepsCons(c: Point, path: seq<Point>, diagonal: bool)
    requires |path| > 0 && Adjacent(c, path[0], diagonal) && Steps(path, diagonal)
    ensures Steps([c] + path, diagonal)
  {
    var r := [c] + path;
    forall i | 0 <= i < |r| - 1
      ensures Adjacent(r[i], r[i + 1], diagonal)
    {
      if i > 0 {
        assert r[i] == path[i - 1] && r[i + 1] == path[i];
      }
    }
  }

  /** `expandPath`: the first jump point, then for each later one the cells
      walked to it from the last cell so far. */
  function ExpandPath(jps: seq<Point>): (r: seq<Point>)
    ensures |r| == 0 <==> |jps| == 0
    ensures |jps| > 0 ==> r[0] == jps[0] && r[|r| - 1] == jps[|jps| - 1]
    decreases |jps|
  {
    if |jps| <= 1 then jps
    else
      var pre := ExpandPath(jps[..|jps| - 1]);
      var t := jps[|jps| - 1];
      pre + Walk(pre[|pre| - 1], t)
  }

  /** Jump points `a` and `b` linked by one rook jump: different cells in
      one row or column, with every cell from `a` to `b` open. */
  predicate Segment(g: Grid, a: Point, b: Point) {
    a != b && (a.x == b.x || a.y == b.y) && Open(g, a, b)
  }

  /** Joining a walk and the cells walked on from its last cell. */
  lemma JoinPath(g: Grid, pre: seq<Point>, w: seq<Point>)
    requires IsPath(g, pre, false)
    requires Steps([pre[|pre| - 1]] + w, false)
    requires forall q :: q in w ==> Walkable(g, q)
    ensures IsPath(g, pre + w, false)
  {
    var r := pre + w;
    var tail := [pre[|pre| - 1]] + w;
    forall i | 0 <= i < |r|
      ensures Walkable(g, r[i])
    {
      if i >= |pre| { assert r[i] == w[i - |pre|]; }
    }
    forall i | 0 <= i < |r| - 1
      ensures Adjacent(r[i], r[i + 1], false)
    {
      if i >= |pre| - 1 {
        assert r[i] == tail[i - |pre| + 1] && r[i + 1] == tail[i - |pre| + 2];
      }
    }
  }

  /** Jump points linked by open rook segments expand to a 4-neighbour
      walk from the first jump point to the last. */
  lemma {:induction false} ExpandWalk(g: Grid, jps: seq<Point>)
    requires |jps| > 0 && Walkable(g, jps[0])
    requires forall i :: 0 <= i < |jps| - 1 ==> Segment(g, jps[i], jps[i + 1])
    ensures PathFromTo(g, ExpandPath(jps), jps[0], jps[|jps| - 1], false)
    decreases |jps|
  {
    if |jps| > 1 {
      var prefix := jps[..|jps| - 1];
      ExpandWalk(g, prefix);
      var pre := ExpandPath(prefix);
      var a, t := pre[|pre| - 1], jps[|jps| - 1];
      assert a == jps[|jps| - 2];
      assert Segment(g, a, t);
      WalkSteps(a, t, Toward(a, t));
      JoinPath(g, pre, Walk(a, t));
    }
  }

  // ------------------------------------------------------------ the search

  /** A `NodeRecord` on the heap: its cell and `gCost` (the `parent` field
      of pushed records is always left undefined). */
  datatype JNode = JNode(pos: Point, g: nat)

  type JItem = BinaryHeap.Item<JNode>

  /** One 4-neighbour search. */
  datatype Search = Search(g: Grid, start: Point, goal: Point)

  /** The comparator: smaller `fCost = g + h` first, on equal `f` the
      larger `g`. */
  function KeyOf(c: Search, n: JNode): BinaryHeap.Key {
    BinaryHeap.Key(n.g + Manhattan(n.pos, c.goal), -(n.g as int))
  }

  function ItemOf(c: Search, n: JNode): JItem {
    BinaryHeap.Item(n, KeyOf(c, n))
  }

  /** The loop state: `gScore` (a cell not in the map is at infinity),
      `parentMap`, `closed`, the heap, the events yielded so far and
      `visitedCount`. */
  datatype State = State(gs: map<Point, nat>, parent: map<Point, Point>, closed: set<Point>,
                         open: seq<JItem>, events: seq<Event>, count: nat)

  function Initial(c: Search): State {
    State(map[c.start := 0], map[], {}, [ItemOf(c, JNode(c.start, 0))], [], 0)
  }

  /** The node is not stale: it carries its cell's `gScore`. */
  predicate Live(gs: map<Point, nat>, n: JNode) {
    n.pos in gs && gs[n.pos] == n.g
  }

  /** A jump point `q` reached from `cur` is taken: it is not closed and
      the jump beats its `gScore`. */
  predicate Improves(s: State, cur: JNode, q: Point) {
    q !in s.closed && (q !in s.gs || cur.g + Manhattan(cur.pos, q) < s.gs[q])
  }

  /** Recording `q` with the cost through `cur` and `cur` as its parent,
      pushing it and reporting it. */
  function Improve(c: Search, s: State, cur: JNode, q: Point): State
    requires BinaryHeap.IsHeap(s.open)
  {
    var t := cur.g + Manhattan(cur.pos, q);
    s.(gs := s.gs[q := t], parent := s.parent[q := cur.pos],
       open := BinaryHeap.Push(s.open, ItemOf(c, JNode(q, t))), events := s.events + [Visited(q)])
  }

  /** The loop over the directions of `cur`. */
  function Relax(c: Search, s: State, cur: JNode, dirs: seq<Dir>): (r: State)
    requires BinaryHeap.IsHeap(s.open) && forall d :: d in dirs ==> Unit(d)
    ensures BinaryHeap.IsHeap(r.open)
    decreases |dirs|
  {
    if |dirs| == 0 then s
    else
      var jp := Jump(c.g, cur.pos, dirs[0], c.goal, false);
      if jp.Some? && Improves(s, cur, jp.value) then Relax(c, Improve(c, s, cur, jp.value), cur, dirs[1..])
      else Relax(c, s, cur, dirs[1..])
  }

  /** `parentMap[y][x]`, undefined for the start. */
  function ParentOf(s: State, p: Point): Option<Point> {
    if p in s.parent then Some(s.parent[p]) else None
  }

  /** Reporting a live node with the incremented count and closing its
      cell. */
  function Close(s: State, rest: seq<JItem>, n: JNode): State {
    s.(closed := s.closed + {n.pos}, open := rest,
       events := s.events + [Current(n.pos, s.count + 1)], count := s.count + 1)
  }

  /** One iteration that does not reach the goal: a stale node is dropped,
      a live one is closed and jumps from it in its directions. */
  function Step(c: Search, s: State): State
    requires |s.open| > 0 && BinaryHeap.IsHeap(s.open)
  {
    var (top, rest) := BinaryHeap.Pop(s.open).value;
    var n := top.value;
    if !Live(s.gs, n) then s.(open := rest)
    else Relax(c, Close(s, rest, n), n, DirectionsFromParent(n.pos, ParentOf(s, n.pos), false))
  }

  // ------------------------------------------------------------ invariant

  /** The tables: the start at cost 0 and without parent, every other cell
      with a cost has a parent, every cell with a cost is open ground. */
  ghost predicate Table(c: Search, gs: map<Point, nat>, parent: map<Point, Point>) {
    Walkable(c.g, c.start) && c.start in gs && gs[c.start] == 0 && c.start !in parent &&
    gs.Keys == parent.Keys + {c.start} && (forall q :: q in gs ==> Walkable(c.g, q))
  }

  /** Each parent link is one open rook segment to a cell of smaller cost. */
  ghost predicate Linked(g: Grid, gs: map<Point, nat>, parent: map<Point, Point>) {
    forall q {:trigger parent[q]} :: q in parent ==>
      q in gs && parent[q] in gs && gs[parent[q]] < gs[q] && Segment(g, parent[q], q)
  }

  /** Every node on the heap is keyed, and no cheaper than its cell's cost. */
  ghost predicate OpenNodes(c: Search, gs: map<Point, nat>, open: seq<JItem>) {
    forall it :: it in open ==>
      it == ItemOf(c, it.value) && it.value.pos in gs && gs[it.value.pos] <= it.value.g
  }

  /** A live node on the heap occurs once and its cell is not closed. */
  ghost predicate OpenLive(gs: map<Point, nat>, closed: set<Point>, open: seq<JItem>) {
    forall it :: it in open && Live(gs, it.value) ==> it.value.pos !in closed && multiset(open)[it] == 1
  }

  /** The events so far: progress only, one `'current'` per closed cell with
      the counts 1, 2, .... */
  ghost predicate Reported(s: State) {
    Progress(s.events) && Counts(s.events) == UpTo(s.count) && Distinct(Expanded(s.events)) &&
    (forall p :: p in Expanded(s.events) <==> p in s.closed)
  }

  ghost predicate Inv(c: Search, s: State) {
    Table(c, s.gs, s.parent) && Linked(c.g, s.gs, s.parent) && s.closed <= s.gs.Keys &&
    BinaryHeap.IsHeap(s.open) && OpenNodes(c, s.gs, s.open) && OpenLive(s.gs, s.closed, s.open) &&
    Reported(s)
  }

  lemma InitialInv(c: Search)
    requires Walkable(c.g, c.start)
    ensures Inv(c, Initial(c))
  {
    var s := Initial(c);
    assert multiset(s.open)[ItemOf(c, JNode(c.start, 0))] == 1;
  }

  // ------------------------------------------------------------ one improvement

  lemma ImproveTables(c: Search, gs: map<Point, nat>, parent: map<Point, Point>, cur: JNode, q: Point)
    requires Table(c, gs, parent) && Linked(c.g, gs, parent) && Live(gs, cur)
    requires Segment(c.g, cur.pos, q) && Walkable(c.g, q)
    requires q !in gs || cur.g + Manhattan(cur.pos, q) < gs[q]
    ensures Table(c, gs[q := cur.g + Manhattan(cur.pos, q)], parent[q := cur.pos])
    ensures Linked(c.g, gs[q := cur.g + Manhattan(cur.pos, q)], parent[q := cur.pos])
  {
    assert Manhattan(cur.pos, q) > 0;
  }

  lemma ImproveOpen(c: Search, gs: map<Point, nat>, closed: set<Point>, open: seq<JItem>, q: Point, t: nat, open': seq<JItem>)
    requires OpenNodes(c, gs, open) && OpenLive(gs, closed, open)
    requires q !in closed && (q !in gs || t < gs[q])
    requires multiset(open') == multiset(open) + multiset{ItemOf(c, JNode(q, t))}
    ensures OpenNodes(c, gs[q := t], open') && OpenLive(gs[q := t], closed, open')
  {
    var x := ItemOf(c, JNode(q, t));
    var gs' := gs[q := t];
    assert x !in open;
    forall it: JItem | it in open'
      ensures it == ItemOf(c, it.value) && it.value.pos in gs' && gs'[it.value.pos] <= it.value.g
    {
      assert it in multiset(open');
      if it != x {
        assert it in multiset(open);
      }
    }
    forall it: JItem | it in open' && Live(gs', it.value)
      ensures it.value.pos !in closed && multiset(open')[it] == 1
    {
      assert it in multiset(open');
      if it != x {
        assert it in multiset(open);
        assert it.value.pos != q;
      }
    }
  }

  lemma VisitedQuiet(ev: seq<Event>, p: Point)
    ensures Counts(ev + [Visited(p)]) == Counts(ev) && Expanded(ev + [Visited(p)]) == Expanded(ev)
    ensures Progress(ev) ==> Progress(ev + [Visited(p)])
  {
    assert (ev + [Visited(p)])[..|ev|] == ev;
  }

  /** An improvement keeps the invariant and the closed cells, given that
      the new tables are consistent. */
  lemma ImproveKeeps(c: Search, s: State, cur: JNode, q: Point)
    requires Inv(c, s) && Improves(s, cur, q)
    requires Table(c, s.gs[q := cur.g + Manhattan(cur.pos, q)], s.parent[q := cur.pos])
    requires Linked(c.g, s.gs[q := cur.g + Manhattan(cur.pos, q)], s.parent[q := cur.pos])
    ensures Inv(c, Improve(c, s, cur, q)) && Improve(c, s, cur, q).closed == s.closed
  {
    ImproveTablesOf(c, s, cur, q);
    ImprovedHeap(c, s, cur, q);
    ImproveOpenOf(c, s, cur, q);
    ImproveReportedOf(s, c, cur, q);
  }

  lemma ImproveTablesOf(c: Search, s: State, cur: JNode, q: Point)
    requires BinaryHeap.IsHeap(s.open)
    requires Table(c, s.gs[q := cur.g + Manhattan(cur.pos, q)], s.parent[q := cur.pos])
    requires Linked(c.g, s.gs[q := cur.g + Manhattan(cur.pos, q)], s.parent[q := cur.pos])
    requires s.closed <= s.gs.Keys
    ensures var r := Improve(c, s, cur, q);
      Table(c, r.gs, r.parent) && Linked(c.g, r.gs, r.parent) && r.closed <= r.gs.Keys && r.closed == s.closed
  {
  }

  lemma ImproveOpenOf(c: Search, s: State, cur: JNode, q: Point)
    requires BinaryHeap.IsHeap(s.open) && Improves(s, cur, q)
    requires OpenNodes(c, s.gs, s.open) && OpenLive(s.gs, s.closed, s.open)
    ensures var r := Improve(c, s, cur, q);
      OpenNodes(c, r.gs, r.open) && OpenLive(r.gs, r.closed, r.open)
  {
    var t := cur.g + Manhattan(cur.pos, q);
    var r := Improve(c, s, cur, q);
    ImprovedHeap(c, s, cur, q);
    assert r.gs == s.gs[q := t] && r.closed == s.closed;
    assert multiset(r.open) == multiset(s.open) + multiset{ItemOf(c, JNode(q, t))};
    ImproveOpen(c, s.gs, s.closed, s.open, q, t, r.open);
  }

  lemma ImproveReportedOf(s: State, c: Search, cur: JNode, q: Point)
    requires BinaryHeap.IsHeap(s.open) && Reported(s)
    ensures Reported(Improve(c, s, cur, q))
  {
    VisitedQuiet(s.events, q);
  }

  /** The direction loop keeps the invariant and the closed cells. */
  lemma {:induction false} RelaxKeeps(c: Search, s: State, cur: JNode, dirs: seq<Dir>)
    requires Inv(c, s) && cur.pos in s.closed && Live(s.gs, cur)
    requires forall d :: d in dirs ==> Unit(d)
    requires forall d :: d in dirs ==> d.dx == 0 || d.dy == 0
    ensures Inv(c, Relax(c, s, cur, dirs)) && Relax(c, s, cur, dirs).closed == s.closed
    decreases |dirs|
  {
    if |dirs| > 0 {
      var d := dirs[0];
      assert d in dirs;
      var jp := Jump(c.g, cur.pos, d, c.goal, false);
      if jp.Some? && Improves(s, cur, jp.value) {
        JumpKeeps(c, s, cur, d, jp.value);
        RelaxKeeps(c, Improve(c, s, cur, jp.value), cur, dirs[1..]);
      } else {
        RelaxKeeps(c, s, cur, dirs[1..]);
      }
    }
  }

  /** Taking a rook jump point from a live closed node keeps the invariant,
      the closed cells and the node's own score. */
  lemma JumpKeeps(c: Search, s: State, cur: JNode, d: Dir, q: Point)
    requires Inv(c, s) && cur.pos in s.closed && Live(s.gs, cur) && Unit(d) && (d.dx == 0 || d.dy == 0)
    requires Jump(c.g, cur.pos, d, c.goal, false) == Some(q) && Improves(s, cur, q)
    ensures Inv(c, Improve(c, s, cur, q)) && Improve(c, s, cur, q).closed == s.closed
    ensures Live(Improve(c, s, cur, q).gs, cur)
  {
    JumpTables(c, s, cur, d, q);
    ImproveKeeps(c, s, cur, q);
  }

  /** Recording a rook jump point with `cur` as its parent keeps the tables
      consistent. */
  lemma JumpTables(c: Search, s: State, cur: JNode, d: Dir, q: Point)
    requires Inv(c, s) && Live(s.gs, cur) && Unit(d) && (d.dx == 0 || d.dy == 0)
    requires Jump(c.g, cur.pos, d, c.goal, false) == Some(q) && Improves(s, cur, q)
    ensures Table(c, s.gs[q := cur.g + Manhattan(cur.pos, q)], s.parent[q := cur.pos])
    ensures Linked(c.g, s.gs[q := cur.g + Manhattan(cur.pos, q)], s.parent[q := cur.pos])
  {
    JumpSegment(c.g, cur.pos, d, c.goal);
    ImproveTables(c, s.gs, s.parent, cur, q);
  }

  /** A rook jump that succeeds ends an open rook segment. */
  lemma JumpSegment(g: Grid, p: Point, d: Dir, goal: Point)
    requires Unit(d) && (d.dx == 0 || d.dy == 0)
    ensures var r := Jump(g, p, d, goal, false);
      r.Some? ==> Segment(g, p, r.value) && Walkable(g, r.value)
  {
    JumpClear(g, p, d, goal, false);
  }

  /** The heap after an improvement holds one more node, the improved one. */
  lemma ImprovedHeap(c: Search, s: State, cur: JNode, q: Point)
    requires BinaryHeap.IsHeap(s.open)
    ensures BinaryHeap.IsHeap(Improve(c, s, cur, q).open)
    ensures multiset(Improve(c, s, cur, q).open) == multiset(s.open) + multiset{ItemOf(c, JNode(q, cur.g + Manhattan(cur.pos, q)))}
  {
  }

  // ------------------------------------------------------------ one iteration

  lemma TakeSub(open: seq<JItem>, top: JItem, rest: seq<JItem>)
    requires multiset(rest) + multiset{top} == multiset(open)
    ensures top in open
    ensures forall it :: it in rest ==> it in open && multiset(rest)[it] <= multiset(open)[it]
    ensures multiset(rest)[top] == multiset(open)[top] - 1
  {
    assert top in multiset(open);
    forall it: JItem | it in rest
      ensures it in open && multiset(rest)[it] <= multiset(open)[it]
    {
      assert it in multiset(rest);
      assert multiset(open)[it] == multiset(rest)[it] + multiset{top}[it];
    }
  }

  /** Dropping a stale node keeps the invariant. */
  lemma SkipKeeps(c: Search, s: State, top: JItem, rest: seq<JItem>)
    requires Inv(c, s) && BinaryHeap.IsHeap(rest) && multiset(rest) + multiset{top} == multiset(s.open)
    requires !Live(s.gs, top.value)
    ensures Inv(c, s.(open := rest))
  {
    TakeSub(s.open, top, rest);
    forall it: JItem | it in rest && Live(s.gs, it.value)
      ensures multiset(rest)[it] == 1
    {
      assert it in multiset(rest);
    }
  }

  /** The open list after a live node is taken off: what stays is keyed and
      no live node of the closed cell is left. */
  lemma CloseOpen(c: Search, gs: map<Point, nat>, closed: set<Point>, open: seq<JItem>, top: JItem, rest: seq<JItem>)
    requires OpenNodes(c, gs, open) && OpenLive(gs, closed, open)
    requires multiset(rest) + multiset{top} == multiset(open) && Live(gs, top.value)
    ensures top.value.pos !in closed
    ensures OpenNodes(c, gs, rest) && OpenLive(gs, closed + {top.value.pos}, rest)
  {
    TakeSub(open, top, rest);
    forall it: JItem | it in rest && Live(gs, it.value)
      ensures it.value.pos != top.value.pos && it.value.pos !in closed && multiset(rest)[it] == 1
    {
      assert it in multiset(rest);
      if it.value.pos == top.value.pos {
        assert false;
      }
    }
  }

  /** The events after reporting a newly closed cell. */
  lemma CloseReported(s: State, rest: seq<JItem>, n: JNode)
    requires Reported(s) && n.pos !in s.closed
    ensures Reported(Close(s, rest, n))
  {
    var e := Current(n.pos, s.count + 1);
    ReportStep(s.events, e, [], s.count);
    assert s.events + [e] + VisitedEvents([]) == s.events + [e];
  }

  /** One iteration keeps the invariant and brings the search closer to
      its end: a live node closes a new walkable cell, a stale one leaves
      the heap shorter. */
  lemma StepKeeps(c: Search, s: State)
    requires Inv(c, s) && |s.open| > 0
    ensures Inv(c, Step(c, s))
    ensures Step(c, s).closed == s.closed ==> |Step(c, s).open| < |s.open|
    ensures s.closed <= Step(c, s).closed <= WalkableCells(c.g)
  {
    var (top, rest) := BinaryHeap.Pop(s.open).value;
    var n := top.value;
    if !Live(s.gs, n) {
      SkipKeeps(c, s, top, rest);
    } else {
      CloseOpen(c, s.gs, s.closed, s.open, top, rest);
      CloseReported(s, rest, n);
      var v := Close(s, rest, n);
      assert Inv(c, v);
      var parent := ParentOf(s, n.pos);
      if parent.Some? {
        assert s.parent[n.pos] == parent.value;
        assert Segment(c.g, parent.value, n.pos);
      }
      var dirs := DirectionsFromParent(n.pos, parent, false);
      RelaxKeeps(c, v, n, dirs);
    }
  }

  // ------------------------------------------------------------ the loop

  /** The `while (!open.isEmpty())` loop up to the goal: the goal's live
      node when it comes off the heap, with the state just before. */
  /** Closing more of the walkable cells leaves fewer of them open. */
  lemma FewerLeft(w: set<Point>, a: set<Point>, b: set<Point>)
    requires a <= b <= w && a != b
    ensures |w - b| < |w - a|
  {
    var p :| p in b && p !in a;
    assert p in w - a && p !in w - b;
    SubsetSmaller(w - b, w - a);
  }

  function Loop(c: Search, s: State): (r: (Option<JNode>, State))
    requires Inv(c, s)
    ensures Inv(c, r.1)
    ensures r.0.Some? ==> r.0.value.pos == c.goal && Live(r.1.gs, r.0.value) && r.0.value.pos !in r.1.closed
    decreases |WalkableCells(c.g) - s.closed|, |s.open|
  {
    if |s.open| == 0 then (None, s)
    else
      var (top, rest) := BinaryHeap.Pop(s.open).value;
      if Live(s.gs, top.value) && top.value.pos == c.goal then
        TakeSub(s.open, top, rest);
        (Some(top.value), s)
      else
        StepKeeps(c, s);
        var s' := Step(c, s);
        if s'.closed != s.closed then
          FewerLeft(WalkableCells(c.g), s.closed, s'.closed);
          Loop(c, s')
        else
          Loop(c, s')
  }

  // ------------------------------------------------------------ the path

  /** The backtracking loop: the goal, its parent, its parent's parent, ...
      up to the cell without a parent. */
  function Backtrack(c: Search, s: State, p: Point): (b: seq<Point>)
    requires Linked(c.g, s.gs, s.parent) && p in s.gs
    ensures |b| > 0 && b[0] == p
    decreases s.gs[p]
  {
    if p in s.parent then [p] + Backtrack(c, s, s.parent[p]) else [p]
  }

  /** Each cell of `b` after the first is one open rook segment back from
      the cell before it. */
  ghost predicate Chained(g: Grid, b: seq<Point>)
    decreases |b|
  {
    |b| <= 1 || (Segment(g, b[1], b[0]) && Chained(g, b[1..]))
  }

  lemma {:induction false} ChainedAt(g: Grid, b: seq<Point>, i: nat)
    requires Chained(g, b) && i < |b| - 1
    ensures Segment(g, b[i + 1], b[i])
    decreases i
  {
    if i > 0 {
      ChainedAt(g, b[1..], i - 1);
    }
  }

  /** Backtracking ends at the start, each cell one open rook segment from
      the one before it. */
  lemma {:induction false} BacktrackChain(c: Search, s: State, p: Point)
    requires Table(c, s.gs, s.parent) && Linked(c.g, s.gs, s.parent) && p in s.gs
    ensures var b := Backtrack(c, s, p);
      b[|b| - 1] == c.start && Chained(c.g, b)
    decreases s.gs[p]
  {
    var b := Backtrack(c, s, p);
    if p in s.parent {
      var u := s.parent[p];
      var tail := Backtrack(c, s, u);
      BacktrackChain(c, s, u);
      assert b == [p] + tail;
      assert b[1..] == tail;
    } else {
      assert p in s.gs.Keys;
    }
  }

  /** `expandPath(jumpSeq.reverse())` for the goal. */
  function JumpPath(c: Search, s: State): seq<Point>
    requires Linked(c.g, s.gs, s.parent) && c.goal in s.gs
  {
    ExpandPath(VisitOnPop.Reversed(Backtrack(c, s, c.goal)))
  }

  /** The expanded path is a 4-neighbour walk from the start to the goal. */
  lemma JumpPathSound(c: Search, s: State)
    requires Table(c, s.gs, s.parent) && Linked(c.g, s.gs, s.parent) && c.goal in s.gs
    ensures PathFromTo(c.g, JumpPath(c, s), c.start, c.goal, false)
  {
    var b := Backtrack(c, s, c.goal);
    var jps := VisitOnPop.Reversed(b);
    BacktrackChain(c, s, c.goal);
    ChainedReversed(c.g, b);
    assert jps[0] == c.start && jps[|jps| - 1] == c.goal;
    ExpandWalk(c.g, jps);
  }

  /** Read backwards, a chain is a sequence of open rook segments. */
  lemma ChainedReversed(g: Grid, b: seq<Point>)
    requires Chained(g, b)
    ensures var jps := VisitOnPop.Reversed(b);
      forall i :: 0 <= i < |jps| - 1 ==> Segment(g, jps[i], jps[i + 1])
  {
    var jps := VisitOnPop.Reversed(b);
    var n := |b|;
    forall i | 0 <= i < |jps| - 1
      ensures Segment(g, jps[i], jps[i + 1])
    {
      ChainedAt(g, b, n - 2 - i);
      assert jps[i] == b[(n - 2 - i) + 1] && jps[i + 1] == b[n - 2 - i];
    }
  }

  // ------------------------------------------------------------ findPathJPS

  /** `findPathJPS` in 4-neighbour mode: `null` for a blocked endpoint,
      `[start]` when start and goal coincide; otherwise any path it returns
      is a 4-neighbour walk from the start to the goal. */
  function FindPathJps(g: Grid, start: Point, goal: Point): (path: Option<seq<Point>>)
    ensures !Walkable(g, start) || !Walkable(g, goal) ==> path.None?
    ensures Walkable(g, start) && start == goal ==> path == Some([start])
    ensures path.Some? ==> PathFromTo(g, path.value, start, goal, false)
  {
    if !Walkable(g, start) || !Walkable(g, goal) then None
    else if start == goal then Some([start])
    else
      var c := Search(g, start, goal);
      InitialInv(c);
      var r := Loop(c, Initial(c));
      if r.0.None? then None
      else
        JumpPathSound(c, r.1);
        Some(JumpPath(c, r.1))
  }

  /** The generator's ending once the goal's live node comes off: the
      `'current'` event with the next count, then the path and the
      completion event. */
  lemma FoundReported(s: State, p: seq<Point>, goal: Point)
    requires Reported(s) && goal !in s.closed
    ensures var ev := s.events + [Current(goal, s.count + 1)] + [PathFound(p), Complete(p, s.count + 1)];
      Finished(ev, Some(p), s.count + 1) && Counts(ev) == UpTo(s.count + 1) && Distinct(Expanded(ev))
  {
    var e := Current(goal, s.count + 1);
    var mid := s.events + [e];
    ReportStep(s.events, e, [], s.count);
    assert s.events + [e] + VisitedEvents([]) == mid;
    EndFound(mid, p, s.count + 1);
    assert goal !in Expanded(s.events);
    DistinctAppend(Expanded(s.events), goal);
  }

  lemma DistinctAppend(s: seq<Point>, x: Point)
    requires Distinct(s) && x !in s
    ensures Distinct(s + [x])
  {
  }

  /** The visualizer's `findPathJPS` generator in 4-neighbour mode.  A
      blocked endpoint yields one error; equal endpoints yield the path
      `[start]` and completion with count 0; otherwise the `'current'`
      counts run 1, 2, ..., no cell is reported as `'current'` twice, and
      the run ends with the path `findPathJPS` returns, or with the
      not-found error exactly when that returns `null`. */
  method JpsEvents(g: Grid, start: Point, goal: Point) returns (events: seq<Event>, path: Option<seq<Point>>)
    ensures !Walkable(g, start) || !Walkable(g, goal) ==> events == [Error(EndpointBlocked)] && path.None?
    ensures Walkable(g, start) && start == goal ==>
      events == [PathFound([start]), Complete([start], 0)] && path == Some([start])
    ensures Walkable(g, start) && Walkable(g, goal) ==>
      Finished(events, path, |Counts(events)|) && Counts(events) == UpTo(|Counts(events)|)
    ensures Distinct(Expanded(events))
    ensures path == FindPathJps(g, start, goal)
  {
    if !Walkable(g, start) || !Walkable(g, goal) {
      QuietEvents([Error(EndpointBlocked)]);
      return [Error(EndpointBlocked)], None;
    }
    if start == goal {
      events, path := [PathFound([start]), Complete([start], 0)], Some([start]);
      QuietEvents(events);
      assert events[..0] == [];
      return;
    }
    var c := Search(g, start, goal);
    InitialInv(c);
    var r := Loop(c, Initial(c));
    var s := r.1;
    if r.0.Some? {
      JumpPathSound(c, s);
      var p := JumpPath(c, s);
      path := Some(p);
      events := s.events + [Current(goal, s.count + 1)] + [PathFound(p), Complete(p, s.count + 1)];
      FoundReported(s, p, goal);
    } else {
      path := None;
      events := Conclude(s.events, None, s.count);
    }
  }

  // ------------------------------------------------------------ 4-neighbour pruning

  /** The open 2 x 2 grid. */
  function OpenSquare(): Grid {
    [[0, 0], [0, 0]]
  }

  /** Going right then down joins the corners of the open 2 x 2 grid. */
  lemma SquareWalk()
    ensures PathFromTo(OpenSquare(), [Point(0, 0), Point(1, 0), Point(1, 1)], Point(0, 0), Point(1, 1), false)
  {
  }

  /** A rook jump onto a closed cell gives nothing. */
  lemma JumpBlocked(g: Grid, p: Point, d: Dir, goal: Point)
    requires Straight(d) && !Walkable(g, Move(p, d))
    ensures Jump(g, p, d, goal, false).None?
  {
  }

  /** A rook jump over an open cell that does not stop it goes on from there. */
  lemma JumpOn(g: Grid, p: Point, d: Dir, goal: Point)
    requires Straight(d) && Walkable(g, Move(p, d)) && !Stops(g, Move(p, d), d, goal, false)
    ensures Jump(g, p, d, goal, false) == Jump(g, Move(p, d), d, goal, false)
  {
  }

  /** From the corner of the open 2 x 2 grid no straight jump stops: each
      ray leaves the grid before it meets the diagonal goal or a wall. */
  lemma SquareJumpRight()
    ensures Jump(OpenSquare(), Point(0, 0), Dir(1, 0), Point(1, 1), false).None?
  {
    var g, d, goal := OpenSquare(), Dir(1, 0), Point(1, 1);
    assert !ForcedNeighbor(g, Point(1, 0), d, false) by {
      assert Walkable(g, Point(1, 1)) && !Walkable(g, Point(2, -1));
    }
    JumpOn(g, Point(0, 0), d, goal);
    assert !Walkable(g, Point(2, 0));
    JumpBlocked(g, Point(1, 0), d, goal);
  }

  lemma SquareJumpDown()
    ensures Jump(OpenSquare(), Point(0, 0), Dir(0, 1), Point(1, 1), false).None?
  {
    SquareDownOn();
    SquareDownEnd();
  }

  lemma SquareDownOn()
    ensures Jump(OpenSquare(), Point(0, 0), Dir(0, 1), Point(1, 1), false) ==
      Jump(OpenSquare(), Point(0, 1), Dir(0, 1), Point(1, 1), false)
  {
    var g, d, goal := OpenSquare(), Dir(0, 1), Point(1, 1);
    assert Walkable(g, Point(1, 1)) && !Walkable(g, Point(-1, 2));
    assert !ForcedNeighbor(g, Point(0, 1), d, false);
    JumpOn(g, Point(0, 0), d, goal);
  }

  lemma SquareDownEnd()
    ensures Jump(OpenSquare(), Point(0, 1), Dir(0, 1), Point(1, 1), false).None?
  {
    var g := OpenSquare();
    assert !Walkable(g, Point(0, 2));
    JumpBlocked(g, Point(0, 1), Dir(0, 1), Point(1, 1));
  }

  lemma SquareJumpOut()
    ensures Jump(OpenSquare(), Point(0, 0), Dir(-1, 0), Point(1, 1), false).None?
    ensures Jump(OpenSquare(), Point(0, 0), Dir(0, -1), Point(1, 1), false).None?
  {
    JumpBlocked(OpenSquare(), Point(0, 0), Dir(-1, 0), Point(1, 1));
    JumpBlocked(OpenSquare(), Point(0, 0), Dir(0, -1), Point(1, 1));
  }

  /** The first iteration closes the start and pushes nothing. */
  lemma SquareFirstStep()
    ensures var c := Search(OpenSquare(), Point(0, 0), Point(1, 1));
      var s0 := Initial(c);
      Step(c, s0) == Close(s0, [], JNode(Point(0, 0), 0))
  {
    var c := Search(OpenSquare(), Point(0, 0), Point(1, 1));
    var s0 := Initial(c);
    SquareJumpRight();
    SquareJumpDown();
    SquareJumpOut();
    var n := JNode(Point(0, 0), 0);
    assert BinaryHeap.Pop(s0.open) == Some((ItemOf(c, n), []));
    var v := Close(s0, [], n);
    var dirs := DirectionsFromParent(n.pos, ParentOf(s0, n.pos), false);
    assert dirs == RootDirs(false) == [Dir(1, 0), Dir(-1, 0), Dir(0, 1), Dir(0, -1)];
    assert Relax(c, v, n, dirs[3..]) == v;
    assert Relax(c, v, n, dirs[2..]) == v;
    assert Relax(c, v, n, dirs[1..]) == v;
    assert Relax(c, v, n, dirs) == v;
  }

  /** In 4-neighbour mode `findPathJPS` gives up on the open 2 x 2 grid
      from one corner to the opposite one, although a 3-cell walk joins
      them: the root's jumps along row 0 and column 0 pass the goal's
      column and row without stopping (no cell of an open grid has a forced
      neighbour) and return `null` at the grid edge, so no node is ever pushed. */
  lemma JpsMissesDiagonalGoal()
    ensures FindPathJps(OpenSquare(), Point(0, 0), Point(1, 1)).None?
    ensures Reachable(OpenSquare(), Point(0, 0), Point(1, 1), false)
  {
    SquareWalk();
    var c := Search(OpenSquare(), Point(0, 0), Point(1, 1));
    InitialInv(c);
    var s0 := Initial(c);
    SquareFirstStep();
    var s1 := Step(c, s0);
    assert s1.open == [];
    StepKeeps(c, s0);
    assert Loop(c, s1).0.None?;
    assert Loop(c, s0) == Loop(c, s1);
  }

  /** The search as evidently intended: in 4-neighbour mode, searching all
      four directions from every node and stopping each jump after one
      cell makes every open cell a jump point, and the search is heap A*
      (same comparator, same stale-entry test).  It returns a shortest
      walk, and `null` exactly when the goal cannot be reached. */
  method FindPathJpsCorrected(g: Grid, start: Point, goal: Point) returns (path: Option<seq<Point>>)
    ensures !Walkable(g, start) || !Walkable(g, goal) ==> path.None?
    ensures Walkable(g, start) && start == goal ==> path == Some([start])
    ensures path.None? <==> !Reachable(g, start, goal, false)
    ensures path.Some? ==> Shortest(g, path.value, start, goal, false)
  {
    ReachableWalkable(g, start, goal, false);
    if !Walkable(g, start) || !Walkable(g, goal) {
      return None;
    }
    if start == goal {
      assert PathFromTo(g, [start], start, goal, false);
      return Some([start]);
    }
    path := AStar.Search(AStar.HeapSetup(g, start, goal));
  }

  /** On the open 2 x 2 grid the corrected search finds a 3-cell walk. */
  method CorrectedFindsDiagonalGoal() returns (path: Option<seq<Point>>)
    ensures path.Some? && |path.value| == 3
  {
    SquareWalk();
    path := FindPathJpsCorrected(OpenSquare(), Point(0, 0), Point(1, 1));
    SquareShortest(path.value);
  }

  /** Every shortest walk between opposite corners of the open 2 x 2 grid
      has three cells. */
  lemma SquareShortest(p: seq<Point>)
    requires Shortest(OpenSquare(), p, Point(0, 0), Point(1, 1), false)
    ensures |p| == 3
  {
    SquareWalk();
    var w := [Point(0, 0), Point(1, 0), Point(1, 1)];
    assert |p| <= |w|;
    ManhattanBelowSteps(OpenSquare(), p);
  }
}
