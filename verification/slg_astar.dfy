/** `AStarPathfinder` of the strategy-game module: A* over the terrain map
    with the Manhattan heuristic, the open set re-sorted by `f` before each
    pop, and at most 10000 iterations. */
module SlgAStar {
  import opened Wrappers
  import opened SlgMap

  datatype Pos = Pos(x: int, y: int)

  /** An entry of `openSet`. */
  datatype Node = Node(pos: Pos, f: real, g: real, h: real)

  /** A point of a returned path; `cost` is always 1. */
  datatype Step = Step(x: int, y: int, cost: int)

  const MaxIterations: nat := 10000

  predicate Adjacent(a: Pos, b: Pos) {
    (a.x == b.x && (a.y - b.y == 1 || b.y - a.y == 1)) ||
    (a.y == b.y && (a.x - b.x == 1 || b.x - a.x == 1))
  }

  /** `heuristic`: the Manhattan distance. */
  function Heuristic(a: Pos, b: Pos): (d: int)
    ensures d >= 0 && (d == 0 <==> a == b)
    ensures Adjacent(a, b) ==> d == 1
  {
    (if a.x < b.x then b.x - a.x else a.x - b.x) + (if a.y < b.y then b.y - a.y else a.y - b.y)
  }

  /** `getNeighbors`: the passable cells among up, right, down and left, in
      that order. */
  function GetNeighbors(m: GameMap, p: Pos, u: Unit): (ns: seq<Pos>)
    requires Valid(m)
    ensures forall q :: q in ns <==> Adjacent(p, q) && IsPassable(m, q.x, q.y, u)
    ensures |ns| <= 4
  {
    var up, right, down, left := Pos(p.x, p.y - 1), Pos(p.x + 1, p.y), Pos(p.x, p.y + 1), Pos(p.x - 1, p.y);
    (if IsPassable(m, up.x, up.y, u) then [up] else []) +
    (if IsPassable(m, right.x, right.y, u) then [right] else []) +
    (if IsPassable(m, down.x, down.y, u) then [down] else []) +
    (if IsPassable(m, left.x, left.y, u) then [left] else [])
  }

  // ------------------------------------------------------------ open set

  /** The positions of the open set. */
  function Positions(s: seq<Node>): set<Pos> {
    set i | 0 <= i < |s| :: s[i].pos
  }

  /** No position is in the open set twice. */
  predicate DistinctPos(s: seq<Node>) {
    forall i, j :: 0 <= i < j < |s| ==> s[i].pos != s[j].pos
  }

  predicate SortedByF(s: seq<Node>) {
    forall i, j :: 0 <= i < j < |s| ==> s[i].f <= s[j].f
  }

  lemma PositionsCons(n: Node, s: seq<Node>)
    ensures Positions([n] + s) == Positions(s) + {n.pos}
  {
    var t := [n] + s;
    forall p | p in Positions(t)
      ensures p in Positions(s) + {n.pos}
    {
      var i :| 0 <= i < |t| && t[i].pos == p;
      if i > 0 {
        assert s[i - 1].pos == p;
      }
    }
    forall p | p in Positions(s)
      ensures p in Positions(t)
    {
      var i :| 0 <= i < |s| && s[i].pos == p;
      assert t[i + 1].pos == p;
    }
    assert t[0].pos == n.pos;
  }

  /** Inserts `n` into a list sorted by `f`, ahead of every entry whose `f`
      is not smaller: the step of a stable sort. */
  function InsertByF(n: Node, s: seq<Node>): (r: seq<Node>)
    ensures multiset(r) == multiset(s) + multiset{n}
    ensures |r| == |s| + 1 && (r[0] == n || (|s| > 0 && r[0] == s[0]))
  {
    if s == [] || n.f <= s[0].f then
      [n] + s
    else
      assert s == [s[0]] + s[1..];
      [s[0]] + InsertByF(n, s[1..])
  }

  lemma {:induction false} InsertSorted(n: Node, s: seq<Node>)
    requires SortedByF(s)
    ensures SortedByF(InsertByF(n, s))
  {
    if s == [] || n.f <= s[0].f {
    } else {
      var rest := InsertByF(n, s[1..]);
      InsertSorted(n, s[1..]);
      forall j | 0 <= j < |rest|
        ensures s[0].f <= rest[j].f
      {
        assert rest[j] in multiset(rest);
        assert rest[j] == n || rest[j] in multiset(s[1..]);
        if rest[j] != n {
          var k :| 0 <= k < |s[1..]| && s[1..][k] == rest[j];
          assert s[k + 1] == rest[j];
        }
      }
    }
  }

  lemma {:induction false} InsertPositions(n: Node, s: seq<Node>)
    ensures Positions(InsertByF(n, s)) == Positions(s) + {n.pos}
    ensures DistinctPos(s) && n.pos !in Positions(s) ==> DistinctPos(InsertByF(n, s))
  {
    if s == [] || n.f <= s[0].f {
      PositionsCons(n, s);
    } else {
      var rest := InsertByF(n, s[1..]);
      assert s == [s[0]] + s[1..];
      InsertPositions(n, s[1..]);
      PositionsCons(s[0], s[1..]);
      PositionsCons(s[0], rest);
      if DistinctPos(s) && n.pos !in Positions(s) {
        assert s[0].pos !in Positions(s[1..]);
        assert DistinctPos(s[1..]);
        var r := [s[0]] + rest;
        forall i, j | 0 <= i < j < |r|
          ensures r[i].pos != r[j].pos
        {
          if i == 0 {
            assert r[j].pos in Positions(rest);
          } else {
            assert r[i] == rest[i - 1] && r[j] == rest[j - 1];
          }
        }
      }
    }
  }

  /** `openSet.sort((a, b) => a.f - b.f)`: a stable sort by `f`, as an
      insertion sort from the back.  The result is a permutation in
      ascending `f`, over the same positions. */
  function SortByF(s: seq<Node>): (r: seq<Node>)
    ensures multiset(r) == multiset(s) && SortedByF(r)
    ensures Positions(r) == Positions(s)
    ensures DistinctPos(s) ==> DistinctPos(r)
    ensures |r| == |s|
  {
    if s == [] then []
    else
      var rest := SortByF(s[1..]);
      assert s == [s[0]] + s[1..];
      PositionsCons(s[0], s[1..]);
      assert DistinctPos(s) ==> DistinctPos(s[1..]);
      assert DistinctPos(s) ==> s[0].pos !in Positions(s[1..]);
      InsertSorted(s[0], rest);
      InsertPositions(s[0], rest);
      InsertByF(s[0], rest)
  }

  /** `openSet.findIndex`: the first entry at `p`, or -1. */
  function FindIndex(s: seq<Node>, p: Pos): (i: int)
    ensures -1 <= i < |s|
    ensures i == -1 <==> p !in Positions(s)
    ensures i >= 0 ==> s[i].pos == p && forall j :: 0 <= j < i ==> s[j].pos != p
  {
    if s == [] then -1
    else if s[0].pos == p then 0
    else
      var i := FindIndex(s[1..], p);
      assert forall j :: 0 < j < |s| ==> s[j] == s[1..][j - 1];
      assert Positions(s) == Positions(s[1..]) + {s[0].pos};
      if i == -1 then -1 else i + 1
  }

  // ------------------------------------------------------------ search state

  /** The search tree so far: every recorded parent is closed, adjacent and
      was closed earlier (`rank` is the iteration that closed a cell); every
      child is passable and not the start; every closed cell but the start
      has a parent. */
  ghost predicate Tree(m: GameMap, u: Unit, start: Pos, closed: set<Pos>, rank: map<Pos, nat>, cameFrom: map<Pos, Pos>)
    requires Valid(m)
  {
    closed == rank.Keys &&
    (forall k :: k in cameFrom ==> cameFrom[k] in closed && Adjacent(cameFrom[k], k) && IsPassable(m, k.x, k.y, u) && k != start) &&
    (forall k :: k in cameFrom && k in rank ==> rank[cameFrom[k]] < rank[k]) &&
    (forall n :: n in closed ==> n == start || n in cameFrom)
  }

  /** The open set holds no closed cell and no cell twice, and each of its
      cells is the start or has a parent. */
  predicate OpenOk(open: seq<Node>, start: Pos, closed: set<Pos>, cameFrom: map<Pos, Pos>) {
    DistinctPos(open) &&
    forall i :: 0 <= i < |open| ==> open[i].pos !in closed && (open[i].pos == start || open[i].pos in cameFrom)
  }

  /** The cell of the `i`-th point of a path. */
  function At(path: seq<Step>, i: nat): Pos
    requires i < |path|
  {
    Pos(path[i].x, path[i].y)
  }

  /** What a returned path is: the cells after the start, one step apart,
      ending at the end; each passable and of cost 1; empty exactly when
      the start is the end. */
  predicate Walk(m: GameMap, u: Unit, start: Pos, end: Pos, path: seq<Step>)
    requires Valid(m)
  {
    (path == [] <==> start == end) &&
    (forall i :: 0 <= i < |path| ==> path[i].cost == 1 && IsPassable(m, path[i].x, path[i].y, u)) &&
    (path != [] ==>
      Adjacent(start, At(path, 0)) && At(path, |path| - 1) == end &&
      forall i :: 0 <= i < |path| - 1 ==> Adjacent(At(path, i), At(path, i + 1)))
  }

  /** The path never returns to the start and visits no cell twice. */
  predicate Simple(start: Pos, path: seq<Step>) {
    (forall i :: 0 <= i < |path| ==> At(path, i) != start) &&
    (forall i, j :: 0 <= i < j < |path| ==> At(path, i) != At(path, j))
  }

  /** The bookkeeping of the `reconstructPath` loop: `key` is `cur` until
      the first step and a closed cell after; the cells of `path` have
      parents, and all but `cur` were closed in increasing order, after
      `key`. */
  ghost predicate ChainOrder(start: Pos, closed: set<Pos>, rank: map<Pos, nat>, cameFrom: map<Pos, Pos>,
                             cur: Pos, key: Pos, path: seq<Step>)
    requires closed == rank.Keys
  {
    (key == cur || key in closed) && (key == start || key in cameFrom) &&
    (path == [] ==> key == cur) && (path != [] ==> key in closed) &&
    (cur == start ==> path == []) &&
    (forall i :: 0 <= i < |path| ==> At(path, i) in cameFrom) &&
    (forall i :: 0 <= i < |path| - 1 ==> At(path, i) in rank) &&
    (forall i, j :: 0 <= i < j < |path| - 1 ==> rank[At(path, i)] < rank[At(path, j)]) &&
    (key in rank ==> forall i :: 0 <= i < |path| - 1 ==> rank[key] < rank[At(path, i)])
  }

  /** The walk built so far: from a neighbour of `key` to `cur`, passable
      cells of cost 1 one step apart. */
  predicate ChainWalk(m: GameMap, u: Unit, cur: Pos, key: Pos, path: seq<Step>)
    requires Valid(m)
  {
    (forall i :: 0 <= i < |path| ==> path[i].cost == 1 && IsPassable(m, path[i].x, path[i].y, u)) &&
    (path != [] ==>
      Adjacent(key, At(path, 0)) && At(path, |path| - 1) == cur &&
      forall i :: 0 <= i < |path| - 1 ==> Adjacent(At(path, i), At(path, i + 1)))
  }

  lemma ChainOrderStep(start: Pos, closed: set<Pos>, rank: map<Pos, nat>, cameFrom: map<Pos, Pos>,
                       cur: Pos, key: Pos, path: seq<Step>)
    requires closed == rank.Keys
    requires forall k :: k in cameFrom ==> cameFrom[k] in closed && k != start
    requires forall k :: k in cameFrom && k in rank ==> rank[cameFrom[k]] < rank[k]
    requires forall n :: n in closed ==> n == start || n in cameFrom
    requires cur !in closed && ChainOrder(start, closed, rank, cameFrom, cur, key, path)
    requires key in cameFrom
    ensures ChainOrder(start, closed, rank, cameFrom, cur, cameFrom[key], [Step(key.x, key.y, 1)] + path)
  {
    var path' := [Step(key.x, key.y, 1)] + path;
    assert At(path', 0) == key;
    assert forall i :: 0 < i < |path'| ==> At(path', i) == At(path, i - 1);
  }

  lemma ChainWalkStep(m: GameMap, u: Unit, cur: Pos, key: Pos, parent: Pos, path: seq<Step>)
    requires Valid(m) && ChainWalk(m, u, cur, key, path)
    requires Adjacent(parent, key) && IsPassable(m, key.x, key.y, u)
    requires path == [] ==> key == cur
    ensures ChainWalk(m, u, cur, parent, [Step(key.x, key.y, 1)] + path)
  {
    var path' := [Step(key.x, key.y, 1)] + path;
    assert At(path', 0) == key;
    assert forall i :: 0 < i < |path'| ==> At(path', i) == At(path, i - 1) && path'[i] == path[i - 1];
  }

  /** When the key has no parent it is the start, and the path is a simple
      walk from it to `cur`. */
  lemma ChainEnd(m: GameMap, u: Unit, start: Pos, closed: set<Pos>, rank: map<Pos, nat>, cameFrom: map<Pos, Pos>,
                 cur: Pos, key: Pos, path: seq<Step>)
    requires Valid(m) && closed == rank.Keys
    requires forall n :: n in closed ==> n == start || n in cameFrom
    requires start !in cameFrom
    requires cur !in closed && ChainOrder(start, closed, rank, cameFrom, cur, key, path)
    requires ChainWalk(m, u, cur, key, path)
    requires key !in cameFrom
    ensures Walk(m, u, start, cur, path)
    ensures Simple(start, path)
  {
    assert key == start;
    assert path == [] <==> start == cur;
    assert path != [] ==> Adjacent(start, At(path, 0));
    forall i, j | 0 <= i < j < |path|
      ensures At(path, i) != At(path, j)
    {
      if j == |path| - 1 {
        assert At(path, i) in rank;
      }
    }
  }

  /** `reconstructPath`: follows the parents from `cur` back to the start,
      putting each cell but the start at the front of the path. */
  method ReconstructPath(ghost m: GameMap, ghost u: Unit, ghost start: Pos, ghost closed: set<Pos>, ghost rank: map<Pos, nat>,
                         cameFrom: map<Pos, Pos>, cur: Pos, ghost bound: nat)
    returns (path: seq<Step>)
    requires Valid(m) && Tree(m, u, start, closed, rank, cameFrom)
    requires forall k :: k in rank ==> rank[k] < bound
    requires cur !in closed && (cur == start || cur in cameFrom)
    ensures Walk(m, u, start, cur, path)
    ensures Simple(start, path)
  {
    path := [];
    var key := cur;
    while key in cameFrom
      invariant ChainOrder(start, closed, rank, cameFrom, cur, key, path)
      invariant ChainWalk(m, u, cur, key, path)
      decreases if key in rank then rank[key] else bound
    {
      ChainOrderStep(start, closed, rank, cameFrom, cur, key, path);
      ChainWalkStep(m, u, cur, key, cameFrom[key], path);
      path := [Step(key.x, key.y, 1)] + path;
      key := cameFrom[key];
    }
    ChainEnd(m, u, start, closed, rank, cameFrom, cur, key, path);
  }

  /** The sorted open set is in shape when the open set is. */
  lemma OpenOkSorted(open: seq<Node>, sorted: seq<Node>, start: Pos, closed: set<Pos>, cameFrom: map<Pos, Pos>)
    requires OpenOk(open, start, closed, cameFrom)
    requires Positions(sorted) == Positions(open) && DistinctPos(sorted)
    ensures OpenOk(sorted, start, closed, cameFrom)
  {
    forall i | 0 <= i < |sorted|
      ensures sorted[i].pos !in closed && (sorted[i].pos == start || sorted[i].pos in cameFrom)
    {
      assert sorted[i].pos in Positions(open);
      var j :| 0 <= j < |open| && open[j].pos == sorted[i].pos;
    }
  }

  /** Closing the popped cell keeps the tree and the open set in shape. */
  lemma CloseCurrent(m: GameMap, u: Unit, start: Pos, closed: set<Pos>, rank: map<Pos, nat>, cameFrom: map<Pos, Pos>,
                     sorted: seq<Node>, iterations: nat)
    requires Valid(m) && Tree(m, u, start, closed, rank, cameFrom)
    requires forall k :: k in rank ==> rank[k] < iterations
    requires OpenOk(sorted, start, closed, cameFrom) && |sorted| > 0
    ensures Tree(m, u, start, closed + {sorted[0].pos}, rank[sorted[0].pos := iterations], cameFrom)
    ensures OpenOk(sorted[1..], start, closed + {sorted[0].pos}, cameFrom)
  {
    CloseTree(m, u, start, closed, rank, cameFrom, sorted[0].pos, iterations);
    CloseOpen(sorted, start, closed, cameFrom);
  }

  /** Closing a cell that is the start or has a parent, with a rank above
      every earlier one, keeps the tree in shape. */
  lemma CloseTree(m: GameMap, u: Unit, start: Pos, closed: set<Pos>, rank: map<Pos, nat>, cameFrom: map<Pos, Pos>,
                  c: Pos, iterations: nat)
    requires Valid(m) && Tree(m, u, start, closed, rank, cameFrom)
    requires forall k :: k in rank ==> rank[k] < iterations
    requires c !in closed && (c == start || c in cameFrom)
    ensures Tree(m, u, start, closed + {c}, rank[c := iterations], cameFrom)
  {
    RankStep(closed, rank, cameFrom, c, iterations);
    assert closed + {c} == rank[c := iterations].Keys;
  }

  /** Ranking a newly closed cell above all the others keeps every parent
      ranked below its child. */
  lemma RankStep(closed: set<Pos>, rank: map<Pos, nat>, cameFrom: map<Pos, Pos>, c: Pos, iterations: nat)
    requires closed == rank.Keys && c !in closed
    requires forall k :: k in cameFrom ==> cameFrom[k] in closed
    requires forall k :: k in cameFrom && k in rank ==> rank[cameFrom[k]] < rank[k]
    requires forall k :: k in rank ==> rank[k] < iterations
    ensures var rank' := rank[c := iterations];
      forall k :: k in cameFrom && k in rank' ==> rank'[cameFrom[k]] < rank'[k]
  {
    var rank' := rank[c := iterations];
    forall k | k in cameFrom && k in rank'
      ensures rank'[cameFrom[k]] < rank'[k]
    {
      assert cameFrom[k] != c;
    }
  }

  /** The rest of the open set, once its head is closed. */
  lemma CloseOpen(sorted: seq<Node>, start: Pos, closed: set<Pos>, cameFrom: map<Pos, Pos>)
    requires OpenOk(sorted, start, closed, cameFrom) && |sorted| > 0
    ensures OpenOk(sorted[1..], start, closed + {sorted[0].pos}, cameFrom)
  {
    var open := sorted[1..];
    forall i | 0 <= i < |open|
      ensures open[i].pos != sorted[0].pos
    {
      assert open[i] == sorted[i + 1];
    }
  }

  /** One round of the neighbour loop: a neighbour not yet closed whose
      score improves gets the current cell as parent, its new score, and a
      new or updated open entry. */
  method Relax(ghost m: GameMap, ghost u: Unit, ghost start: Pos, end: Pos, current: Node, nb: Pos, cost: real,
               open: seq<Node>, closed: set<Pos>, ghost rank: map<Pos, nat>, cameFrom: map<Pos, Pos>, gScore: map<Pos, real>)
    returns (open': seq<Node>, cameFrom': map<Pos, Pos>, gScore': map<Pos, real>)
    requires Valid(m) && current.pos in closed && start in closed
    requires Adjacent(current.pos, nb) && IsPassable(m, nb.x, nb.y, u)
    requires Tree(m, u, start, closed, rank, cameFrom) && OpenOk(open, start, closed, cameFrom)
    ensures Tree(m, u, start, closed, rank, cameFrom') && OpenOk(open', start, closed, cameFrom')
    ensures nb in closed ==> open' == open && cameFrom' == cameFrom && gScore' == gScore
    ensures nb !in closed && nb !in gScore ==> cameFrom' == cameFrom[nb := current.pos] && nb in Positions(open')
  {
    open', cameFrom', gScore' := open, cameFrom, gScore;
    if nb !in closed {
      var tentative := current.g + cost;
      if nb !in gScore || tentative < gScore[nb] {
        cameFrom' := cameFrom[nb := current.pos];
        gScore' := gScore[nb := tentative];
        var h := Heuristic(nb, end) as real;
        var idx := FindIndex(open, nb);
        if idx == -1 {
          open' := open + [Node(nb, tentative + h, tentative, h)];
          assert open'[|open|].pos == nb;
        } else {
          open' := open[idx := open[idx].(g := tentative, f := tentative + h)];
          assert forall i :: 0 <= i < |open'| ==> open'[i].pos == open[i].pos;
          assert open'[idx].pos == nb;
        }
      }
    }
  }

  /** `findPath`: `None` (JavaScript `null`) when an end point is
      impassable, when the open set runs dry, or after 10000 iterations;
      otherwise the walk to `end` the parents record. */
  method FindPath(m: GameMap, start: Pos, end: Pos, u: Unit) returns (res: Option<seq<Step>>)
    requires Valid(m)
    ensures !IsPassable(m, start.x, start.y, u) || !IsPassable(m, end.x, end.y, u) ==> res.None?
    ensures res.Some? ==> Walk(m, u, start, end, res.value) && Simple(start, res.value)
    ensures IsPassable(m, start.x, start.y, u) && start == end ==> res == Some([])
  {
    if !IsPassable(m, start.x, start.y, u) {
      return None;
    }
    if !IsPassable(m, end.x, end.y, u) {
      return None;
    }
    var startH := Heuristic(start, end) as real;
    var open := [Node(start, startH, 0.0, startH)];
    var closed: set<Pos> := {};
    var cameFrom: map<Pos, Pos> := map[];
    var gScore: map<Pos, real> := map[start := 0.0];
    ghost var rank: map<Pos, nat> := map[];
    var iterations := 0;
    while |open| > 0 && iterations < MaxIterations
      invariant 0 <= iterations <= MaxIterations
      invariant Tree(m, u, start, closed, rank, cameFrom)
      invariant forall k :: k in rank ==> rank[k] <= iterations
      invariant OpenOk(open, start, closed, cameFrom)
      invariant iterations == 0 ==> open == [Node(start, startH, 0.0, startH)] && closed == {}
      invariant iterations > 0 ==> start in closed
      invariant start == end ==> iterations == 0
      decreases MaxIterations - iterations
    {
      iterations := iterations + 1;
      var sorted := SortByF(open);
      var current := sorted[0];
      OpenOkSorted(open, sorted, start, closed, cameFrom);
      if current.pos == end {
        var path := ReconstructPath(m, u, start, closed, rank, cameFrom, current.pos, iterations);
        return Some(path);
      }
      CloseCurrent(m, u, start, closed, rank, cameFrom, sorted, iterations);
      open := sorted[1..];
      closed := closed + {current.pos};
      rank := rank[current.pos := iterations];
      var neighbors := GetNeighbors(m, current.pos, u);
      var i := 0;
      while i < |neighbors|
        invariant 0 <= i <= |neighbors|
        invariant current.pos in closed && start in closed
        invariant Tree(m, u, start, closed, rank, cameFrom)
        invariant forall k :: k in rank ==> rank[k] <= iterations
        invariant OpenOk(open, start, closed, cameFrom)
      {
        var nb := neighbors[i];
        var cost := MovementCost(m, nb.x, nb.y, u);
        open, cameFrom, gScore := Relax(m, u, start, end, current, nb, cost, open, closed, rank, cameFrom, gScore);
        i := i + 1;
      }
    }
    return None;
  }
}
