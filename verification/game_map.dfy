/** The map explorer `GameMap` of `project_ts/src/game-map-dfs.ts`:
    recursive and iterative depth-first exploration, depth-first path
    finding and connected components over a map of cell codes.

    A position `{x, y}` has `x` as the ROW index and `y` as the column
    index, the other way round from the path-search grids.  The explorer's
    `visited` matrix is a set of positions threaded through the calls. */
module GameMapDfs {
  import opened Wrappers
  import Grid

  /** `CellType`. */
  const EmptyCell := 0
  const WallCell := 1
  const TreasureCell := 2
  const EnemyCell := 3

  datatype Pos = Pos(x: int, y: int)

  type Map = seq<seq<int>>

  /** The constructor reads `mapData[0].length`, so a map has a first row. */
  predicate Valid(m: Map) {
    |m| > 0
  }

  function Rows(m: Map): nat {
    |m|
  }

  /** `cols` is the length of the first row. */
  function Cols(m: Map): nat
    requires Valid(m)
  {
    |m[0]|
  }

  /** `map[x][y]`; `None` stands for `undefined`, read past a row's end. */
  function At(m: Map, p: Pos): Option<int> {
    if 0 <= p.x < |m| && 0 <= p.y < |m[p.x]| then Some(m[p.x][p.y]) else None
  }

  /** Inside the `rows x cols` rectangle and not a wall.  A cell past the end
      of a row shorter than the first reads `undefined`, which is not `WALL`. */
  predicate Open(m: Map, p: Pos)
    requires Valid(m)
  {
    0 <= p.x < Rows(m) && 0 <= p.y < Cols(m) && At(m, p) != Some(WallCell)
  }

  /** `isValidAndPassable`: open and not yet visited. */
  predicate ValidAndPassable(m: Map, visited: set<Pos>, p: Pos)
    requires Valid(m)
  {
    Open(m, p) && p !in visited
  }

  /** Every position of the rectangle. */
  function Cells(m: Map): set<Pos>
    requires Valid(m)
  {
    set x, y | 0 <= x < Rows(m) && 0 <= y < Cols(m) :: Pos(x, y)
  }

  /** Marking an open unvisited cell leaves fewer cells unvisited. */
  lemma Fewer(m: Map, v: set<Pos>, p: Pos)
    requires Valid(m) && ValidAndPassable(m, v, p)
    ensures |Cells(m) - (v + {p})| < |Cells(m) - v|
  {
    assert p == Pos(p.x, p.y);
    assert p in Cells(m) - v;
    assert Cells(m) - (v + {p}) == (Cells(m) - v) - {p};
  }

  /** `directions[k]`: up, right, down, left. */
  function Step(p: Pos, k: int): Pos
    requires 0 <= k < 4
  {
    if k == 0 then Pos(p.x - 1, p.y)
    else if k == 1 then Pos(p.x, p.y + 1)
    else if k == 2 then Pos(p.x + 1, p.y)
    else Pos(p.x, p.y - 1)
  }

  /** One row or one column apart. */
  predicate Adjacent(a: Pos, b: Pos) {
    Grid.Abs(a.x - b.x) + Grid.Abs(a.y - b.y) == 1
  }

  /** Each direction leads to a neighbouring cell. */
  lemma StepAdjacent(p: Pos, k: int)
    requires 0 <= k < 4
    ensures Adjacent(p, Step(p, k))
  {
  }

  /** The four directions reach exactly the adjacent positions. */
  lemma AdjacentStep(a: Pos, b: Pos) returns (k: int)
    requires Adjacent(a, b)
    ensures 0 <= k < 4 && Step(a, k) == b
  {
    if b.x == a.x - 1 {
      k := 0;
    } else if b.y == a.y + 1 {
      k := 1;
    } else if b.x == a.x + 1 {
      k := 2;
    } else {
      k := 3;
    }
  }

  // ------------------------------------------------------------------ walks

  /** A nonempty sequence of open cells, each adjacent to the next. */
  ghost predicate IsWalk(m: Map, w: seq<Pos>)
    requires Valid(m)
  {
    |w| > 0 &&
    (forall i :: 0 <= i < |w| ==> Open(m, w[i])) &&
    (forall i :: 0 <= i < |w| - 1 ==> Adjacent(w[i], w[i + 1]))
  }

  /** `b` lies in the 4-connected open region of `a`. */
  ghost predicate Reach(m: Map, a: Pos, b: Pos)
    requires Valid(m)
  {
    exists w :: IsWalk(m, w) && w[0] == a && w[|w| - 1] == b
  }

  lemma ReachSelf(m: Map, a: Pos)
    requires Valid(m) && Open(m, a)
    ensures Reach(m, a, a)
  {
    assert IsWalk(m, [a]);
  }

  /** A step in front of a walk. */
  lemma ReachFront(m: Map, a: Pos, b: Pos, c: Pos)
    requires Valid(m) && Open(m, a) && Adjacent(a, b) && Reach(m, b, c)
    ensures Reach(m, a, c)
  {
    var w :| IsWalk(m, w) && w[0] == b && w[|w| - 1] == c;
    var w' := [a] + w;
    forall i | 0 <= i < |w'| - 1
      ensures Adjacent(w'[i], w'[i + 1])
    {
      if i > 0 {
        assert w'[i] == w[i - 1] && w'[i + 1] == w[i];
      }
    }
    assert IsWalk(m, w');
  }

  /** A walk read backwards. */
  lemma ReachBack(m: Map, a: Pos, b: Pos)
    requires Valid(m) && Reach(m, a, b)
    ensures Reach(m, b, a)
  {
    var w :| IsWalk(m, w) && w[0] == a && w[|w| - 1] == b;
    var n := |w|;
    var r := seq(n, i requires 0 <= i < n => w[n - 1 - i]);
    forall i | 0 <= i < n - 1
      ensures Adjacent(r[i], r[i + 1])
    {
      assert Adjacent(w[n - 2 - i], w[n - 1 - i]);
    }
    assert IsWalk(m, r);
  }

  /** Every open neighbour of `c` is in `s`. */
  predicate Closed(m: Map, s: set<Pos>, c: Pos)
    requires Valid(m)
  {
    forall k :: 0 <= k < 4 ==> Open(m, Step(c, k)) ==> Step(c, k) in s
  }

  predicate ClosedSet(m: Map, s: set<Pos>)
    requires Valid(m)
  {
    forall c :: c in s ==> Closed(m, s, c)
  }

  lemma ClosedGrow(m: Map, s: set<Pos>, s': set<Pos>, c: Pos)
    requires Valid(m) && Closed(m, s, c) && s <= s'
    ensures Closed(m, s', c)
  {
  }

  /** Cells closed in a middle set `b`, followed by cells closed in the
      final set `c`, are all closed in `c`. */
  lemma ClosedThrough(m: Map, a: set<Pos>, b: set<Pos>, c: set<Pos>)
    requires Valid(m) && a <= b <= c
    requires forall x :: x in b - a ==> Closed(m, b, x)
    requires forall x :: x in c - b ==> Closed(m, c, x)
    ensures forall x :: x in c - a ==> Closed(m, c, x)
  {
    ClosedAllGrow(m, b, c, b - a);
  }

  lemma ClosedAllGrow(m: Map, s: set<Pos>, s': set<Pos>, t: set<Pos>)
    requires Valid(m) && s <= s' && forall c :: c in t ==> Closed(m, s, c)
    ensures forall c :: c in t ==> Closed(m, s', c)
  {
    forall c | c in t
      ensures Closed(m, s', c)
    {
      ClosedGrow(m, s, s', c);
    }
  }

  /** A set closed under open neighbours holds everything reachable from
      its members. */
  lemma ClosedHolds(m: Map, s: set<Pos>, a: Pos, b: Pos)
    requires Valid(m) && ClosedSet(m, s) && a in s && Reach(m, a, b)
    ensures b in s
  {
    var w :| IsWalk(m, w) && w[0] == a && w[|w| - 1] == b;
    WalkInside(m, s, w, |w| - 1);
  }

  lemma {:induction false} WalkInside(m: Map, s: set<Pos>, w: seq<Pos>, i: nat)
    requires Valid(m) && ClosedSet(m, s) && IsWalk(m, w) && w[0] in s && i < |w|
    ensures w[i] in s
  {
    if i > 0 {
      WalkInside(m, s, w, i - 1);
      assert Adjacent(w[i - 1], w[i]);
      var k := AdjacentStep(w[i - 1], w[i]);
      assert Closed(m, s, w[i - 1]);
    }
  }

  // ------------------------------------------------------------- exploration

  /** The explorer's state: the `visited` matrix and the cells listed in
      visiting order (`visitedCells`, or a component's list). */
  datatype Walk = Walk(visited: set<Pos>, cells: seq<Pos>)

  /** `s` lists the set `t`, each member once. */
  ghost predicate Lists(s: seq<Pos>, t: set<Pos>) {
    Grid.Distinct(s) && forall c :: c in s <==> c in t
  }

  /** `r` extends `e`'s list by exactly the cells it newly visited. */
  ghost predicate Added(e: Walk, r: Walk) {
    |e.cells| <= |r.cells| && r.cells[..|e.cells|] == e.cells &&
    Lists(r.cells[|e.cells|..], r.visited - e.visited)
  }

  lemma AddedTrans(e: Walk, e1: Walk, e2: Walk)
    requires Added(e, e1) && Added(e1, e2) && e.visited <= e1.visited <= e2.visited
    ensures Added(e, e2)
  {
    var a, b := e1.cells[|e.cells|..], e2.cells[|e1.cells|..];
    assert e2.cells[..|e1.cells|][..|e.cells|] == e2.cells[..|e.cells|];
    assert e2.cells[|e.cells|..] == a + b by {
      assert e2.cells == e1.cells + b;
      assert e1.cells == e.cells + a;
    }
    forall i, j | 0 <= i < j < |a + b|
      ensures (a + b)[i] != (a + b)[j]
    {
      if i < |a| && j >= |a| {
        assert (a + b)[i] in a && (a + b)[j] in b;
      }
    }
  }

  /** The body of `dfsRecursive` (and of `dfsComponent`): mark and list
      the cell, then explore the four directions in order. */
  function Visit(m: Map, e: Walk, p: Pos): (r: Walk)
    requires Valid(m) && ValidAndPassable(m, e.visited, p)
    ensures e.visited <= r.visited && p in r.visited
    ensures forall c :: c in r.visited - e.visited ==> Open(m, c)
    ensures Added(e, r) && |r.cells| > |e.cells| && r.cells[|e.cells|] == p
    decreases |Cells(m) - e.visited|, 0
  {
    Fewer(m, e.visited, p);
    var e' := Walk(e.visited + {p}, e.cells + [p]);
    assert Added(e, e') by {
      assert e'.cells[|e.cells|..] == [p];
    }
    var r := Dirs(m, e', p, 0);
    AddedTrans(e, e', r);
    assert r.cells[..|e'.cells|][|e.cells|] == p;
    r
  }

  /** The `for (const dir of this.directions)` loop from direction `k` on:
      an open unvisited neighbour is explored before the next direction. */
  function Dirs(m: Map, e: Walk, p: Pos, k: nat): (r: Walk)
    requires Valid(m) && k <= 4
    ensures e.visited <= r.visited
    ensures forall c :: c in r.visited - e.visited ==> Open(m, c)
    ensures Added(e, r)
    decreases |Cells(m) - e.visited|, 5 - k
  {
    if k == 4 then
      assert e.cells[|e.cells|..] == [];
      e
    else
      var q := Step(p, k);
      if ValidAndPassable(m, e.visited, q) then
        var e1 := Visit(m, e, q);
        Grid.SubsetSmaller(Cells(m) - e1.visited, Cells(m) - e.visited);
        var r := Dirs(m, e1, p, k + 1);
        AddedTrans(e, e1, r);
        r
      else Dirs(m, e, p, k + 1)
  }

  /** Every cell an exploration from `p` visits is reachable from `p`. */
  lemma {:induction false} VisitReach(m: Map, e: Walk, p: Pos)
    requires Valid(m) && ValidAndPassable(m, e.visited, p)
    ensures forall c :: c in Visit(m, e, p).visited - e.visited ==> Reach(m, p, c)
    decreases |Cells(m) - e.visited|, 0
  {
    Fewer(m, e.visited, p);
    ReachSelf(m, p);
    DirsReach(m, Walk(e.visited + {p}, e.cells + [p]), p, 0);
  }

  lemma {:induction false} DirsReach(m: Map, e: Walk, p: Pos, k: nat)
    requires Valid(m) && k <= 4 && Open(m, p)
    ensures forall c :: c in Dirs(m, e, p, k).visited - e.visited ==> Reach(m, p, c)
    decreases |Cells(m) - e.visited|, 5 - k
  {
    if k < 4 {
      var q := Step(p, k);
      if ValidAndPassable(m, e.visited, q) {
        var e1 := Visit(m, e, q);
        VisitReach(m, e, q);
        Grid.SubsetSmaller(Cells(m) - e1.visited, Cells(m) - e.visited);
        DirsReach(m, e1, p, k + 1);
        DirsVisits(m, e, p, k);
        StepAdjacent(p, k);
        ReachThrough(m, p, q, e.visited, e1.visited, Dirs(m, e1, p, k + 1).visited);
      } else {
        DirsReach(m, e, p, k + 1);
      }
    }
  }

  /** One round of the direction loop whose neighbour is open and new
      explores from it, then goes on with the next direction. */
  lemma DirsVisits(m: Map, e: Walk, p: Pos, k: nat)
    requires Valid(m) && k < 4 && ValidAndPassable(m, e.visited, Step(p, k))
    ensures Dirs(m, e, p, k) == Dirs(m, Visit(m, e, Step(p, k)), p, k + 1)
  {
  }

  /** Cells reached from a neighbour `q` of `p`, followed by cells reached
      from `p` itself, are all reached from `p`. */
  lemma ReachThrough(m: Map, p: Pos, q: Pos, a: set<Pos>, b: set<Pos>, c: set<Pos>)
    requires Valid(m) && Open(m, p) && Adjacent(p, q)
    requires forall x :: x in b - a ==> Reach(m, q, x)
    requires forall x :: x in c - b ==> Reach(m, p, x)
    ensures forall x :: x in c - a ==> Reach(m, p, x)
  {
    ReachAllFront(m, p, q, b - a);
  }

  lemma ReachAllFront(m: Map, a: Pos, b: Pos, s: set<Pos>)
    requires Valid(m) && Open(m, a) && Adjacent(a, b)
    requires forall c :: c in s ==> Reach(m, b, c)
    ensures forall c :: c in s ==> Reach(m, a, c)
  {
    forall c | c in s
      ensures Reach(m, a, c)
    {
      ReachFront(m, a, b, c);
    }
  }

  /** After an exploration from `p`, every open neighbour of every cell it
      visited has been visited. */
  lemma {:induction false} VisitClosed(m: Map, e: Walk, p: Pos)
    requires Valid(m) && ValidAndPassable(m, e.visited, p)
    ensures forall c :: c in Visit(m, e, p).visited - e.visited ==> Closed(m, Visit(m, e, p).visited, c)
    decreases |Cells(m) - e.visited|, 0
  {
    Fewer(m, e.visited, p);
    var e' := Walk(e.visited + {p}, e.cells + [p]);
    DirsClosed(m, e', p, 0);
    DirsCover(m, e', p, 0);
    var r := Dirs(m, e', p, 0);
    assert Visit(m, e, p) == r;
    forall c | c in r.visited - e.visited
      ensures Closed(m, r.visited, c)
    {
      if c != p {
        assert c in r.visited - e'.visited;
      }
    }
  }

  lemma {:induction false} DirsClosed(m: Map, e: Walk, p: Pos, k: nat)
    requires Valid(m) && k <= 4
    ensures forall c :: c in Dirs(m, e, p, k).visited - e.visited ==> Closed(m, Dirs(m, e, p, k).visited, c)
    decreases |Cells(m) - e.visited|, 5 - k
  {
    if k < 4 {
      var q := Step(p, k);
      if ValidAndPassable(m, e.visited, q) {
        var e1 := Visit(m, e, q);
        VisitClosed(m, e, q);
        Grid.SubsetSmaller(Cells(m) - e1.visited, Cells(m) - e.visited);
        DirsClosed(m, e1, p, k + 1);
        DirsVisits(m, e, p, k);
        ClosedThrough(m, e.visited, e1.visited, Dirs(m, e1, p, k + 1).visited);
      } else {
        DirsClosed(m, e, p, k + 1);
      }
    }
  }

  /** The direction loop from `k` on leaves every open neighbour in those
      directions visited. */
  lemma {:induction false} DirsCover(m: Map, e: Walk, p: Pos, k: nat)
    requires Valid(m) && k <= 4
    ensures forall j :: k <= j < 4 && Open(m, Step(p, j)) ==> Step(p, j) in Dirs(m, e, p, k).visited
    decreases 4 - k
  {
    if k < 4 {
      var q := Step(p, k);
      if ValidAndPassable(m, e.visited, q) {
        DirsCover(m, Visit(m, e, q), p, k + 1);
      } else {
        DirsCover(m, e, p, k + 1);
      }
    }
  }

  /** Exploring from an unvisited open cell next to a closed set visits
      exactly that cell's region, and nothing the set already held. */
  lemma VisitRegion(m: Map, v: set<Pos>, cells: seq<Pos>, p: Pos)
    requires Valid(m) && ValidAndPassable(m, v, p) && ClosedSet(m, v)
    ensures ClosedSet(m, Visit(m, Walk(v, cells), p).visited)
    ensures forall c :: c in Visit(m, Walk(v, cells), p).visited - v <==> Reach(m, p, c)
  {
    var r := Visit(m, Walk(v, cells), p);
    VisitReach(m, Walk(v, cells), p);
    VisitClosed(m, Walk(v, cells), p);
    forall c | c in v
      ensures Closed(m, r.visited, c)
    {
      ClosedGrow(m, v, r.visited, c);
    }
    forall c | Reach(m, p, c)
      ensures c in r.visited - v
    {
      ClosedHolds(m, r.visited, p, c);
      if c in v {
        ReachBack(m, p, c);
        ClosedHolds(m, v, c, p);
      }
    }
  }

  /** The cells of `s` holding `kind`, in order. */
  function OfKind(m: Map, s: seq<Pos>, kind: int): (r: seq<Pos>)
    ensures forall c :: c in r <==> c in s && At(m, c) == Some(kind)
    ensures Grid.Distinct(s) ==> Grid.Distinct(r)
  {
    if |s| == 0 then []
    else
      var rest := OfKind(m, s[1..], kind);
      assert forall c :: c in s <==> c == s[0] || c in s[1..];
      if At(m, s[0]) == Some(kind) then [s[0]] + rest else rest
  }

  datatype Exploration = Exploration(visitedCells: seq<Pos>, treasuresFound: seq<Pos>, enemiesEncountered: seq<Pos>)

  /** `exploreAreaDFS`.  The `switch` after each visit files the cell under
      treasures or enemies at the moment it is listed, so those lists are
      the visiting order filtered by cell code.  An invalid start gives
      three empty lists; otherwise the cells listed are the start's region,
      each once. */
  function ExploreArea(m: Map, start: Pos): (r: Exploration)
    requires Valid(m)
    ensures !Open(m, start) ==> r == Exploration([], [], [])
    ensures Grid.Distinct(r.visitedCells)
    ensures Open(m, start) ==> |r.visitedCells| > 0 && r.visitedCells[0] == start
    ensures forall c :: c in r.visitedCells <==> Reach(m, start, c)
    ensures forall c :: c in r.treasuresFound <==> c in r.visitedCells && At(m, c) == Some(TreasureCell)
    ensures forall c :: c in r.enemiesEncountered <==> c in r.visitedCells && At(m, c) == Some(EnemyCell)
  {
    if !ValidAndPassable(m, {}, start) then
      assert forall c :: !Reach(m, start, c);
      Exploration([], [], [])
    else
      var w := Visit(m, Walk({}, []), start);
      VisitRegion(m, {}, [], start);
      assert w.cells[0..] == w.cells;
      Exploration(w.cells, OfKind(m, w.cells, TreasureCell), OfKind(m, w.cells, EnemyCell))
  }

  // ------------------------------------------------------------ path finding

  /** `dfsPathFind(x, y)`: mark the cell; succeed on the target; otherwise
      try the four directions and report failure.  The shared `path` array,
      pushed on entry and popped on failure, holds on success the cells of
      the successful calls from the outermost in: this cell followed by the
      path of the successful child. */
  function Seek(m: Map, t: Pos, v: set<Pos>, p: Pos): (r: (set<Pos>, Option<seq<Pos>>))
    requires Valid(m) && ValidAndPassable(m, v, p)
    ensures v <= r.0 && p in r.0
    ensures forall c :: c in r.0 - v ==> Open(m, c)
    ensures r.1.Some? ==> var w := r.1.value;
      IsWalk(m, w) && w[0] == p && w[|w| - 1] == t && Grid.Distinct(w) && forall c :: c in w ==> c in r.0 - v
    ensures r.1.None? ==> t !in r.0 - v
    decreases |Cells(m) - v|, 0
  {
    Fewer(m, v, p);
    if p == t then
      assert IsWalk(m, [p]);
      (v + {p}, Some([p]))
    else
      var r := SeekDirs(m, t, v + {p}, p, 0);
      if r.1.None? then r
      else
        var w := [p] + r.1.value;
        assert IsWalk(m, w) by {
          forall i | 0 <= i < |w| - 1
            ensures Adjacent(w[i], w[i + 1])
          {
            if i > 0 {
              assert w[i] == r.1.value[i - 1] && w[i + 1] == r.1.value[i];
            }
          }
        }
        assert Grid.Distinct(w) by {
          forall i, j | 0 <= i < j < |w|
            ensures w[i] != w[j]
          {
            if i == 0 {
              assert w[j] in r.1.value;
            } else {
              assert w[i] == r.1.value[i - 1] && w[j] == r.1.value[j - 1];
            }
          }
        }
        (r.0, Some(w))
  }

  /** The direction loop of `dfsPathFind` from direction `k` on; a found
      path starts at the neighbour that found it. */
  function SeekDirs(m: Map, t: Pos, v: set<Pos>, p: Pos, k: nat): (r: (set<Pos>, Option<seq<Pos>>))
    requires Valid(m) && k <= 4
    ensures v <= r.0
    ensures forall c :: c in r.0 - v ==> Open(m, c)
    ensures r.1.Some? ==> var w := r.1.value;
      IsWalk(m, w) && Adjacent(p, w[0]) && w[|w| - 1] == t && Grid.Distinct(w) && forall c :: c in w ==> c in r.0 - v
    ensures r.1.None? ==> t !in r.0 - v
    decreases |Cells(m) - v|, 5 - k
  {
    if k == 4 then (v, None)
    else
      var q := Step(p, k);
      if ValidAndPassable(m, v, q) then
        var r1 := Seek(m, t, v, q);
        if r1.1.Some? then r1
        else
          Grid.SubsetSmaller(Cells(m) - r1.0, Cells(m) - v);
          SeekDirs(m, t, r1.0, p, k + 1)
      else SeekDirs(m, t, v, p, k + 1)
  }

  /** A search that fails leaves every open neighbour of every cell it
      visited visited. */
  lemma {:induction false} SeekClosed(m: Map, t: Pos, v: set<Pos>, p: Pos)
    requires Valid(m) && ValidAndPassable(m, v, p)
    ensures Seek(m, t, v, p).1.None? ==>
      forall c :: c in Seek(m, t, v, p).0 - v ==> Closed(m, Seek(m, t, v, p).0, c)
    decreases |Cells(m) - v|, 0
  {
    Fewer(m, v, p);
    if p != t {
      SeekDirsClosed(m, t, v + {p}, p, 0);
      SeekDirsCover(m, t, v + {p}, p, 0);
    }
  }

  lemma {:induction false} SeekDirsClosed(m: Map, t: Pos, v: set<Pos>, p: Pos, k: nat)
    requires Valid(m) && k <= 4
    ensures SeekDirs(m, t, v, p, k).1.None? ==>
      forall c :: c in SeekDirs(m, t, v, p, k).0 - v ==> Closed(m, SeekDirs(m, t, v, p, k).0, c)
    decreases |Cells(m) - v|, 5 - k
  {
    if k < 4 {
      var q := Step(p, k);
      if ValidAndPassable(m, v, q) {
        var r1 := Seek(m, t, v, q);
        if r1.1.None? {
          SeekClosed(m, t, v, q);
          Grid.SubsetSmaller(Cells(m) - r1.0, Cells(m) - v);
          SeekDirsClosed(m, t, r1.0, p, k + 1);
          var r := SeekDirs(m, t, r1.0, p, k + 1);
          forall c | c in r1.0 - v
            ensures Closed(m, r.0, c)
          {
            ClosedGrow(m, r1.0, r.0, c);
          }
        }
      } else {
        SeekDirsClosed(m, t, v, p, k + 1);
      }
    }
  }

  /** A failed direction loop from `k` on leaves every open neighbour in
      those directions visited. */
  lemma {:induction false} SeekDirsCover(m: Map, t: Pos, v: set<Pos>, p: Pos, k: nat)
    requires Valid(m) && k <= 4
    ensures SeekDirs(m, t, v, p, k).1.None? ==>
      forall j :: k <= j < 4 && Open(m, Step(p, j)) ==> Step(p, j) in SeekDirs(m, t, v, p, k).0
    decreases 4 - k
  {
    if k < 4 {
      var q := Step(p, k);
      if ValidAndPassable(m, v, q) {
        var r1 := Seek(m, t, v, q);
        if r1.1.None? {
          SeekDirsCover(m, t, r1.0, p, k + 1);
        }
      } else {
        SeekDirsCover(m, t, v, p, k + 1);
      }
    }
  }

  /** A failed search from `start` has visited the whole region of `start`,
      and the target is not in it. */
  lemma NotFound(m: Map, start: Pos, target: Pos)
    requires Valid(m) && ValidAndPassable(m, {}, start) && Seek(m, target, {}, start).1.None?
    ensures !Reach(m, start, target)
  {
    SeekClosed(m, target, {}, start);
    if Reach(m, start, target) {
      ClosedHolds(m, Seek(m, target, {}, start).0, start, target);
    }
  }

  /** `findPathDFS`: `null` for an invalid start; otherwise a walk from
      start to target without repeated cells, or `null` exactly when the
      target lies outside the start's region. */
  function FindPathDfs(m: Map, start: Pos, target: Pos): (r: Option<seq<Pos>>)
    requires Valid(m)
    ensures r.Some? ==> var w := r.value;
      IsWalk(m, w) && w[0] == start && w[|w| - 1] == target && Grid.Distinct(w)
    ensures r.None? <==> !Reach(m, start, target)
  {
    if !ValidAndPassable(m, {}, start) then
      assert !Reach(m, start, target);
      None
    else
      var r := Seek(m, target, {}, start);
      if r.1.None? then
        NotFound(m, start, target);
        None
      else
        r.1
  }

  // ---------------------------------------------------- connected components

  /** Some list of `comps` holds `c`. */
  ghost predicate InSome(comps: seq<seq<Pos>>, c: Pos) {
    exists i :: 0 <= i < |comps| && c in comps[i]
  }

  /** Each list is a whole region, listed once from its first cell, and no
      two lists share a cell. */
  ghost predicate Regions(m: Map, comps: seq<seq<Pos>>)
    requires Valid(m)
  {
    (forall i :: 0 <= i < |comps| ==> |comps[i]| > 0 && Grid.Distinct(comps[i])) &&
    (forall i, c :: 0 <= i < |comps| ==> (c in comps[i] <==> Reach(m, comps[i][0], c))) &&
    (forall i, j, c :: 0 <= i < j < |comps| && c in comps[i] ==> c !in comps[j])
  }

  /** `c` comes before `(x, y)` in row-major order. */
  predicate Before(c: Pos, x: int, y: int) {
    c.x < x || (c.x == x && c.y < y)
  }

  /** The state of the scan before position `(x, y)`: the visited cells are
      the union of the regions found, closed under open neighbours, and hold
      every open cell scanned so far. */
  ghost predicate ScanInv(m: Map, v: set<Pos>, comps: seq<seq<Pos>>, x: int, y: int)
    requires Valid(m)
  {
    Regions(m, comps) && ClosedSet(m, v) &&
    (forall c :: c in v <==> InSome(comps, c)) &&
    (forall c :: Open(m, c) && Before(c, x, y) ==> c in v)
  }

  /** The nested `for` loops of `findConnectedComponents` from position
      `(x, y)` on: each open unvisited cell starts a new component. */
  function Scan(m: Map, v: set<Pos>, comps: seq<seq<Pos>>, x: nat, y: nat): (r: seq<seq<Pos>>)
    requires Valid(m) && x <= Rows(m) && y <= Cols(m)
    requires ScanInv(m, v, comps, x, y)
    ensures Regions(m, r)
    ensures forall c :: Open(m, c) <==> InSome(r, c)
    decreases Rows(m) - x, Cols(m) - y
  {
    if x == Rows(m) then
      assert forall c :: Open(m, c) <==> InSome(comps, c) by {
        forall c | InSome(comps, c)
          ensures Open(m, c)
        {
          var i :| 0 <= i < |comps| && c in comps[i];
          var w :| IsWalk(m, w) && w[0] == comps[i][0] && w[|w| - 1] == c;
        }
      }
      comps
    else if y == Cols(m) then
      Scan(m, v, comps, x + 1, 0)
    else
      var p := Pos(x, y);
      if ValidAndPassable(m, v, p) then
        var w := Visit(m, Walk(v, []), p);
        VisitRegion(m, v, [], p);
        ScanStep(m, v, comps, x, y, w);
        Scan(m, w.visited, comps + [w.cells], x, y + 1)
      else
        Scan(m, v, comps, x, y + 1)
  }

  /** Adding the region of a newly found cell keeps the scan's state. */
  lemma ScanStep(m: Map, v: set<Pos>, comps: seq<seq<Pos>>, x: int, y: int, w: Walk)
    requires Valid(m) && ScanInv(m, v, comps, x, y) && ValidAndPassable(m, v, Pos(x, y))
    requires w == Visit(m, Walk(v, []), Pos(x, y))
    requires ClosedSet(m, w.visited) && forall c :: c in w.visited - v <==> Reach(m, Pos(x, y), c)
    ensures ScanInv(m, w.visited, comps + [w.cells], x, y + 1)
  {
    assert w.cells[0..] == w.cells;
    assert Lists(w.cells, w.visited - v);
    assert w.cells[0] == Pos(x, y);
    UnionAppend(comps, v, w.visited, w.cells);
    RegionsAppend(m, comps, w.cells, v);
  }

  /** Appending a list of the cells new to `v'` keeps the lists' union equal
      to the visited set. */
  lemma UnionAppend(comps: seq<seq<Pos>>, v: set<Pos>, v': set<Pos>, cells: seq<Pos>)
    requires v <= v' && Lists(cells, v' - v)
    requires forall c :: c in v <==> InSome(comps, c)
    ensures forall c :: c in v' <==> InSome(comps + [cells], c)
  {
    var comps' := comps + [cells];
    forall c
      ensures c in v' <==> InSome(comps', c)
    {
      if c in v' - v {
        assert c in comps'[|comps|];
      } else if InSome(comps', c) {
        var i :| 0 <= i < |comps'| && c in comps'[i];
        if i < |comps| {
          assert c in comps[i];
        }
      }
      if c in v {
        var i :| 0 <= i < |comps| && c in comps[i];
        assert comps'[i] == comps[i];
      }
    }
  }

  /** A region disjoint from the earlier ones may be appended to them. */
  lemma RegionsAppend(m: Map, comps: seq<seq<Pos>>, cells: seq<Pos>, v: set<Pos>)
    requires Valid(m) && Regions(m, comps) && |cells| > 0 && Grid.Distinct(cells)
    requires forall c :: c in v <==> InSome(comps, c)
    requires forall c :: c in cells ==> c !in v
    requires forall c :: c in cells <==> Reach(m, cells[0], c)
    ensures Regions(m, comps + [cells])
  {
    var comps' := comps + [cells];
    forall i, c | 0 <= i < |comps'|
      ensures c in comps'[i] <==> Reach(m, comps'[i][0], c)
    {
      if i < |comps| {
        assert comps'[i] == comps[i];
      }
    }
    forall i, j, c | 0 <= i < j < |comps'| && c in comps'[i]
      ensures c !in comps'[j]
    {
      assert comps'[i] == comps[i];
      if j == |comps| {
        assert InSome(comps, c);
      } else {
        assert comps'[j] == comps[j];
      }
    }
  }

  /** `findConnectedComponents`: the open cells split into their regions,
      each listed once from the first of its cells in row-major order. */
  function Components(m: Map): (comps: seq<seq<Pos>>)
    requires Valid(m)
    ensures forall i :: 0 <= i < |comps| ==> |comps[i]| > 0 && Grid.Distinct(comps[i])
    ensures forall i, c :: 0 <= i < |comps| ==> (c in comps[i] <==> Reach(m, comps[i][0], c))
    ensures forall i, j, c :: 0 <= i < j < |comps| && c in comps[i] ==> c !in comps[j]
    ensures forall c :: Open(m, c) <==> InSome(comps, c)
  {
    Scan(m, {}, [], 0, 0)
  }

  // ----------------------------------------------------------- iterative DFS

  /** The directions pushed from `p` in order, from direction `k` on: those
      open and unvisited at the time. */
  function Pushes(m: Map, v: set<Pos>, p: Pos, k: nat): (r: seq<Pos>)
    requires Valid(m) && k <= 4
    ensures forall c :: c in r ==> ValidAndPassable(m, v, c)
    ensures forall j :: k <= j < 4 && ValidAndPassable(m, v, Step(p, j)) ==> Step(p, j) in r
    decreases 4 - k
  {
    if k == 4 then []
    else
      var rest := Pushes(m, v, p, k + 1);
      if ValidAndPassable(m, v, Step(p, k)) then [Step(p, k)] + rest else rest
  }

  /** The `while (stack.length > 0)` loop of `exploreAreaIterativeDFS`: pop
      the top; skip it when it is not open or already visited; otherwise
      visit and list it and push its open unvisited neighbours. */
  function Iterate(m: Map, v: set<Pos>, cells: seq<Pos>, stack: seq<Pos>): (r: seq<Pos>)
    requires Valid(m)
    decreases |Cells(m) - v|, |stack|
  {
    if |stack| == 0 then cells
    else
      var cur := stack[|stack| - 1];
      var rest := stack[..|stack| - 1];
      if !ValidAndPassable(m, v, cur) then Iterate(m, v, cells, rest)
      else
        Fewer(m, v, cur);
        Iterate(m, v + {cur}, cells + [cur], rest + Pushes(m, v + {cur}, cur, 0))
  }

  /** The loop's invariant for a start `s`: the listed cells are the visited
      ones, all in `s`'s region; every stacked open cell is in that region;
      the start is visited or stacked when open; every open neighbour of a
      visited cell is visited or stacked. */
  ghost predicate IterInv(m: Map, s: Pos, v: set<Pos>, cells: seq<Pos>, stack: seq<Pos>)
    requires Valid(m)
  {
    Lists(cells, v) &&
    (forall c :: c in v ==> Reach(m, s, c)) &&
    (forall c :: c in stack && Open(m, c) ==> Reach(m, s, c)) &&
    (Open(m, s) ==> s in v || s in stack) &&
    (forall c, k :: c in v && 0 <= k < 4 && Open(m, Step(c, k)) ==> Step(c, k) in v || Step(c, k) in stack)
  }

  lemma {:induction false} IterateRegion(m: Map, s: Pos, v: set<Pos>, cells: seq<Pos>, stack: seq<Pos>)
    requires Valid(m) && IterInv(m, s, v, cells, stack)
    ensures Grid.Distinct(Iterate(m, v, cells, stack))
    ensures forall c :: c in Iterate(m, v, cells, stack) <==> Reach(m, s, c)
    decreases |Cells(m) - v|, |stack|
  {
    if |stack| == 0 {
      IterDone(m, s, v, cells);
    } else {
      var cur := stack[|stack| - 1];
      var rest := stack[..|stack| - 1];
      if !ValidAndPassable(m, v, cur) {
        IterSkip(m, s, v, cells, stack);
        IterateRegion(m, s, v, cells, rest);
      } else {
        Fewer(m, v, cur);
        var v' := v + {cur};
        IterVisit(m, s, v, cells, stack);
        IterateRegion(m, s, v', cells + [cur], rest + Pushes(m, v', cur, 0));
      }
    }
  }

  /** With the stack empty the visited cells are closed, so they are the
      whole region of the start. */
  lemma IterDone(m: Map, s: Pos, v: set<Pos>, cells: seq<Pos>)
    requires Valid(m) && IterInv(m, s, v, cells, [])
    ensures forall c :: c in cells <==> Reach(m, s, c)
  {
    if Open(m, s) {
      assert ClosedSet(m, v);
      forall c | Reach(m, s, c)
        ensures c in v
      {
        ClosedHolds(m, v, s, c);
      }
    }
  }

  /** Popping a cell that is closed or already visited keeps the invariant. */
  lemma IterSkip(m: Map, s: Pos, v: set<Pos>, cells: seq<Pos>, stack: seq<Pos>)
    requires Valid(m) && IterInv(m, s, v, cells, stack) && |stack| > 0
    requires !ValidAndPassable(m, v, stack[|stack| - 1])
    ensures IterInv(m, s, v, cells, stack[..|stack| - 1])
  {
    var rest := stack[..|stack| - 1];
    assert forall c :: c in stack <==> c in rest || c == stack[|stack| - 1];
  }

  /** Visiting the popped cell and pushing its open unvisited neighbours
      keeps the invariant. */
  lemma IterVisit(m: Map, s: Pos, v: set<Pos>, cells: seq<Pos>, stack: seq<Pos>)
    requires Valid(m) && IterInv(m, s, v, cells, stack) && |stack| > 0
    requires ValidAndPassable(m, v, stack[|stack| - 1])
    ensures var cur := stack[|stack| - 1];
      IterInv(m, s, v + {cur}, cells + [cur], stack[..|stack| - 1] + Pushes(m, v + {cur}, cur, 0))
  {
    var cur := stack[|stack| - 1];
    var rest := stack[..|stack| - 1];
    var v' := v + {cur};
    var ps := Pushes(m, v', cur, 0);
    var stack' := rest + ps;
    assert forall c :: c in stack <==> c in rest || c == cur;
    assert Reach(m, s, cur);
    forall c | c in ps
      ensures Reach(m, s, c)
    {
      PushesFrom(m, v', cur, 0, c);
      var k :| 0 <= k < 4 && Step(cur, k) == c;
      ReachBack(m, s, cur);
      ReachFront(m, c, cur, s);
      ReachBack(m, c, s);
    }
    assert Lists(cells + [cur], v') by {
      forall i, j | 0 <= i < j < |cells + [cur]|
        ensures (cells + [cur])[i] != (cells + [cur])[j]
      {
        if j == |cells| {
          assert (cells + [cur])[i] in cells;
        }
      }
    }
  }

  /** Every pushed cell is a neighbour. */
  lemma {:induction false} PushesFrom(m: Map, v: set<Pos>, p: Pos, k: nat, c: Pos)
    requires Valid(m) && k <= 4 && c in Pushes(m, v, p, k)
    ensures exists j :: k <= j < 4 && Step(p, j) == c
    decreases 4 - k
  {
    if k < 4 && c != Step(p, k) {
      PushesFrom(m, v, p, k + 1, c);
    }
  }

  /** The loop's invariant holds for the initial stack `[start]`. */
  lemma IterateFrom(m: Map, start: Pos)
    requires Valid(m)
    ensures Grid.Distinct(Iterate(m, {}, [], [start]))
    ensures forall c :: c in Iterate(m, {}, [], [start]) <==> Reach(m, start, c)
  {
    if Open(m, start) {
      ReachSelf(m, start);
    }
    assert Lists([], {});
    IterateRegion(m, start, {}, [], [start]);
  }

  /** `exploreAreaIterativeDFS`: the start's region, each cell once, empty
      for an invalid start; the same cells `exploreAreaDFS` lists, in an
      order of its own. */
  function ExploreAreaIterative(m: Map, start: Pos): (r: seq<Pos>)
    requires Valid(m)
    ensures Grid.Distinct(r)
    ensures forall c :: c in r <==> Reach(m, start, c)
    ensures forall c :: c in r <==> c in ExploreArea(m, start).visitedCells
  {
    IterateFrom(m, start);
    Iterate(m, {}, [], [start])
  }
}
