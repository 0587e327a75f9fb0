/** Concrete runs of the bidirectional searches on one-row grids, showing
    how the searches as written differ from the repaired ones. */
module BidirectionalExamples {
  import opened Wrappers
  import opened Grid
  import VisitOnPop
  import opened Bidirectional

  /** The open 1 x 2 grid. */
  function Row2(): Grid {
    [[0, 0]]
  }

  /** On the open 1 x 2 grid, from `(0,0)` to `(1,0)`, the search returns
      the single cell `(0,0)`: the goal side meets at `(1,0)`, the
      start-side parent record of the goal is `(0,0)`, and the goal chain
      `[(1,0)]` loses its only cell. */
  lemma FindPathRow2()
    ensures FindPathBidirectional(Row2(), Point(0, 0), Point(1, 0), false) == Some([Point(0, 0)])
  {
    var g, s, t := Row2(), Point(0, 0), Point(1, 0);
    var c := Setup(g, s, t, false);
    RunRow2();
    var r := Run(c);
    assert ParentAt(r.1.fs, t) == Some(Rec(s, None));
    assert AsWritten(r.1, AtGoal(Rec(t, None))) == [s];
  }

  /** The run behind `FindPathRow2`: one start half-step marks `(1,0)` from
      `(0,0)`, then the goal side takes `(1,0)` off and meets. */
  lemma RunRow2()
    ensures var r := Run(Setup(Row2(), Point(0, 0), Point(1, 0), false));
      r.0 == Some(AtGoal(Rec(Point(1, 0), None))) && r.1.fs.parent == map[Point(1, 0) := Rec(Point(0, 0), None)]
  {
    var g, s, t := Row2(), Point(0, 0), Point(1, 0);
    var c := Setup(g, s, t, false);
    InitialInv(c);
    var st0 := Initial(c);
    Row2Neighbors();
    var fs1 := Half(g, false, st0.fs);
    assert Expand(Take(st0.fs), Rec(s, None), [t]) == Mark(Take(st0.fs), Rec(s, None), t);
    assert t in fs1.visited && fs1.parent == map[t := Rec(s, None)];
    var st1 := StepStart(c, st0);
    assert st1.fs == fs1 && st1.fg.queue == [Rec(t, None)];
    assert st0.fs.queue[0] == Rec(s, None) && s !in st0.fg.visited;
    assert t in st1.fs.visited;
    assert Run(c) == Loop(c, st0);
    assert Loop(c, st0).0 == Some(AtGoal(Rec(t, None)));
    assert Loop(c, st0).1.fs == fs1;
  }

  lemma Row2Neighbors()
    ensures Neighbors(Row2(), Point(0, 0), false) == [Point(1, 0)]
  {
    Row3CandidatesLeft();
    var s := [Point(1, 0), Point(-1, 0), Point(0, 1), Point(0, -1)];
    assert s[1..] == [Point(-1, 0), Point(0, 1), Point(0, -1)];
    assert s[1..][1..] == [Point(0, 1), Point(0, -1)];
    assert s[1..][1..][1..] == [Point(0, -1)];
    assert Walkable(Row2(), Point(1, 0));
    assert !Walkable(Row2(), Point(-1, 0)) && !Walkable(Row2(), Point(0, 1)) && !Walkable(Row2(), Point(0, -1));
  }

  /** On the open 1 x 2 grid the repaired search returns both cells. */
  lemma FixedRow2()
    ensures FindPathBidirectionalFixed(Row2(), Point(0, 0), Point(1, 0), false) == Some([Point(0, 0), Point(1, 0)])
  {
    var g, s, t := Row2(), Point(0, 0), Point(1, 0);
    assert Walkable(g, s) && Walkable(g, t);
    RunRow2();
    var r := Run(Setup(g, s, t, false));
    MeetRow2(r.1);
  }

  /** The walk through the goal, met by the goal side, when the start side
      recorded `(0,0)` as the goal's parent. */
  lemma MeetRow2(st: State)
    requires st.fs.parent == map[Point(1, 0) := Rec(Point(0, 0), None)]
    ensures MeetingWalk(st, AtGoal(Rec(Point(1, 0), None))) == [Point(0, 0), Point(1, 0)]
  {
    var s, t := Point(0, 0), Point(1, 0);
    assert NodeAt(st.fs, t) == Rec(t, Some(Rec(s, None)));
    assert Chain(Rec(t, Some(Rec(s, None)))) == [s, t];
    assert VisitOnPop.Reversed([t]) == [t];
  }

  /** The open 1 x 3 row. */
  function Row3(): Grid {
    [[0, 0, 0]]
  }

  /** On the open 1 x 3 row from `(0,0)` to `(2,0)` the generator reports a
      path, and that path is not a walk from `(0,0)` to `(2,0)`. */
  lemma GeneratorRow3()
    ensures var o := BidirectionalEvents(Row3(), Point(0, 0), Point(2, 0), false);
      o.path.Some? && !PathFromTo(Row3(), o.path.value, Point(0, 0), Point(2, 0), false)
  {
    assert PathFromTo(Row3(), [Point(0, 0), Point(1, 0), Point(2, 0)], Point(0, 0), Point(2, 0), false);
  }

  /** On the open 1 x 3 row from `(0,0)` with goal `(1,0)`, `bidirectionalAll`
      gives `(2,0)` distance 1, although every walk from `(0,0)` to `(2,0)`
      takes 2 steps: the merge copies the goal side's distance, measured
      from `(1,0)`. */
  lemma AllRow3()
    ensures var r := BidirectionalAll(Row3(), Point(0, 0), Point(1, 0), false);
      Point(2, 0) in r.0 && r.0[Point(2, 0)] == 1
    ensures IsDistance(Row3(), Point(0, 0), Point(2, 0), 2, false)
  {
    var g, s, t, u := Row3(), Point(0, 0), Point(1, 0), Point(2, 0);
    var c := Setup(g, s, t, false);
    var st1 := Row3FirstIteration();
    Row3SecondTurn(st1.a, st1.b.visited, st1.parent);
    var ta2 := WaveTurn(g, false, st1.a, st1.b.visited, st1.parent);
    Row3Merge(ta2.w.dist, st1.b.dist);
    assert AllLoop(c, st1) == (Merge(ta2.w.dist, st1.b.dist), st1.parent);
    Row3Distance();
  }

  /** The merge keeps the goal side's distance for `(2,0)`, which the start
      side has not reached. */
  lemma Row3Merge(a: map<Point, nat>, b: map<Point, nat>)
    requires a == map[Point(0, 0) := 0, Point(1, 0) := 1]
    requires b == map[Point(1, 0) := 0, Point(2, 0) := 1, Point(0, 0) := 1]
    ensures Point(2, 0) in Merge(a, b) && Merge(a, b)[Point(2, 0)] == 1
  {}

  /** The start side's second turn meets at `(1,0)`, which the goal side
      has visited. */
  lemma Row3SecondTurn(a: Wave, other: set<Point>, parent: map<Point, Point>)
    requires a == Wave({Point(0, 0)}, map[Point(0, 0) := 0, Point(1, 0) := 1], [(Point(1, 0), 1)])
    requires other == {Point(1, 0)}
    ensures var t := WaveTurn(Row3(), false, a, other, parent);
      t.Met? && t.w.dist == a.dist
  {}

  lemma Row3Neighbors()
    ensures Neighbors(Row3(), Point(0, 0), false) == [Point(1, 0)]
    ensures Neighbors(Row3(), Point(1, 0), false) == [Point(2, 0), Point(0, 0)]
  {
    Row3CandidatesLeft();
    Row3KeepLeft();
    Row3CandidatesMiddle();
    Row3KeepMiddle();
  }

  lemma Row3CandidatesLeft()
    ensures Candidates(Point(0, 0), false) == [Point(1, 0), Point(-1, 0), Point(0, 1), Point(0, -1)]
  {}

  lemma Row3KeepLeft()
    ensures KeepWalkable(Row3(), [Point(1, 0), Point(-1, 0), Point(0, 1), Point(0, -1)]) == [Point(1, 0)]
  {
    var s := [Point(1, 0), Point(-1, 0), Point(0, 1), Point(0, -1)];
    assert s[1..] == [Point(-1, 0), Point(0, 1), Point(0, -1)];
    assert s[1..][1..] == [Point(0, 1), Point(0, -1)];
    assert s[1..][1..][1..] == [Point(0, -1)];
    assert Walkable(Row3(), Point(1, 0));
    assert !Walkable(Row3(), Point(-1, 0)) && !Walkable(Row3(), Point(0, 1)) && !Walkable(Row3(), Point(0, -1));
  }

  lemma Row3CandidatesMiddle()
    ensures Candidates(Point(1, 0), false) == [Point(2, 0), Point(0, 0), Point(1, 1), Point(1, -1)]
  {}

  lemma Row3KeepMiddle()
    ensures KeepWalkable(Row3(), [Point(2, 0), Point(0, 0), Point(1, 1), Point(1, -1)]) == [Point(2, 0), Point(0, 0)]
  {
    var s := [Point(2, 0), Point(0, 0), Point(1, 1), Point(1, -1)];
    assert s[1..] == [Point(0, 0), Point(1, 1), Point(1, -1)];
    assert s[1..][1..] == [Point(1, 1), Point(1, -1)];
    assert s[1..][1..][1..] == [Point(1, -1)];
    assert Walkable(Row3(), Point(2, 0)) && Walkable(Row3(), Point(0, 0));
    assert !Walkable(Row3(), Point(1, 1)) && !Walkable(Row3(), Point(1, -1));
  }

  /** The start side's first turn on the 1 x 3 row. */
  lemma Row3TurnA()
    ensures WaveTurn(Row3(), false, Wave({}, map[Point(0, 0) := 0], [(Point(0, 0), 0)]), {}, map[]) ==
      Expanded(Wave({Point(0, 0)}, map[Point(0, 0) := 0, Point(1, 0) := 1], [(Point(1, 0), 1)]), map[Point(1, 0) := Point(0, 0)])
  {
    var s, t := Point(0, 0), Point(1, 0);
    var w := Wave({}, map[s := 0], [(s, 0)]);
    var w1 := Wave({s}, map[s := 0], []);
    assert w.queue[1..] == [];
    assert w.(queue := w.queue[1..], visited := w.visited + {s}) == w1;
    Row3Neighbors();
    Row3RelaxA();
    var r := Relax(w1, map[], s, 0, Neighbors(Row3(), s, false));
    assert WaveTurn(Row3(), false, w, {}, map[]) == Expanded(r.0, r.1);
  }

  lemma Row3RelaxA()
    ensures Relax(Wave({Point(0, 0)}, map[Point(0, 0) := 0], []), map[], Point(0, 0), 0, [Point(1, 0)]) ==
      (Wave({Point(0, 0)}, map[Point(0, 0) := 0, Point(1, 0) := 1], [(Point(1, 0), 1)]), map[Point(1, 0) := Point(0, 0)])
  {
    var s, t := Point(0, 0), Point(1, 0);
    assert [t][1..] == [];
    assert [] + [(t, 1)] == [(t, 1)];
  }

  /** The goal side's first turn on the 1 x 3 row. */
  lemma Row3TurnB()
    ensures var t := WaveTurn(Row3(), false, Wave({}, map[Point(1, 0) := 0], [(Point(1, 0), 0)]), {Point(0, 0)}, map[Point(1, 0) := Point(0, 0)]);
      t.Expanded? && t.w.visited == {Point(1, 0)} &&
      t.w.dist == map[Point(1, 0) := 0, Point(2, 0) := 1, Point(0, 0) := 1] && |t.w.queue| == 2
  {
    var s, t := Point(0, 0), Point(1, 0);
    var w := Wave({}, map[t := 0], [(t, 0)]);
    var w1 := Wave({t}, map[t := 0], []);
    assert w.queue[1..] == [];
    assert w.(queue := w.queue[1..], visited := w.visited + {t}) == w1;
    Row3Neighbors();
    Row3RelaxB();
    var r := Relax(w1, map[t := s], t, 0, Neighbors(Row3(), t, false));
    assert WaveTurn(Row3(), false, w, {s}, map[t := s]) == Expanded(r.0, r.1);
  }

  lemma Row3RelaxB()
    ensures var r := Relax(Wave({Point(1, 0)}, map[Point(1, 0) := 0], []), map[Point(1, 0) := Point(0, 0)], Point(1, 0), 0, [Point(2, 0), Point(0, 0)]);
      r.0.visited == {Point(1, 0)} && r.0.dist == map[Point(1, 0) := 0, Point(2, 0) := 1, Point(0, 0) := 1] &&
      |r.0.queue| == 2
  {
    var s, t, u := Point(0, 0), Point(1, 0), Point(2, 0);
    var b1 := Wave({t}, map[t := 0], []);
    var b2 := b1.(dist := b1.dist[u := 1], queue := [(u, 1)]);
    var b3 := b2.(dist := b2.dist[s := 1], queue := [(u, 1), (s, 1)]);
    assert [u, s][1..] == [s];
    assert [s][1..] == [];
    assert [] + [(u, 1)] == [(u, 1)];
    assert [(u, 1)] + [(s, 1)] == [(u, 1), (s, 1)];
    assert Relax(b1, map[t := s], t, 0, [u, s]) == Relax(b2, map[t := s, u := t], t, 0, [s]);
    assert Relax(b2, map[t := s, u := t], t, 0, [s]) == Relax(b3, map[t := s, u := t, s := t], t, 0, []);
  }

  /** The first iteration on the 1 x 3 row: the start side gives `(1,0)`
      distance 1, the goal side gives `(2,0)` and `(0,0)` distance 1, and
      the loop goes on. */
  lemma Row3FirstIteration() returns (st1: AllState)
    ensures var c := Setup(Row3(), Point(0, 0), Point(1, 0), false);
      AllInv(c, AllState(StartWave(Row3(), Point(0, 0)), StartWave(Row3(), Point(1, 0)), map[])) &&
      AllInv(c, st1) &&
      AllLoop(c, AllState(StartWave(Row3(), Point(0, 0)), StartWave(Row3(), Point(1, 0)), map[])) == AllLoop(c, st1)
    ensures st1.a == Wave({Point(0, 0)}, map[Point(0, 0) := 0, Point(1, 0) := 1], [(Point(1, 0), 1)])
    ensures st1.b.visited == {Point(1, 0)}
    ensures st1.b.dist == map[Point(1, 0) := 0, Point(2, 0) := 1, Point(0, 0) := 1] && |st1.b.queue| == 2
  {
    var g, s, t := Row3(), Point(0, 0), Point(1, 0);
    var c := Setup(g, s, t, false);
    var a0, b0 := StartWave(g, s), StartWave(g, t);
    assert Walkable(g, s) && Walkable(g, t);
    assert a0 == Wave({}, map[s := 0], [(s, 0)]) && b0 == Wave({}, map[t := 0], [(t, 0)]);
    StartWaveInv(g, s, false);
    StartWaveInv(g, t, false);
    Row3TurnA();
    var ta := WaveTurn(g, false, a0, b0.visited, map[]);
    Row3TurnB();
    var tb := WaveTurn(g, false, b0, ta.w.visited, ta.parent);
    WaveTurnKeeps(g, s, false, a0, b0.visited, map[]);
    WaveTurnKeeps(g, t, false, b0, ta.w.visited, ta.parent);
    st1 := AllState(ta.w, tb.w, tb.parent);
  }

  /** Every walk from `(0,0)` to `(2,0)` on the 1 x 3 row takes at least two
      steps, and one takes exactly two. */
  lemma Row3Distance()
    ensures IsDistance(Row3(), Point(0, 0), Point(2, 0), 2, false)
  {
    var g, s, t, u := Row3(), Point(0, 0), Point(1, 0), Point(2, 0);
    assert PathFromTo(g, [s, t, u], s, u, false);
    forall w | PathFromTo(g, w, s, u, false)
      ensures 3 <= |w|
    {
      ManhattanBelowSteps(g, w);
    }
  }
}
