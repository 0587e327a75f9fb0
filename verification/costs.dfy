/** Step costs, path lengths and heuristic estimates of the grid searches.

    The sources weigh a diagonal step by `Math.SQRT2`.  Every such quantity
    is a sum of whole steps and diagonal steps, so it is kept exactly as a
    number `whole + root2 * sqrt 2` with integer parts; two such numbers are
    compared exactly with integer arithmetic (`NonNegative`).  The
    floating-point rounding of the sources is not modelled. */
module Costs {
  import opened Wrappers
  import opened Grid

  /** The number `whole + root2 * sqrt 2`. */
  datatype Surd = Surd(whole: int, root2: int)

  function Plus(a: Surd, b: Surd): Surd {
    Surd(a.whole + b.whole, a.root2 + b.root2)
  }

  function Minus(a: Surd, b: Surd): Surd {
    Surd(a.whole - b.whole, a.root2 - b.root2)
  }

  /** `p + q * sqrt 2 >= 0`, decided without the square root: when the two
      parts have opposite signs, compare their squares. */
  predicate NonNegative(a: Surd) {
    var p, q := a.whole, a.root2;
    (p >= 0 && q >= 0) ||
    (p >= 0 && q < 0 && p * p >= 2 * q * q) ||
    (p < 0 && q >= 0 && 2 * q * q >= p * p)
  }

  /** `a <= b` as real numbers. */
  predicate AtMost(a: Surd, b: Surd) {
    NonNegative(Minus(b, a))
  }

  function Min(a: int, b: int): int {
    if a < b then a else b
  }

  function Max(a: int, b: int): int {
    if a < b then b else a
  }

  // ------------------------------------------------------------ heuristic

  /** `heuristic(a, b, allowDiagonal)`: the Manhattan distance in 4-neighbour
      mode; in 8-neighbour mode the octile distance
      `(dx + dy) + (sqrt 2 - 2) * min(dx, dy)`, whose whole part is
      `dx + dy - 2 min(dx, dy)`. */
  function Heuristic(a: Point, b: Point, diagonal: bool): (h: Surd)
    ensures h.whole >= 0 && h.root2 >= 0
    ensures h == Surd(0, 0) <==> a == b
    ensures !diagonal ==> h == Surd(Manhattan(a, b), 0)
  {
    var dx := Abs(a.x - b.x);
    var dy := Abs(a.y - b.y);
    if diagonal then Surd(dx + dy - 2 * Min(dx, dy), Min(dx, dy))
    else Surd(dx + dy, 0)
  }

  // ------------------------------------------------------------ step costs

  /** `cost` / `stepCost`: `sqrt 2` for a move by one in both directions, 1
      for anything else. */
  function StepCost(a: Point, b: Point): (c: Surd)
    ensures c == Surd(1, 0) || c == Surd(0, 1)
    ensures Adjacent(a, b, false) ==> c == Surd(1, 0)
    ensures Adjacent(a, b, true) && a.x != b.x && a.y != b.y ==> c == Surd(0, 1)
  {
    if Abs(a.x - b.x) == 1 && Abs(a.y - b.y) == 1 then Surd(0, 1) else Surd(1, 0)
  }

  /** `pathCost` of `index.ts`: 0 for `null` or fewer than two points,
      otherwise the sum of `cost` over consecutive points. */
  function PathCost(path: Option<seq<Point>>): Surd {
    match path
    case None => Surd(0, 0)
    case Some(p) => CostOf(p)
  }

  function CostOf(p: seq<Point>): Surd
    decreases |p|
  {
    if |p| < 2 then Surd(0, 0)
    else Plus(CostOf(p[..|p| - 1]), StepCost(p[|p| - 2], p[|p| - 1]))
  }

  // ------------------------------------------------------------ path length

  /** `calculatePathLength(path, allowDiagonal)`: a step by one in both
      directions counts `sqrt 2` when diagonals are allowed, any other step
      its `dx + dy`. */
  function PathLength(path: seq<Point>, allowDiagonal: bool): (r: Surd)
    ensures r.whole >= 0 && r.root2 >= 0
    ensures |path| <= 1 ==> r == Surd(0, 0)
    decreases |path|
  {
    if |path| <= 1 then Surd(0, 0)
    else
      var prev := path[|path| - 2];
      var curr := path[|path| - 1];
      var rest := PathLength(path[..|path| - 1], allowDiagonal);
      var dx := Abs(curr.x - prev.x);
      var dy := Abs(curr.y - prev.y);
      if allowDiagonal && dx == 1 && dy == 1 then Plus(rest, Surd(0, 1))
      else Plus(rest, Surd(dx + dy, 0))
  }

  /** On a 4-neighbour walk the length is the number of steps, and so is
      the cost. */
  lemma {:induction false} PathLengthCountsSteps(g: Grid, path: seq<Point>)
    requires IsPath(g, path, false)
    ensures PathLength(path, false) == Surd(|path| - 1, 0)
    ensures CostOf(path) == Surd(|path| - 1, 0)
    decreases |path|
  {
    if |path| > 1 {
      var prefix := path[..|path| - 1];
      assert IsPath(g, prefix, false);
      PathLengthCountsSteps(g, prefix);
      assert Adjacent(path[|path| - 2], path[|path| - 1], false);
    }
  }

  /** On an 8-neighbour walk `calculatePathLength` and `pathCost` agree,
      and each step is counted once, straight or diagonal. */
  lemma {:induction false} PathLengthIsCost(g: Grid, path: seq<Point>)
    requires IsPath(g, path, true)
    ensures PathLength(path, true) == CostOf(path)
    ensures PathLength(path, true).whole + PathLength(path, true).root2 == |path| - 1
    decreases |path|
  {
    if |path| > 1 {
      var prefix := path[..|path| - 1];
      assert IsPath(g, prefix, true);
      PathLengthIsCost(g, prefix);
      assert Adjacent(path[|path| - 2], path[|path| - 1], true);
    }
  }

  /** Lower bounds on the length `L` of a king walk from `a` to `b`: it
      takes at least `max(dx, dy)` steps, and at least `dx + dy` once a
      diagonal step counts twice. */
  predicate WalkBounds(a: Point, b: Point, L: Surd) {
    L.whole + L.root2 >= Max(Abs(a.x - b.x), Abs(a.y - b.y)) &&
    L.whole + 2 * L.root2 >= Abs(a.x - b.x) + Abs(a.y - b.y)
  }

  /** One more king step keeps the bounds. */
  lemma WalkBoundsStep(a: Point, b: Point, c: Point, L: Surd)
    requires WalkBounds(a, b, L) && Adjacent(b, c, true)
    ensures var dx, dy := Abs(c.x - b.x), Abs(c.y - b.y);
      WalkBounds(a, c, if dx == 1 && dy == 1 then Plus(L, Surd(0, 1)) else Plus(L, Surd(dx + dy, 0)))
  {
  }

  lemma {:induction false} KingWalkBounds(g: Grid, path: seq<Point>)
    requires IsPath(g, path, true)
    ensures WalkBounds(path[0], path[|path| - 1], PathLength(path, true))
    decreases |path|
  {
    if |path| > 1 {
      var prefix := path[..|path| - 1];
      assert IsPath(g, prefix, true);
      KingWalkBounds(g, prefix);
      assert Adjacent(path[|path| - 2], path[|path| - 1], true);
      WalkBoundsStep(path[0], path[|path| - 2], path[|path| - 1], PathLength(prefix, true));
    }
  }

  /** `p + q sqrt 2 >= 0` whenever `p >= -q` (for `q >= 0`) or `p >= -2q`
      (for `q < 0`). */
  lemma NonNegativeWhen(p: int, q: int)
    requires q >= 0 ==> p >= -q
    requires q < 0 ==> p >= -2 * q
    ensures NonNegative(Surd(p, q))
  {
    if q >= 0 {
      if p < 0 {
        MulMono(-p, q);
      }
    } else {
      MulMono(-2 * q, p);
    }
  }

  /** A length meeting the walk bounds is at least the octile estimate. */
  lemma OctileBelowBounds(a: Point, b: Point, L: Surd)
    requires WalkBounds(a, b, L)
    ensures AtMost(Heuristic(a, b, true), L)
  {
    var dx, dy := Abs(a.x - b.x), Abs(a.y - b.y);
    var m := Min(dx, dy);
    var d := if dx < dy then dy - dx else dx - dy;
    assert Heuristic(a, b, true) == Surd(d, m);
    assert L.whole + L.root2 >= d + m;
    assert L.whole + 2 * L.root2 >= d + 2 * m;
    NonNegativeWhen(L.whole - d, L.root2 - m);
    assert Minus(L, Heuristic(a, b, true)) == Surd(L.whole - d, L.root2 - m);
  }

  /** The octile estimate never exceeds the length of an 8-neighbour walk
      between the two cells: it is admissible. */
  lemma OctileAdmissible(g: Grid, path: seq<Point>)
    requires IsPath(g, path, true)
    ensures AtMost(Heuristic(path[0], path[|path| - 1], true), PathLength(path, true))
  {
    KingWalkBounds(g, path);
    OctileBelowBounds(path[0], path[|path| - 1], PathLength(path, true));
  }

  lemma MulMono(a: int, b: int)
    requires 0 <= a <= b
    ensures a * a <= b * b
  {
    assert a * a <= a * b <= b * b;
  }

  // ------------------------------------------------------------ heuristic sum

  /** `calculateHeuristicSum(path, goal, allowDiagonal)`. */
  function HeuristicSum(path: seq<Point>, goal: Point, diagonal: bool): (r: Surd)
    ensures r.whole >= 0 && r.root2 >= 0
    decreases |path|
  {
    if |path| == 0 then Surd(0, 0)
    else Plus(HeuristicSum(path[..|path| - 1], goal, diagonal), Heuristic(path[|path| - 1], goal, diagonal))
  }

  /** The sum over two pieces is the sum of the sums. */
  lemma {:induction false} HeuristicSumAppend(a: seq<Point>, b: seq<Point>, goal: Point, diagonal: bool)
    ensures HeuristicSum(a + b, goal, diagonal) == Plus(HeuristicSum(a, goal, diagonal), HeuristicSum(b, goal, diagonal))
    decreases |b|
  {
    if |b| == 0 {
      assert a + b == a;
    } else {
      assert (a + b)[..|a + b| - 1] == a + b[..|b| - 1];
      HeuristicSumAppend(a, b[..|b| - 1], goal, diagonal);
    }
  }

  /** The sum is zero exactly when every point of the path is the goal, in
      particular for the empty path. */
  lemma {:induction false} HeuristicSumZero(path: seq<Point>, goal: Point, diagonal: bool)
    ensures HeuristicSum(path, goal, diagonal) == Surd(0, 0) <==> AllAt(path, goal)
    decreases |path|
  {
    if |path| > 0 {
      var pre := path[..|path| - 1];
      HeuristicSumZero(pre, goal, diagonal);
      AllAtSplit(path, goal);
    }
  }

  /** Every point of `path` is `goal`. */
  predicate AllAt(path: seq<Point>, goal: Point) {
    forall i :: 0 <= i < |path| ==> path[i] == goal
  }

  lemma AllAtSplit(path: seq<Point>, goal: Point)
    requires |path| > 0
    ensures AllAt(path, goal) <==> AllAt(path[..|path| - 1], goal) && path[|path| - 1] == goal
  {
    var pre := path[..|path| - 1];
    if AllAt(pre, goal) && path[|path| - 1] == goal {
      forall i | 0 <= i < |path|
        ensures path[i] == goal
      {
        if i < |pre| { assert path[i] == pre[i]; }
      }
    }
  }
}
