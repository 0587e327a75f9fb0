/** `generateGrid` of `project_ts/src/index.ts`: the benchmark map.  A
    linear congruential generator seeded with 42 draws one number per cell
    that is not on a corridor (a row or column whose index is a multiple of
    `corridorStep`), in row-major order; the cell is a wall when the draw is
    below `blockRatio`.  The two corners are then opened. */
module GridGen {

  const Modulus: nat := 0x1_0000_0000

  /** `seed = (seed * 1664525 + 1013904223) >>> 0`.  Both factors stay
      below 2^53, so the product is exact in floating point and `>>> 0`
      reduces it modulo 2^32. */
  function Lcg(seed: nat): (r: nat)
    ensures r < Modulus
  {
    (seed * 1664525 + 1013904223) % Modulus
  }

  /** `(seed & 0xffff) / 0x10000`: the low 16 bits as a fraction. */
  function Fraction(seed: nat): (r: real)
    ensures 0.0 <= r < 1.0
  {
    ((seed % 0x10000) as real) / (0x10000 as real)
  }

  /** The seed after `k` draws. */
  function SeedAfter(k: nat): (r: nat)
    ensures r < Modulus || k == 0
  {
    if k == 0 then 42 else Lcg(SeedAfter(k - 1))
  }

  /** `x % corridorStep === 0 || y % corridorStep === 0`; a zero step gives
      `NaN` and no corridor.  For a non-negative `x` the remainder of a
      negative step is the one of its absolute value, in JavaScript as in
      Dafny. */
  predicate Corridor(x: nat, y: nat, step: int) {
    step != 0 && (x % step == 0 || y % step == 0)
  }

  /** The cell's value drawn with the `d`-th random number (counting from
      0): open on a corridor, otherwise a wall exactly when the draw is below
      the ratio. */
  function Drawn(x: nat, y: nat, step: int, ratio: real, d: nat): int {
    if Corridor(x, y, step) then 0
    else if Fraction(SeedAfter(d + 1)) < ratio then 1 else 0
  }

  // ------------------------------------------------------------ the generator

  /** The cells `x .. w-1` of row `y` and the seed afterwards. */
  function RowFrom(y: nat, x: nat, w: nat, step: int, ratio: real, seed: nat): (res: (seq<int>, nat))
    requires x <= w
    decreases w - x
  {
    if x == w then ([], seed)
    else if Corridor(x, y, step) then
      var rest := RowFrom(y, x + 1, w, step, ratio, seed);
      ([0] + rest.0, rest.1)
    else
      var s := Lcg(seed);
      var rest := RowFrom(y, x + 1, w, step, ratio, s);
      ([if Fraction(s) < ratio then 1 else 0] + rest.0, rest.1)
  }

  /** The rows `y .. h-1` and the seed afterwards. */
  function RowsFrom(y: nat, h: nat, w: nat, step: int, ratio: real, seed: nat): (res: (seq<seq<int>>, nat))
    requires y <= h
    decreases h - y
  {
    if y == h then ([], seed)
    else
      var row := RowFrom(y, 0, w, step, ratio, seed);
      var rest := RowsFrom(y + 1, h, w, step, ratio, row.1);
      ([row.0] + rest.0, rest.1)
  }

  /** `generateGrid(width, height, blockRatio, corridorStep)`.  An empty
      grid would make `grid[height - 1]` undefined, so both sizes are at
      least 1. */
  function GenerateGrid(width: nat, height: nat, ratio: real, step: int): (g: seq<seq<int>>)
    requires width >= 1 && height >= 1
    ensures |g| == height && forall y :: 0 <= y < height ==> |g[y]| == width
  {
    var rows := RowsFrom(0, height, width, step, ratio, 42).0;
    RowsShape(0, height, width, step, ratio, 42);
    var g1 := rows[0 := rows[0][0 := 0]];
    g1[height - 1 := g1[height - 1][width - 1 := 0]]
  }

  lemma {:induction false} RowsShape(y: nat, h: nat, w: nat, step: int, ratio: real, seed: nat)
    requires y <= h
    ensures var rows := RowsFrom(y, h, w, step, ratio, seed).0;
      |rows| == h - y && forall i :: 0 <= i < |rows| ==> |rows[i]| == w
    decreases h - y
  {
    if y < h {
      RowLength(y, 0, w, step, ratio, seed);
      RowsShape(y + 1, h, w, step, ratio, RowFrom(y, 0, w, step, ratio, seed).1);
    }
  }

  lemma {:induction false} RowLength(y: nat, x: nat, w: nat, step: int, ratio: real, seed: nat)
    requires x <= w
    ensures |RowFrom(y, x, w, step, ratio, seed).0| == w - x
    decreases w - x
  {
    if x < w {
      RowLength(y, x + 1, w, step, ratio, if Corridor(x, y, step) then seed else Lcg(seed));
    }
  }

  // ------------------------------------------------------------ draw counting

  /** The number of draws row `y` makes in columns `x .. e-1`. */
  function Draws(y: nat, x: nat, e: nat, step: int): nat
    requires x <= e
    decreases e - x
  {
    if x == e then 0
    else (if Corridor(x, y, step) then 0 else 1) + Draws(y, x + 1, e, step)
  }

  /** The number of draws rows `y .. e-1` make. */
  function RowsDraws(y: nat, e: nat, w: nat, step: int): nat
    requires y <= e
    decreases e - y
  {
    if y == e then 0 else Draws(y, 0, w, step) + RowsDraws(y + 1, e, w, step)
  }

  /** Starting after `k` draws, the cell in column `c` of the row takes the
      draw numbered `k` plus the draws of the columns before it, and the
      row leaves the seed after all of its draws. */
  lemma {:induction false} RowDraws(y: nat, x: nat, w: nat, step: int, ratio: real, k: nat)
    requires x <= w
    ensures var res := RowFrom(y, x, w, step, ratio, SeedAfter(k));
      |res.0| == w - x && res.1 == SeedAfter(k + Draws(y, x, w, step)) &&
      forall c :: x <= c < w ==> res.0[c - x] == Drawn(c, y, step, ratio, k + Draws(y, x, c, step))
    decreases w - x
  {
    if x < w {
      var k' := if Corridor(x, y, step) then k else k + 1;
      assert SeedAfter(k') == if Corridor(x, y, step) then SeedAfter(k) else Lcg(SeedAfter(k));
      RowDraws(y, x + 1, w, step, ratio, k');
      var res := RowFrom(y, x, w, step, ratio, SeedAfter(k));
      var rest := RowFrom(y, x + 1, w, step, ratio, SeedAfter(k'));
      assert res.0 == [res.0[0]] + rest.0 && res.1 == rest.1;
      forall c | x <= c < w
        ensures res.0[c - x] == Drawn(c, y, step, ratio, k + Draws(y, x, c, step))
      {
        if c > x {
          assert res.0[c - x] == rest.0[c - (x + 1)];
        }
      }
    }
  }

  /** Row `i` of a block of rows starting at row `y`, after `k` draws: `w`
      cells, each taking the draw numbered `k` plus the draws of the rows
      above and the columns to its left. */
  ghost predicate RowsHold(rows: seq<seq<int>>, y: nat, w: nat, step: int, ratio: real, k: nat) {
    (forall i :: 0 <= i < |rows| ==> |rows[i]| == w) &&
    forall i, c :: 0 <= i < |rows| && 0 <= c < |rows[i]| ==>
      rows[i][c] == Drawn(c, y + i, step, ratio, k + RowsDraws(y, y + i, w, step) + Draws(y + i, 0, c, step))
  }

  /** Starting after `k` draws, rows `y .. h-1` are as `RowsHold` says and
      leave the seed after all of their draws. */
  lemma {:induction false} RowsDrawsAt(y: nat, h: nat, w: nat, step: int, ratio: real, k: nat)
    requires y <= h
    ensures var res := RowsFrom(y, h, w, step, ratio, SeedAfter(k));
      |res.0| == h - y && res.1 == SeedAfter(k + RowsDraws(y, h, w, step)) &&
      RowsHold(res.0, y, w, step, ratio, k)
    decreases h - y
  {
    if y < h {
      var row := RowFrom(y, 0, w, step, ratio, SeedAfter(k));
      RowDraws(y, 0, w, step, ratio, k);
      var k' := k + Draws(y, 0, w, step);
      RowsDrawsAt(y + 1, h, w, step, ratio, k');
      var res := RowsFrom(y, h, w, step, ratio, SeedAfter(k));
      var rest := RowsFrom(y + 1, h, w, step, ratio, SeedAfter(k'));
      assert res.0 == [row.0] + rest.0 && res.1 == rest.1;
      RowsCons(y, w, step, ratio, k, row.0, rest.0);
    }
  }

  /** Putting row `y` in front of the rows below it. */
  lemma RowsCons(y: nat, w: nat, step: int, ratio: real, k: nat, row: seq<int>, rest: seq<seq<int>>)
    requires |row| == w && forall c :: 0 <= c < w ==> row[c] == Drawn(c, y, step, ratio, k + Draws(y, 0, c, step))
    requires RowsHold(rest, y + 1, w, step, ratio, k + Draws(y, 0, w, step))
    ensures RowsHold([row] + rest, y, w, step, ratio, k)
  {
    var all := [row] + rest;
    forall i, c | 0 <= i < |all| && 0 <= c < |all[i]|
      ensures all[i][c] == Drawn(c, y + i, step, ratio, k + RowsDraws(y, y + i, w, step) + Draws(y + i, 0, c, step))
    {
      if i > 0 {
        assert all[i] == rest[i - 1];
        assert RowsDraws(y, y + i, w, step) == Draws(y, 0, w, step) + RowsDraws(y + 1, y + 1 + (i - 1), w, step);
      } else {
        assert all[0] == row;
      }
    }
  }

  // ------------------------------------------------------------ what the map holds

  /** The two cells `generateGrid` opens at the end. */
  predicate Corner(x: nat, y: nat, width: nat, height: nat) {
    (x == 0 && y == 0) || (x == width - 1 && y == height - 1)
  }

  /** Every cell of the map: the corners are open, and any other cell is
      what the draw numbered by the non-corridor cells before it in
      row-major order makes of it. */
  lemma GenerateGridCells(width: nat, height: nat, ratio: real, step: int)
    requires width >= 1 && height >= 1
    ensures var g := GenerateGrid(width, height, ratio, step);
      forall y, x :: 0 <= y < height && 0 <= x < width ==>
        g[y][x] == if Corner(x, y, width, height) then 0
                   else Drawn(x, y, step, ratio, RowsDraws(0, y, width, step) + Draws(y, 0, x, step))
  {
    RowsDrawsAt(0, height, width, step, ratio, 0);
  }

  /** The promise of `generateGrid`: corridor cells and both corners are
      open, every cell is 0 or 1, a ratio of 0 or less gives an empty map
      and a ratio of 1 or more walls every other cell. */
  lemma GenerateGridOpen(width: nat, height: nat, ratio: real, step: int)
    requires width >= 1 && height >= 1
    ensures var g := GenerateGrid(width, height, ratio, step);
      g[0][0] == 0 && g[height - 1][width - 1] == 0
    ensures var g := GenerateGrid(width, height, ratio, step);
      forall y, x :: 0 <= y < height && 0 <= x < width ==> g[y][x] == 0 || g[y][x] == 1
    ensures var g := GenerateGrid(width, height, ratio, step);
      forall y, x :: 0 <= y < height && 0 <= x < width && Corridor(x, y, step) ==> g[y][x] == 0
    ensures var g := GenerateGrid(width, height, ratio, step);
      ratio <= 0.0 ==> forall y, x :: 0 <= y < height && 0 <= x < width ==> g[y][x] == 0
    ensures var g := GenerateGrid(width, height, ratio, step);
      ratio >= 1.0 ==> forall y, x ::
        (0 <= y < height && 0 <= x < width && !Corridor(x, y, step) && !Corner(x, y, width, height)) ==>
        g[y][x] == 1
  {
    GenerateGridCells(width, height, ratio, step);
  }
}
