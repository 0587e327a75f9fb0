/** The board logic of the lianliankan (tile-pairing) game, `llk/script.js`:
    dealing the tiles, the parity check, the connection tests (straight, one
    corner, round a border), the search for a remaining move and the update
    after a pair is taken.  The board is a value; the random shuffles are
    arguments. */
module Llk {
  import opened Wrappers
  import Grid

  /** `GRID_WIDTH`, `GRID_HEIGHT`, `PATTERN_COUNT`. */
  const Width: nat := 10
  const Height: nat := 14
  const PatternCount: nat := 28

  /** A position; rows and columns just outside the board (-1, `Height`,
      `Width`) are the virtual points of a border path. */
  datatype Pt = Pt(row: int, col: int)

  /** The patterns, row by row; 0 is an empty cell. */
  type Board = seq<seq<nat>>

  predicate Shaped(g: Board) {
    |g| == Height && forall r :: 0 <= r < Height ==> |g[r]| == Width
  }

  /** `isValidPosition`. */
  predicate InGrid(p: Pt) {
    0 <= p.row < Height && 0 <= p.col < Width
  }

  function At(g: Board, p: Pt): nat
    requires Shaped(g) && InGrid(p)
  {
    g[p.row][p.col]
  }

  /** The board of `generateLayeredLayout` before placement: every cell 0. */
  function EmptyBoard(): (g: Board)
    ensures Shaped(g) && forall p :: InGrid(p) ==> At(g, p) == 0
  {
    seq(Height, _ => seq(Width, _ => 0))
  }

  /** Writes the pattern of one cell. */
  function SetAt(g: Board, p: Pt, v: nat): (g': Board)
    requires Shaped(g) && InGrid(p)
    ensures Shaped(g') && At(g', p) == v
    ensures forall q :: InGrid(q) && q != p ==> At(g', q) == At(g, q)
  {
    var row: seq<nat> := g[p.row][p.col := v];
    g[p.row := row]
  }

  // ------------------------------------------------------------ dealing

  /** The patterns `1..hi`, each `n` times, in increasing order: the nested
      loops of `generateBoard`. */
  function Repeat(hi: nat, n: nat): (s: seq<nat>)
    ensures |s| == hi * n
    ensures forall v :: multiset(s)[v] == if 1 <= v <= hi then n else 0
  {
    if hi == 0 then [] else
      Copies(hi, n);
      Repeat(hi - 1, n) + Block(hi, n)
  }

  /** `n` copies of `x`. */
  function Block(x: nat, n: nat): (s: seq<nat>)
    ensures |s| == n
  {
    seq(n, _ => x)
  }

  /** `n` copies of `x` hold `x` `n` times and nothing else. */
  lemma {:induction false} Copies(x: nat, n: nat)
    ensures forall v :: multiset(Block(x, n))[v] == if v == x then n else 0
  {
    if n > 0 {
      Copies(x, n - 1);
      assert Block(x, n) == Block(x, n - 1) + [x];
    }
  }

  /** `i <= remainingBlocks / 2` over the integers `i >= 1`. */
  function Half(n: int): nat {
    if n <= 0 then 0 else n / 2
  }

  /** `generateBoard`: `PATTERN_COUNT` patterns with an even share each of
      the cells, then one more pair of each of the first patterns for the
      cells left over. */
  function GenerateBoard(): (s: seq<nat>)
    ensures |s| == Width * Height
    ensures forall v :: 1 <= v <= 14 ==> multiset(s)[v] == 6
    ensures forall v :: 15 <= v <= 28 ==> multiset(s)[v] == 4
    ensures forall v :: (v == 0 || v > 28) ==> multiset(s)[v] == 0
  {
    var total := Width * Height;
    assert total == 140;
    var perType := total / PatternCount / 2 * 2;
    assert perType == 4;
    var remaining := total - PatternCount * perType;
    assert remaining == 28;
    DealShares(Repeat(PatternCount, perType), Repeat(Half(remaining), 2));
    Repeat(PatternCount, perType) + Repeat(Half(remaining), 2)
  }

  /** Four of each of the 28 patterns and two more of each of the first 14
      make six of the first 14 patterns and four of the others. */
  lemma DealShares(a: seq<nat>, b: seq<nat>)
    requires |a| == 112 && forall v :: multiset(a)[v] == if 1 <= v <= 28 then 4 else 0
    requires |b| == 28 && forall v :: multiset(b)[v] == if 1 <= v <= 14 then 2 else 0
    ensures |a + b| == Width * Height
    ensures forall v :: 1 <= v <= 14 ==> multiset(a + b)[v] == 6
    ensures forall v :: 15 <= v <= 28 ==> multiset(a + b)[v] == 4
    ensures forall v :: (v == 0 || v > 28) ==> multiset(a + b)[v] == 0
  {
    assert multiset(a + b) == multiset(a) + multiset(b);
  }

  /** Every pattern of the deal occurs an even number of times. */
  lemma DealIsEven(v: nat)
    ensures multiset(GenerateBoard())[v] % 2 == 0
  {
    var s: seq<nat> := GenerateBoard();
    if 1 <= v <= 14 {
      Even(multiset(s)[v], 3);
    } else if 15 <= v <= 28 {
      Even(multiset(s)[v], 2);
    } else {
      Even(multiset(s)[v], 0);
    }
  }

  lemma Even(k: int, half: int)
    requires k == 2 * half
    ensures k % 2 == 0
  {
  }

  // ------------------------------------------------------------ placement

  /** The board and `remainingBlocks`. */
  datatype Game = Game(board: Board, remaining: int)

  /** Every position is on the board and none occurs twice: what the
      shuffled `allPositions` list is. */
  predicate Positions(order: seq<Pt>) {
    Grid.Distinct(order) && forall i :: 0 <= i < |order| ==> InGrid(order[i])
  }

  /** The first `k` rounds of the placement loop of `placePatternsByLayers`:
      pattern `i` goes to position `order[i]`, and each placement counts one
      block. */
  function PlaceFirst(g: Game, pats: seq<nat>, order: seq<Pt>, k: nat): (res: Game)
    requires Shaped(g.board) && Positions(order) && k <= |pats| && k <= |order|
    ensures Shaped(res.board) && res.remaining == g.remaining + k
    ensures forall i :: 0 <= i < k ==> At(res.board, order[i]) == pats[i]
    ensures forall p :: InGrid(p) && p !in order[..k] ==> At(res.board, p) == At(g.board, p)
  {
    if k == 0 then g
    else
      var prev := PlaceFirst(g, pats, order, k - 1);
      assert forall p :: p in order[..k - 1] ==> p in order[..k];
      Game(SetAt(prev.board, order[k - 1], pats[k - 1]), prev.remaining + 1)
  }

  /** `placePatternsByLayers` with the two shuffles as arguments: `pats` is
      the shuffled pattern list and `order` the shuffled list of positions.
      As many patterns as there are both patterns and positions are placed,
      in order, and counted; every other cell keeps its pattern. */
  function PlacePatternsByLayers(g: Game, pats: seq<nat>, order: seq<Pt>): (res: Game)
    requires Shaped(g.board) && Positions(order)
    ensures Shaped(res.board)
    ensures res.remaining == g.remaining + (if |pats| < |order| then |pats| else |order|)
    ensures forall i :: 0 <= i < |pats| && i < |order| ==> At(res.board, order[i]) == pats[i]
    ensures forall p :: InGrid(p) && p !in order ==> At(res.board, p) == At(g.board, p)
  {
    var n := if |pats| < |order| then |pats| else |order|;
    assert order[..n] <= order;
    PlaceFirst(g, pats, order, n)
  }

  /** `generateLayeredLayout`: the placement on an empty board with no
      block counted yet. */
  function GenerateLayeredLayout(pats: seq<nat>, order: seq<Pt>): (res: Game)
    requires Positions(order)
    ensures res == PlacePatternsByLayers(Game(EmptyBoard(), 0), pats, order)
    ensures Shaped(res.board)
  {
    PlacePatternsByLayers(Game(EmptyBoard(), 0), pats, order)
  }

  /** The cells holding pattern `v`. */
  function CellsOf(g: Board, v: nat): set<Pt>
    requires Shaped(g)
  {
    set r, c | 0 <= r < Height && 0 <= c < Width && g[r][c] == v :: Pt(r, c)
  }

  /** The cells holding a pattern. */
  function Filled(g: Board): set<Pt>
    requires Shaped(g)
  {
    set r, c | 0 <= r < Height && 0 <= c < Width && g[r][c] != 0 :: Pt(r, c)
  }

  /** Writing `w` at `p` moves `p` into the cells of `w` and out of every
      other pattern's. */
  lemma CellsOfSet(g: Board, p: Pt, w: nat, v: nat)
    requires Shaped(g) && InGrid(p)
    ensures CellsOf(SetAt(g, p, w), v) == if w == v then CellsOf(g, v) + {p} else CellsOf(g, v) - {p}
    ensures Filled(SetAt(g, p, w)) == if w != 0 then Filled(g) + {p} else Filled(g) - {p}
  {
    var g' := SetAt(g, p, w);
    forall q | q in CellsOf(g', v)
      ensures q in (if w == v then CellsOf(g, v) + {p} else CellsOf(g, v) - {p})
    {
      assert At(g', q) == v;
    }
    forall q | q in (if w == v then CellsOf(g, v) + {p} else CellsOf(g, v) - {p})
      ensures q in CellsOf(g', v)
    {
      assert InGrid(q);
    }
    forall q | q in Filled(g')
      ensures q in (if w != 0 then Filled(g) + {p} else Filled(g) - {p})
    {
      assert At(g', q) != 0;
    }
    forall q | q in (if w != 0 then Filled(g) + {p} else Filled(g) - {p})
      ensures q in Filled(g')
    {
      assert InGrid(q);
    }
  }

  /** Filling an empty cell with `w` adds one cell to `w`'s set and to the
      filled cells when `w` is a pattern. */
  lemma FillEmptyCell(g: Board, p: Pt, w: nat, v: nat)
    requires Shaped(g) && InGrid(p) && At(g, p) == 0 && v > 0
    ensures |CellsOf(SetAt(g, p, w), v)| == |CellsOf(g, v)| + (if w == v then 1 else 0)
    ensures |Filled(SetAt(g, p, w))| == |Filled(g)| + (if w != 0 then 1 else 0)
  {
    CellsOfSet(g, p, w, v);
    assert p !in CellsOf(g, v);
    assert p !in Filled(g);
  }

  /** The empty board has no cell of any pattern. */
  lemma NothingOnEmpty(v: nat)
    requires v > 0
    ensures |CellsOf(EmptyBoard(), v)| == 0 && |Filled(EmptyBoard())| == 0
  {
    var b := EmptyBoard();
    forall r, c | 0 <= r < Height && 0 <= c < Width
      ensures b[r][c] == 0
    {
      assert At(b, Pt(r, c)) == 0;
    }
    assert CellsOf(b, v) == {};
    assert Filled(b) == {};
  }

  /** A position of a list without repeats is not among those before it. */
  lemma NotEarlier(order: seq<Pt>, k: nat)
    requires Grid.Distinct(order) && 0 < k <= |order|
    ensures order[k - 1] !in order[..k - 1]
  {
    var before := order[..k - 1];
    forall x | x in before
      ensures x != order[k - 1]
    {
      var j :| 0 <= j < k - 1 && before[j] == x;
      assert order[j] == x;
    }
  }

  /** After `k` rounds on an empty board, pattern `v` occupies as many cells
      as it has copies among the first `k` patterns. */
  lemma {:induction false} LayoutCounts(pats: seq<nat>, order: seq<Pt>, k: nat, v: nat)
    requires Positions(order) && k <= |pats| && k <= |order| && v > 0
    ensures |CellsOf(PlaceFirst(Game(EmptyBoard(), 0), pats, order, k).board, v)| == multiset(pats[..k])[v]
  {
    if k == 0 {
      NothingOnEmpty(v);
    } else {
      var prev := PlaceFirst(Game(EmptyBoard(), 0), pats, order, k - 1).board;
      assert |CellsOf(prev, v)| == multiset(pats[..k - 1])[v] by {
        LayoutCounts(pats, order, k - 1, v);
      }
      PlacedOnEmpty(pats, order, k);
      FillEmptyCell(prev, order[k - 1], pats[k - 1], v);
      CopiesStep(pats, k, v);
    }
  }

  /** Round `k` writes its value on a cell still empty. */
  lemma PlacedOnEmpty(pats: seq<nat>, order: seq<Pt>, k: nat)
    requires Positions(order) && 0 < k <= |pats| && k <= |order|
    ensures var prev := PlaceFirst(Game(EmptyBoard(), 0), pats, order, k - 1).board;
      At(prev, order[k - 1]) == 0 &&
      PlaceFirst(Game(EmptyBoard(), 0), pats, order, k).board == SetAt(prev, order[k - 1], pats[k - 1])
  {
    NotEarlier(order, k);
  }

  /** One more placed value adds one copy of itself and none of any other. */
  lemma CopiesStep(pats: seq<nat>, k: nat, v: nat)
    requires 0 < k <= |pats|
    ensures multiset(pats[..k])[v] == multiset(pats[..k - 1])[v] + (if pats[k - 1] == v then 1 else 0)
  {
    assert pats[..k] == pats[..k - 1] + [pats[k - 1]];
  }

  /** After `k` rounds of real patterns on an empty board, `k` cells are
      filled. */
  lemma {:induction false} LayoutFilled(pats: seq<nat>, order: seq<Pt>, k: nat)
    requires Positions(order) && k <= |pats| && k <= |order|
    requires forall i :: 0 <= i < k ==> pats[i] > 0
    ensures |Filled(PlaceFirst(Game(EmptyBoard(), 0), pats, order, k).board)| == k
  {
    if k == 0 {
      NothingOnEmpty(1);
    } else {
      var prev := PlaceFirst(Game(EmptyBoard(), 0), pats, order, k - 1).board;
      assert |Filled(prev)| == k - 1 by {
        LayoutFilled(pats, order, k - 1);
      }
      PlacedOnEmpty(pats, order, k);
      FillEmptyCell(prev, order[k - 1], pats[k - 1], 1);
    }
  }

  // ------------------------------------------------------------ validation

  /** The cells before `(r, c)` in row-major order holding pattern `v`. */
  function CellsBefore(g: Board, v: nat, r: int, c: int): set<Pt>
    requires Shaped(g)
  {
    set r', c' | 0 <= r' < Height && 0 <= c' < Width && (r' < r || (r' == r && c' < c)) && g[r'][c'] == v :: Pt(r', c')
  }

  /** `counts` is the tally of the cells before `(r, c)`: one entry per
      pattern seen, with its number of cells. */
  ghost predicate TallyOf(g: Board, r: int, c: int, counts: map<nat, nat>)
    requires Shaped(g)
  {
    (forall v :: v in counts ==> v > 0 && counts[v] == |CellsBefore(g, v, r, c)|) &&
    (forall v :: v > 0 && |CellsBefore(g, v, r, c)| > 0 ==> v in counts)
  }

  /** The counting loop of `quickValidation` from cell `(r, c)` on. */
  function Tally(g: Board, r: nat, c: nat, counts: map<nat, nat>): (res: map<nat, nat>)
    requires Shaped(g) && r <= Height && c <= Width && TallyOf(g, r, c, counts)
    ensures TallyOf(g, Height, 0, res)
    decreases Height - r, Width - c
  {
    if r == Height then
      BeforeEnd(g, c);
      counts
    else if c == Width then
      BeforeRowEnd(g, r);
      Tally(g, r + 1, 0, counts)
    else
      var p := g[r][c];
      if p > 0 then
        var counts' := counts[p := (if p in counts then counts[p] else 0) + 1];
        TallyCount(g, r, c, counts);
        Tally(g, r, c + 1, counts')
      else
        TallySkip(g, r, c, counts);
        Tally(g, r, c + 1, counts)
  }

  /** Stepping past `(r, c)` adds that cell to its own pattern's set. */
  lemma BeforeStep(g: Board, r: int, c: int)
    requires Shaped(g) && 0 <= r < Height && 0 <= c < Width
    ensures forall v :: g[r][c] == v ==> CellsBefore(g, v, r, c + 1) == CellsBefore(g, v, r, c) + {Pt(r, c)}
    ensures forall v :: g[r][c] != v ==> CellsBefore(g, v, r, c + 1) == CellsBefore(g, v, r, c)
    ensures forall v :: Pt(r, c) !in CellsBefore(g, v, r, c)
  {
  }

  /** Counting a filled cell keeps the tally. */
  lemma TallyCount(g: Board, r: nat, c: nat, counts: map<nat, nat>)
    requires Shaped(g) && r < Height && c < Width && TallyOf(g, r, c, counts) && g[r][c] > 0
    ensures TallyOf(g, r, c + 1, counts[g[r][c] := (if g[r][c] in counts then counts[g[r][c]] else 0) + 1])
  {
    BeforeStep(g, r, c);
    var p := g[r][c];
    assert Pt(r, c) in CellsBefore(g, p, r, c + 1);
  }

  /** Skipping an empty cell keeps the tally. */
  lemma TallySkip(g: Board, r: nat, c: nat, counts: map<nat, nat>)
    requires Shaped(g) && r < Height && c < Width && TallyOf(g, r, c, counts) && g[r][c] == 0
    ensures TallyOf(g, r, c + 1, counts)
  {
    BeforeStep(g, r, c);
  }

  /** Past the last row the column no longer matters. */
  lemma BeforeEnd(g: Board, c: int)
    requires Shaped(g)
    ensures forall v :: CellsBefore(g, v, Height, c) == CellsBefore(g, v, Height, 0)
  {
  }

  /** The end of row `r` is the start of row `r + 1`. */
  lemma BeforeRowEnd(g: Board, r: int)
    requires Shaped(g)
    ensures forall v :: CellsBefore(g, v, r, Width) == CellsBefore(g, v, r + 1, 0)
  {
  }

  /** `quickValidation`: every pattern on the board occupies an even number
      of cells. */
  function QuickValidation(g: Board): (ok: bool)
    requires Shaped(g)
    ensures ok <==> forall v :: v > 0 ==> |CellsOf(g, v)| % 2 == 0
  {
    assert TallyOf(g, 0, 0, map[]) by {
      forall v
        ensures CellsBefore(g, v, 0, 0) == {}
      {
      }
    }
    var counts := Tally(g, 0, 0, map[]);
    assert forall v :: CellsBefore(g, v, Height, 0) == CellsOf(g, v);
    forall v | v in counts :: counts[v] % 2 == 0
  }

  /** Any shuffle of the deal laid on any order of all the cells fills
      140 cells, counts each of them as a block, and passes
      `quickValidation`. */
  lemma DealPassesValidation(pats: seq<nat>, order: seq<Pt>)
    requires multiset(pats) == multiset(GenerateBoard())
    requires Positions(order) && |order| == Width * Height
    ensures GenerateLayeredLayout(pats, order).remaining == Width * Height
    ensures |Filled(GenerateLayeredLayout(pats, order).board)| == Width * Height
    ensures QuickValidation(GenerateLayeredLayout(pats, order).board)
  {
    var deal: seq<nat> := GenerateBoard();
    assert |pats| == |deal| by {
      assert |multiset(pats)| == |multiset(deal)|;
    }
    assert pats[..|pats|] == pats;
    var b := GenerateLayeredLayout(pats, order).board;
    forall v | v > 0
      ensures |CellsOf(b, v)| % 2 == 0
    {
      LayoutCounts(pats, order, |pats|, v);
      DealIsEven(v);
    }
    forall i | 0 <= i < |pats|
      ensures pats[i] > 0
    {
      assert pats[i] in multiset(deal);
    }
    LayoutFilled(pats, order, |pats|);
  }

  // ------------------------------------------------------------ connection

  const LastRow := Height - 1
  const LastCol := Width - 1

  function Min(a: int, b: int): int {
    if a < b then a else b
  }

  function Max(a: int, b: int): int {
    if a < b then b else a
  }

  /** The straight segment from `a` to `b` is free: the two share a row or
      a column, and every board cell strictly between them is empty.
      Points off the board, such as the virtual points of a border path,
      block nothing. */
  predicate SegmentClear(g: Board, a: Pt, b: Pt)
    requires Shaped(g)
  {
    (a.row == b.row && forall c :: Min(a.col, b.col) < c < Max(a.col, b.col) && InGrid(Pt(a.row, c)) ==> g[a.row][c] == 0) ||
    (a.col == b.col && forall r :: Min(a.row, b.row) < r < Max(a.row, b.row) && InGrid(Pt(r, a.col)) ==> g[r][a.col] == 0)
  }

  /** `for (col = c; col < hi; col++) if (grid[r][col].pattern > 0) return false`. */
  function RowFreeUp(g: Board, r: int, c: int, hi: int): (ok: bool)
    requires Shaped(g) && 0 <= r < Height && 0 <= c && hi <= Width
    ensures ok <==> forall k :: c <= k < hi ==> g[r][k] == 0
    decreases hi - c
  {
    if c >= hi then true else if g[r][c] > 0 then false else RowFreeUp(g, r, c + 1, hi)
  }

  /** `for (row = r; row < hi; row++) if (grid[row][c].pattern > 0) return false`. */
  function ColFreeUp(g: Board, c: int, r: int, hi: int): (ok: bool)
    requires Shaped(g) && 0 <= c < Width && 0 <= r && hi <= Height
    ensures ok <==> forall k :: r <= k < hi ==> g[k][c] == 0
    decreases hi - r
  {
    if r >= hi then true else if g[r][c] > 0 then false else ColFreeUp(g, c, r + 1, hi)
  }

  /** `for (col = c; col >= 0; col--) if (grid[r][col].pattern > 0) return false`. */
  function RowFreeDown(g: Board, r: int, c: int): (ok: bool)
    requires Shaped(g) && 0 <= r < Height && c < Width
    ensures ok <==> forall k :: 0 <= k <= c ==> g[r][k] == 0
    decreases c + 1
  {
    if c < 0 then true else if g[r][c] > 0 then false else RowFreeDown(g, r, c - 1)
  }

  /** `for (row = r; row >= 0; row--) if (grid[row][c].pattern > 0) return false`. */
  function ColFreeDown(g: Board, c: int, r: int): (ok: bool)
    requires Shaped(g) && 0 <= c < Width && r < Height
    ensures ok <==> forall k :: 0 <= k <= r ==> g[k][c] == 0
    decreases r + 1
  {
    if r < 0 then true else if g[r][c] > 0 then false else ColFreeDown(g, c, r - 1)
  }

  /** `canReachTopBorder`: the column above the cell is empty, so the cell
      sees the virtual row -1. */
  function CanReachTopBorder(g: Board, p: Pt): (ok: bool)
    requires Shaped(g) && InGrid(p)
    ensures ok <==> SegmentClear(g, p, Pt(-1, p.col))
  {
    ColFreeDown(g, p.col, p.row - 1)
  }

  /** `canReachBottomBorder`: the column below the cell is empty. */
  function CanReachBottomBorder(g: Board, p: Pt): (ok: bool)
    requires Shaped(g) && InGrid(p)
    ensures ok <==> SegmentClear(g, p, Pt(Height, p.col))
  {
    ColFreeUp(g, p.col, p.row + 1, Height)
  }

  /** `canReachLeftBorder`: the row left of the cell is empty. */
  function CanReachLeftBorder(g: Board, p: Pt): (ok: bool)
    requires Shaped(g) && InGrid(p)
    ensures ok <==> SegmentClear(g, p, Pt(p.row, -1))
  {
    RowFreeDown(g, p.row, p.col - 1)
  }

  /** `canReachRightBorder`: the row right of the cell is empty. */
  function CanReachRightBorder(g: Board, p: Pt): (ok: bool)
    requires Shaped(g) && InGrid(p)
    ensures ok <==> SegmentClear(g, p, Pt(p.row, Width))
  {
    RowFreeUp(g, p.row, p.col + 1, Width)
  }

  /** `canDirectConnect`: neighbours connect; otherwise the two must share a
      row or column with nothing between them.  The neighbour test is
      subsumed: there is nothing between neighbours. */
  function CanDirectConnect(g: Board, p1: Pt, p2: Pt): (ok: bool)
    requires Shaped(g) && InGrid(p1) && InGrid(p2)
    ensures ok <==> SegmentClear(g, p1, p2)
  {
    var rowDiff, colDiff := Grid.Abs(p1.row - p2.row), Grid.Abs(p1.col - p2.col);
    if (rowDiff == 1 && colDiff == 0) || (rowDiff == 0 && colDiff == 1) then true
    else if p1.row == p2.row then RowFreeUp(g, p1.row, Min(p1.col, p2.col) + 1, Max(p1.col, p2.col))
    else if p1.col == p2.col then ColFreeUp(g, p1.col, Min(p1.row, p2.row) + 1, Max(p1.row, p2.row))
    else false
  }

  /** The corner `c` of a one-turn path is usable: on the board, empty or
      allowed by the second test of `isCornerEmpty`, and both legs clear. */
  predicate CornerOk(g: Board, p1: Pt, c: Pt, p2: Pt, allowFilled: bool)
    requires Shaped(g)
  {
    InGrid(c) && (At(g, c) == 0 || allowFilled) && SegmentClear(g, p1, c) && SegmentClear(g, c, p2)
  }

  /** `findOneCornerPath`: first through `(row1, col2)`, then through
      `(row2, col1)`.  The second test of `isCornerEmpty` reads
      `row1 === row2 && col2 === col2`, that is `row1 === row2`. */
  function FindOneCornerPath(g: Board, p1: Pt, p2: Pt): (path: Option<seq<Pt>>)
    requires Shaped(g) && InGrid(p1) && InGrid(p2)
    ensures path.Some? <==>
      CornerOk(g, p1, Pt(p1.row, p2.col), p2, p1.row == p2.row) || CornerOk(g, p1, Pt(p2.row, p1.col), p2, p1.row == p2.row)
    ensures path.Some? ==> (
      |path.value| == 3 && path.value[0] == p1 && path.value[2] == p2 &&
      (path.value[1] == Pt(p1.row, p2.col) || path.value[1] == Pt(p2.row, p1.col)) &&
      CornerOk(g, p1, path.value[1], p2, p1.row == p2.row))
  {
    var a := Pt(p1.row, p2.col);
    var b := Pt(p2.row, p1.col);
    if InGrid(a) && (At(g, a) == 0 || p1.row == p2.row) && CanDirectConnect(g, p1, a) && CanDirectConnect(g, a, p2) then
      Some([p1, a, p2])
    else if InGrid(b) && (At(g, b) == 0 || p2.row == p1.row) && CanDirectConnect(g, p1, b) && CanDirectConnect(g, b, p2) then
      Some([p1, b, p2])
    else
      None
  }

  /** `for (col = c; col <= hi; col++) if (grid[r][col].pattern > 0 && col !== c1 && col !== c2) return null`:
      the board edge row `r` is free between the two columns, the two
      cells' own columns aside. */
  function EdgeRowFree(g: Board, r: int, c: int, hi: int, c1: int, c2: int): (ok: bool)
    requires Shaped(g) && 0 <= r < Height && 0 <= c && hi < Width
    ensures ok <==> forall k :: c <= k <= hi && k != c1 && k != c2 ==> g[r][k] == 0
    decreases hi - c + 1
  {
    if c > hi then true
    else if g[r][c] > 0 && c != c1 && c != c2 then false
    else EdgeRowFree(g, r, c + 1, hi, c1, c2)
  }

  /** The same for the edge column `c` between two rows. */
  function EdgeColFree(g: Board, c: int, r: int, hi: int, r1: int, r2: int): (ok: bool)
    requires Shaped(g) && 0 <= c < Width && 0 <= r && hi < Height
    ensures ok <==> forall k :: r <= k <= hi && k != r1 && k != r2 ==> g[k][c] == 0
    decreases hi - r + 1
  {
    if r > hi then true
    else if g[r][c] > 0 && r != r1 && r != r2 then false
    else EdgeColFree(g, c, r + 1, hi, r1, r2)
  }

  /** The detour over the top: both cells see row -1 and the top row is
      free between their columns. */
  predicate TopRoute(g: Board, p1: Pt, p2: Pt)
    requires Shaped(g) && InGrid(p1) && InGrid(p2)
  {
    SegmentClear(g, p1, Pt(-1, p1.col)) && SegmentClear(g, p2, Pt(-1, p2.col)) &&
    forall k :: Min(p1.col, p2.col) <= k <= Max(p1.col, p2.col) && k != p1.col && k != p2.col ==> g[0][k] == 0
  }

  predicate BottomRoute(g: Board, p1: Pt, p2: Pt)
    requires Shaped(g) && InGrid(p1) && InGrid(p2)
  {
    SegmentClear(g, p1, Pt(Height, p1.col)) && SegmentClear(g, p2, Pt(Height, p2.col)) &&
    forall k :: Min(p1.col, p2.col) <= k <= Max(p1.col, p2.col) && k != p1.col && k != p2.col ==> g[LastRow][k] == 0
  }

  predicate LeftRoute(g: Board, p1: Pt, p2: Pt)
    requires Shaped(g) && InGrid(p1) && InGrid(p2)
  {
    SegmentClear(g, p1, Pt(p1.row, -1)) && SegmentClear(g, p2, Pt(p2.row, -1)) &&
    forall k :: Min(p1.row, p2.row) <= k <= Max(p1.row, p2.row) && k != p1.row && k != p2.row ==> g[k][0] == 0
  }

  predicate RightRoute(g: Board, p1: Pt, p2: Pt)
    requires Shaped(g) && InGrid(p1) && InGrid(p2)
  {
    SegmentClear(g, p1, Pt(p1.row, Width)) && SegmentClear(g, p2, Pt(p2.row, Width)) &&
    forall k :: Min(p1.row, p2.row) <= k <= Max(p1.row, p2.row) && k != p1.row && k != p2.row ==> g[k][LastCol] == 0
  }

  /** A path the game may draw: from `p1` to `p2` in one to three straight
      clear segments, turning only at empty cells or off the board. */
  predicate Route(g: Board, p1: Pt, p2: Pt, path: seq<Pt>)
    requires Shaped(g)
  {
    2 <= |path| <= 4 && path[0] == p1 && path[|path| - 1] == p2 &&
    (forall i :: 0 <= i < |path| - 1 ==> SegmentClear(g, path[i], path[i + 1])) &&
    (forall i :: 0 < i < |path| - 1 ==> !InGrid(path[i]) || At(g, path[i]) == 0)
  }

  /** A two-turn path over a border: the two virtual points outside. */
  lemma BorderRoute(g: Board, p1: Pt, a: Pt, b: Pt, p2: Pt)
    requires Shaped(g) && !InGrid(a) && !InGrid(b)
    requires SegmentClear(g, p1, a) && SegmentClear(g, b, p2)
    requires (a.row == b.row && (a.row == -1 || a.row == Height)) || (a.col == b.col && (a.col == -1 || a.col == Width))
    ensures Route(g, p1, p2, [p1, a, b, p2])
  {
    var path := [p1, a, b, p2];
    assert SegmentClear(g, a, b);
  }

  /** `findTopBorderPath`. */
  function FindTopBorderPath(g: Board, p1: Pt, p2: Pt): (path: Option<seq<Pt>>)
    requires Shaped(g) && InGrid(p1) && InGrid(p2)
    ensures path.Some? <==> TopRoute(g, p1, p2)
    ensures path.Some? ==> Route(g, p1, p2, path.value) && |path.value| == 4 && path.value[1] == Pt(-1, p1.col) && path.value[2] == Pt(-1, p2.col)
  {
    if !CanReachTopBorder(g, p1) then None
    else if !CanReachTopBorder(g, p2) then None
    else if !EdgeRowFree(g, 0, Min(p1.col, p2.col), Max(p1.col, p2.col), p1.col, p2.col) then None
    else
      BorderRoute(g, p1, Pt(-1, p1.col), Pt(-1, p2.col), p2);
      Some([p1, Pt(-1, p1.col), Pt(-1, p2.col), p2])
  }

  /** `findBottomBorderPath`. */
  function FindBottomBorderPath(g: Board, p1: Pt, p2: Pt): (path: Option<seq<Pt>>)
    requires Shaped(g) && InGrid(p1) && InGrid(p2)
    ensures path.Some? <==> BottomRoute(g, p1, p2)
    ensures path.Some? ==> Route(g, p1, p2, path.value) && |path.value| == 4 && path.value[1] == Pt(Height, p1.col) && path.value[2] == Pt(Height, p2.col)
  {
    if !CanReachBottomBorder(g, p1) then None
    else if !CanReachBottomBorder(g, p2) then None
    else if !EdgeRowFree(g, LastRow, Min(p1.col, p2.col), Max(p1.col, p2.col), p1.col, p2.col) then None
    else
      BorderRoute(g, p1, Pt(Height, p1.col), Pt(Height, p2.col), p2);
      Some([p1, Pt(Height, p1.col), Pt(Height, p2.col), p2])
  }

  /** `findLeftBorderPath`. */
  function FindLeftBorderPath(g: Board, p1: Pt, p2: Pt): (path: Option<seq<Pt>>)
    requires Shaped(g) && InGrid(p1) && InGrid(p2)
    ensures path.Some? <==> LeftRoute(g, p1, p2)
    ensures path.Some? ==> Route(g, p1, p2, path.value) && |path.value| == 4 && path.value[1] == Pt(p1.row, -1) && path.value[2] == Pt(p2.row, -1)
  {
    if !CanReachLeftBorder(g, p1) then None
    else if !CanReachLeftBorder(g, p2) then None
    else if !EdgeColFree(g, 0, Min(p1.row, p2.row), Max(p1.row, p2.row), p1.row, p2.row) then None
    else
      BorderRoute(g, p1, Pt(p1.row, -1), Pt(p2.row, -1), p2);
      Some([p1, Pt(p1.row, -1), Pt(p2.row, -1), p2])
  }

  /** `findRightBorderPath`. */
  function FindRightBorderPath(g: Board, p1: Pt, p2: Pt): (path: Option<seq<Pt>>)
    requires Shaped(g) && InGrid(p1) && InGrid(p2)
    ensures path.Some? <==> RightRoute(g, p1, p2)
    ensures path.Some? ==> Route(g, p1, p2, path.value) && |path.value| == 4 && path.value[1] == Pt(p1.row, Width) && path.value[2] == Pt(p2.row, Width)
  {
    if !CanReachRightBorder(g, p1) then None
    else if !CanReachRightBorder(g, p2) then None
    else if !EdgeColFree(g, LastCol, Min(p1.row, p2.row), Max(p1.row, p2.row), p1.row, p2.row) then None
    else
      BorderRoute(g, p1, Pt(p1.row, Width), Pt(p2.row, Width), p2);
      Some([p1, Pt(p1.row, Width), Pt(p2.row, Width), p2])
  }

  /** `findBorderPath`: the four detours are all computed, and the first
      that exists is taken: top, bottom, left, right. */
  function FindBorderPath(g: Board, p1: Pt, p2: Pt): (path: Option<seq<Pt>>)
    requires Shaped(g) && InGrid(p1) && InGrid(p2)
    ensures path.Some? <==> TopRoute(g, p1, p2) || BottomRoute(g, p1, p2) || LeftRoute(g, p1, p2) || RightRoute(g, p1, p2)
    ensures path.Some? ==> Route(g, p1, p2, path.value) && |path.value| == 4
  {
    var top, bottom := FindTopBorderPath(g, p1, p2), FindBottomBorderPath(g, p1, p2);
    var left, right := FindLeftBorderPath(g, p1, p2), FindRightBorderPath(g, p1, p2);
    if top.Some? then top else if bottom.Some? then bottom else if left.Some? then left else right
  }

  /** A one-turn connection through an empty cell of the board. */
  predicate OneTurn(g: Board, p1: Pt, p2: Pt) {
    Shaped(g) &&
    (CornerOk(g, p1, Pt(p1.row, p2.col), p2, false) || CornerOk(g, p1, Pt(p2.row, p1.col), p2, false))
  }

  /** Once the straight line is blocked, the filled-corner allowance of
      `isCornerEmpty` never helps: an allowed filled corner is one of the
      two cells, and then one leg is the blocked straight line. */
  lemma CornerWhenBlocked(g: Board, p1: Pt, p2: Pt)
    requires Shaped(g) && InGrid(p1) && InGrid(p2) && !SegmentClear(g, p1, p2)
    ensures FindOneCornerPath(g, p1, p2).Some? <==> OneTurn(g, p1, p2)
  {
    var a, b := Pt(p1.row, p2.col), Pt(p2.row, p1.col);
    if p1.row == p2.row {
      assert a == p2 && b == p1;
      assert !CornerOk(g, p1, a, p2, true);
      assert !SegmentClear(g, b, p2);
    }
  }

  /** `findPath`: a straight line, else one corner, else a border detour.
      A path is found exactly when one of those connections exists, and it
      is a route the game may draw. */
  function FindPath(g: Board, p1: Pt, p2: Pt): (path: Option<seq<Pt>>)
    requires Shaped(g) && InGrid(p1) && InGrid(p2)
    ensures path.Some? <==> (
      SegmentClear(g, p1, p2) || OneTurn(g, p1, p2) ||
      TopRoute(g, p1, p2) || BottomRoute(g, p1, p2) || LeftRoute(g, p1, p2) || RightRoute(g, p1, p2))
    ensures path.Some? ==> Route(g, p1, p2, path.value)
    ensures SegmentClear(g, p1, p2) ==> path == Some([p1, p2])
  {
    if CanDirectConnect(g, p1, p2) then
      Some([p1, p2])
    else
      var corner := FindOneCornerPath(g, p1, p2);
      CornerWhenBlocked(g, p1, p2);
      if corner.Some? then
        corner
      else
        FindBorderPath(g, p1, p2)
  }

  /** `canConnect`. */
  function CanConnect(g: Board, p1: Pt, p2: Pt): (ok: bool)
    requires Shaped(g) && InGrid(p1) && InGrid(p2)
    ensures ok <==> exists path :: Route(g, p1, p2, path) && FindPath(g, p1, p2) == Some(path)
  {
    FindPath(g, p1, p2).Some?
  }

  lemma SegmentSymmetric(g: Board, a: Pt, b: Pt)
    requires Shaped(g)
    ensures SegmentClear(g, a, b) == SegmentClear(g, b, a)
  {
    assert Min(a.col, b.col) == Min(b.col, a.col) && Max(a.col, b.col) == Max(b.col, a.col);
    assert Min(a.row, b.row) == Min(b.row, a.row) && Max(a.row, b.row) == Max(b.row, a.row);
  }

  /** Whether two cells connect does not depend on which was picked first. */
  lemma ConnectSymmetric(g: Board, p1: Pt, p2: Pt)
    requires Shaped(g) && InGrid(p1) && InGrid(p2)
    ensures CanConnect(g, p1, p2) == CanConnect(g, p2, p1)
  {
    var a, b := Pt(p1.row, p2.col), Pt(p2.row, p1.col);
    SegmentSymmetric(g, p1, p2);
    SegmentSymmetric(g, p1, a);
    SegmentSymmetric(g, a, p2);
    SegmentSymmetric(g, p1, b);
    SegmentSymmetric(g, b, p2);
    assert OneTurn(g, p1, p2) == OneTurn(g, p2, p1);
    assert Min(p1.col, p2.col) == Min(p2.col, p1.col) && Max(p1.col, p2.col) == Max(p2.col, p1.col);
    assert Min(p1.row, p2.row) == Min(p2.row, p1.row) && Max(p1.row, p2.row) == Max(p2.row, p1.row);
    assert TopRoute(g, p1, p2) == TopRoute(g, p2, p1);
    assert BottomRoute(g, p1, p2) == BottomRoute(g, p2, p1);
    assert LeftRoute(g, p1, p2) == LeftRoute(g, p2, p1);
    assert RightRoute(g, p1, p2) == RightRoute(g, p2, p1);
  }

  // ------------------------------------------------------------ moves

  /** Two cells of the same pattern that the game lets the player take. */
  predicate Pairable(g: Board, p: Pt, q: Pt)
    requires Shaped(g) && InGrid(p) && InGrid(q)
  {
    At(g, q) != 0 && At(g, p) == At(g, q) && CanConnect(g, p, q)
  }

  /** `q` is `(r, c)` or comes after it in row-major order. */
  predicate AtOrAfter(r: int, c: int, q: Pt) {
    r < q.row || (r == q.row && c <= q.col)
  }

  /** The two inner loops of `hasValidMoves` for the first cell `p`, from
      `(r, c)` on. */
  function PartnerFrom(g: Board, p: Pt, r: nat, c: nat): (found: bool)
    requires Shaped(g) && InGrid(p) && r <= Height && c <= Width
    ensures found <==> exists q :: InGrid(q) && AtOrAfter(r, c, q) && Pairable(g, p, q)
    decreases Height - r, Width - c
  {
    if r == Height then
      false
    else if c == Width then
      PartnerRowEnd(g, p, r);
      PartnerFrom(g, p, r + 1, 0)
    else if g[r][c] == 0 then
      PartnerStep(g, p, r, c);
      PartnerFrom(g, p, r, c + 1)
    else if At(g, p) == g[r][c] && CanConnect(g, p, Pt(r, c)) then
      assert Pairable(g, p, Pt(r, c));
      true
    else
      PartnerStep(g, p, r, c);
      PartnerFrom(g, p, r, c + 1)
  }

  lemma PartnerRowEnd(g: Board, p: Pt, r: int)
    requires Shaped(g) && InGrid(p)
    ensures (exists q :: InGrid(q) && AtOrAfter(r, Width, q) && Pairable(g, p, q)) <==>
            (exists q :: InGrid(q) && AtOrAfter(r + 1, 0, q) && Pairable(g, p, q))
  {
    forall q | InGrid(q)
      ensures AtOrAfter(r, Width, q) <==> AtOrAfter(r + 1, 0, q)
    {
    }
  }

  lemma PartnerStep(g: Board, p: Pt, r: int, c: int)
    requires Shaped(g) && InGrid(p) && 0 <= r < Height && 0 <= c < Width
    requires !Pairable(g, p, Pt(r, c))
    ensures (exists q :: InGrid(q) && AtOrAfter(r, c, q) && Pairable(g, p, q)) <==>
            (exists q :: InGrid(q) && AtOrAfter(r, c + 1, q) && Pairable(g, p, q))
  {
    if exists q :: InGrid(q) && AtOrAfter(r, c, q) && Pairable(g, p, q) {
      var q :| InGrid(q) && AtOrAfter(r, c, q) && Pairable(g, p, q);
      assert AtOrAfter(r, c + 1, q);
    }
  }

  /** Some cell at or after `(r, c)` pairs with a later cell. */
  ghost predicate PairFrom(g: Board, r: int, c: int)
    requires Shaped(g)
  {
    exists p, q :: InGrid(p) && InGrid(q) && AtOrAfter(r, c, p) && AtOrAfter(p.row, p.col + 1, q) && Pairable(g, p, q)
  }

  /** The two outer loops of `hasValidMoves`, from `(r, c)` on. */
  function MovesFrom(g: Board, r: nat, c: nat): (found: bool)
    requires Shaped(g) && r <= Height && c <= Width
    ensures found <==> PairFrom(g, r, c)
    decreases Height - r, Width - c
  {
    if r == Height then
      false
    else if c == Width then
      PairRowEnd(g, r);
      MovesFrom(g, r + 1, 0)
    else if g[r][c] == 0 then
      PairStep(g, r, c);
      MovesFrom(g, r, c + 1)
    else if PartnerFrom(g, Pt(r, c), r, c + 1) then
      PairHere(g, r, c);
      true
    else
      PairStep(g, r, c);
      MovesFrom(g, r, c + 1)
  }

  /** A partner of cell `(r, c)` after it is a pair from `(r, c)` on. */
  lemma PairHere(g: Board, r: int, c: int)
    requires Shaped(g) && 0 <= r < Height && 0 <= c < Width
    requires exists q :: InGrid(q) && AtOrAfter(r, c + 1, q) && Pairable(g, Pt(r, c), q)
    ensures PairFrom(g, r, c)
  {
    var q :| InGrid(q) && AtOrAfter(r, c + 1, q) && Pairable(g, Pt(r, c), q);
    assert AtOrAfter(r, c, Pt(r, c));
  }

  lemma PairRowEnd(g: Board, r: int)
    requires Shaped(g)
    ensures PairFrom(g, r, Width) <==> PairFrom(g, r + 1, 0)
  {
    if PairFrom(g, r, Width) {
      var p, q :| InGrid(p) && InGrid(q) && AtOrAfter(r, Width, p) && AtOrAfter(p.row, p.col + 1, q) && Pairable(g, p, q);
      assert AtOrAfter(r + 1, 0, p);
    }
    if PairFrom(g, r + 1, 0) {
      var p, q :| InGrid(p) && InGrid(q) && AtOrAfter(r + 1, 0, p) && AtOrAfter(p.row, p.col + 1, q) && Pairable(g, p, q);
      assert AtOrAfter(r, Width, p);
    }
  }

  /** Cell `(r, c)` pairs with no later cell. */
  lemma PairStep(g: Board, r: int, c: int)
    requires Shaped(g) && 0 <= r < Height && 0 <= c < Width
    requires forall q :: InGrid(q) && AtOrAfter(r, c + 1, q) ==> !Pairable(g, Pt(r, c), q)
    ensures PairFrom(g, r, c) <==> PairFrom(g, r, c + 1)
  {
    if PairFrom(g, r, c) {
      var p, q :| InGrid(p) && InGrid(q) && AtOrAfter(r, c, p) && AtOrAfter(p.row, p.col + 1, q) && Pairable(g, p, q);
      assert p != Pt(r, c);
      assert AtOrAfter(r, c + 1, p);
    }
  }

  /** `hasValidMoves`: some two distinct cells of the same pattern connect. */
  function HasValidMoves(g: Board): (found: bool)
    requires Shaped(g)
    ensures found <==> exists p, q :: InGrid(p) && InGrid(q) && p != q && Pairable(g, p, q)
  {
    PairsFromStart(g);
    MovesFrom(g, 0, 0)
  }

  /** A pair of one cell with a later one is a pair of distinct cells, and
      by symmetry of `canConnect` every pair of distinct cells is one,
      read in row-major order. */
  lemma PairsFromStart(g: Board)
    requires Shaped(g)
    ensures PairFrom(g, 0, 0) <==> exists p, q :: InGrid(p) && InGrid(q) && p != q && Pairable(g, p, q)
  {
    if PairFrom(g, 0, 0) {
      var p, q :| InGrid(p) && InGrid(q) && AtOrAfter(0, 0, p) && AtOrAfter(p.row, p.col + 1, q) && Pairable(g, p, q);
      assert p != q;
    }
    if exists p, q :: InGrid(p) && InGrid(q) && p != q && Pairable(g, p, q) {
      var p, q :| InGrid(p) && InGrid(q) && p != q && Pairable(g, p, q);
      if AtOrAfter(p.row, p.col + 1, q) {
        assert AtOrAfter(0, 0, p);
      } else {
        ConnectSymmetric(g, p, q);
        assert Pairable(g, q, p) && AtOrAfter(q.row, q.col + 1, p) && AtOrAfter(0, 0, q);
      }
    }
  }

  // ------------------------------------------------------------ taking a pair

  /** The board update of `handleSuccessfulMatch`: both cells emptied and
      the count of blocks lowered by two; no other cell changes. */
  function TakePair(s: Game, p1: Pt, p2: Pt): (s': Game)
    requires Shaped(s.board) && InGrid(p1) && InGrid(p2)
    ensures Shaped(s'.board) && At(s'.board, p1) == 0 && At(s'.board, p2) == 0
    ensures forall q :: InGrid(q) && q != p1 && q != p2 ==> At(s'.board, q) == At(s.board, q)
    ensures s'.remaining == s.remaining - 2
  {
    Game(SetAt(SetAt(s.board, p1, 0), p2, 0), s.remaining - 2)
  }

  /** `checkConnection` on a selection of two blocks: different patterns or
      no path leave the game as it is; otherwise the pair is taken. */
  function CheckConnection(s: Game, p1: Pt, p2: Pt): (res: (Game, bool))
    requires Shaped(s.board) && InGrid(p1) && InGrid(p2)
    ensures res.1 <==> At(s.board, p1) == At(s.board, p2) && CanConnect(s.board, p1, p2)
    ensures res.1 ==> res.0 == TakePair(s, p1, p2)
    ensures !res.1 ==> res.0 == s
  {
    if At(s.board, p1) != At(s.board, p2) then (s, false)
    else if CanConnect(s.board, p1, p2) then (TakePair(s, p1, p2), true)
    else (s, false)
  }

  /** Taking two distinct filled cells keeps `remainingBlocks` equal to the
      number of filled cells. */
  lemma TakePairKeepsCount(s: Game, p1: Pt, p2: Pt)
    requires Shaped(s.board) && InGrid(p1) && InGrid(p2) && p1 != p2
    requires At(s.board, p1) != 0 && At(s.board, p2) != 0
    requires s.remaining == |Filled(s.board)|
    ensures TakePair(s, p1, p2).remaining == |Filled(TakePair(s, p1, p2).board)|
  {
    var mid := SetAt(s.board, p1, 0);
    CellsOfSet(s.board, p1, 0, 1);
    CellsOfSet(mid, p2, 0, 1);
    assert p1 in Filled(s.board);
    assert At(mid, p2) != 0;
    assert p2 in Filled(mid);
  }

  /** Taking two distinct cells of one pattern keeps every pattern's count
      even, so `quickValidation` still holds. */
  lemma TakePairKeepsParity(s: Game, p1: Pt, p2: Pt)
    requires Shaped(s.board) && InGrid(p1) && InGrid(p2) && p1 != p2
    requires At(s.board, p1) == At(s.board, p2) != 0
    requires QuickValidation(s.board)
    ensures QuickValidation(TakePair(s, p1, p2).board)
  {
    forall v | v > 0
      ensures |CellsOf(TakePair(s, p1, p2).board, v)| % 2 == 0
    {
      PairParityOne(s.board, p1, p2, v);
    }
  }

  /** One pattern's cell count after emptying two cells of pattern
      `At(g, p1)`: lowered by two for that pattern, unchanged for others. */
  lemma PairParityOne(g: Board, p1: Pt, p2: Pt, v: nat)
    requires Shaped(g) && InGrid(p1) && InGrid(p2) && p1 != p2
    requires At(g, p1) == At(g, p2) != 0 && v > 0
    requires |CellsOf(g, v)| % 2 == 0
    ensures |CellsOf(SetAt(SetAt(g, p1, 0), p2, 0), v)| % 2 == 0
  {
    var mid := SetAt(g, p1, 0);
    var end := SetAt(mid, p2, 0);
    var a := CellsOf(g, v);
    CellsOfSet(g, p1, 0, v);
    assert CellsOf(mid, v) == a - {p1};
    CellsOfSet(mid, p2, 0, v);
    assert CellsOf(end, v) == a - {p1} - {p2};
    if v == At(g, p1) {
      assert At(mid, p2) == v;
      DropTwo(a, p1, p2);
    } else {
      assert p1 !in a && p2 !in a;
      assert a - {p1} - {p2} == a;
    }
  }

  /** Removing two distinct members lowers a set's size by two. */
  lemma DropTwo<T>(a: set<T>, x: T, y: T)
    requires x in a && y in a && x != y
    ensures |a - {x} - {y}| == |a| - 2
  {
    assert a - {x} - {y} + {x, y} == a;
  }
}
