/** The board logic of the match-3 game, `project_ts/src/match3-game-algorithms.ts`:
    `GameGrid`, run detection (`MatchDetector`), elimination and gravity
    (`EliminationSystem`).  The mutable grid is a value; every operation
    returns the new board. */
module Match3 {
  import Grid

  /** `GemType`. */
  datatype Gem = Red | Blue | Green | Yellow | Purple | Orange | Bomb | Line | Color | Empty

  /** `GameGrid`: `rows` rows of `cols` gems, `cells[row][col]`. */
  datatype Board = Board(rows: nat, cols: nat, cells: seq<seq<Gem>>)

  predicate Valid(b: Board) {
    |b.cells| == b.rows && forall r :: 0 <= r < b.rows ==> |b.cells[r]| == b.cols
  }

  /** `isValidPosition`. */
  predicate InGrid(b: Board, r: int, c: int) {
    0 <= r < b.rows && 0 <= c < b.cols
  }

  /** The constructor: every cell `EMPTY`. */
  function NewBoard(rows: nat, cols: nat): (b: Board)
    ensures Valid(b) && b.rows == rows && b.cols == cols
    ensures forall r, c :: Get(b, r, c) == Empty
  {
    Board(rows, cols, seq(rows, _ => seq(cols, _ => Empty)))
  }

  /** `get`: `EMPTY` off the board. */
  function Get(b: Board, r: int, c: int): Gem
    requires Valid(b)
  {
    if InGrid(b, r, c) then b.cells[r][c] else Empty
  }

  /** `set`: a write off the board is ignored; a write on it changes that
      cell only. */
  function Set(b: Board, r: int, c: int, g: Gem): (b': Board)
    requires Valid(b)
    ensures Valid(b') && b'.rows == b.rows && b'.cols == b.cols
    ensures !InGrid(b, r, c) ==> b' == b
    ensures forall r', c' :: Get(b', r', c') == if InGrid(b, r, c) && r' == r && c' == c then g else Get(b, r', c')
  {
    if InGrid(b, r, c) then Board(b.rows, b.cols, b.cells[r := b.cells[r][c := g]]) else b
  }

  /** Two boards of the same shape that agree on every cell are equal. */
  lemma Extensionality(a: Board, b: Board)
    requires Valid(a) && Valid(b) && a.rows == b.rows && a.cols == b.cols
    requires forall r, c :: InGrid(a, r, c) ==> Get(a, r, c) == Get(b, r, c)
    ensures a == b
  {
    forall r | 0 <= r < a.rows
      ensures a.cells[r] == b.cells[r]
    {
      forall c | 0 <= c < a.cols
        ensures a.cells[r][c] == b.cells[r][c]
      {
        assert Get(a, r, c) == Get(b, r, c);
      }
    }
  }

  /** `swap`: read the first cell, write the second into it, then the first
      into the second. */
  function Swap(b: Board, r1: int, c1: int, r2: int, c2: int): (b': Board)
    requires Valid(b)
    ensures Valid(b') && b'.rows == b.rows && b'.cols == b.cols
    ensures InGrid(b, r1, c1) && InGrid(b, r2, c2) ==>
      Get(b', r1, c1) == Get(b, r2, c2) && Get(b', r2, c2) == Get(b, r1, c1) &&
      forall r, c :: (r, c) != (r1, c1) && (r, c) != (r2, c2) ==> Get(b', r, c) == Get(b, r, c)
  {
    var temp := Get(b, r1, c1);
    Set(Set(b, r1, c1, Get(b, r2, c2)), r2, c2, temp)
  }

  /** Swapping twice restores the board when both cells are on it (the only
      way the hint search calls it) or both are off it. */
  lemma SwapTwice(b: Board, r1: int, c1: int, r2: int, c2: int)
    requires Valid(b) && InGrid(b, r1, c1) == InGrid(b, r2, c2)
    ensures Swap(Swap(b, r1, c1, r2, c2), r1, c1, r2, c2) == b
  {
    var b2 := Swap(Swap(b, r1, c1, r2, c2), r1, c1, r2, c2);
    Extensionality(b2, b);
  }

  /** With one cell on the board and the other off it, `swap` destroys the
      gem on the board: what it reads off the board is `EMPTY`, and the
      write back off the board is ignored. */
  lemma SwapOffBoardLoses(b: Board, r1: int, c1: int, r2: int, c2: int)
    requires Valid(b) && InGrid(b, r1, c1) && !InGrid(b, r2, c2)
    ensures Get(Swap(b, r1, c1, r2, c2), r1, c1) == Empty
  {
  }

  /** `remove`. */
  function Remove(b: Board, r: int, c: int): (b': Board)
    requires Valid(b)
    ensures Valid(b') && b'.rows == b.rows && b'.cols == b.cols
    ensures forall r', c' :: Get(b', r', c') == if r' == r && c' == c then Empty else Get(b, r', c')
  {
    Set(b, r, c, Empty)
  }

  /** `clear`: every cell `EMPTY`, the shape kept. */
  function Clear(b: Board): (b': Board)
    requires Valid(b)
    ensures Valid(b') && b'.rows == b.rows && b'.cols == b.cols
    ensures forall r, c :: Get(b', r, c) == Empty
  {
    NewBoard(b.rows, b.cols)
  }

  // ------------------------------------------------------------------ lines

  /** Row `r`, left to right. */
  function Row(b: Board, r: int): (line: seq<Gem>)
    requires Valid(b) && 0 <= r < b.rows
    ensures |line| == b.cols && forall c :: 0 <= c < b.cols ==> line[c] == Get(b, r, c)
  {
    b.cells[r]
  }

  /** Column `c`, top to bottom. */
  function Column(b: Board, c: int): (line: seq<Gem>)
    requires Valid(b) && 0 <= c < b.cols
    ensures |line| == b.rows && forall r :: 0 <= r < b.rows ==> line[r] == Get(b, r, c)
  {
    seq(b.rows, r requires 0 <= r < b.rows => b.cells[r][c])
  }

  /** `line[s..s + len]` is a maximal run of the gem `kind`, which is not
      `EMPTY`, and it is at least three long: the runs a match reports. */
  predicate IsRun(line: seq<Gem>, s: int, len: int, kind: Gem) {
    kind != Empty && len >= 3 && 0 <= s && s + len <= |line| &&
    (forall j :: s <= j < s + len ==> line[j] == kind) &&
    (s == 0 || line[s - 1] != kind) &&
    (s + len == |line| || line[s + len] != kind)
  }

  datatype Run = Run(start: int, length: int, kind: Gem)

  /** The state of the scan of a line before position `i`: `count` copies
      of `current` end just before `i`, and when `current` is a gem they
      start a maximal run on the left. */
  predicate ScanState(line: seq<Gem>, i: nat, current: Gem, count: nat, start: nat) {
    (i == 0 ==> current == Empty && count == 0 && start == 0) &&
    (i > 0 ==>
      count >= 1 && start + count == i &&
      (forall j :: start <= j < i && j < |line| ==> line[j] == current) &&
      (current != Empty ==> i <= |line| && (start == 0 || line[start - 1] != current)) &&
      (current == Empty ==> count == 1))
  }

  /** The inner loop of `findHorizontalMatches` / `findVerticalMatches` from
      position `i` on.  Position `|line|` reads as `EMPTY`, which closes the
      last run.  A run is reported when a different gem (or `EMPTY`) ends it
      with `count >= 3` and a gem type. */
  function ScanLine(line: seq<Gem>, i: nat, current: Gem, count: nat, start: nat): (r: seq<Run>)
    requires i <= |line| + 1 && ScanState(line, i, current, count, start)
    ensures forall u :: u in r ==> IsRun(line, u.start, u.length, u.kind) && u.start >= start
    ensures forall s, len, k :: IsRun(line, s, len, k) && s >= start ==> Run(s, len, k) in r
    decreases |line| + 1 - i
  {
    if i == |line| + 1 then
      []
    else
      var gem := if i < |line| then line[i] else Empty;
      if gem == current && gem != Empty then
        ScanLine(line, i + 1, current, count + 1, start)
      else
        var rest := ScanLine(line, i + 1, gem, 1, i);
        ScanClosed(line, i, current, count, start);
        if count >= 3 && current != Empty then
          [Run(start, count, current)] + rest
        else
          rest
  }

  /** When the gem at `i` differs from `current`, the only run from `start`
      that can be reported is `count` copies of `current`, and no run starts
      strictly between `start` and `i`. */
  lemma ScanClosed(line: seq<Gem>, i: nat, current: Gem, count: nat, start: nat)
    requires i <= |line| && ScanState(line, i, current, count, start)
    requires (if i < |line| then line[i] else Empty) != current || current == Empty
    ensures count >= 3 && current != Empty ==> IsRun(line, start, count, current)
    ensures forall s, len, k :: IsRun(line, s, len, k) && start <= s < i ==>
      s == start && len == count && k == current
  {
    forall s, len, k | IsRun(line, s, len, k) && start <= s < i
      ensures s == start && len == count && k == current
    {
      assert line[s] == k && line[s] == current;
    }
  }

  /** All maximal runs of at least three gems of a line, left to right. */
  function Runs(line: seq<Gem>): (r: seq<Run>)
    ensures forall u :: u in r <==> IsRun(line, u.start, u.length, u.kind)
  {
    ScanLine(line, 0, Empty, 0, 0)
  }

  /** A line with no two equal neighbouring gems has no runs. */
  lemma NoRunsWithoutPairs(line: seq<Gem>)
    requires forall j :: 0 <= j < |line| - 1 ==> line[j] == Empty || line[j] != line[j + 1]
    ensures forall s, len, k :: !IsRun(line, s, len, k)
  {
    forall s, len, k
      ensures !IsRun(line, s, len, k)
    {
      if 0 <= s && s + 1 < |line| {
        assert line[s] == Empty || line[s] != line[s + 1];
      }
    }
  }

  // ---------------------------------------------------------------- matches

  /** A match: `length` gems of `kind` from `(row, col)`. */
  datatype Match = Match(row: int, col: int, length: int, kind: Gem)

  /** The rows `r..rows - 1` of `findHorizontalMatches`. */
  function HorizontalFrom(b: Board, r: nat): (ms: seq<Match>)
    requires Valid(b) && r <= b.rows
    ensures forall m :: m in ms ==> r <= m.row < b.rows && IsRun(Row(b, m.row), m.col, m.length, m.kind)
    ensures forall r', s, len, k :: r <= r' < b.rows && IsRun(Row(b, r'), s, len, k) ==> Match(r', s, len, k) in ms
    decreases b.rows - r
  {
    if r == b.rows then []
    else
      var runs := Runs(Row(b, r));
      var here := seq(|runs|, i requires 0 <= i < |runs| => Match(r, runs[i].start, runs[i].length, runs[i].kind));
      var rest := HorizontalFrom(b, r + 1);
      assert forall s, len, k :: IsRun(Row(b, r), s, len, k) ==> Match(r, s, len, k) in here by {
        forall s, len, k | IsRun(Row(b, r), s, len, k)
          ensures Match(r, s, len, k) in here
        {
          var i :| 0 <= i < |runs| && runs[i] == Run(s, len, k);
          assert here[i] == Match(r, s, len, k);
        }
      }
      here + rest
  }

  /** `findHorizontalMatches`: exactly the maximal runs of three or more in
      each row. */
  function FindHorizontalMatches(b: Board): (ms: seq<Match>)
    requires Valid(b)
    ensures forall m :: m in ms <==> 0 <= m.row < b.rows && IsRun(Row(b, m.row), m.col, m.length, m.kind)
  {
    HorizontalFrom(b, 0)
  }

  /** The columns `c..cols - 1` of `findVerticalMatches`. */
  function VerticalFrom(b: Board, c: nat): (ms: seq<Match>)
    requires Valid(b) && c <= b.cols
    ensures forall m :: m in ms ==> c <= m.col < b.cols && IsRun(Column(b, m.col), m.row, m.length, m.kind)
    ensures forall c', s, len, k :: c <= c' < b.cols && IsRun(Column(b, c'), s, len, k) ==> Match(s, c', len, k) in ms
    decreases b.cols - c
  {
    if c == b.cols then []
    else
      var runs := Runs(Column(b, c));
      var here := seq(|runs|, i requires 0 <= i < |runs| => Match(runs[i].start, c, runs[i].length, runs[i].kind));
      var rest := VerticalFrom(b, c + 1);
      assert forall s, len, k :: IsRun(Column(b, c), s, len, k) ==> Match(s, c, len, k) in here by {
        forall s, len, k | IsRun(Column(b, c), s, len, k)
          ensures Match(s, c, len, k) in here
        {
          var i :| 0 <= i < |runs| && runs[i] == Run(s, len, k);
          assert here[i] == Match(s, c, len, k);
        }
      }
      here + rest
  }

  /** `findVerticalMatches`: exactly the maximal runs of three or more in
      each column. */
  function FindVerticalMatches(b: Board): (ms: seq<Match>)
    requires Valid(b)
    ensures forall m :: m in ms <==> 0 <= m.col < b.cols && IsRun(Column(b, m.col), m.row, m.length, m.kind)
  {
    VerticalFrom(b, 0)
  }

  /** The test of `mergeMatches` for `other` overlapping `m`. */
  predicate Overlaps(other: Match, m: Match) {
    other.kind == m.kind &&
    ((other.row == m.row && Grid.Abs(other.col - m.col) < other.length) ||
     (other.col == m.col && Grid.Abs(other.row - m.row) < other.length))
  }

  /** The longest overlapping length in `all[j..]`, at least `acc`. */
  function LongestOverlap(all: seq<Match>, m: Match, j: nat, acc: int): (n: int)
    requires j <= |all|
    ensures n >= acc
    ensures forall i :: j <= i < |all| && Overlaps(all[i], m) ==> n >= all[i].length
    ensures n == acc || exists i :: j <= i < |all| && Overlaps(all[i], m) && n == all[i].length
    decreases |all| - j
  {
    if j == |all| then acc
    else if Overlaps(all[j], m) && all[j].length > acc then LongestOverlap(all, m, j + 1, all[j].length)
    else LongestOverlap(all, m, j + 1, acc)
  }

  /** The key `row-col-type` of `mergeMatches`. */
  function Key(m: Match): (int, int, Gem) {
    (m.row, m.col, m.kind)
  }

  /** The keys of a list of matches. */
  function KeysOf(ms: seq<Match>): set<(int, int, Gem)> {
    set m | m in ms :: Key(m)
  }

  lemma KeysCons(m: Match, ms: seq<Match>)
    ensures KeysOf([m] + ms) == {Key(m)} + KeysOf(ms)
  {
    assert forall x :: x in [m] + ms <==> x == m || x in ms;
  }

  lemma KeysAppend(a: seq<Match>, b: seq<Match>)
    ensures KeysOf(a + b) == KeysOf(a) + KeysOf(b)
  {
    assert forall x :: x in a + b <==> x in a || x in b;
  }

  /** The loop of `mergeMatches` from `all[i]` on: the first match of each
      unprocessed key is kept, with the longest length among all the
      matches overlapping it (every match of the same key overlaps it). */
  function MergeFrom(all: seq<Match>, i: nat, processed: set<(int, int, Gem)>): (r: seq<Match>)
    requires i <= |all|
    ensures KeysOf(r) == KeysOf(all[i..]) - processed
    ensures forall m, j :: m in r && 0 <= j < |all| && Key(all[j]) == Key(m) && all[j].length > 0 ==>
      m.length >= all[j].length
    ensures forall a, b :: 0 <= a < b < |r| ==> Key(r[a]) != Key(r[b])
    decreases |all| - i
  {
    if i == |all| then
      []
    else
      var m := all[i];
      assert all[i..] == [m] + all[i + 1..];
      KeysCons(m, all[i + 1..]);
      if Key(m) in processed then
        MergeFrom(all, i + 1, processed)
      else
        var rest := MergeFrom(all, i + 1, processed + {Key(m)});
        var kept := m.(length := LongestOverlap(all, m, 0, m.length));
        assert forall j :: 0 <= j < |all| && Key(all[j]) == Key(m) && all[j].length > 0 ==> Overlaps(all[j], m);
        KeysCons(kept, rest);
        DistinctCons(kept, rest);
        [kept] + rest
  }

  /** A match whose key no later match has keeps the keys distinct. */
  lemma DistinctCons(m: Match, ms: seq<Match>)
    requires Key(m) !in KeysOf(ms)
    requires forall a, b :: 0 <= a < b < |ms| ==> Key(ms[a]) != Key(ms[b])
    ensures forall a, b :: 0 <= a < b < |[m] + ms| ==> Key(([m] + ms)[a]) != Key(([m] + ms)[b])
  {
    forall a, b | 0 <= a < b < |[m] + ms|
      ensures Key(([m] + ms)[a]) != Key(([m] + ms)[b])
    {
      assert ([m] + ms)[b] == ms[b - 1];
      assert ms[b - 1] in ms;
      if a > 0 {
        assert ([m] + ms)[a] == ms[a - 1];
      }
    }
  }

  /** `mergeMatches`: one match per key, every key of the input kept, each
      at least as long as every input match of its key. */
  function MergeMatches(all: seq<Match>): (r: seq<Match>)
    ensures KeysOf(r) == KeysOf(all)
    ensures forall m, j :: m in r && 0 <= j < |all| && Key(all[j]) == Key(m) && all[j].length > 0 ==>
      m.length >= all[j].length
    ensures forall a, b :: 0 <= a < b < |r| ==> Key(r[a]) != Key(r[b])
  {
    assert all[0..] == all;
    MergeFrom(all, 0, {})
  }

  /** `findAllMatches`: the horizontal runs, then the vertical ones, merged.
      A key is a starting cell and a gem, with no direction; the merge keeps
      the key set and, per key, a length at least that of every run. */
  function FindAllMatches(b: Board): (ms: seq<Match>)
    requires Valid(b)
    ensures KeysOf(ms) == KeysOf(FindHorizontalMatches(b)) + KeysOf(FindVerticalMatches(b))
    ensures forall m, m' :: m in ms && m' in FindHorizontalMatches(b) + FindVerticalMatches(b) && Key(m') == Key(m) ==>
      m.length >= m'.length
    ensures forall a, b :: 0 <= a < b < |ms| ==> Key(ms[a]) != Key(ms[b])
  {
    var all := FindHorizontalMatches(b) + FindVerticalMatches(b);
    KeysAppend(FindHorizontalMatches(b), FindVerticalMatches(b));
    var ms := MergeMatches(all);
    assert forall m' :: m' in all ==> exists j :: 0 <= j < |all| && all[j] == m';
    ms
  }

  /** A board with no run of three equal gems in any row or column has no
      matches. */
  lemma NoMatchesWithoutRuns(b: Board)
    requires Valid(b)
    requires forall r, s, len, k :: 0 <= r < b.rows ==> !IsRun(Row(b, r), s, len, k)
    requires forall c, s, len, k :: 0 <= c < b.cols ==> !IsRun(Column(b, c), s, len, k)
    ensures FindAllMatches(b) == []
  {
    var h, v := FindHorizontalMatches(b), FindVerticalMatches(b);
    var ms := FindAllMatches(b);
  }

  /** An `EMPTY` board has no matches. */
  lemma EmptyBoardNoMatches(rows: nat, cols: nat)
    ensures FindAllMatches(NewBoard(rows, cols)) == []
  {
    var b := NewBoard(rows, cols);
    forall r, s, len, k | 0 <= r < b.rows
      ensures !IsRun(Row(b, r), s, len, k)
    {
      if 0 <= s < b.cols {
        assert Row(b, r)[s] == Empty;
      }
    }
    forall c, s, len, k | 0 <= c < b.cols
      ensures !IsRun(Column(b, c), s, len, k)
    {
      if 0 <= s < b.rows {
        assert Column(b, c)[s] == Empty;
      }
    }
    NoMatchesWithoutRuns(b);
  }

  // ------------------------------------------------------------ elimination

  /** An eliminated gem and where it was. */
  datatype Removed = Removed(row: int, col: int, kind: Gem)

  /** Cell `i` of a match laid out along a row (`horizontal`) or a column. */
  predicate Covers(m: Match, horizontal: bool, i: int, r: int, c: int) {
    0 <= i < m.length &&
    if horizontal then r == m.row && c == m.col + i else r == m.row + i && c == m.col
  }

  /** `(r, c)` is one of the cells `i..length - 1` of the match. */
  predicate CoveredFrom(m: Match, horizontal: bool, i: int, r: int, c: int) {
    if horizontal then r == m.row && m.col + i <= c < m.col + m.length
    else c == m.col && m.row + i <= r < m.row + m.length
  }

  /** The loop over `i` of one match in `eliminateMatches`: each cell still
      holding a gem is reported with its gem and emptied. */
  function ClearMatch(b: Board, m: Match, horizontal: bool, i: nat): (res: (Board, seq<Removed>))
    requires Valid(b)
    ensures Valid(res.0) && res.0.rows == b.rows && res.0.cols == b.cols
    ensures forall r, c :: Get(res.0, r, c) == if CoveredFrom(m, horizontal, i, r, c) then Empty else Get(b, r, c)
    ensures forall e :: e in res.1 ==> CoveredFrom(m, horizontal, i, e.row, e.col) && e.kind != Empty && e.kind == Get(b, e.row, e.col)
    ensures forall r, c :: CoveredFrom(m, horizontal, i, r, c) && Get(b, r, c) != Empty ==> Removed(r, c, Get(b, r, c)) in res.1
    decreases if m.length > i then m.length - i else 0
  {
    if i >= m.length then (b, [])
    else
      var r := if horizontal then m.row else m.row + i;
      var c := if horizontal then m.col + i else m.col;
      var g := Get(b, r, c);
      if g != Empty then
        var rest := ClearMatch(Remove(b, r, c), m, horizontal, i + 1);
        (rest.0, [Removed(r, c, g)] + rest.1)
      else
        ClearMatch(b, m, horizontal, i + 1)
  }

  /** Some match of three or more among `ms[j..]` covers `(r, c)`. */
  ghost predicate SomeCovers(ms: seq<Match>, hs: seq<bool>, j: nat, r: int, c: int)
    requires |hs| == |ms|
  {
    exists i :: j <= i < |ms| && ms[i].length >= 3 && CoveredFrom(ms[i], hs[i], 0, r, c)
  }

  /** `eliminateMatches` over matches with a direction each, from `ms[j]`
      on: every match of three or more has its cells emptied, in order;
      a cell emptied by an earlier match is not reported again. */
  function EliminateOriented(b: Board, ms: seq<Match>, hs: seq<bool>, j: nat): (res: (Board, seq<Removed>))
    requires Valid(b) && |hs| == |ms| && j <= |ms|
    ensures Valid(res.0) && res.0.rows == b.rows && res.0.cols == b.cols
    ensures forall r, c :: Get(res.0, r, c) == if SomeCovers(ms, hs, j, r, c) then Empty else Get(b, r, c)
    ensures forall e :: e in res.1 ==> SomeCovers(ms, hs, j, e.row, e.col) && e.kind != Empty && e.kind == Get(b, e.row, e.col)
    ensures forall r, c :: SomeCovers(ms, hs, j, r, c) && Get(b, r, c) != Empty ==> Removed(r, c, Get(b, r, c)) in res.1
    decreases |ms| - j
  {
    if j == |ms| then (b, [])
    else if ms[j].length >= 3 then
      var one := ClearMatch(b, ms[j], hs[j], 0);
      var rest := EliminateOriented(one.0, ms, hs, j + 1);
      EliminateStep(b, ms, hs, j, one.0, rest.0);
      (rest.0, one.1 + rest.1)
    else
      var rest := EliminateOriented(b, ms, hs, j + 1);
      assert forall r, c :: SomeCovers(ms, hs, j, r, c) == SomeCovers(ms, hs, j + 1, r, c) by {
        forall r, c | SomeCovers(ms, hs, j, r, c)
          ensures SomeCovers(ms, hs, j + 1, r, c)
        {
          var i :| j <= i < |ms| && ms[i].length >= 3 && CoveredFrom(ms[i], hs[i], 0, r, c);
        }
      }
      rest
  }

  /** Covered by a long match from `j` on means covered by `ms[j]` or by
      one after it. */
  lemma EliminateStep(b: Board, ms: seq<Match>, hs: seq<bool>, j: nat, b1: Board, b2: Board)
    requires Valid(b) && |hs| == |ms| && j < |ms| && ms[j].length >= 3
    ensures forall r, c :: SomeCovers(ms, hs, j, r, c) <==>
      CoveredFrom(ms[j], hs[j], 0, r, c) || SomeCovers(ms, hs, j + 1, r, c)
  {
    forall r, c | SomeCovers(ms, hs, j, r, c) && !CoveredFrom(ms[j], hs[j], 0, r, c)
      ensures SomeCovers(ms, hs, j + 1, r, c)
    {
      var i :| j <= i < |ms| && ms[i].length >= 3 && CoveredFrom(ms[i], hs[i], 0, r, c);
    }
  }

  /** Every entry `true`: the direction `eliminateMatches` gives each match. */
  function AllHorizontal(n: nat): (hs: seq<bool>)
    ensures |hs| == n && forall i :: 0 <= i < n ==> hs[i]
  {
    seq(n, _ => true)
  }

  /** `eliminateMatches` as written: `match.row` is always a number, so the
      test `match.row !== undefined` always holds and every match of three
      or more is cleared along its row, vertical ones included; the
      vertical branch is never taken. */
  function EliminateMatches(b: Board, ms: seq<Match>): (res: (Board, seq<Removed>))
    requires Valid(b)
    ensures Valid(res.0) && res.0.rows == b.rows && res.0.cols == b.cols
    ensures forall r, c :: (Get(res.0, r, c) ==
      if (exists i :: 0 <= i < |ms| && ms[i].length >= 3 && CoveredFrom(ms[i], true, 0, r, c)) then Empty else Get(b, r, c))
    ensures forall e :: e in res.1 ==> e.kind != Empty && e.kind == Get(b, e.row, e.col)
    ensures forall e :: e in res.1 ==>
      exists i :: 0 <= i < |ms| && ms[i].length >= 3 && CoveredFrom(ms[i], true, 0, e.row, e.col)
    ensures forall r, c ::
      (exists i :: 0 <= i < |ms| && ms[i].length >= 3 && CoveredFrom(ms[i], true, 0, r, c)) && Get(b, r, c) != Empty ==>
      Removed(r, c, Get(b, r, c)) in res.1
  {
    var hs := AllHorizontal(|ms|);
    var res := EliminateOriented(b, ms, hs, 0);
    assert forall r, c :: SomeCovers(ms, hs, 0, r, c) <==>
      (exists i :: 0 <= i < |ms| && ms[i].length >= 3 && CoveredFrom(ms[i], true, 0, r, c));
    res
  }

  /** `(r, c)` lies in a maximal run of three or more of its row or of its
      column. */
  ghost predicate InRun(b: Board, r: int, c: int)
    requires Valid(b)
  {
    (0 <= r < b.rows && exists s, len, k :: IsRun(Row(b, r), s, len, k) && s <= c < s + len) ||
    (0 <= c < b.cols && exists s, len, k :: IsRun(Column(b, c), s, len, k) && s <= r < s + len)
  }

  /** `nh` horizontal tags followed by `nv` vertical ones. */
  function Tags(nh: nat, nv: nat): (hs: seq<bool>)
    ensures |hs| == nh + nv && forall i :: 0 <= i < nh + nv ==> (hs[i] <==> i < nh)
  {
    seq(nh, _ => true) + seq(nv, _ => false)
  }

  /** A cell covered by a found run, read in the direction it was found in,
      lies in that run. */
  lemma OrientedSound(b: Board, r: int, c: int)
    requires Valid(b)
    requires SomeCovers(FindHorizontalMatches(b) + FindVerticalMatches(b),
      Tags(|FindHorizontalMatches(b)|, |FindVerticalMatches(b)|), 0, r, c)
    ensures InRun(b, r, c)
  {
    var h, v := FindHorizontalMatches(b), FindVerticalMatches(b);
    var ms, hs := h + v, Tags(|h|, |v|);
    var i :| 0 <= i < |ms| && ms[i].length >= 3 && CoveredFrom(ms[i], hs[i], 0, r, c);
    AppendAt(h, v, i);
    if i < |h| {
      assert h[i] in h;
      assert IsRun(Row(b, r), ms[i].col, ms[i].length, ms[i].kind);
    } else {
      assert v[i - |h|] in v;
      assert IsRun(Column(b, c), ms[i].row, ms[i].length, ms[i].kind);
    }
  }

  /** Indexing into a concatenation. */
  lemma AppendAt<T>(a: seq<T>, b: seq<T>, i: int)
    requires 0 <= i < |a| + |b|
    ensures (a + b)[i] == if i < |a| then a[i] else b[i - |a|]
  {
  }

  /** A cell in a run of its row or column is covered by that run, found
      in that direction. */
  lemma OrientedComplete(b: Board, r: int, c: int)
    requires Valid(b) && InRun(b, r, c)
    ensures SomeCovers(FindHorizontalMatches(b) + FindVerticalMatches(b),
      Tags(|FindHorizontalMatches(b)|, |FindVerticalMatches(b)|), 0, r, c)
  {
    if 0 <= r < b.rows && exists s, len, k :: IsRun(Row(b, r), s, len, k) && s <= c < s + len {
      var s, len, k :| IsRun(Row(b, r), s, len, k) && s <= c < s + len;
      RowRunCovered(b, r, c, s, len, k);
    } else {
      var s, len, k :| IsRun(Column(b, c), s, len, k) && s <= r < s + len;
      ColumnRunCovered(b, r, c, s, len, k);
    }
  }

  lemma RowRunCovered(b: Board, r: int, c: int, s: int, len: int, k: Gem)
    requires Valid(b) && 0 <= r < b.rows && IsRun(Row(b, r), s, len, k) && s <= c < s + len
    ensures SomeCovers(FindHorizontalMatches(b) + FindVerticalMatches(b),
      Tags(|FindHorizontalMatches(b)|, |FindVerticalMatches(b)|), 0, r, c)
  {
    var h, v := FindHorizontalMatches(b), FindVerticalMatches(b);
    assert Match(r, s, len, k) in h;
    var j :| 0 <= j < |h| && h[j] == Match(r, s, len, k);
    CoveredAt(h, v, j, r, c);
  }

  lemma ColumnRunCovered(b: Board, r: int, c: int, s: int, len: int, k: Gem)
    requires Valid(b) && 0 <= c < b.cols && IsRun(Column(b, c), s, len, k) && s <= r < s + len
    ensures SomeCovers(FindHorizontalMatches(b) + FindVerticalMatches(b),
      Tags(|FindHorizontalMatches(b)|, |FindVerticalMatches(b)|), 0, r, c)
  {
    var h, v := FindHorizontalMatches(b), FindVerticalMatches(b);
    assert Match(s, c, len, k) in v;
    var j :| 0 <= j < |v| && v[j] == Match(s, c, len, k);
    CoveredAt(h, v, |h| + j, r, c);
  }

  /** Entry `i` of the tagged concatenation, when it is long enough and
      covers the cell, witnesses `SomeCovers`. */
  lemma CoveredAt(h: seq<Match>, v: seq<Match>, i: int, r: int, c: int)
    requires 0 <= i < |h| + |v|
    requires i < |h| ==> h[i].length >= 3 && CoveredFrom(h[i], true, 0, r, c)
    requires i >= |h| ==> v[i - |h|].length >= 3 && CoveredFrom(v[i - |h|], false, 0, r, c)
    ensures SomeCovers(h + v, Tags(|h|, |v|), 0, r, c)
  {
    AppendAt(h, v, i);
    var hs := Tags(|h|, |v|);
    assert hs[i] == (i < |h|);
    assert (h + v)[i].length >= 3 && CoveredFrom((h + v)[i], hs[i], 0, r, c);
  }

  /** The runs with the direction each was found in: the horizontal ones
      (`true`), then the vertical ones.  With the direction part of the key
      no two runs share a key, so nothing is merged. */
  function FindAllMatchesOriented(b: Board): (res: (seq<Match>, seq<bool>))
    requires Valid(b)
    ensures |res.0| == |res.1|
    ensures forall i :: 0 <= i < |res.0| ==> res.0[i].length >= 3
    ensures forall r, c :: SomeCovers(res.0, res.1, 0, r, c) <==> InRun(b, r, c)
  {
    var h, v := FindHorizontalMatches(b), FindVerticalMatches(b);
    var ms := h + v;
    assert forall i :: 0 <= i < |ms| ==> ms[i] in h || ms[i] in v;
    forall r, c
      ensures SomeCovers(ms, Tags(|h|, |v|), 0, r, c) <==> InRun(b, r, c)
    {
      if SomeCovers(ms, Tags(|h|, |v|), 0, r, c) {
        OrientedSound(b, r, c);
      }
      if InRun(b, r, c) {
        OrientedComplete(b, r, c);
      }
    }
    (ms, Tags(|h|, |v|))
  }

  /** `eliminateMatches` with each match cleared along its own direction:
      exactly the cells lying in a run of three or more of their row or
      column become `EMPTY`, every other cell keeps its gem, and every gem
      removed is reported with its position. */
  function EliminateMatchesFixed(b: Board): (res: (Board, seq<Removed>))
    requires Valid(b)
    ensures Valid(res.0) && res.0.rows == b.rows && res.0.cols == b.cols
    ensures forall r, c :: Get(res.0, r, c) == if InRun(b, r, c) then Empty else Get(b, r, c)
    ensures forall e :: e in res.1 ==> InRun(b, e.row, e.col) && e.kind != Empty && e.kind == Get(b, e.row, e.col)
    ensures forall r, c :: InRun(b, r, c) && Get(b, r, c) != Empty ==> Removed(r, c, Get(b, r, c)) in res.1
  {
    var o := FindAllMatchesOriented(b);
    EliminateOriented(b, o.0, o.1, 0)
  }

  /** The 3 x 1 column of red gems. */
  function RedColumn(): Board {
    Board(3, 1, [[Red], [Red], [Red]])
  }

  /** Every match found on the red column starts at row 0. */
  lemma RedColumnMatchesAtTop()
    ensures Valid(RedColumn())
    ensures forall m :: m in FindAllMatches(RedColumn()) ==> m.row == 0
    ensures Match(0, 0, 3, Red) in FindVerticalMatches(RedColumn())
  {
    var b := RedColumn();
    var v := FindVerticalMatches(b);
    RedColumnNoRowMatch();
    RedColumnColumnsAtTop();
    forall m | m in FindAllMatches(b)
      ensures m.row == 0
    {
      assert Key(m) in KeysOf(v);
      var m' :| m' in v && Key(m') == Key(m);
    }
    RedColumnRun();
  }

  lemma RedColumnNoRowMatch()
    ensures KeysOf(FindHorizontalMatches(RedColumn())) == {}
  {
    var b := RedColumn();
    assert forall r :: 0 <= r < b.rows ==> |Row(b, r)| == 1;
  }

  lemma RedColumnColumnsAtTop()
    ensures forall m :: m in FindVerticalMatches(RedColumn()) ==> m.row == 0
  {
    var b := RedColumn();
    forall m | m in FindVerticalMatches(b)
      ensures m.row == 0
    {
      assert |Column(b, m.col)| == 3;
    }
  }

  lemma RedColumnRun()
    ensures Match(0, 0, 3, Red) in FindVerticalMatches(RedColumn())
  {
    var b := RedColumn();
    assert Column(b, 0) == [Red, Red, Red];
    assert IsRun(Column(b, 0), 0, 3, Red);
  }

  /** On a column of three red gems the run is found, but `eliminateMatches`
      clears row 0 from column 0 rightwards, off the board after the first
      cell: the red gems at rows 1 and 2 stay although they lie in the run. */
  lemma EliminateMissesColumnRun()
    ensures Valid(RedColumn()) && IsRun(Column(RedColumn(), 0), 0, 3, Red)
    ensures |FindAllMatches(RedColumn())| > 0
    ensures InRun(RedColumn(), 1, 0)
    ensures Get(EliminateMatches(RedColumn(), FindAllMatches(RedColumn())).0, 1, 0) == Red
  {
    var b := RedColumn();
    RedColumnMatchesAtTop();
    assert Column(b, 0) == [Red, Red, Red];
    assert IsRun(Column(b, 0), 0, 3, Red);
    var ms := FindAllMatches(b);
    assert Key(Match(0, 0, 3, Red)) in KeysOf(ms);
    forall i | 0 <= i < |ms|
      ensures !CoveredFrom(ms[i], true, 0, 1, 0)
    {
      assert ms[i] in ms;
    }
  }

  // ---------------------------------------------------------------- gravity

  /** The gems of a line in order, `EMPTY` cells dropped. */
  function Gems(s: seq<Gem>): (g: seq<Gem>)
    ensures |g| <= |s|
  {
    if |s| == 0 then [] else (if s[0] == Empty then [] else [s[0]]) + Gems(s[1..])
  }

  lemma {:induction false} GemsAppend(a: seq<Gem>, b: seq<Gem>)
    ensures Gems(a + b) == Gems(a) + Gems(b)
    decreases |a|
  {
    if |a| > 0 {
      assert (a + b)[0] == a[0];
      assert (a + b)[1..] == a[1..] + b;
      GemsAppend(a[1..], b);
      var x := if a[0] == Empty then [] else [a[0]];
      assert Gems(a + b) == x + Gems(a[1..] + b);
      assert x + (Gems(a[1..]) + Gems(b)) == (x + Gems(a[1..])) + Gems(b);
    } else {
      assert a + b == b;
    }
  }

  lemma {:induction false} GemsOfEmpties(s: seq<Gem>)
    requires forall j :: 0 <= j < |s| ==> s[j] == Empty
    ensures Gems(s) == []
    decreases |s|
  {
    if |s| > 0 {
      GemsOfEmpties(s[1..]);
    }
  }

  /** No `EMPTY` cell below a gem (index grows downwards). */
  predicate Settled(s: seq<Gem>) {
    forall i, j :: 0 <= i < j < |s| && s[i] != Empty ==> s[j] != Empty
  }

  /** A settled column is its `EMPTY` cells on top of its gems in order. */
  lemma {:induction false} SettledShape(s: seq<Gem>)
    requires Settled(s)
    ensures s == seq(|s| - |Gems(s)|, _ => Empty) + Gems(s)
    decreases |s|
  {
    if |s| > 0 {
      SettledShape(s[1..]);
      if s[0] != Empty {
        assert forall j :: 0 <= j < |s| ==> s[j] != Empty;
        AllGems(s);
      }
    }
  }

  lemma {:induction false} AllGems(s: seq<Gem>)
    requires forall j :: 0 <= j < |s| ==> s[j] != Empty
    ensures Gems(s) == s
    decreases |s|
  {
    if |s| > 0 {
      AllGems(s[1..]);
    }
  }

  /** The inner `while` of `applyGravity`: the nearest gem at or above `s`,
      or `-1`. */
  function Above(col: seq<Gem>, s: int): (k: int)
    requires -1 <= s < |col|
    ensures -1 <= k <= s
    ensures k >= 0 ==> col[k] != Empty
    ensures forall j :: k < j <= s ==> col[j] == Empty
    decreases s + 1
  {
    if s < 0 || col[s] != Empty then s else Above(col, s - 1)
  }

  /** The part below `row` is settled, and if it holds an `EMPTY` cell then
      everything from `row` up is `EMPTY`. */
  ghost predicate FallState(col: seq<Gem>, row: int)
    requires -1 <= row < |col|
  {
    Settled(col[row + 1..]) &&
    ((exists j :: row < j < |col| && col[j] == Empty) ==> forall j :: 0 <= j <= row ==> col[j] == Empty)
  }

  /** Moving the nearest gem above into an `EMPTY` cell keeps the gems in
      order. */
  lemma GemsMove(col: seq<Gem>, s: int, row: int)
    requires 0 <= s < row < |col| && col[s] != Empty
    requires forall j :: s < j <= row ==> col[j] == Empty
    ensures Gems(col[row := col[s]][s := Empty]) == Gems(col)
  {
    var col' := col[row := col[s]][s := Empty];
    var mid := col[s + 1..row];
    GemsOfEmpties(mid);
    assert col == col[..s] + [col[s]] + mid + [Empty] + col[row + 1..];
    assert col' == col[..s] + [Empty] + mid + [col[s]] + col[row + 1..];
    GemsAppend(col[..s] + [col[s]] + mid + [Empty], col[row + 1..]);
    GemsAppend(col[..s] + [col[s]] + mid, [Empty]);
    GemsAppend(col[..s] + [col[s]], mid);
    GemsAppend(col[..s], [col[s]]);
    GemsAppend(col[..s] + [Empty] + mid + [col[s]], col[row + 1..]);
    GemsAppend(col[..s] + [Empty] + mid, [col[s]]);
    GemsAppend(col[..s] + [Empty], mid);
    GemsAppend(col[..s], [Empty]);
  }

  /** The `for (row = rows - 1; row >= 0; row--)` loop of `applyGravity`
      over one column, from `row` up: an `EMPTY` cell takes the nearest gem
      above it, whose cell becomes `EMPTY`; each such move `(from, to)` is
      recorded. */
  function Fall(col: seq<Gem>, row: int): (res: (seq<Gem>, seq<(int, int)>))
    requires -1 <= row < |col| && FallState(col, row)
    ensures |res.0| == |col| && Settled(res.0) && Gems(res.0) == Gems(col)
    ensures forall mv :: mv in res.1 ==> 0 <= mv.0 < mv.1 <= row
    decreases row + 1
  {
    if row < 0 then
      assert col[0..] == col;
      (col, [])
    else if col[row] != Empty then
      assert col[row..] == [col[row]] + col[row + 1..];
      Fall(col, row - 1)
    else
      var s := Above(col, row - 1);
      if s < 0 then
        assert col[row..] == [col[row]] + col[row + 1..];
        Fall(col, row - 1)
      else
        var col' := col[row := col[s]][s := Empty];
        GemsMove(col, s, row);
        assert col'[row..] == [col[s]] + col[row + 1..];
        var res := Fall(col', row - 1);
        (res.0, [(s, row)] + res.1)
  }

  /** `col` written into column `c`. */
  function WriteColumn(b: Board, c: int, col: seq<Gem>): (b': Board)
    requires Valid(b) && 0 <= c < b.cols && |col| == b.rows
    ensures Valid(b') && b'.rows == b.rows && b'.cols == b.cols
    ensures forall r, c' :: Get(b', r, c') == if c' == c && 0 <= r < b.rows then col[r] else Get(b, r, c')
  {
    Board(b.rows, b.cols, seq(b.rows, r requires 0 <= r < b.rows => b.cells[r][c := col[r]]))
  }

  /** A gem moving down within a column. */
  datatype Move = Move(fromRow: int, fromCol: int, toRow: int, toCol: int)

  /** The outer loop of `applyGravity` from column `c` on.  Each column is
      handled on its own: the loop body reads and writes only that column. */
  function GravityFrom(b: Board, c: nat): (res: (Board, seq<Move>))
    requires Valid(b) && c <= b.cols
    ensures Valid(res.0) && res.0.rows == b.rows && res.0.cols == b.cols
    ensures forall c' :: 0 <= c' < c ==> Column(res.0, c') == Column(b, c')
    ensures forall c' :: c <= c' < b.cols ==>
      Settled(Column(res.0, c')) && Gems(Column(res.0, c')) == Gems(Column(b, c'))
    ensures forall mv :: mv in res.1 ==> mv.fromCol == mv.toCol && c <= mv.toCol < b.cols && 0 <= mv.fromRow < mv.toRow < b.rows
    decreases b.cols - c
  {
    if c == b.cols then (b, [])
    else
      var col := Column(b, c);
      assert col[b.rows..] == [];
      var f := Fall(col, b.rows - 1);
      var b1 := WriteColumn(b, c, f.0);
      assert Column(b1, c) == f.0;
      assert forall c' :: 0 <= c' < b.cols && c' != c ==> Column(b1, c') == Column(b, c');
      var rest := GravityFrom(b1, c + 1);
      var here := seq(|f.1|, i requires 0 <= i < |f.1| => Move(f.1[i].0, c, f.1[i].1, c));
      assert forall mv :: mv in here ==> mv.fromCol == mv.toCol == c && 0 <= mv.fromRow < mv.toRow < b.rows by {
        forall mv | mv in here
          ensures mv.fromCol == mv.toCol == c && 0 <= mv.fromRow < mv.toRow < b.rows
        {
          var i :| 0 <= i < |here| && here[i] == mv;
          assert f.1[i] in f.1;
        }
      }
      (rest.0, here + rest.1)
  }

  /** `applyGravity`: in every column the gems keep their top-to-bottom
      order and sit below all `EMPTY` cells; every move goes down within
      its column. */
  function ApplyGravity(b: Board): (res: (Board, seq<Move>))
    requires Valid(b)
    ensures Valid(res.0) && res.0.rows == b.rows && res.0.cols == b.cols
    ensures forall c :: 0 <= c < b.cols ==>
      Column(res.0, c) == seq(b.rows - |Gems(Column(b, c))|, _ => Empty) + Gems(Column(b, c))
    ensures forall mv :: mv in res.1 ==> mv.fromCol == mv.toCol && 0 <= mv.toCol < b.cols && 0 <= mv.fromRow < mv.toRow < b.rows
  {
    var res := GravityFrom(b, 0);
    forall c | 0 <= c < b.cols
      ensures Column(res.0, c) == seq(b.rows - |Gems(Column(b, c))|, _ => Empty) + Gems(Column(b, c))
    {
      SettledShape(Column(res.0, c));
    }
    res
  }
}
