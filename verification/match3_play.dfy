/** Scoring, hints and level set-up of the match-3 game,
    `project_ts/src/match3-game-algorithms.ts`: `ScoreCalculator`,
    `HintSystem`, `MatchDetector.hasPossibleMoves` and the deterministic
    parts of `LevelGenerator`. */
module Match3Play {
  import opened Wrappers
  import opened Match3

  // ----------------------------------------------------------------- scores

  /** The `baseScores` table: `EMPTY` is listed with 0. */
  function TableScore(g: Gem): int {
    match g
    case Bomb => 50
    case Line => 30
    case Color => 100
    case Empty => 0
    case _ => 10
  }

  /** `baseScores[gemType] || 10`: a table entry of 0 falls back to 10, so
      every gem, `EMPTY` included, has a positive base. */
  function BaseScore(g: Gem): (n: int)
    ensures n > 0
    ensures n == 10 <==> g != Bomb && g != Line && g != Color
  {
    if TableScore(g) != 0 then TableScore(g) else 10
  }

  /** `calculateBaseScore`: five points per gem of the match on top of the
      base, scaled by the chain and combo multipliers and rounded down. */
  function CalculateBaseScore(matchLength: int, g: Gem, chain: real, combo: real): (n: int)
    ensures n as real <= (BaseScore(g) + 5 * matchLength) as real * chain * combo < n as real + 1.0
  {
    ((BaseScore(g) + 5 * matchLength) as real * chain * combo).Floor
  }

  /** With the default multipliers of 1 the score is exact: base plus five
      per gem. */
  lemma DefaultMultipliers(matchLength: int, g: Gem)
    ensures CalculateBaseScore(matchLength, g, 1.0, 1.0) == BaseScore(g) + 5 * matchLength
  {
  }

  /** The `|| 10` fallback makes an `EMPTY` match score like a plain gem
      although the table lists it with 0. */
  lemma EmptyScoresAsPlain(matchLength: int, chain: real, combo: real)
    ensures CalculateBaseScore(matchLength, Empty, chain, combo) == CalculateBaseScore(matchLength, Red, chain, combo)
    ensures TableScore(Empty) == 0
  {
  }

  /** With non-negative multipliers a longer match never scores less. */
  lemma ScoreGrowsWithLength(len1: int, len2: int, g: Gem, chain: real, combo: real)
    requires len1 <= len2 && chain >= 0.0 && combo >= 0.0
    ensures CalculateBaseScore(len1, g, chain, combo) <= CalculateBaseScore(len2, g, chain, combo)
  {
    var k := chain * combo;
    assert k >= 0.0;
    var a1, a2 := (BaseScore(g) + 5 * len1) as real, (BaseScore(g) + 5 * len2) as real;
    assert a1 <= a2;
    assert a1 * k <= a2 * k;
    assert a1 * chain * combo == a1 * k && a2 * chain * combo == a2 * k;
  }

  /** The sum of the default-multiplier scores of the matches. */
  function ScoreSum(ms: seq<Match>): (n: int)
    ensures (forall i :: 0 <= i < |ms| ==> ms[i].length >= 3) ==> n >= 25 * |ms|
  {
    if ms == [] then 0 else CalculateBaseScore(ms[0].length, ms[0].kind, 1.0, 1.0) + ScoreSum(ms[1..])
  }

  /** The longest match length, 0 for none. */
  function Longest(ms: seq<Match>): (n: int)
    ensures n >= 0 && forall i :: 0 <= i < |ms| ==> ms[i].length <= n
    ensures n == 0 || exists i :: 0 <= i < |ms| && ms[i].length == n
  {
    if ms == [] then 0
    else
      var rest := Longest(ms[1..]);
      assert forall i :: 1 <= i < |ms| ==> ms[i] == ms[1..][i - 1];
      if ms[0].length > rest then ms[0].length else rest
  }

  /** `calculateMoveScore`: the summed base scores, doubled when some match
      is five or longer, else raised by half when some match is four or
      longer. */
  function CalculateMoveScore(ms: seq<Match>): (x: real)
    ensures (exists i :: 0 <= i < |ms| && ms[i].length >= 5) ==> x == 2.0 * ScoreSum(ms) as real
    ensures (forall i :: 0 <= i < |ms| ==> ms[i].length < 5) && (exists i :: 0 <= i < |ms| && ms[i].length >= 4) ==>
      x == 1.5 * ScoreSum(ms) as real
    ensures (forall i :: 0 <= i < |ms| ==> ms[i].length < 4) ==> x == ScoreSum(ms) as real
  {
    var total := ScoreSum(ms) as real;
    var maxLength := Longest(ms);
    if maxLength >= 5 then total * 2.0
    else if maxLength >= 4 then total * 1.5
    else total
  }

  /** A move's score is never below the plain sum of its matches and at
      most twice it. */
  lemma MoveScoreBounds(ms: seq<Match>)
    requires forall i :: 0 <= i < |ms| ==> ms[i].length >= 3
    ensures ScoreSum(ms) as real <= CalculateMoveScore(ms) <= 2.0 * ScoreSum(ms) as real
  {
    var n := Longest(ms);
    if n > 0 {
      var i :| 0 <= i < |ms| && ms[i].length == n;
    }
  }

  // ------------------------------------------------------------------ hints

  /** One entry of `findPossibleMoves`. */
  datatype Hint = Hint(fromRow: int, fromCol: int, toRow: int, toCol: int, score: real)

  /** The match finder the hint search runs after each trial swap:
      `findAllMatches` on a well-formed board.  The search below is written
      over any finder `find` and instantiated with this one. */
  function AllMatches(b: Board): seq<Match> {
    if Valid(b) then FindAllMatches(b) else []
  }

  /** Swapping `(r, c)` with its right neighbour produces a match. */
  predicate ImprovesRight(find: Board -> seq<Match>, b: Board, r: int, c: int)
    requires Valid(b)
  {
    InGrid(b, r, c) && InGrid(b, r, c + 1) && |find(Swap(b, r, c, r, c + 1))| > 0
  }

  /** Swapping `(r, c)` with its lower neighbour produces a match. */
  predicate ImprovesDown(find: Board -> seq<Match>, b: Board, r: int, c: int)
    requires Valid(b)
  {
    InGrid(b, r, c) && InGrid(b, r + 1, c) && |find(Swap(b, r, c, r + 1, c))| > 0
  }

  /** The hint for swapping the two cells, scored on the matches the swap
      makes. */
  function HintFor(find: Board -> seq<Match>, b: Board, r1: int, c1: int, r2: int, c2: int): Hint
    requires Valid(b)
  {
    Hint(r1, c1, r2, c2, CalculateMoveScore(find(Swap(b, r1, c1, r2, c2))))
  }

  function HintRight(find: Board -> seq<Match>, b: Board, r: int, c: int): Hint
    requires Valid(b)
  {
    HintFor(find, b, r, c, r, c + 1)
  }

  function HintDown(find: Board -> seq<Match>, b: Board, r: int, c: int): Hint
    requires Valid(b)
  {
    HintFor(find, b, r, c, r + 1, c)
  }

  /** One trial of the search: swap, look for matches, swap back.  The
      board comes back unchanged, and a hint is produced exactly when the
      swap makes a match. */
  function TrySwap(find: Board -> seq<Match>, b: Board, r1: int, c1: int, r2: int, c2: int): (res: (seq<Hint>, Board))
    requires Valid(b) && InGrid(b, r1, c1) && InGrid(b, r2, c2)
    ensures res.1 == b
    ensures |res.0| > 0 <==> |find(Swap(b, r1, c1, r2, c2))| > 0
    ensures forall h :: h in res.0 ==> h == HintFor(find, b, r1, c1, r2, c2)
  {
    var swapped := Swap(b, r1, c1, r2, c2);
    var ms := find(swapped);
    var back := Swap(swapped, r1, c1, r2, c2);
    SwapTwice(b, r1, c1, r2, c2);
    (if |ms| > 0 then [Hint(r1, c1, r2, c2, CalculateMoveScore(ms))] else [], back)
  }

  /** `(r', c')` is `(r, c)` or comes after it in row-major order. */
  predicate AtOrAfter(r: int, c: int, r': int, c': int) {
    r < r' || (r == r' && c <= c')
  }

  /** A hint the search may produce: a swap with the right or lower
      neighbour that makes a match, scored on those matches. */
  predicate IsHint(find: Board -> seq<Match>, b: Board, h: Hint)
    requires Valid(b)
  {
    (ImprovesRight(find, b, h.fromRow, h.fromCol) && h == HintRight(find, b, h.fromRow, h.fromCol)) ||
    (ImprovesDown(find, b, h.fromRow, h.fromCol) && h == HintDown(find, b, h.fromRow, h.fromCol))
  }

  /** The double loop of `findPossibleMoves` from cell `(r, c)` on, before
      the sort: for each cell the swap with its right neighbour, then with
      the one below.  It yields every improving swap of a cell at or after
      `(r, c)` and nothing else, and hands back the board unchanged. */
  function MovesFrom(find: Board -> seq<Match>, b: Board, r: nat, c: nat): (res: (seq<Hint>, Board))
    requires Valid(b) && r <= b.rows && c <= b.cols
    ensures res.1 == b
    ensures forall h :: h in res.0 ==> IsHint(find, b, h) && AtOrAfter(r, c, h.fromRow, h.fromCol)
    ensures forall r', c' :: AtOrAfter(r, c, r', c') && ImprovesRight(find, b, r', c') ==> HintRight(find, b, r', c') in res.0
    ensures forall r', c' :: AtOrAfter(r, c, r', c') && ImprovesDown(find, b, r', c') ==> HintDown(find, b, r', c') in res.0
    decreases b.rows - r, b.cols - c
  {
    if r == b.rows then ([], b)
    else if c == b.cols then MovesFrom(find, b, r + 1, 0)
    else
      var right := if c < b.cols - 1 then TrySwap(find, b, r, c, r, c + 1) else ([], b);
      var down := if r < b.rows - 1 then TrySwap(find, right.1, r, c, r + 1, c) else ([], right.1);
      var rest := MovesFrom(find, down.1, r, c + 1);
      MovesCell(find, b, r, c, right.0, down.0, rest.0);
      (right.0 + down.0 + rest.0, rest.1)
  }

  /** The trials of cell `(r, c)` followed by the hints of the cells after
      it are the hints of the cells from `(r, c)` on. */
  lemma MovesCell(find: Board -> seq<Match>, b: Board, r: nat, c: nat, rh: seq<Hint>, dh: seq<Hint>, rest: seq<Hint>)
    requires Valid(b) && r < b.rows && c < b.cols
    requires c < b.cols - 1 ==> (|rh| > 0 <==> |find(Swap(b, r, c, r, c + 1))| > 0)
    requires c >= b.cols - 1 ==> rh == []
    requires forall h :: h in rh ==> h == HintRight(find, b, r, c)
    requires r < b.rows - 1 ==> (|dh| > 0 <==> |find(Swap(b, r, c, r + 1, c))| > 0)
    requires r >= b.rows - 1 ==> dh == []
    requires forall h :: h in dh ==> h == HintDown(find, b, r, c)
    requires forall h :: h in rest ==> IsHint(find, b, h) && AtOrAfter(r, c + 1, h.fromRow, h.fromCol)
    requires forall r', c' :: AtOrAfter(r, c + 1, r', c') && ImprovesRight(find, b, r', c') ==> HintRight(find, b, r', c') in rest
    requires forall r', c' :: AtOrAfter(r, c + 1, r', c') && ImprovesDown(find, b, r', c') ==> HintDown(find, b, r', c') in rest
    ensures forall h :: h in rh + dh + rest ==> IsHint(find, b, h) && AtOrAfter(r, c, h.fromRow, h.fromCol)
    ensures forall r', c' :: AtOrAfter(r, c, r', c') && ImprovesRight(find, b, r', c') ==> HintRight(find, b, r', c') in rh + dh + rest
    ensures forall r', c' :: AtOrAfter(r, c, r', c') && ImprovesDown(find, b, r', c') ==> HintDown(find, b, r', c') in rh + dh + rest
  {
    if ImprovesRight(find, b, r, c) {
      assert rh[0] in rh;
    }
    if ImprovesDown(find, b, r, c) {
      assert dh[0] in dh;
    }
  }

  /** Some swap of a cell at or after `(r, c)` with its right or lower
      neighbour makes a match. */
  ghost predicate AnyImproving(find: Board -> seq<Match>, b: Board, r: int, c: int)
    requires Valid(b)
  {
    exists r', c' :: AtOrAfter(r, c, r', c') && (ImprovesRight(find, b, r', c') || ImprovesDown(find, b, r', c'))
  }

  /** `hasPossibleMoves` from cell `(r, c)` on: the same trials, stopping
      at the first swap that makes a match.  The board comes back
      unchanged on both exits. */
  function HasMovesFrom(find: Board -> seq<Match>, b: Board, r: nat, c: nat): (res: (bool, Board))
    requires Valid(b) && r <= b.rows && c <= b.cols
    ensures res.1 == b
    ensures res.0 <==> AnyImproving(find, b, r, c)
    decreases b.rows - r, b.cols - c
  {
    if r == b.rows then
      (false, b)
    else if c == b.cols then
      AnyImprovingRowEnd(find, b, r);
      HasMovesFrom(find, b, r + 1, 0)
    else
      var right := if c < b.cols - 1 then TrySwap(find, b, r, c, r, c + 1) else ([], b);
      if |right.0| > 0 then
        assert AtOrAfter(r, c, r, c) && ImprovesRight(find, b, r, c);
        (true, right.1)
      else
        var down := if r < b.rows - 1 then TrySwap(find, right.1, r, c, r + 1, c) else ([], right.1);
        if |down.0| > 0 then
          assert AtOrAfter(r, c, r, c) && ImprovesDown(find, b, r, c);
          (true, down.1)
        else
          AnyImprovingStep(find, b, r, c);
          HasMovesFrom(find, down.1, r, c + 1)
  }

  /** Past the last column of row `r` the search goes on at the next row. */
  lemma AnyImprovingRowEnd(find: Board -> seq<Match>, b: Board, r: int)
    requires Valid(b)
    ensures AnyImproving(find, b, r, b.cols) <==> AnyImproving(find, b, r + 1, 0)
  {
    if AnyImproving(find, b, r, b.cols) {
      var r', c' :| AtOrAfter(r, b.cols, r', c') && (ImprovesRight(find, b, r', c') || ImprovesDown(find, b, r', c'));
      assert AtOrAfter(r + 1, 0, r', c');
    }
    if AnyImproving(find, b, r + 1, 0) {
      var r', c' :| AtOrAfter(r + 1, 0, r', c') && (ImprovesRight(find, b, r', c') || ImprovesDown(find, b, r', c'));
      assert AtOrAfter(r, b.cols, r', c');
    }
  }

  /** Past cell `(r, c)`, when neither of its swaps makes a match. */
  lemma AnyImprovingStep(find: Board -> seq<Match>, b: Board, r: int, c: int)
    requires Valid(b)
    requires !ImprovesRight(find, b, r, c) && !ImprovesDown(find, b, r, c)
    ensures AnyImproving(find, b, r, c) <==> AnyImproving(find, b, r, c + 1)
  {
    if AnyImproving(find, b, r, c) {
      var r', c' :| AtOrAfter(r, c, r', c') && (ImprovesRight(find, b, r', c') || ImprovesDown(find, b, r', c'));
      assert AtOrAfter(r, c + 1, r', c');
    }
  }

  /** `hasPossibleMoves`. */
  function HasPossibleMoves(b: Board): (res: (bool, Board))
    requires Valid(b)
    ensures res.1 == b
    ensures res.0 <==> AnyImproving(AllMatches, b, 0, 0)
  {
    HasMovesFrom(AllMatches, b, 0, 0)
  }

  /** `hasPossibleMoves` answers yes exactly when `findPossibleMoves` has
      something to offer. */
  lemma HasMovesIffHints(b: Board)
    requires Valid(b)
    ensures HasPossibleMoves(b).0 <==> |MovesFrom(AllMatches, b, 0, 0).0| > 0
  {
    var hs := MovesFrom(AllMatches, b, 0, 0).0;
    if HasPossibleMoves(b).0 {
      var r', c' :| AtOrAfter(0, 0, r', c') && (ImprovesRight(AllMatches, b, r', c') || ImprovesDown(AllMatches, b, r', c'));
      if ImprovesRight(AllMatches, b, r', c') {
        assert HintRight(AllMatches, b, r', c') in hs;
      } else {
        assert HintDown(AllMatches, b, r', c') in hs;
      }
    }
    if |hs| > 0 {
      assert hs[0] in hs;
      assert AtOrAfter(0, 0, hs[0].fromRow, hs[0].fromCol);
    }
  }

  /** Scores never increase along the sequence. */
  predicate Descending(hs: seq<Hint>) {
    forall i, j :: 0 <= i < j < |hs| ==> hs[i].score >= hs[j].score
  }

  /** Inserts `h` into a descending sequence after every hint that scores at
      least as much, which keeps hints of equal score in arrival order. */
  function Insert(h: Hint, s: seq<Hint>): (r: seq<Hint>)
    requires Descending(s)
    ensures Descending(r) && multiset(r) == multiset(s) + multiset{h}
    ensures forall k :: 0 <= k < |r| ==> r[k] == h || r[k] in s
  {
    if s == [] then [h]
    else if s[0].score >= h.score then
      var rest := Insert(h, s[1..]);
      InsertCons(h, s, rest);
      [s[0]] + rest
    else
      [h] + s
  }

  /** The step of `Insert` that keeps the head: the head goes back in
      front of the insertion into the tail. */
  lemma InsertCons(h: Hint, s: seq<Hint>, rest: seq<Hint>)
    requires Descending(s) && s != [] && s[0].score >= h.score
    requires Descending(rest) && multiset(rest) == multiset(s[1..]) + multiset{h}
    requires forall k :: 0 <= k < |rest| ==> rest[k] == h || rest[k] in s[1..]
    ensures var r := [s[0]] + rest;
      Descending(r) && multiset(r) == multiset(s) + multiset{h} &&
      forall k :: 0 <= k < |r| ==> r[k] == h || r[k] in s
  {
    assert s == [s[0]] + s[1..];
    forall k | 0 <= k < |rest|
      ensures rest[k].score <= s[0].score
    {
      if rest[k] != h {
        var j :| 0 <= j < |s[1..]| && s[1..][j] == rest[k];
        assert s[j + 1] == rest[k];
      }
    }
    DescendingCons(s[0], rest);
    var r := [s[0]] + rest;
    forall k | 0 <= k < |r|
      ensures r[k] == h || r[k] in s
    {
      if k > 0 {
        assert r[k] == rest[k - 1];
      }
    }
  }

  /** A hint scoring at least every entry of a descending sequence can go
      in front of it. */
  lemma DescendingCons(x: Hint, s: seq<Hint>)
    requires Descending(s)
    requires forall k :: 0 <= k < |s| ==> s[k].score <= x.score
    ensures Descending([x] + s)
  {
    var t := [x] + s;
    forall i, j | 0 <= i < j < |t|
      ensures t[i].score >= t[j].score
    {
      assert t[j] == s[j - 1];
      if i > 0 {
        assert t[i] == s[i - 1];
      }
    }
  }

  /** `possibleMoves.sort((a, b) => b.score - a.score)`: a permutation with
      the highest scores first. */
  function SortByScore(s: seq<Hint>): (r: seq<Hint>)
    ensures Descending(r) && multiset(r) == multiset(s)
  {
    if s == [] then []
    else
      assert s == s[..|s| - 1] + [s[|s| - 1]];
      Insert(s[|s| - 1], SortByScore(s[..|s| - 1]))
  }

  /** A permutation has the same elements. */
  lemma SameElements(a: seq<Hint>, b: seq<Hint>)
    requires multiset(a) == multiset(b)
    ensures forall h :: h in a <==> h in b
  {
    forall h
      ensures h in a <==> h in b
    {
      assert h in a <==> h in multiset(a);
      assert h in b <==> h in multiset(b);
    }
  }

  /** `findPossibleMoves`: every improving swap of a cell with its right or
      lower neighbour, highest score first, and the board handed back
      unchanged. */
  function FindPossibleMoves(b: Board): (res: (seq<Hint>, Board))
    requires Valid(b)
    ensures res.1 == b
    ensures Descending(res.0)
    ensures multiset(res.0) == multiset(MovesFrom(AllMatches, b, 0, 0).0)
    ensures forall h :: h in res.0 ==> IsHint(AllMatches, b, h)
    ensures forall r, c :: ImprovesRight(AllMatches, b, r, c) ==> HintRight(AllMatches, b, r, c) in res.0
    ensures forall r, c :: ImprovesDown(AllMatches, b, r, c) ==> HintDown(AllMatches, b, r, c) in res.0
  {
    var found := MovesFrom(AllMatches, b, 0, 0);
    var sorted := SortByScore(found.0);
    SameElements(sorted, found.0);
    (sorted, found.1)
  }

  /** `getBestHint`: the first of the sorted hints, which scores at least
      as much as every other improving swap; none when no swap makes a
      match. */
  function GetBestHint(b: Board): (h: Option<Hint>)
    requires Valid(b)
    ensures h.None? <==> !HasPossibleMoves(b).0
    ensures h.Some? ==> IsHint(AllMatches, b, h.value)
    ensures h.Some? ==> forall r, c :: ImprovesRight(AllMatches, b, r, c) ==> HintRight(AllMatches, b, r, c).score <= h.value.score
    ensures h.Some? ==> forall r, c :: ImprovesDown(AllMatches, b, r, c) ==> HintDown(AllMatches, b, r, c).score <= h.value.score
  {
    var moves := FindPossibleMoves(b).0;
    MovesIffFound(b);
    if |moves| > 0 then
      HeadScoresMost(moves);
      assert moves[0] in moves;
      Some(moves[0])
    else None
  }

  /** The sorted hints are nonempty exactly when some swap makes a match. */
  lemma MovesIffFound(b: Board)
    requires Valid(b)
    ensures |FindPossibleMoves(b).0| > 0 <==> HasPossibleMoves(b).0
  {
    HasMovesIffHints(b);
    assert |multiset(FindPossibleMoves(b).0)| == |multiset(MovesFrom(AllMatches, b, 0, 0).0)|;
  }

  /** The head of a descending sequence scores at least as much as every
      entry. */
  lemma HeadScoresMost(s: seq<Hint>)
    requires Descending(s) && |s| > 0
    ensures forall h :: h in s ==> h.score <= s[0].score
  {
    forall h | h in s
      ensures h.score <= s[0].score
    {
      var j :| 0 <= j < |s| && s[j] == h;
      if j > 0 {
        assert s[0].score >= s[j].score;
      }
    }
  }

  /** `isStuck`: no swap makes a match, which is exactly when
      `findPossibleMoves` offers nothing. */
  function IsStuck(b: Board): (stuck: bool)
    requires Valid(b)
    ensures stuck <==> |FindPossibleMoves(b).0| == 0
    ensures stuck <==> !AnyImproving(AllMatches, b, 0, 0)
  {
    HasMovesIffHints(b);
    assert |FindPossibleMoves(b).0| == |MovesFrom(AllMatches, b, 0, 0).0| by {
      assert |multiset(FindPossibleMoves(b).0)| == |multiset(MovesFrom(AllMatches, b, 0, 0).0)|;
    }
    !HasPossibleMoves(b).0
  }

  // ------------------------------------------------------------ level set-up

  /** The nine-gem `pattern` of `fillGridSimple`, a 3 x 3 block read row by
      row. */
  const Pattern: seq<Gem> := [Red, Blue, Green, Blue, Green, Red, Green, Red, Blue]

  /** `fillGridSimple` as written: cell `(r, c)` takes the pattern entry at
      the row-major index `r * cols + c`, modulo 9. */
  function FillGridSimple(b: Board): (b': Board)
    requires Valid(b)
    ensures Valid(b') && b'.rows == b.rows && b'.cols == b.cols
    ensures forall r, c :: InGrid(b, r, c) ==> Get(b', r, c) == Pattern[(r * b.cols + c) % 9]
  {
    Board(b.rows, b.cols, seq(b.rows, r => seq(b.cols, c => Pattern[(r * b.cols + c) % 9])))
  }

  /** A run of three in a column is reported by `findAllMatches`. */
  lemma ColumnRunFound(b: Board, c: int, s: int, len: int, k: Gem)
    requires Valid(b) && 0 <= c < b.cols && IsRun(Column(b, c), s, len, k)
    ensures |FindAllMatches(b)| > 0
  {
    assert Match(s, c, len, k) in FindVerticalMatches(b);
    assert Key(Match(s, c, len, k)) in KeysOf(FindAllMatches(b));
  }

  /** With nine columns every row repeats the first, so column 0 of a
      three-row board is red, red, red: the fallback layout meant to have
      no match has one. */
  lemma FillSimpleNineColumns()
    ensures |FindAllMatches(FillGridSimple(NewBoard(3, 9)))| > 0
  {
    var b := FillGridSimple(NewBoard(3, 9));
    assert Get(b, 0, 0) == Pattern[0] && Get(b, 1, 0) == Pattern[0] && Get(b, 2, 0) == Pattern[0];
    assert Column(b, 0) == [Red, Red, Red];
    ColumnRunFound(b, 0, 0, 3, Red);
  }

  /** With seven columns column 0 reads pattern entries 0, 7 and 5, all
      red. */
  lemma FillSimpleSevenColumns()
    ensures |FindAllMatches(FillGridSimple(NewBoard(3, 7)))| > 0
  {
    var b := FillGridSimple(NewBoard(3, 7));
    assert Get(b, 0, 0) == Pattern[0] && Get(b, 1, 0) == Pattern[7] && Get(b, 2, 0) == Pattern[5];
    assert Column(b, 0) == [Red, Red, Red];
    ColumnRunFound(b, 0, 0, 3, Red);
  }

  /** With two columns column 0 reads pattern entries 0, 2, 4 and 6: red,
      then three greens. */
  lemma FillSimpleTwoColumns()
    ensures |FindAllMatches(FillGridSimple(NewBoard(4, 2)))| > 0
  {
    var b := FillGridSimple(NewBoard(4, 2));
    assert Get(b, 0, 0) == Pattern[0] && Get(b, 1, 0) == Pattern[2] && Get(b, 2, 0) == Pattern[4] && Get(b, 3, 0) == Pattern[6];
    assert Column(b, 0) == [Red, Green, Green, Green];
    ColumnRunFound(b, 0, 1, 3, Green);
  }

  /** The pattern laid as the 3 x 3 tile it is written as: cell `(r, c)`
      takes row `r % 3`, column `c % 3` of it. */
  function FillGridTiled(b: Board): (b': Board)
    requires Valid(b)
    ensures Valid(b') && b'.rows == b.rows && b'.cols == b.cols
    ensures forall r, c :: InGrid(b, r, c) ==> Get(b', r, c) == Pattern[3 * (r % 3) + c % 3]
    ensures FindAllMatches(b') == []
  {
    var b' := Board(b.rows, b.cols, seq(b.rows, r => seq(b.cols, c => Pattern[3 * (r % 3) + c % 3])));
    TiledNoMatches(b');
    b'
  }

  /** Neighbours in the tile differ, across a row and down a column,
      wrapping round. */
  lemma TileNeighboursDiffer(r: int, c: int)
    ensures Pattern[3 * (r % 3) + c % 3] != Pattern[3 * (r % 3) + (c + 1) % 3]
    ensures Pattern[3 * (r % 3) + c % 3] != Pattern[3 * ((r + 1) % 3) + c % 3]
  {
    var i, j := r % 3, c % 3;
    assert (c + 1) % 3 == (j + 1) % 3 && (r + 1) % 3 == (i + 1) % 3;
  }

  /** A board laid out as the tile has no two equal neighbours, so no run
      and no match. */
  lemma TiledNoMatches(b: Board)
    requires Valid(b)
    requires forall r, c :: InGrid(b, r, c) ==> Get(b, r, c) == Pattern[3 * (r % 3) + c % 3]
    ensures FindAllMatches(b) == []
  {
    forall r | 0 <= r < b.rows
      ensures forall s, len, k :: !IsRun(Row(b, r), s, len, k)
    {
      var line := Row(b, r);
      forall j | 0 <= j < |line| - 1
        ensures line[j] != line[j + 1]
      {
        TileNeighboursDiffer(r, j);
      }
      NoRunsWithoutPairs(line);
    }
    forall c | 0 <= c < b.cols
      ensures forall s, len, k :: !IsRun(Column(b, c), s, len, k)
    {
      var line := Column(b, c);
      forall j | 0 <= j < |line| - 1
        ensures line[j] != line[j + 1]
      {
        TileNeighboursDiffer(j, c);
      }
      NoRunsWithoutPairs(line);
    }
    NoMatchesWithoutRuns(b);
  }

  /** The `difficulty` argument. */
  datatype Difficulty = Easy | Medium | Hard

  datatype Objective = Objective(kind: string, count: int)

  /** The level goals `generateObjectives` returns. */
  datatype Objectives = Objectives(targetScore: int, movesLimit: int, timeLimit: int, special: seq<Objective>)

  /** `baseConfigs`: target score, move limit and time limit per
      difficulty. */
  function BaseConfig(d: Difficulty): (int, int, int) {
    match d
    case Easy => (10000, 30, 180)
    case Medium => (25000, 25, 150)
    case Hard => (50000, 20, 120)
  }

  /** `generateObjectives`: the base configuration with three special
      goals, a red count of one per thousand target points and bomb and
      chain counts of one per five and per ten moves, each rounded down. */
  function GenerateObjectives(d: Difficulty): (o: Objectives)
    ensures (o.targetScore, o.movesLimit, o.timeLimit) == BaseConfig(d)
    ensures |o.special| == 3
    ensures o.special[0].kind == "eliminate_red" && o.special[1].kind == "create_bomb" && o.special[2].kind == "chain_reaction"
    ensures 0 <= o.special[0].count * 1000 <= o.targetScore < (o.special[0].count + 1) * 1000
    ensures 0 <= o.special[1].count * 5 <= o.movesLimit < (o.special[1].count + 1) * 5
    ensures 0 <= o.special[2].count * 10 <= o.movesLimit < (o.special[2].count + 1) * 10
  {
    var (target, moves, time) := BaseConfig(d);
    Objectives(target, moves, time, [
      Objective("eliminate_red", target / 1000),
      Objective("create_bomb", moves / 5),
      Objective("chain_reaction", moves / 10)])
  }

  function Rank(d: Difficulty): int {
    match d
    case Easy => 0
    case Medium => 1
    case Hard => 2
  }

  /** A harder level asks for more points in fewer moves and less time, and
      more red gems. */
  lemma HarderIsStricter(d1: Difficulty, d2: Difficulty)
    requires Rank(d1) < Rank(d2)
    ensures GenerateObjectives(d1).targetScore < GenerateObjectives(d2).targetScore
    ensures GenerateObjectives(d1).movesLimit > GenerateObjectives(d2).movesLimit
    ensures GenerateObjectives(d1).timeLimit > GenerateObjectives(d2).timeLimit
    ensures GenerateObjectives(d1).special[0].count < GenerateObjectives(d2).special[0].count
  {
  }
}
