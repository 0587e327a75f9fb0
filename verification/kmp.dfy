/** Knuth–Morris–Pratt Text matching, `project_ts/src/kmp.ts`.

    The failure function is specified by its meaning (the longest proper
    border of each prefix of the pattern) and `search` by the set of places
    where the pattern occurs; the proofs follow the two loops of the source,
    which share the fall-back step modelled by `Fallback`. */
module Kmp {

  /** A UTF-16 code unit: JavaScript strings are indexed, measured and
      compared by these, so a character outside the Basic Multilingual
      Plane takes two positions. */
  newtype CodeUnit = x: int | 0 <= x < 0x1_0000

  /** A JavaScript Text. */
  type Text = seq<CodeUnit>

  /** The prefix of `p` of length `k` is a suffix of `s`. */
  ghost predicate Suffix(p: Text, s: Text, k: int) {
    0 <= k <= |p| && k <= |s| && p[..k] == s[|s| - k..]
  }

  /** `v` is the length of the longest proper border of `q`, a prefix of
      `p`: the longest prefix of `q`, shorter than `q`, that is also its suffix. */
  ghost predicate LongestBorder(p: Text, q: Text, v: int) {
    0 <= v < |q| && Suffix(p, q, v) && forall k :: v < k < |q| ==> !Suffix(p, q, k)
  }

  /** `v` is the failure value of position `i`: the longest proper border
      of `p[..i + 1]`. */
  ghost predicate IsFailure(p: Text, i: int, v: int) {
    0 <= i < |p| && LongestBorder(p, p[..i + 1], v)
  }

  /** The first `n` entries of `f` are the failure function of `p`. */
  ghost predicate FailureUpTo(p: Text, f: seq<int>, n: int) {
    0 <= n <= |f| && forall i :: 0 <= i < n ==> IsFailure(p, i, f[i])
  }

  lemma SuffixExtend(p: Text, s: Text, c: CodeUnit, k: int)
    requires 1 <= k
    ensures Suffix(p, s + [c], k) <==> Suffix(p, s, k - 1) && k <= |p| && p[k - 1] == c
  {
    var u := s + [c];
    if k <= |p| && k <= |u| {
      assert u[|u| - k..] == s[|s| - (k - 1)..] + [c];
      assert p[..k] == p[..k - 1] + [p[k - 1]];
      if p[..k] == u[|u| - k..] {
        assert p[..k - 1] == p[..k][..k - 1];
        assert s[|s| - (k - 1)..] == u[|u| - k..][..k - 1];
      }
    }
  }

  /** A shorter prefix that ends `s` also ends the longer prefix that ends `s`. */
  lemma SuffixOfSuffix(p: Text, s: Text, j: int, b: int)
    requires Suffix(p, s, j) && 0 <= b <= j
    ensures Suffix(p, s, b) ==> Suffix(p, p[..j], b)
  {
    assert p[..j][j - b..] == s[|s| - j..][j - b..];
  }

  lemma SuffixTrans(p: Text, s: Text, j: int, v: int)
    requires Suffix(p, s, j) && Suffix(p, p[..j], v)
    ensures Suffix(p, s, v)
  {
    assert s[|s| - v..] == s[|s| - j..][j - v..];
  }

  /** The inner `while (j > 0 && c !== pattern[j]) j = failure[j - 1]` of
      both loops.  `s` is the text read so far and `c` the next code unit;
      `lim` bounds the prefix lengths that count as candidates. */
  function Fallback(p: Text, f: seq<int>, s: Text, c: CodeUnit, j: int, ghost lim: int): (r: int)
    requires FailureUpTo(p, f, j)
    requires 0 <= j < lim <= |p| && Suffix(p, s, j)
    requires forall k :: j < k < lim && Suffix(p, s, k) ==> p[k] != c
    ensures 0 <= r <= j && Suffix(p, s, r) && (r == 0 || p[r] == c)
    ensures forall k :: r < k < lim && Suffix(p, s, k) ==> p[k] != c
    decreases j
  {
    if j > 0 && c != p[j] then
      FallbackStep(p, f, s, c, j, lim);
      Fallback(p, f, s, c, f[j - 1], lim)
    else j
  }

  lemma FallbackStep(p: Text, f: seq<int>, s: Text, c: CodeUnit, j: int, lim: int)
    requires FailureUpTo(p, f, j) && 0 < j
    requires j < lim <= |p| && Suffix(p, s, j) && c != p[j]
    requires forall k :: j < k < lim && Suffix(p, s, k) ==> p[k] != c
    ensures 0 <= f[j - 1] < j && FailureUpTo(p, f, f[j - 1]) && Suffix(p, s, f[j - 1])
    ensures forall k :: f[j - 1] < k < lim && Suffix(p, s, k) ==> p[k] != c
  {
    var v := f[j - 1];
    assert IsFailure(p, j - 1, v);
    assert p[..j - 1 + 1] == p[..j];
    SuffixTrans(p, s, j, v);
    forall k | v < k < j
      ensures !Suffix(p, s, k)
    {
      SuffixOfSuffix(p, s, j, k);
    }
  }

  /** After the fall-back, `if (c === pattern[j]) j++` leaves the longest
      candidate prefix that ends `s + [c]`. */
  lemma Extend(p: Text, s: Text, c: CodeUnit, r: int, lim: int)
    requires 0 <= r < lim <= |p| && Suffix(p, s, r) && (r == 0 || p[r] == c)
    requires forall k :: r < k < lim && Suffix(p, s, k) ==> p[k] != c
    ensures var nj := if p[r] == c then r + 1 else 0;
      Suffix(p, s + [c], nj) && forall k :: nj < k <= lim ==> !Suffix(p, s + [c], k)
  {
    var nj := if p[r] == c then r + 1 else 0;
    if p[r] == c {
      SuffixExtend(p, s, c, r + 1);
    } else {
      assert p[..0] == (s + [c])[|s + [c]|..];
    }
    forall k | nj < k <= lim
      ensures !Suffix(p, s + [c], k)
    {
      SuffixExtend(p, s, c, k);
    }
  }

  /** One step of either loop: fall back, then `if (c === pattern[j]) j++`.
      The result is the longest candidate prefix that ends `s + [c]`. */
  function Advance(p: Text, f: seq<int>, s: Text, c: CodeUnit, j: int, ghost lim: int): (nj: int)
    requires FailureUpTo(p, f, j)
    requires 0 <= j < lim <= |p| && Suffix(p, s, j)
    requires forall k :: j < k < lim ==> !Suffix(p, s, k)
    ensures 0 <= nj <= j + 1 && Suffix(p, s + [c], nj)
    ensures forall k :: nj < k <= lim ==> !Suffix(p, s + [c], k)
  {
    var r := Fallback(p, f, s, c, j, lim);
    Extend(p, s, c, r, lim);
    if p[r] == c then r + 1 else 0
  }

  /** The `for (let i = 1; i < m; i++)` loop of `buildFailureFunction`, with
      `f` the entries computed so far. */
  function BuildFrom(p: Text, f: seq<int>, i: int, j: int): (r: seq<int>)
    requires 1 <= i <= |p| && |f| == i && FailureUpTo(p, f, i)
    requires 0 <= j < i && Suffix(p, p[..i], j)
    requires forall k :: j < k < i ==> !Suffix(p, p[..i], k)
    ensures |r| == |p| && FailureUpTo(p, r, |p|)
    decreases |p| - i
  {
    if i == |p| then f
    else
      var nj := Advance(p, f, p[..i], p[i], j, i);
      BuildStep(p, f, i, nj, p[..i + 1]);
      BuildFrom(p, f + [nj], i + 1, nj)
  }

  lemma BuildStep(p: Text, f: seq<int>, i: int, nj: int, q: Text)
    requires 1 <= i < |p| && |f| == i && FailureUpTo(p, f, i) && 0 <= nj <= i
    requires q == p[..i + 1] && Suffix(p, p[..i] + [p[i]], nj)
    requires forall k :: nj < k <= i ==> !Suffix(p, p[..i] + [p[i]], k)
    ensures FailureUpTo(p, f + [nj], i + 1)
    ensures Suffix(p, q, nj) && forall k :: nj < k < |q| ==> !Suffix(p, q, k)
  {
    assert p[..i] + [p[i]] == q;
    assert IsFailure(p, i, nj);
  }

  /** `buildFailureFunction`: entry `i` is the longest proper border of
      `pattern[0..i]`; in particular entry 0 is 0 and entry `i` is at most `i`. */
  function BuildFailure(p: Text): (f: seq<int>)
    ensures |f| == |p|
    ensures forall i :: 0 <= i < |p| ==> IsFailure(p, i, f[i])
  {
    if |p| == 0 then []
    else
      assert p[..0] == p[..1][1..];
      BuildFrom(p, [0], 1, 0)
  }

  /** `pattern` occurs in `text` at `q`. */
  ghost predicate OccursAt(t: Text, p: Text, q: int) {
    0 <= q && q + |p| <= |t| && t[q..q + |p|] == p
  }

  /** The start positions `q` with `q + |p| <= e` where `p` occurs in `t`,
      in increasing order. */
  function MatchesUpTo(t: Text, p: Text, e: int): (r: seq<int>)
    requires |p| >= 1 && 0 <= e <= |t|
    ensures forall x :: x in r <==> OccursAt(t, p, x) && x + |p| <= e
    ensures forall a, b :: 0 <= a < b < |r| ==> r[a] < r[b]
    ensures |r| <= if e < |p| then 0 else e - |p| + 1
    decreases e
  {
    if e < |p| then []
    else
      var prev := MatchesUpTo(t, p, e - 1);
      assert forall a :: 0 <= a < |prev| ==> prev[a] < e - |p| by {
        forall a | 0 <= a < |prev|
          ensures prev[a] < e - |p|
        {
          assert prev[a] in prev;
        }
      }
      prev + (if t[e - |p|..e] == p then [e - |p|] else [])
  }

  /** Every position where the pattern occurs in the text, in increasing order. */
  function Occurrences(t: Text, p: Text): (r: seq<int>)
    requires |p| >= 1
    ensures forall x :: x in r <==> OccursAt(t, p, x)
    ensures forall a, b :: 0 <= a < b < |r| ==> r[a] < r[b]
  {
    MatchesUpTo(t, p, |t|)
  }

  /** Reading one more code unit adds the match ending there, if any. */
  lemma MatchesStep(t: Text, p: Text, s: Text, i: int, nj: int)
    requires |p| >= 1 && 0 <= i < |t| && s == t[..i + 1] && Suffix(p, s, nj)
    requires forall k :: nj < k <= |p| ==> !Suffix(p, s, k)
    ensures MatchesUpTo(t, p, i + 1) == MatchesUpTo(t, p, i) + (if nj == |p| then [i + 1 - |p|] else [])
  {
    var m := |p|;
    assert p[..m] == p;
    if i + 1 >= m {
      assert s[i + 1 - m..] == t[i + 1 - m..i + 1];
      if t[i + 1 - m..i + 1] == p {
        assert Suffix(p, s, m);
      }
    }
  }

  /** A full match resets `j` to `failure[m - 1]`, the longest prefix that
      can still start an overlapping match. */
  lemma MatchRestart(p: Text, f: seq<int>, s: Text)
    requires |p| >= 1 && FailureUpTo(p, f, |p|) && Suffix(p, s, |p|)
    ensures 0 <= f[|p| - 1] < |p| && Suffix(p, s, f[|p| - 1])
    ensures forall k :: f[|p| - 1] < k < |p| ==> !Suffix(p, s, k)
  {
    var m := |p|;
    var v := f[m - 1];
    assert IsFailure(p, m - 1, v);
    assert p[..m - 1 + 1] == p[..m];
    SuffixTrans(p, s, m, v);
    forall k | v < k < m
      ensures !Suffix(p, s, k)
    {
      SuffixOfSuffix(p, s, m, k);
    }
  }

  /** The state of the text loop of `search` before reading `t[i]`: `j`
      is the longest prefix shorter than the pattern that ends `t[..i]`, and
      `acc` holds every match that ends before `i`. */
  ghost predicate SearchInv(t: Text, p: Text, f: seq<int>, i: int, j: int, acc: seq<int>) {
    |p| >= 1 && |f| == |p| && FailureUpTo(p, f, |p|)
    && 0 <= i <= |t| && 0 <= j < |p| && Suffix(p, t[..i], j)
    && (forall k :: j < k < |p| ==> !Suffix(p, t[..i], k))
    && acc == MatchesUpTo(t, p, i)
  }

  lemma SearchStep(t: Text, p: Text, f: seq<int>, i: int, j: int, acc: seq<int>, nj: int)
    requires SearchInv(t, p, f, i, j, acc) && i < |t| && 0 <= nj
    requires Suffix(p, t[..i] + [t[i]], nj)
    requires forall k :: nj < k <= |p| ==> !Suffix(p, t[..i] + [t[i]], k)
    ensures nj == |p| ==> SearchInv(t, p, f, i + 1, f[|p| - 1], acc + [i + 1 - |p|])
    ensures nj != |p| ==> SearchInv(t, p, f, i + 1, nj, acc)
  {
    var s := t[..i + 1];
    assert t[..i] + [t[i]] == s;
    MatchesStep(t, p, s, i, nj);
    if nj == |p| {
      MatchRestart(p, f, s);
    }
  }

  /** One iteration of the text loop of `search`: read `t[i]`, and on a
      full match record its start and fall back to `failure[m - 1]`.  The
      loop state moves on to `i + 1`. */
  function Next(t: Text, p: Text, f: seq<int>, i: int, j: int, acc: seq<int>): (r: (int, seq<int>))
    requires SearchInv(t, p, f, i, j, acc) && i < |t|
    ensures SearchInv(t, p, f, i + 1, r.0, r.1)
  {
    var m := |p|;
    var nj := Advance(p, f, t[..i], t[i], j, m);
    SearchStep(t, p, f, i, j, acc, nj);
    if nj == m then (f[m - 1], acc + [i + 1 - m]) else (nj, acc)
  }

  /** The text loop of `search`. */
  function SearchFrom(t: Text, p: Text, f: seq<int>, i: int, j: int, acc: seq<int>): (r: seq<int>)
    requires SearchInv(t, p, f, i, j, acc)
    ensures r == Occurrences(t, p)
    decreases |t| - i
  {
    if i == |t| then acc
    else
      var next := Next(t, p, f, i, j, acc);
      SearchFrom(t, p, f, i + 1, next.0, next.1)
  }

  /** `KMP.search`: no matches for an empty pattern or text; otherwise every
      occurrence, overlapping ones included, in increasing order. */
  function Search(t: Text, p: Text): (r: seq<int>)
    ensures |p| == 0 ==> r == []
    ensures |p| >= 1 ==> r == Occurrences(t, p)
  {
    if |p| == 0 then []
    else if |t| == 0 then []
    else
      assert p[..0] == t[..0][0..];
      SearchFrom(t, p, BuildFailure(p), 0, 0, [])
  }

  /** `KMP.indexOf`: the first occurrence, or -1 when there is none or the
      pattern is empty. */
  function IndexOf(t: Text, p: Text): (r: int)
    ensures |p| == 0 ==> r == -1
    ensures |p| >= 1 ==> (r == -1 <==> forall q :: !OccursAt(t, p, q))
    ensures r != -1 ==> OccursAt(t, p, r) && forall q :: 0 <= q < r ==> !OccursAt(t, p, q)
  {
    var ms := Search(t, p);
    if |ms| > 0 then
      assert ms[0] in ms;
      assert forall q :: 0 <= q < ms[0] ==> !OccursAt(t, p, q) by {
        forall q | 0 <= q < ms[0]
          ensures !OccursAt(t, p, q)
        {
          HeadIsLeast(ms, q);
        }
      }
      ms[0]
    else
      -1
  }

  lemma HeadIsLeast(s: seq<int>, x: int)
    requires |s| > 0 && forall a, b :: 0 <= a < b < |s| ==> s[a] < s[b]
    ensures x in s ==> s[0] <= x
  {
    if x in s {
      var k :| 0 <= k < |s| && s[k] == x;
      if k > 0 {
        assert s[0] < s[k];
      }
    }
  }

  /** `KMP.contains`. */
  function Contains(t: Text, p: Text): (b: bool)
    ensures b <==> |p| >= 1 && exists q :: OccursAt(t, p, q)
  {
    IndexOf(t, p) != -1
  }

  /** `KMP.count`: the number of occurrences, at most one per start position. */
  function Count(t: Text, p: Text): (n: int)
    ensures |p| == 0 ==> n == 0
    ensures |p| >= 1 ==> n == |Occurrences(t, p)|
    ensures |p| >= 1 ==> n <= if |t| < |p| then 0 else |t| - |p| + 1
  {
    |Search(t, p)|
  }

  /** Overlapping matches are all reported: "AAA" occurs in "AAAAAAA" at 0 to 4. */
  lemma OverlappingMatches()
    ensures Search([65, 65, 65, 65, 65, 65, 65], [65, 65, 65]) == [0, 1, 2, 3, 4]
  {
    var t: Text, p: Text := [65, 65, 65, 65, 65, 65, 65], [65, 65, 65];
    RunOfA(t, p, 7);
    assert seq(5, i => i) == [0, 1, 2, 3, 4];
  }

  /** In a text of `A`s, "AAA" ends at every position from 3 on. */
  lemma {:induction false} RunOfA(t: Text, p: Text, e: int)
    requires p == [65, 65, 65] && 3 <= e <= |t|
    requires forall i :: 0 <= i < |t| ==> t[i] == 65
    ensures MatchesUpTo(t, p, e) == seq(e - 2, i => i)
  {
    assert t[e - 3..e] == p;
    if e == 3 {
      assert MatchesUpTo(t, p, 2) == [];
      MatchAt(t, p, 3, []);
    } else {
      RunOfA(t, p, e - 1);
      MatchAt(t, p, e, seq(e - 3, i => i));
      assert seq(e - 3, i => i) + [e - 3] == seq(e - 2, i => i);
    }
  }

  lemma MatchAt(t: Text, p: Text, e: int, prev: seq<int>)
    requires |p| >= 1 && |p| <= e <= |t| && MatchesUpTo(t, p, e - 1) == prev
    requires t[e - |p|..e] == p
    ensures MatchesUpTo(t, p, e) == prev + [e - |p|]
  {
  }

  /** Positions count code units: in "😀a" (the emoji is the surrogate pair
      D83D DE00) "a" is found at 2, and "a" is not found inside "😀". */
  lemma AstralPositions()
    ensures Search([0xD83D, 0xDE00, 0x61], [0x61]) == [2]
    ensures IndexOf([0xD83D, 0xDE00], [0x61]) == -1
  {
    var t: Text, p: Text := [0xD83D, 0xDE00, 0x61], [0x61];
    assert t[0..1][0] == 0xD83D && t[1..2][0] == 0xDE00;
    assert MatchesUpTo(t, p, 1) == [];
    assert MatchesUpTo(t, p, 2) == [];
    MatchAt(t, p, 3, []);
    var u: Text := [0xD83D, 0xDE00];
    assert u[0..1][0] == 0xD83D && u[1..2][0] == 0xDE00;
    assert MatchesUpTo(u, p, 1) == [];
    assert MatchesUpTo(u, p, 2) == [];
  }
}
