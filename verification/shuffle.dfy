/** Shuffles, `project_ts/src/shuffle-algorithms.ts`.  Every call of
    `Math.random()` is an element of an explicit `draws` sequence of reals in
    [0, 1), consumed in the order the source calls it. */
module Shuffle {
  import opened Wrappers
  import opened Sequences

  /** Every draw is a value `Math.random()` can return. */
  ghost predicate Unit(draws: seq<real>) {
    forall k :: 0 <= k < |draws| ==> 0.0 <= draws[k] < 1.0
  }

  /** `Math.floor(Math.random() * m)`: an index in `[0, m)`. */
  function Scale(r: real, m: int): (j: int)
    requires 0.0 <= r < 1.0 && m >= 1
    ensures 0 <= j < m
  {
    assert r * m as real < m as real by {
      assert r * m as real <= r * m as real + (1.0 - r) * m as real;
      assert r * m as real + (1.0 - r) * m as real == m as real;
      assert (1.0 - r) * m as real > 0.0;
    }
    (r * m as real).Floor
  }

  // ------------------------------------------------------------ Fisher-Yates

  /** The loop of `fisherYatesShuffle` from index `i` down to 1; positions
      above `i` are final. */
  function FisherYatesFrom<T>(s: seq<T>, i: int, draws: seq<real>): (r: seq<T>)
    requires -1 <= i < |s| && Unit(draws) && |draws| >= i
    ensures |r| == |s| && multiset(r) == multiset(s)
    ensures forall k :: i < k < |s| ==> r[k] == s[k]
    decreases i
  {
    if i <= 0 then s
    else
      var j := Scale(draws[0], i + 1);
      FisherYatesFrom(Swap(s, i, j), i - 1, draws[1..])
  }

  /** The number of draws `fisherYatesShuffle` makes on `n` elements. */
  function FisherYatesDraws(n: int): nat {
    if n <= 1 then 0 else n - 1
  }

  /** `fisherYatesShuffle`: a permutation of the argument (which, being a
      value, is left intact). */
  function FisherYates<T>(a: seq<T>, draws: seq<real>): (r: seq<T>)
    requires Unit(draws) && |draws| == FisherYatesDraws(|a|)
    ensures |r| == |a| && multiset(r) == multiset(a)
  {
    FisherYatesFrom(a, |a| - 1, draws)
  }

  /** The draw used at index `i` of the loop picks a partner in `[0, i]`. */
  lemma DrawInRange(a: seq<int>, draws: seq<real>, k: int)
    requires Unit(draws) && |draws| == FisherYatesDraws(|a|) && 0 <= k < |draws|
    ensures var i := |a| - 1 - k; 0 <= Scale(draws[k], i + 1) <= i
  {
  }

  /** The last position receives the element the first draw picks; the rest
      is a shuffle of what remains. */
  lemma {:induction false} FisherYatesFirstStep<T>(a: seq<T>, draws: seq<real>)
    requires Unit(draws) && |draws| == FisherYatesDraws(|a|) && |a| >= 2
    ensures FisherYates(a, draws)[|a| - 1] == a[Scale(draws[0], |a|)]
  {
    var j := Scale(draws[0], |a|);
    var s := Swap(a, |a| - 1, j);
    assert FisherYates(a, draws) == FisherYatesFrom(s, |a| - 2, draws[1..]);
  }

  /** `fisherYatesShuffleInPlace`: the same swaps applied to the argument;
      the array it returns holds what `fisherYatesShuffle` returns. */
  function FisherYatesInPlace<T>(a: seq<T>, draws: seq<real>): (r: seq<T>)
    requires Unit(draws) && |draws| == FisherYatesDraws(|a|)
    ensures r == FisherYates(a, draws)
    ensures multiset(r) == multiset(a)
  {
    FisherYatesFrom(a, |a| - 1, draws)
  }

  /** `knuthShuffle` is `fisherYatesShuffle`. */
  function KnuthShuffle<T>(a: seq<T>, draws: seq<real>): (r: seq<T>)
    requires Unit(draws) && |draws| == FisherYatesDraws(|a|)
    ensures r == FisherYates(a, draws)
  {
    FisherYates(a, draws)
  }

  // ------------------------------------------------------------ naiveShuffle

  /** The loop of `naiveShuffle`: moves a drawn element of `temp` to the end
      of `result` until `temp` is empty. */
  function NaiveLoop<T>(result: seq<T>, temp: seq<T>, draws: seq<real>): (r: seq<T>)
    requires Unit(draws) && |draws| == |temp|
    ensures |r| == |result| + |temp|
    ensures multiset(r) == multiset(result) + multiset(temp)
    ensures r[..|result|] == result
    decreases |temp|
  {
    if |temp| == 0 then result
    else
      var k := Scale(draws[0], |temp|);
      assert temp == temp[..k] + [temp[k]] + temp[k + 1..];
      NaiveLoop(result + [temp[k]], temp[..k] + temp[k + 1..], draws[1..])
  }

  /** `naiveShuffle`: one draw per element; a permutation of the argument. */
  function NaiveShuffle<T>(a: seq<T>, draws: seq<real>): (r: seq<T>)
    requires Unit(draws) && |draws| == |a|
    ensures |r| == |a| && multiset(r) == multiset(a)
  {
    NaiveLoop([], a, draws)
  }

  // ------------------------------------------------------- randomSwapShuffle

  /** `iterations || n`: an omitted (`None`) or zero count means `n`. */
  function SwapCount(iterations: Option<int>, n: int): (c: int)
    ensures iterations.None? || iterations.value == 0 ==> c == n
    ensures iterations.Some? && iterations.value != 0 ==> c == iterations.value
  {
    match iterations
    case None => n
    case Some(k) => if k == 0 then n else k
  }

  /** The swap loop: `count` swaps of two drawn positions. */
  function SwapLoop<T>(s: seq<T>, count: nat, draws: seq<real>): (r: seq<T>)
    requires Unit(draws) && |draws| == 2 * count && (count > 0 ==> |s| > 0)
    ensures |r| == |s| && multiset(r) == multiset(s)
    decreases count
  {
    if count == 0 then s
    else
      var i1 := Scale(draws[0], |s|);
      var i2 := Scale(draws[1], |s|);
      SwapLoop(Swap(s, i1, i2), count - 1, draws[2..])
  }

  /** `randomSwapShuffle`: `iterations || n` swaps (none when the count is
      negative), two draws each; a permutation of the argument.  On an empty
      array with a positive count the source indexes `result[0]` of an empty
      array and writes `undefined` elements; the model requires a nonempty
      array in that case. */
  function RandomSwapShuffle<T>(a: seq<T>, iterations: Option<int>, draws: seq<real>): (r: seq<T>)
    requires Unit(draws)
    requires |draws| == 2 * (if SwapCount(iterations, |a|) < 0 then 0 else SwapCount(iterations, |a|))
    requires SwapCount(iterations, |a|) > 0 ==> |a| > 0
    ensures |r| == |a| && multiset(r) == multiset(a)
  {
    var c := SwapCount(iterations, |a|);
    SwapLoop(a, if c < 0 then 0 else c, draws)
  }

  /** With the default count the shuffle makes `n` swaps, `2n` draws. */
  lemma DefaultSwapCount<T>(a: seq<T>)
    ensures SwapCount(None, |a|) == |a| && SwapCount(Some(0), |a|) == |a|
  {
  }

  // ------------------------------------------------------------------ helpers

  /** `generateSortedArray(n)`: `[1, 2, ..., n]`. */
  function GenerateSortedArray(n: nat): (r: seq<int>)
    ensures |r| == n
    ensures forall i :: 0 <= i < n ==> r[i] == i + 1
  {
    seq(n, i => i + 1)
  }

  /** The sorted array is strictly increasing and holds each of 1..n once. */
  lemma SortedArrayFacts(n: nat)
    ensures forall i, j :: 0 <= i < j < n ==> GenerateSortedArray(n)[i] < GenerateSortedArray(n)[j]
    ensures forall v :: v in GenerateSortedArray(n) <==> 1 <= v <= n
  {
    var r := GenerateSortedArray(n);
    forall v | 1 <= v <= n
      ensures v in r
    {
      assert r[v - 1] == v;
    }
  }

  /** The `every` of `isShuffled`: whether `a` and `b` agree on `[i, |a|)`. */
  function AllEqualFrom<T(==)>(a: seq<T>, b: seq<T>, i: int): (r: bool)
    requires |a| == |b| && 0 <= i <= |a|
    decreases |a| - i
  {
    if i == |a| then true else a[i] == b[i] && AllEqualFrom(a, b, i + 1)
  }

  lemma {:induction false} AllEqualFromMeans<T>(a: seq<T>, b: seq<T>, i: int)
    requires |a| == |b| && 0 <= i <= |a|
    ensures AllEqualFrom(a, b, i) <==> a[i..] == b[i..]
    decreases |a| - i
  {
    if i < |a| {
      AllEqualFromMeans(a, b, i + 1);
      assert a[i..] == [a[i]] + a[i + 1..] && b[i..] == [b[i]] + b[i + 1..];
    }
  }

  /** `isShuffled`: false for arrays of different lengths, otherwise true
      exactly when some position differs. */
  function IsShuffled<T(==)>(original: seq<T>, shuffled: seq<T>): (r: bool)
    ensures r <==> |original| == |shuffled| && original != shuffled
  {
    if |original| != |shuffled| then false
    else
      AllEqualFromMeans(original, shuffled, 0);
      !AllEqualFrom(original, shuffled, 0)
  }

  /** No array is a shuffle of itself, in particular not the empty one. */
  lemma NotShuffledOfItself<T>(a: seq<T>)
    ensures !IsShuffled(a, a) && !IsShuffled<T>([], [])
  {
  }
}
