/** Maximum-sum contiguous subarray, `project_ts/src/kadane-algorithm.ts`,
    with the brute-force reference of `project_ts/src/test-kadane.ts`. */
module Kadane {
  import opened Sequences
  import opened Wrappers

  /** Some nonempty subarray of `a[..e]` sums to `v`. */
  ghost predicate Achieved(a: seq<int>, e: int, v: int)
    requires 0 <= e <= |a|
  {
    exists lo, hi :: 0 <= lo < hi <= e && SumRange(a, lo, hi) == v
  }

  /** `v` is the largest sum of a nonempty subarray of `a[..e]`. */
  ghost predicate MaxWithin(a: seq<int>, e: int, v: int)
    requires 0 <= e <= |a|
  {
    Achieved(a, e, v) && forall lo, hi :: 0 <= lo < hi <= e ==> SumRange(a, lo, hi) <= v
  }

  /** `v` is the largest sum of a nonempty subarray ending just before `e`. */
  ghost predicate MaxEndingAt(a: seq<int>, e: int, v: int)
    requires 1 <= e <= |a|
  {
    (exists lo :: 0 <= lo < e && SumRange(a, lo, e) == v)
    && forall lo :: 0 <= lo < e ==> SumRange(a, lo, e) <= v
  }

  /** The largest subarray sum is unique. */
  lemma MaxWithinUnique(a: seq<int>, e: int, v: int, w: int)
    requires 0 <= e <= |a| && MaxWithin(a, e, v) && MaxWithin(a, e, w)
    ensures v == w
  {
    var lo, hi :| 0 <= lo < hi <= e && SumRange(a, lo, hi) == v;
    var lo', hi' :| 0 <= lo' < hi' <= e && SumRange(a, lo', hi') == w;
  }

  /** The best sum ending at `i` is either `a[i]` alone or the best sum
      ending at `i - 1` extended by `a[i]`. */
  lemma EndingStep(a: seq<int>, i: int, cur: int)
    requires 1 <= i < |a| && MaxEndingAt(a, i, cur)
    ensures MaxEndingAt(a, i + 1, if cur + a[i] < a[i] then a[i] else cur + a[i])
  {
    var next := if cur + a[i] < a[i] then a[i] else cur + a[i];
    forall lo | 0 <= lo < i + 1
      ensures SumRange(a, lo, i + 1) == (if lo == i then 0 else SumRange(a, lo, i)) + a[i]
    {
      SumRangeSplitLast(a, lo, i + 1);
    }
    var lo :| 0 <= lo < i && SumRange(a, lo, i) == cur;
    var e := i + 1;
    forall lo' | 0 <= lo' < e
      ensures SumRange(a, lo', e) <= next
    {
      if lo' < i {
        assert SumRange(a, lo', i) <= cur;
      }
    }
    if cur + a[i] < a[i] {
      assert SumRange(a, i, i + 1) == next;
    } else {
      assert SumRange(a, lo, i + 1) == next;
    }
  }

  /** Extending the window by one element adds only subarrays ending there. */
  lemma WithinStep(a: seq<int>, i: int, cur: int, best: int)
    requires 1 <= i < |a| && MaxWithin(a, i, best) && MaxEndingAt(a, i + 1, cur)
    ensures MaxWithin(a, i + 1, if cur > best then cur else best)
    ensures cur <= best ==> MaxWithin(a, i + 1, best)
  {
    var lo :| 0 <= lo < i + 1 && SumRange(a, lo, i + 1) == cur;
    var lo', hi' :| 0 <= lo' < hi' <= i && SumRange(a, lo', hi') == best;
  }

  // ------------------------------------------------------------ kadaneBasic

  /** The loop of `kadaneBasic`. */
  function BasicLoop(a: seq<int>, i: int, cur: int, best: int): (r: int)
    requires 1 <= i <= |a| && MaxEndingAt(a, i, cur) && MaxWithin(a, i, best)
    ensures MaxWithin(a, |a|, r)
    decreases |a| - i
  {
    if i == |a| then best
    else
      var cur' := if a[i] > cur + a[i] then a[i] else cur + a[i];
      EndingStep(a, i, cur);
      WithinStep(a, i, cur', best);
      BasicLoop(a, i + 1, cur', if best > cur' then best else cur')
  }

  /** `kadaneBasic`: throws on an empty array, otherwise returns the largest
      sum of a nonempty contiguous subarray. */
  function KadaneBasic(a: seq<int>): (r: Result<int>)
    ensures r.Failure? <==> |a| == 0
    ensures r.Success? ==> MaxWithin(a, |a|, r.value)
  {
    if |a| == 0 then Failure("数组不能为空")
    else
      assert SumRange(a, 0, 1) == a[0];
      Success(BasicLoop(a, 1, a[0], a[0]))
  }

  /** On an array of negative numbers the answer is its largest element. */
  lemma AllNegative(a: seq<int>)
    requires |a| > 0 && forall k :: 0 <= k < |a| ==> a[k] < 0
    ensures KadaneBasic(a).Success?
    ensures var v := KadaneBasic(a).value;
      (exists k :: 0 <= k < |a| && a[k] == v) && forall k :: 0 <= k < |a| ==> a[k] <= v
  {
    var v := KadaneBasic(a).value;
    var lo, hi :| 0 <= lo < hi <= |a| && SumRange(a, lo, hi) == v;
    NegativeTail(a, lo, hi);
    assert SumRange(a, lo, lo + 1) == a[lo];
    forall k | 0 <= k < |a|
      ensures a[k] <= v
    {
      assert SumRange(a, k, k + 1) == a[k];
    }
  }

  lemma {:induction false} NegativeTail(a: seq<int>, lo: int, hi: int)
    requires 0 <= lo < hi <= |a| && forall k :: 0 <= k < |a| ==> a[k] < 0
    ensures SumRange(a, lo, hi) <= a[lo]
    decreases hi - lo
  {
    if lo + 1 < hi {
      NegativeTail(a, lo + 1, hi);
    }
  }

  // ------------------------------------------------------ kadaneWithIndices

  datatype Span = Span(maxSum: int, startIndex: int, endIndex: int, subArray: seq<int>)

  /** The loop state of `kadaneWithIndices`: `cur` is the best sum ending
      before `i` and starts at `tempStart`; `best` is the best sum so far,
      reached by `a[start..end]` and by no subarray ending earlier. */
  ghost predicate IndicesInv(a: seq<int>, i: int, cur: int, best: int, start: int, end: int, tempStart: int) {
    1 <= i <= |a| && MaxEndingAt(a, i, cur) && 0 <= tempStart < i && SumRange(a, tempStart, i) == cur
    && MaxWithin(a, i, best) && 0 <= start <= end < i && SumRange(a, start, end + 1) == best
    && forall lo, hi :: 0 <= lo < hi <= end ==> SumRange(a, lo, hi) < best
  }

  lemma IndicesStep(a: seq<int>, i: int, cur: int, best: int, start: int, end: int, tempStart: int)
    requires IndicesInv(a, i, cur, best, start, end, tempStart) && i < |a|
    ensures var restart := cur + a[i] < a[i];
      var cur' := if restart then a[i] else cur + a[i];
      var ts := if restart then i else tempStart;
      if cur' > best then IndicesInv(a, i + 1, cur', cur', ts, i, ts)
      else IndicesInv(a, i + 1, cur', best, start, end, ts)
  {
    var restart := cur + a[i] < a[i];
    var cur' := if restart then a[i] else cur + a[i];
    var ts := if restart then i else tempStart;
    EndingStep(a, i, cur);
    SumRangeSplitLast(a, tempStart, i + 1);
    assert SumRange(a, i, i + 1) == a[i];
    assert SumRange(a, ts, i + 1) == cur';
    WithinStep(a, i, cur', best);
    if cur' > best {
      forall lo, hi | 0 <= lo < hi <= i
        ensures SumRange(a, lo, hi) < cur'
      {
      }
    }
  }

  /** `r` names a maximum-sum subarray of `a`, the one ending earliest. */
  ghost predicate Answer(a: seq<int>, r: Span) {
    MaxWithin(a, |a|, r.maxSum)
    && 0 <= r.startIndex <= r.endIndex < |a| && SumRange(a, r.startIndex, r.endIndex + 1) == r.maxSum
    && (forall lo, hi :: 0 <= lo < hi <= r.endIndex ==> SumRange(a, lo, hi) < r.maxSum)
    && r.subArray == a[r.startIndex..r.endIndex + 1]
  }

  /** The loop of `kadaneWithIndices`. */
  function IndicesLoop(a: seq<int>, i: int, cur: int, best: int, start: int, end: int, tempStart: int): (r: Span)
    requires IndicesInv(a, i, cur, best, start, end, tempStart)
    ensures Answer(a, r)
    decreases |a| - i
  {
    if i == |a| then Span(best, start, end, a[start..end + 1])
    else
      IndicesStep(a, i, cur, best, start, end, tempStart);
      var restart := cur + a[i] < a[i];
      var cur' := if restart then a[i] else cur + a[i];
      var ts := if restart then i else tempStart;
      if cur' > best then IndicesLoop(a, i + 1, cur', cur', ts, i, ts)
      else IndicesLoop(a, i + 1, cur', best, start, end, ts)
  }

  /** `kadaneWithIndices`: throws on an empty array; otherwise the largest
      sum, a subarray reaching it that ends as early as possible, and that
      subarray's elements. */
  function KadaneWithIndices(a: seq<int>): (r: Result<Span>)
    ensures r.Failure? <==> |a| == 0
    ensures r.Success? ==> MaxWithin(a, |a|, r.value.maxSum)
    ensures r.Success? ==> 0 <= r.value.startIndex <= r.value.endIndex < |a|
    ensures r.Success? ==> r.value.subArray == a[r.value.startIndex..r.value.endIndex + 1]
    ensures r.Success? ==> Sum(r.value.subArray) == r.value.maxSum
    ensures r.Success? ==> forall lo, hi :: 0 <= lo < hi <= r.value.endIndex ==> SumRange(a, lo, hi) < r.value.maxSum
  {
    if |a| == 0 then Failure("数组不能为空")
    else
      assert SumRange(a, 0, 1) == a[0];
      var s := IndicesLoop(a, 1, a[0], a[0], 0, 0, 0);
      SliceSum(a, s.startIndex, s.endIndex + 1);
      Success(s)
  }

  /** The sum of a slice is the sum of the range it was cut from. */
  lemma {:induction false} SliceSum(a: seq<int>, lo: int, hi: int)
    requires 0 <= lo <= hi <= |a|
    ensures Sum(a[lo..hi]) == SumRange(a, lo, hi)
    decreases hi - lo
  {
    if lo < hi {
      SliceSum(a, lo, hi - 1);
      SumRangeSplitLast(a, lo, hi);
      SumRangeSplitLast(a[lo..hi], 0, hi - lo);
      assert a[lo..hi][..hi - lo - 1] == a[lo..hi - 1];
      PrefixSum(a[lo..hi], hi - lo - 1);
    }
  }

  lemma {:induction false} PrefixSum(s: seq<int>, n: int)
    requires 0 <= n <= |s|
    ensures SumRange(s, 0, n) == Sum(s[..n])
  {
    SumRangeAgree(s, s[..n], 0, n);
  }

  /** `SumRange` only looks at the elements in its range. */
  lemma {:induction false} SumRangeAgree(s: seq<int>, t: seq<int>, lo: int, hi: int)
    requires 0 <= lo <= hi <= |s| && hi <= |t| && forall k :: lo <= k < hi ==> s[k] == t[k]
    ensures SumRange(s, lo, hi) == SumRange(t, lo, hi)
    decreases hi - lo
  {
    if lo < hi {
      SumRangeAgree(s, t, lo + 1, hi);
    }
  }

  /** Both versions agree on the largest sum. */
  lemma IndicesAgreesWithBasic(a: seq<int>)
    requires |a| > 0
    ensures KadaneWithIndices(a).value.maxSum == KadaneBasic(a).value
  {
    MaxWithinUnique(a, |a|, KadaneWithIndices(a).value.maxSum, KadaneBasic(a).value);
  }

  // ---------------------------------------------------------- brute force

  /** The inner loop of `bruteForce`: sums `a[i..j]` for growing `j`. */
  function BruteInner(a: seq<int>, i: int, j: int, cur: int, best: int): (r: int)
    requires 0 <= i <= j <= |a| && cur == SumRange(a, i, j) && Achieved(a, |a|, best)
    requires forall lo, hi :: 0 <= lo < i && lo < hi <= |a| ==> SumRange(a, lo, hi) <= best
    requires forall hi :: i < hi <= j ==> SumRange(a, i, hi) <= best
    ensures Achieved(a, |a|, r)
    ensures forall lo, hi :: 0 <= lo <= i && lo < hi <= |a| ==> SumRange(a, lo, hi) <= r
    decreases |a| - j
  {
    if j == |a| then best
    else
      SumRangeSplitLast(a, i, j + 1);
      var cur' := cur + a[j];
      BruteInner(a, i, j + 1, cur', if best > cur' then best else cur')
  }

  /** The outer loop of `bruteForce`. */
  function BruteOuter(a: seq<int>, i: int, best: int): (r: int)
    requires 0 <= i <= |a| && Achieved(a, |a|, best)
    requires forall lo, hi :: 0 <= lo < i && lo < hi <= |a| ==> SumRange(a, lo, hi) <= best
    ensures MaxWithin(a, |a|, r)
    decreases |a| - i
  {
    if i == |a| then best
    else
      BruteOuter(a, i + 1, BruteInner(a, i, i, 0, best))
  }

  /** `bruteForce`: every subarray sum, keeping the largest.  On an empty
      array it returns `nums[0]`, which is undefined. */
  function BruteForce(a: seq<int>): (r: Option<int>)
    ensures r.None? <==> |a| == 0
    ensures r.Some? ==> MaxWithin(a, |a|, r.value)
  {
    if |a| == 0 then None
    else
      assert SumRange(a, 0, 1) == a[0];
      Some(BruteOuter(a, 0, a[0]))
  }

  /** Kadane's single pass agrees with the brute force on every input. */
  lemma KadaneMatchesBruteForce(a: seq<int>)
    ensures KadaneBasic(a).Success? <==> BruteForce(a).Some?
    ensures |a| > 0 ==> KadaneBasic(a).value == BruteForce(a).value
  {
    if |a| > 0 {
      MaxWithinUnique(a, |a|, KadaneBasic(a).value, BruteForce(a).value);
    }
  }
}
