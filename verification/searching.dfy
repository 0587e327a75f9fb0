/** The eight searches of `project_ts/src/algorithms.ts`.  Each returns an
    index or -1.  Every loop of the source is a tail-recursive function over
    the loop's variables; the decisions, bounds and reads are the source's. */
module Searching {
  import opened Sequences
  import opened Wrappers

  /** The answer every search owes its caller: -1, or an in-range index
      holding the target. */
  ghost predicate Sound(a: seq<int>, t: int, r: int) {
    r == -1 || (0 <= r < |a| && a[r] == t)
  }

  /** On a sorted input a search is complete when -1 means the target is absent. */
  ghost predicate Complete(a: seq<int>, t: int, r: int) {
    r == -1 ==> t !in a
  }

  /** `t` does not occur in `a` outside `[lo, hi]`. */
  ghost predicate OnlyWithin(a: seq<int>, t: int, lo: int, hi: int) {
    forall p :: 0 <= p < |a| && a[p] == t ==> lo <= p <= hi
  }

  // ---------------------------------------------------------------- linear

  function LinearFrom(a: seq<int>, t: int, i: nat): (r: int)
    requires i <= |a|
    ensures Sound(a, t, r)
    ensures r == -1 <==> t !in a[i..]
    ensures r != -1 ==> i <= r && t !in a[i..r]
    decreases |a| - i
  {
    if i == |a| then -1
    else if a[i] == t then i
    else
      assert a[i..] == [a[i]] + a[i + 1..];
      LinearFrom(a, t, i + 1)
  }

  /** `linearSearch`: the first index holding the target, or -1. */
  function LinearSearch(a: seq<int>, t: int): (r: int)
    ensures r == -1 <==> t !in a
    ensures r != -1 ==> 0 <= r < |a| && a[r] == t && t !in a[..r]
  {
    assert a[0..] == a;
    LinearFrom(a, t, 0)
  }

  // ---------------------------------------------------------------- binary

  /** The loop of `binarySearch` on the closed interval `[low, high]`. */
  function BinaryLoop(a: seq<int>, t: int, low: int, high: int): (r: int)
    requires 0 <= low && high < |a|
    ensures Sound(a, t, r)
    ensures r != -1 ==> low <= r <= high
    decreases high - low + 1
  {
    if low > high then -1
    else
      var mid := (low + high) / 2;
      if a[mid] == t then mid
      else if a[mid] > t then BinaryLoop(a, t, low, mid - 1)
      else BinaryLoop(a, t, mid + 1, high)
  }

  lemma {:induction false} BinaryLoopComplete(a: seq<int>, t: int, low: int, high: int)
    requires 0 <= low && high < |a| && Sorted(a) && OnlyWithin(a, t, low, high)
    ensures Complete(a, t, BinaryLoop(a, t, low, high))
    decreases high - low + 1
  {
    if low <= high {
      var mid := (low + high) / 2;
      if a[mid] > t {
        BinaryLoopComplete(a, t, low, mid - 1);
      } else if a[mid] < t {
        BinaryLoopComplete(a, t, mid + 1, high);
      }
    }
  }

  /** `binarySearch`. */
  function BinarySearch(a: seq<int>, t: int): (r: int)
    ensures Sound(a, t, r)
  {
    BinaryLoop(a, t, 0, |a| - 1)
  }

  /** The recursive helper `search(low, high)` of `binarySearchRecursive`. */
  function BinaryRecursive(a: seq<int>, t: int, low: int, high: int): (r: int)
    requires 0 <= low && high < |a|
    decreases high - low + 1
  {
    if low > high then -1
    else
      var mid := (low + high) / 2;
      if a[mid] == t then mid
      else if a[mid] > t then BinaryRecursive(a, t, low, mid - 1)
      else BinaryRecursive(a, t, mid + 1, high)
  }

  /** `binarySearchRecursive` probes the same midpoints as `binarySearch`. */
  function BinarySearchRecursive(a: seq<int>, t: int): (r: int)
    ensures r == BinarySearch(a, t)
    ensures Sound(a, t, r)
  {
    RecursiveMatchesLoop(a, t, 0, |a| - 1);
    BinaryRecursive(a, t, 0, |a| - 1)
  }

  lemma {:induction false} RecursiveMatchesLoop(a: seq<int>, t: int, low: int, high: int)
    requires 0 <= low && high < |a|
    ensures BinaryRecursive(a, t, low, high) == BinaryLoop(a, t, low, high)
    decreases high - low + 1
  {
    if low <= high {
      var mid := (low + high) / 2;
      if a[mid] > t {
        RecursiveMatchesLoop(a, t, low, mid - 1);
      } else if a[mid] < t {
        RecursiveMatchesLoop(a, t, mid + 1, high);
      }
    }
  }

  // --------------------------------------------------------- interpolation

  /** `floor(x * m / d)` stays within `[0, m]` when `0 <= x <= d`. */
  lemma ProbeInRange(x: int, m: int, d: int)
    requires 0 <= x <= d && 0 < d && 0 <= m
    ensures 0 <= x * m / d <= m
  {
    assert x * m <= d * m by {
      assert (d - x) * m >= 0;
    }
    assert d * m / d == m;
  }

  /** The probe position of interpolation search on `[low, high]` when the
      end values differ. */
  function Probe(a: seq<int>, t: int, low: int, high: int): (pos: int)
    requires 0 <= low < high < |a| && a[low] <= t <= a[high] && a[low] != a[high]
    ensures low <= pos <= high
  {
    ProbeInRange(t - a[low], high - low, a[high] - a[low]);
    low + (t - a[low]) * (high - low) / (a[high] - a[low])
  }

  /** The loop of `interpolationSearch` as written.  When `a[low] == a[high]`
      with `low < high`, the probe formula divides 0 by 0: `pos` is NaN, the
      read `arr[NaN]` is undefined, neither comparison holds, `high` becomes
      NaN and the loop ends, so the search answers -1. */
  function InterpolationLoop(a: seq<int>, t: int, low: int, high: int): (r: int)
    requires 0 <= low && high < |a|
    ensures Sound(a, t, r)
    decreases high - low + 1
  {
    if !(low <= high && t >= a[low] && t <= a[high]) then -1
    else if low == high then (if a[low] == t then low else -1)
    else if a[high] == a[low] then -1
    else
      var pos := Probe(a, t, low, high);
      if a[pos] == t then pos
      else if a[pos] < t then InterpolationLoop(a, t, pos + 1, high)
      else InterpolationLoop(a, t, low, pos - 1)
  }

  /** `interpolationSearch` as written. */
  function InterpolationSearch(a: seq<int>, t: int): (r: int)
    ensures Sound(a, t, r)
    ensures |a| > 0 && (t < a[0] || t > a[|a| - 1]) ==> r == -1
  {
    InterpolationLoop(a, t, 0, |a| - 1)
  }

  /** The loop with the 0/0 case probing `low`, which the formula evidently
      intends (all values of the window are equal). */
  function InterpolationLoopFixed(a: seq<int>, t: int, low: int, high: int): (r: int)
    requires 0 <= low && high < |a|
    ensures Sound(a, t, r)
    decreases high - low + 1
  {
    if !(low <= high && t >= a[low] && t <= a[high]) then -1
    else if low == high then (if a[low] == t then low else -1)
    else if a[high] == a[low] then (if a[low] == t then low else -1)
    else
      var pos := Probe(a, t, low, high);
      if a[pos] == t then pos
      else if a[pos] < t then InterpolationLoopFixed(a, t, pos + 1, high)
      else InterpolationLoopFixed(a, t, low, pos - 1)
  }

  /** Interpolation search with the 0/0 case repaired: complete on every
      sorted input, duplicates included. */
  function InterpolationSearchFixed(a: seq<int>, t: int): (r: int)
    ensures Sound(a, t, r)
  {
    InterpolationLoopFixed(a, t, 0, |a| - 1)
  }

  /** Completeness of both loops; the as-written one needs distinct values,
      so that the 0/0 case never arises. */
  lemma {:induction false} InterpolationLoopComplete(a: seq<int>, t: int, low: int, high: int, fixed: bool)
    requires 0 <= low && high < |a| && Sorted(a) && OnlyWithin(a, t, low, high)
    requires !fixed ==> StrictlySorted(a)
    ensures fixed ==> Complete(a, t, InterpolationLoopFixed(a, t, low, high))
    ensures !fixed ==> Complete(a, t, InterpolationLoop(a, t, low, high))
    decreases high - low + 1
  {
    if low <= high && t >= a[low] && t <= a[high] && low != high && a[high] != a[low] {
      var pos := Probe(a, t, low, high);
      if a[pos] < t {
        InterpolationLoopComplete(a, t, pos + 1, high, fixed);
      } else if a[pos] > t {
        InterpolationLoopComplete(a, t, low, pos - 1, fixed);
      }
    }
  }

  /** On `[5, 5]` the as-written search misses the target 5, which the
      repaired search finds. */
  lemma InterpolationZeroOverZero()
    ensures InterpolationSearch([5, 5], 5) == -1
    ensures InterpolationSearchFixed([5, 5], 5) == 0
  {
  }

  // ----------------------------------------------------------- exponential

  /** The doubling loop of `exponentialSearch`: `i` doubles while it is in
      range and `a[i] <= t`. */
  function ExponentialBound(a: seq<int>, t: int, i: int): (r: int)
    requires 1 <= i && (i == 1 || i / 2 < |a|)
    requires i >= 2 ==> a[i / 2] <= t
    ensures 1 <= r && (r == 1 || r / 2 < |a|)
    ensures r >= 2 ==> a[r / 2] <= t
    ensures r < |a| ==> a[r] > t
    decreases |a| - i
  {
    if i < |a| && a[i] <= t then ExponentialBound(a, t, i * 2) else i
  }

  /** `exponentialSearch`: a binary search of `a[floor(i / 2) .. min(i, n))`. */
  function ExponentialSearch(a: seq<int>, t: int): (r: int)
    ensures Sound(a, t, r)
  {
    if |a| > 0 && a[0] == t then 0
    else
      var i := ExponentialBound(a, t, 1);
      var start := i / 2;
      var end := if i < |a| then i else |a|;
      var r := BinarySearch(a[start..end], t);
      if r == -1 then -1 else r + start
  }

  /** On sorted input, if the target occurs it occurs inside the window the
      doubling loop stops at. */
  lemma ExponentialWindow(a: seq<int>, t: int, i: int)
    requires Sorted(a) && 1 <= i && (i == 1 || i / 2 < |a|)
    requires i >= 2 ==> a[i / 2] <= t
    requires i < |a| ==> a[i] > t
    requires !(|a| > 0 && a[0] == t)
    ensures var end := if i < |a| then i else |a|;
      i / 2 <= end && (t in a ==> t in a[i / 2..end])
  {
    var end := if i < |a| then i else |a|;
    if t in a {
      var p :| 0 <= p < |a| && a[p] == t;
      if p < i / 2 {
        assert a[i / 2] == t;
        assert a[i / 2..end][0] == t;
      } else {
        assert p < end;
        assert a[i / 2..end][p - i / 2] == t;
      }
    }
  }

  // ------------------------------------------------------------------ jump

  /** `Math.floor(Math.sqrt(n))` for a natural number. */
  function IntSqrt(n: nat): (s: nat)
    ensures s * s <= n < (s + 1) * (s + 1)
  {
    IntSqrtFrom(n, 0)
  }

  function IntSqrtFrom(n: nat, s: nat): (r: nat)
    requires s * s <= n
    ensures r * r <= n < (r + 1) * (r + 1)
    decreases n - s * s
  {
    if (s + 1) * (s + 1) <= n then IntSqrtFrom(n, s + 1) else s
  }

  function Min(x: int, y: int): int {
    if x <= y then x else y
  }

  /** The block loop of `jumpSearch`: `None` is the early `return -1` once
      `prev` passes the end, `Some(prev)` the block to scan. */
  function JumpBlocks(a: seq<int>, t: int, step: int, prev: int): (r: Option<int>)
    requires 1 <= step && 0 <= prev
    ensures r.Some? ==> prev <= r.value && (r.value < |a| ==> a[Min(r.value + step, |a|) - 1] >= t)
    ensures r.Some? ==> r.value < |a| || r.value == prev
    decreases |a| - prev
  {
    if prev < |a| && a[Min(prev + step, |a|) - 1] < t then
      if prev + step >= |a| then None else JumpBlocks(a, t, step, prev + step)
    else Some(prev)
  }

  /** The linear scan of one block: stops at the block end or at the first
      element above the target. */
  function JumpScan(a: seq<int>, t: int, end: int, current: int): (r: int)
    requires 0 <= current && end <= |a|
    ensures Sound(a, t, r)
    ensures r != -1 ==> current <= r < end
    decreases end - current
  {
    if current < end && a[current] <= t then
      if a[current] == t then current else JumpScan(a, t, end, current + 1)
    else -1
  }

  /** `jumpSearch` with block size `floor(sqrt(n))`. */
  function JumpSearch(a: seq<int>, t: int): (r: int)
    ensures Sound(a, t, r)
  {
    var n := |a|;
    if n == 0 then -1
    else
      var step := IntSqrt(n);
      assert step >= 1;
      match JumpBlocks(a, t, step, 0)
      case None => -1
      case Some(prev) => JumpScan(a, t, Min(prev + step, n), prev)
  }

  /** On sorted input every element before the block the loop stops at is
      below the target. */
  lemma {:induction false} JumpBlocksWindow(a: seq<int>, t: int, step: int, prev: int)
    requires 1 <= step && 0 <= prev && Sorted(a)
    requires forall p :: 0 <= p < prev && p < |a| ==> a[p] < t
    requires JumpBlocks(a, t, step, prev).Some?
    ensures forall p :: 0 <= p < JumpBlocks(a, t, step, prev).value && p < |a| ==> a[p] < t
    decreases |a| - prev
  {
    if prev < |a| && a[Min(prev + step, |a|) - 1] < t {
      JumpBlocksWindow(a, t, step, prev + step);
    }
  }

  lemma {:induction false} JumpBlocksExhausted(a: seq<int>, t: int, step: int, prev: int)
    requires 1 <= step && 0 <= prev && Sorted(a)
    requires forall p :: 0 <= p < prev && p < |a| ==> a[p] < t
    requires JumpBlocks(a, t, step, prev).None?
    ensures t !in a
    decreases |a| - prev
  {
    if prev + step < |a| {
      JumpBlocksExhausted(a, t, step, prev + step);
    }
  }

  lemma {:induction false} JumpScanComplete(a: seq<int>, t: int, end: int, current: int)
    requires 0 <= current <= end <= |a| && Sorted(a)
    requires forall p :: 0 <= p < current ==> a[p] < t
    requires end < |a| ==> current < end && a[end - 1] >= t
    ensures Complete(a, t, JumpScan(a, t, end, current))
    decreases end - current
  {
    if current < end && a[current] <= t && a[current] != t {
      JumpScanComplete(a, t, end, current + 1);
    }
  }

  // --------------------------------------------------------------- ternary

  /** The two probes of one ternary step, a third of the way in from each end. */
  function TernaryMids(low: int, high: int): (m: (int, int))
    requires low <= high
    ensures low <= m.0 <= m.1 <= high
  {
    (low + (high - low) / 3, high - (high - low) / 3)
  }

  /** The interval a ternary step recurses into when neither probe hits. */
  function TernaryNext(a: seq<int>, t: int, low: int, high: int): (r: (int, int))
    requires 0 <= low <= high < |a|
    ensures low <= r.0 && r.1 <= high && r.1 - r.0 < high - low
  {
    var (mid1, mid2) := TernaryMids(low, high);
    if t < a[mid1] then (low, mid1 - 1)
    else if t > a[mid2] then (mid2 + 1, high)
    else (mid1 + 1, mid2 - 1)
  }

  /** On sorted input a miss at both probes leaves every occurrence inside
      the next interval. */
  lemma TernaryNextKeeps(a: seq<int>, t: int, low: int, high: int)
    requires 0 <= low <= high < |a| && Sorted(a) && OnlyWithin(a, t, low, high)
    requires a[TernaryMids(low, high).0] != t && a[TernaryMids(low, high).1] != t
    ensures OnlyWithin(a, t, TernaryNext(a, t, low, high).0, TernaryNext(a, t, low, high).1)
  {
  }

  /** The recursive helper `search(low, high)` of `ternarySearch`. */
  function TernaryRange(a: seq<int>, t: int, low: int, high: int): (r: int)
    requires 0 <= low && high < |a|
    ensures Sound(a, t, r)
    decreases high - low + 1
  {
    if low > high then -1
    else
      var (mid1, mid2) := TernaryMids(low, high);
      if a[mid1] == t then mid1
      else if a[mid2] == t then mid2
      else
        var (lo, hi) := TernaryNext(a, t, low, high);
        TernaryRange(a, t, lo, hi)
  }

  lemma {:induction false} TernaryRangeComplete(a: seq<int>, t: int, low: int, high: int)
    requires 0 <= low && high < |a| && Sorted(a) && OnlyWithin(a, t, low, high)
    ensures Complete(a, t, TernaryRange(a, t, low, high))
    decreases high - low + 1
  {
    if low <= high {
      var (mid1, mid2) := TernaryMids(low, high);
      if a[mid1] != t && a[mid2] != t {
        TernaryNextKeeps(a, t, low, high);
        var (lo, hi) := TernaryNext(a, t, low, high);
        TernaryRangeComplete(a, t, lo, hi);
      }
    }
  }

  /** `ternarySearch`. */
  function TernarySearch(a: seq<int>, t: int): (r: int)
    ensures Sound(a, t, r)
  {
    TernaryRange(a, t, 0, |a| - 1)
  }

  // ------------------------------------------------------------- fibonacci

  /** `(x, y)` are two consecutive Fibonacci numbers `(F(k), F(k + 1))`. */
  ghost predicate Consecutive(x: int, y: int)
    decreases if x >= 0 && y >= 0 then x + y else 0
  {
    (x == 0 && y == 1) || (x == 1 && y == 1) || (1 <= x < y && Consecutive(y - x, x))
  }

  /** The window `(fibMMinus2, fibMMinus1, fibM)`: three consecutive
      Fibonacci numbers, or `(1, 0, 1)`, the state a `>` step leaves behind
      when `fibM` is 2. */
  ghost predicate FibWindow(f2: int, f1: int, fm: int) {
    (Consecutive(f2, f1) && fm == f2 + f1) || (f2 == 1 && f1 == 0 && fm == 1)
  }

  lemma {:induction false} ConsecutivePositive(x: int, y: int)
    requires Consecutive(x, y)
    ensures 0 <= x <= y && 1 <= y
    decreases if x >= 0 && y >= 0 then x + y else 0
  {
    if !((x == 0 && y == 1) || (x == 1 && y == 1)) {
      ConsecutivePositive(y - x, x);
    }
  }

  /** The first loop of `fibonacciSearch`: grow the window until `fibM >= n`. */
  function FibGrow(n: int, f2: int, f1: int, fm: int): (r: (int, int, int))
    requires Consecutive(f2, f1) && fm == f2 + f1
    ensures FibWindow(r.0, r.1, r.2) && r.2 >= n && r.2 >= 1 && r.1 >= 1
    ensures r.0 >= 0 && r.1 >= 0 && r.2 == r.0 + r.1
    decreases n - fm
  {
    ConsecutivePositive(f2, f1);
    if fm < n then FibGrow(n, f1, fm, f1 + fm) else (f2, f1, fm)
  }

  lemma FibWindowFacts(f2: int, f1: int, fm: int)
    requires FibWindow(f2, f1, fm)
    ensures f2 >= 0 && f1 >= 0 && fm >= 1 && fm == f1 + f2
    ensures fm > 1 ==> f2 >= 1 && f1 >= 1
  {
    if Consecutive(f2, f1) {
      ConsecutivePositive(f2, f1);
    }
  }

  lemma FibStepLess(f2: int, f1: int, fm: int)
    requires FibWindow(f2, f1, fm) && fm > 1
    ensures FibWindow(f1 - f2, f2, f1) && f1 < fm
  {
    FibWindowFacts(f2, f1, fm);
  }

  lemma FibStepGreater(f2: int, f1: int, fm: int)
    requires FibWindow(f2, f1, fm) && fm > 1
    ensures FibWindow(2 * f2 - f1, f1 - f2, f2) && f2 < fm
    ensures f1 - f2 == 0 ==> f2 == 1 && f1 == 1
  {
    FibWindowFacts(f2, f1, fm);
    if !(f2 == 1 && f1 == 1) {
      assert Consecutive(f1 - f2, f2);
      ConsecutivePositive(f1 - f2, f2);
    }
  }

  /** The second loop of `fibonacciSearch`. */
  function FibLoop(a: seq<int>, t: int, offset: int, f2: int, f1: int, fm: int): (r: int)
    requires FibWindow(f2, f1, fm)
    requires -1 <= offset < |a| && (fm > 1 ==> |a| >= 1)
    ensures Sound(a, t, r)
    decreases fm
  {
    FibWindowFacts(f2, f1, fm);
    if fm > 1 then
      var i := Min(offset + f2, |a| - 1);
      if a[i] < t then
        FibStepLess(f2, f1, fm);
        FibLoop(a, t, i, f1 - f2, f2, f1)
      else if a[i] > t then
        FibStepGreater(f2, f1, fm);
        FibLoop(a, t, offset, 2 * f2 - f1, f1 - f2, f2)
      else i
    else if f1 == 1 && offset + 1 < |a| && a[offset + 1] == t then offset + 1
    else -1
  }

  /** `fibonacciSearch`; the final probe `arr[offset + 1]` may lie past the
      end, where the read is undefined and the comparison fails. */
  function FibonacciSearch(a: seq<int>, t: int): (r: int)
    ensures Sound(a, t, r)
  {
    var w := FibGrow(|a|, 0, 1, 1);
    FibLoop(a, t, -1, w.0, w.1, w.2)
  }

  /** On sorted input every occurrence of the target lies in
      `(offset, offset + fibM]`, and there is none once `fibMMinus1` is 0. */
  ghost predicate FibCandidates(a: seq<int>, t: int, offset: int, f1: int, fm: int) {
    forall p :: 0 <= p < |a| && a[p] == t ==> offset < p <= offset + fm && f1 >= 1
  }

  lemma {:induction false} FibLoopComplete(a: seq<int>, t: int, offset: int, f2: int, f1: int, fm: int)
    requires FibWindow(f2, f1, fm)
    requires -1 <= offset < |a| && (fm > 1 ==> |a| >= 1)
    requires Sorted(a) && FibCandidates(a, t, offset, f1, fm)
    ensures Complete(a, t, FibLoop(a, t, offset, f2, f1, fm))
    decreases fm
  {
    FibWindowFacts(f2, f1, fm);
    if fm > 1 {
      var i := Min(offset + f2, |a| - 1);
      if a[i] < t {
        FibStepLess(f2, f1, fm);
        FibLoopComplete(a, t, i, f1 - f2, f2, f1);
      } else if a[i] > t {
        FibStepGreater(f2, f1, fm);
        FibLoopComplete(a, t, offset, 2 * f2 - f1, f1 - f2, f2);
      }
    }
  }

  // ------------------------------------------------------- completeness

  lemma BinarySearchComplete(a: seq<int>, t: int)
    requires Sorted(a)
    ensures BinarySearch(a, t) == -1 <==> t !in a
  {
    BinaryLoopComplete(a, t, 0, |a| - 1);
  }

  /** The as-written interpolation search is complete when the values are distinct. */
  lemma InterpolationSearchComplete(a: seq<int>, t: int)
    requires StrictlySorted(a)
    ensures InterpolationSearch(a, t) == -1 <==> t !in a
  {
    InterpolationLoopComplete(a, t, 0, |a| - 1, false);
  }

  lemma InterpolationSearchFixedComplete(a: seq<int>, t: int)
    requires Sorted(a)
    ensures InterpolationSearchFixed(a, t) == -1 <==> t !in a
  {
    InterpolationLoopComplete(a, t, 0, |a| - 1, true);
  }

  lemma ExponentialSearchComplete(a: seq<int>, t: int)
    requires Sorted(a)
    ensures ExponentialSearch(a, t) == -1 <==> t !in a
  {
    if !(|a| > 0 && a[0] == t) {
      var i := ExponentialBound(a, t, 1);
      var end := if i < |a| then i else |a|;
      ExponentialWindow(a, t, i);
      assert Sorted(a[i / 2..end]);
      BinarySearchComplete(a[i / 2..end], t);
    }
  }

  lemma JumpSearchComplete(a: seq<int>, t: int)
    requires Sorted(a)
    ensures JumpSearch(a, t) == -1 <==> t !in a
  {
    if |a| > 0 {
      var step := IntSqrt(|a|);
      match JumpBlocks(a, t, step, 0)
      case None =>
        JumpBlocksExhausted(a, t, step, 0);
      case Some(prev) =>
        JumpBlocksWindow(a, t, step, 0);
        JumpScanComplete(a, t, Min(prev + step, |a|), prev);
    }
  }

  lemma TernarySearchComplete(a: seq<int>, t: int)
    requires Sorted(a)
    ensures TernarySearch(a, t) == -1 <==> t !in a
  {
    TernaryRangeComplete(a, t, 0, |a| - 1);
  }

  lemma FibonacciSearchComplete(a: seq<int>, t: int)
    requires Sorted(a)
    ensures FibonacciSearch(a, t) == -1 <==> t !in a
  {
    var w := FibGrow(|a|, 0, 1, 1);
    FibLoopComplete(a, t, -1, w.0, w.1, w.2);
  }
}
