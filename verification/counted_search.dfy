/** The comparison-counting searches of
    `project_ts/src/test-comparison-count.ts`.  Each repeats one search of
    `algorithms.ts` while counting element comparisons the way the source
    counts them; the lemmas show that each returns the same index as the
    search it instruments, and bound or pin down the count. */
module CountedSearch {
  import opened Sequences
  import opened Wrappers
  import opened Searching

  /** The `{ index, comparisons }` record every counting search returns. */
  datatype Counted = Counted(index: int, comparisons: nat)

  // ------------------------------------------------------ theoretical bound

  function Pow2(k: nat): (p: nat)
    ensures p >= 1
  {
    if k == 0 then 1 else 2 * Pow2(k - 1)
  }

  /** The number of binary digits of `n`. */
  function BitLength(n: nat): nat {
    if n == 0 then 0 else 1 + BitLength(n / 2)
  }

  /** `BitLength(n)` is `floor(log2(n)) + 1` for positive `n`. */
  lemma {:induction false} BitLengthIsLog(n: nat)
    requires n >= 1
    ensures BitLength(n) >= 1 && Pow2(BitLength(n) - 1) <= n < Pow2(BitLength(n))
  {
    if n >= 2 {
      BitLengthIsLog(n / 2);
    }
  }

  lemma {:induction false} BitLengthMonotone(m: nat, n: nat)
    requires m <= n
    ensures BitLength(m) <= BitLength(n)
  {
    if m > 0 {
      BitLengthMonotone(m / 2, n / 2);
    }
  }

  /** `calculateTheoreticalMinComparisons(n)`, `floor(log2(n)) + 1`.  For
      `n == 0`, `Math.log2(0)` is minus infinity and so is the result:
      `None`. */
  function TheoreticalMinComparisons(n: nat): (r: Option<nat>)
    ensures r.None? <==> n == 0
    ensures r.Some? ==> r.value >= 1 && Pow2(r.value - 1) <= n < Pow2(r.value)
  {
    if n == 0 then None else BitLengthIsLog(n); Some(BitLength(n))
  }

  // ---------------------------------------------------------------- linear

  function LinearCountFrom(a: seq<int>, t: int, i: nat, c: nat): (r: Counted)
    requires i <= |a|
    decreases |a| - i
  {
    if i == |a| then Counted(-1, c)
    else if a[i] == t then Counted(i, c + 1)
    else LinearCountFrom(a, t, i + 1, c + 1)
  }

  /** `linearSearchWithCount`: one comparison per element inspected. */
  function LinearSearchWithCount(a: seq<int>, t: int): (r: Counted)
    ensures r.index == LinearSearch(a, t)
    ensures r.comparisons == if r.index == -1 then |a| else r.index + 1
  {
    LinearCountAgrees(a, t, 0);
    LinearCountFrom(a, t, 0, 0)
  }

  lemma {:induction false} LinearCountAgrees(a: seq<int>, t: int, i: nat)
    requires i <= |a|
    ensures LinearCountFrom(a, t, i, i).index == LinearFrom(a, t, i)
    ensures var r := LinearCountFrom(a, t, i, i);
      r.comparisons == if r.index == -1 then |a| else r.index + 1
    decreases |a| - i
  {
    if i < |a| && a[i] != t {
      LinearCountAgrees(a, t, i + 1);
    }
  }

  // ---------------------------------------------------------------- binary

  function BinaryCountLoop(a: seq<int>, t: int, low: int, high: int, c: nat): (r: Counted)
    requires 0 <= low && high < |a|
    decreases high - low + 1
  {
    if low > high then Counted(-1, c)
    else
      var mid := (low + high) / 2;
      if a[mid] == t then Counted(mid, c + 1)
      else if a[mid] > t then BinaryCountLoop(a, t, low, mid - 1, c + 1)
      else BinaryCountLoop(a, t, mid + 1, high, c + 1)
  }

  /** `binarySearchWithCount`: the index of `binarySearch`, using at most
      `floor(log2(n)) + 1` comparisons on any input. */
  function BinarySearchWithCount(a: seq<int>, t: int): (r: Counted)
    ensures r.index == BinarySearch(a, t)
    ensures r.comparisons <= BitLength(|a|)
  {
    BinaryCountAgrees(a, t, 0, |a| - 1, 0);
    BinaryCountLoop(a, t, 0, |a| - 1, 0)
  }

  lemma {:induction false} BinaryCountAgrees(a: seq<int>, t: int, low: int, high: int, c: nat)
    requires 0 <= low && high < |a| && low <= high + 1
    ensures BinaryCountLoop(a, t, low, high, c).index == BinaryLoop(a, t, low, high)
    ensures BinaryCountLoop(a, t, low, high, c).comparisons <= c + BitLength(high - low + 1)
    decreases high - low + 1
  {
    if low <= high {
      var mid := (low + high) / 2;
      HalvesShrink(low, high);
      if a[mid] > t {
        BinaryCountAgrees(a, t, low, mid - 1, c + 1);
      } else if a[mid] < t {
        BinaryCountAgrees(a, t, mid + 1, high, c + 1);
      }
    }
  }

  /** Each half left by a probe at the midpoint needs one bit fewer. */
  lemma HalvesShrink(low: int, high: int)
    requires low <= high
    ensures 1 + BitLength((low + high) / 2 - low) <= BitLength(high - low + 1)
    ensures 1 + BitLength(high - (low + high) / 2) <= BitLength(high - low + 1)
  {
    var m := high - low + 1;
    assert (low + high) / 2 - low == (m - 1) / 2;
    assert high - (low + high) / 2 == m / 2;
    assert BitLength(m) == 1 + BitLength(m / 2);
    BitLengthMonotone((m - 1) / 2, m / 2);
  }

  /** The worst case meets the theoretical figure: a binary search of a
      nonempty array never needs more comparisons than it. */
  lemma BinaryWithinTheoreticalMin(a: seq<int>, t: int)
    requires |a| >= 1
    ensures TheoreticalMinComparisons(|a|).Some?
    ensures BinarySearchWithCount(a, t).comparisons <= TheoreticalMinComparisons(|a|).value
  {
  }

  // --------------------------------------------------------- interpolation

  /** The interpolation loop with its count.  In the 0/0 case the probe is
      NaN and the count still goes up once before the loop ends. */
  function InterpolationCountLoop(a: seq<int>, t: int, low: int, high: int, c: nat): (r: Counted)
    requires 0 <= low && high < |a|
    decreases high - low + 1
  {
    if !(low <= high && t >= a[low] && t <= a[high]) then Counted(-1, c)
    else if low == high then (if a[low] == t then Counted(low, c + 1) else Counted(-1, c + 1))
    else if a[high] == a[low] then Counted(-1, c + 1)
    else
      var pos := Probe(a, t, low, high);
      if a[pos] == t then Counted(pos, c + 1)
      else if a[pos] < t then InterpolationCountLoop(a, t, pos + 1, high, c + 1)
      else InterpolationCountLoop(a, t, low, pos - 1, c + 1)
  }

  /** `interpolationSearchWithCount`. */
  function InterpolationSearchWithCount(a: seq<int>, t: int): (r: Counted)
    ensures r.index == InterpolationSearch(a, t)
  {
    InterpolationCountAgrees(a, t, 0, |a| - 1, 0);
    InterpolationCountLoop(a, t, 0, |a| - 1, 0)
  }

  lemma {:induction false} InterpolationCountAgrees(a: seq<int>, t: int, low: int, high: int, c: nat)
    requires 0 <= low <= high + 1 && high < |a|
    ensures InterpolationCountLoop(a, t, low, high, c).index == InterpolationLoop(a, t, low, high)
    ensures InterpolationCountLoop(a, t, low, high, c).comparisons <= c + (high - low + 1)
    decreases high - low + 1
  {
    if low <= high && t >= a[low] && t <= a[high] && low != high && a[high] != a[low] {
      var pos := Probe(a, t, low, high);
      if a[pos] < t {
        InterpolationCountAgrees(a, t, pos + 1, high, c + 1);
      } else if a[pos] > t {
        InterpolationCountAgrees(a, t, low, pos - 1, c + 1);
      }
    }
  }

  // ----------------------------------------------------------- exponential

  /** The counted doubling loop: `(i, comparisons)`. */
  function ExponentialCountBound(a: seq<int>, t: int, i: int, c: nat): (r: (int, nat))
    requires 1 <= i && (i == 1 || i / 2 < |a|)
    requires i >= 2 ==> a[i / 2] <= t
    decreases |a| - i
  {
    if i < |a| then
      if a[i] > t then (i, c + 1) else ExponentialCountBound(a, t, i * 2, c + 1)
    else (i, c)
  }

  lemma {:induction false} ExponentialCountBoundAgrees(a: seq<int>, t: int, i: int, c: nat)
    requires 1 <= i && (i == 1 || i / 2 < |a|)
    requires i >= 2 ==> a[i / 2] <= t
    ensures ExponentialCountBound(a, t, i, c).0 == ExponentialBound(a, t, i)
    ensures ExponentialCountBound(a, t, i, c).1 >= c
    decreases |a| - i
  {
    if i < |a| && a[i] <= t {
      ExponentialCountBoundAgrees(a, t, i * 2, c + 1);
    }
  }

  /** `exponentialSearchWithCount`: the first comparison with `arr[0]` is
      always counted. */
  function ExponentialSearchWithCount(a: seq<int>, t: int): (r: Counted)
    ensures r.index == ExponentialSearch(a, t)
    ensures r.comparisons >= 1
  {
    if |a| > 0 && a[0] == t then Counted(0, 1)
    else
      ExponentialCountBoundAgrees(a, t, 1, 1);
      var (i, c) := ExponentialCountBound(a, t, 1, 1);
      var start := i / 2;
      var end := if i < |a| then i else |a|;
      var b := BinarySearchWithCount(a[start..end], t);
      Counted(if b.index == -1 then -1 else b.index + start, c + b.comparisons)
  }

  // ------------------------------------------------------------------ jump

  /** The counted block loop: `(None, c)` is the early return of -1. */
  function JumpCountBlocks(a: seq<int>, t: int, step: int, prev: int, c: nat): (r: (Option<int>, nat))
    requires 1 <= step && 0 <= prev
    decreases |a| - prev
  {
    if prev < |a| then
      if a[Min(prev + step, |a|) - 1] >= t then (Some(prev), c + 1)
      else if prev + step >= |a| then (None, c + 1)
      else JumpCountBlocks(a, t, step, prev + step, c + 1)
    else (Some(prev), c)
  }

  lemma {:induction false} JumpCountBlocksAgrees(a: seq<int>, t: int, step: int, prev: int, c: nat)
    requires 1 <= step && 0 <= prev
    ensures JumpCountBlocks(a, t, step, prev, c).0 == JumpBlocks(a, t, step, prev)
    decreases |a| - prev
  {
    if prev < |a| && a[Min(prev + step, |a|) - 1] < t && prev + step < |a| {
      JumpCountBlocksAgrees(a, t, step, prev + step, c + 1);
    }
  }

  function JumpCountScan(a: seq<int>, t: int, end: int, current: int, c: nat): (r: Counted)
    requires 0 <= current && end <= |a|
    decreases end - current
  {
    if current < end then
      if a[current] == t then Counted(current, c + 1)
      else if a[current] > t then Counted(-1, c + 1)
      else JumpCountScan(a, t, end, current + 1, c + 1)
    else Counted(-1, c)
  }

  lemma {:induction false} JumpCountScanAgrees(a: seq<int>, t: int, end: int, current: int, c: nat)
    requires 0 <= current && end <= |a|
    ensures JumpCountScan(a, t, end, current, c).index == JumpScan(a, t, end, current)
    decreases end - current
  {
    if current < end && a[current] < t {
      JumpCountScanAgrees(a, t, end, current + 1, c + 1);
    }
  }

  /** `jumpSearchWithCount`. */
  function JumpSearchWithCount(a: seq<int>, t: int): (r: Counted)
    ensures r.index == JumpSearch(a, t)
  {
    var n := |a|;
    if n == 0 then Counted(-1, 0)
    else
      var step := IntSqrt(n);
      JumpCountBlocksAgrees(a, t, step, 0, 0);
      match JumpCountBlocks(a, t, step, 0, 0)
      case (None, c) => Counted(-1, c)
      case (Some(prev), c) =>
        JumpCountScanAgrees(a, t, Min(prev + step, n), prev, c);
        JumpCountScan(a, t, Min(prev + step, n), prev, c)
  }

  // --------------------------------------------------------------- ternary

  function TernaryCountRange(a: seq<int>, t: int, low: int, high: int): (r: Counted)
    requires 0 <= low && high < |a|
    decreases high - low + 1
  {
    if low > high then Counted(-1, 0)
    else
      var (mid1, mid2) := TernaryMids(low, high);
      if a[mid1] == t then Counted(mid1, 2)
      else if a[mid2] == t then Counted(mid2, 2)
      else
        var (lo, hi) := TernaryNext(a, t, low, high);
        var sub := TernaryCountRange(a, t, lo, hi);
        Counted(sub.index, 2 + sub.comparisons)
  }

  /** `ternarySearchWithCount`: two comparisons per level visited. */
  function TernarySearchWithCount(a: seq<int>, t: int): (r: Counted)
    ensures r.index == TernarySearch(a, t)
    ensures r.comparisons % 2 == 0
    ensures r.index != -1 ==> r.comparisons >= 2
  {
    TernaryCountAgrees(a, t, 0, |a| - 1);
    TernaryCountRange(a, t, 0, |a| - 1)
  }

  lemma {:induction false} TernaryCountAgrees(a: seq<int>, t: int, low: int, high: int)
    requires 0 <= low && high < |a|
    ensures TernaryCountRange(a, t, low, high).index == TernaryRange(a, t, low, high)
    ensures TernaryCountRange(a, t, low, high).comparisons % 2 == 0
    ensures TernaryCountRange(a, t, low, high).index != -1 ==> TernaryCountRange(a, t, low, high).comparisons >= 2
    decreases high - low + 1
  {
    if low <= high {
      var (mid1, mid2) := TernaryMids(low, high);
      if a[mid1] != t && a[mid2] != t {
        var (lo, hi) := TernaryNext(a, t, low, high);
        TernaryCountAgrees(a, t, lo, hi);
      }
    }
  }

  // ------------------------------------------------------------- fibonacci

  function FibCountLoop(a: seq<int>, t: int, offset: int, f2: int, f1: int, fm: int, c: nat): (r: Counted)
    requires FibWindow(f2, f1, fm)
    requires -1 <= offset < |a| && (fm > 1 ==> |a| >= 1)
    decreases fm
  {
    FibWindowFacts(f2, f1, fm);
    if fm > 1 then
      var i := Min(offset + f2, |a| - 1);
      if a[i] < t then
        FibStepLess(f2, f1, fm);
        FibCountLoop(a, t, i, f1 - f2, f2, f1, c + 1)
      else if a[i] > t then
        FibStepGreater(f2, f1, fm);
        FibCountLoop(a, t, offset, 2 * f2 - f1, f1 - f2, f2, c + 1)
      else Counted(i, c + 1)
    else if f1 == 1 && offset + 1 < |a| && a[offset + 1] == t then Counted(offset + 1, c + 1)
    else Counted(-1, c)
  }

  lemma {:induction false} FibCountAgrees(a: seq<int>, t: int, offset: int, f2: int, f1: int, fm: int, c: nat)
    requires FibWindow(f2, f1, fm)
    requires -1 <= offset < |a| && (fm > 1 ==> |a| >= 1)
    ensures FibCountLoop(a, t, offset, f2, f1, fm, c).index == FibLoop(a, t, offset, f2, f1, fm)
    decreases fm
  {
    FibWindowFacts(f2, f1, fm);
    if fm > 1 {
      var i := Min(offset + f2, |a| - 1);
      if a[i] < t {
        FibStepLess(f2, f1, fm);
        FibCountAgrees(a, t, i, f1 - f2, f2, f1, c + 1);
      } else if a[i] > t {
        FibStepGreater(f2, f1, fm);
        FibCountAgrees(a, t, offset, 2 * f2 - f1, f1 - f2, f2, c + 1);
      }
    }
  }

  /** `fibonacciSearchWithCount`. */
  function FibonacciSearchWithCount(a: seq<int>, t: int): (r: Counted)
    ensures r.index == FibonacciSearch(a, t)
  {
    var w := FibGrow(|a|, 0, 1, 1);
    FibCountAgrees(a, t, -1, w.0, w.1, w.2, 0);
    FibCountLoop(a, t, -1, w.0, w.1, w.2, 0)
  }
}
