/** The five comparison sorts of `project_ts/src/algorithms.ts` and its
    `isSorted` check.  Every sort works on a copy of its argument (`[...arr]`
    or `slice`), which the value semantics of `seq` make automatic: the
    caller's sequence is never changed. */
module Sorting {
  import opened Sequences

  /** Bubble sort: passes over a shrinking prefix, swapping neighbours that
      are out of order, and stops after the first pass without a swap. */
  method BubbleSort(a: seq<int>) returns (r: seq<int>)
    ensures Sorted(r) && multiset(r) == multiset(a)
    ensures Sorted(a) ==> r == a
  {
    r := a;
    var n := |r|;
    var i := 0;
    var done := false;
    while i < n - 1 && !done
      invariant 0 <= i <= n && |r| == n
      invariant multiset(r) == multiset(a)
      invariant SortedBetween(r, if done then 0 else n - i, n)
      invariant forall k, m :: 0 <= k < n - i <= m < n ==> r[k] <= r[m]
      invariant Sorted(a) ==> r == a
      decreases n - i + (if done then 0 else 1)
    {
      var swapped := false;
      var j := 0;
      while j < n - i - 1
        invariant 0 <= j <= n - i - 1
        invariant |r| == n && multiset(r) == multiset(a)
        invariant SortedBetween(r, n - i, n)
        invariant forall k, m :: 0 <= k < n - i <= m < n ==> r[k] <= r[m]
        invariant forall k :: 0 <= k <= j && j < n ==> r[k] <= r[j]
        invariant !swapped ==> SortedBetween(r, 0, j + 1)
        invariant Sorted(a) ==> r == a && !swapped
      {
        if r[j] > r[j + 1] {
          r := Swap(r, j, j + 1);
          swapped := true;
        }
        j := j + 1;
      }
      if !swapped {
        done := true;
      } else {
        i := i + 1;
      }
    }
  }

  /** Selection sort: position `i` receives the first minimum of `r[i..]`. */
  method SelectionSort(a: seq<int>) returns (r: seq<int>)
    ensures Sorted(r) && multiset(r) == multiset(a)
  {
    r := a;
    var n := |r|;
    var i := 0;
    while i < n - 1
      invariant 0 <= i <= n && |r| == n
      invariant multiset(r) == multiset(a)
      invariant SortedBetween(r, 0, i)
      invariant forall k, m :: 0 <= k < i <= m < n ==> r[k] <= r[m]
    {
      var minIndex := i;
      var j := i + 1;
      while j < n
        invariant i + 1 <= j <= n && i <= minIndex < j
        invariant forall k :: i <= k < j ==> r[minIndex] <= r[k]
      {
        if r[j] < r[minIndex] {
          minIndex := j;
        }
        j := j + 1;
      }
      if minIndex != i {
        r := Swap(r, i, minIndex);
      }
      i := i + 1;
    }
  }

  /** Insertion sort: `key = r[i]` is inserted into the sorted prefix by
      shifting the larger elements one place to the right. */
  method InsertionSort(a: seq<int>) returns (r: seq<int>)
    ensures Sorted(r) && multiset(r) == multiset(a)
  {
    r := a;
    var n := |r|;
    var i := 1;
    while i < n
      invariant |r| == n && (n == 0 || 1 <= i <= n)
      invariant multiset(r) == multiset(a)
      invariant SortedBetween(r, 0, if n == 0 then 0 else i)
    {
      r := InsertKey(r, i);
      i := i + 1;
    }
  }

  /** One outer step of insertion sort: `r[..i]` is sorted and `r[i]` is
      moved to its place in it. */
  method InsertKey(r0: seq<int>, i: int) returns (r: seq<int>)
    requires 0 < i < |r0| && SortedBetween(r0, 0, i)
    ensures |r| == |r0| && multiset(r) == multiset(r0)
    ensures SortedBetween(r, 0, i + 1)
  {
    r := r0;
    var key := r[i];
    var j := i - 1;
    assert r0[i := key] == r0;
    while j >= 0 && r[j] > key
      invariant -1 <= j < i && |r| == |r0|
      invariant ShiftState(r0, r, i, j, key)
    {
      ShiftStep(r0, r, i, j, key);
      r := r[j + 1 := r[j]];
      j := j - 1;
    }
    ShiftDone(r0, r, i, j, key);
    r := r[j + 1 := key];
  }

  /** The state of insertion sort's inner loop: the key has been lifted out
      of position `i`, the elements right of the hole at `j + 1` are larger
      than the key, and the other positions of `r[..i + 1]` are in order. */
  ghost predicate ShiftState(r0: seq<int>, r: seq<int>, i: int, j: int, key: int)
    requires -1 <= j < i < |r0| == |r|
  {
    && multiset(r[j + 1 := key]) == multiset(r0)
    && (forall k :: j + 1 < k <= i ==> r[k] > key)
    && (forall p, q :: 0 <= p < q <= i && p != j + 1 && q != j + 1 ==> r[p] <= r[q])
  }

  lemma ShiftStep(r0: seq<int>, r: seq<int>, i: int, j: int, key: int)
    requires 0 <= j < i < |r0| == |r|
    requires ShiftState(r0, r, i, j, key) && r[j] > key
    ensures ShiftState(r0, r[j + 1 := r[j]], i, j - 1, key)
  {
    var r' := r[j + 1 := r[j]];
    assert r'[j := key] == Swap(r[j + 1 := key], j, j + 1);
  }

  lemma ShiftDone(r0: seq<int>, r: seq<int>, i: int, j: int, key: int)
    requires -1 <= j < i < |r0| == |r|
    requires ShiftState(r0, r, i, j, key) && (j < 0 || r[j] <= key)
    ensures multiset(r[j + 1 := key]) == multiset(r0)
    ensures SortedBetween(r[j + 1 := key], 0, i + 1)
  {
    var r' := r[j + 1 := key];
    forall p, q | 0 <= p < q <= i ensures r'[p] <= r'[q] {
      if p == j + 1 {
        assert r'[q] == r[q];
      } else if q == j + 1 {
        assert r'[p] == r[p];
        if p < j {
          assert r[p] <= r[j];
        }
      }
    }
  }

  /** Lomuto partition of `r[low..high]` around the pivot `r[high]`: the
      result index `p` holds the pivot, smaller elements lie left of it and
      the others right of it. */
  method Partition(r0: seq<int>, low: int, high: int) returns (r: seq<int>, p: int)
    requires 0 <= low < high < |r0|
    ensures |r| == |r0| && low <= p <= high
    ensures SameOutside(r0, r, low, high + 1)
    ensures multiset(r) == multiset(r0)
    ensures forall k :: low <= k < p ==> r[k] < r[p]
    ensures forall k :: p < k <= high ==> r[p] <= r[k]
  {
    r := r0;
    var pivot := r[high];
    var i := low - 1;
    var j := low;
    while j < high
      invariant low - 1 <= i < j <= high && |r| == |r0|
      invariant r[high] == pivot
      invariant SameOutside(r0, r, low, high + 1)
      invariant multiset(r) == multiset(r0)
      invariant forall k :: low <= k <= i ==> r[k] < pivot
      invariant forall k :: i < k < j ==> pivot <= r[k]
    {
      if r[j] < pivot {
        i := i + 1;
        r := Swap(r, i, j);
      }
      j := j + 1;
    }
    r := Swap(r, i + 1, high);
    p := i + 1;
  }

  /** `r` and `r0` agree outside `[lo, hi)`. */
  ghost predicate SameOutside(r0: seq<int>, r: seq<int>, lo: int, hi: int) {
    |r| == |r0| && forall k :: 0 <= k < |r0| && !(lo <= k < hi) ==> r[k] == r0[k]
  }

  /** When two sequences agree outside a slice and hold the same multiset,
      the slice holds the same multiset too. */
  lemma SliceMultiset(r0: seq<int>, r: seq<int>, lo: int, hi: int)
    requires 0 <= lo <= hi <= |r0|
    requires SameOutside(r0, r, lo, hi) && multiset(r) == multiset(r0)
    ensures multiset(r[lo..hi]) == multiset(r0[lo..hi])
  {
    assert r == r[..lo] + r[lo..hi] + r[hi..];
    assert r0 == r0[..lo] + r0[lo..hi] + r0[hi..];
    assert r[..lo] == r0[..lo];
    assert r[hi..] == r0[hi..];
    var outside := multiset(r[..lo]) + multiset(r[hi..]);
    assert multiset(r) == multiset(r[lo..hi]) + outside;
    assert multiset(r0) == multiset(r0[lo..hi]) + outside;
    assert multiset(r[lo..hi]) == multiset(r) - outside;
    assert multiset(r0[lo..hi]) == multiset(r0) - outside;
  }

  /** Recursive quicksort of `r[low..high]` (both bounds inclusive, as in
      the source, where `sort(0, n - 1)` sorts everything). */
  method QuickSortRange(r0: seq<int>, low: int, high: int) returns (r: seq<int>)
    requires 0 <= low && high < |r0| && low - 1 <= high
    ensures SameOutside(r0, r, low, high + 1)
    ensures multiset(r) == multiset(r0)
    ensures SortedBetween(r, low, high + 1)
    decreases high - low
  {
    r := r0;
    if low < high {
      var p;
      r, p := Partition(r, low, high);
      ghost var r1 := r;
      r := QuickSortRange(r, low, p - 1);
      ghost var r2 := r;
      r := QuickSortRange(r, p + 1, high);
      QuickSortJoin(r1, r2, r, low, p, high);
    }
  }

  /** After both halves around the pivot are sorted, the whole range is sorted. */
  lemma QuickSortJoin(r1: seq<int>, r2: seq<int>, r: seq<int>, low: int, p: int, high: int)
    requires 0 <= low <= p <= high < |r1|
    requires forall k :: low <= k < p ==> r1[k] < r1[p]
    requires forall k :: p < k <= high ==> r1[p] <= r1[k]
    requires SameOutside(r1, r2, low, p) && multiset(r2) == multiset(r1) && SortedBetween(r2, low, p)
    requires SameOutside(r2, r, p + 1, high + 1) && multiset(r) == multiset(r2) && SortedBetween(r, p + 1, high + 1)
    ensures SortedBetween(r, low, high + 1)
  {
    SliceMultiset(r1, r2, low, p);
    BoundsSurvivePermutation(r1, r2, low, p, r1[p], true);
    SliceMultiset(r2, r, p + 1, high + 1);
    BoundsSurvivePermutation(r2, r, p + 1, high + 1, r1[p], false);
    assert r[p] == r1[p];
  }

  /** A bound that holds for every element of a slice still holds after the
      slice is permuted. */
  lemma BoundsSurvivePermutation(s: seq<int>, t: seq<int>, lo: int, hi: int, bound: int, below: bool)
    requires 0 <= lo <= hi <= |s| == |t|
    requires multiset(t[lo..hi]) == multiset(s[lo..hi])
    requires below ==> forall k :: lo <= k < hi ==> s[k] < bound
    requires !below ==> forall k :: lo <= k < hi ==> bound <= s[k]
    ensures below ==> forall k :: lo <= k < hi ==> t[k] < bound
    ensures !below ==> forall k :: lo <= k < hi ==> bound <= t[k]
  {
    forall k | lo <= k < hi
      ensures below ==> t[k] < bound
      ensures !below ==> bound <= t[k]
    {
      assert t[k] == t[lo..hi][k - lo];
      assert t[k] in multiset(s[lo..hi]);
      var m :| 0 <= m < hi - lo && s[lo..hi][m] == t[k];
      assert s[lo + m] == t[k];
    }
  }

  method QuickSort(a: seq<int>) returns (r: seq<int>)
    ensures Sorted(r) && multiset(r) == multiset(a)
  {
    r := QuickSortRange(a, 0, |a| - 1);
  }

  /** Merge of two sorted runs; on equal heads the left run goes first,
      which is what makes merge sort stable. */
  function Merge(left: seq<int>, right: seq<int>): (r: seq<int>)
    ensures multiset(r) == multiset(left) + multiset(right)
    ensures Sorted(left) && Sorted(right) ==> Sorted(r)
    ensures |left| > 0 && |right| > 0 && left[0] <= right[0] ==> r[0] == left[0]
    ensures |left| > 0 && |right| > 0 && left[0] > right[0] ==> r[0] == right[0]
    decreases |left| + |right|
  {
    if |left| == 0 then right
    else if |right| == 0 then left
    else if left[0] <= right[0] then
      var rest := Merge(left[1..], right);
      MergeStep(left, right, rest, true);
      [left[0]] + rest
    else
      var rest := Merge(left, right[1..]);
      MergeStep(left, right, rest, false);
      [right[0]] + rest
  }

  /** One step of `Merge`: the smaller head followed by the merge of what is left. */
  lemma MergeStep(left: seq<int>, right: seq<int>, rest: seq<int>, takeLeft: bool)
    requires |left| > 0 && |right| > 0
    requires takeLeft <==> left[0] <= right[0]
    requires takeLeft ==> multiset(rest) == multiset(left[1..]) + multiset(right)
    requires !takeLeft ==> multiset(rest) == multiset(left) + multiset(right[1..])
    requires takeLeft && Sorted(left[1..]) && Sorted(right) ==> Sorted(rest)
    requires !takeLeft && Sorted(left) && Sorted(right[1..]) ==> Sorted(rest)
    ensures var r := if takeLeft then [left[0]] + rest else [right[0]] + rest;
      multiset(r) == multiset(left) + multiset(right) &&
      (Sorted(left) && Sorted(right) ==> Sorted(r))
  {
    assert left == [left[0]] + left[1..];
    assert right == [right[0]] + right[1..];
    var x := if takeLeft then left[0] else right[0];
    assert multiset([x] + rest) == multiset{x} + multiset(rest);
    if Sorted(left) && Sorted(right) {
      SortedTail(left);
      SortedTail(right);
      if takeLeft {
        LowerBoundOfMerge(rest, left[1..], right, x);
      } else {
        LowerBoundOfMerge(rest, left, right[1..], x);
      }
      SortedCons(x, rest);
    }
  }

  lemma SortedCons(x: int, s: seq<int>)
    requires Sorted(s) && forall k :: 0 <= k < |s| ==> x <= s[k]
    ensures Sorted([x] + s)
  {
    var r := [x] + s;
    forall p, q | 0 <= p < q < |r| ensures r[p] <= r[q] {
      assert r[q] == s[q - 1];
      if p > 0 {
        assert r[p] == s[p - 1];
      }
    }
  }

  /** Every element of a sequence made of the elements of two sequences
      bounded below by `v` is bounded below by `v`. */
  lemma LowerBoundOfMerge(m: seq<int>, left: seq<int>, right: seq<int>, v: int)
    requires multiset(m) == multiset(left) + multiset(right)
    requires forall k :: 0 <= k < |left| ==> v <= left[k]
    requires forall k :: 0 <= k < |right| ==> v <= right[k]
    ensures forall k :: 0 <= k < |m| ==> v <= m[k]
  {
    forall k | 0 <= k < |m| ensures v <= m[k] {
      assert m[k] in multiset(m);
      if m[k] in multiset(left) {
        var i :| 0 <= i < |left| && left[i] == m[k];
      } else {
        var i :| 0 <= i < |right| && right[i] == m[k];
      }
    }
  }

  /** Top-down merge sort splitting at `floor(n / 2)`. */
  function MergeSort(a: seq<int>): (r: seq<int>)
    ensures Sorted(r) && multiset(r) == multiset(a)
    decreases |a|
  {
    if |a| <= 1 then a
    else
      var mid := |a| / 2;
      assert a == a[..mid] + a[mid..];
      Merge(MergeSort(a[..mid]), MergeSort(a[mid..]))
  }

  /** `isSorted`: false exactly when some element is smaller than its predecessor. */
  function IsSorted(a: seq<int>): (b: bool)
    ensures b <==> Sorted(a)
  {
    AdjacentSortedIsSorted(a);
    forall i | 1 <= i < |a| :: a[i - 1] <= a[i]
  }

  /** All five sorts return the same sequence for the same input. */
  method SortsAgree(a: seq<int>) returns (b: seq<int>, s: seq<int>, i: seq<int>, q: seq<int>, m: seq<int>)
    ensures b == s == i == q == m
    ensures Sorted(m) && multiset(m) == multiset(a)
  {
    b := BubbleSort(a);
    s := SelectionSort(a);
    i := InsertionSort(a);
    q := QuickSort(a);
    m := MergeSort(a);
    SortedPermutationUnique(b, m);
    SortedPermutationUnique(s, m);
    SortedPermutationUnique(i, m);
    SortedPermutationUnique(q, m);
  }
}
