/** Facts about integer sequences shared by the sorting, searching and
    sequence-transforming algorithms. */
module Sequences {

  /** `s[lo..hi]` is in nondecreasing order. */
  ghost predicate SortedBetween(s: seq<int>, lo: int, hi: int)
    requires 0 <= lo <= hi <= |s|
  {
    forall i, j :: lo <= i < j < hi ==> s[i] <= s[j]
  }

  /** The whole sequence is in nondecreasing order. */
  ghost predicate Sorted(s: seq<int>) {
    forall i, j :: 0 <= i < j < |s| ==> s[i] <= s[j]
  }

  /** Every element is strictly smaller than the next one. */
  ghost predicate StrictlySorted(s: seq<int>) {
    forall i, j :: 0 <= i < j < |s| ==> s[i] < s[j]
  }

  /** Neighbouring elements are in order; for integers this is the same as `Sorted`. */
  ghost predicate AdjacentSorted(s: seq<int>) {
    forall i :: 1 <= i < |s| ==> s[i - 1] <= s[i]
  }

  lemma {:induction false} AdjacentSortedIsSorted(s: seq<int>)
    ensures AdjacentSorted(s) <==> Sorted(s)
  {
    if AdjacentSorted(s) {
      forall i, j | 0 <= i < j < |s|
        ensures s[i] <= s[j]
      {
        var k := i;
        while k < j
          invariant i <= k <= j
          invariant s[i] <= s[k]
        {
          k := k + 1;
        }
      }
    }
  }

  /** `s` with the elements at `i` and `j` exchanged. */
  function Swap<T>(s: seq<T>, i: int, j: int): (r: seq<T>)
    requires 0 <= i < |s| && 0 <= j < |s|
    ensures |r| == |s| && r[i] == s[j] && r[j] == s[i]
    ensures forall k :: 0 <= k < |s| && k != i && k != j ==> r[k] == s[k]
    ensures multiset(r) == multiset(s)
  {
    s[i := s[j]][j := s[i]]
  }

  /** Sum of `s[lo..hi]`. */
  function SumRange(s: seq<int>, lo: int, hi: int): int
    requires 0 <= lo <= hi <= |s|
    decreases hi - lo
  {
    if lo == hi then 0 else s[lo] + SumRange(s, lo + 1, hi)
  }

  lemma {:induction false} SumRangeSplitLast(s: seq<int>, lo: int, hi: int)
    requires 0 <= lo < hi <= |s|
    ensures SumRange(s, lo, hi) == SumRange(s, lo, hi - 1) + s[hi - 1]
    decreases hi - lo
  {
    if lo + 1 < hi {
      SumRangeSplitLast(s, lo + 1, hi);
    }
  }

  /** Sum of a whole sequence. */
  function Sum(s: seq<int>): int {
    SumRange(s, 0, |s|)
  }

  /** Two sorted sequences holding the same multiset of values are equal:
      every correct sort of a given input returns the same sequence. */
  lemma {:induction false} SortedPermutationUnique(a: seq<int>, b: seq<int>)
    requires Sorted(a) && Sorted(b) && multiset(a) == multiset(b)
    ensures a == b
    decreases |a|
  {
    assert |a| == |multiset(a)| == |multiset(b)| == |b|;
    if |a| > 0 {
      var x, y := a[0], b[0];
      // The first element of each is the minimum of the common multiset.
      assert x in multiset(b);
      assert y in multiset(a);
      SortedHeadIsMinimum(a, y);
      SortedHeadIsMinimum(b, x);
      var ta, tb := a[1..], b[1..];
      assert a == [x] + ta;
      assert b == [y] + tb;
      assert x == y;
      assert multiset(a) == multiset([x]) + multiset(ta);
      assert multiset(b) == multiset([x]) + multiset(tb);
      assert multiset(ta) == multiset(a) - multiset([x]);
      assert multiset(tb) == multiset(b) - multiset([x]);
      SortedTail(a);
      SortedTail(b);
      SortedPermutationUnique(ta, tb);
    }
  }

  lemma SortedHeadIsMinimum(s: seq<int>, v: int)
    requires Sorted(s) && v in multiset(s)
    ensures |s| > 0 && s[0] <= v
  {
    var i :| 0 <= i < |s| && s[i] == v;
  }

  lemma SortedTail(s: seq<int>)
    requires Sorted(s) && |s| > 0
    ensures Sorted(s[1..])
  {
  }
}
