/** Linked-list reordering, `project_ts/src/reorder-list.ts`: the list
    a0, a1, ..., a(n-1) becomes a0, a(n-1), a1, a(n-2), ...  The in-place
    version is modelled on the node order, as sequence transformations; the
    array-assisted version is modelled on the `next` links it writes. */
module ReorderList {

  /** A singly linked list: `null` is `Nil`. */
  datatype List<T> = Nil | Cons(val: T, next: List<T>)

  /** `createListFromArray`. */
  function FromSeq<T>(s: seq<T>): (r: List<T>)
    ensures r.Nil? <==> |s| == 0
    ensures |s| > 0 ==> r.val == s[0]
  {
    if |s| == 0 then Nil else Cons(s[0], FromSeq(s[1..]))
  }

  /** `listToArray`. */
  function ToSeq<T>(l: List<T>): (r: seq<T>)
    ensures |r| == 0 <==> l.Nil?
    ensures l.Cons? ==> r[0] == l.val
  {
    match l
    case Nil => []
    case Cons(v, rest) => [v] + ToSeq(rest)
  }

  /** Building a list from an array and reading it back gives the array. */
  lemma {:induction false} ToSeqFromSeq<T>(s: seq<T>)
    ensures ToSeq(FromSeq(s)) == s
    decreases |s|
  {
    if |s| > 0 {
      ToSeqFromSeq(s[1..]);
    }
  }

  /** Every list is the one built from its own contents. */
  lemma {:induction false} FromSeqToSeq<T>(l: List<T>)
    ensures FromSeq(ToSeq(l)) == l
  {
    match l
    case Nil =>
    case Cons(v, rest) =>
      FromSeqToSeq(rest);
      assert ([v] + ToSeq(rest))[1..] == ToSeq(rest);
  }

  // ------------------------------------------------------------ the target

  /** The position in the original list of the node that ends up at `k`. */
  function ZigzagIndex(n: int, k: int): (i: int)
    requires 0 <= k < n
    ensures 0 <= i < n
  {
    if k % 2 == 0 then k / 2 else n - 1 - k / 2
  }

  /** a0, a(n-1), a1, a(n-2), ... */
  function Zigzag<T>(s: seq<T>): (r: seq<T>)
    ensures |r| == |s|
    ensures forall k :: 0 <= k < |s| ==> r[k] == s[ZigzagIndex(|s|, k)]
  {
    seq(|s|, k requires 0 <= k < |s| => s[ZigzagIndex(|s|, k)])
  }

  // ------------------------------------------------------------- findMiddle

  /** The slow/fast pointer loop of `findMiddle` on node indices. */
  function MiddleLoop(n: int, slow: int, fast: int): (r: int)
    requires 0 <= fast < n && fast == 2 * slow
    ensures r == (n - 1) / 2
    decreases n - fast
  {
    if fast + 1 < n && fast + 2 < n then MiddleLoop(n, slow + 1, fast + 2) else slow
  }

  /** `findMiddle`: the first middle node of a list of `n` nodes. */
  function FindMiddle(n: int): (r: int)
    requires n >= 1
    ensures 0 <= r < n
    ensures r == (n - 1) / 2
  {
    MiddleLoop(n, 0, 0)
  }

  // ------------------------------------------------------------ reverseList

  /** The loop of `reverseList`: `prev` is the reversed part, `cur` the rest. */
  function ReverseLoop<T>(prev: seq<T>, cur: seq<T>): (r: seq<T>)
    ensures |r| == |prev| + |cur|
    ensures forall k :: 0 <= k < |cur| ==> r[k] == cur[|cur| - 1 - k]
    ensures r[|cur|..] == prev
    decreases |cur|
  {
    if |cur| == 0 then prev else ReverseLoop([cur[0]] + prev, cur[1..])
  }

  /** `reverseList`. */
  function ReverseList<T>(s: seq<T>): (r: seq<T>)
    ensures |r| == |s|
    ensures forall k :: 0 <= k < |s| ==> r[k] == s[|s| - 1 - k]
  {
    ReverseLoop([], s)
  }

  /** Reversing twice restores the list. */
  lemma ReverseTwice<T>(s: seq<T>)
    ensures ReverseList(ReverseList(s)) == s
  {
    var r := ReverseList(s);
    forall k | 0 <= k < |s|
      ensures ReverseList(r)[k] == s[k]
    {
      assert ReverseList(r)[k] == r[|s| - 1 - k];
    }
  }

  /** Reversal keeps the nodes. */
  lemma {:induction false} ReverseKeeps<T>(prev: seq<T>, cur: seq<T>)
    ensures multiset(ReverseLoop(prev, cur)) == multiset(prev) + multiset(cur)
    decreases |cur|
  {
    if |cur| > 0 {
      ReverseKeeps([cur[0]] + prev, cur[1..]);
      assert cur == [cur[0]] + cur[1..];
    }
  }

  // ------------------------------------------------------------- mergeLists

  /** `mergeLists`: alternates the nodes of `first` and `second`; once
      `second` runs out the rest of `first` follows.  The source dereferences
      `firstNext!`, so `first` must be at least as long as `second`. */
  function MergeLists<T>(first: seq<T>, second: seq<T>): (r: seq<T>)
    requires |second| <= |first|
    ensures |r| == |first| + |second|
    ensures multiset(r) == multiset(first) + multiset(second)
    decreases |second|
  {
    if |second| == 0 then first
    else
      var rest := MergeLists(first[1..], second[1..]);
      assert first == [first[0]] + first[1..];
      assert second == [second[0]] + second[1..];
      [first[0], second[0]] + rest
  }

  /** Position `k` of the merge: alternately from `first` and `second`
      while both last, then the rest of `first`. */
  lemma {:induction false} MergeAt<T>(first: seq<T>, second: seq<T>, k: int)
    requires |second| <= |first| && 0 <= k < |first| + |second|
    ensures MergeLists(first, second)[k] ==
      if k >= 2 * |second| then first[k - |second|]
      else if k % 2 == 0 then first[k / 2] else second[k / 2]
    decreases |second|
  {
    if |second| > 0 && k >= 2 {
      assert (k - 2) / 2 == k / 2 - 1 && (k - 2) % 2 == k % 2;
      MergeAt(first[1..], second[1..], k - 2);
    }
  }

  // ------------------------------------------------------------ reorderList

  /** `reorderList`: split after the middle node, reverse the second half
      and merge the halves; lists of zero or one node are left as they are. */
  function Reorder<T>(s: seq<T>): (r: seq<T>)
    ensures |s| <= 1 ==> r == s
    ensures |r| == |s|
    ensures multiset(r) == multiset(s)
  {
    if |s| <= 1 then s
    else
      var mid := FindMiddle(|s|);
      ReverseKeeps([], s[mid + 1..]);
      assert s == s[..mid + 1] + s[mid + 1..];
      MergeLists(s[..mid + 1], ReverseList(s[mid + 1..]))
  }

  /** Position `k` of the merged halves holds the node the zigzag order puts there. */
  lemma MergedHalvesAt<T>(s: seq<T>, first: seq<T>, second: seq<T>, k: int)
    requires |s| > 1 && first == s[..(|s| - 1) / 2 + 1] && second == ReverseList(s[(|s| - 1) / 2 + 1..])
    requires 0 <= k < |s|
    ensures MergeLists(first, second)[k] == s[ZigzagIndex(|s|, k)]
  {
    HalvesPick(s, first, second, k);
    MergeAt(first, second, k);
  }

  /** The node `MergeAt` picks for position `k` of the merged halves is the
      one the zigzag order puts there. */
  lemma HalvesPick<T>(s: seq<T>, first: seq<T>, second: seq<T>, k: int)
    requires |s| > 1 && first == s[..(|s| - 1) / 2 + 1] && second == ReverseList(s[(|s| - 1) / 2 + 1..])
    requires 0 <= k < |s|
    ensures |second| <= |first| && |first| + |second| == |s|
    ensures (if k >= 2 * |second| then first[k - |second|]
      else if k % 2 == 0 then first[k / 2] else second[k / 2]) == s[ZigzagIndex(|s|, k)]
  {
    var n := |s|;
    var mid := (n - 1) / 2;
    var b := n - mid - 1;
    var h := k / 2;
    assert |first| == mid + 1 && |second| == b;
    ZigzagHalves(n, mid, b, k);
    if k >= 2 * b {
      assert first[k - b] == s[k - b];
    } else if k % 2 == 0 {
      assert first[h] == s[h];
    } else {
      var back := s[mid + 1..];
      assert second[h] == back[b - 1 - h];
    }
  }

  /** Where the zigzag index of `k` falls in the front half of `mid + 1`
      cells and the back half of `n - mid - 1`, as `MergeLists` reads them. */
  lemma ZigzagHalves(n: int, mid: int, b: int, k: int)
    requires 1 < n && 0 <= k < n && mid == (n - 1) / 2 && b == n - mid - 1
    ensures b <= mid + 1
    ensures k >= 2 * b ==> k - b <= mid && ZigzagIndex(n, k) == k - b
    ensures k < 2 * b && k % 2 == 0 ==> k / 2 <= mid && ZigzagIndex(n, k) == k / 2
    ensures k < 2 * b && k % 2 != 0 ==> k / 2 < b && ZigzagIndex(n, k) == mid + 1 + (b - 1 - k / 2)
  {
  }

  /** `Reorder` on two or more nodes merges the front half with the
      reversed back half. */
  lemma ReorderUnfold<T>(s: seq<T>)
    requires |s| > 1
    ensures Reorder(s) == MergeLists(s[..(|s| - 1) / 2 + 1], ReverseList(s[(|s| - 1) / 2 + 1..]))
  {
  }

  /** Element by element, the in-place reordering is the zigzag order. */
  lemma ReorderAt<T>(s: seq<T>)
    ensures forall k :: 0 <= k < |s| ==> Reorder(s)[k] == s[ZigzagIndex(|s|, k)]
  {
    if |s| > 1 {
      ReorderUnfold(s);
      MergedHalvesAll(s, s[..(|s| - 1) / 2 + 1], ReverseList(s[(|s| - 1) / 2 + 1..]));
    }
  }

  lemma MergedHalvesAll<T>(s: seq<T>, first: seq<T>, second: seq<T>)
    requires |s| > 1 && first == s[..(|s| - 1) / 2 + 1] && second == ReverseList(s[(|s| - 1) / 2 + 1..])
    ensures |MergeLists(first, second)| == |s|
    ensures forall k :: 0 <= k < |s| ==> MergeLists(first, second)[k] == s[ZigzagIndex(|s|, k)]
  {
    forall k | 0 <= k < |s|
      ensures MergeLists(first, second)[k] == s[ZigzagIndex(|s|, k)]
    {
      MergedHalvesAt(s, first, second, k);
    }
  }

  /** The in-place reordering produces the zigzag order. */
  lemma ReorderIsZigzag<T>(s: seq<T>)
    ensures Reorder(s) == Zigzag(s)
  {
    ReorderAt(s);
  }

  /** The reordering is a permutation that keeps the length. */
  lemma ZigzagIsPermutation<T>(s: seq<T>)
    ensures |Zigzag(s)| == |s| && multiset(Zigzag(s)) == multiset(s)
  {
    ReorderIsZigzag(s);
  }

  /** Five nodes come out as the first, last, second, fourth and middle. */
  lemma FiveNodes<T>(s: seq<T>)
    requires |s| == 5
    ensures Reorder(s) == [s[0], s[4], s[1], s[3], s[2]]
  {
    ReorderAt(s);
    assert ZigzagIndex(5, 1) == 4 && ZigzagIndex(5, 3) == 3;
  }

  /** Six nodes come out as the first, last, second, fifth, third and fourth. */
  lemma SixNodes<T>(s: seq<T>)
    requires |s| == 6
    ensures Reorder(s) == [s[0], s[5], s[1], s[4], s[2], s[3]]
  {
    ReorderAt(s);
    assert ZigzagIndex(6, 1) == 5 && ZigzagIndex(6, 3) == 4 && ZigzagIndex(6, 5) == 3;
  }

  /** The odd-length example of the demonstration. */
  lemma OddExample()
    ensures Reorder([1, 2, 3, 4, 5]) == [1, 5, 2, 4, 3]
  {
    FiveNodes([1, 2, 3, 4, 5]);
  }

  /** The even-length example of the demonstration. */
  lemma EvenExample()
    ensures Reorder([1, 2, 3, 4, 5, 6]) == [1, 6, 2, 5, 3, 4]
  {
    SixNodes([1, 2, 3, 4, 5, 6]);
  }

  // --------------------------------------------------- reorderListWithArray

  /** The `next` links of a fresh list of `n` nodes, `-1` for `null`. */
  function InitialLinks(n: nat): (next: seq<int>)
    ensures |next| == n
    ensures forall i :: 0 <= i < n ==> next[i] == (if i + 1 < n then i + 1 else -1)
  {
    seq(n, i requires 0 <= i < n => if i + 1 < n then i + 1 else -1)
  }

  /** The two-pointer loop of `reorderListWithArray` and its final
      `nodes[left].next = null`: links left to right, right to left + 1. */
  function ArrayLinks(n: int, left: int, right: int, next: seq<int>): (r: seq<int>)
    requires |next| == n && n >= 1 && 0 <= left && left + right == n - 1 && left <= right + 1
    requires forall k :: 0 <= k < 2 * left && k < n - 1 ==> next[ZigzagIndex(n, k)] == ZigzagIndex(n, k + 1)
    ensures |r| == n
    ensures forall k :: 0 <= k < n - 1 ==> r[ZigzagIndex(n, k)] == ZigzagIndex(n, k + 1)
    ensures r[ZigzagIndex(n, n - 1)] == -1
    decreases right - left
  {
    if left < right then
      var next1 := next[left := right];
      assert next1[ZigzagIndex(n, 2 * left)] == ZigzagIndex(n, 2 * left + 1);
      if left + 1 >= right then
        assert ZigzagIndex(n, n - 1) == left + 1;
        next1[left + 1 := -1]
      else
        var next2 := next1[right := left + 1];
        assert next2[ZigzagIndex(n, 2 * left + 1)] == ZigzagIndex(n, 2 * left + 2);
        ArrayLinks(n, left + 1, right - 1, next2)
    else
      assert ZigzagIndex(n, n - 1) == left;
      next[left := -1]
  }

  /** Follows `next` links from `cur`, as `listToArray` does; `fuel` bounds
      the walk. */
  function Walk(next: seq<int>, cur: int, fuel: nat): (r: seq<int>)
    ensures forall i :: 0 <= i < |r| ==> 0 <= r[i] < |next|
    ensures |r| <= fuel
    decreases fuel
  {
    if fuel == 0 || cur < 0 || cur >= |next| then [] else [cur] + Walk(next, next[cur], fuel - 1)
  }

  /** Following the links written by the loop visits the nodes in zigzag
      order from position `j` on and then reaches `null`. */
  lemma {:induction false} WalkZigzag(next: seq<int>, n: int, j: int)
    requires |next| == n && 0 <= j < n
    requires forall k :: 0 <= k < n - 1 ==> next[ZigzagIndex(n, k)] == ZigzagIndex(n, k + 1)
    requires next[ZigzagIndex(n, n - 1)] == -1
    ensures Walk(next, ZigzagIndex(n, j), n - j + 1) == seq(n - j, i requires 0 <= i < n - j => ZigzagIndex(n, j + i))
    decreases n - j
  {
    var z := ZigzagIndex(n, j);
    if j == n - 1 {
      assert Walk(next, -1, 1) == [];
    } else {
      WalkZigzag(next, n, j + 1);
    }
  }

  /** `reorderListWithArray`: the values read along the rewritten links. */
  function ReorderWithArray<T>(s: seq<T>): (r: seq<T>)
    ensures |s| <= 1 ==> r == s
  {
    if |s| <= 1 then s
    else
      var order := Walk(ArrayLinks(|s|, 0, |s| - 1, InitialLinks(|s|)), 0, |s| + 1);
      seq(|order|, i requires 0 <= i < |order| => s[order[i]])
  }

  /** The links written by the loop, followed from the head, visit every
      node in zigzag order and end in `null`. */
  lemma ArrayOrder(n: int)
    requires n > 1
    ensures var order := Walk(ArrayLinks(n, 0, n - 1, InitialLinks(n)), 0, n + 1);
      |order| == n && forall i :: 0 <= i < n ==> order[i] == ZigzagIndex(n, i)
  {
    var next := ArrayLinks(n, 0, n - 1, InitialLinks(n));
    WalkZigzag(next, n, 0);
    assert ZigzagIndex(n, 0) == 0;
  }

  /** Element by element, the array-assisted reordering is the zigzag order. */
  lemma WithArrayAt<T>(s: seq<T>)
    ensures |ReorderWithArray(s)| == |s|
    ensures forall k :: 0 <= k < |s| ==> ReorderWithArray(s)[k] == s[ZigzagIndex(|s|, k)]
  {
    if |s| > 1 {
      ArrayOrder(|s|);
    }
  }

  /** The array-assisted reordering also produces the zigzag order, so the
      two solutions agree on every list. */
  lemma ReorderingsAgree<T>(s: seq<T>)
    ensures ReorderWithArray(s) == Zigzag(s)
    ensures ReorderWithArray(s) == Reorder(s)
  {
    ReorderIsZigzag(s);
    WithArrayAt(s);
  }
}
