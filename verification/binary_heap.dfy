/** The array-backed binary min-heap shared by every priority queue of the
    repository: `MinHeap` of `ts_test.ts` and the `PriorityQueue` classes of
    `project_ts/src/dijkstra.ts`, `project_ts/src/astar_heap.ts`,
    `project_ts/src/gbfs.ts` and `pathfinding-visualizer/algorithms.js`.
    Their comparators all order by one or two integer fields, so an entry
    carries a `Key` compared lexicographically. */
module BinaryHeap {
  import opened Wrappers

  /** The comparator's view of an entry: Dijkstra uses `(g, 0)`, A* uses
      `(f, -g)` (larger `g` first on equal `f`), GBFS uses `(h, 0)`. */
  datatype Key = Key(primary: int, secondary: int)

  /** `compare(a, b) < 0`. */
  predicate Less(a: Key, b: Key) {
    a.primary < b.primary || (a.primary == b.primary && a.secondary < b.secondary)
  }

  /** `compare(a, b) <= 0`. */
  predicate Le(a: Key, b: Key) {
    !Less(b, a)
  }

  datatype Item<V> = Item(value: V, key: Key)

  function Parent(i: int): int
    requires i > 0
  {
    (i - 1) / 2
  }

  /** Every entry's key is at least its parent's. */
  ghost predicate IsHeap<V>(h: seq<Item<V>>) {
    forall i :: 0 < i < |h| ==> Le(h[Parent(i)].key, h[i].key)
  }

  function Swap<V>(h: seq<Item<V>>, i: int, j: int): (r: seq<Item<V>>)
    requires 0 <= i < |h| && 0 <= j < |h|
    ensures |r| == |h| && r[i] == h[j] && r[j] == h[i]
    ensures forall k :: 0 <= k < |h| && k != i && k != j ==> r[k] == h[k]
    ensures multiset(r) == multiset(h)
  {
    h[i := h[j]][j := h[i]]
  }

  // ---------------------------------------------------------------- bubbleUp

  /** The heap order holds except between `idx` and its parent, and the
      parent of `idx` is no larger than the children of `idx`. */
  ghost predicate UpInv<V>(h: seq<Item<V>>, idx: int)
    requires 0 <= idx < |h|
  {
    (forall i :: 0 < i < |h| && i != idx ==> Le(h[Parent(i)].key, h[i].key))
    && (idx > 0 ==> forall i :: 0 < i < |h| && Parent(i) == idx ==> Le(h[Parent(idx)].key, h[i].key))
  }

  /** One swap of `bubbleUp` moves the defect to the parent. */
  lemma UpStep<V>(h: seq<Item<V>>, idx: int)
    requires 0 < idx < |h| && UpInv(h, idx) && Less(h[idx].key, h[Parent(idx)].key)
    ensures UpInv(Swap(h, idx, Parent(idx)), Parent(idx))
  {
    var p := Parent(idx);
    var h' := Swap(h, idx, p);
    forall i | 0 < i < |h| && i != p
      ensures Le(h'[Parent(i)].key, h'[i].key)
    {
      if Parent(i) == p && i != idx {
        assert Le(h[p].key, h[i].key);
      }
    }
    if p > 0 {
      forall i | 0 < i < |h| && Parent(i) == p
        ensures Le(h'[Parent(p)].key, h'[i].key)
      {
        assert Le(h[Parent(p)].key, h[p].key);
      }
    }
  }

  /** `bubbleUp`: swaps the entry at `idx` with its parent while it is
      strictly smaller. */
  function BubbleUp<V>(h: seq<Item<V>>, idx: int): (r: seq<Item<V>>)
    requires 0 <= idx < |h| && UpInv(h, idx)
    ensures |r| == |h| && multiset(r) == multiset(h) && IsHeap(r)
    decreases idx
  {
    if idx == 0 then h
    else if Less(h[idx].key, h[Parent(idx)].key) then
      UpStep(h, idx);
      BubbleUp(Swap(h, idx, Parent(idx)), Parent(idx))
    else h
  }

  /** `push`/`enqueue`: append, then bubble up. */
  function Push<V>(h: seq<Item<V>>, x: Item<V>): (r: seq<Item<V>>)
    requires IsHeap(h)
    ensures IsHeap(r)
    ensures |r| == |h| + 1
    ensures multiset(r) == multiset(h) + multiset{x}
  {
    BubbleUp(h + [x], |h|)
  }

  // -------------------------------------------------------------- bubbleDown

  /** The heap order holds except between `idx` and its children, and the
      parent of `idx` is no larger than those children. */
  ghost predicate DownInv<V>(h: seq<Item<V>>, idx: int)
    requires 0 <= idx < |h|
  {
    (forall i :: 0 < i < |h| && Parent(i) != idx ==> Le(h[Parent(i)].key, h[i].key))
    && (idx > 0 ==> forall i :: 0 < i < |h| && Parent(i) == idx ==> Le(h[Parent(idx)].key, h[i].key))
  }

  /** The index `bubbleDown` picks: the left child if strictly smaller, then
      the right child if strictly smaller than that. */
  function Smallest<V>(h: seq<Item<V>>, idx: int): (s: int)
    requires 0 <= idx < |h|
    ensures s == idx || (0 < s < |h| && Parent(s) == idx)
    ensures 0 <= s < |h|
    ensures forall i :: 0 < i < |h| && Parent(i) == idx ==> Le(h[s].key, h[i].key)
    ensures Le(h[s].key, h[idx].key)
    ensures s != idx ==> Less(h[s].key, h[idx].key)
  {
    var left := 2 * idx + 1;
    var right := left + 1;
    var s1 := if left < |h| && Less(h[left].key, h[idx].key) then left else idx;
    if right < |h| && Less(h[right].key, h[s1].key) then right else s1
  }

  /** One swap of `bubbleDown` moves the defect to the child. */
  lemma DownStep<V>(h: seq<Item<V>>, idx: int)
    requires 0 <= idx < |h| && DownInv(h, idx) && Smallest(h, idx) != idx
    ensures DownInv(Swap(h, idx, Smallest(h, idx)), Smallest(h, idx))
  {
    var s := Smallest(h, idx);
    var h' := Swap(h, idx, s);
    forall i | 0 < i < |h| && Parent(i) != s
      ensures Le(h'[Parent(i)].key, h'[i].key)
    {
      if i == idx {
        assert Le(h[Parent(idx)].key, h[s].key);
      }
    }
    forall i | 0 < i < |h| && Parent(i) == s
      ensures Le(h'[Parent(s)].key, h'[i].key)
    {
      assert Le(h[s].key, h[i].key);
    }
  }

  /** `bubbleDown`: swaps the entry at `idx` with its smallest child while
      that child is strictly smaller. */
  function BubbleDown<V>(h: seq<Item<V>>, idx: int): (r: seq<Item<V>>)
    requires 0 <= idx < |h| && DownInv(h, idx)
    ensures |r| == |h| && multiset(r) == multiset(h) && IsHeap(r)
    decreases |h| - idx
  {
    var s := Smallest(h, idx);
    if s != idx then
      DownStep(h, idx);
      BubbleDown(Swap(h, idx, s), s)
    else h
  }

  // ---------------------------------------------------------------- queries

  /** The root of a heap is a minimal entry. */
  lemma {:induction false} RootIsMin<V>(h: seq<Item<V>>, i: int)
    requires IsHeap(h) && 0 <= i < |h|
    ensures Le(h[0].key, h[i].key)
    decreases i
  {
    if i > 0 {
      RootIsMin(h, Parent(i));
    }
  }

  /** `pop`/`dequeue`: `None` (undefined) on an empty heap; otherwise the
      root, and the last entry moved to the root and bubbled down. */
  function Pop<V>(h: seq<Item<V>>): (r: Option<(Item<V>, seq<Item<V>>)>)
    requires IsHeap(h)
    ensures r.None? <==> |h| == 0
    ensures r.Some? ==> IsHeap(r.value.1) && |r.value.1| == |h| - 1
    ensures r.Some? ==> multiset(r.value.1) + multiset{r.value.0} == multiset(h)
    ensures r.Some? ==> forall x :: x in h ==> Le(r.value.0.key, x.key)
  {
    if |h| == 0 then None
    else
      assert forall x :: x in h ==> Le(h[0].key, x.key) by {
        forall x | x in h
          ensures Le(h[0].key, x.key)
        {
          var i :| 0 <= i < |h| && h[i] == x;
          RootIsMin(h, i);
        }
      }
      if |h| == 1 then
        assert h == [h[0]];
        Some((h[0], []))
      else
        var moved := [h[|h| - 1]] + h[1..|h| - 1];
        assert h == [h[0]] + h[1..|h| - 1] + [h[|h| - 1]];
        Some((h[0], BubbleDown(moved, 0)))
  }

  /** `peek`: the entry `pop` would return, without changing the heap. */
  function Peek<V>(h: seq<Item<V>>): (r: Option<Item<V>>)
    requires IsHeap(h)
    ensures r.None? <==> Pop(h).None?
    ensures r.Some? ==> r.value == Pop(h).value.0
  {
    if |h| == 0 then None else Some(h[0])
  }

  /** Popping until empty: the entries in pop order. */
  function Drain<V>(h: seq<Item<V>>): (r: seq<Item<V>>)
    requires IsHeap(h)
    ensures |r| == |h| && multiset(r) == multiset(h)
    ensures forall i, j :: 0 <= i < j < |r| ==> Le(r[i].key, r[j].key)
    decreases |h|
  {
    match Pop(h)
    case None => []
    case Some((top, rest)) =>
      var tail := Drain(rest);
      PrependMin(h, top, rest, tail);
      [top] + tail
  }

  /** Putting a minimal entry in front of the sorted rest keeps the order. */
  lemma PrependMin<V>(h: seq<Item<V>>, top: Item<V>, rest: seq<Item<V>>, tail: seq<Item<V>>)
    requires multiset(rest) + multiset{top} == multiset(h)
    requires forall x :: x in h ==> Le(top.key, x.key)
    requires multiset(tail) == multiset(rest)
    requires forall i, j :: 0 <= i < j < |tail| ==> Le(tail[i].key, tail[j].key)
    ensures multiset([top] + tail) == multiset(h)
    ensures forall i, j :: 0 <= i < j < |[top] + tail| ==> Le(([top] + tail)[i].key, ([top] + tail)[j].key)
  {
    forall j | 0 <= j < |tail|
      ensures Le(top.key, tail[j].key)
    {
      assert tail[j] in multiset(rest);
      assert tail[j] in multiset(h);
    }
  }

  // ------------------------------------------------------ the ts_test MinHeap

  /** `MinHeap.enqueue(value, priority)`. */
  function Enqueue<V>(h: seq<Item<V>>, value: V, priority: int): (r: seq<Item<V>>)
    requires IsHeap(h)
    ensures IsHeap(r) && |r| == |h| + 1
    ensures multiset(r) == multiset(h) + multiset{Item(value, Key(priority, 0))}
  {
    Push(h, Item(value, Key(priority, 0)))
  }

  /** `MinHeap.dequeue()`: the value of a minimal entry, or `None`. */
  function Dequeue<V>(h: seq<Item<V>>): (r: (Option<V>, seq<Item<V>>))
    requires IsHeap(h)
    ensures IsHeap(r.1)
    ensures r.0.None? <==> |h| == 0
    ensures |h| == 0 ==> r.1 == h
    ensures |h| > 0 ==> |r.1| == |h| - 1
    ensures |h| > 0 ==> exists x :: x in h && x.value == r.0.value && forall y :: y in h ==> Le(x.key, y.key)
  {
    match Pop(h)
    case None => (None, h)
    case Some((top, rest)) =>
      assert top in multiset(h);
      (Some(top.value), rest)
  }

  /** The values of `Drain`. */
  function Values<V>(s: seq<Item<V>>): (r: seq<V>)
    ensures |r| == |s| && forall i :: 0 <= i < |s| ==> r[i] == s[i].value
  {
    seq(|s|, i requires 0 <= i < |s| => s[i].value)
  }

  /** The demonstration of `ts_test.ts`: enqueue D(4), A(1), C(3), B(2) and
      dequeue until empty; the order is A, B, C, D. */
  lemma DemoOrder()
    ensures var h := Enqueue(Enqueue(Enqueue(Enqueue([], 'D', 4), 'A', 1), 'C', 3), 'B', 2);
      Values(Drain(h)) == ['A', 'B', 'C', 'D']
  {
    var h := Enqueue(Enqueue(Enqueue(Enqueue([], 'D', 4), 'A', 1), 'C', 3), 'B', 2);
    DrainDistinct(h);
  }

  /** Any heap holding the four demonstration entries drains as A, B, C, D. */
  lemma DrainDistinct(h: seq<Item<char>>)
    requires IsHeap(h)
    requires multiset(h) == multiset{Item('D', Key(4, 0)), Item('A', Key(1, 0)), Item('C', Key(3, 0)), Item('B', Key(2, 0))}
    ensures Values(Drain(h)) == ['A', 'B', 'C', 'D']
  {
    FourInOrder(Drain(h));
  }

  /** A key-sorted arrangement of the four demonstration entries. */
  lemma FourInOrder(d: seq<Item<char>>)
    requires multiset(d) == multiset{Item('D', Key(4, 0)), Item('A', Key(1, 0)), Item('C', Key(3, 0)), Item('B', Key(2, 0))}
    requires forall i, j :: 0 <= i < j < |d| ==> Le(d[i].key, d[j].key)
    ensures Values(d) == ['A', 'B', 'C', 'D']
  {
    FourSorted(d);
    var v := Values(d);
    assert v[0] == 'A' && v[1] == 'B' && v[2] == 'C' && v[3] == 'D';
  }

  lemma FourSorted(d: seq<Item<char>>)
    requires multiset(d) == multiset{Item('D', Key(4, 0)), Item('A', Key(1, 0)), Item('C', Key(3, 0)), Item('B', Key(2, 0))}
    requires forall i, j :: 0 <= i < j < |d| ==> Le(d[i].key, d[j].key)
    ensures d == [Item('A', Key(1, 0)), Item('B', Key(2, 0)), Item('C', Key(3, 0)), Item('D', Key(4, 0))]
  {
    var want := [Item('A', Key(1, 0)), Item('B', Key(2, 0)), Item('C', Key(3, 0)), Item('D', Key(4, 0))];
    FourWanted(want);
    SortedUnique(d, want);
  }

  lemma FourWanted(want: seq<Item<char>>)
    requires want == [Item('A', Key(1, 0)), Item('B', Key(2, 0)), Item('C', Key(3, 0)), Item('D', Key(4, 0))]
    ensures multiset(want) == multiset{Item('D', Key(4, 0)), Item('A', Key(1, 0)), Item('C', Key(3, 0)), Item('B', Key(2, 0))}
    ensures forall i, j :: 0 <= i < j < |want| ==> Less(want[i].key, want[j].key)
  {
    assert want == [want[0]] + [want[1]] + [want[2]] + [want[3]];
  }

  /** A key-sorted sequence holding the same entries as a sequence with
      strictly increasing keys is that sequence: with distinct keys the pop
      order is determined. */
  lemma {:induction false} SortedUnique<V>(d: seq<Item<V>>, want: seq<Item<V>>)
    requires multiset(d) == multiset(want)
    requires forall i, j :: 0 <= i < j < |d| ==> Le(d[i].key, d[j].key)
    requires forall i, j :: 0 <= i < j < |want| ==> Less(want[i].key, want[j].key)
    ensures d == want
    decreases |d|
  {
    assert |d| == |want| by {
      assert |multiset(d)| == |d| && |multiset(want)| == |want|;
    }
    if |d| > 0 {
      SameHead(d, want);
      SortedUnique(d[1..], want[1..]);
    }
  }

  /** The first entries agree, and so do the entries after them. */
  lemma SameHead<V>(d: seq<Item<V>>, want: seq<Item<V>>)
    requires |d| > 0 && |d| == |want| && multiset(d) == multiset(want)
    requires forall i, j :: 0 <= i < j < |d| ==> Le(d[i].key, d[j].key)
    requires forall i, j :: 0 <= i < j < |want| ==> Less(want[i].key, want[j].key)
    ensures d[0] == want[0] && multiset(d[1..]) == multiset(want[1..])
  {
    assert d[0] in multiset(want);
    var j :| 0 <= j < |want| && want[j] == d[0];
    assert want[0] in multiset(d);
    var k :| 0 <= k < |d| && d[k] == want[0];
    assert Le(d[0].key, d[k].key);
    assert j == 0;
    assert d == [d[0]] + d[1..] && want == [want[0]] + want[1..];
    assert multiset(d) == multiset{d[0]} + multiset(d[1..]);
    assert multiset(want) == multiset{want[0]} + multiset(want[1..]);
    assert multiset(d[1..]) == multiset(d) - multiset{d[0]};
    assert multiset(want[1..]) == multiset(want) - multiset{want[0]};
  }
}
