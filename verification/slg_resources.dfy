/** The resource algorithms of the strategy-game module: the priority-driven
    allocation of `ResourceOptimizer.optimizeResourceAllocation` and the
    bounded knapsack of `ResourceOptimizer.knapsackOptimization`.  Numbers
    are integers. */
module SlgResources {

  function Min(a: int, b: int): int { if a <= b then a else b }

  function Max(a: int, b: int): int { if a >= b then a else b }

  // ------------------------------------------------------------ allocation

  datatype Requirement = Requirement(resource: string, amount: int, priority: int, minAllocation: int)

  /** `m[k] || 0`: the entry, 0 when the key is absent. */
  function Get(m: map<string, int>, k: string): int {
    if k in m then m[k] else 0
  }

  /** The resources the requirements name. */
  function Resources(reqs: seq<Requirement>): set<string> {
    set i | 0 <= i < |reqs| :: reqs[i].resource
  }

  /** No two requirements name the same resource. */
  predicate DistinctResources(reqs: seq<Requirement>) {
    forall i, j :: 0 <= i < j < |reqs| ==> reqs[i].resource != reqs[j].resource
  }

  predicate SortedByPriority(s: seq<Requirement>) {
    forall i, j :: 0 <= i < j < |s| ==> s[i].priority >= s[j].priority
  }

  /** The requirements of priority `p`, in their order. */
  function WithPriority(s: seq<Requirement>, p: int): seq<Requirement> {
    if s == [] then [] else (if s[0].priority == p then [s[0]] else []) + WithPriority(s[1..], p)
  }

  /** No priority above `b`. */
  predicate AtMost(s: seq<Requirement>, b: int) {
    forall i :: 0 <= i < |s| ==> s[i].priority <= b
  }

  /** Places `x` after the entries of higher priority and before the rest. */
  function InsertByPriority(x: Requirement, s: seq<Requirement>): (r: seq<Requirement>)
    requires SortedByPriority(s)
    ensures SortedByPriority(r)
    ensures multiset(r) == multiset(s) + multiset{x}
    ensures forall b :: AtMost(s, b) && x.priority <= b ==> AtMost(r, b)
  {
    if s == [] || s[0].priority <= x.priority then
      SortedCons(x, s);
      [x] + s
    else
      var rest := InsertByPriority(x, s[1..]);
      assert s == [s[0]] + s[1..];
      assert AtMost(s[1..], s[0].priority);
      SortedCons(s[0], rest);
      [s[0]] + rest
  }

  /** An entry followed by a sorted list of no higher priority is sorted,
      and a list under a bound keeps it when the entry is under it too. */
  lemma SortedCons(y: Requirement, t: seq<Requirement>)
    requires SortedByPriority(t)
    ensures AtMost(t, y.priority) ==> SortedByPriority([y] + t)
    ensures forall b :: AtMost(t, b) && y.priority <= b ==> AtMost([y] + t, b)
  {
    var r := [y] + t;
    assert forall j :: 0 < j < |r| ==> r[j] == t[j - 1];
  }

  /** Insertion puts `x` in front of the other entries of its priority. */
  lemma {:induction false} InsertStable(x: Requirement, s: seq<Requirement>, p: int)
    requires SortedByPriority(s)
    ensures WithPriority(InsertByPriority(x, s), p) == (if x.priority == p then [x] else []) + WithPriority(s, p)
  {
    var r := InsertByPriority(x, s);
    if s == [] || s[0].priority <= x.priority {
      assert r[1..] == s;
    } else {
      InsertStable(x, s[1..], p);
      assert r[1..] == InsertByPriority(x, s[1..]);
    }
  }

  /** `requirements.sort((a, b) => b.priority - a.priority)`: the array
      sort is stable, so this is a stable sort by descending priority. */
  function SortByPriority(s: seq<Requirement>): (r: seq<Requirement>)
    ensures SortedByPriority(r)
    ensures multiset(r) == multiset(s)
  {
    if s == [] then [] else
      assert s == [s[0]] + s[1..];
      InsertByPriority(s[0], SortByPriority(s[1..]))
  }

  /** The sort is stable: the requirements of each priority keep their
      order. */
  lemma {:induction false} SortStable(s: seq<Requirement>, p: int)
    ensures WithPriority(SortByPriority(s), p) == WithPriority(s, p)
  {
    if s != [] {
      SortStable(s[1..], p);
      InsertStable(s[0], SortByPriority(s[1..]), p);
    }
  }

  /** The first loop: each requirement sets its resource's allocation to its
      minimum, capped by what is available; a later requirement for the same
      resource overwrites an earlier one. */
  function MinPass(reqs: seq<Requirement>, resources: map<string, int>, alloc: map<string, int>): (r: map<string, int>)
    ensures r.Keys == alloc.Keys + Resources(reqs)
    ensures forall k :: k in r && k !in Resources(reqs) ==> r[k] == alloc[k]
    ensures (forall k :: k in alloc ==> alloc[k] <= Get(resources, k)) ==>
      forall k :: k in r ==> r[k] <= Get(resources, k)
  {
    if reqs == [] then
      alloc
    else
      var q := reqs[0];
      ResourcesCons(reqs);
      MinPass(reqs[1..], resources, alloc[q.resource := Min(q.minAllocation, Get(resources, q.resource))])
  }

  lemma ResourcesCons(reqs: seq<Requirement>)
    requires reqs != []
    ensures Resources(reqs) == {reqs[0].resource} + Resources(reqs[1..])
  {
    forall k | k in Resources(reqs) ensures k in {reqs[0].resource} + Resources(reqs[1..]) {
      var i :| 0 <= i < |reqs| && reqs[i].resource == k;
      if i > 0 {
        assert reqs[1..][i - 1] == reqs[i];
      }
    }
    forall k | k in Resources(reqs[1..]) ensures k in Resources(reqs) {
      var i :| 0 <= i < |reqs[1..]| && reqs[1..][i].resource == k;
      assert reqs[i + 1] == reqs[1..][i];
    }
    assert reqs[0].resource in Resources(reqs);
  }

  /** With distinct resources the first requirement's resource is not
      named again. */
  lemma NotInRest(reqs: seq<Requirement>)
    requires reqs != [] && DistinctResources(reqs)
    ensures reqs[0].resource !in Resources(reqs[1..])
    ensures DistinctResources(reqs[1..])
  {
    forall j | 0 <= j < |reqs| - 1 ensures reqs[1..][j].resource != reqs[0].resource {
      assert reqs[1..][j] == reqs[j + 1];
    }
  }

  /** The spread copy of the resources, less the first-loop allocation of
      every allocated key. */
  function Remaining(resources: map<string, int>, alloc: map<string, int>): (rem: map<string, int>)
    ensures forall k :: Get(rem, k) == Get(resources, k) - Get(alloc, k)
  {
    map k | k in resources.Keys + alloc.Keys :: if k in alloc then Get(resources, k) - alloc[k] else resources[k]
  }

  /** The extra a requirement receives: what the remaining map shows for its
      resource, capped by its amount less what it already has. */
  function Extra(q: Requirement, rem: map<string, int>, alloc: map<string, int>): int {
    Min(Get(rem, q.resource), q.amount - Get(alloc, q.resource))
  }

  /** The second loop as written: the remaining map is read but never
      reduced, so every requirement for a resource sees the same remainder. */
  function TopUp(reqs: seq<Requirement>, rem: map<string, int>, alloc: map<string, int>): map<string, int> {
    if reqs == [] then
      alloc
    else
      var q := reqs[0];
      TopUp(reqs[1..], rem, alloc[q.resource := Get(alloc, q.resource) + Extra(q, rem, alloc)])
  }

  /** The second loop with what is handed out taken off the remainder. */
  function TopUpFixed(reqs: seq<Requirement>, rem: map<string, int>, alloc: map<string, int>): map<string, int> {
    if reqs == [] then
      alloc
    else
      var q := reqs[0];
      var extra := Extra(q, rem, alloc);
      TopUpFixed(reqs[1..], rem[q.resource := Get(rem, q.resource) - extra], alloc[q.resource := Get(alloc, q.resource) + extra])
  }

  /** `optimizeResourceAllocation`: the allocation per resource, and the
      requirements as the in-place sort leaves them. */
  function OptimizeAllocation(resources: map<string, int>, requirements: seq<Requirement>): (res: (map<string, int>, seq<Requirement>))
    ensures SortedByPriority(res.1) && multiset(res.1) == multiset(requirements)
  {
    var sorted := SortByPriority(requirements);
    var first := MinPass(sorted, resources, map[]);
    (TopUp(sorted, Remaining(resources, first), first), sorted)
  }

  /** The second loop allocates for exactly the named resources and leaves
      every other allocation alone. */
  lemma {:induction false} TopUpFrame(reqs: seq<Requirement>, rem: map<string, int>, alloc: map<string, int>)
    ensures TopUp(reqs, rem, alloc).Keys == alloc.Keys + Resources(reqs)
    ensures forall k :: k in alloc && k !in Resources(reqs) ==> TopUp(reqs, rem, alloc)[k] == alloc[k]
  {
    if reqs != [] {
      var q := reqs[0];
      ResourcesCons(reqs);
      TopUpFrame(reqs[1..], rem, alloc[q.resource := Get(alloc, q.resource) + Extra(q, rem, alloc)]);
    }
  }

  /** The allocation with the remainder kept up to date. */
  function OptimizeAllocationFixed(resources: map<string, int>, requirements: seq<Requirement>): (res: (map<string, int>, seq<Requirement>))
    ensures SortedByPriority(res.1) && multiset(res.1) == multiset(requirements)
    ensures forall k :: k in res.0 ==> res.0[k] <= Get(resources, k)
  {
    var sorted := SortByPriority(requirements);
    var first := MinPass(sorted, resources, map[]);
    TopUpFixedBalanced(sorted, resources, Remaining(resources, first), first);
    (TopUpFixed(sorted, Remaining(resources, first), first), sorted)
  }

  /** A requirement for a new resource in front of distinct ones keeps
      them distinct. */
  lemma DistinctCons(y: Requirement, t: seq<Requirement>)
    requires DistinctResources(t) && y.resource !in Resources(t)
    ensures DistinctResources([y] + t)
  {
    var r := [y] + t;
    forall j | 0 < j < |r| ensures r[j].resource != y.resource {
      assert r[j] == t[j - 1];
    }
    forall i, j | 0 < i < j < |r| ensures r[i].resource != r[j].resource {
      assert r[i] == t[i - 1] && r[j] == t[j - 1];
    }
  }

  /** Inserting a requirement for a new resource keeps the resources
      distinct and adds that one. */
  lemma {:induction false} InsertDistinct(x: Requirement, t: seq<Requirement>)
    requires SortedByPriority(t) && DistinctResources(t) && x.resource !in Resources(t)
    ensures DistinctResources(InsertByPriority(x, t))
    ensures Resources(InsertByPriority(x, t)) == Resources(t) + {x.resource}
  {
    var r := InsertByPriority(x, t);
    if t == [] || t[0].priority <= x.priority {
      DistinctCons(x, t);
      ResourcesCons(r);
      assert r[1..] == t;
    } else {
      var rest := InsertByPriority(x, t[1..]);
      ResourcesCons(t);
      NotInRest(t);
      InsertDistinct(x, t[1..]);
      DistinctCons(t[0], rest);
      ResourcesCons(r);
      assert r[1..] == rest;
    }
  }

  /** Sorting keeps distinct resources distinct, and the same ones. */
  lemma {:induction false} SortDistinct(s: seq<Requirement>)
    requires DistinctResources(s)
    ensures DistinctResources(SortByPriority(s))
    ensures Resources(SortByPriority(s)) == Resources(s)
  {
    if s != [] {
      NotInRest(s);
      ResourcesCons(s);
      SortDistinct(s[1..]);
      InsertDistinct(s[0], SortByPriority(s[1..]));
    }
  }

  /** With distinct resources the first loop gives each its capped minimum. */
  lemma {:induction false} MinPassDistinct(reqs: seq<Requirement>, resources: map<string, int>, alloc: map<string, int>, i: nat)
    requires DistinctResources(reqs) && i < |reqs|
    ensures MinPass(reqs, resources, alloc)[reqs[i].resource] == Min(reqs[i].minAllocation, Get(resources, reqs[i].resource))
  {
    var q := reqs[0];
    var alloc' := alloc[q.resource := Min(q.minAllocation, Get(resources, q.resource))];
    NotInRest(reqs);
    if i > 0 {
      assert reqs[i] == reqs[1..][i - 1];
      MinPassDistinct(reqs[1..], resources, alloc', i - 1);
    }
  }

  /** With distinct resources the second loop tops each resource up once,
      from the allocation and remainder it starts with. */
  lemma {:induction false} TopUpDistinct(reqs: seq<Requirement>, rem: map<string, int>, alloc: map<string, int>, i: nat)
    requires DistinctResources(reqs) && i < |reqs|
    ensures Get(TopUp(reqs, rem, alloc), reqs[i].resource) == Get(alloc, reqs[i].resource) + Extra(reqs[i], rem, alloc)
  {
    var q := reqs[0];
    var alloc' := alloc[q.resource := Get(alloc, q.resource) + Extra(q, rem, alloc)];
    NotInRest(reqs);
    assert TopUp(reqs, rem, alloc) == TopUp(reqs[1..], rem, alloc');
    TopUpFrame(reqs[1..], rem, alloc');
    if i > 0 {
      var k := reqs[i].resource;
      assert reqs[i] == reqs[1..][i - 1];
      assert k != q.resource;
      assert Get(alloc', k) == Get(alloc, k);
      assert Extra(reqs[i], rem, alloc') == Extra(reqs[i], rem, alloc);
      TopUpDistinct(reqs[1..], rem, alloc', i - 1);
    }
  }

  /** The allocation a requirement's resource ends with, when it is the only
      requirement for it. */
  lemma AllocationOf(resources: map<string, int>, sorted: seq<Requirement>, i: nat)
    requires DistinctResources(sorted) && i < |sorted|
    ensures var first := MinPass(sorted, resources, map[]);
      Get(TopUp(sorted, Remaining(resources, first), first), sorted[i].resource) ==
        Min(Get(resources, sorted[i].resource), sorted[i].amount)
  {
    var q := sorted[i];
    var first := MinPass(sorted, resources, map[]);
    var rem := Remaining(resources, first);
    MinPassDistinct(sorted, resources, map[], i);
    TopUpDistinct(sorted, rem, first, i);
    assert Get(rem, q.resource) == Get(resources, q.resource) - Get(first, q.resource);
  }

  /** With one requirement per resource, each resource receives what is
      available or what is asked, whichever is less, whatever the minimums
      and priorities; only the named resources appear. */
  lemma OneRequirementEach(resources: map<string, int>, requirements: seq<Requirement>)
    requires DistinctResources(requirements)
    ensures OptimizeAllocation(resources, requirements).0.Keys == Resources(requirements)
    ensures forall q :: q in requirements ==>
      Get(OptimizeAllocation(resources, requirements).0, q.resource) == Min(Get(resources, q.resource), q.amount)
  {
    AllocationKeys(resources, requirements);
    forall q | q in requirements
      ensures Get(OptimizeAllocation(resources, requirements).0, q.resource) == Min(Get(resources, q.resource), q.amount)
    {
      RequirementAllocation(resources, requirements, q);
    }
  }

  lemma AllocationKeys(resources: map<string, int>, requirements: seq<Requirement>)
    requires DistinctResources(requirements)
    ensures OptimizeAllocation(resources, requirements).0.Keys == Resources(requirements)
  {
    var sorted := SortByPriority(requirements);
    var first := MinPass(sorted, resources, map[]);
    SortDistinct(requirements);
    TopUpFrame(sorted, Remaining(resources, first), first);
  }

  lemma RequirementAllocation(resources: map<string, int>, requirements: seq<Requirement>, q: Requirement)
    requires DistinctResources(requirements) && q in requirements
    ensures Get(OptimizeAllocation(resources, requirements).0, q.resource) == Min(Get(resources, q.resource), q.amount)
  {
    var sorted := SortByPriority(requirements);
    SortDistinct(requirements);
    assert q in multiset(sorted);
    var i :| 0 <= i < |sorted| && sorted[i] == q;
    AllocationOf(resources, sorted, i);
  }

  /** Two requirements for the same 10 gold, asking 10 and 20 with no
      minimum: the second sees the untouched remainder of 10 and the
      resource ends up with 20 allocated. */
  lemma OverAllocates()
    ensures var resources := map["gold" := 10];
      var reqs := [Requirement("gold", 10, 2, 0), Requirement("gold", 20, 1, 0)];
      Get(OptimizeAllocation(resources, reqs).0, "gold") == 20 > Get(resources, "gold")
  {
    var resources := map["gold" := 10];
    var a := Requirement("gold", 10, 2, 0);
    var b := Requirement("gold", 20, 1, 0);
    GoldSorted(a, b);
    var first := GoldFirst(resources, a, b);
    GoldTopUp(Remaining(resources, first), first, a, b);
  }

  lemma GoldSorted(a: Requirement, b: Requirement)
    requires a == Requirement("gold", 10, 2, 0) && b == Requirement("gold", 20, 1, 0)
    ensures SortByPriority([a, b]) == [a, b]
  {
    assert [a, b][1..] == [b] && [b][1..] == [];
    assert SortByPriority([b]) == [b];
  }

  lemma GoldFirst(resources: map<string, int>, a: Requirement, b: Requirement) returns (first: map<string, int>)
    requires resources == map["gold" := 10]
    requires a == Requirement("gold", 10, 2, 0) && b == Requirement("gold", 20, 1, 0)
    ensures first == MinPass([a, b], resources, map[]) && Get(Remaining(resources, first), "gold") == 10
    ensures Get(first, "gold") == 0
  {
    assert [a, b][1..] == [b] && [b][1..] == [];
    first := MinPass([a, b], resources, map[]);
    assert first == MinPass([b], resources, map["gold" := 0]);
    assert first == map["gold" := 0]["gold" := 0];
  }

  lemma GoldTopUp(rem: map<string, int>, first: map<string, int>, a: Requirement, b: Requirement)
    requires Get(rem, "gold") == 10 && Get(first, "gold") == 0
    requires a == Requirement("gold", 10, 2, 0) && b == Requirement("gold", 20, 1, 0)
    ensures Get(TopUp([a, b], rem, first), "gold") == 20
  {
    assert [a, b][1..] == [b] && [b][1..] == [];
    var top := first["gold" := 10];
    assert Extra(a, rem, first) == 10;
    assert TopUp([a, b], rem, first) == TopUp([b], rem, top);
    assert Extra(b, rem, top) == 10;
    assert TopUp([b], rem, top) == top["gold" := 20];
  }

  /** The corrected allocation hands out, per resource, what it had
      available and no more: allocation plus remainder stays the amount
      available and the remainder never goes negative. */
  predicate Balanced(resources: map<string, int>, rem: map<string, int>, alloc: map<string, int>) {
    forall k :: k in alloc ==> Get(alloc, k) + Get(rem, k) == Get(resources, k) && Get(rem, k) >= 0
  }

  lemma {:induction false} TopUpFixedBalanced(reqs: seq<Requirement>, resources: map<string, int>, rem: map<string, int>, alloc: map<string, int>)
    requires Balanced(resources, rem, alloc) && Resources(reqs) <= alloc.Keys
    ensures forall k :: k in TopUpFixed(reqs, rem, alloc) ==> TopUpFixed(reqs, rem, alloc)[k] <= Get(resources, k)
  {
    if reqs == [] {
    } else {
      var q := reqs[0];
      var extra := Extra(q, rem, alloc);
      var rem' := rem[q.resource := Get(rem, q.resource) - extra];
      var alloc' := alloc[q.resource := Get(alloc, q.resource) + extra];
      ResourcesCons(reqs);
      assert Balanced(resources, rem', alloc') by {
        forall k | k in alloc'
          ensures Get(alloc', k) + Get(rem', k) == Get(resources, k) && Get(rem', k) >= 0
        {
          if k != q.resource {
            assert Get(alloc', k) == Get(alloc, k) && Get(rem', k) == Get(rem, k);
          }
        }
      }
      TopUpFixedBalanced(reqs[1..], resources, rem', alloc');
    }
  }

  // ------------------------------------------------------------ knapsack

  datatype Item = Item(name: string, value: int, weight: int, quantity: int)

  /** An entry of the result: the item's name, how many, and their value. */
  datatype Pick = Pick(name: string, quantity: int, totalValue: int)

  /** Weights and quantities are not negative. */
  predicate WellFormed(items: seq<Item>) {
    forall j :: 0 <= j < |items| ==> items[j].weight >= 0 && items[j].quantity >= 0
  }

  /** Every weight is positive. */
  predicate PositiveWeights(items: seq<Item>) {
    forall j :: 0 <= j < |items| ==> items[j].weight > 0
  }

  /** `dp[i][w]`: the best value of the first `i` items within weight `w`.
      The code fills columns from `w = 1`, so column 0 keeps its initial 0;
      with `fixed` the column is filled like the others. */
  function Table(items: seq<Item>, i: nat, w: nat, fixed: bool): (t: int)
    requires i <= |items| && WellFormed(items)
    ensures t >= 0
    decreases i, 1, 0
  {
    if i == 0 || (w == 0 && !fixed) then 0 else Best(items, i, w, items[i - 1].quantity, fixed)
  }

  /** The innermost loop after the counts `0..k` of item `i`: the cell
      starts at 0 and takes the larger of itself and each count that fits,
      valued as that many of the item plus the best of the earlier items in
      the weight left. */
  function Best(items: seq<Item>, i: nat, w: nat, k: nat, fixed: bool): (b: int)
    requires 1 <= i <= |items| && WellFormed(items)
    ensures b >= 0
    decreases i, 0, k
  {
    var it := items[i - 1];
    if k == 0 then Max(0, Table(items, i - 1, w, fixed))
    else if k * it.weight <= w then Max(Best(items, i, w, k - 1, fixed), Table(items, i - 1, w - k * it.weight, fixed) + k * it.value)
    else Best(items, i, w, k - 1, fixed)
  }

  /** The total of `f` over the items, each counted `c[j]` times. */
  function Total(items: seq<Item>, c: seq<int>, f: Item -> int): int
    requires |c| == |items|
  {
    if items == [] then 0
    else Total(items[..|items| - 1], c[..|c| - 1], f) + c[|c| - 1] * f(items[|items| - 1])
  }

  function WeightOf(it: Item): int { it.weight }

  function ValueOf(it: Item): int { it.value }

  /** A choice of counts within the quantities and the capacity. */
  predicate Feasible(items: seq<Item>, c: seq<int>, capacity: int) {
    |c| == |items| &&
    (forall j :: 0 <= j < |c| ==> 0 <= c[j] <= items[j].quantity) &&
    Total(items, c, WeightOf) <= capacity
  }

  /** The cell dominates every count of the item that fits. */
  lemma {:induction false} BestBound(items: seq<Item>, i: nat, w: nat, k: nat, fixed: bool, k': nat)
    requires 1 <= i <= |items| && WellFormed(items)
    requires k' <= k && k' * items[i - 1].weight <= w
    ensures Best(items, i, w, k, fixed) >= Table(items, i - 1, w - k' * items[i - 1].weight, fixed) + k' * items[i - 1].value
  {
    if k > k' {
      BestBound(items, i, w, k - 1, fixed, k');
    }
  }

  /** The cell is reached by some count that fits. */
  lemma {:induction false} BestAchieved(items: seq<Item>, i: nat, w: nat, k: nat, fixed: bool) returns (k': nat)
    requires 1 <= i <= |items| && WellFormed(items)
    ensures k' <= k && k' * items[i - 1].weight <= w
    ensures Best(items, i, w, k, fixed) == Table(items, i - 1, w - k' * items[i - 1].weight, fixed) + k' * items[i - 1].value
  {
    if k == 0 {
      k' := 0;
    } else if k * items[i - 1].weight <= w && Best(items, i, w, k, fixed) != Best(items, i, w, k - 1, fixed) {
      k' := k;
    } else {
      k' := BestAchieved(items, i, w, k - 1, fixed);
    }
  }

  lemma MulMono(a: nat, b: nat, c: nat)
    requires a <= b
    ensures a * c <= b * c
  {
    assert b * c == a * c + (b - a) * c;
  }

  /** Once a count no longer fits, the larger ones do not either, and the
      cell stops changing. */
  lemma {:induction false} BestFlat(items: seq<Item>, i: nat, w: nat, k0: nat, k: nat, fixed: bool)
    requires 1 <= i <= |items| && WellFormed(items)
    requires 1 <= k0 <= k && k0 * items[i - 1].weight > w
    ensures Best(items, i, w, k, fixed) == Best(items, i, w, k0 - 1, fixed)
  {
    var wt := items[i - 1].weight;
    MulMono(k0, k, wt);
    assert k * wt > w;
    if k > k0 {
      BestFlat(items, i, w, k0, k - 1, fixed);
    }
  }

  /** Every cell of the table is reached by a count of its item. */
  lemma TableAchieved(items: seq<Item>, i: nat, w: nat, fixed: bool) returns (k: nat)
    requires 1 <= i <= |items| && WellFormed(items)
    ensures k <= items[i - 1].quantity && k * items[i - 1].weight <= w
    ensures Table(items, i, w, fixed) == Table(items, i - 1, w - k * items[i - 1].weight, fixed) + k * items[i - 1].value
  {
    if w == 0 && !fixed {
      k := 0;
    } else {
      k := BestAchieved(items, i, w, items[i - 1].quantity, fixed);
    }
  }

  /** Counts and weights not negative give a total weight not negative. */
  lemma {:induction false} TotalNonneg(items: seq<Item>, c: seq<int>)
    requires |c| == |items| && WellFormed(items)
    requires forall j :: 0 <= j < |c| ==> c[j] >= 0
    ensures Total(items, c, WeightOf) >= 0
  {
    if items != [] {
      var n := |items|;
      assert WellFormed(items[..n - 1]);
      TotalNonneg(items[..n - 1], c[..n - 1]);
      assert c[n - 1] * items[n - 1].weight >= 0;
    }
  }

  /** The corrected table bounds the value of every feasible choice of the
      first `i` items. */
  lemma {:induction false} Optimal(items: seq<Item>, i: nat, w: nat, c: seq<int>)
    requires i <= |items| && WellFormed(items)
    requires Feasible(items[..i], c, w)
    ensures Total(items[..i], c, ValueOf) <= Table(items, i, w, true)
  {
    if i > 0 {
      var pre := items[..i];
      var c' := c[..i - 1];
      var k := c[i - 1];
      var it := items[i - 1];
      assert pre[..i - 1] == items[..i - 1];
      assert pre[i - 1] == it;
      assert WellFormed(items[..i - 1]);
      TotalNonneg(items[..i - 1], c');
      var w' := w - k * it.weight;
      assert Feasible(items[..i - 1], c', w');
      Optimal(items, i - 1, w', c');
      BestBound(items, i, w, it.quantity, true, k);
    }
  }

  /** The counts that fit in weight 0 are the zero counts, when every
      weight is positive. */
  lemma {:induction false} ZeroColumn(items: seq<Item>, i: nat, k: nat, fixed: bool)
    requires 1 <= i <= |items| && WellFormed(items) && PositiveWeights(items)
    ensures Best(items, i, 0, k, fixed) == Max(0, Table(items, i - 1, 0, fixed))
  {
    if k > 0 {
      MulMono(1, k, items[i - 1].weight);
      ZeroColumn(items, i, k - 1, fixed);
    }
  }

  /** Row `i` of the table as written and of the corrected table agree. */
  ghost predicate RowsAgree(items: seq<Item>, i: nat)
    requires i <= |items| && WellFormed(items)
  {
    forall w: nat :: Table(items, i, w, false) == Table(items, i, w, true)
  }

  lemma {:induction false} BestAgree(items: seq<Item>, i: nat, w: nat, k: nat)
    requires 1 <= i <= |items| && WellFormed(items) && RowsAgree(items, i - 1)
    ensures Best(items, i, w, k, false) == Best(items, i, w, k, true)
  {
    if k > 0 {
      BestAgree(items, i, w, k - 1);
    }
  }

  /** With positive weights the unfilled column is the right one, and the
      table as written is the corrected table. */
  lemma {:induction false} AgreeWhenPositive(items: seq<Item>, i: nat)
    requires i <= |items| && WellFormed(items) && PositiveWeights(items)
    ensures RowsAgree(items, i)
  {
    if i > 0 {
      AgreeWhenPositive(items, i - 1);
      forall w: nat ensures Table(items, i, w, false) == Table(items, i, w, true) {
        if w == 0 {
          ZeroColumn(items, i, items[i - 1].quantity, true);
        } else {
          BestAgree(items, i, w, items[i - 1].quantity);
        }
      }
    }
  }

  /** With positive weights the table's last cell is the optimum: no
      feasible choice is worth more. */
  lemma KnapsackOptimal(items: seq<Item>, capacity: nat, c: seq<int>)
    requires WellFormed(items) && PositiveWeights(items) && Feasible(items, c, capacity)
    ensures Total(items, c, ValueOf) <= Table(items, |items|, capacity, false)
  {
    assert items[..|items|] == items;
    AgreeWhenPositive(items, |items|);
    Optimal(items, |items|, capacity, c);
  }

  /** One item of value 5 and weight 0 with capacity 0: the item fits, yet
      the unfilled column 0 makes the table give 0, where the corrected
      table gives 5. */
  lemma ZeroWeightMissed()
    ensures var items := [Item("gem", 5, 0, 1)];
      Feasible(items, [1], 0) && Total(items, [1], ValueOf) == 5 &&
      Table(items, 1, 0, false) == 0 && Table(items, 1, 0, true) == 5
  {
    var items := [Item("gem", 5, 0, 1)];
    assert items[..0] == [] && [1][..0] == [];
    assert Best(items, 1, 0, 0, true) == 0;
  }

  /** The entries of the result for items `lo..` taken from the last down,
      with a count of zero giving none. */
  function Picks(items: seq<Item>, c: seq<int>, lo: nat): (r: seq<Pick>)
    requires |c| == |items| && lo <= |items|
    ensures forall e :: e in r ==> e.quantity >= 1
    decreases |items| - lo
  {
    if lo == |items| then []
    else Picks(items, c, lo + 1) + (if c[lo] > 0 then [Pick(items[lo].name, c[lo], c[lo] * items[lo].value)] else [])
  }

  lemma {:induction false} PicksFrame(items: seq<Item>, c: seq<int>, lo: nat, j: nat, x: int)
    requires |c| == |items| && lo <= |items| && j < lo
    ensures Picks(items, c[j := x], lo) == Picks(items, c, lo)
    decreases |items| - lo
  {
    if lo < |items| {
      PicksFrame(items, c, lo + 1, j, x);
    }
  }

  /** Setting a zero count to `x` adds `x` of that item to the total. */
  lemma {:induction false} TotalUpdate(items: seq<Item>, c: seq<int>, j: nat, x: int, f: Item -> int)
    requires |c| == |items| && j < |c| && c[j] == 0
    ensures Total(items, c[j := x], f) == Total(items, c, f) + x * f(items[j])
  {
    var n := |items|;
    var c' := c[j := x];
    if j == n - 1 {
      assert c'[..n - 1] == c[..n - 1];
    } else {
      assert c'[..n - 1] == c[..n - 1][j := x];
      assert items[..n - 1][j] == items[j];
      TotalUpdate(items[..n - 1], c[..n - 1], j, x, f);
    }
  }

  lemma {:induction false} TotalZero(items: seq<Item>, c: seq<int>, f: Item -> int)
    requires |c| == |items| && forall j :: 0 <= j < |c| ==> c[j] == 0
    ensures Total(items, c, f) == 0
  {
    if items != [] {
      TotalZero(items[..|items| - 1], c[..|c| - 1], f);
    }
  }

  /** `dp` holds the table for every item prefix and weight. */
  predicate IsTable(items: seq<Item>, capacity: nat, dp: seq<seq<int>>, fixed: bool) {
    WellFormed(items) && |dp| == |items| + 1 &&
    forall i :: 0 <= i < |dp| ==>
      |dp[i]| == capacity + 1 && forall w :: 0 <= w <= capacity ==> dp[i][w] == Table(items, i, w, fixed)
  }

  /** The innermost loop of the fill: counts from 0 up while they are
      within the quantity and fit. */
  method FillCell(items: seq<Item>, i: nat, prev: seq<int>, w: nat, fixed: bool) returns (cell: int)
    requires 1 <= i <= |items| && WellFormed(items) && (w > 0 || fixed)
    requires w < |prev| && forall w' :: 0 <= w' <= w ==> prev[w'] == Table(items, i - 1, w', fixed)
    ensures cell == Table(items, i, w, fixed)
  {
    var it := items[i - 1];
    cell := 0;
    var k := 0;
    while k <= it.quantity && k * it.weight <= w
      invariant 0 <= k <= it.quantity + 1
      invariant cell == (if k == 0 then 0 else Best(items, i, w, k - 1, fixed))
      decreases it.quantity + 1 - k
    {
      cell := Max(cell, prev[w - k * it.weight] + k * it.value);
      k := k + 1;
    }
    if k <= it.quantity {
      BestFlat(items, i, w, k, it.quantity, fixed);
    }
  }

  /** One row of the table from the row before it; without `fixed` the
      fill starts at column 1 and column 0 keeps its 0. */
  method FillRow(items: seq<Item>, i: nat, prev: seq<int>, capacity: nat, fixed: bool) returns (row: seq<int>)
    requires 1 <= i <= |items| && WellFormed(items)
    requires |prev| == capacity + 1 && forall w :: 0 <= w <= capacity ==> prev[w] == Table(items, i - 1, w, fixed)
    ensures |row| == capacity + 1 && forall w :: 0 <= w <= capacity ==> row[w] == Table(items, i, w, fixed)
  {
    row := seq(capacity + 1, _ => 0);
    var w := if fixed then 0 else 1;
    while w <= capacity
      invariant (if fixed then 0 else 1) <= w <= capacity + 1 && |row| == capacity + 1
      invariant forall w' :: 0 <= w' < w ==> row[w'] == Table(items, i, w', fixed)
    {
      var cell := FillCell(items, i, prev, w, fixed);
      row := row[w := cell];
      w := w + 1;
    }
  }

  /** The fill of `dp`, row by row from the all-zero row 0. */
  method FillTable(items: seq<Item>, capacity: nat, fixed: bool) returns (dp: seq<seq<int>>)
    requires WellFormed(items)
    ensures IsTable(items, capacity, dp, fixed)
  {
    dp := [seq(capacity + 1, _ => 0)];
    var i := 1;
    while i <= |items|
      invariant 1 <= i <= |items| + 1 && |dp| == i
      invariant forall r :: 0 <= r < i ==>
        |dp[r]| == capacity + 1 && forall w :: 0 <= w <= capacity ==> dp[r][w] == Table(items, r, w, fixed)
    {
      var row := FillRow(items, i, dp[i - 1], capacity, fixed);
      dp := dp + [row];
      i := i + 1;
    }
  }

  /** The state of the reconstruction after items `i..` are decided: the
      counts taken so far fit, leave weight `w`, and together with the best
      value of the first `i` items within `w` make up the table's last
      cell; the picks list them. */
  predicate Decided(items: seq<Item>, capacity: nat, fixed: bool, i: nat, w: nat, counts: seq<int>, result: seq<Pick>)
    requires WellFormed(items)
  {
    i <= |items| && w <= capacity && |counts| == |items| &&
    (forall j :: 0 <= j < i ==> counts[j] == 0) &&
    (forall j :: i <= j < |items| ==> 0 <= counts[j] <= items[j].quantity) &&
    Total(items, counts, WeightOf) + w == capacity &&
    Total(items, counts, ValueOf) + Table(items, i, w, fixed) == Table(items, |items|, capacity, fixed) &&
    result == Picks(items, counts, i)
  }

  /** Taking `k` of item `i - 1`, a count that explains the cell, decides
      one more item. */
  lemma DecideStep(items: seq<Item>, capacity: nat, fixed: bool, i: nat, w: nat, counts: seq<int>, result: seq<Pick>, k: int)
    requires WellFormed(items) && 1 <= i && Decided(items, capacity, fixed, i, w, counts, result)
    requires 0 <= k <= items[i - 1].quantity && k * items[i - 1].weight <= w
    requires Table(items, i, w, fixed) == Table(items, i - 1, w - k * items[i - 1].weight, fixed) + k * items[i - 1].value
    ensures Decided(items, capacity, fixed, i - 1, w - k * items[i - 1].weight, counts[i - 1 := k],
                    result + (if k > 0 then [Pick(items[i - 1].name, k, k * items[i - 1].value)] else []))
  {
    TotalUpdate(items, counts, i - 1, k, WeightOf);
    TotalUpdate(items, counts, i - 1, k, ValueOf);
    PicksFrame(items, counts, i, i - 1, k);
  }

  /** The reconstruction: from the last item down, the largest count whose
      table entry explains the cell is taken, and the weight it uses is
      given up. */
  method Reconstruct(items: seq<Item>, capacity: nat, dp: seq<seq<int>>, fixed: bool) returns (result: seq<Pick>, counts: seq<int>)
    requires IsTable(items, capacity, dp, fixed)
    ensures Feasible(items, counts, capacity)
    ensures Total(items, counts, ValueOf) == Table(items, |items|, capacity, fixed)
    ensures result == Picks(items, counts, 0)
  {
    var n := |items|;
    counts := seq(n, _ => 0);
    TotalZero(items, counts, WeightOf);
    TotalZero(items, counts, ValueOf);
    result := [];
    var w: nat := capacity;
    var i := n;
    while i > 0
      invariant Decided(items, capacity, fixed, i, w, counts, result)
    {
      var it := items[i - 1];
      ghost var kw := TableAchieved(items, i, w, fixed);
      var k := it.quantity;
      while k >= 0 && !(k * it.weight <= w && dp[i][w] == dp[i - 1][w - k * it.weight] + k * it.value)
        invariant kw <= k <= it.quantity
      {
        k := k - 1;
      }
      DecideStep(items, capacity, fixed, i, w, counts, result, k);
      if k > 0 {
        result := result + [Pick(it.name, k, k * it.value)];
      }
      counts := counts[i - 1 := k];
      w := w - k * it.weight;
      i := i - 1;
    }
  }

  /** `knapsackOptimization`: the picks, and the count of every item they
      stand for. */
  method Knapsack(items: seq<Item>, capacity: nat) returns (result: seq<Pick>, counts: seq<int>)
    requires WellFormed(items)
    ensures Feasible(items, counts, capacity)
    ensures Total(items, counts, ValueOf) == Table(items, |items|, capacity, false)
    ensures result == Picks(items, counts, 0)
  {
    var dp := FillTable(items, capacity, false);
    result, counts := Reconstruct(items, capacity, dp, false);
  }

  /** The knapsack with column 0 filled: its picks reach the optimum. */
  method KnapsackFixed(items: seq<Item>, capacity: nat) returns (result: seq<Pick>, counts: seq<int>)
    requires WellFormed(items)
    ensures Feasible(items, counts, capacity)
    ensures Total(items, counts, ValueOf) == Table(items, |items|, capacity, true)
    ensures forall c :: Feasible(items, c, capacity) ==> Total(items, c, ValueOf) <= Total(items, counts, ValueOf)
    ensures result == Picks(items, counts, 0)
  {
    var dp := FillTable(items, capacity, true);
    result, counts := Reconstruct(items, capacity, dp, true);
    forall c | Feasible(items, c, capacity) ensures Total(items, c, ValueOf) <= Total(items, counts, ValueOf) {
      assert items[..|items|] == items;
      Optimal(items, |items|, capacity, c);
    }
  }
}
