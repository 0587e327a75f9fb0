# Interview algorithms — a verified model

This project models the algorithmic core of the `interview` repository: the
TypeScript and JavaScript implementations of array and sequence algorithms
(sorting, searching, comparison counting), grid path search, the tile puzzles
(match-3 and lianliankan), the strategy-game logic and the spatial index.
Every operation is a pure Dafny function or method over immutable values;
the contracts and lemmas state what the code promises.

## Model

| member | source | states |
|---|---|---|
| Sorting.BubbleSort | project_ts/src/algorithms.ts:38-60 | returns a sorted permutation of the input, and the input itself when it is already sorted (the early exit after a pass without swaps) |
| Sorting.SelectionSort | project_ts/src/algorithms.ts:93-114 | returns a sorted permutation of the input |
| Sorting.InsertionSort | project_ts/src/algorithms.ts:149-168 | returns a sorted permutation of the input |
| Sorting.InsertKey | project_ts/src/algorithms.ts:151-166 | inserting element `i` into the sorted prefix keeps the multiset and extends the sorted prefix by one |
| Sorting.Partition | project_ts/src/algorithms.ts:220-232 | Lomuto partition: the pivot lands at `p`, smaller elements left of it, the rest right of it, nothing outside the range moves |
| Sorting.QuickSortRange | project_ts/src/algorithms.ts:205-218 | sorts the range `[low, high]` as a permutation and leaves the rest unchanged |
| Sorting.QuickSort | project_ts/src/algorithms.ts:204-233 | returns a sorted permutation of the input |
| Sorting.Merge | project_ts/src/algorithms.ts:280-298 | the result holds both inputs' elements; sorted inputs give a sorted result; ties take the left element first |
| Sorting.MergeSort | project_ts/src/algorithms.ts:268-278 | returns a sorted permutation of the input |
| Sorting.IsSorted | project_ts/src/algorithms.ts:793-800 | true exactly when every pair of elements is in order |
| Sorting.SortsAgree | project_ts/src/algorithms.ts:38-298 | all five sorts return the same sequence for every input |
| Searching.LinearSearch | project_ts/src/algorithms.ts:334-341 | -1 exactly when the target is absent, otherwise the first index holding it |
| Searching.BinarySearch | project_ts/src/algorithms.ts:435-452 | -1 or an index holding the target |
| Searching.BinarySearchComplete | project_ts/src/algorithms.ts:435-452 | on sorted input, -1 exactly when the target is absent |
| Searching.BinarySearchRecursive | project_ts/src/algorithms.ts:377-395 | probes the same midpoints as the iterative search and returns the same index |
| Searching.InterpolationSearch | project_ts/src/algorithms.ts:489-514 | -1 or an index holding the target; -1 whenever the target lies outside the first and last values |
| Searching.InterpolationSearchComplete | project_ts/src/algorithms.ts:489-514 | on strictly increasing input, -1 exactly when the target is absent |
| Searching.InterpolationZeroOverZero | project_ts/src/algorithms.ts:502 | on `[5, 5]` the search as written misses 5, the repaired one finds it |
| Searching.InterpolationSearchFixedComplete | project_ts/src/algorithms.ts:489-514 | with the 0/0 case probing `low`, complete on every sorted input |
| Searching.ExponentialSearch | project_ts/src/algorithms.ts:547-568 | -1 or an index holding the target |
| Searching.ExponentialSearchComplete | project_ts/src/algorithms.ts:547-568 | on sorted input, -1 exactly when the target is absent |
| Searching.IntSqrt | project_ts/src/algorithms.ts:606 | the block size is the integer square root: `s*s <= n < (s+1)*(s+1)` |
| Searching.JumpSearch | project_ts/src/algorithms.ts:604-627 | -1 or an index holding the target |
| Searching.JumpSearchComplete | project_ts/src/algorithms.ts:604-627 | on sorted input, -1 exactly when the target is absent |
| Searching.TernarySearch | project_ts/src/algorithms.ts:663-689 | -1 or an index holding the target |
| Searching.TernarySearchComplete | project_ts/src/algorithms.ts:663-689 | on sorted input, -1 exactly when the target is absent |
| Searching.FibonacciSearch | project_ts/src/algorithms.ts:724-775 | -1 or an index holding the target, including the final probe past the window |
| Searching.FibonacciSearchComplete | project_ts/src/algorithms.ts:724-775 | on sorted input, -1 exactly when the target is absent |
| CountedSearch.TheoreticalMinComparisons | project_ts/src/test-comparison-count.ts:253-256 | `k` with `2^(k-1) <= n < 2^k`, that is `floor(log2 n) + 1`; no value for `n == 0` |
| CountedSearch.LinearSearchWithCount | project_ts/src/test-comparison-count.ts:40-51 | the index of `linearSearch`; the count is the index plus one, or `n` on a miss |
| CountedSearch.BinarySearchWithCount | project_ts/src/test-comparison-count.ts:15-35 | the index of `binarySearch`, with at most `floor(log2 n) + 1` comparisons on any input |
| CountedSearch.BinaryWithinTheoreticalMin | project_ts/src/test-comparison-count.ts:253-256 | the binary-search count never exceeds the theoretical figure |
| CountedSearch.InterpolationSearchWithCount | project_ts/src/test-comparison-count.ts:56-83 | the index of `interpolationSearch` |
| CountedSearch.InterpolationCountAgrees | project_ts/src/test-comparison-count.ts:56-83 | the counting loop agrees with the plain one and counts at most one comparison per element of the window |
| CountedSearch.ExponentialSearchWithCount | project_ts/src/test-comparison-count.ts:88-118 | the index of `exponentialSearch`, with at least one comparison |
| CountedSearch.JumpSearchWithCount | project_ts/src/test-comparison-count.ts:123-157 | the index of `jumpSearch` |
| CountedSearch.TernarySearchWithCount | project_ts/src/test-comparison-count.ts:162-193 | the index of `ternarySearch`; an even count, at least two on a hit |
| CountedSearch.FibonacciSearchWithCount | project_ts/src/test-comparison-count.ts:198-248 | the index of `fibonacciSearch` |
| Kmp.BuildFailure | project_ts/src/kmp.ts:19-40 | one entry per UTF-16 code unit of the pattern, each the length of the longest proper prefix of the pattern up to that unit that is also its suffix |
| Kmp.Search | project_ts/src/kmp.ts:49-87 | `[]` for an empty pattern; otherwise exactly the code-unit positions where the pattern occurs in the text, increasing, overlapping occurrences included |
| Kmp.Next | project_ts/src/kmp.ts:68-85 | one iteration of the text loop keeps the invariant: `j` is the longest pattern prefix shorter than the pattern that ends the text read, and the matches hold every occurrence ending so far |
| Kmp.SearchFrom | project_ts/src/kmp.ts:65-86 | the matching loop, started in any state that keeps the border invariant, ends with the list of all occurrences |
| Kmp.IndexOf | project_ts/src/kmp.ts:96-99 | -1 exactly when the pattern occurs nowhere, otherwise its first occurrence |
| Kmp.Contains | project_ts/src/kmp.ts:108-110 | true exactly when a nonempty pattern occurs somewhere |
| Kmp.Count | project_ts/src/kmp.ts:119-121 | the number of occurrences, at most one per starting position |
| Kmp.OverlappingMatches | project_ts/src/kmp.ts:151-158 | searching `AAA` in `AAAAAAA` finds 0, 1, 2, 3, 4 |
| Kmp.RunOfA | project_ts/src/kmp.ts:65-86 | in a text of `A`s, `AAA` occurs at every position up to the end |
| Kmp.AstralPositions | project_ts/src/kmp.ts:49-99 | positions count UTF-16 code units: `a` is found at 2 in the emoji followed by `a`, and not inside the emoji's surrogate pair |
| Kadane.KadaneBasic | project_ts/src/kadane-algorithm.ts:21-43 | fails exactly on the empty array; otherwise the largest sum of a nonempty contiguous subarray |
| Kadane.AllNegative | project_ts/src/kadane-algorithm.ts:21-43 | on all-negative input the result is the largest element |
| Kadane.KadaneWithIndices | project_ts/src/kadane-algorithm.ts:48-87 | fails exactly on the empty array; otherwise the maximum sum with `start <= end` inside the array, the slice between them summing to it, and no earlier-ending subarray reaching it |
| Kadane.IndicesAgreesWithBasic | project_ts/src/kadane-algorithm.ts:48-87 | both functions return the same maximum |
| Kadane.BruteForce | project_ts/src/test-kadane.ts:90-102 | the reference: the largest sum over all nonempty ranges, none for the empty array |
| Kadane.KadaneMatchesBruteForce | project_ts/src/test-kadane.ts:90-118 | Kadane and the brute force agree on every input |
| ReorderList.ToSeqFromSeq | project_ts/src/reorder-list.ts:137-164 | turning an array into a list and back gives the array; `[]` is the empty list |
| ReorderList.FromSeqToSeq | project_ts/src/reorder-list.ts:137-164 | turning a list into an array and back gives the list |
| ReorderList.FindMiddle | project_ts/src/reorder-list.ts:88-100 | the slow pointer stops at index `(n - 1) / 2` |
| ReorderList.ReverseList | project_ts/src/reorder-list.ts:105-116 | element `k` of the result is element `n - 1 - k` of the input |
| ReorderList.ReverseTwice | project_ts/src/reorder-list.ts:105-116 | reversing twice gives the original list |
| ReorderList.MergeLists | project_ts/src/reorder-list.ts:121-135 | the merge holds every node of both lists, no more |
| ReorderList.MergeAt | project_ts/src/reorder-list.ts:121-135 | the merge alternates the two lists, starting with the first, and the longer first list supplies the tail |
| ReorderList.ReorderIsZigzag | project_ts/src/reorder-list.ts:70-83 | the in-place reordering yields a0, a(n-1), a1, a(n-2), ... |
| ReorderList.ZigzagIsPermutation | project_ts/src/reorder-list.ts:70-83 | that order is a permutation of the list |
| ReorderList.FiveNodes | project_ts/src/reorder-list.ts:70-83 | any five-node list comes out as nodes 0, 4, 1, 3, 2 |
| ReorderList.SixNodes | project_ts/src/reorder-list.ts:70-83 | any six-node list comes out as nodes 0, 5, 1, 4, 2, 3 |
| ReorderList.OddExample | project_ts/src/reorder-list.ts:173-178 | `[1, 2, 3, 4, 5]` becomes `[1, 5, 2, 4, 3]` |
| ReorderList.EvenExample | project_ts/src/reorder-list.ts:181-186 | `[1, 2, 3, 4, 5, 6]` becomes `[1, 6, 2, 5, 3, 4]` |
| ReorderList.ArrayOrder | project_ts/src/reorder-list.ts:29-57 | relinking through the node array from both ends visits the nodes in the zigzag order |
| ReorderList.ReorderingsAgree | project_ts/src/reorder-list.ts:29-83 | the array-based and the pointer-based reordering produce the same list |
| BinaryHeap.BubbleUp | ts_test.ts:40-49 | sifting up a heap broken only at one position restores the heap order and keeps the entries |
| BinaryHeap.BubbleDown | ts_test.ts:51-70 | sifting down from a position restores the heap order and keeps the entries |
| BinaryHeap.Push | ts_test.ts:73-78 | the result is a heap holding the old entries and the new one |
| BinaryHeap.RootIsMin | ts_test.ts:18-70 | the root of a heap has a least key |
| BinaryHeap.Pop | ts_test.ts:81-94 | nothing on an empty heap; otherwise an entry of least key and a heap of the remaining entries |
| BinaryHeap.Peek | ts_test.ts:96-98 | the entry `dequeue` would return, the heap untouched |
| BinaryHeap.Enqueue | ts_test.ts:73-78 | adds the value with its priority, one more entry, heap order kept |
| BinaryHeap.Dequeue | ts_test.ts:81-94 | `undefined` on an empty heap; otherwise a value of least priority, one entry fewer |
| BinaryHeap.Drain | ts_test.ts:110-112 | dequeuing until empty yields every entry once, in nondecreasing key order |
| BinaryHeap.DemoOrder | ts_test.ts:106-115 | enqueuing D4, A1, C3, B2 and draining yields A, B, C, D |
| Shuffle.FisherYates | project_ts/src/shuffle-algorithms.ts:14-26 | a permutation of the argument, which is left as it is (values are immutable) |
| Shuffle.DrawInRange | project_ts/src/shuffle-algorithms.ts:17-18 | the draw for position `i` lies in `[0, i]` |
| Shuffle.FisherYatesFirstStep | project_ts/src/shuffle-algorithms.ts:16-23 | the last position receives the element the first draw picks |
| Shuffle.FisherYatesInPlace | project_ts/src/shuffle-algorithms.ts:34-40 | the same permutation as the copying version |
| Shuffle.KnuthShuffle | project_ts/src/shuffle-algorithms.ts:47-49 | exactly the Fisher–Yates shuffle |
| Shuffle.NaiveShuffle | project_ts/src/shuffle-algorithms.ts:59-70 | a same-length permutation of the argument |
| Shuffle.SwapCount | project_ts/src/shuffle-algorithms.ts:90 | `n` swaps when `iterations` is missing or 0, otherwise `iterations` |
| Shuffle.RandomSwapShuffle | project_ts/src/shuffle-algorithms.ts:88-100 | a same-length permutation of the argument |
| Shuffle.GenerateSortedArray | project_ts/src/shuffle-algorithms.ts:259-261 | `[1, ..., n]` |
| Shuffle.IsShuffled | project_ts/src/shuffle-algorithms.ts:266-271 | false for different lengths, otherwise true exactly when the arrays differ somewhere |
| Shuffle.NotShuffledOfItself | project_ts/src/shuffle-algorithms.ts:266-271 | an array is never a shuffle of itself, two empty arrays included |
| Grid.Candidates | project_ts/src/bfs.ts:48-62 | the four orthogonal cells, then the four diagonal ones in 8-neighbour mode: exactly the cells adjacent in that mode, none twice |
| Grid.KeepWalkable | project_ts/src/bfs.ts:64 | keeps exactly the walkable cells, in order |
| Grid.Neighbors | project_ts/src/bfs.ts:48-65 | exactly the walkable cells at Manhattan distance 1 (4-neighbour) or Chebyshev distance 1 (8-neighbour), none twice |
| Grid.WalkableCells | project_ts/src/bfs.ts:40-46 | exactly the cells inside the grid holding 0 |
| Grid.Chain | project_ts/src/bfs.ts:67-75 | the positions from the root record to this one, ending at this one |
| Grid.ChainStartsAtRoot | project_ts/src/bfs.ts:67-75 | the reconstructed path starts at the record with no parent |
| Grid.ClosedSetBlocks | project_ts/src/bfs.ts:111-130 | a set holding the start and closed under walkable neighbours but missing the goal proves the goal unreachable |
| Grid.ManhattanBelowSteps | project_ts/src/index.ts:67-72 | the Manhattan distance never exceeds the number of steps of a 4-neighbour walk (admissible) |
| Events.ReportStep | pathfinding-visualizer/additional-algorithms.js:150-175 | one `'current'` event followed by the `'visited'` events of the pushed cells extends the count list by the next number and the pushed list by those cells |
| Bfs.Search | project_ts/src/bfs.ts:100-130 | the FIFO loop: a node taken for the goal carries a shortest walk; exhausting the queue proves the goal unreachable or fills the distance table of the whole component; each cell is enqueued at most once |
| Bfs.HeadIsNearest | project_ts/src/bfs.ts:111-124 | the queue head is at most as deep as any walk to a cell not yet closed is long |
| Bfs.GoalShortest | project_ts/src/bfs.ts:114-117 | the walk to the goal, when the goal reaches the head of the queue, is shortest |
| Bfs.ParentWalk | project_ts/src/bfs.ts:159-177 | following the parent table from a cell gives a walk from the start with `dist + 1` points |
| Bfs.FindPathBFS | project_ts/src/bfs.ts:85-130 | null for a blocked endpoint; otherwise a shortest walk from start to goal, or null exactly when the goal is unreachable |
| Bfs.BfsAll | project_ts/src/bfs.ts:141-179 | empty tables for a blocked start; otherwise `dist[start] == 0`, a distance exactly for the reachable cells, equal to the shortest number of steps, and `dist[v] == dist[parent[v]] + 1` with the parent adjacent |
| Bfs.BfsEvents | pathfinding-visualizer/additional-algorithms.js:7-62 | one error for a blocked endpoint; otherwise counts 1, 2, ..., at most one `'visited'` per cell and never the start, and either a shortest walk as `'path'` and `'complete'` or the not-found error exactly when the goal is unreachable |
| VisitOnPop.Put | project_ts/src/dfs.ts:128-132 | pushing onto the stack appends; pushing onto the heap keeps the heap order; either way one node is added |
| VisitOnPop.Take | project_ts/src/dfs.ts:111 | the stack gives its last node; the heap a node of least key; one node fewer either way |
| VisitOnPop.PushAllAdds | project_ts/src/gbfs.ts:183-188 | the neighbour loop adds exactly one node per fresh neighbour |
| VisitOnPop.StepPreserves | project_ts/src/dfs.ts:110-134 | one iteration of the visit-on-pop loop keeps the invariant: marked cells reachable and listed once, every waiting node a repetition-free walk from the start within the depth limit, every expanded cell's neighbours marked or waiting |
| VisitOnPop.StepMeasure | project_ts/src/dfs.ts:110-134 | each iteration marks a new cell or shortens the open list, so the loop ends |
| VisitOnPop.ExhaustedReach | project_ts/src/dfs.ts:208-242 | when the open list runs empty without a depth limit, the marked cells are exactly the reachable ones |
| VisitOnPop.Run | project_ts/src/dfs.ts:104-137 | the loop of `findPathDFS`, `dfsAll`, `findPathGBFS` and `gbfsAll`: a goal node carries a valid repetition-free walk; without a goal it marks exactly the reachable cells; the events count 1, 2, ... |
| Dfs.FindPathDFS | project_ts/src/dfs.ts:87-137 | null for a blocked endpoint; a returned walk repeats no cell and has at most `maxDepth + 1` points; without a limit null exactly when the goal is unreachable |
| Dfs.DfsAll | project_ts/src/dfs.ts:200-245 | `[]` for a blocked start; otherwise the start first, no cell twice, only reachable cells, and without a limit all of them |
| Dfs.DfsEvents | pathfinding-visualizer/additional-algorithms.js:64-119 | one error for a blocked endpoint; otherwise counts 1, 2, ..., at most one `'current'` per cell, and a repetition-free walk or the not-found error exactly when the goal is unreachable |
| Dfs.UnvisitedReversed | project_ts/src/dfs.ts:124-131 | filtering the reversed neighbour list equals reversing the filtered list |
| Dfs.StackTopIsFirstNeighbour | project_ts/src/dfs.ts:124-131 | pushing the neighbours in reverse puts the first unvisited neighbour, in `getNeighbors` order, on top of the stack |
| Dfs.Explore | project_ts/src/dfs.ts:169-188 | the recursive visit: a found walk leads from the cell to the goal without repetition and within the depth bound; without a limit a miss leaves every cell it marked with all its neighbours marked |
| Dfs.ExploreEach | project_ts/src/dfs.ts:179-185 | trying the neighbours in order: a walk found starts at one of them; without a limit a miss marks all of them |
| Dfs.FindPathDFSRecursive | project_ts/src/dfs.ts:149-190 | null for a blocked endpoint; a returned walk repeats no cell and has at most `maxDepth + 1` points; without a limit null exactly when the goal is unreachable |
| Costs.Heuristic | project_ts/src/gbfs.ts:96-105 | zero exactly when the two cells coincide; the Manhattan distance in 4-neighbour mode; the octile distance as whole and `sqrt 2` parts otherwise |
| Costs.StepCost | project_ts/src/index.ts:132-136 | 1 for an orthogonal step, `sqrt 2` for a diagonal one |
| Costs.PathLengthCountsSteps | project_ts/src/bfs.ts:184-202 | on a 4-neighbour walk the length and the `pathCost` are the number of steps |
| Costs.PathLengthIsCost | project_ts/src/index.ts:141-148 | on an 8-neighbour walk `calculatePathLength` equals `pathCost`, one unit or one `sqrt 2` per step |
| Costs.OctileAdmissible | project_ts/src/index.ts:67-72 | the octile estimate never exceeds the length of any 8-neighbour walk between the two cells |
| Costs.HeuristicSumAppend | project_ts/src/gbfs.ts:275-281 | the sum over a concatenation is the sum of the sums |
| Costs.HeuristicSumZero | project_ts/src/gbfs.ts:275-281 | the sum is zero exactly when every point is the goal, the empty path included |
| Gbfs.FindPathGBFS | project_ts/src/gbfs.ts:144-192 | in either neighbour mode: null for a blocked endpoint; a returned walk repeats no cell; null exactly when the goal is unreachable |
| Gbfs.GbfsAll | project_ts/src/gbfs.ts:202-247 | in either neighbour mode: `[]` for a blocked start; otherwise the start first, no cell twice, exactly the reachable cells |
| Gbfs.GbfsEvents | pathfinding-visualizer/additional-algorithms.js:121-180 | one error for a blocked endpoint; otherwise counts 1, 2, ..., at most one `'current'` per cell, and a walk or the not-found error exactly when the goal is unreachable |
| Gbfs.StepKeeps | project_ts/src/gbfs.ts:164-187 | every node on the heap keeps its heuristic as key through each iteration |
| Gbfs.NearestFirst | project_ts/src/gbfs.ts:164-173 | in 4-neighbour mode the node popped next lies nearest the goal, by Manhattan distance, among all waiting nodes |
| Gbfs.LeastRankFirst | project_ts/src/gbfs.ts:164-173 | in 8-neighbour mode the node popped next has the least octile distance among all waiting nodes |
| Grid.ExploredUnique | project_ts/src/dijkstra.ts:343-357 | two finished explorations from the same start have the same distance table |
| BestFirst.DeeperFirst | project_ts/src/astar_heap.ts:175-179 | the heap key orders by `fCost`, and on equal `fCost` the larger `gCost` first |
| BestFirst.EstimateStep | project_ts/src/astar_heap.ts:108-117 | between neighbours the Manhattan estimate changes by at most one, and it is 0 at the goal |
| BestFirst.EstimateAlong | project_ts/src/index.ts:67-90 | along a walk the estimate at a cell is at most the steps left plus the estimate at the end: it never overshoots |
| BestFirst.Put | project_ts/src/index.ts:257 | `open.push` appends to the array or keeps the heap order; one node is added either way |
| BestFirst.ScanFrom | project_ts/src/index.ts:223-226 | the scan ends at a node of least `fCost`, the first such one |
| BestFirst.Take | project_ts/src/index.ts:223-227 | the node taken off has the least `fCost` on the list; the rest is the list without it |
| BestFirst.InitialInv | project_ts/src/index.ts:208-220 | the start node at cost 0 on the open list satisfies the loop invariant |
| BestFirst.FirstOutside | project_ts/src/index.ts:241-246 | the first cell of a walk outside a set, with every earlier cell inside |
| BestFirst.FrontierCost | project_ts/src/index.ts:241-259 | on a walk from the start, the first cell not yet closed has a recorded cost no larger than its position on the walk |
| BestFirst.CloseOptimal | project_ts/src/index.ts:222-241 | a live node of least `fCost` has its cell's least number of steps when it comes off the list |
| BestFirst.ImproveTable | project_ts/src/index.ts:248-249 | recording a cheaper node for an open cell keeps every recorded node a valid walk filed under its own cell |
| BestFirst.ImproveNodes | project_ts/src/index.ts:248-257 | the improving node is not on the list yet, and after the push every listed node is keyed, valid and no cheaper than its cell's best |
| BestFirst.ImproveLive | project_ts/src/index.ts:248-257 | after an improvement every live node on the list is its cell's best, listed once, on an open cell |
| BestFirst.ImproveCovers | project_ts/src/index.ts:248-257 | after an improvement every open cell with a recorded cost still has its best node on the list |
| BestFirst.ImproveOptimal | project_ts/src/index.ts:244-249 | closed cells are never improved, so their costs stay final |
| BestFirst.ImproveRelaxed | project_ts/src/index.ts:244-249 | lowering an open cell's cost keeps every expanded cell's neighbours within one step |
| BestFirst.ImproveKeeps | project_ts/src/index.ts:244-259 | one improvement keeps the invariant, lowers no closed cell and adds only a `'visited'` event |
| BestFirst.LoweredTrans | project_ts/src/index.ts:243-260 | the changes of two runs of the neighbour loop compose |
| BestFirst.RelaxKeeps | project_ts/src/index.ts:243-260 | the neighbour loop keeps the invariant, only lowers costs and leaves every walkable neighbour closed or at most one step dearer than the current node |
| BestFirst.TakeSub | project_ts/src/index.ts:227 | after the splice the rest holds every other node, with the taken node once fewer |
| BestFirst.SkipStep | project_ts/src/index.ts:230-233 | dropping a stale node keeps the invariant |
| BestFirst.CloseKeeps | project_ts/src/index.ts:230-241 | a live node comes off for an open cell at its least cost, and closing the cell keeps the invariant |
| BestFirst.CloseReported | pathfinding-visualizer/algorithms.js:156-162 | the `'current'` event of a newly closed cell continues the counts 1, 2, ... and names a cell not named before |
| BestFirst.RelaxedAfter | project_ts/src/index.ts:243-260 | once its neighbours are relaxed, the closed cell counts as expanded |
| BestFirst.StepPreserves | project_ts/src/index.ts:221-260 | one iteration that does not stop at the goal keeps the invariant |
| BestFirst.StepMeasure | project_ts/src/index.ts:221-260 | each iteration closes a new walkable cell or shortens the open list, so the loop ends |
| BestFirst.FoundEvents | pathfinding-visualizer/algorithms.js:158-168 | on reaching the goal the events end with `'path'` and `'complete'` carrying the walk and the final count |
| BestFirst.Exhausted | project_ts/src/dijkstra.ts:396-424 | with the list empty the closed cells are exactly the reachable ones, each at its least number of steps |
| BestFirst.GoalShortest | project_ts/src/index.ts:235-238 | the walk rebuilt from the goal's live node is a shortest walk |
| BestFirst.ExhaustedResult | project_ts/src/index.ts:262-263 | an exhausted search leaves the distances of exactly the reachable cells, and a goal it did not reach is unreachable |
| BestFirst.Run | project_ts/src/index.ts:208-263 | the loop shared by A* and Dijkstra: a goal node carries a shortest walk; without one the recorded costs are the distances of exactly the reachable cells; each cell is reported `'current'` at most once with counts 1, 2, ... |
| AStar.FindPath | project_ts/src/index.ts:187-264 | null for a blocked endpoint; otherwise a shortest walk from start to goal, or null exactly when the goal is unreachable |
| AStar.FindPathHeap | project_ts/src/astar_heap.ts:153-221 | the same promise as `findPath`: null for a blocked endpoint, a shortest walk, null exactly when unreachable |
| AStar.Search | project_ts/src/astar_heap.ts:161-163 | the endpoint check followed by the loop: null for a blocked endpoint, otherwise a shortest walk or null exactly when unreachable |
| AStar.AStarEvents | pathfinding-visualizer/algorithms.js:189-262 | one error for a blocked endpoint; otherwise counts 1, 2, ..., at most one `'current'` per cell, and a shortest walk as `'path'` and `'complete'` or the not-found error exactly when unreachable |
| AStar.Generate | pathfinding-visualizer/algorithms.js:129-185 | the common generator body: one error for a blocked endpoint, otherwise the loop's events ended by the path or the not-found error |
| Dijkstra.FindPathDijkstra | project_ts/src/dijkstra.ts:265-335 | null for a blocked endpoint; otherwise a walk of least cost, or null exactly when the goal is unreachable |
| Dijkstra.DijkstraAll | project_ts/src/dijkstra.ts:359-427 | empty tables for a blocked start; otherwise `dist[start] == 0`, a finite distance exactly for the reachable cells, equal to the least number of steps, and `dist[v] == dist[parent[v]] + 1` with the parent adjacent |
| Dijkstra.ParentLink | project_ts/src/dijkstra.ts:418-421 | the last step of a shortest walk comes from a cell one step nearer the start |
| Dijkstra.DijkstraEvents | pathfinding-visualizer/algorithms.js:128-186 | one error for a blocked endpoint; otherwise counts 1, 2, ..., at most one `'current'` per cell, and a shortest walk or the not-found error exactly when unreachable |
| Dijkstra.AgreesWithBfs | project_ts/src/dijkstra.ts:1-17 | in 4-neighbour mode Dijkstra and BFS find a walk for the same pairs, of the same length, and `dijkstraAll` and `bfsAll` give the same distances |
| PathExamples.Grid1Distance | project_ts/src/index.ts:305-321 | on `grid1` the corners are 8 steps apart |
| PathExamples.Grid1Example | project_ts/src/index.ts:315-370 | array A*, heap A* and Dijkstra return 9-point walks on `grid1`; `dijkstraAll` gives 0 at the start and the path's cost at the goal |
| PathExamples.Grid2Blocked | project_ts/src/index.ts:330-336 | on `grid2` the cell `(0,2)` cannot be reached from `(0,0)` |
| PathExamples.Grid2Example | project_ts/src/index.ts:336-337 | `findPath` on `grid2` returns null |
| GridGen.Lcg | project_ts/src/index.ts:377-380 | the next seed stays below 2^32 |
| GridGen.Fraction | project_ts/src/index.ts:379 | each draw lies in `[0, 1)` |
| GridGen.RowDraws | project_ts/src/index.ts:382-386 | each cell of a row takes the next draw in row-major order unless it lies on a corridor, and the row leaves the seed after all its draws |
| GridGen.RowsDrawsAt | project_ts/src/index.ts:382-387 | each cell of the map takes the draw numbered by the non-corridor cells before it in row-major order |
| GridGen.RowsCons | project_ts/src/index.ts:382-387 | a row put in front of the rows below it keeps the draw numbering |
| GridGen.GenerateGrid | project_ts/src/index.ts:374-391 | the map has `height` rows of `width` cells |
| GridGen.GenerateGridCells | project_ts/src/index.ts:374-391 | the corners are open and every other cell is a wall exactly when it is off the corridors and its draw is below `blockRatio` |
| GridGen.GenerateGridOpen | project_ts/src/index.ts:382-389 | corridor cells and both corners are open, cells are 0 or 1, a ratio of at most 0 gives no walls and one of at least 1 walls every cell off the corridors and corners |
| Jps.DirectionsFromParent | project_ts/src/astar_jps.ts:117-149 | every direction is one of the eight king moves, and in 4-neighbour mode only rook moves come out |
| Jps.RootDirections | project_ts/src/astar_jps.ts:118-124 | a node without a parent searches exactly the moves its mode allows, each once |
| Jps.ForwardDirections | project_ts/src/astar_jps.ts:126-148 | a node reached from a parent never searches back towards it: every direction points forward |
| Jps.StraightOn | project_ts/src/astar_jps.ts:136-138 | in 4-neighbour mode a node reached from a parent keeps only its arrival direction |
| Jps.ForcedNeedsWall | project_ts/src/astar_jps.ts:151-168 | a cell whose eight neighbours are all open has no forced neighbour |
| Jps.Jump | project_ts/src/astar_jps.ts:170-198 | a jump point is walkable and lies in the direction of the jump |
| Jps.JumpClear | project_ts/src/astar_jps.ts:179-197 | every cell a successful jump passes over is walkable |
| Jps.JumpStraight | project_ts/src/astar_jps.ts:179-197 | a straight jump stops at the first cell that is the goal or has a forced neighbour, and a failed one passes no such cell before the wall |
| Jps.WalkLength | project_ts/src/astar_jps.ts:242-252 | the inner loop of `expandPath` appends one cell per king move: the larger of the two coordinate distances |
| Jps.WalkSteps | project_ts/src/astar_jps.ts:242-252 | the cells appended between two jump points are adjacent king moves, and rook moves when the two points share a row or column |
| Jps.ExpandPath | project_ts/src/astar_jps.ts:238-255 | the expanded path is empty exactly for no jump points and keeps the first and last jump point at its ends |
| Jps.ExpandWalk | project_ts/src/astar_jps.ts:238-255 | jump points joined by open straight segments expand into a 4-neighbour walk between the first and the last |
| Jps.Loop | project_ts/src/astar_jps.ts:257-295 | the search loop keeps its invariant; a node it returns is a live node on the goal that is not closed |
| Jps.BacktrackChain | project_ts/src/astar_jps.ts:264-271 | following `parentMap` from a recorded cell ends at the start, each step an open straight segment |
| Jps.JumpPathSound | project_ts/src/astar_jps.ts:262-273 | the path rebuilt from the goal is a 4-neighbour walk from start to goal |
| Jps.FindPathJps | project_ts/src/astar_jps.ts:200-298 | null for a blocked endpoint, `[start]` when the endpoints coincide, and any path returned is a walk from start to goal |
| Jps.JpsEvents | pathfinding-visualizer/algorithms.js:348-438 | one error for a blocked endpoint, the two-event answer for equal endpoints, otherwise counts 1, 2, ... with each cell reported `'current'` at most once, ended by the path or the not-found error; the path is the TypeScript search's |
| Jps.JpsMissesDiagonalGoal | project_ts/src/astar_jps.ts:170-197 | on the open 2 x 2 grid the search returns null from `(0,0)` to `(1,1)` although the corners are joined by a walk |
| Jps.FindPathJpsCorrected | project_ts/src/astar_jps.ts:200-298 | null for a blocked endpoint, `[start]` for equal endpoints, null exactly when the goal is unreachable, otherwise a shortest walk |
| Jps.SquareShortest | project_ts/src/astar_jps.ts:200-298 | every shortest walk between the corners of the open 2 x 2 grid has three cells |
| Bidirectional.ExpandQueue | project_ts/src/bidirectional-search.ts:161-168 | expanding a node marks exactly its unmarked neighbours, queues a child node for each in order, and closes nothing else |
| Bidirectional.ExpandParent | project_ts/src/bidirectional-search.ts:161-168 | each newly marked neighbour records the expanded node as its parent; earlier parent records stay |
| Bidirectional.HalfApart | project_ts/src/bidirectional-search.ts:151-168 | a half-step of one side that does not meet marks no cell the other side has already expanded |
| Bidirectional.StartHalfKeeps | project_ts/src/bidirectional-search.ts:151-168 | the start side's half-step keeps both sides' invariants, leaves the goal side alone and closes exactly the dequeued cell |
| Bidirectional.GoalHalfKeeps | project_ts/src/bidirectional-search.ts:170-186 | the goal side's half-step keeps both sides' invariants, leaves the start side alone and closes exactly the dequeued cell |
| Bidirectional.Loop | project_ts/src/bidirectional-search.ts:151-187 | the loop ends; at a meeting the met node's chain is a walk from its own root to a cell the other side has marked; without one a queue is empty |
| Bidirectional.NoMeetingUnreachable | project_ts/src/bidirectional-search.ts:187-189 | when a queue runs empty without a meeting the goal cannot be reached from the start |
| Bidirectional.MeetingWalkSound | project_ts/src/bidirectional-search.ts:157-176 | the met node's chain joined with the other side's chain of the same cell is a walk from start to goal |
| Bidirectional.LoopMeetsIffReachable | project_ts/src/bidirectional-search.ts:151-189 | the loop meets exactly when the goal is reachable from the start |
| Bidirectional.SameEndpoints | project_ts/src/bidirectional-search.ts:153-158 | with equal endpoints the first node dequeued meets |
| Bidirectional.Backward | project_ts/src/bidirectional-search.ts:76-81 | the `while (current)` loop lists a node's chain from the node back to its root |
| Bidirectional.ReconstructPath | project_ts/src/bidirectional-search.ts:67-98 | the start-side chain in root-first order followed by the goal-side chain from its node towards the goal without that node's own cell |
| Bidirectional.FindPathBidirectional | project_ts/src/bidirectional-search.ts:108-190 | null for a blocked endpoint and exactly when the goal is unreachable; `[start]` when the endpoints coincide |
| Bidirectional.AsWrittenDropsOne | project_ts/src/bidirectional-search.ts:157-177 | with distinct endpoints the rebuilt path is the walk through the meeting cell with one inner cell missing |
| Bidirectional.GapBreaksWalk | project_ts/src/bidirectional-search.ts:94 | a 4-neighbour walk with one cell after the first removed is no longer a walk between the same ends |
| Bidirectional.FindPathNeverWalks | project_ts/src/bidirectional-search.ts:157-177 | in 4-neighbour mode with distinct endpoints, a path returned is never a walk from start to goal |
| Bidirectional.FindPathBidirectionalFixed | project_ts/src/bidirectional-search.ts:108-190 | null for a blocked endpoint and exactly when the goal is unreachable, otherwise a walk from start to goal, `[start]` when they coincide |
| Bidirectional.FirstChild | pathfinding-visualizer/additional-algorithms.js:242-252 | a cell the row-major scan finds has the met cell as its recorded parent on the other side |
| Bidirectional.Collect | pathfinding-visualizer/additional-algorithms.js:254-262 | the tail loop throws `TypeError` exactly when it never meets the target cell; otherwise it takes the nodes up to and including the first occurrence of the target |
| Bidirectional.GeneratorPathIsChain | pathfinding-visualizer/additional-algorithms.js:233-263 | at every meeting the scan finds nothing, so the reported path is just the met node's chain |
| Bidirectional.BidirectionalEvents | pathfinding-visualizer/additional-algorithms.js:183-345 | never throws; one error for a blocked endpoint; counts 1, 2, ...; a path exactly when reachable, which is a walk from start or from goal to the meeting cell and, for distinct endpoints, never a walk from start to goal |
| Bidirectional.BidirectionalEventsFixed | pathfinding-visualizer/additional-algorithms.js:183-345 | never throws; one error for a blocked endpoint; counts 1, 2, ...; a path exactly when reachable, and that path is a walk from start to goal |
| Bidirectional.Relax | project_ts/src/bidirectional-search.ts:271-278 | the neighbour loop keeps every existing distance, gives new distances only to neighbours, and queues only neighbours |
| Bidirectional.Merge | project_ts/src/bidirectional-search.ts:259-267 | the merged table covers both tables' cells, keeps every start-side distance and takes the goal-side distance for every other cell |
| Bidirectional.RelaxKeeps | project_ts/src/bidirectional-search.ts:271-278 | every cell the neighbour loop gives a distance is walkable and reachable from the side's root |
| Bidirectional.WaveTurnKeeps | project_ts/src/bidirectional-search.ts:250-278 | one side's turn keeps the side's invariant; a skip visits nothing, a meeting happens on a cell the other side visited, an expansion visits a new cell |
| Bidirectional.AllLoop | project_ts/src/bidirectional-search.ts:248-312 | a nonempty result means the goal is reachable, gives the start distance 0 and holds only walkable cells |
| Bidirectional.BidirectionalAll | project_ts/src/bidirectional-search.ts:202-313 | empty tables for a blocked endpoint, an empty distance table when the goal is unreachable, otherwise the start at distance 0 and only walkable cells |
| Bidirectional.BidirectionalAllFixed | project_ts/src/bidirectional-search.ts:192-201 | the documented result: the least number of steps from the start for exactly the reachable cells, parent entries one step nearer the start |
| BidirectionalExamples.FindPathRow2 | project_ts/src/bidirectional-search.ts:175-176 | on the open 1 x 2 grid from `(0,0)` to `(1,0)` the search returns `[(0,0)]` |
| BidirectionalExamples.FixedRow2 | project_ts/src/bidirectional-search.ts:175-176 | on the same grid the repaired search returns `[(0,0), (1,0)]` |
| BidirectionalExamples.GeneratorRow3 | pathfinding-visualizer/additional-algorithms.js:231-267 | on the open 1 x 3 row from `(0,0)` to `(2,0)` the generator reports a path that is not a walk between them, though one exists |
| BidirectionalExamples.AllRow3 | project_ts/src/bidirectional-search.ts:259-267 | on the open 1 x 3 row with start `(0,0)` and goal `(1,0)` the result gives `(2,0)` distance 1, while its distance from the start is 2 |
| GameMapDfs.AdjacentStep | project_ts/src/game-map-dfs.ts:28-34 | the four direction offsets reach exactly the cells one row or one column away |
| GameMapDfs.Fewer | project_ts/src/game-map-dfs.ts:49-54 | a cell that passes `isValidAndPassable` lies in the `rows x cols` rectangle and is unvisited, so marking it shrinks the unvisited part |
| GameMapDfs.ReachBack | project_ts/src/game-map-dfs.ts:28-34 | the 4-neighbour relation is symmetric, so reachability between open cells is too |
| GameMapDfs.ClosedHolds | project_ts/src/game-map-dfs.ts:115-125 | a visited set holding every open neighbour of its cells holds every cell reachable from them |
| GameMapDfs.Visit | project_ts/src/game-map-dfs.ts:95-126 | one `dfsRecursive` call marks its cell, lists it first and then exactly the other newly visited cells, each once, all open |
| GameMapDfs.Dirs | project_ts/src/game-map-dfs.ts:115-125 | the direction loop only ever adds open cells and lists exactly the ones it adds |
| GameMapDfs.VisitReach | project_ts/src/game-map-dfs.ts:95-126 | every cell a recursive exploration visits is reachable from its starting cell |
| GameMapDfs.VisitClosed | project_ts/src/game-map-dfs.ts:95-126 | after a recursive exploration every open neighbour of every cell it visited is visited |
| GameMapDfs.DirsCover | project_ts/src/game-map-dfs.ts:115-125 | the direction loop leaves every open neighbour in the remaining directions visited |
| GameMapDfs.VisitRegion | project_ts/src/game-map-dfs.ts:194-207 | exploring from an unvisited open cell next to a closed visited set adds exactly that cell's region |
| GameMapDfs.OfKind | project_ts/src/game-map-dfs.ts:103-113 | the treasure and enemy lists hold exactly the visited cells with that code, in visiting order |
| GameMapDfs.ExploreArea | project_ts/src/game-map-dfs.ts:83-133 | an invalid start gives three empty lists; otherwise `visitedCells` starts at the start and lists its whole region, each cell once; treasures and enemies are its cells of those codes |
| GameMapDfs.Seek | project_ts/src/game-map-dfs.ts:145-174 | a found path starts at the cell, ends at the target, is a walk through newly visited cells without repeats; a failure has not visited the target |
| GameMapDfs.SeekDirs | project_ts/src/game-map-dfs.ts:158-168 | a path found by a neighbour starts next to the cell and ends at the target |
| GameMapDfs.SeekClosed | project_ts/src/game-map-dfs.ts:145-174 | a failed search has visited every open neighbour of every cell it visited |
| GameMapDfs.NotFound | project_ts/src/game-map-dfs.ts:176-181 | when the search from a valid start fails, the target is not reachable from it |
| GameMapDfs.FindPathDfs | project_ts/src/game-map-dfs.ts:139-182 | `null` exactly when the target is not reachable from the start (an invalid start reaches nothing); otherwise a walk from start to target without repeated cells |
| GameMapDfs.Scan | project_ts/src/game-map-dfs.ts:209-221 | the row-major scan ends with lists that cover exactly the open cells, each a whole region |
| GameMapDfs.ScanStep | project_ts/src/game-map-dfs.ts:212-219 | a component started at an unvisited open cell is that cell's region, disjoint from the earlier ones |
| GameMapDfs.Components | project_ts/src/game-map-dfs.ts:188-224 | every component is nonempty, repeat-free and exactly the region of its first cell; components are pairwise disjoint; together they are exactly the open cells |
| GameMapDfs.Pushes | project_ts/src/game-map-dfs.ts:250-259 | the pushed cells are the open unvisited neighbours |
| GameMapDfs.IterateRegion | project_ts/src/game-map-dfs.ts:236-260 | from any state meeting the loop invariant the loop lists each cell of the start's region once and nothing else |
| GameMapDfs.IterVisit | project_ts/src/game-map-dfs.ts:244-259 | visiting a popped cell and pushing its open unvisited neighbours keeps the invariant |
| GameMapDfs.ExploreAreaIterative | project_ts/src/game-map-dfs.ts:230-263 | the start's region, each cell once, empty for an invalid start; the same cells as `exploreAreaDFS` |
| Match3.NewBoard | project_ts/src/match3-game-algorithms.ts:32-38 | a new grid has the given shape and every cell `EMPTY` |
| Match3.Set | project_ts/src/match3-game-algorithms.ts:53-57 | a write off the board leaves it unchanged; a write on it changes that cell only |
| Match3.Swap | project_ts/src/match3-game-algorithms.ts:62-66 | two cells on the board exchange their gems and every other cell keeps its own |
| Match3.SwapTwice | project_ts/src/match3-game-algorithms.ts:62-66 | swapping the same two cells twice gives back the board when both are on it or both off it |
| Match3.SwapOffBoardLoses | project_ts/src/match3-game-algorithms.ts:62-66 | swapping a cell with one off the board empties it: the gem is lost |
| Match3.Remove | project_ts/src/match3-game-algorithms.ts:71-73 | the cell becomes `EMPTY`, nothing else changes |
| Match3.Clear | project_ts/src/match3-game-algorithms.ts:85-91 | every cell `EMPTY`, the shape kept |
| Match3.ScanLine | project_ts/src/match3-game-algorithms.ts:118-136 | from the current scan state on, the reported runs are exactly the maximal runs of three or more equal non-`EMPTY` gems that start at or after the current start |
| Match3.Runs | project_ts/src/match3-game-algorithms.ts:113-136 | a run is reported if and only if it is maximal, at least three long and not `EMPTY` |
| Match3.NoRunsWithoutPairs | project_ts/src/match3-game-algorithms.ts:121-124 | a line with no two equal neighbouring gems has no run |
| Match3.FindHorizontalMatches | project_ts/src/match3-game-algorithms.ts:110-140 | a match is reported if and only if it is a maximal run of three or more in its row |
| Match3.FindVerticalMatches | project_ts/src/match3-game-algorithms.ts:145-175 | a match is reported if and only if it is a maximal run of three or more in its column, starting at its row |
| Match3.LongestOverlap | project_ts/src/match3-game-algorithms.ts:205-211 | the longest overlapping match length, and at least the starting length |
| Match3.MergeFrom | project_ts/src/match3-game-algorithms.ts:197-219 | one match per key (row, column, type) not yet processed, each as long as every match of that key |
| Match3.MergeMatches | project_ts/src/match3-game-algorithms.ts:192-222 | the merged list has the same keys as the input, no key twice, each as long as every input match of that key |
| Match3.FindAllMatches | project_ts/src/match3-game-algorithms.ts:180-187 | the keys are exactly those of the row and column runs, each once, at least as long as every run with that key |
| Match3.NoMatchesWithoutRuns | project_ts/src/match3-game-algorithms.ts:180-187 | a board with no run in any row or column has no match |
| Match3.EmptyBoardNoMatches | project_ts/src/test-match3-game-algorithms.ts:143-147 | a new, all-`EMPTY` grid has no match |
| Match3.ClearMatch | project_ts/src/match3-game-algorithms.ts:280-290 | the cells of the match from `i` on become `EMPTY`, other cells keep their gems, and exactly the non-`EMPTY` ones are reported with their gems |
| Match3.EliminateOriented | project_ts/src/match3-game-algorithms.ts:276-307 | the cells of every match of three or more, along its direction, become `EMPTY`; every other cell keeps its gem; the report holds exactly the gems removed |
| Match3.EliminateMatches | project_ts/src/match3-game-algorithms.ts:270-310 | as written: a cell is emptied if and only if some match of three or more covers it along the match's row; the removed-gem array holds exactly the non-`EMPTY` gems of the emptied cells, each with its cell |
| Match3.EliminateMissesColumnRun | project_ts/src/match3-game-algorithms.ts:279-291 | on a column of three reds the run is found, yet the red at row 1 survives elimination |
| Match3.FindAllMatchesOriented | project_ts/src/match3-game-algorithms.ts:180-187 | the row runs tagged horizontal and the column runs tagged vertical cover exactly the cells that lie in some run |
| Match3.EliminateMatchesFixed | project_ts/src/match3-game-algorithms.ts:276-305 | exactly the cells lying in a run of their row or column become `EMPTY`, all others keep their gems, and every removed gem is reported |
| Match3.SettledShape | project_ts/src/match3-game-algorithms.ts:318-342 | a column with no `EMPTY` cell below a gem is its empties followed by its gems in order |
| Match3.Fall | project_ts/src/match3-game-algorithms.ts:320-341 | after the bottom-up pass the column is settled, holds the same gems in the same order, and every move goes strictly down |
| Match3.GravityFrom | project_ts/src/match3-game-algorithms.ts:318-342 | columns before `c` are untouched; each later column becomes its empties above its gems in order; moves stay in their column and go down |
| Match3.ApplyGravity | project_ts/src/match3-game-algorithms.ts:315-345 | each column becomes its empties above its gems in their original order; every move stays in its column and goes down |
| Match3Play.BaseScore | project_ts/src/match3-game-algorithms.ts:444-458 | every gem, `EMPTY` included, has a positive base; it is 10 exactly for the gems other than the three specials |
| Match3Play.CalculateBaseScore | project_ts/src/match3-game-algorithms.ts:438-461 | the score is the largest integer not above (base + 5 · length) · chain · combo |
| Match3Play.DefaultMultipliers | project_ts/src/match3-game-algorithms.ts:438-461 | with the default multipliers the score is base + 5 · length exactly |
| Match3Play.EmptyScoresAsPlain | project_ts/src/match3-game-algorithms.ts:444-458 | the table lists `EMPTY` at 0, yet it scores like a red gem |
| Match3Play.ScoreGrowsWithLength | project_ts/src/match3-game-algorithms.ts:459-461 | with non-negative multipliers a longer match never scores less |
| Match3Play.CalculateMoveScore | project_ts/src/match3-game-algorithms.ts:596-610 | the summed base scores, doubled when some match is five or longer, one and a half times when the longest is four, unchanged otherwise |
| Match3Play.MoveScoreBounds | project_ts/src/match3-game-algorithms.ts:596-610 | a move scores between the plain sum and twice it |
| Match3Play.TrySwap | project_ts/src/match3-game-algorithms.ts:550-566 | the board comes back unchanged, and a hint is produced exactly when the swap makes a match |
| Match3Play.MovesFrom | project_ts/src/match3-game-algorithms.ts:547-587 | the board comes back unchanged; the hints are exactly the right and down swaps from `(r, c)` on that make a match, each scored on its matches |
| Match3Play.HasMovesFrom | project_ts/src/match3-game-algorithms.ts:228-257 | the board comes back unchanged; true exactly when some right or down swap from `(r, c)` on makes a match |
| Match3Play.HasPossibleMoves | project_ts/src/match3-game-algorithms.ts:227-258 | the board comes back unchanged; true exactly when some swap with a neighbour makes a match |
| Match3Play.HasMovesIffHints | project_ts/src/match3-game-algorithms.ts:227-258 | `hasPossibleMoves` is true exactly when `findPossibleMoves` finds a move |
| Match3Play.Insert | project_ts/src/match3-game-algorithms.ts:590 | inserting into a list sorted by descending score keeps it sorted and adds exactly that hint |
| Match3Play.SortByScore | project_ts/src/match3-game-algorithms.ts:590 | a permutation of the hints with scores in descending order |
| Match3Play.FindPossibleMoves | project_ts/src/match3-game-algorithms.ts:531-591 | the board comes back unchanged; the result is a permutation of the found hints, highest score first; every right or down swap that makes a match is in it, and nothing else |
| Match3Play.GetBestHint | project_ts/src/match3-game-algorithms.ts:615-624 | none exactly when no swap makes a match; otherwise a hint scoring at least as much as every improving swap |
| Match3Play.IsStuck | project_ts/src/match3-game-algorithms.ts:629-631 | stuck exactly when no swap makes a match, which is when `findPossibleMoves` is empty |
| Llk.Repeat | llk/script.js:68-72 | the nested loop yields `n` copies of each pattern `1..hi` and nothing else, `hi * n` values in all |
| Llk.GenerateBoard | llk/script.js:59-85 | the deal has 140 values: 6 copies of each of patterns 1 to 14, 4 of each of 15 to 28, and no other value |
| Llk.DealIsEven | llk/script.js:59-85 | every value occurs an even number of times in the deal |
| Llk.PlaceFirst | llk/script.js:137-141 | after `k` rounds the `i`-th pattern sits at the `i`-th shuffled position, `k` blocks are counted, and no other cell changed |
| Llk.PlacePatternsByLayers | llk/script.js:118-143 | as many patterns as there are both patterns and positions are placed in order and counted; every other cell keeps its pattern |
| Llk.LayoutCounts | llk/script.js:96-143 | after placing on an empty board, each pattern occupies exactly as many cells as it has copies among the placed values |
| Llk.LayoutFilled | llk/script.js:96-143 | after placing `k` patterns on an empty board exactly `k` cells are filled, so the block count equals the number of filled cells |
| Llk.Tally | llk/script.js:238-247 | the map counts, for every pattern seen, the cells holding it |
| Llk.QuickValidation | llk/script.js:234-259 | true exactly when every pattern occupies an even number of cells |
| Llk.DealPassesValidation | llk/script.js:59-143 | any shuffle of the deal on any order of the 140 cells fills all 140 cells, counts 140 blocks, and passes `quickValidation` |
| Llk.CanReachTopBorder | llk/script.js:504-510 | true exactly when every cell above the cell in its column is empty |
| Llk.CanReachBottomBorder | llk/script.js:512-518 | true exactly when every cell below the cell in its column is empty |
| Llk.CanReachLeftBorder | llk/script.js:520-526 | true exactly when every cell left of the cell in its row is empty |
| Llk.CanReachRightBorder | llk/script.js:528-534 | true exactly when every cell right of the cell in its row is empty |
| Llk.CanDirectConnect | llk/script.js:536-566 | true exactly when the two cells share a row or column and every cell strictly between them is empty (neighbours included) |
| Llk.FindOneCornerPath | llk/script.js:568-604 | a path exists exactly when a corner `(row1, col2)` or `(row2, col1)` is on the board, empty or allowed when the rows agree, with both legs clear; the path is `[p1, corner, p2]` |
| Llk.CornerWhenBlocked | llk/script.js:568-604 | when the straight line is blocked, the one-corner search succeeds exactly when an empty corner joins the cells by two clear legs |
| Llk.EdgeRowFree | llk/script.js:421-426 | true exactly when the edge row is empty between the two columns, the cells' own columns aside |
| Llk.EdgeColFree | llk/script.js:467-471 | true exactly when the edge column is empty between the two rows, the cells' own rows aside |
| Llk.FindTopBorderPath | llk/script.js:407-433 | a path exists exactly when both cells see row -1 and the top row is free between their columns; it turns at two virtual points on row -1 |
| Llk.FindBottomBorderPath | llk/script.js:435-456 | the same over the bottom, with virtual points on row 14 |
| Llk.FindLeftBorderPath | llk/script.js:458-479 | the same on the left, with virtual points on column -1 |
| Llk.FindRightBorderPath | llk/script.js:481-502 | the same on the right, with virtual points on column 10 |
| Llk.FindBorderPath | llk/script.js:390-405 | a path exists exactly when one of the four detours does, and it is a drawable four-point route |
| Llk.FindPath | llk/script.js:373-388 | a path exists exactly when a straight line, a turn at an empty corner or a border detour joins the cells; every path returned starts and ends at the two cells, has clear segments and turns only at empty or virtual points; a clear straight line gives the two-point path |
| Llk.CanConnect | llk/script.js:368-371 | true exactly when `findPath` returns a drawable route |
| Llk.ConnectSymmetric | llk/script.js:368-388 | whether two cells connect does not depend on their order |
| Llk.PartnerFrom | llk/script.js:655-662 | true exactly when some cell from the given one on has the first cell's pattern and connects to it |
| Llk.MovesFrom | llk/script.js:648-667 | true exactly when some filled cell from the given one on pairs with a later cell |
| Llk.PairsFromStart | llk/script.js:648-667 | a pair of a cell with a later one exists exactly when any two distinct cells pair |
| Llk.HasValidMoves | llk/script.js:648-667 | true exactly when two distinct filled cells of the same pattern connect |
| Llk.TakePair | llk/script.js:621-627 | both cells become empty, every other cell keeps its pattern, and two fewer blocks remain |
| Llk.CheckConnection | llk/script.js:351-366 | a pair is taken exactly when the patterns agree and the cells connect; otherwise the game is unchanged |
| Llk.TakePairKeepsCount | llk/script.js:621-627 | taking two distinct filled cells keeps the block count equal to the number of filled cells |
| Llk.TakePairKeepsParity | llk/script.js:621-627 | taking two distinct cells of one pattern keeps every pattern's count even, so `quickValidation` still holds |
| Match3Play.FillGridSimple | project_ts/src/match3-game-algorithms.ts:713-726 | as written: the shape is kept and cell `(r, c)` holds pattern entry `(r · cols + c) mod 9` |
| Match3Play.FillSimpleNineColumns | project_ts/src/match3-game-algorithms.ts:711-726 | on a 3 x 9 grid the fallback layout has a match |
| Match3Play.FillSimpleSevenColumns | project_ts/src/match3-game-algorithms.ts:711-726 | on a 3 x 7 grid the fallback layout has a match |
| Match3Play.FillSimpleTwoColumns | project_ts/src/match3-game-algorithms.ts:711-726 | on a 4 x 2 grid the fallback layout has a match |
| Match3Play.FillGridTiled | project_ts/src/match3-game-algorithms.ts:711-726 | the pattern laid as a 3 x 3 tile leaves no initial match on a board of any size |
| Match3Play.TiledNoMatches | project_ts/src/match3-game-algorithms.ts:711-726 | a board laid out as the tile has no match |
| Match3Play.GenerateObjectives | project_ts/src/match3-game-algorithms.ts:731-770 | the configuration of the difficulty, and three goals whose counts are the target per thousand and the moves per five and per ten, rounded down |
| Match3Play.HarderIsStricter | project_ts/src/match3-game-algorithms.ts:739-764 | a harder level asks for more points and more reds in fewer moves and less time |
| SlgMap.NewMap | project_ts/src/slg-game-algorithms.ts:53-59 | a map of the given sizes with `height` rows of `width` cells, every cell plain |
| SlgMap.GetTerrain | project_ts/src/slg-game-algorithms.ts:64-69 | the stored terrain of a cell on the map, and plain for every position off it |
| SlgMap.SetTerrain | project_ts/src/slg-game-algorithms.ts:74-78 | the cell on the map takes the terrain and every other position keeps its own; a position off the map changes nothing; the sizes stay |
| SlgMap.MovementCost | project_ts/src/slg-game-algorithms.ts:83-136 | the cost lies between 0.5 and 10, and off the map it is the plain cost: 3 for siege engines, 1 for the rest |
| SlgMap.IsPassable | project_ts/src/slg-game-algorithms.ts:142-148 | passable exactly when the terrain is not water and not a mountain under a siege engine, so every position off the map is passable; a passable cell costs at most 5 |
| SlgAStar.Heuristic | project_ts/src/slg-game-algorithms.ts:258-260 | never negative, zero exactly at the goal, and 1 between neighbouring cells |
| SlgAStar.GetNeighbors | project_ts/src/slg-game-algorithms.ts:265-289 | exactly the passable cells one step up, right, down or left; at most four |
| SlgAStar.SortByF | project_ts/src/slg-game-algorithms.ts:207 | a permutation of the open set in ascending `f`, over the same positions, with no position twice if none was |
| SlgAStar.FindIndex | project_ts/src/slg-game-algorithms.ts:234 | -1 exactly when no entry is at the position, otherwise the first entry at it |
| SlgAStar.ReconstructPath | project_ts/src/slg-game-algorithms.ts:294-313 | following the recorded parents back gives a walk from the start to the cell: each point a passable neighbour of the one before, of cost 1, the start left out, no cell twice |
| SlgAStar.Relax | project_ts/src/slg-game-algorithms.ts:220-248 | a neighbour already closed changes nothing; a neighbour seen for the first time gets the current cell as parent and an entry in the open set; the parent tree and the open set stay well formed |
| SlgAStar.FindPath | project_ts/src/slg-game-algorithms.ts:160-253 | no path when the start or the end is impassable; every path returned is a walk from the start to the end visiting no cell twice; the empty path when they coincide |
| SlgAi.NewFsm | project_ts/src/slg-game-algorithms.ts:330-334 | the machine starts in the initial state with no states and no transitions |
| SlgAi.AddState | project_ts/src/slg-game-algorithms.ts:339-349 | the state gets its configuration and an empty transition map, replacing any it had; every other state keeps its own |
| SlgAi.SetEdge | project_ts/src/slg-game-algorithms.ts:357 | `Map.set`: an existing target keeps its place and takes the new condition, a new one goes at the end; no target occurs twice |
| SlgAi.AddTransition | project_ts/src/slg-game-algorithms.ts:354-359 | ignored when the source state was never added; otherwise only that state's transition map changes, by `Map.set` |
| SlgAi.ChangeState | project_ts/src/slg-game-algorithms.ts:386-402 | to the current state nothing happens; otherwise the old state's `exit` and the new state's `enter` run, exactly those that exist, exit first, and the new state becomes current |
| SlgAi.FirstFiring | project_ts/src/slg-game-algorithms.ts:366-374 | the first transition whose condition holds, -1 exactly when none does; the conditions tested are those up to and including it, in insertion order |
| SlgAi.UpdateFsm | project_ts/src/slg-game-algorithms.ts:364-381 | the state and transition tables are unchanged; only the old state is exited and only the new one entered; the last call is the current state's `update` when it has one |
| SlgAi.UpdateTarget | project_ts/src/slg-game-algorithms.ts:364-381 | after `update` the state is unchanged when no condition holds, and otherwise the target of the first transition whose condition holds |
| SlgAi.SingleTransition | project_ts/src/slg-game-algorithms.ts:339-381 | a state with one transition moves to its target on `update` exactly when the condition holds |
| SlgAi.Execute | project_ts/src/slg-game-algorithms.ts:510-536 | an action returns its own status and a condition success exactly when it holds, each making one call |
| SlgAi.Run | project_ts/src/slg-game-algorithms.ts:471-504 | the calls are exactly those of the children that ran, in order, up to and including the one where the loop stopped |
| SlgAi.RunPasses | project_ts/src/slg-game-algorithms.ts:471-504 | a sequence (selector) returns success (failure) exactly when every child does |
| SlgAi.RunStops | project_ts/src/slg-game-algorithms.ts:471-504 | otherwise it returns the status of the child where it stopped |
| SlgAi.RanStops | project_ts/src/slg-game-algorithms.ts:471-504 | the children before the stopping one all returned the passing status, and the one it stopped at did not |
| SlgAi.AddChild | project_ts/src/slg-game-algorithms.ts:442-444 | a sequence or selector gets the child at the end; an action or condition is unchanged for `execute` |
| SlgAi.AddChildExecute | project_ts/src/slg-game-algorithms.ts:442-504 | adding a child changes nothing for a leaf or for a node that stopped early; otherwise the new child runs last and decides the status |
| SlgAi.Duality | project_ts/src/slg-game-algorithms.ts:466-536 | exchanging sequences and selectors and negating every action and condition exchanges success and failure and makes the same calls |
| SlgAi.DualityRun | project_ts/src/slg-game-algorithms.ts:471-504 | the same duality for the children of one node |
| SlgResources.InsertByPriority | project_ts/src/slg-game-algorithms.ts:586 | inserting into a list sorted by descending priority keeps it sorted and adds exactly the one requirement |
| SlgResources.SortByPriority | project_ts/src/slg-game-algorithms.ts:586 | a permutation of the requirements in descending priority |
| SlgResources.InsertStable | project_ts/src/slg-game-algorithms.ts:586 | the inserted requirement goes before the others of its priority, which keep their order |
| SlgResources.SortStable | project_ts/src/slg-game-algorithms.ts:586 | the requirements of each priority keep their order, as the stable array sort leaves them |
| SlgResources.MinPass | project_ts/src/slg-game-algorithms.ts:589-594 | the first loop allocates for exactly the named resources, never more than is available, and leaves the rest alone |
| SlgResources.Remaining | project_ts/src/slg-game-algorithms.ts:597-600 | every resource's remainder is its amount less its first-loop allocation, absent keys counting 0 |
| SlgResources.TopUpFrame | project_ts/src/slg-game-algorithms.ts:603-607 | the second loop allocates for exactly the named resources and leaves every other allocation alone |
| SlgResources.OptimizeAllocation | project_ts/src/slg-game-algorithms.ts:573-610 | the requirements are left sorted by descending priority as a permutation of the input |
| SlgResources.OneRequirementEach | project_ts/src/slg-game-algorithms.ts:573-610 | with one requirement per resource, exactly the named resources are allocated, each the smaller of what is available and what is asked |
| SlgResources.OverAllocates | project_ts/src/slg-game-algorithms.ts:597-607 | as written: two requirements for 10 gold asking 10 and 20 are allocated 20 |
| SlgResources.OptimizeAllocationFixed | project_ts/src/slg-game-algorithms.ts:573-610 | with the remainder reduced as it is handed out, no resource is ever given more than is available; the requirements are left sorted as a permutation of the input |
| SlgResources.TopUpFixedBalanced | project_ts/src/slg-game-algorithms.ts:603-607 | while allocation plus remainder is each resource's amount and no remainder is negative, the corrected second loop keeps every allocation within what is available |
| SlgResources.FillTable | project_ts/src/slg-game-algorithms.ts:620-634 | every cell of `dp` holds the best value of the first `i` items within weight `w` (column 0 kept at 0 as written) |
| SlgResources.Reconstruct | project_ts/src/slg-game-algorithms.ts:636-655 | the counts taken back from the table fit the quantities and the capacity and are worth exactly the table's last cell; the picks list the nonzero counts |
| SlgResources.Knapsack | project_ts/src/slg-game-algorithms.ts:615-658 | the picks stand for counts within the quantities and the capacity whose value is the table's last cell |
| SlgResources.KnapsackOptimal | project_ts/src/slg-game-algorithms.ts:615-658 | when every weight is positive no feasible choice is worth more than the table's last cell |
| SlgResources.ZeroWeightMissed | project_ts/src/slg-game-algorithms.ts:627 | as written: one item of weight 0 and value 5 with capacity 0 fits, yet the table gives 0 |
| SlgResources.KnapsackFixed | project_ts/src/slg-game-algorithms.ts:615-658 | with column 0 filled the picks reach the optimum: no feasible choice is worth more |
| SlgResources.Optimal | project_ts/src/slg-game-algorithms.ts:625-634 | the filled table bounds the value of every feasible choice of the first `i` items |
| Spatial.NewGrid | project_ts/src/true-hierarchical-grid.ts:17-26 | an empty, well-formed bucket grid with the given cell size |
| Spatial.RemoveFromKey | project_ts/src/true-hierarchical-grid.ts:59-66 | the id is no longer tracked and the grid stays well formed (no empty bucket is kept) |
| Spatial.Add | project_ts/src/true-hierarchical-grid.ts:34-51 | the id is tracked at the cell of its position, which is returned; an id already in that cell leaves the grid unchanged |
| Spatial.Remove | project_ts/src/true-hierarchical-grid.ts:53-57 | the id is no longer tracked; an untracked id changes nothing |
| Spatial.CandidateIds | project_ts/src/true-hierarchical-grid.ts:69-83 | exactly the tracked ids whose cell lies in the key range of the rectangle's corners |
| Spatial.DrainCell | project_ts/src/true-hierarchical-grid.ts:86-94 | returns exactly the cell's ids, which stop being tracked; the cell's bucket is gone and every other id keeps its cell |
| Spatial.CellCount | project_ts/src/true-hierarchical-grid.ts:96-99 | the number of ids the cell holds |
| Spatial.Size | project_ts/src/true-hierarchical-grid.ts:101-103 | the number of tracked ids |
| Spatial.AddAll | project_ts/src/true-hierarchical-grid.ts:316-321 | adding a set of ids tracks each at the cell of its position and leaves every other id where it was |
| Spatial.NewHier | project_ts/src/true-hierarchical-grid.ts:128-139 | an empty index satisfying the invariant, with the lower threshold clamped to the upper one |
| Spatial.OnePlace | project_ts/src/true-hierarchical-grid.ts:110-126 | under the invariant a unit lives in exactly one place: the coarse grid when its cell is not refined, otherwise that cell's fine grid and no other |
| Spatial.MaybeRefine | project_ts/src/true-hierarchical-grid.ts:309-324 | an unrefined cell holding at least the threshold is drained into a new fine grid; otherwise nothing changes |
| Spatial.MaybeUnrefine | project_ts/src/true-hierarchical-grid.ts:327-341 | a fine grid holding no more than the lower threshold is dissolved; otherwise nothing changes |
| Spatial.RefineIsRefined | project_ts/src/true-hierarchical-grid.ts:313-322 | refining moves the cell's ids out of the coarse grid and its units into the new fine grid at their positions, owned by the cell |
| Spatial.RefinedKeeps | project_ts/src/true-hierarchical-grid.ts:313-322 | refining keeps every unit filed exactly where its position says |
| Spatial.UnrefineIsUnrefined | project_ts/src/true-hierarchical-grid.ts:332-339 | unrefining moves the fine grid's units back to the coarse grid at their positions, drops their owner and the fine grid |
| Spatial.UnrefinedKeeps | project_ts/src/true-hierarchical-grid.ts:332-339 | unrefining keeps every unit filed exactly where its position says |
| Spatial.MaybeRefineKeeps | project_ts/src/true-hierarchical-grid.ts:309-324 | the refine check keeps every unit filed where its position says and only moves ids out of the coarse grid |
| Spatial.MaybeUnrefineKeeps | project_ts/src/true-hierarchical-grid.ts:327-341 | the unrefine check keeps every unit filed where its position says and only moves ids of that fine grid |
| Spatial.AddUnit | project_ts/src/true-hierarchical-grid.ts:141-158 | the unit is recorded under its id and gets a coarse key |
| Spatial.RemoveUnit | project_ts/src/true-hierarchical-grid.ts:160-173 | the unit and its coarse key are forgotten |
| Spatial.UpdateUnit | project_ts/src/true-hierarchical-grid.ts:175-220 | a recorded unit takes its new value (the caller having mutated the stored object); the id gets a coarse key |
| Spatial.Clear | project_ts/src/true-hierarchical-grid.ts:300-306 | no units, no fine grids, an empty coarse grid, the settings kept |
| Spatial.ClearIsNew | project_ts/src/true-hierarchical-grid.ts:300-306 | clearing gives exactly the index the constructor builds with the same settings |
| Spatial.AddUnitInv | project_ts/src/true-hierarchical-grid.ts:141-158 | adding a unit with a new id keeps every unit filed exactly where its position says |
| Spatial.RemoveUnitInv | project_ts/src/true-hierarchical-grid.ts:160-173 | removing a unit keeps every other unit filed exactly where its position says |
| Spatial.UpdateUnitInv | project_ts/src/true-hierarchical-grid.ts:175-220 | moving a recorded unit, across coarse cells or within one, keeps every unit filed exactly where its position says |
| SpatialQuery.UnitsInRange | project_ts/src/true-hierarchical-grid.ts:222-271 | every id returned is a unit within the range of the point |
| SpatialQuery.UnitsInRangeExact | project_ts/src/true-hierarchical-grid.ts:222-271 | under the invariant and with a range not negative, an id is returned exactly when its unit is within the range |
| SpatialQuery.LessTotal | project_ts/src/true-hierarchical-grid.ts:287-288 | of two different ids exactly one is less than the other, so the pair's order is well defined |
| SpatialQuery.Candidates | project_ts/src/true-hierarchical-grid.ts:280-284 | every pair visited is of two units, the first with a positive range and the second within it |
| SpatialQuery.CandidatesHas | project_ts/src/true-hierarchical-grid.ts:280-284 | every neighbour listed for a unit with a positive range is visited with it |
| SpatialQuery.Recorded | project_ts/src/true-hierarchical-grid.ts:284-295 | the recorded pairs were visited, are of distinct units of different factions, and have pairwise distinct keys not seen before |
| SpatialQuery.RecordedCovers | project_ts/src/true-hierarchical-grid.ts:284-295 | every hostile pair of distinct units visited is recorded or shares its key with one that is |
| SpatialQuery.Group | project_ts/src/true-hierarchical-grid.ts:293-294 | the attackers are the keys, and a defender is listed under an attacker exactly when that pair was recorded |
| SpatialQuery.CombatsSound | project_ts/src/true-hierarchical-grid.ts:273-298 | every combat is a pair of distinct units of different factions with the defender within the attacker's positive range |
| SpatialQuery.CombatsOnce | project_ts/src/true-hierarchical-grid.ts:273-298 | no pair is recorded from both sides |
| SpatialQuery.CombatsComplete | project_ts/src/true-hierarchical-grid.ts:273-298 | with a key that tells pairs apart, every hostile pair of distinct units, one within the other's positive range, is recorded from one side or the other |
| SpatialQuery.JoinKeyInjective | project_ts/src/true-hierarchical-grid.ts:289 | the joined key tells pairs apart when no id contains a bar |
| SpatialQuery.CombatsCompleteWithoutBars | project_ts/src/true-hierarchical-grid.ts:273-298 | as written, with no bar in any id, every hostile pair in range is recorded |
| SpatialQuery.JoinKeyCollides | project_ts/src/true-hierarchical-grid.ts:287-291 | as written: the hostile pairs `x|y`-`z` and `x`-`y|z` share the key `x|y|z`, so the second is dropped, where the pair as key records both |
| SpatialQuery.CombatsCompleteFixed | project_ts/src/true-hierarchical-grid.ts:273-298 | with the pair itself as key, every hostile pair in range is recorded from one side or the other, whatever the ids |

## Left out

- Kmp: texts and patterns are sequences of UTF-16 code units (`Text`), as JavaScript indexes and measures strings; the examples write the units as numbers.
- Shuffle.RandomSwapShuffle: requires a nonempty array when any swap is made. On `[]` with a positive count the source draws index 0 of the empty copy and writes `undefined` there, returning `[undefined]`, an array longer than its input; the model's elements have no `undefined`, so that call is not modelled.
- Floating point: JavaScript numbers are modelled as unbounded integers; `Math.floor` of a division of nonnegative integers is Dafny's `/`, which agrees with it below 2^53.
- Gbfs: in 8-neighbour mode the heap compares octile distances computed in floating point. The model takes their order as an argument, `octile`, an integer rank per cell; the walk, repetition-freeness and reachability results hold for every ranking, so rounding cannot change them.
- A* and Dijkstra with `allowDiagonal`: the searches are modelled in 4-neighbour mode only, where every step costs 1; the `sqrt 2` steps would need floating-point comparisons of sums inside the loop. The 8-neighbour figures of `runExamples` (a 7-point walk, the `dijkstraAll` cost agreeing with `pathCost`) are therefore not modelled.
- AStar.FindPath, AStar.FindPathHeap, Dijkstra.FindPathDijkstra: the result is stated as some shortest walk, not as the particular one the tie-breaking of the scan or the heap selects.
- Dijkstra.DijkstraAll: the `dist` and `parent` matrices are maps; a cell missing from `dist` stands for `+Infinity` and one missing from `parent` for `undefined`.
- GridGen.GenerateGrid: requires both sizes to be at least 1; with `height` 0 the source throws on `grid[height - 1]`, and with `width` 0 it writes past the end of an empty row. `blockRatio` is a real number and `corridorStep` an integer.
- Jps: the search loop is modelled in 4-neighbour mode only, where a jump of `k` cells costs `k`; 8-neighbour jumps cost `Math.hypot`, a floating-point length. The direction and jump helpers are modelled in both modes.
- Jps.FindPathJps: only soundness is stated (a returned path is a walk); completeness fails, see Findings.
- Bidirectional.BidirectionalAll: the `parent` table is returned but nothing is stated about it, and a reachable goal is not shown to give a nonempty distance table.
- Bidirectional.BidirectionalAllFixed: follows the documented promise, so it ignores the goal and is breadth-first search from the start.
- Bidirectional: the JavaScript generator's tail loop at additional-algorithms.js:257 and :319 mixes `&&` and `||`, so it would dereference `null` if the scan before it ever found a cell. `Bidirectional.BidirectionalEvents` proves the scan never finds one (neither side marks a cell the other has already expanded), so the throw cannot happen; `Collect` models the loop with its `TypeError` all the same.
- GameMapDfs.ExploreArea, GameMapDfs.ExploreAreaIterative: the lists are characterised as sets with no repeats (and the recursive list as starting at the start), not as the particular depth-first order.
- GameMapDfs: every member requires a map with at least one row (`Valid`). The constructor reads `mapData[0].length`, so `new GameMap([])` throws a `TypeError` before any search can run; that path is not modelled.
- GameMapDfs: `printMap` and the console logging are output only. The `visited` matrix is a set of positions; positions outside the rectangle never reach it.
- `calculatePathLength` (bidirectional-search.ts:318) is the step count that `Costs` already models for the other searches.
- Match3: `getGrid` returns a copy, which a value needs no more of. `generateNewGems`, `processChainReactions` and `fillGridRandomly` draw from `Math.random`, and `generateValidLevel` retries it; they are not modelled. Nor are the animation helpers or the summary class, which only describe the code.
- Match3: `calculateComboBonus`, `calculateChainBonus`, `calculateSpecialEffectScore` and `calculateProgress` are separate scoring helpers that `calculateBaseScore` does not call. The chain and combo multipliers of `calculateBaseScore` are real numbers, and its score is an exact real rounded down.
- Match3.FindAllMatches: the merged length is stated as at least every run with the same key; that it equals the longest overlapping run is stated of `LongestOverlap` only.
- Match3Play.SortByScore, Match3Play.FindPossibleMoves: the order is stated as descending score and a permutation; that equal scores keep their discovery order (the stability of `Array.prototype.sort`) is not stated.
- Match3Play.IsStuck: `suggestShuffle` returns the same value and has no member of its own.
- Llk: the rendering, click handling, connection-line drawing, timer and win or loss dialogs are user interface. `shuffleArray` is `Math.random`: the shuffled patterns and positions are arguments. `showHint` is the search of `hasValidMoves` with highlighting, and `shuffleBoard` redeals the remaining patterns at random; neither has a member of its own. `getEdgePositions` and its siblings are not called by the placement.
- Llk: the connection rules are those of the code. There is no two-turn path inside the board, and a border detour also needs the edge row or column free between the two cells, although the virtual row or column it runs along lies outside the board.
- SlgMap, SlgAStar: the terrain and unit type enumerations are datatypes; costs, `f`, `g` and `h` are exact reals. A* keys cells by position rather than by the `"x,y"` strings, whose `split` and `Number` round trip is exact for integers. The `fScore` map is written and never read.
- SlgAStar.FindPath: only soundness is stated (a returned path is a simple walk from the start to the end of passable cells). That a path is found whenever one exists is not stated: the search stops after 10000 iterations. Nor is the path's cost minimal: each point is marked with cost 1 whatever its terrain.
- SlgAStar.SortByF: the sort is stated as a permutation in ascending `f`. That entries of equal `f` keep their order is not stated.
- SlgAi: the `enter`, `update` and `exit` callbacks, the transition conditions and the tree's actions and conditions are closures. A state records which callbacks it has, and a call appears as an event or an identifier. A condition's value and an action's status are arguments (`holds`, `test`, `act`), fixed for the whole call. `getCurrentState` is the `current` field. `BehaviorTree.execute` is `Execute` of the root. The `DECORATOR` node type has no class.
- SlgAi.AddTransition: requires that the source state's list names no target twice. That is the `Map` the list stands for, and `AddState` and `SetEdge` keep it so.
- SlgResources: amounts, priorities, values and weights are integers, not JavaScript numbers. The knapsack capacity is a natural number. `totalAllocated` is summed and never read. The in-place sort of the argument is the second component of the result.
- SlgResources.OneRequirementEach: stated for one requirement per resource. With two requirements for one resource the allocation can exceed what is available; see Findings.
- SlgResources.KnapsackOptimal: stated for positive weights. With an item of weight 0 the table as written is not optimal; see Findings.
- SlgResources.Knapsack: requires weights and quantities that are not negative. A negative weight would read `dp[i - 1]` beyond the capacity, which the code does not guard.
- `CombatCalculator`, `MarketAlgorithm` and the rest of the strategy-game module from line 666 on compute with floating point and random draws, and are not modelled.
- Spatial: positions are integers, and a cell is `Math.floor` of each coordinate over the cell size, computed exactly. The code multiplies by a floating reciprocal, which can round differently next to a cell border. Cells are pairs of integers rather than `"i,j"` strings, and units carry only their id, position, faction and attack range.
- Spatial: `allUnitIds` has no member of its own; the unrefining step reads the fine grid's tracked ids directly. The refining and unrefining loops are stated over the set of ids (`AddAll`): the grids they reach do not depend on the order.
- Spatial.AddUnitInv: stated for an id not yet recorded. `addUnit` never looks at `unitFineOwner`, so re-adding a unit that lives in another cell's fine grid leaves it filed there as well.
- Spatial.UpdateUnitInv: stated for a recorded id. For an unknown id `updateUnit` files the id and records a coarse key without a unit, which the model does as well (`UpdateUnit`).
- Spatial.UpdateUnit: records the passed unit under its id. `updateUnit` never writes `this.units`; it files the passed position in the grids. The two agree when the caller passes the stored object it has just mutated, as the combat system does (project_ts/src/realtime-combat-system.ts:290-293). If a fresh object with the same id is passed, the source keeps the old object in `units`, so `getUnitsInRange` and refining read the old position; the model does not follow that case.
- SpatialQuery.UnitsInRange: returns the set of ids rather than the array of units in the order the cells are visited.
- SpatialQuery: the iteration orders of the JavaScript `Map` and `Set` are arguments. `order` is the order of `allUnits`, and `listing` holds the lists `getUnitsInRange` returns; `Listed` ties them to the model. The combat lemmas assume every unit is recorded under its own id (`Keyed`). `KeyedKept` shows that adding, updating and removing units keep this.
- SpatialQuery.Less: compares strings character by character. JavaScript compares UTF-16 code units, and the two orders differ only between characters outside the Basic Multilingual Plane and those above U+E000.

## Findings

| source | as written | input that shows it | evidently intended | confidence | as-written member | corrected member |
|---|---|---|---|---|---|---|
| project_ts/src/algorithms.ts:502 | when `arr[low] == arr[high]` with `low < high` the probe divides 0 by 0; the NaN probe ends the loop with -1 | `interpolationSearch([5, 5], 5)` returns -1 | probe `low` when all values of the window are equal | high, not executed | Searching.InterpolationSearch | Searching.InterpolationSearchFixed |
| project_ts/src/astar_jps.ts:170-197 | in 4-neighbour mode a straight jump stops only at the goal itself or at a cell with a forced neighbour and returns null at the grid edge (line 181), so it runs past the goal's row or column; on an open grid no cell has a forced neighbour, and since a node with a parent then jumps only straight on (lines 136-138), no node ever reaches the goal | `findPathJPS([[0,0],[0,0]], (0,0), (1,1))` returns null: the root's jumps along row 0 and column 0 pass `(1,0)` and `(0,1)` and return null at the grid edge | stop every 4-neighbour jump after one cell and search all four directions from every node, which makes every open cell a jump point and the search heap A*: a shortest walk, null exactly when the goal is unreachable | high, not executed | Jps.JpsMissesDiagonalGoal | Jps.FindPathJpsCorrected |
| project_ts/src/bidirectional-search.ts:158,176 | the meeting passes the other side's parent record, not the met cell's own node, so the met cell (goal side) or the cell after it (start side) is left out | on `[[0,0]]` from `(0,0)` to `(1,0)` the result is `[(0,0)]` | the start-side chain of the meeting cell followed by the goal-side chain of the same cell | high, not executed | BidirectionalExamples.FindPathRow2 | Bidirectional.FindPathBidirectionalFixed |
| project_ts/src/bidirectional-search.ts:263-264 | the merge copies distances measured from the goal into the table documented as distances from the start | on `[[0,0,0]]` with start `(0,0)` and goal `(1,0)`, `dist` of `(2,0)` is 1 instead of 2 | distances from the start for every reachable cell | high, not executed | BidirectionalExamples.AllRow3 | Bidirectional.BidirectionalAllFixed |
| pathfinding-visualizer/additional-algorithms.js:242-262 | the scan looks for a cell whose other-side parent is the met cell, which never exists, so the path is only the met node's own chain | on `[[0,0,0]]` from `(0,0)` to `(2,0)` the path ends at the meeting cell, not at `(2,0)` | the met node's chain joined with the other side's chain of the same cell | high, not executed | BidirectionalExamples.GeneratorRow3 | Bidirectional.BidirectionalEventsFixed |
| project_ts/src/match3-game-algorithms.ts:279 | `match.row` is always a number, so every match is cleared along its row and vertical matches clear a horizontal strip | a 3 x 1 column of reds: the run is found, row 0 is cleared, and the reds at rows 1 and 2 stay | clear a vertical match down its column | high, not executed | Match3.EliminateMissesColumnRun | Match3.EliminateMatchesFixed |
| project_ts/src/match3-game-algorithms.ts:711-722 | the pattern is indexed by `(row · cols + col) mod 9`, so column 0 repeats with period dividing 9 / gcd(cols, 9) and can hold three equal gems | 3 x 9 (every row the same), 3 x 7 (entries 0, 7, 5 all red) and 4 x 2 (entries 2, 4, 6 all green) each have a vertical match | a layout with no initial match, as the doc comment promises | high, not executed | Match3Play.FillSimpleNineColumns | Match3Play.FillGridTiled |
| project_ts/src/slg-game-algorithms.ts:597-607 | the remaining map is computed once from the first-loop allocation and never reduced, so every requirement for a resource tops up from the same remainder | resources `{gold: 10}` and the requirements (gold, amount 10, priority 2, minimum 0) and (gold, amount 20, priority 1, minimum 0): gold is allocated 20 | never allocate more of a resource than is available | medium, not executed | SlgResources.OverAllocates | SlgResources.OptimizeAllocationFixed |
| project_ts/src/slg-game-algorithms.ts:627 | the fill starts at `w = 1`, so column 0 stays 0 even when items of weight 0 fit into it | one item of value 5, weight 0 and quantity 1 with capacity 0: the table gives 0 and the result is empty, though the item fits for 5 | fill from `w = 0`, so that every cell holds the best value within its weight | medium, not executed | SlgResources.ZeroWeightMissed | SlgResources.KnapsackFixed |
| project_ts/src/true-hierarchical-grid.ts:287-291 | the pair key joins the two ids with a bar, so two different pairs whose ids contain bars can share a key, and the second is skipped as seen | hostile units `x|y` and `z` within range of each other, and likewise `x` and `y|z`: both pairs have the key `x|y|z`, and the one visited second is never recorded | record every unordered pair of hostile units in range once | medium, not executed | SpatialQuery.JoinKeyCollides | SpatialQuery.CombatsCompleteFixed |
