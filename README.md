# Smart knapsack: three 0/1 knapsack solvers, modelled and verified in Dafny

`smart_Knapsack.py` picks delivery packages for one vehicle. Each package
has a weight and a priority, and the vehicle has a weight budget
`max_weight`. The problem is 0/1 knapsack: choose packages whose total
weight stays within the budget and whose total priority is as large as
possible. The file solves it three ways:

* `greedy_algorithm` sorts the list in place by priority/weight ratio,
  highest first. It then makes one pass and keeps every package that still
  fits beside those kept before it.
* `dynamic_programming` fills an `(n+1) x (max_weight+1)` table with the
  take/skip recurrence. It then walks back through the table to recover a
  selection, which comes out last package first.
* `branch_and_bound` sorts the list the same way. It then explores the
  take/skip decision tree breadth first, from a FIFO queue of `Node`s. It
  keeps an incumbent: the best selection that fits, found so far. It drops
  every node whose `bound` cannot beat that incumbent. `bound` is the
  fractional relaxation: whole packages while they fit, then a fraction of
  the next one.

The Dafny model has one module per concern:

* `packages.dfy`: the `Package` entity, weight and priority sums, and 0/1
  selections over a list.
* `optimum.dfy`: `Opt`, the knapsack optimum, defined by the take/skip
  recurrence.
  * `Opt` is proved to be the maximum over all selections that fit.
  * `Opt` is proved not to depend on the order of the packages.
* `relaxation.dfy`: `FracGreedy`, the fractional relaxation. On a
  ratio-sorted list it is proved to be an upper bound.
* `ratio_sort.dfy`: the in-place ratio sort. It is a stable insertion sort
  on an `array`.
* `greedy.dfy`, `dynamic.dfy`, `branch_bound.dfy`: the three solvers. Each
  is an imperative method with the loops of the source, proved against
  the functions above.
* `agreement.dfy`: runs the three solvers side by side. It also holds an
  instance on which the greedy solver is not optimal.

In all three solvers, the totals each one returns are the sums over its
selection, and the selection fits the budget.

* The dynamic-programming solver always reaches `Opt`.
* The branch-and-bound solver reaches `Opt` of the list as the caller
  passed it. Its loop terminates: the measure is the number of tree nodes
  still below the queued nodes.
* The greedy solver's priority is at most `Opt`.

Weights are positive integers and priorities are natural numbers. Ratios
and bounds are Dafny `real`s, which are exact rationals.

## Model

| member | source | states |
|---|---|---|
| Packages.Ratio | smart_Knapsack.py:20 | the sort key priority/weight is an exact non-negative rational (weights are positive, so it is defined for every package) |
| Packages.RatioScale | smart_Knapsack.py:87 | the ratio times the weight gives back the priority, so a whole package counts at full priority in the fractional term |
| Packages.SumConcat | smart_Knapsack.py:27-29 | appending packages to a selection adds their weights and priorities to its totals |
| Packages.PickedSubMultiset | smart_Knapsack.py:25-27 | a selection takes each package of the list at most as often as it occurs there (every selected package is drawn from the input) |
| Packages.SplitSums | smart_Knapsack.py:25-29 | the weight and priority of a selection split exactly between any prefix and the rest of the list |
| Packages.PickedIsSelection | smart_Knapsack.py:110-111 | what a take/skip decision per package picks is a subsequence of the list |
| Packages.MaskOf | smart_Knapsack.py:122 | every subsequence of the list is what some take/skip decision per package picks |
| Packages.SelectionSnoc | smart_Knapsack.py:110-111 | deciding the next package keeps a node's selection a subsequence of the packages decided so far |
| Packages.SelectionExtend | smart_Knapsack.py:115 | a subsequence of a prefix of the list is a subsequence of the whole list |
| Optimum.OptSnoc | smart_Knapsack.py:44-48 | the optimum for a list with one more package is the larger of skipping it and, when it fits, taking it |
| Optimum.OptIsUpperBound | smart_Knapsack.py:40-48 | no selection within the capacity has more priority than the optimum |
| Optimum.OptWitness | smart_Knapsack.py:50-56 | some selection within the capacity attains the optimum |
| Optimum.OptIsMaximum | smart_Knapsack.py:58 | the optimum is exactly the largest priority of a selection within the capacity |
| Optimum.OptSwapAdjacent | smart_Knapsack.py:20 | exchanging two neighbouring packages leaves the optimum unchanged at every capacity |
| Optimum.OptPermutation | smart_Knapsack.py:92 | two lists holding the same packages (same multiset) have the same optimum, so sorting in place does not change it |
| Relaxation.FracGreedyFraction | smart_Knapsack.py:86-87 | when the first remaining package no longer fits, the relaxation adds the remaining capacity times that package's ratio |
| Relaxation.FracGreedyMarginal | smart_Knapsack.py:81-87 | on packages whose ratios are at most r, d more units of capacity raise the relaxation by at most d times r |
| Relaxation.FracGreedyIsUpperBound | smart_Knapsack.py:81-87 | on a ratio-sorted list, every selection that fits has priority at most the fractional relaxation |
| RatioSort.SwapDown | smart_Knapsack.py:20 | one exchange of neighbouring packages in the array, which keeps its multiset |
| RatioSort.InsertStep | smart_Knapsack.py:20 | moving a package of larger ratio one place left keeps the stable order of the rest |
| RatioSort.InsertAt | smart_Knapsack.py:20 | one insertion pass puts the first i+1 packages in stable non-increasing ratio order and records where each came from |
| RatioSort.OrderedIsSorted | smart_Knapsack.py:92 | a list in stable order is sorted by non-increasing ratio and keeps packages of equal ratio in their original order |
| RatioSort.SortByRatio | smart_Knapsack.py:20 | after the in-place sort the array is a permutation of the original, sorted by non-increasing ratio, and stable: equal ratios keep their original order |
| GreedySolver.ScanStep | smart_Knapsack.py:26-29 | one step of the pass keeps the "kept exactly when it fits" rule and appends the package exactly when it is kept |
| GreedySolver.LeftOutOverflows | smart_Knapsack.py:26 | every package the pass left out would overflow the final selection |
| GreedySolver.GreedyScan | smart_Knapsack.py:21-31 | the pass over the sorted list. Its results: the packages kept, in scan order; each is kept exactly when it fits beside those before it. The totals are the selection's sums. The weight is within the budget (nothing is kept for a negative budget). No left-out package would still fit. The priority is at most the optimum. Empty input gives an empty selection and zero totals. |
| GreedySolver.GreedyAlgorithm | smart_Knapsack.py:16-31 | the whole greedy solver: a stable in-place sort of the caller's array, then the pass. Its priority is at most the optimum of the list as passed in. |
| DynamicSolver.Reverse | smart_Knapsack.py:53-55 | reversal keeps the length and lists the elements last first |
| DynamicSolver.ReverseSums | smart_Knapsack.py:59 | reversing a selection keeps its total weight and priority |
| DynamicSolver.BuildTable | smart_Knapsack.py:39-48 | the table has n+1 rows and max_weight+1 columns. Entry (i, w) is the optimum of the first i packages at capacity w, so row 0 is all zeros. |
| DynamicSolver.TraceStep | smart_Knapsack.py:54-56 | when a row differs from the row above, the package of that row fits and taking it accounts for the difference |
| DynamicSolver.TraceBack | smart_Knapsack.py:50-56 | the traceback returns a selection of the packages, listed last first. Its weight is within the budget and its priority equals the optimum. |
| DynamicSolver.DynamicProgramming | smart_Knapsack.py:35-61 | the returned selection fits the budget. Its totals are its sums. The priority equals the table's last entry, which is the optimum. Empty input gives an empty selection and zero totals. |
| BranchBound.Bound | smart_Knapsack.py:73-89 | the bound is 0 for a node already at or over the budget; otherwise the node's priority plus the fractional relaxation of the packages after its level |
| BranchBound.ChildOk | smart_Knapsack.py:110-111 | both children of a well-formed node are well formed. Each is one level deeper; its selection is a subsequence of the packages up to its level; its totals are the sums over that selection. |
| BranchBound.NodeSelection | smart_Knapsack.py:115 | a node's selection is a subsequence of the whole list, so the incumbent it becomes is one |
| BranchBound.BoundIsUpperBound | smart_Knapsack.py:117-126 | for a node consistent with a selection that fits, on the sorted list: a node at or over the budget already holds all of the selection's priority, and otherwise the bound is at least that priority (pruning never loses a better selection) |
| BranchBound.LeafValue | smart_Knapsack.py:109 | a node at the last level has decided every package: its totals are those of the whole selection |
| BranchBound.CoverStep | smart_Knapsack.py:101-126 | visiting the head of the queue keeps every selection that fits and beats the incumbent consistent with some queued node |
| BranchBound.QueueStep | smart_Knapsack.py:101-126 | visiting the head of the queue keeps every queued node well formed and, where it fits, no better than the incumbent |
| BranchBound.SizeStep | smart_Knapsack.py:101-126 | replacing the head of the queue by at most two nodes one level deeper strictly decreases the sum of 2^(n-level)-1 over queued nodes (termination) |
| BranchBound.InnerVisitKids | smart_Knapsack.py:109-126 | a visit appends to the queue exactly the children whose bound beats the incumbent, and the incumbent's priority never decreases |
| BranchBound.SearchStart | smart_Knapsack.py:94-99 | the root node with the empty incumbent establishes the loop invariant |
| BranchBound.InnerStep | smart_Knapsack.py:102-126 | visiting a node above the last level keeps the loop invariant and decreases the termination measure. The invariant: the queue is well formed and covers every better selection; the incumbent is a selection that fits and is worth max_priority. |
| BranchBound.LeafStep | smart_Knapsack.py:102-109 | visiting a node at the last level keeps the loop invariant and decreases the termination measure |
| BranchBound.SearchDone | smart_Knapsack.py:128-130 | once the queue is empty the incumbent is at most the optimum, and equal to it on a ratio-sorted list |
| BranchBound.Search | smart_Knapsack.py:93-130 | the search over the list. best_selection is a subsequence of the list; total_weight and max_priority are its sums. The weight is within the budget (empty selection for a negative budget). On a ratio-sorted list max_priority is the optimum. Empty input gives an empty selection and zero totals. |
| BranchBound.BranchAndBound | smart_Knapsack.py:91-130 | the whole solver: a stable in-place sort, then the search. max_priority equals the optimum of the list as the caller passed it. |
| Agreement.CompareSolvers | smart_Knapsack.py:16-130 | on the same packages and capacity, dynamic programming and branch and bound both return the optimum, and greedy returns no more |
| Agreement.GreedyNotOptimal | smart_Knapsack.py:25-31 | on the ratio-sorted list [(weight 1, priority 2), (weight 2, priority 3)] at capacity 2, the greedy rule yields priority 2 while the optimum is 3 |

## Left out

- The demo driver under `if __name__ == "__main__"` (smart_Knapsack.py:134-161) builds a fixed list and prints results. It is I/O only.
- `Package.__repr__` (smart_Knapsack.py:10-12) is display formatting only.
- The `volume`, `customer_demand` and `delivery_deadline` fields are not modelled. No algorithm reads them.
- The meaning and uniqueness of `id` are not modelled. It is an opaque label that no solver reads.
- Floating-point weights, priorities and ratios are not modelled. Weights are positive integers and priorities natural numbers. The ratio and the bound are exact rationals, so float rounding in the sort key and the bound is not captured. The `int(...)` conversions at lines 46 and 56 are the identity on integer weights.
- Weights are positive by type (`Packages.Weight`). In the source, a zero weight raises a division error in the sort key of `greedy_algorithm` and `branch_and_bound` (lines 20, 92). `dynamic_programming` never divides and would accept a zero-weight package, whose test at line 44 always holds. The positive `Weight` type excludes such inputs for that solver too, so that all three solvers share one package type.
- Input validation is not modelled, because the code does none. A negative budget is accepted by the greedy and branch-and-bound solvers and gives an empty selection.
- DynamicSolver.DynamicProgramming: requires a non-negative `max_weight`. With a negative budget the source's table rows are empty and `dp[n][max_weight]` raises an index error, a failure not modelled as a result.
- DynamicSolver.DynamicProgramming: takes the packages as a sequence, since it never changes the caller's list. Its table is an `array2` rather than a list of row lists.
- RatioSort.SortByRatio: Python's built-in sort (Timsort) is modelled as a stable insertion sort. A stable sort by a key has exactly one possible output, so the resulting order is the same, but the running time is not modelled.
- The search `Node` is modelled as an immutable value. The in-place assignment `u.bound = ...` becomes a datatype update. Aliasing of the `selected` lists between a node, its skipping child and `best_selection` is not modelled; the source never mutates those lists.
- BranchBound.Search: reaching the optimum is stated only for a ratio-sorted list, which is what `BranchAndBound` passes it. On unsorted input the code itself can miss the optimum, not just the proof. Example: [(weight 2, priority 2), (weight 3, priority 1), (weight 1, priority 5)] at budget 2. The root's taking child becomes the incumbent, worth 2, and gets bound 0 at line 74. The skipping child's bound, 2/3 of a package worth 1, does not beat 2. The queue empties with 2, while the optimum is 5. For such input the contract promises only that the result fits and is at most the optimum.
- The exact order in which nodes are visited is modelled (FIFO, as at line 102). The number of nodes explored is not bounded beyond termination.
