# Algorithm engine of a sorting and graph visualiser, modelled in Dafny

The program teaches classic algorithms by printing each step. This model is
about the algorithms themselves. The printing is left out.

- **Sorting engine** (`sorting.cpp`). Four in-place sorts of an integer
  vector:
  - bubble sort with early exit;
  - Lomuto quick sort, with the last cell as pivot;
  - top-down merge sort, using two temporary vectors and a left-biased merge;
  - heap sort, with a recursive sift-down and a bottom-up heap build.

  All of them share a step counter. In the model they are methods of the
  class `Sorting.SortingAlgorithms`:
  - the vector is an `array<int>` changed in place;
  - the counter is the field `stepCount`;
  - the step lines the sorts print are kept as a ghost `trace` of `SortEvent`s.
- **Graph engine** (`graph.cpp`, with the queue entry and its comparator from
  `graph.h`). The class `Graphs.Graph` keeps two lists per vertex as
  `seq`-typed fields: plain neighbour lists and weighted lists. The
  constructor and the edge insertions reassign those fields.
  - BFS, DFS and Dijkstra are methods with `while` loops over local values:
    the visited vector, the queue, the stack, and the distance and parent
    vectors. The priority queue is a `multiset<MinHeapNode>`.
  - The loop bodies are split into static methods over those values:
    `EnqueueUnvisited`, `PushUnvisited`, `SettleNext`, `RelaxEdges`.
  - Each traversal returns the order in which it prints vertices, instead of
    printing them.
  - `printPath` is the function `Graphs.PathTo`, which returns the path it
    would print.

The specification modules say what the algorithms must achieve, independently
of how they do it:
- `SortSpec`: sortedness, the reference merge `Merged`, max-heap order;
- `GraphSpec`: walks, reachability, hop distance, weighted walk costs,
  shortest distance;
- `TraversalSpec`: the loop invariants of BFS and DFS;
- `ShortestPathSpec`: the queue order, relaxation, the invariant of
  Dijkstra's loop and its final result.

`SampleRuns` pins down the demonstration run on the weighted sample graph.

- The engine does no input validation and raises no error: an out-of-range
  vertex or a negative weight is rejected only by the interactive input
  routines (`graph.cpp:91`, `graph.cpp:119`). Those checks become `requires`
  clauses here:
  - vertex ranges on the edge insertions and the traversals;
  - non-negative weights on Dijkstra, which needs them for its result. The
    edge insertion itself accepts any weight, as the code does.
- In the sample graph, vertex 4's only shortest route is through 3
  (8 + 2 = 10). The direct edge from 2 costs 1 + 10 = 11.
  `SampleRuns.SampleParent` proves 3 is its only possible parent.

## Model

| member | source | states |
|---|---|---|
| Sorting.SortingAlgorithms.constructor | sorting.cpp:9 | the step counter starts at 0 with an empty trace |
| Sorting.SortingAlgorithms.ResetStepCount | sorting.cpp:11-14 | the counter is 0 again and the trace empty |
| Sorting.SortingAlgorithms.IncrementStep | sorting.cpp:16-19 | the counter grows by one and the trace by the one event counted |
| Sorting.SortingAlgorithms.Swap | sorting.cpp:87 | the two cells are exchanged, no other cell changes, the contents are a permutation |
| Sorting.SortingAlgorithms.BubbleSort | sorting.cpp:52-69 | after the reset, the array ends sorted and a permutation of the input; a sorted input counts no step |
| Sorting.SortingAlgorithms.BubbleSortVisualized | sorting.cpp:71-102 | ends sorted and a permutation of the input; every counted step is a swap of an out-of-order pair; at most n-1 passes; a sorted input takes exactly one pass (none under two cells) and no step |
| Sorting.SortingAlgorithms.BubblePass | sorting.cpp:83-92 | one pass over 0..limit: the permutation's largest cell of the range ends at limit, so cells from limit on are in final place; a swap happens exactly when cells 0..limit were out of order; without a swap nothing changes and no step is counted; only strict inversions are swapped |
| Sorting.SortingAlgorithms.QuickSort | sorting.cpp:106-123 | after the reset, the whole array (also an empty one) ends sorted and a permutation of the input |
| Sorting.SortingAlgorithms.QuickSortVisualized | sorting.cpp:125-143 | cells low..high end sorted and a permutation of their old values, every other cell unchanged; nothing changes when low >= high; at most high-low steps, each a partition within low..high |
| Sorting.SortingAlgorithms.Partition | sorting.cpp:145-164 | returns p in low..high; arr[p] is the old arr[high]; cells low..p-1 are below it, cells p+1..high at least it; the range is a permutation of its old values and cells outside it are unchanged |
| Sorting.SortingAlgorithms.QuickSortCombine | sorting.cpp:129-141 | a partition around p followed by sorting both sides in place sorts low..high as a permutation of the original range |
| SortSpec.SortedAroundPivot | sorting.cpp:139-141 | a sorted run of cells below the pivot, the pivot, and a sorted run of cells at least the pivot make a sorted run |
| Sorting.SortingAlgorithms.MergeSort | sorting.cpp:168-185 | after the reset, the array ends sorted and a permutation of the input, with n-1 steps for n >= 2 cells |
| Sorting.SortingAlgorithms.MergeSortVisualized | sorting.cpp:187-212 | cells left..right end sorted and a permutation of their old values, every other cell unchanged; exactly right-left steps |
| Sorting.SortingAlgorithms.MergeSortCombine | sorting.cpp:199-203 | two halves each sorted in place and then merged give a sorted permutation of the whole range |
| Sorting.SortingAlgorithms.Merge | sorting.cpp:214-259 | cells left..right become Merged of the two old halves; no other cell changes |
| Sorting.SortingAlgorithms.MergeBack | sorting.cpp:229-258 | from left on, the array holds Merged of the two vectors, with the cells before and after as they were |
| Sorting.SortingAlgorithms.MergeHeads | sorting.cpp:229-244 | the first loop stops with one vector used up, having written the first i+j cells of the merge; the rest of the merge is the rest of the two vectors |
| Sorting.SortingAlgorithms.CopyRest | sorting.cpp:247-258 | a tail loop copies the rest of one vector to k.., changing nothing else |
| SortSpec.MergedSorted | sorting.cpp:214-259 | the merge of two sorted runs is sorted |
| SortSpec.MergedPermutation | sorting.cpp:214-259 | the merge holds exactly the elements of the two runs |
| SortSpec.MergedTakesLeft | sorting.cpp:233-237 | on a tie the left head is taken: the merge is stable |
| SortSpec.MergedTakesRight | sorting.cpp:238-242 | when the right head is strictly smaller it is taken |
| Sorting.SortingAlgorithms.HeapSort | sorting.cpp:263-280 | after the reset, the array ends sorted and a permutation of the input, with 2n-2 steps for n >= 2 cells and 1 otherwise |
| Sorting.SortingAlgorithms.HeapSortVisualized | sorting.cpp:282-317 | the extraction loop keeps a max-heap before i and a sorted tail from i+1 that is at least every heap cell; ends sorted, a permutation, and the step count grows by the number above |
| Sorting.SortingAlgorithms.HeapSortExtract | sorting.cpp:303 | swapping the heap's root to position i puts there a cell at least every cell before it, keeps the tail sorted, and leaves the cells before i a heap except at the root |
| Sorting.SortingAlgorithms.HeapSortSettle | sorting.cpp:309 | re-heapifying the cells before i leaves cells i.. sorted and in final place |
| SortSpec.HeapRootIsMax | sorting.cpp:300-316 | the root of a max-heap is at least every heap cell |
| Sorting.SortingAlgorithms.BuildMaxHeap | sorting.cpp:319-328 | the whole array becomes a max-heap and a permutation of its old contents |
| Sorting.SortingAlgorithms.Heapify | sorting.cpp:330-352 | when heap order holds below i, sifting i down restores it for every parent from lo on; cells before i and from n on are untouched; the contents are a permutation |
| Sorting.SortingAlgorithms.SiftSwap | sorting.cpp:345-350 | exchanging i with its larger child leaves heap order broken at most below that child |
| Sorting.SortingAlgorithms.SiftStops | sorting.cpp:345 | when i dominates its children, heap order holds at i too |
| Graphs.Graph.constructor | graph.cpp:9-13 | v vertices, each with an empty plain list and an empty weighted list |
| Graphs.Graph.AddEdge | graph.cpp:16-20 | v is appended to u's list and u to v's list; no other list changes; a self-loop gets two entries; the lists stay symmetric |
| Graphs.EdgeKeepsSymmetric | graph.cpp:16-20 | appending an undirected edge keeps every entry a vertex and every edge listed at both ends |
| Graphs.Graph.AddWeightedEdge | graph.cpp:23-27 | (v, w) is appended to u's weighted list and (u, w) to v's; nothing else changes |
| Graphs.WeightedEdgeKeepsValid | graph.cpp:23-27 | after the append every entry is still a vertex; every weight stays non-negative when the new one is |
| Graphs.WeightedEdgeKeepsSymmetric | graph.cpp:23-27 | after the append each weighted edge is still listed at both ends the same number of times |
| Graphs.Graph.CreateSampleGraph | graph.cpp:30-55 | the six sample edges append exactly SampleLists() to vertices 0-4 |
| Graphs.SampleBuilt | graph.cpp:39-44 | the six appends, in order, add SampleLists() to vertices 0-4 and nothing to any other vertex |
| Graphs.Graph.CreateSampleWeightedGraph | graph.cpp:58-75 | the seven weighted sample edges append exactly SampleWeightedLists() to vertices 0-4 |
| Graphs.SampleWeightedBuilt | graph.cpp:61-67 | the seven appends, in order, add SampleWeightedLists() to vertices 0-4 and nothing to any other vertex |
| Graphs.Graph.BFS | graph.cpp:200-275 | the dequeued vertices start at the start vertex, have no repeats, and are exactly the vertices reachable from it; each has a hop distance, and they leave the queue in non-decreasing hop distance |
| Graphs.Graph.EnqueueUnvisited | graph.cpp:248-265 | the queue gains u's unmarked neighbours in list order, each once; those are marked and put one level below u; the count of unmarked vertices drops by their number |
| TraversalSpec.BfsStep | graph.cpp:222-265 | one dequeue and scan keeps the BFS invariant: the marked vertices are reachable, the queue holds the marked vertices not yet dequeued, and each level is the length of a walk from the start, non-decreasing along order and queue; every neighbour of a dequeued vertex is marked, at most one level deeper |
| TraversalSpec.BfsDone | graph.cpp:222-268 | with the queue empty, the dequeued vertices are exactly the reachable ones, each at its hop distance |
| Graphs.Graph.DFS | graph.cpp:279-369 | the processed vertices start at the start vertex, have no repeats, and are exactly the vertices reachable from it |
| Graphs.Graph.PushUnvisited | graph.cpp:334-358 | the stack gains u's unmarked neighbours in reverse list order |
| TraversalSpec.DfsVisit | graph.cpp:305-358 | processing an unmarked popped vertex keeps the DFS invariant: marked means processed, all are reachable, and every unmarked neighbour of a processed vertex is on the stack |
| TraversalSpec.DfsSkip | graph.cpp:302-305 | popping an already-marked vertex keeps the invariant |
| TraversalSpec.DfsDone | graph.cpp:300-362 | with the stack empty, the processed vertices are exactly the reachable ones |
| ShortestPathSpec.TopExists | graph.h:66-73 | under Compare's ordering every non-empty queue has an entry it may serve next |
| Graphs.Graph.Dijkstra | graph.cpp:373-506 | the result is a shortest-path tree: the finite distances are exactly those of the reachable vertices, each a shortest distance; the start is at 0 with no parent; the others with parents are joined to them by an edge that accounts for their distance; unreachable vertices keep no parent; each vertex is settled once, in non-decreasing distance |
| Graphs.Graph.SettleNext | graph.cpp:402-453 | one round pops a least entry of the queue; a stale entry of a settled vertex is dropped and nothing else changes; otherwise its vertex is marked, appended to the settle order and its edges relaxed against the rest of the queue; the loop invariant is kept and the round makes progress |
| Graphs.Graph.RelaxEdges | graph.cpp:423-453 | settled vertices never change; every unsettled neighbour v ends at most du+w; a vertex that changes was strictly improved to du plus one of u's edge weights, with parent u; new queue entries are for unsettled vertices, at no less than du |
| ShortestPathSpec.RelaxOnlyLowers | graph.cpp:430-435 | relaxation never raises a distance |
| ShortestPathSpec.RelaxTakesMinimum | graph.cpp:423-453 | an unsettled vertex ends at its old distance or du plus one of the edge weights from u, no greater than either |
| ShortestPathSpec.DijkstraSkip | graph.cpp:405-409 | dropping a stale entry of a settled vertex keeps the invariant |
| ShortestPathSpec.DijkstraVisit | graph.cpp:405-453 | settling a top entry's unsettled vertex and relaxing its edges keeps the invariant, the new vertex settled at its shortest distance |
| ShortestPathSpec.DijkstraDone | graph.cpp:402-474 | with the queue empty, the state is a finished run's result |
| ShortestPathSpec.TreeIsRanked | graph.cpp:509-518 | the parent links of a result strictly decrease in settle rank, so following them terminates |
| Graphs.PathTo | graph.cpp:509-518 | the path ends at the target, starts at a vertex without a parent, and each vertex on it is the parent of the next |
| Graphs.PathIsShortest | graph.cpp:495-499 | the printed path to a vertex with a finite distance is a walk from the start costing exactly that distance |
| SampleRuns.SampleShortest | graph.cpp:61-67 | in the weighted sample graph the shortest distances from 0 are 0, 3, 1, 8, 10 |
| SampleRuns.SampleParent | graph.cpp:61-67 | the only edge accounting for the distances of 1, 2, 3, 4 comes from 2, 0, 1, 3 |
| SampleRuns.SampleRun | graph.cpp:373-506 | any finished run from 0 on the sample graph has distances 0, 3, 1, 8, 10, parents -1, 2, 0, 1, 3, settle order 0, 2, 1, 3, 4, and paths 0 2 1 3 to vertex 3 and 0 2 1 3 4 to vertex 4 |
| SampleRuns.SampleShortestPaths | graph.cpp:481-503 | building the sample graph and running Dijkstra from 0 returns those distances, parents and order, and the path to 3 is 0 2 1 3 |

## Left out

- Console output: every printed line, colour call, step and traversal line,
  graph display and complexity note. The step lines of the sorts are kept as
  the ghost `trace`. The queue and stack snapshots are not kept.
- The menus and the interactive input routines in `graph.cpp` and
  `sorting.cpp`. main.cpp and utils.cpp are not part of this model.
- C++ `int` overflow and the `INT_MAX` sentinel. Integers are unbounded and
  infinity is the `Infinity` case of `Distance`. A sum `dist[u] + weight`
  that would overflow in C++ is exact here.
- The conversion of `arr.size() - 1` to `int` in the quick and merge sort
  wrappers. An empty array is passed as high = -1, which is a no-op.
- The order in which `std::priority_queue` serves entries of equal distance.
  The pop takes any entry of least distance, and every property is proved for
  every such choice.
- Graphs.Graph.BFS: the result does not fix the full dequeue order, only its
  set, its lack of repeats and its non-decreasing levels. The hop level of
  each vertex is a ghost output, not a vector of the source.
- Graphs.Graph.DFS: the result states the set of processed vertices and that
  none repeats, but not their exact order. The reverse-order push is stated
  by PushUnvisited.
- Graphs.Graph.Dijkstra: the settle rank is a ghost output. It exists to give
  `PathTo` a termination measure.
- Graphs.Graph.Dijkstra: requires non-negative weights, which the source
  never checks. With a negative weight its result is not a shortest distance,
  and the model does not describe what the source prints then.
- Sorting.SortingAlgorithms.Heapify: its contract covers calls where heap
  order already holds below i, which are the only calls the sorts make. What
  a sift-down does to an arbitrary array is not stated.
