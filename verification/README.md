# CampusNav graph engine and search/sort routines in Dafny

CampusNav finds walking routes between campus locations. Its engine is an undirected
weighted graph of integer location ids (`Graph` in `src/data_structures/graph.py`). The
graph has `add_node`, `add_edge`, `remove_node`, `remove_edge`, `get_edge_weight` and a
recursive route search `find_shortest_path`, and `src/graph_builder.py` loads it. Next
to it sit the textbook `Searching` and `Sorting` classes of
`src/data_structures/searching_sorting.py`. This project models both and proves what
the code promises.

Modules:

- `OrderedMaps` (`ordered_map.dfy`) models a Python `dict` from int keys with the order
  its keys were inserted in. Assigning to a present key keeps its place, a new key goes
  at the end, and `pop` removes the key or fails. The search walks neighbours in this
  order, so the order decides which of two neighbours with the same remaining
  distance wins. The weight of the edge to the neighbour plays no part in that choice.
- `Graphs` (`graph.dfy`): `paths`, `node_count` and `edge_count`, plus the five graph
  operations.
  - A mutator returns `Done(graph)` or `Raised(error, graph)`. The graph inside
    `Raised` is the state the Python exception leaves behind.
  - On a valid graph that is the unchanged graph, except for `remove_node` and
    `remove_edge` on a self-loop, which fail part-way.
  - A failed `remove_node` on a self-loop leaves a broken graph when some neighbour is
    listed after `id` in `id`'s own adjacency (RemoveNodeSelfLoopDangles). The node is
    gone, but those neighbours still hold half-edges to it. When the self-loop is the
    last key, every other half-edge has been popped before the raise.
  - On a graph that already breaks the invariant, `remove_edge` and `remove_node` can
    also raise after changing some adjacencies.
  - `Valid` is the graph invariant: each adjacency is a well-formed ordered map, and
    every half-edge has a mirror with the same weight.
- `PathSearch` (`search.dfy`) models `find_shortest_path` exactly as written: an
  exhaustive depth-first search over simple paths. `Search` is one call and `Scan` is
  its loop over the neighbours.
  - The comparison `newDis < dis` ignores the weight of the first edge.
  - The guard is `any(path)`, so a path `[0]` is never extended.
  - The sentinel distance `10**6` is `Unreachable`.
  - A lookup of an unknown node raises `KeyError`.
- `GraphBuilder` (`graph_builder.dfy`): the two loops of `graphBuilder.__init__` as
  folds over a decoded list of connections.
- `GraphScenario` (`graph_scenario.dfy`): the repository's graph test, step by step.
- `Sequences`, `Searching`, `Sorting` (`sequences.dfy`, `searching.dfy`, `sorting.dfy`):
  - linear and binary search;
  - the three in-place sorts, on a local sequence that stands for the Python list;
  - quick sort and merge sort with `_merge`.

What the code does, in three points that are easy to get wrong:

- The search is an exhaustive depth-first search, not Dijkstra. It can return a
  heavier route than the lightest one.
- `edge_count` is the number of successful `add_edge` calls minus the number of
  successful `remove_edge` calls. An `add_edge` that raises at line 20 or 22 of
  `graph.py` never reaches the increment. Overwriting an existing edge counts again,
  and `remove_node` never changes the counter.
- `find_shortest_path(x, x)` answers `([x], 0)` for any `x`, whether or not `x` is a
  node.

## Model

| member | source | states |
|---|---|---|
| `OrderedMaps.Put` | src/data_structures/graph.py:24-25 | dict assignment: the entry is set to the value; an existing key keeps its position, a new key is appended; well-formedness is preserved |
| `OrderedMaps.Pop` | src/data_structures/graph.py:39-40 | `dict.pop` succeeds exactly when the key is present, and then removes just that key |
| `OrderedMaps.Forget` | src/data_structures/graph.py:34 | removing a key leaves exactly the other keys with their values, still well formed |
| `OrderedMaps.PopAfterPut` | src/data_structures/graph.py:24-40 | popping a key just inserted into a dict that lacked it gives back the original dict, key order included |
| `OrderedMaps.PutIdempotent` | src/data_structures/graph.py:24-25 | assigning the same value to the same key twice is the same as once |
| `Graphs.AddNode` | src/data_structures/graph.py:10-15 | an existing id raises `ValueError` and changes nothing; otherwise the id gets an empty adjacency, `node_count` grows by one and no other node or counter changes |
| `Graphs.AddNodeKeepsValid` | src/data_structures/graph.py:10-15 | `add_node` preserves symmetry and well-formedness of the adjacency |
| `Graphs.AddEdge` | src/data_structures/graph.py:17-27 | an unknown endpoint raises `ValueError` before any change; otherwise both half-edges carry the new weight, overwriting any old one, every other edge and node is unchanged, and `edge_count` grows by one |
| `Graphs.AddEdgeKeepsValid` | src/data_structures/graph.py:17-27 | `add_edge` preserves the symmetric-weight invariant |
| `Graphs.AddEdgeIdempotent` | src/data_structures/graph.py:24-27 | adding the same edge twice leaves the adjacency as one addition does, yet counts two edges |
| `Graphs.EdgeWeightAfterAddEdge` | src/data_structures/graph.py:17-48 | after `add_edge(a, b, w)` the weight read back is `w` in both directions |
| `Graphs.Detach` | src/data_structures/graph.py:33-34 | the loop popping `id` from each former neighbour keeps the node set and both counters |
| `Graphs.DetachSpec` | src/data_structures/graph.py:33-34 | when every listed neighbour still holds a half-edge to `id`, the loop succeeds and removes exactly those half-edges |
| `Graphs.DetachRaisesOnMissing` | src/data_structures/graph.py:33-34 | a listed neighbour that is no longer a node makes the loop raise `KeyError` |
| `Graphs.DetachKeepsLater` | src/data_structures/graph.py:33-34 | when the loop raises at a listed node that is missing, every node it had not reached keeps its adjacency |
| `Graphs.RemoveNode` | src/data_structures/graph.py:29-36 | an absent id raises `KeyError` with nothing changed; the id is no longer a node afterwards; `edge_count` never changes |
| `Graphs.RemoveNodeSpec` | src/data_structures/graph.py:29-36 | without a self-loop: success, the node and every half-edge naming it are gone, each former neighbour's adjacency is its old one with `id` popped (order kept) and every other adjacency is untouched, all other edges keep their weights, `node_count` drops by one, `edge_count` stays, the invariant holds |
| `Graphs.RemoveNodeSelfLoop` | src/data_structures/graph.py:29-36 | with a self-loop the node is popped first and the loop then raises `KeyError`, before `node_count` is decremented |
| `Graphs.RemoveNodeSelfLoopDangles` | src/data_structures/graph.py:31-34 | with a self-loop, a neighbour listed after `id` in `id`'s adjacency keeps its half-edge to the removed node, so the raised graph breaks the invariant |
| `Graphs.EdgeWeightAfterRemoveNode` | src/data_structures/graph.py:29-48 | after removing a node every weight lookup involving it raises `KeyError` |
| `Graphs.RemoveEdge` | src/data_structures/graph.py:38-42 | a missing edge or unknown `id_1` raises `KeyError` at the first `pop` with nothing changed; the node set and `node_count` never change |
| `Graphs.RemoveEdgeSpec` | src/data_structures/graph.py:38-42 | on an edge with distinct endpoints both halves go, every other edge stays, `edge_count` drops by one and the invariant holds |
| `Graphs.RemoveEdgeSelfLoop` | src/data_structures/graph.py:38-42 | on a self-loop the first `pop` removes it and the second raises `KeyError` before `edge_count` changes |
| `Graphs.AddThenRemoveNode` | src/data_structures/graph.py:10-36 | removing a node just added restores the graph exactly, counters included |
| `Graphs.AddThenRemoveEdge` | src/data_structures/graph.py:17-42 | removing a new edge just added between distinct nodes restores the graph exactly |
| `Graphs.GetEdgeWeight` | src/data_structures/graph.py:44-48 | returns the stored weight exactly when the half-edge exists, otherwise `KeyError` |
| `Graphs.WeightSymmetric` | src/data_structures/graph.py:44-48 | on a valid graph the lookup gives the same answer in both directions |
| `PathSearch.MarkVisited` | src/data_structures/graph.py:54-55 | adding the current node to the copied visited set shrinks the set of unvisited nodes unless it was visited already, which bounds the recursion |
| `PathSearch.Search` | src/data_structures/graph.py:50-68 | reaching the end stops at once with `([end], 0)`, even when the end is not a node; otherwise an unknown current node raises `KeyError`, and `KeyError` is the only exception the model raises (the recursion limit is left out) |
| `PathSearch.Scan` | src/data_structures/graph.py:58-64 | the neighbour loop never raises the best distance, keeps the carried route on a tie (the test is strict `<`), and raises only `KeyError` |
| `PathSearch.FindShortestPath` | src/data_structures/graph.py:50-58 | start equal to end gives `([start], 0)` even for a non-node; otherwise an unknown start raises `KeyError` |
| `PathSearch.FindShortestPathRaises` | src/data_structures/graph.py:52-58 | on a valid graph the search raises exactly when start differs from end and is not a node |
| `PathSearch.SearchFinds` | src/data_structures/graph.py:50-68 | for a non-zero end, each call returns the sentinel or a simple route through unvisited nodes to the end with its exact total weight |
| `PathSearch.ScanFinds` | src/data_structures/graph.py:58-64 | the neighbour loop keeps its best-so-far value a sentinel or such a route |
| `PathSearch.FindShortestPathRoute` | src/data_structures/graph.py:54-68 | for a non-zero end the answer is `([], 10**6)` or a path that starts at start and ends at end, has adjacent consecutive ids, repeats no id, and whose weight is the sum of its edge weights |
| `PathSearch.SearchToZero` | src/data_structures/graph.py:65-68 | with end 0 the `any(path)` guard never extends a path, so each call yields `([], 10**6)` or `([0], 0)` |
| `PathSearch.ScanToZero` | src/data_structures/graph.py:58-64 | with end 0 the neighbour loop only ever holds one of those two values |
| `PathSearch.FindShortestPathToZero` | src/data_structures/graph.py:65-68 | `find_shortest_path(start, 0)` is `([], 10**6)` or `([0], 0)` |
| `PathSearch.SearchSucceeds` | src/data_structures/graph.py:50-68 | on a valid graph a call from a node never raises, and a returned path that passes `any` starts at the current node |
| `PathSearch.ScanSucceeds` | src/data_structures/graph.py:58-66 | looping over real neighbours never raises, so the `get_edge_weight` at line 66 always finds its edge |
| `PathSearch.RouteCons` | src/data_structures/graph.py:65-67 | prepending the current node over an edge keeps a route a route and adds that edge's weight |
| `PathSearch.SearchReachesZero` | src/data_structures/graph.py:50-68 | on a valid graph a `([0], 0)` answer towards 0 is backed by a simple route from the current node to 0 whose later ids avoid the visited set |
| `PathSearch.ScanReachesZero` | src/data_structures/graph.py:58-64 | the neighbour loop towards 0 holds `([0], 0)` only when some unvisited neighbour starts a simple route to 0 avoiding the visited set |
| `PathSearch.ZeroFromScan` | src/data_structures/graph.py:65-68 | from a node other than 0, a `([0], 0)` answer is the loop's own answer, and the loop's route extends to one from the node |
| `PathSearch.ExtendToZero` | src/data_structures/graph.py:65-67 | stepping from a visited node onto a neighbour's route to 0 that avoids the visited set gives a simple route to 0 |
| `PathSearch.NoRouteIsUnreachable` | src/data_structures/graph.py:50-68 | on a valid graph, when no simple route joins a start node to the end (0 included), the answer is `([], 10**6)` |
| `GraphBuilder.AddNodes` | src/graph_builder.py:6-7 | the node loop adds the ids to the node set and counts them, or stops at the first exception, which is always `ValueError` |
| `GraphBuilder.AddEdges` | src/graph_builder.py:15-16 | the connection loop keeps the node set and counts each connection as an edge; any exception of the model is `ValueError` (records are taken as decoded) |
| `GraphBuilder.Build` | src/graph_builder.py:5-16 | on success the nodes are the old ones plus the ids, `node_count` grows by the number of ids and `edge_count` by the number of connections; any exception of the model is `ValueError` (file reading and record lookup are left out) |
| `GraphBuilder.AddNodesFresh` | src/graph_builder.py:6-7 | distinct ids not yet in the graph load without error |
| `GraphBuilder.AddNodesRepeated` | src/graph_builder.py:6-7 | an id that is already a node or repeats an earlier id makes the node loop raise |
| `GraphBuilder.AddEdgesKnown` | src/graph_builder.py:15-16 | connections whose endpoints are all nodes load without error |
| `GraphBuilder.AddEdgesUnknown` | src/graph_builder.py:15-16 | a connection with an endpoint that is not a node makes the connection loop raise, wherever it sits |
| `GraphBuilder.AddNodesKeepValid` | src/graph_builder.py:6-7 | the node loop preserves the graph invariant |
| `GraphBuilder.AddEdgesKeepValid` | src/graph_builder.py:15-16 | the connection loop preserves the graph invariant |
| `GraphBuilder.BuildKeepsValid` | src/graph_builder.py:5-16 | the whole build, raising or not, leaves a valid graph |
| `GraphScenario.BuildTestGraph` | tests/graph_tester.py:10-19 | nodes 0..5 and the seven test edges build the expected adjacency |
| `GraphScenario.SearchG1` | tests/graph_tester.py:21-23 | on the built graph the search from 0 to 3 gives `([0, 5, 3], 20)` |
| `GraphScenario.RemoveNode5` | tests/graph_tester.py:25 | `remove_node(5)` succeeds and leaves the expected graph |
| `GraphScenario.SearchG2` | tests/graph_tester.py:26-28 | then the search gives `([0, 4, 3], 25)` |
| `GraphScenario.RemoveEdge43` | tests/graph_tester.py:30 | `remove_edge(4, 3)` succeeds and leaves the expected graph |
| `GraphScenario.SearchG3` | tests/graph_tester.py:31-33 | then the search gives `([0, 1, 2, 3], 30)` |
| `GraphScenario.GraphTest` | tests/graph_tester.py:9-34 | the whole test: every assertion of `test_graph`, including `get_edge_weight(0, 4) == 10` at the end |
| `Searching.LinearSearch` | src/data_structures/searching_sorting.py:8-13 | -1 exactly when the target does not occur; otherwise the smallest index holding it |
| `Searching.BinarySearch` | src/data_structures/searching_sorting.py:15-26 | any index returned holds the target; on an ascending list -1 means the target is absent; the loop ends as `right - left` shrinks |
| `Searching.SearchesAgree` | src/data_structures/searching_sorting.py:8-26 | on an ascending list both searches agree on whether the target occurs, and the linear index is at or before the binary one with the same value |
| `Sequences.Swap` | src/data_structures/searching_sorting.py:35 | the tuple swap exchanges two positions, leaves the rest, and keeps the elements |
| `Sequences.SortedUnique` | src/data_structures/searching_sorting.py:29-92 | two ascending lists with the same elements are equal, so every correct sort returns the same list |
| `Sorting.BubbleSort` | src/data_structures/searching_sorting.py:29-36 | the result is ascending and a permutation of the input |
| `Sorting.BubblePass` | src/data_structures/searching_sorting.py:33-35 | given the last `i` positions hold the `i` largest elements in order, one inner pass extends that to the last `i + 1`, keeping the elements |
| `Sorting.SelectionSort` | src/data_structures/searching_sorting.py:38-47 | the result is ascending and a permutation of the input |
| `Sorting.InsertionSort` | src/data_structures/searching_sorting.py:49-58 | the result is ascending and a permutation of the input |
| `Sorting.Insert` | src/data_structures/searching_sorting.py:52-57 | one outer step: given a sorted prefix `[0..i)`, the prefix `[0..i]` is sorted afterwards and the elements are kept |
| `Sorting.Inserted` | src/data_structures/searching_sorting.py:52-57 | moving `array[i]` to an earlier position and shifting the elements in between keeps the multiset and the length |
| `Sorting.InsertedAt` | src/data_structures/searching_sorting.py:55-57 | after the move, positions before the slot are unchanged, the slot holds `key`, the passed-over elements sit one place right, and the rest is unchanged |
| `Sorting.ShiftGap` | src/data_structures/searching_sorting.py:54-56 | one `array[j + 1] = array[j]; j -= 1` step keeps "filling the gap with `key` gives the moved list", with the gap one place further left |
| `Sorting.InsertedSorted` | src/data_structures/searching_sorting.py:54-57 | when the loop stops at an element not above `key` (or at the front), writing `key` into the gap leaves `[0..i]` sorted |
| `Sorting.Below` | src/data_structures/searching_sorting.py:65 | the comprehension keeps only elements below the pivot |
| `Sorting.Level` | src/data_structures/searching_sorting.py:66 | the comprehension keeps only elements equal to the pivot, and keeps the pivot itself |
| `Sorting.Above` | src/data_structures/searching_sorting.py:67 | the comprehension keeps only elements above the pivot |
| `Sorting.Partition` | src/data_structures/searching_sorting.py:64-67 | the three comprehensions together hold every element of the input exactly once |
| `Sorting.JoinAroundPivot` | src/data_structures/searching_sorting.py:68 | sorted lower part, pivot copies and sorted upper part concatenate to an ascending list |
| `Sorting.QuickSort` | src/data_structures/searching_sorting.py:60-68 | a new ascending list with the same multiset as the input; length at most 1 comes back unchanged |
| `Sorting.QuickSortSortedFixed` | src/data_structures/searching_sorting.py:60-68 | an ascending list comes back unchanged |
| `Sorting.Merge` | src/data_structures/searching_sorting.py:79-92 | two ascending lists merge into an ascending list holding both lists' elements, of the summed length |
| `Sorting.TakeNext` | src/data_structures/searching_sorting.py:84-89 | appending the smaller head keeps the result sorted and at most both lists' next heads, and accounts for the element taken |
| `Sorting.SortedSuffix` | src/data_structures/searching_sorting.py:90-91 | a remaining slice `left[i:]` of an ascending list is ascending |
| `Sorting.MergeTail` | src/data_structures/searching_sorting.py:90-91 | once one side is exhausted, the two `extend` calls complete an ascending merge holding both lists' elements |
| `Sorting.MergeSort` | src/data_structures/searching_sorting.py:70-77 | an ascending permutation of the input; length at most 1 comes back unchanged |
| `Sorting.SortsAgree` | src/data_structures/searching_sorting.py:29-92 | bubble, selection, insertion and merge sort all return exactly what quick sort returns, on every input |

## Left out

- Optimality of `find_shortest_path` is not stated. The code compares neighbours'
  remaining distances without the first edge's weight, so it can miss the lightest
  route. Minimality, the triangle inequality and Dijkstra-like behaviour do not hold of
  it.
- `edge_count` is not claimed to equal the number of distinct edges. It double-counts
  an overwrite and `remove_node` leaves it alone. The model reproduces exactly that.
- PathSearch.NoRouteIsUnreachable: only "no route implies the sentinel" is proved. For
  a non-zero end the converse does not hold of the code: a route whose weight reaches
  `10**6` loses to the sentinel. For end 0 the converse is not proved.
- PathSearch.Search, PathSearch.Scan, PathSearch.FindShortestPathRaises,
  PathSearch.SearchSucceeds: CPython's recursion limit is not modelled. A search deeper than about 1000 nested
  calls raises `RecursionError` in the source, whereas the model has unbounded
  recursion and returns a result.
- PathSearch.FindShortestPathRoute: the path-shape property is stated for a non-zero end
  only. For end 0, FindShortestPathToZero gives the exact answer instead.
- Graphs.RemoveNode: the full effect of a successful removal is proved for nodes
  without a self-loop (RemoveNodeSpec). RemoveNodeSelfLoop and RemoveNodeSelfLoopDangles
  cover the self-loop case, which raises part-way. The broken graph is stated only for
  a neighbour listed after `id`, not the exact leftover adjacency of every node.
- Graphs.RemoveEdge: the full effect of a successful removal is proved for distinct
  endpoints (RemoveEdgeSpec). RemoveEdgeSelfLoop covers `remove_edge(a, a)`, which
  raises part-way.
- Sorting.SelectionSort: "one swap per outer iteration" is a property of the body's
  shape (one `Swap` per pass), not of its contract.
- Sorting.Merge: taking from `right` on equal heads is not stated. The body does take
  from `right` when `left[i] < right[j]` fails, but on integers equal heads are
  indistinguishable, so no contract about the result can observe it.
- Sorting.BubbleSort, Sorting.SelectionSort, Sorting.InsertionSort: the sorts work on a
  Python list in place and return that same list. The model returns the final contents
  as a new sequence, so aliasing (the caller's list and the result being one object) is
  not modelled.
- Sorting.QuickSort, Sorting.MergeSort: for a list of length at most 1 the source returns
  the very same list object. The model returns an equal sequence.
- `binary_search` computes `(left + right) // 2` with Python's floor division. Here both
  operands are non-negative, so it agrees with Dafny's `/`.
- Python's mutable default argument `_visited = set()` is never mutated, because each
  call copies it. The model passes the visited set by value and starts it empty.
- Arbitrary Python values: node ids, weights and array elements are modelled as
  unbounded integers. The source's weights and elements could be any comparable values.
- GraphBuilder.AddEdges, GraphBuilder.Build: every connection record is assumed to
  have its `from`, `to` and `distance` fields, and the JSON file is assumed readable. In
  the source a record lacking a field raises `KeyError` at line 16 after the earlier
  records were applied, and a missing file raises `FileNotFoundError`, which the
  `except` at line 12 does not catch. "Any exception is `ValueError`" holds of the model
  only.
- `graph_builder.py`: reading and decoding the JSON file, the `JSONDecodeError` branch
  and the prints are I/O. The model takes the decoded connection list as input.
- `Graph.__str__` and the demo block at the end of `graph.py` only print.
- `main.py` (GUI), `utils.py` (plotting), `location_manager.py` (JSON-backed dict),
  `route_history.py` (append-only list with prints) are not part of this model.
- The stub containers (`set.py`, `dictionary.py`, `tree.py`, `queue.py`, `stack.py`,
  `list.py`, `collection.py`, `array.py`) are not part of this model: their bodies are
  empty.
- The stack, queue and tree testers and `all_tests.py` exercise APIs that do not exist,
  so they are not part of this model.
