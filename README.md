# Key terrorists by fragmentation — a verified model

This project models the analysis core of a small Python study of terrorist
networks. The study treats a network as a square 0/1 adjacency matrix and
asks which members, once removed, fragment it most. It has three layers:

- **Graph primitives** (`project/our_functions.py`). A breadth-first search
  returns the layers of nodes at each hop distance. On top of it sit a
  connectivity test, the component decomposition, a per-source distance
  vector, the node count of a component, the largest component, the
  diameter and the clustering coefficient.
- **Fragmentation measures** (`fragmentation_measures.py`). For every node
  n, a measure copies the matrix, zeroes row and column n, and deletes every
  node left with an empty column. It then scores what remains:
  - the number of components as a share of the original size;
  - the F-measure, one minus the share of ordered pairs still connected;
  - the information entropy of the component sizes;
  - the Fd-measure, one minus the normalised sum of reciprocal distances.
- **The greedy selector** (`project/optimization_algorithms.py`). It
  repeatedly removes the node of highest F-measure. It keeps a cumulative
  objective penalised by 0.15 per selected node, and stops once that
  objective no longer strictly increases.

Nodes are indices `0 .. N-1` and a matrix is a `seq<seq<int>>`. Most
results need the matrix to be square, 0/1 and symmetric. Reachability,
exact hop distance and components are defined once, as specifications:
- module `Paths`: `InBall`, `Reachable`, `AtDistance`, `DistanceTo`;
- modules `Connectivity` and `Components`: `ReachSet`, `Classes`.

Every operation is proved against these definitions. Code that works by
updating variables in loops is modelled as methods with loop invariants:
the search queue, the component loop, the measure loops and the greedy
loop. Each measure entry and the greedy trace are stated as functions and
predicates, and the lemmas are proved about those.

The greedy selector is specified by a ghost trace. `trace` holds the
working matrices, `scores` the F-measure vectors and `indices` the
index-bookkeeping lists, and the selector's result is one of:
- `Selection(keys, objective)`: the normal return;
- `EmptyScore`: `max` (before the loop) or `np.argmax` (inside it) of an empty score vector raises;
- `ZeroDivision`: the F-measure of a one-row matrix divides by zero;
- `IndexOutOfRange`: `np.delete` is given a position past the end.

## Model

| member | source | states |
|---|---|---|
| Bfs.Neighbors | project/our_functions.py:120 | the neighbour set holds exactly the nodes w with `graph[vertex][w] == 1` |
| Bfs.ListOf | project/our_functions.py:135 | `queue.extend` of a set appends exactly the set's members, in an arbitrary order |
| Bfs.LayerOf | project/our_functions.py:122-125 | the layer scan finds a layer that holds the vertex, and no later layer holds it |
| Bfs.Visit | project/our_functions.py:113-135 | one visit marks the first queued node visited and keeps the search invariant: layers by exact level, queue ordered by level, every searched node reached along edges |
| Bfs.VisitStep | project/our_functions.py:116-135 | the new layer, searched set and queue after a visit satisfy the search invariant again |
| Bfs.SkipStep | project/our_functions.py:114-116 | popping an already visited node keeps the queue invariant |
| Bfs.HeadIsLowest | project/our_functions.py:112-114 | the head of the queue has the lowest level among the searched, unvisited nodes |
| Bfs.LevelIsDistance | project/our_functions.py:97-101 | a node recorded at level d is at hop distance exactly d from the start |
| Bfs.NoShorterPath | project/our_functions.py:97-101 | no searched node is reachable in fewer hops than its level |
| Bfs.AllVisited | project/our_functions.py:112-136 | once the queue is empty, every searched node was visited and the last layer is empty |
| Bfs.FinalLayers | project/our_functions.py:97-136 | at the end, layer d holds exactly the nodes at distance d, and the union of the layers is exactly the reachable set |
| Bfs.BreadthFirstSearch | project/our_functions.py:97-136 | layer 0 is {start}, layer d holds exactly the nodes at hop distance d (so layers are disjoint), the last layer is empty, and the union is the set reachable from start |
| Paths.DistanceToMeaning | project/our_functions.py:97-101 | `DistanceTo` is Finite(d) exactly when the shortest path has d hops, and Infinite exactly when the node is unreachable |
| Paths.DistanceUnique | project/our_functions.py:97-101 | a node has at most one exact hop distance from the start |
| Paths.DistanceZero | project/our_functions.py:155-171 | distance 0 holds for the source and no other node |
| Paths.ReachableSymmetric | project/our_functions.py:120 | in a symmetric matrix reachability is symmetric |
| Paths.ReachableTransitive | project/our_functions.py:112-135 | reachability composes along paths |
| Connectivity.ReachSet | project/our_functions.py:61-67 | the union of a search's layers holds exactly the nodes reachable from its start |
| Connectivity.LayeringCounts | project/our_functions.py:23-26 | the non-final layers sum to the size of the reachable set |
| Connectivity.CountMeansConnected | project/our_functions.py:29-32 | the count equals the matrix size exactly when every node is reachable from the start |
| Connectivity.ConnectedGraph | project/our_functions.py:5-32 | returns true if and only if every node is reachable from node 0 |
| Connectivity.Restrict | project/our_functions.py:59-71 | the component matrix keeps entry (i, j) when i or j is a member, and is 0 elsewhere |
| Connectivity.ComponentMatrixInduced | project/our_functions.py:59-71 | for a symmetric 0/1 input the component matrix is nonzero only within its own nodes, and agrees with the input there |
| Connectivity.SearchedNodes | project/our_functions.py:61-67 | the nodes collected from the layers are exactly the start's reachable set |
| Connectivity.FindComponents | project/our_functions.py:35-79 | each component is the reachable set of a root not covered by earlier components, its matrix is the restriction to that set, and together they cover every node |
| Connectivity.ComponentStep | project/our_functions.py:54-77 | one round keeps the cover and root invariants and shrinks the search list |
| Connectivity.ComponentsPartition | project/our_functions.py:35-79 | for a symmetric input the components are nonempty, pairwise disjoint, closed under reachability and cover all nodes |
| Connectivity.ClassesApart | project/our_functions.py:74 | two distinct components share no node |
| Connectivity.ConnectedIffOneComponent | project/our_functions.py:5-79 | a symmetric graph is connected exactly when the decomposition finds one component |
| Connectivity.NumNodes | project/our_functions.py:81-83 | the count never exceeds the number of rows |
| Matrices.RowSum | project/our_functions.py:83 | the sum of a row, as one entry of `np.sum(adjacency, axis=1)`; `Matrices.RowSumNonzero` makes it nonzero exactly when the row has a nonzero entry |
| Connectivity.NumNodesCounts | project/our_functions.py:81-83 | `num_nodes` is the number of rows with a nonzero sum |
| Connectivity.HasEdgeIffShared | project/our_functions.py:81-83 | a node has an edge exactly when its component has at least two nodes |
| Connectivity.NumNodesOfComponent | project/our_functions.py:81-83 | a component matrix counts all its nodes, or 0 for an isolated node |
| Connectivity.FindLargestComponent | project/our_functions.py:85-94 | returns the first component of maximal node count (strict `>`); when all counts are 0 the source's index is unbound, modelled as NoComponent |
| Components.ClassSeqPartition | project/our_functions.py:35-79 | the reachability classes of a symmetric matrix form a component partition |
| Components.PartitionIsClasses | project/our_functions.py:35-79 | any component partition lists exactly the reachability classes, each once |
| Components.PartitionCount | project/our_functions.py:35-79 | every component partition has as many parts as there are classes, whatever order they were found in |
| Components.PartitionSum | project/our_functions.py:35-79 | a sum over the parts of a component partition does not depend on the order in which the parts were found |
| Components.ClassCountBound | project/our_functions.py:35-79 | there are at most N classes, and none exactly when N is 0 |
| Components.ConnectedIffOneClass | project/our_functions.py:5-32 | a symmetric graph is connected exactly when it has one class |
| Metrics.ShortestPathLengths | project/our_functions.py:139-171 | the vector has length N, each entry is the hop distance (Infinite when unreachable), and the source is at 0 |
| Metrics.LayerGivesDistance | project/our_functions.py:161-169 | a node's layer index is its distance, and a node in no layer is at infinite distance |
| Metrics.FiniteHops | project/our_functions.py:205 | the filter keeps exactly the finite distances |
| Metrics.MaxNat | project/our_functions.py:206 | Python's `max` returns a member that bounds every member |
| Metrics.Eccentricity | project/our_functions.py:202-206 | the largest finite distance from a node bounds all its finite distances and is one of them |
| Metrics.Diameter | project/our_functions.py:192-211 | the diameter bounds every finite distance from a non-isolated source and, unless 0, is attained by one |
| Metrics.ColumnSupport | project/our_functions.py:235 | the neighbours are exactly the nonzero entries of the node's column, in increasing order |
| Metrics.ClusteringCoefficient | project/our_functions.py:214-248 | 0 with fewer than two neighbours, otherwise `2L/(k(k-1))` over the neighbours' submatrix; `Metrics.ClusteringCountsLinks` makes it the share of linked neighbour pairs, `Metrics.ClusteringBounds` its range and `Metrics.ClusteringOfClique` its value on a clique |
| Metrics.ClusteringCountsLinks | project/our_functions.py:230-245 | for a simple graph the coefficient is 0 with fewer than two neighbours, and otherwise the number of linked neighbour pairs divided by the k(k-1)/2 possible pairs |
| Metrics.LinkedPairs | project/our_functions.py:232 | the links between neighbour nodes: the index pairs i < j of the neighbour list whose nodes are adjacent |
| Metrics.BlockSumLinks | project/our_functions.py:243-244 | the neighbours' submatrix of a simple graph sums to twice the number of links among them, so `L = np.sum(A)/2` counts those links |
| Metrics.PossibleLinks | project/our_functions.py:245 | the k(k-1)/2 unordered pairs among k neighbours, at least 1 when k >= 2 |
| Metrics.LinkShare | project/our_functions.py:244-245 | `2L/(k(k-1))` with L = 2l/2 equals l over k(k-1)/2 |
| Metrics.Coefficient | project/our_functions.py:244-245 | `2L/(k(k-1))` with L half the submatrix sum; `Metrics.CoefficientValue` puts it in [0, 1] when the sum is at most k(k-1), and `Metrics.FullCoefficient` makes it 1 at k(k-1) |
| Metrics.ClusteringBounds | project/our_functions.py:214-248 | the clustering coefficient lies in [0, 1] for an undirected simple graph |
| Metrics.BlockSumBound | project/our_functions.py:243-244 | the neighbours' submatrix holds at most k(k-1) ones |
| Metrics.ClusteringOfClique | project/our_functions.py:235-245 | neighbours that are all linked to each other give coefficient 1 |
| Fragmentation.Zeroed | fragmentation_measures.py:19-21 | row and column n are zero and every other entry is unchanged |
| Fragmentation.CopyAndZero | fragmentation_measures.py:19-21 | the deep copy in a fresh array holds the zeroed matrix |
| Fragmentation.ColumnTotal | fragmentation_measures.py:22 | the loop computes the column sum |
| Fragmentation.ZeroColumns | fragmentation_measures.py:22 | `zero_index` holds exactly the columns whose sum is 0 |
| Fragmentation.KeptBelow | fragmentation_measures.py:22-24 | the kept indices are increasing, have nonzero column sums, and include every such column |
| Fragmentation.KeptColumns | fragmentation_measures.py:23-24 | the kept indices are the complement of `zero_index`, in order |
| Fragmentation.Kept | fragmentation_measures.py:22-24 | the indices whose column sum is nonzero, in increasing order, as `Fragmentation.KeptBelow` states for all of them |
| Fragmentation.KeptRow | fragmentation_measures.py:23-24 | row `kept[i]` of the array restricted to the kept columns, in order |
| Fragmentation.DeleteZeroColumns | fragmentation_measures.py:23-24 | the result is the submatrix on the kept indices, in order |
| Fragmentation.RemoveAndPrune | fragmentation_measures.py:19-24 | one node's step (copy, zero row and column n, delete the zero-sum columns) yields exactly the pruned matrix |
| Fragmentation.Pruned | fragmentation_measures.py:19-24 | the working matrix once node n is removed: square, the submatrix of the zeroed copy on the kept indices (`Fragmentation.PrunedEntries`) |
| Fragmentation.PrunedExcludes | fragmentation_measures.py:20-24 | node n never survives its own removal, so the working matrix shrinks |
| Fragmentation.PrunedEntries | fragmentation_measures.py:19-24 | entry (i, j) of the working matrix is entry (K[i], K[j]) of the input, K being the kept indices |
| Fragmentation.PrunedUndirected | fragmentation_measures.py:19-24 | pruning keeps a matrix 0/1 and symmetric |
| Fragmentation.PrunedGraph | fragmentation_measures.py:19-24 | pruning keeps a graph simple |
| Fragmentation.PrunedHasEdges | fragmentation_measures.py:22-24 | every remaining node has an edge |
| Fragmentation.StarCentre | fragmentation_measures.py:19-24 | removing the centre of a star prunes every node |
| Measures.PrunedComponents | fragmentation_measures.py:19-27 | the components of the working matrix form a component partition of it |
| Measures.ComponentSizes | fragmentation_measures.py:59-60 | entry k is `num_nodes` of component k |
| Measures.Store | fragmentation_measures.py:95 | writing entry n of the entropy vector changes that entry and no other |
| Measures.CountEntryOf | fragmentation_measures.py:19-27 | one node's entry is the number of classes of the pruned matrix, divided by N |
| Measures.CountEntry | fragmentation_measures.py:19-27 | entry n of `num_disconnected_components`: the number of reachability classes of the pruned matrix over N; `Measures.CountBounds` bounds it |
| Measures.NumDisconnectedComponents | fragmentation_measures.py:17-28 | the vector has length N and entry n is the class count after removing n, divided by N |
| Measures.CountBounds | fragmentation_measures.py:13-27 | every entry lies in [0, 1), and is 0 exactly when nothing survives pruning |
| Measures.SingleComponentMeaning | fragmentation_measures.py:27 | the entry is 1/N exactly when the pruned matrix is connected |
| Measures.PairNumerator | fragmentation_measures.py:58-61 | the numerator is the sum of s(s-1) over the component sizes |
| Measures.PairCountOfParts | fragmentation_measures.py:58-61 | the numerator over component matrices equals the per-class sum |
| Measures.FEntryOf | fragmentation_measures.py:50-63 | one node's entry is the F value of the pruned matrix's classes |
| Measures.FEntry | fragmentation_measures.py:50-63 | entry n of `F_measure`: one minus the sum of s(s-1) over the pruned matrix's classes, over N(N-1); `Measures.FMeasureBounds` bounds it |
| Measures.FMeasure | fragmentation_measures.py:46-64 | the vector has length N and entry n is one minus sum s(s-1) over the classes after removing n, divided by N(N-1) |
| Measures.FMeasureBounds | fragmentation_measures.py:40-63 | every F-measure entry lies in [0, 1] |
| Measures.SizesBound | fragmentation_measures.py:57-61 | the pairs counted within components never exceed N(N-1) |
| Measures.FMeasureOfGraph | fragmentation_measures.py:57-63 | for a simple graph each component counts all its nodes |
| Measures.FMeasureConnected | fragmentation_measures.py:57-63 | a connected remainder of size S gives 1 - S(S-1)/(N(N-1)) |
| Measures.EntropyNumerator | fragmentation_measures.py:90-93 | the numerator is the sum of (s/N) ln(s/N) over the component sizes |
| Measures.TermSumOfParts | fragmentation_measures.py:90-93 | the numerator over component matrices equals the per-class sum |
| Measures.EntropyEntryOf | fragmentation_measures.py:82-95 | one node's entry is minus the sum of entropy terms over the pruned matrix's classes |
| Measures.EntropyEntry | fragmentation_measures.py:82-95 | entry n of `information_entropy`: minus the sum of (s/N) ln(s/N) over the pruned matrix's classes; `Measures.EntropyNonnegative` bounds it |
| Measures.InformationEntropy | fragmentation_measures.py:79-96 | the vector has length N and entry n is the entropy of the class sizes after removing n |
| Measures.EntropyNonnegative | fragmentation_measures.py:75-95 | every entropy entry is at least 0 for a logarithm that is non-positive on (0, 1] |
| Measures.TermSumNonpositive | fragmentation_measures.py:91-93 | shares of at most the whole give a non-positive numerator |
| Measures.DistanceNumerator | fragmentation_measures.py:122-127 | the numerator is the sum of 1/d(i, j) over pairs j < i, unreachable pairs adding 0 |
| Measures.FdEntryOf | fragmentation_measures.py:115-129 | one node's entry is one minus the reciprocal-distance sum of the pruned matrix, divided by (N-1)(N-2)/2 |
| Measures.FdEntry | fragmentation_measures.py:115-129 | entry n of `Fd_measure`: one minus the sum of reciprocal distances of the pruned matrix over (N-1)(N-2)/2; `Measures.FdMeasureBounds` bounds it |
| Measures.FdMeasure | fragmentation_measures.py:112-130 | the vector has length N and entry n is the Fd value after removing n |
| Measures.PairRecipBounds | fragmentation_measures.py:122-127 | the reciprocal-distance sum of S nodes lies in [0, S(S-1)/2] |
| Measures.FdMeasureBounds | fragmentation_measures.py:107-129 | every Fd entry lies in [0, 1] |
| Measures.StarCentreMeasures | fragmentation_measures.py:17-129 | removing a star's centre gives count 0, F-measure 1, entropy 0 and Fd-measure 1 |
| GreedyTrace.ArgMax | project/optimization_algorithms.py:31-72 | `np.argmax` returns a valid index |
| GreedyTrace.Max | project/optimization_algorithms.py:27 | Python's `max` of a nonempty vector; `GreedyTrace.MaxIsMaximum` states that it is the maximum |
| GreedyTrace.Penalty | project/optimization_algorithms.py:24-27 | the penalty `C * count` with C = 0.15 |
| GreedyTrace.MaxIsMaximum | project/optimization_algorithms.py:27-75 | `max(score)` bounds every score and is one of them |
| GreedyTrace.ArgMaxIsFirstMaximum | project/optimization_algorithms.py:31-72 | the key is the lowest index achieving the maximum |
| GreedyTrace.Identity | project/optimization_algorithms.py:40 | the initial index list maps position i to i |
| GreedyTrace.RemoveAt | project/optimization_algorithms.py:68 | `np.delete` at a position drops that entry and keeps the others in order |
| GreedyTrace.StepsAppend | project/optimization_algorithms.py:59-68 | a further removal extends the trace of steps |
| GreedyTrace.AccumulatesAppend | project/optimization_algorithms.py:75-76 | a further objective entry extends the cumulative recurrence |
| GreedyTrace.IncreasingAppend | project/optimization_algorithms.py:42-44 | a strict increase extends the increasing prefix of the objective |
| GreedyTrace.ProgressStart | project/optimization_algorithms.py:21-40 | the first score gives objective[0] = max(F) - 0.15 with nothing selected yet |
| GreedyTrace.ProgressAppend | project/optimization_algorithms.py:59-76 | a scored step keeps the trace, the objective recurrence and the increasing prefix |
| GreedyTrace.LoopingStep | project/optimization_algorithms.py:42-76 | after a normal iteration the loop state holds again with one more key and one more objective entry |
| GreedyTrace.RisingPassed | project/optimization_algorithms.py:42-44 | a loop test that passes, with the loop state, means every loop test of the run so far passed |
| GreedyTrace.FinishedEarly | project/optimization_algorithms.py:21-27 | an empty matrix fails in `max`, a one-row matrix in the F-measure |
| GreedyTrace.FinishedUnscored | project/optimization_algorithms.py:59-71 | a step taken after a passed loop test that leaves 0 or 1 rows ends in the matching failure, after recording the key, with every loop test passed |
| GreedyTrace.FinishedOutOfRange | project/optimization_algorithms.py:42-68 | after a passed loop test, a stored index past the end of the list ends in the index failure, with every loop test passed |
| GreedyTrace.FinishedSelection | project/optimization_algorithms.py:42-77 | a loop that stops normally returns keys and objective whose last entry does not exceed the previous one |
| GreedyTrace.StepShrinks | project/optimization_algorithms.py:59-68 | every step removes at least one row of the working matrix and exactly one index entry |
| GreedyTrace.StepsAt | project/optimization_algorithms.py:59-72 | each recorded key is `original_indices` at the argmax of that round's scores, and the next matrix is the pruned one |
| GreedyTrace.RunLengths | project/optimization_algorithms.py:50-68 | after i selections the index list has N - i entries and the matrix at most N - i rows, so at most N keys are chosen |
| GreedyTrace.FirstKey | project/optimization_algorithms.py:21-31 | the first scores are the input's F-measure and the first key is its arg-max |
| GreedyTrace.ObjectiveRecurrence | project/optimization_algorithms.py:27-76 | objective[i] is objective[i-1] (0 for i = 0) plus max of round i's scores minus 0.15 (i+1) |
| GreedyTrace.IncreasingOrder | project/optimization_algorithms.py:42-44 | every objective entry before the last is strictly increasing |
| Greedy.FMeasureVector | project/optimization_algorithms.py:21-71 | the score is the F-measure vector of the working matrix |
| Greedy.Advance | project/optimization_algorithms.py:59-72 | records `original_indices[key]`, fails exactly when that position is out of range, otherwise prunes and rescores, failing exactly when 0 or 1 rows remain |
| Greedy.SelectNext | project/optimization_algorithms.py:42-76 | one iteration after a passed loop test either ends in an exception whose run passed every loop test, or keeps the loop state with a strictly smaller matrix |
| Greedy.FindKeyTerrorists | project/optimization_algorithms.py:4-77 | an empty input fails in `max` and a one-row input in the F-measure. Otherwise the run passes every loop test it takes: it stops with the selection at the first loop test that fails, or with an exception in the step after the last passed test |

## Left out

- `compute_average_distance` (project/our_functions.py:174-189): an average of float averages that adds nothing beyond the distance vector. It is not modelled.
- `get_true_labels`, `give_names_tonodes` and `give_names_tonodes_dates_based`: CSV reading and URL parsing, which are I/O.
- `tqdm_notebook` in `Fd_measure`: progress display only.
- Floating point: all measures use exact `real` arithmetic, so rounding is not modelled.
- Measures.EntropyNonnegative: `np.log` is a parameter `ln: real -> real` of the entropy, and only non-negativity is proved, for any ln that is non-positive on (0, 1]. The docstring's upper bound of 1 (fragmentation_measures.py:75-76) does not hold for the natural logarithm. Example: seven nodes, with node 0 linked to 1, 3 and 5, and the pairs 1-2, 3-4 and 5-6 linked. Removing node 0 leaves three components of size 2, so the entropy is (6/7) ln 3.5, about 1.07.
- Weighted matrices: the model assumes square matrices. Results about components and measures assume 0/1 symmetric ones, because the search treats only entries equal to 1 as edges.
- Connectivity.FindComponents: `list(search_list).pop(0)` depends on Python's set iteration order. The model picks an arbitrary remaining node, and the measures are proved independent of that choice.
- Bfs.ListOf: `queue.extend` of a set appends in Python's iteration order, modelled as an arbitrary order.
- Connectivity.ConnectedGraph: it requires at least one row, because the source indexes row 0 of an empty matrix and raises.
- Measures.FMeasure: it requires N != 1, because the source divides the integer 0 by N(N-1) = 0 and raises ZeroDivisionError.
- Measures.FdMeasure: it requires N to be neither 1 nor 2, because the source's divisor (N-1)(N-2)/2 is 0 and the division raises.
- Greedy.FindKeyTerrorists: the branch for a one-row working matrix (project/optimization_algorithms.py:47-57) cannot be reached. A one-row matrix has already made `F_measure` raise (line 21, or line 71 of the previous round), so the model has no such branch.
- Greedy.SelectNext: the source sets `current` before the exception checks; the model sets it after them. No result can observe the difference, because an exception discards `current`.
- GreedyTrace: the index bookkeeping is modelled as written, not as evidently intended. `np.delete(original_indices, original_indices[key])` deletes the position equal to the stored index, and nodes pruned from the working matrix stay in the list. So a recorded key need not name the node actually removed; the model states what is recorded, not that it names that node.
- The flow-based selector (`compute_obj_flow` and its subset search) is not part of this model.
- The centre of a star: one might expect its removal to leave four isolated leaves, giving a count of 4/5 and an entropy of ln 4. The code deletes every node left without an edge, so the model follows the code: count 0, F-measure 1, entropy 0 and Fd-measure 1 (Measures.StarCentreMeasures).
