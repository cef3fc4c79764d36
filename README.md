# Minimum vertex cover: branch and bound, and a genetic-algorithm fitness

This project models two Python scripts that look for small vertex covers.

- `src/code/BnB.py` builds an undirected graph from an adjacency list. It then
  runs a depth-first branch-and-bound search for a minimum vertex cover.
  - The search keeps three pieces of state:
    - a LIFO frontier of `(vertex, state, parent)` entries;
    - the trail `CurVC` of `(vertex, state)` decisions on the current path, where state 1 means "in the cover" and state 0 means "left out, so every neighbour is in";
    - one working graph `CurG`, changed in place.
  - It prunes a branch with the lower bound `ceil(|E| / maxdeg)`.
  - It backtracks by undoing decisions back to the parent of the next frontier entry.
  - It records every strictly better cover together with its time.
  - `main` drops the state-0 entries from the best trail before writing it out.
- `src/code/Approx.py` is a genetic algorithm whose fitness counts threats
  between queens on an n×n board. An individual is a list of rows, one per column. The model covers its deterministic steps:
  - the fitness `evaluar_aptitud` and `calcular_fitness`;
  - the selection `seleccion_individuos`;
  - the pick of the best final individual, `mejor_individuo_poblacion_final`.

Modules, one per file:

| file | module | contents |
|---|---|---|
| `wrappers.dfy` | `Wrappers` | `Option` |
| `graphs.dfy` | `Graphs` | the graph as a value (`Graph`), the graph changed in place (`MutableGraph`), `create_graph` |
| `bounds.dfy` | `Bounds` | `ceil`, `find_maxdeg`, `Lowerbound`, and why the bound is admissible |
| `trails.dfy` | `Trails` | the trail, `VC_Size`, the invariants tying trail and working graph |
| `bnb.dfy` | `BranchAndBound` | the search, split into include / exclude / undo / backtrack / one iteration |
| `solution.dfy` | `Solution` | `main` without I/O: create, search, filter |
| `queens.dfy` | `Queens` | `evaluar_aptitud`, `calcular_fitness` |
| `selection.dfy` | `Selection` | `seleccion_individuos`, `mejor_individuo_poblacion_final` |

**Graph.** Nodes are a sequence in networkx insertion order, because that order decides which maximum-degree vertex is picked. Edges are a set of unordered pairs.

**Search state.** `BnB` is a method. It has a `MutableGraph` for `CurG`, whose
`remove_node`/`add_node`/`add_edge` methods update its fields. It also has sequences for the frontier and the trail.

**Loop invariants.** They say that:
- the trail names distinct vertices of `G`;
- every state-0 vertex comes after all its neighbours are included;
- no two state-0 entries are adjacent;
- `CurG` has as its node set the nodes of `G` minus the included vertices, and as its edge set the edges of `G` those leave uncovered (the order of its nodes is not fixed by the trail);
- the frontier entries sit on prefixes of the trail;
- no cover smaller than the upper bound is lost: each agrees with the snapshot trail and the decision of some entry still on the frontier.

**Wall clock.** `time.time()` is the wall clock, so the model assumes nothing about it. It is an input sequence of elapsed readings, one per iteration, and a reading may be negative or earlier than the one before. Only the claim that the trace times never decrease needs more: it is stated for readings that are non-negative and non-decreasing (`ReadingsOrdered`).

**Termination.** Each frontier entry stands for a subtree of at most `2^(m+1) - 1` search nodes, where `m` counts the vertices still undecided below it (`Weight`, `Open`, `Measure`). Every iteration makes that sum smaller. So a search of a graph with `n` nodes takes fewer than `Budget(G) = 2^(n+1) - 1` iterations. Minimality is stated on the inputs alone: given `Budget(G)` readings, all before a positive cutoff (`Ample`), the frontier empties first, and no cover of `G` is smaller than the one returned.

**A graph without edges.** A graph whose adjacency list lists no edge has no nodes at all, because `create_graph` only adds edges. Then `find_maxdeg` indexes an empty list and the program fails. The model follows the code: `BnB` returns `Failed(EmptyGraph)`. It does not return an empty cover.

## Model

| member | source | states |
|---|---|---|
| `Graphs.Graph.NeighborList` | src/code/BnB.py:108-109 | the neighbours of `v` are exactly the `u` with an edge `{u, v}`, without repeats |
| `Graphs.Without` | src/code/BnB.py:112-114 | the node list with `v` taken out: exactly the other members, still distinct, and the list itself when `v` is absent |
| `Graphs.WithoutAppend` | src/code/BnB.py:112-114 | taking `v` out of a concatenation takes it out of each part, so the remaining nodes keep their relative order |
| `Graphs.Graph.RemoveNode` | src/code/BnB.py:112-114 | `v` is gone with every edge at `v`; every other edge and node stays, the nodes in their old order (`Without`); validity is kept |
| `Graphs.Graph.AddNode` | src/code/BnB.py:155 | an absent `v` is appended at the end of the node order; an existing node leaves the graph unchanged |
| `Graphs.Graph.AddEdge` | src/code/BnB.py:164 | the end points are added if absent and the edge set grows by exactly `{u, v}` |
| `Graphs.MutableGraph.Copy` | src/code/BnB.py:92 | `G.copy()`: the new graph object holds the value of `G` |
| `Graphs.MutableGraph.RemoveNode` | src/code/BnB.py:112-114 | the in-place `remove_node`: the new value is the old one without `v` |
| `Graphs.MutableGraph.AddNode` | src/code/BnB.py:155 | the in-place `add_node` |
| `Graphs.MutableGraph.AddEdge` | src/code/BnB.py:164 | the in-place `add_edge` |
| `Graphs.CreateGraph` | src/code/BnB.py:59-68 | the edges are exactly `{i+1, j}` for each `j` on row `i`, duplicates and symmetric listings collapsing; the nodes are exactly the end points of edges |
| `Graphs.CreateGraphLoopless` | src/code/BnB.py:64-66 | the graph has no self-loop if and only if no row `i` lists `i+1` |
| `Bounds.Ceil` | src/code/BnB.py:201-208 | the result is the least integer `>= d`: `d <= r < d + 1`, with `int` truncating toward zero |
| `Bounds.FirstMaxIndex` | src/code/BnB.py:186-188 | the index picked by the stable descending sort: a maximum, with every earlier entry strictly smaller |
| `Bounds.FindMaxDeg` | src/code/BnB.py:181-189 | the returned node is in the graph, its degree is maximal, and every node before it in node order has a smaller degree |
| `Bounds.MaxDegreePositive` | src/code/BnB.py:196 | a graph with an edge has a node of degree at least 1, so the division is defined |
| `Bounds.Lowerbound` | src/code/BnB.py:192-198 | `maxdeg * lb >= |E|` and `maxdeg * (lb - 1) < |E|`: the integer ceiling of `|E| / maxdeg` |
| `Bounds.LowerboundIsCeil` | src/code/BnB.py:196-197 | `Lowerbound` equals `ceil` applied to the exact quotient of edges by maximum degree |
| `Bounds.LowerboundAdmissible` | src/code/BnB.py:192-198 | every vertex cover of a graph with an edge has at least `Lowerbound` vertices |
| `Bounds.CoverCount` | src/code/BnB.py:196 | a cover whose vertices each touch at most `cap` edges has `|E| <= |c| * cap` |
| `Trails.VertexList` | src/code/BnB.py:160 | `curVC_nodes` holds exactly the vertices the trail names |
| `Trails.VcSize` | src/code/BnB.py:211-219 | the loop returns the sum of the states of the trail |
| `Trails.SumStatesCountsIncluded` | src/code/BnB.py:213-215 | on a trail of distinct vertices with states 0/1, the sum of states is the number of included vertices |
| `Trails.PrefixOK` | src/code/BnB.py:150-153 | cutting the trail back to any prefix keeps its invariant |
| `Trails.ExcludedNeighboursIncluded` | src/code/BnB.py:107-112 | every neighbour in `G` of a state-0 vertex is included in the trail |
| `Trails.NoEdgesLeftIsCover` | src/code/BnB.py:121-128 | when the working graph has no edge, the included vertices cover every edge of `G` |
| `BranchAndBound.IndexOf` | src/code/BnB.py:150 | `CurVC.index(d)`: a position of `d` with no earlier occurrence |
| `BranchAndBound.MirrorsInclude` | src/code/BnB.py:110-114 | removing a not-yet-included vertex of `G` from the working graph matches adding it to the trail |
| `BranchAndBound.IncludeOK` | src/code/BnB.py:113-118 | appending `(u, 1)` for a fresh vertex keeps the trail invariant |
| `BranchAndBound.ExcludeOK` | src/code/BnB.py:107-118 | appending `(v, 0)` after its neighbours are included keeps the trail invariant and adds no included vertex |
| `BranchAndBound.LiveVertexFresh` | src/code/BnB.py:134-137 | a vertex that still has an uncovered edge in `G` is not yet on the trail |
| `BranchAndBound.NeighbourFresh` | src/code/BnB.py:108-112 | a neighbour in the working graph is a vertex of `G`, off the trail, and different from `v` |
| `BranchAndBound.ChildEntry` | src/code/BnB.py:133-137 | the vertex `find_maxdeg(CurG)` pushes is a vertex of `G`, off the trail, with an edge still uncovered |
| `BranchAndBound.Isolated` | src/code/BnB.py:112-114 | after an include or exclude the vertex has no edge left in the working graph |
| `BranchAndBound.ApplyInclude` | src/code/BnB.py:112-114 | one `remove_node` of a fresh vertex, with `(v, 1)` appended; the invariants are kept |
| `BranchAndBound.ForceNeighbours` | src/code/BnB.py:107-112 | the list iterated is the current neighbours of `vi`, which are exactly its `G`-neighbours not yet included; each is appended as `(n, 1)` and removed; afterwards every `G`-neighbour of `vi` is included |
| `BranchAndBound.ForcedSets` | src/code/BnB.py:109-110 | appending the forced decisions adds exactly the listed vertices to the included and named sets |
| `BranchAndBound.ApplyExclude` | src/code/BnB.py:107-112 | state 0: the neighbours are forced in, then `(vi, 0)` is appended; the invariants are kept |
| `BranchAndBound.Apply` | src/code/BnB.py:107-118 | the branch on the popped state: both resulting trails and working graphs, with the invariants kept |
| `BranchAndBound.UndoCondition` | src/code/BnB.py:161-162 | a neighbour not included before the undone decision is also not named on the shortened trail |
| `BranchAndBound.UndoStep` | src/code/BnB.py:162 | the test `nd in CurG and nd not in curVC_nodes` holds exactly for neighbours not included on the shortened trail |
| `BranchAndBound.UndoEdges` | src/code/BnB.py:157-164 | the uncovered edges after the pop are the ones before plus the edges re-added to the undone vertex |
| `BranchAndBound.Reconnect` | src/code/BnB.py:160-164 | the `add_edge` loop leaves the nodes alone and adds exactly the edges to the qualifying neighbours |
| `BranchAndBound.Undo` | src/code/BnB.py:152-164 | one undo pops the last decision, appends its vertex at the end of `CurG`'s node list (`add_node`), and restores the working graph's edges to match the shorter trail |
| `BranchAndBound.Backtrack` | src/code/BnB.py:145-171 | parent on the trail: cut the trail back to just after its first occurrence, in the same graph object, whose node list is the old one with the undone vertices appended, the last decision's first (`PutBack`); parent `(-1, -1)`: empty trail and a fresh copy of `G`; otherwise nothing changes |
| `BranchAndBound.PopEntry` | src/code/BnB.py:103 | the popped entry is fresh for the current trail, and the rest of the frontier keeps its invariant |
| `BranchAndBound.PushChildren` | src/code/BnB.py:134-137 | pushing the two children of a live vertex keeps the frontier invariant |
| `BranchAndBound.BacktrackTarget` | src/code/BnB.py:145-169 | the next entry's parent is either `(-1, -1)` with an empty snapshot, or on the trail at the end of that entry's snapshot |
| `BranchAndBound.BestRecord` | src/code/BnB.py:121-127 | recording a strictly smaller cover keeps the best-so-far invariant: the trace sizes strictly decrease and the last one is the size of `OptVC` |
| `BranchAndBound.ParentPosition` | src/code/BnB.py:148-150 | the last decision of a prefix sits at its own index in a trail of distinct vertices |
| `BranchAndBound.Step` | src/code/BnB.py:102-171 | the whole new state, from the popped entry `e` and the trail `a` and graph `h` its decision produces: a leaf smaller than `UpperBound` becomes `OptVC`, the bound and a trace point stamped `now`, anything else leaves them alone; an expansion pushes the two children of `find_maxdeg(h)` with `e` as parent and keeps `a` and `h`; a leaf or prune leaves the rest of the frontier and backtracks to its top entry's parent (`Retreated`: cut the trail after it in the same graph object, with the undone vertices appended to its node list, or restart from `G` at the root), or keeps `a` and `h` when the frontier is empty; the invariants, including that no cover smaller than the bound is lost, are kept; the frontier measure `Measure` strictly decreases |
| `BranchAndBound.Settle` | src/code/BnB.py:121-171 | after the decision has produced the trail `a` and working graph `h`: the leaf, expand or prune outcome and the backtrack of `Step`, stated from `a` and `h` (`Settled`), with the invariants kept and the measure below the popped entry's |
| `BranchAndBound.Advance` | src/code/BnB.py:102-176 | one pass of the loop body with the reading `clock[step]`: exactly the new state `Step` promises (`Stepped`), the invariants kept, the measure strictly smaller and the trace grown by at most one point stamped with that reading |
| `BranchAndBound.Start` | src/code/BnB.py:89-99 | `UpperBound` is the number of nodes, `CurG` a fresh copy of `G`, the frontier exactly `(v, 0)` then `(v, 1)` with no parent for `v = find_maxdeg(G)`; the frontier invariant holds, no cover is lost, and the measure is below `Budget(G)` |
| `BranchAndBound.RootFrontier` | src/code/BnB.py:97-99 | the two root entries on the empty trail satisfy the frontier invariant |
| `BranchAndBound.RootMeasure` | src/code/BnB.py:97-99 | the two root entries together stand for fewer than `Budget(G)` iterations |
| `BranchAndBound.WeightGrows` | src/code/BnB.py:134-137 | two subtrees one level lower fit, with their root, in a subtree of any greater height |
| `BranchAndBound.AppliedVertices` | src/code/BnB.py:103-119 | the trail a decision produces names the decided vertex and every vertex of the trail it extends |
| `BranchAndBound.PopDrops` | src/code/BnB.py:103 | popping an entry makes the measure strictly smaller |
| `BranchAndBound.ExpandDrops` | src/code/BnB.py:134-137 | replacing the popped entry by the two children of an undecided vertex on a trail that extends its snapshot makes the measure strictly smaller |
| `BranchAndBound.ClockNext` | src/code/BnB.py:173-174 | after an iteration begun before the cutoff, the next reading becomes `delta_time`, every iteration so far began before the cutoff, and with ordered readings the trace times stay ordered and no later than it |
| `BranchAndBound.LoopExit` | src/code/BnB.py:101 | when the loop guard fails, the search's results hold: fewer than `Budget(G)` iterations, and no smaller cover when the frontier was exhausted or the readings were `Ample` |
| `BranchAndBound.PopApply` | src/code/BnB.py:103-119 | the popped entry is the top of the frontier; the new trail and working graph are exactly those its decision produces (`Applied`, `AppliedGraph`: `(vi, 1)` and `remove_node(vi)`, or `(n, 1)` and `remove_node(n)` for each current neighbour, then `(vi, 0)`); `VC_Size` is the number of included vertices; every cover below the popped entry agrees with the new trail |
| `BranchAndBound.RecordLeaf` | src/code/BnB.py:121-128 | with no edge left, a trail smaller than the upper bound becomes `OptVC`, the bound and a new trace point; otherwise nothing changes; the best-so-far invariant is kept and no cover smaller than the new bound is lost |
| `BranchAndBound.Expand` | src/code/BnB.py:130-140 | prune exactly when `Lowerbound(CurG) + VC_Size(CurVC) >= UpperBound`; otherwise push `(vj, 0)` then `(vj, 1)` for the vertex of largest degree, with the current decision as parent; either way no cover smaller than the bound is lost |
| `BranchAndBound.BacktrackToTop` | src/code/BnB.py:142-171 | with `p` the parent of the next entry (`Retreated`): `p` on the trail cuts the trail back to just after its first occurrence, in the same graph object, whose node list is the old one with the undone vertices appended (`PutBack`); otherwise the trail is empty and the graph a copy of `G`; the result is the trail that entry was pushed from |
| `BranchAndBound.BnB` | src/code/BnB.py:71-178 | fails exactly on a graph without nodes; with `T <= 0` it returns nothing; `OptVC` is empty exactly when `times` is; the returned trail is valid; the trace sizes strictly decrease and are below the number of nodes, and the last recorded trail's included vertices cover `G` and number the last size (`BestOK`); with ordered readings the trace times never decrease; it takes fewer than `Budget(G)` iterations; given `Ample` readings, and also whenever the loop stopped with readings and time left, no cover of `G` has fewer vertices than the last recorded size, or than the number of nodes when nothing was recorded |
| `BranchAndBound.Search` | src/code/BnB.py:101-176 | the `while` loop from the root entries: the results of `BnB`, with the iteration count `steps` below `Budget(G)`, each iteration started before the cutoff, trace times in order for ordered readings, and minimality given `Ample` readings or an exhausted frontier |
| `BranchAndBound.TimesGrow` | src/code/BnB.py:127 | appending a trace point stamped with a reading no earlier than the previous ones keeps the trace times non-decreasing |
| `BranchAndBound.PruneSound` | src/code/BnB.py:130-140 | any cover containing the trail's included vertices has at least `VC_Size(CurVC) + Lowerbound(CurG)` vertices, so pruning discards no better cover |
| `BranchAndBound.ConsistentIncluded` | src/code/BnB.py:130-140 | a vertex set agreeing with every decision of a trail contains its included vertices, so it has at least `VC_Size` of them |
| `BranchAndBound.RootKeeps` | src/code/BnB.py:94-99 | every vertex set lies below one of the two root entries `(v, 0)` and `(v, 1)` |
| `BranchAndBound.ApplyConsistent` | src/code/BnB.py:107-119 | a cover agreeing with the trail and the popped decision agrees with the trail that decision produces: leaving `vi` out forces exactly neighbours the cover contains |
| `BranchAndBound.PopKeeps` | src/code/BnB.py:103-119 | after the pop, every cover smaller than the bound lies below a remaining entry or agrees with the new trail |
| `BranchAndBound.LeafKeeps` | src/code/BnB.py:121-128 | at a leaf, a cover agreeing with the trail is no smaller than the trail's size, so none smaller than the new bound is lost |
| `BranchAndBound.PruneKeeps` | src/code/BnB.py:138-140 | at a prune, no cover agreeing with the trail is smaller than the upper bound (`PruneSound`), so none is lost |
| `BranchAndBound.ExpandKeeps` | src/code/BnB.py:133-137 | at an expansion, a cover agreeing with the trail lies below `(vj, 1)` when it contains `vj` and below `(vj, 0)` otherwise |
| `BranchAndBound.MirrorsDetermined` | src/code/BnB.py:166-169 | the working graph's node and edge sets are determined by the trail, so the copy of `G` at the root and the result of undoing agree as sets (the order of the nodes is not restored) |
| `Solution.RemoveFirst` | src/code/BnB.py:235 | `list.remove`: the list with the first occurrence of the element cut out |
| `Solution.RemoveExcluded` | src/code/BnB.py:233-235 | the loop computes the filter as Python runs it, removing while iterating |
| `Solution.DropExcludedMembers` | src/code/BnB.py:232-235 | the intended filter keeps exactly the entries whose state is not 0 |
| `Solution.DropAppend` | src/code/BnB.py:232-235 | the intended filter distributes over concatenation |
| `Solution.FilterSkipsAdjacentExclusions` | src/code/BnB.py:233-235 | on `[(1,0), (2,0)]` the loop as written leaves `[(2,0)]`, while the intended result is `[]` |
| `Solution.FilterAgrees` | src/code/BnB.py:233-235 | on a trail of distinct vertices with no two adjacent state-0 entries, the loop as written equals the intended filter |
| `Solution.DropCounts` | src/code/BnB.py:232-243 | after filtering, the written vertices are exactly the included ones and their count is the number of included vertices |
| `Solution.CreatedNodesIffEdges` | src/code/BnB.py:59-68 | a graph made by `create_graph` has a node exactly when it has an edge |
| `Solution.Solve` | src/code/BnB.py:225-235 | fails exactly on an adjacency list with no edge; every written entry has state 1; with a trace, the written vertices cover the graph and their number is the last trace size; trace times never decrease for ordered readings; fewer than `Budget` iterations; given `Ample` readings, or after an exhausted search, no cover is smaller than the last trace size (or the number of nodes) |
| `Solution.SearchAndFilter` | src/code/BnB.py:230-235 | on a loop-free graph with nodes exactly when it has edges: the search then the filter, with the guarantees of `Solve`, minimality given `Ample` readings or after an exhausted search included, stated for that graph |
| `Solution.FilteredTrail` | src/code/BnB.py:232-235 | the filtered trail of a search result holds only state-1 entries, is empty exactly when the trace is, and its vertices cover the graph in the number of the last trace size |
| `Queens.EvaluateFitness` | src/code/Approx.py:105-161 | the five counting scans return the sum of five terms: for each row and each diagonal checked, its queen count when that count exceeds 1 |
| `Queens.CalculateFitness` | src/code/Approx.py:164-165 | `calcular_fitness` returns the same value as `evaluar_aptitud` |
| `Queens.HitsAtMost` | src/code/Approx.py:125-156 | a line holds no more queens than it has columns |
| `Queens.TermNeverOne` | src/code/Approx.py:119-156 | each counter is 0 or at least 2, since a count is added only when it exceeds 1 |
| `Queens.FitnessNeverOne` | src/code/Approx.py:159-161 | no individual has fitness 1 |
| `Queens.TermZero` | src/code/Approx.py:119-156 | a counter is 0 if and only if every line it scans holds at most one queen |
| `Queens.ShortScoresZero` | src/code/Approx.py:119-156 | an individual of length 0 or 1 has fitness 0 |
| `Queens.RowTermIgnoresOutOfRange` | src/code/Approx.py:119-123 | the row counter ignores values outside `0..n-1`: boards that differ only there have the same row counter |
| `Queens.OneHit` | src/code/Approx.py:127-129 | a line's count is positive if and only if some column on it has its queen there |
| `Queens.TwoHits` | src/code/Approx.py:127-131 | a line's count is at least 2 if and only if two distinct columns on it have their queen there |
| `Queens.LineAtMostOne` | src/code/Approx.py:125-156 | on a threat-free board every line holds at most one queen |
| `Queens.ThreatLine` | src/code/Approx.py:119-156 | two threatening queens on the board share a row or diagonal that one of the scans counts |
| `Queens.FitnessZeroIffNoThreats` | src/code/Approx.py:105-161 | a threat-free board has fitness 0, and a board whose queens all stand on it has fitness 0 only if no two queens share a row, anti-diagonal or diagonal |
| `Selection.LexTotal` | src/code/Approx.py:177 | Python's list comparison is total |
| `Selection.LexAntisymmetric` | src/code/Approx.py:177 | Python's list comparison is antisymmetric |
| `Selection.LexTransitive` | src/code/Approx.py:177 | Python's list comparison is transitive |
| `Selection.KeyTotal` | src/code/Approx.py:174-177 | the (fitness, individual) order is total |
| `Selection.KeyAntisymmetric` | src/code/Approx.py:174-177 | the (fitness, individual) order is antisymmetric |
| `Selection.KeyTransitive` | src/code/Approx.py:174-177 | the (fitness, individual) order is transitive |
| `Selection.Insert` | src/code/Approx.py:177 | inserting into a sorted list gives a sorted list with one more copy of the element |
| `Selection.Sort` | src/code/Approx.py:177 | `sorted(evaluados)` returns a permutation of the population in non-decreasing (fitness, individual) order |
| `Selection.SortedUnique` | src/code/Approx.py:177 | two sorted permutations of one population are equal |
| `Selection.SelectionIsTheSortedOrder` | src/code/Approx.py:174-179 | any sorted permutation of the population is the population `seleccion_individuos` returns |
| `Selection.SelectIndividuals` | src/code/Approx.py:168-187 | the new population is a sorted permutation of the old; the selected ones are its prefix of Python-slice length `pressure` |
| `Selection.ParentsFittest` | src/code/Approx.py:181-182 | every selected parent has fitness at most that of every individual not selected |
| `Selection.BestOfFinalPopulation` | src/code/Approx.py:259-268 | `None` (Python fails) exactly when every individual has fitness above 10; otherwise, an individual of least fitness, at most 10, with every later individual strictly worse (the last one on ties) |

## Left out

- File parsing (`parse`, `crear_individuo`, `crear_poblacion`): the model takes the adjacency list as `seq<seq<int>>`. Also left out: writing the `.sol` and `.trace` files, `argparse`, every `print`, and `plotear_solucion`.
- The wall clock: `time.time()` readings are the input `clock`. The trace time of a new cover is taken from the same reading as that iteration's end-of-loop elapsed time, not from a separate reading.
- BranchAndBound.BnB: stops when the clock readings run out, as well as when the frontier empties or the cutoff is reached. The readings are a fuel bound. With enough readings the run follows the program's, up to the order of neighbours described below.
- BranchAndBound.BnB: promises a minimum cover only given `Ample` readings, or when the loop stopped because the frontier was exhausted. A run stopped by the cutoff or by the end of the readings promises only that every recorded cover is valid and strictly improving.
- BranchAndBound.BnB: promises that the trace times never decrease only for readings that are non-negative and non-decreasing (`ReadingsOrdered`). `time.time()` is the wall clock, which can be set back, so the program does not guarantee it either.
- BranchAndBound.BnB: requires a graph without self-loops. A row `i` that lists `i + 1` makes networkx create a self-loop, and the search then records a vertex as both included and excluded. That behaviour is not modelled. `Solution.Solve` carries the corresponding requirement on the adjacency list (`Graphs.CreateGraphLoopless` states the equivalence).
- Solution.SearchAndFilter: inherits the limits of `BnB`. It requires a loop-free graph, and it promises a minimum cover only given `Ample` readings or after an exhausted search. Its trace times are ordered only for ordered readings.
- Solution.Solve: inherits the same limits. It requires that no row `i` lists `i + 1`, and it promises a minimum cover only given `Ample` readings or after an exhausted search. Its trace times are ordered only for ordered readings.
- Neighbour order: `G.neighbors(v)` is modelled in node insertion order. networkx iterates a node's adjacency in the order its edges were inserted. The set of neighbours is the same, but the order differs. It changes:
  - the order of the trail, so of `OptVC` and of the written solution;
  - the order in which undoing re-appends vertices to `CurG`, so later `find_maxdeg` tie-breaks, the search path, the trace and the cover returned.
  The invariants and the minimality result do not depend on that order.
- The `'error in backtracking step'` branch is modelled as doing nothing, as the code does apart from printing. The loop invariant shows that the branch cannot be reached.
- Bounds.Lowerbound: the float division `number_of_edges() / maxdeg` is computed exactly in the model. `LowerboundIsCeil` relates it to `ceil` on that exact quotient; floating-point rounding is not modelled.
- The networkx library is modelled only through the operations used: `copy`, `degree`, `neighbors`, `remove_node`, `add_node`, `add_edge`, `number_of_nodes`, `number_of_edges`.
- `cruza`, `mutacion` and `algoritmo_genetico` draw random numbers and use float percentages, so they are not modelled. `main` of the genetic algorithm is a driver of them.
- Selection.SelectIndividuals: it returns values. Two things are not modelled:
  - the `numpy.copy` two-dimensional array and its read-only flag;
  - the aliasing between `nueva_poblacion` and the lists of the old population. It matters to `cruza`, to `mutacion`, which writes into an individual in place (`src/code/Approx.py:254`), and to the generation loop of `algoritmo_genetico`, which passes the population on (`src/code/Approx.py:273` and `279-280`). All three are left out, as said above.
- Queens.EvaluateFitness: `individuo.count(i)` is a library call, modelled by the function `Occurrences` rather than a loop.

## Findings

| source | as written | input that shows it | evidently intended | confidence | as-written member | corrected member |
|---|---|---|---|---|---|---|
| src/code/BnB.py:233-235 | removes state-0 entries from `Sol_VC` while iterating over it. The entry after a removed one slides into the visited slot and is skipped. | `Sol_VC = [(1, 0), (2, 0)]` leaves `[(2, 0)]` | every state-0 entry dropped (comment at line 232) | not executed; latent, because `BnB` never returns two adjacent state-0 entries (`Trails.ExclusionsSeparated` is part of the proved trail invariant), so `FilterAgrees` shows both versions agree on every trail `BnB` returns | `Solution.FilterAsWritten`, `Solution.FilterSkipsAdjacentExclusions` | `Solution.DropExcluded`, `Solution.FilterAgrees` |
