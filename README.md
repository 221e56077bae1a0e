# Graphs: an adjacency-matrix Dijkstra engine and an adjacency-list DFS engine

The repository holds two independent graph classes. Both have a fixed
capacity of 101 slots, use nodes 1..size, and keep slot 0 as a sentinel.

- **GraphM** is a weighted, directed graph.
  - It keeps a cost matrix `C`, where `INT_MAX` means "no edge".
  - It keeps a table `T` with one `{visited, dist, path}` cell per
    (source, destination) pair.
  - Every successful `insertEdge` or `removeEdge` writes one cell of `C`.
    It then reruns all-pairs Dijkstra (`findShortestPath`), which is made of
    `resetVisited`, `findMinVertex` and `setWeight`.
  - `displayPath` and `displayPathDescrip` rebuild a path by following
    `T[s][d].path` back toward the source.
- **GraphL** is an unweighted, directed graph.
  - Each node has a singly-linked edge list, with new entries at the front,
    and a visited flag.
  - `depthFirstSearch` starts `dfsHelper` at every unvisited node, in
    ascending order. `dfsHelper` walks the list head first.

## How the model is built

- **graph_common.dfy** (`GraphCommon`) holds the 32-bit `int` range, an
  `Option` type, the index set `Nodes(n)` = 1..n, and `BeforeZero`. `BeforeZero` is the prefix
  of input records that both buildGraph read loops consume.
- **dijkstra_table.dfy** (`DijkstraTable`) holds the meaning of one row of
  `T`.
  - `RowSolved` is the certificate Dijkstra leaves in a row. The source is
    at 0. A finite distance has a predecessor on whose edge the distance is
    attained. No edge can still be relaxed.
  - A ghost `rank`, the visit order, proves that predecessor chains end.
  - `Infinity` is `INT_MAX`.
  - `InProgress` is the invariant of the `numVisits` loop.
  - `Relax`, `Mark`, `DisplayPath` and `DisplayPathDescrip` are the
    per-step functions.
  - The lemmas derive shortest-path facts from `RowSolved`. Every walk
    costs at least `dist`, and the predecessor chain is a walk that costs
    exactly `dist`.
- **graphm.dfy** (`GraphMatrix`) holds the class `GraphM`.
  - `C` and `T` are `array2`s, and every loop of the modelled operations is
    a loop with invariants.
  - A ghost field `Rows` mirrors `T` row by row, so each row can be passed
    to the functions above as a value.
  - A ghost field `Rank` records the visit order of each run.
  - The class invariant includes `OutsideUnreached`: every cell of `T`
    outside 1..size x 1..size keeps dist INT_MAX and path 0, as makeEmpty
    left it. That region includes row 0 and column 0. No operation writes
    their dist or path (graphm.cpp:141, 163-171, 201). graphm.cpp:149
    sets only the visited flag of column 0.
- **graphl.dfy** (`GraphList`) holds the class `GraphL`.
  - The edge list of node `i` is `adj[i]: seq<int>`, head first, so
    `nextEdge` becomes taking the tail.
  - The visited flags are a `bool` array.
  - `dfsHelper` is a recursive method with a `while` loop over the list.
  - It is proved equal to the ghost function `Explore`, and the traversal
    order `DepthFirstOrder` is specified on values. The properties of DFS
    (exactly once, covers 1..size, preorder) are lemmas about those
    functions.

Whole reads become explicit input values. `buildGraph` receives the node
count and the list of edge records. Printing operations return what they
would print, as a sequence.

## Model

| member | source | states |
|---|---|---|
| DijkstraTable.Relax | graphm.cpp:203-210 | The cell changes only when it is unvisited, both the edge and dist(v) are finite, and the new route is strictly shorter. Then dist becomes dist(v)+C[v][w] and path becomes v. dist never rises and visited is untouched. |
| DijkstraTable.Mark | graphm.cpp:149 | Only node v's visited flag is set; every other cell and v's dist and path are unchanged. |
| DijkstraTable.DisplayPath | graphm.cpp:250-257 | A successful chain has at most `fuel` entries, all real node indices (never 0). |
| DijkstraTable.DisplayPathDescrip | graphm.cpp:262-271 | A successful description chain is non-empty, ends at the destination, and stays within the table. |
| DijkstraTable.StartInProgress | graphm.cpp:143-144 | After the reset, with only T[s][s].dist set to 0, the loop invariant holds with 0 rounds counted and no node visited. |
| DijkstraTable.StepPreserves | graphm.cpp:146-152 | One round of choosing v, marking it and relaxing over it moves the invariant from k to k+1 rounds counted. v gets rank k. In a round where v is the sentinel 0, no node of 1..size is marked, and the invariant holds because every unvisited node is unreachable. |
| DijkstraTable.FinishedIsSolved | graphm.cpp:146-153 | After size rounds the row is solved: its predecessors are consistent and no edge is relaxable. Every node of finite distance is visited. |
| DijkstraTable.WalkBoundsDistance | graphm.cpp:199-213 | In a solved row, every walk from s to d that costs less than INT_MAX costs at least dist(s, d). |
| DijkstraTable.PathChainIsWalk | graphm.cpp:250-257 | In a solved row, a reachable d has a chain that displayPath follows within rank(d) steps. That chain followed by d is a walk from s to d that costs exactly dist(s, d). |
| DijkstraTable.DescripMatchesPath | graphm.cpp:262-271 | In a solved row, the nodes displayPathDescrip describes are exactly displayPath's chain followed by d. |
| DijkstraTable.ShortestDistance | graphm.cpp:133-155 | dist(s, d) is the least weight of any walk from s to d. It is finite if and only if some walk costs less than INT_MAX, and then the reconstructed path attains it. |
| DijkstraTable.DistancesDetermined | graphm.cpp:133-155 | Two solved rows for the same source and matrix have equal distances. The distances depend only on C and size. |
| GraphCommon.BeforeZero | graphm.cpp:76 | The records consumed form the longest prefix without source 0. The next record, if any, has source 0. GraphL's loop at graphl.cpp:101 has the same condition and uses the same function. |
| GraphMatrix.InsertValid | graphm.cpp:97-98 | insertEdge's argument check: both ends in 1..size, distinct, and distance >= 0. |
| GraphMatrix.RemoveValid | graphm.cpp:116-117 | removeEdge's argument check: both ends in 1..size and distinct, with no weight test. |
| GraphMatrix.CostAfter | graphm.cpp:76-83 | After feeding records to insertEdge on an empty graph, a cell holds INT_MAX or the weight of some record for that pair. A finite cell joins two distinct nodes of 1..n. |
| GraphMatrix.CostAfterAppend | graphm.cpp:97-102 | One more record decides the cell when insertEdge accepts it for that pair. Otherwise the cell is what the earlier records left. |
| GraphMatrix.AnyInsertedAppend | graphm.cpp:97-100 | Some record of the longer list is accepted if and only if an earlier one or the new one is. |
| GraphMatrix.GraphM.constructor | graphm.cpp:11-14 | A new graph is empty: size 0, no edges, every table cell unset. |
| GraphMatrix.GraphM.MakeEmpty | graphm.cpp:20-35 | size is 0, every C cell is INT_MAX and every T cell is {false, INT_MAX, 0}, the sentinel slot 0 included. |
| GraphMatrix.GraphM.ResetVisited | graphm.cpp:161-172 | Every cell (i, j) of T with i and j in 1..size is unset; every other cell, row 0 and column 0 included, keeps its contents. |
| GraphMatrix.GraphM.FindMinVertex | graphm.cpp:177-193 | Returns 0 when every unvisited node is at INT_MAX. Otherwise it returns an unvisited, finite node of least distance, strictly closer than every unvisited node before it (the lowest index wins ties). |
| GraphMatrix.GraphM.SetWeight | graphm.cpp:199-213 | Row source becomes the row relaxed over v at every node 1..size; every other row is unchanged. |
| GraphMatrix.GraphM.MarkVisited | graphm.cpp:149 | Row source becomes Mark(row, v); every other row is unchanged. |
| GraphMatrix.GraphM.VisitNearest | graphm.cpp:146-152 | One numVisits round keeps the Dijkstra invariant with one more round counted, touching only row source. Row source's cells outside 1..size keep dist INT_MAX and path 0. |
| GraphMatrix.GraphM.FindShortestPathFrom | graphm.cpp:141-153 | From a reset row, the numVisits loop leaves row source solved and every other row unchanged. |
| GraphMatrix.GraphM.FindShortestPath | graphm.cpp:133-155 | Every row 1..size of T is solved for the current C. Every cell outside 1..size x 1..size keeps dist INT_MAX and path 0. |
| GraphMatrix.GraphM.InsertEdge | graphm.cpp:95-107 | Returns true if and only if both ends are in 1..size, they differ and distance >= 0. On true, only C[source][destination] changes, to distance, and T is re-solved. Cells of T outside 1..size x 1..size keep dist INT_MAX and path 0. On false, nothing changes. |
| GraphMatrix.GraphM.RemoveEdge | graphm.cpp:114-126 | The same checks without the weight. On true, only C[source][destination] becomes INT_MAX and T is re-solved. Cells of T outside 1..size x 1..size keep dist INT_MAX and path 0. On false, nothing changes. |
| GraphMatrix.GraphM.BuildGraph | graphm.cpp:52-88 | A count outside 1..100 changes nothing. Otherwise size is the count and C is exactly what insertEdge makes of the records before source 0. T is solved if any record was accepted, and unset if none was. Every other cell of T has dist INT_MAX and path 0. |
| GraphMatrix.GraphM.ReadRecords | graphm.cpp:76-83 | Starting from the empty n-node graph, the read loop leaves exactly the state insertEdge builds from the records before the first source 0. |
| GraphMatrix.GraphM.InsertRecord | graphm.cpp:76-83 | One turn of the read loop extends the built state by one more record. |
| GraphMatrix.GraphM.Display | graphm.cpp:219-245 | Reports a path exactly when T[source][destination].dist is finite, with that distance. |
| GraphMatrix.GraphM.DisplayOutside | graphm.cpp:219-245 | display on a pair outside 1..size x 1..size, row 0 and column 0 included, always takes the no-path branch. |
| GraphMatrix.GraphM.DisplayIsShortest | graphm.cpp:219-271 | In a solved table, display reports a path if and only if a walk cheaper than INT_MAX exists. The printed nodes followed by the destination form a least-weight walk of the reported distance, and the described nodes are that same walk. |
| GraphList.Accepted | graphl.cpp:120-121 | insertEdge's argument check: both ends in 1..size and distinct. |
| GraphList.ListAfter | graphl.cpp:101-108 | After feeding arcs to insertEdge, a non-empty list belongs to a node of 1..n, and its targets are nodes of 1..n other than the owner. |
| GraphList.ListIsReversedInsertions | graphl.cpp:128-131 | Each edge list is the reverse of the accepted destinations in insertion order, duplicates kept. |
| GraphList.Explore | graphl.cpp:202-218 | dfsHelper(v) emits v first and leaves v and everything visited before it visited. |
| GraphList.ExploreList | graphl.cpp:209-217 | The list loop never unmarks a node. |
| GraphList.Roots | graphl.cpp:176-182 | The root loop never unmarks a node. |
| GraphList.ExploreAccounts | graphl.cpp:202-218 | dfsHelper emits exactly the nodes it newly marks, all in 1..size. |
| GraphList.ExploreListAccounts | graphl.cpp:209-217 | The list loop emits exactly the nodes it newly marks, and every entry of the list ends marked. |
| GraphList.RootsAccounts | graphl.cpp:176-182 | The root loop emits exactly the nodes it newly marks, and every root from r on ends marked. |
| GraphList.ExploreDistinct | graphl.cpp:202-218 | dfsHelper emits no node twice. |
| GraphList.ExploreListDistinct | graphl.cpp:209-217 | The list loop emits no node twice. |
| GraphList.RootsDistinct | graphl.cpp:176-182 | The root loop emits no node twice. |
| GraphList.DepthFirstOrder | graphl.cpp:170-185 | The depth-first order holds every node of 1..size exactly once: distinct, covering 1..size, of length size. |
| GraphList.ExploreParents | graphl.cpp:207-216 | Every node dfsHelper(v) emits after v is a target in the list of a node emitted before it. |
| GraphList.ExploreListParents | graphl.cpp:209-216 | Every node the list loop emits is a list entry or is reached by an edge from an earlier emitted node. |
| GraphList.RootsParents | graphl.cpp:176-181 | Every node the root loop emits is reached by an edge from an earlier one, or is a root that no smaller unvisited index preceded. |
| GraphList.DepthFirstPreorder | graphl.cpp:176-216 | In the depth-first order, each node is reached by an edge from a node emitted earlier, or is a root emitted after every smaller index. |
| GraphList.ExploreClosed | graphl.cpp:209-217 | When dfsHelper returns, every target of every node it emitted is visited. |
| GraphList.NodeLines | graphl.cpp:154-158 | The lines for node i are one (i, t) per list entry, in list order. |
| GraphList.EdgeLines | graphl.cpp:147-161 | The edge lines of nodes 1..n, node by node in ascending order. Every line belongs to a node of 1..n. |
| GraphList.EdgeLinesAreEdges | graphl.cpp:147-161 | A line (i, t) is printed if and only if i is in 1..size and t is in i's edge list. |
| GraphList.GraphL.constructor | graphl.cpp:11-14 | A new graph has size 0 and every slot is empty and unvisited. |
| GraphList.GraphL.MakeEmpty | graphl.cpp:20-30 | size is 0 and all 101 slots have no edges and are unvisited. |
| GraphList.GraphL.DeleteAll | graphl.cpp:43-68 | size is 0. Nodes 1..old size have empty lists and are unvisited, and the slots outside 1..old size are untouched. |
| GraphList.GraphL.InsertEdge | graphl.cpp:118-136 | Returns true if and only if both ends are in 1..size and differ. On true, the source's list becomes [destination] + old list, duplicates allowed, and no other list changes. On false, no list changes. |
| GraphList.GraphL.BuildGraph | graphl.cpp:76-110 | A count outside 1..100 changes nothing. Otherwise size is the count, each list is what insertEdge makes of the arcs before source 0, and nothing is visited. |
| GraphList.GraphL.InsertArc | graphl.cpp:101-108 | One turn of the read loop extends the built state by one more arc. |
| GraphList.GraphL.ResetVisited | graphl.cpp:190-196 | Slots 1..100 are unvisited; slot 0 keeps its flag. |
| GraphList.GraphL.DfsHelper | graphl.cpp:202-218 | The emitted nodes and the new visited set are exactly Explore of the lists from the old visited set. |
| GraphList.GraphL.DepthFirstSearch | graphl.cpp:170-185 | Emits exactly DepthFirstOrder of the current lists, and afterwards every node of 1..size is visited. |
| GraphList.GraphL.DisplayGraph | graphl.cpp:141-164 | The edge lines, node by node in ascending order and each list head first. A line (i, t) appears if and only if t is in i's list. |

## Left out

- Input streams are not modelled: `ifstream` reading, `getline`, and the node
  descriptions (`NodeData::setData`). buildGraph receives the node count and
  the records as values. `nodedata.h` is not part of this model.
- Console output is not modelled: `cout` column widths, the "----" marker,
  `displayAll` and `displaySource`. display, displayPath, displayPathDescrip
  and displayGraph return what they would print, as values, and the node
  descriptions are left out.
- Heap allocation and deletion of `EdgeNode` and `NodeData` are not
  modelled. A `seq` cannot express freeing memory or leak-freedom.
- DeleteAll: deleting the node descriptions (`data`) is not modelled,
  because the descriptions are not part of the model.
- Integer overflow is not modelled, because the arithmetic uses unbounded
  integers. The C++ expression `T[s][v].dist + C[v][w]` overflows `int`
  once two finite weights add up past `INT_MAX`. Edge weights are
  `int32` values, and sums are exact in the model.
- The visited flag in column 0 of `T` is written as the C++ writes it.
  That column's dist and path stay INT_MAX and 0 (`OutsideUnreached`).
  When findMinVertex returns 0, MarkVisited sets `T[source][0].visited`
  (graphm.cpp:149), and ResetVisited never clears it (graphm.cpp:163-171).
  Mark's contract states the write, and ResetVisited's contract states
  that column 0 keeps its contents. No operation reads that flag.
- findMinVertex returns the sentinel 0 when no unvisited node has a finite
  distance (graphm.cpp:179-192). StepPreserves covers those rounds, which
  change no distance.
- DisplayPath and DisplayPathDescrip: the C++ recursion has no bound. In
  the model a `fuel` argument bounds it. The lemmas prove that in a solved
  table, fuel size is always enough.
- Display: requires source and destination to be in 0..100. The C++
  indexes `T` without a check.
- DistancesDetermined: states that repeated runs agree on every distance,
  but not on the predecessors. Which equal-length path is recorded depends
  on the order of relaxation, and the model states no tie-breaking rule for
  paths.
- Rows and Rank are ghost fields that mirror `T` and record the visit
  order. They have no counterpart in the C++.
- DepthFirstSearch and DfsHelper: the emitted order is returned as a value
  rather than printed.
