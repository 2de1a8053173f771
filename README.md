# CSR Dijkstra kernel, modelled in Dafny

This project models the shortest-path kernel in `dijkstra.cpp`. The kernel
runs a lazy-deletion Dijkstra search over a graph stored in compressed
sparse row (CSR) form. Vertex `u`'s out-edges sit at positions
`indptr[u] .. indptr[u+1]-1` of `indices` (the edge targets) and `weights`
(the edge lengths). The batch driver `multi_source_dijkstra` fills a
`num_sources x num_nodes` distance buffer with INF and a predecessor buffer
with `-9999`. It then runs one search per source, and each search writes
only its own row.

How the model represents the code:

- **Distances** are exact integers. INF is an explicit top value:
  `Distance.Dist = Fin(d) | Inf`. The cutoff is also a `Dist`, so the
  default cutoff of infinity is `Inf`. A negative cutoff is allowed; the
  source still gets distance 0 in that case.
- **The graph** is `Graph.CSRGraph(n, indptr, indices, weights)`.
  `Valid()` lists what the kernel silently relies on:
  - `|indptr| >= 1` and `n == |indptr| - 1`;
  - `indptr` is non-decreasing and bounded by `|indices|`;
  - `|indices| == |weights|`;
  - every target is in `[0, n)`;
  - every weight is `>= 0`.
- **The `std::priority_queue`** is a local sequence of `(distance, vertex)`
  pairs. `MinHeap.PopMin` removes the least pair in lexicographic order,
  the order `std::greater<std::pair<double,int>>` pops in.
- **Row pointers.** A row pointer `distances_ptr + si * num_nodes` becomes
  a whole-buffer `array` plus an offset `base`. `Dijkstra.SingleSourceDijkstra`
  writes only `base .. base + n - 1` of it.
- **The `omp parallel for`** is a sequential loop (`Dijkstra.SearchRows`).
  `Dijkstra.BufferDetermined` shows that the filled distance buffer does not
  depend on the order in which the rows are processed.

What a finished search promises is written once, in `ShortestPaths`:

- `ShortestWithin` says three things about `D`:
  - `D[source] == 0`;
  - every finite `D[v]` is the cost of a walk from the source, and lies
    within the cutoff;
  - no walk within the cutoff is cheaper than `D[v]`.

  So `D[v]` is the shortest distance when that distance is `<= cutoff`, and
  INF otherwise.
- `PredTree` says:
  - the source and exactly the INF vertices keep `-9999`;
  - every other `pred[v]` is a `u` with an edge `u -> v` such that
    `D[v] == D[u] + weight`;
  - following predecessors always ends.

The loop invariant of the search is a ghost `SearchState.State`. It holds
the distance and predecessor rows, the heap contents as a multiset, the set
of expanded vertices and their expansion order. One lemma covers each
event of the loop.

## Model

| member | source | states |
|---|---|---|
| MinHeap.PopMin | dijkstra.cpp:36-37 | the popped pair is in the heap and no pair in it is smaller in (distance, vertex) order; the rest is the heap minus exactly that pair |
| ShortestPaths.PredPath | dijkstra.cpp:47-48 | following predecessor links from a vertex at finite distance gives a walk from the source whose cost is exactly that distance |
| ShortestPaths.ClosedBound | dijkstra.cpp:42-50 | once every vertex within the cutoff has all its out-edges relaxed, no walk within the cutoff ends at a vertex whose distance exceeds the walk's cost |
| ShortestPaths.CertificateShortest | dijkstra.cpp:35-52 | a ranked predecessor tree with `dist[source] == 0`, finite distances within the cutoff and every vertex within the cutoff closed meets the shortest-distance specification |
| ShortestPaths.ShortestUnique | dijkstra.cpp:21-53 | any two distance rows meeting the specification for the same graph, source and cutoff are equal |
| ShortestPaths.CutoffMonotone | dijkstra.cpp:40-46 | a vertex found within cutoff `c1` has the same distance under any cutoff `c2 >= c1` |
| SearchState.InitStep | dijkstra.cpp:32-33 | a row of INF and `-9999`, with `dist[source] = 0` and the heap holding `(0, source)`, satisfies the loop invariant |
| SearchState.StaleStep | dijkstra.cpp:39 | dropping a popped entry with `d > dist[u]` keeps the invariant, with no change to the rows |
| SearchState.CutoffStep | dijkstra.cpp:40 | when the least entry has `d > cutoff`, the rows as they stand meet the final certificate, so the `break` loses nothing |
| SearchState.ExpandStep | dijkstra.cpp:36-40 | a least entry that is neither stale nor beyond the cutoff has `d == dist[u]`, and the edge-loop invariant holds for `u` before its first edge |
| SearchState.EdgeState | dijkstra.cpp:43-49 | after one edge, a vertex whose distance changed is the edge's target. Its new distance is `d + weights[ei]`, strictly below the old one and `<= cutoff`, and its predecessor is `u`. Every other vertex keeps both entries |
| SearchState.SkipStep | dijkstra.cpp:46 | an edge whose candidate is not strictly better, or is beyond the cutoff, changes nothing and keeps the edge-loop invariant |
| SearchState.RelaxStep | dijkstra.cpp:46-49 | writing `dist[v] = nd`, `pred[v] = u` and pushing `(nd, v)` keeps the edge-loop invariant, one edge on |
| SearchState.LoweredStep | dijkstra.cpp:42-49 | one more edge keeps the loop's effect on the row: distances only go down, and each changed vertex points at `u` at `d` plus the weight of one of the edges seen so far |
| SearchState.EdgeStep | dijkstra.cpp:43-50 | one pass of the edge loop, taken or not, keeps the edge-loop invariant, one edge on |
| SearchState.SettleStep | dijkstra.cpp:42-51 | after its last edge, `u` counts as expanded (it gets the next rank) and the loop invariant holds again |
| SearchState.ExhaustedStep | dijkstra.cpp:35 | when the heap is empty, the rows meet the final certificate |
| SearchState.Finish | dijkstra.cpp:35-52 | if the heap is empty, or every entry in it is beyond the cutoff, every vertex whose distance is within the cutoff has been expanded and the rows meet the final certificate |
| Dijkstra.SingleSourceDijkstra | dijkstra.cpp:21-53 | starting from a row of INF and `-9999`, the search writes only its own row. Afterwards the row holds the shortest distances within the cutoff (INF beyond), `dist[source] == 0`, and a predecessor tree of tight edges in which the source and the INF vertices keep `-9999` |
| Dijkstra.StartSearch | dijkstra.cpp:32-33 | writes only `dist[source]`; the heap is exactly `[(0, source)]`, no vertex is expanded yet, and the loop invariant holds |
| Dijkstra.Search | dijkstra.cpp:35-52 | the `while` loop ends, with the rows meeting the final certificate and nothing outside the row written |
| Dijkstra.SearchStep | dijkstra.cpp:36-51 | one pass pops the least (distance, vertex) entry `top`. If `top` is stale (`d > dist[u]`), the search goes on, nothing is written and the heap loses exactly `top`. If `top` is current but `d > cutoff`, the search stops with the rows meeting the certificate and nothing written. Otherwise the search goes on with `u` added to the expanded set and the invariant kept. In that case no row entry of `dist` went up, an entry whose distance is unchanged kept its `pred`, and a changed entry `v` has `pred[v] == u` and `dist[v] == d + weights[e]` for an out-edge `e` of `u` into `v` |
| Dijkstra.ExpandVertex | dijkstra.cpp:42-51 | the edge loop of a vertex popped at `d == dist[u]`: the invariant holds again with `u` added to the expanded set. Against the row before, no distance went up, unchanged distances kept their predecessor, and every changed `v` points at `u` with `dist[v] == d + weights[e]` for an edge `e` of `u` into `v` |
| Dijkstra.RelaxEdges | dijkstra.cpp:42-51 | after all edges of `u`, the edge-loop invariant holds at `indptr[u+1]`, and the expanded set, ranks and `d` are unchanged. Against the row before the loop, no distance went up, unchanged distances kept their predecessor, and every changed `v` points at `u` at `d + weights[e]` for one of `u`'s edges `e` into `v` |
| Dijkstra.RelaxEdge | dijkstra.cpp:43-50 | the array row, the predecessor row and the heap equal the ghost state after that one edge (`EdgeState`); nothing outside the row changes |
| Dijkstra.RowsShortest | dijkstra.cpp:35-52 | rows that meet the certificate, read out of the buffer at offset `base`, meet the shortest-distance and predecessor-tree specifications |
| Dijkstra.InitBuffers | dijkstra.cpp:83-90 | two fresh buffers of the given size; every distance entry is INF and every predecessor entry is `-9999` |
| Dijkstra.MultiSourceDijkstra | dijkstra.cpp:70-105 | both buffers have `|sources| * (|indptr| - 1)` entries, and row `si` (offset `si * num_nodes`) is a finished search from `sources[si]`: shortest distances within the cutoff and a predecessor tree |
| Dijkstra.SearchRows | dijkstra.cpp:94-105 | starting from buffers of INF and `-9999`, every row `si` ends as a finished search from `sources[si]` |
| Dijkstra.SearchRow | dijkstra.cpp:95-104 | the search for `sources[si]` finishes row `si`. The rows before it stay finished and the rows after it still hold INF and `-9999` |
| Dijkstra.RowsKept | dijkstra.cpp:95-104 | a finished row stays finished when later searches leave its entries unchanged |
| Dijkstra.BufferDetermined | dijkstra.cpp:94-105 | any two distance buffers whose rows are all finished searches for the same sources are equal, so the processing order of the rows does not matter |
| SampleGraph.NoCutoff | dijkstra.cpp:21-53 | on the graph 0->1 (4), 0->2 (1), 2->1 (2), a search from 0 with no cutoff must produce distances [0, 3, 1] and predecessors [-9999, 2, 0] |
| SampleGraph.CutoffTwo | dijkstra.cpp:40-46 | on the same graph with cutoff 2, vertex 1 (at distance 3) stays INF with predecessor -9999: the row is [0, INF, 1] / [-9999, -9999, 0] |
| SampleGraph.OnlyEdgesIn | dijkstra.cpp:47-48 | on the sample graph, the distances fix the predecessor row: 2 is reached only from 0, and 1 at distance 3 only from 2 |
| SampleGraph.ChainNoCutoff | dijkstra.cpp:21-53 | on the graph 0->1 (1), 0->2 (5), 1->2 (2), 2->3 (1), a search from 0 with no cutoff must produce distances [0, 1, 3, 4] and predecessors [-9999, 0, 1, 2] |
| SampleGraph.ChainCutoffTwo | dijkstra.cpp:40-46 | on the same graph with cutoff 2, the row is [0, 1, INF, INF] / [-9999, 0, -9999, -9999] |
| SampleGraph.ChainPreds | dijkstra.cpp:47-48 | on that graph the distances fix the predecessor row: 1 is entered only from 0, 2 at distance 3 only from 1, and 3 only from 2 |

## Left out

- Python bindings. The conversion between `py::array_t` and raw pointers
  (dijkstra.cpp:57-64, 76-86) is not modelled, and neither is the module
  registration (dijkstra.cpp:110-122). The driver takes sequences directly.
- OpenMP. `#pragma omp parallel for schedule(dynamic)` runs as a sequential
  loop. Concurrency is not modelled. Per-row frames and
  `Dijkstra.BufferDetermined` cover the disjoint-row and order-independence
  properties.
- Floating point. Distances and weights are exact integers and no rounding
  is modelled. NaN weights and NaN cutoffs are not representable. A cutoff
  of `-inf` is not modelled either; any negative finite cutoff behaves the
  same way. Edges of weight `+inf` are not representable either. In the C++
  such an edge is never relaxed, because `INF < dist[v]` is false
  (dijkstra.cpp:44-46); leaving the edge out of the graph has the same
  effect.
- Integer overflow. The C++ `int` products `si * num_nodes` and
  `num_sources * num_nodes` can overflow, and the model does not capture
  this: indices are unbounded.
- Input validation. The kernel checks nothing: the length check is
  commented out, and sources and targets are never range-checked. The
  assumptions are preconditions instead: `CSRGraph.Valid()` and sources in
  range. Negative weights are excluded, and the kernel's behaviour on them
  is not modelled.
- Dijkstra.SingleSourceDijkstra: requires its row to hold INF and `-9999`
  on entry. That is what the driver always supplies. On other row contents
  the C++ function computes something else, which the model does not
  describe.
- Dijkstra.SingleSourceDijkstra: the predecessor row is only specified as
  some tree of tight edges. When two shortest walks tie, which predecessor
  the heap order picks is not pinned down. Only the distance row is proved
  unique (`ShortestPaths.ShortestUnique`, `Dijkstra.BufferDetermined`).
- The heap's internal layout. The priority queue is a sequence with a
  linear-scan extract-min. Only which pair it pops is modelled.
- The search also returns a ghost `rank` per row: the order in which the
  vertices were expanded. It is proof output only and has no counterpart
  in the C++.
- boostpy.cpp is not part of this model (a wrapper around
  `boost::dijkstra_shortest_paths`, whose source is not visible). setup.py
  is not part of this model either (build configuration only).
