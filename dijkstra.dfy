/** The kernel of dijkstra.cpp: the lazy-deletion Dijkstra search over a CSR
    graph that writes one row of the output buffers in place
    (single_source_dijkstra), and the batch driver that sizes and fills the
    buffers and runs one search per source into its own row
    (multi_source_dijkstra). */
module Dijkstra {
  import opened Distance
  import opened Graph
  import opened MinHeap
  import opened ShortestPaths
  import opened SearchState

  /** The |D| entries of the buffer s starting at `base` hold D. */
  ghost predicate RowIs<T>(s: seq<T>, base: nat, D: seq<T>)
  {
    base + |D| <= |s| && forall v {:trigger D[v]} :: 0 <= v < |D| ==> s[base + v] == D[v]
  }

  /** Writing x at position v of the row writes x at base + v of the buffer. */
  lemma RowUpdate<T>(s: seq<T>, base: nat, D: seq<T>, v: int, x: T)
    requires RowIs(s, base, D) && 0 <= v < |D|
    ensures RowIs(s[base + v := x], base, D[v := x])
  {
    var s', D' := s[base + v := x], D[v := x];
    forall w | 0 <= w < |D|
      ensures s'[base + w] == D'[w]
    {
      if w != v {
        assert s[base + w] == D[w];
      }
    }
  }

  lemma RowSlice<T>(s: seq<T>, base: nat, D: seq<T>)
    requires RowIs(s, base, D)
    ensures s[base..base + |D|] == D
  {
    forall v | 0 <= v < |D|
      ensures s[base..base + |D|][v] == D[v]
    {
      assert s[base + v] == D[v];
    }
  }

  /** The vertices not yet expanded: shrinks with every expansion. */
  ghost function Unexpanded(n: int, S: set<int>): set<int>
  {
    set x | 0 <= x < n && x !in S
  }

  lemma UnexpandedShrinks(n: int, S: set<int>, u: int)
    requires 0 <= u < n && u !in S
    ensures Unexpanded(n, S + {u}) < Unexpanded(n, S)
  {
    assert u in Unexpanded(n, S);
  }

  /** single_source_dijkstra: searches from `source` and writes the row of
      `dist` and `pred` that starts at `base` (dist_row = distances_ptr +
      base). The row must hold INF and the sentinel on entry. Afterwards the
      distance row is the shortest-walk distance from source for every vertex
      within the cutoff and INF beyond it, the predecessor row is a tree of
      tight edges leading back to the source, and nothing outside the row has
      changed. */
  method SingleSourceDijkstra(g: CSRGraph, source: int, dist: array<Dist>, pred: array<int>,
                              base: nat, cutoff: Dist)
    returns (ghost rank: seq<nat>)
    requires g.Valid() && 0 <= source < g.n
    requires base + g.n <= dist.Length && base + g.n <= pred.Length
    requires forall i :: base <= i < base + g.n ==> dist[i] == Inf && pred[i] == Sentinel
    modifies dist, pred
    ensures forall i :: 0 <= i < dist.Length && !(base <= i < base + g.n) ==> dist[i] == old(dist[i])
    ensures forall i :: 0 <= i < pred.Length && !(base <= i < base + g.n) ==> pred[i] == old(pred[i])
    ensures ShortestWithin(g, source, cutoff, dist[base..base + g.n])
    ensures PredTree(g, source, dist[base..base + g.n], pred[base..base + g.n], rank)
  {
    var heap;
    ghost var st;
    heap, st := StartSearch(g, source, cutoff, dist, pred, base);
    st := Search(g, source, cutoff, dist, pred, base, heap, st);
    RowsShortest(g, source, cutoff, dist[..], pred[..], base, st.D, st.P, st.rank);
    rank := st.rank;
  }

  /** `dist[source] = 0.0; heap.emplace(0.0, source);` (dijkstra.cpp:32-33)
      on a row that holds INF and the sentinel: the search starts from the
      state where only the source is labelled and waiting. */
  method StartSearch(g: CSRGraph, source: int, cutoff: Dist, dist: array<Dist>, pred: array<int>, base: nat)
    returns (heap: seq<Item>, ghost st: State)
    requires g.Valid() && 0 <= source < g.n
    requires base + g.n <= dist.Length && base + g.n <= pred.Length
    requires forall i :: base <= i < base + g.n ==> dist[i] == Inf && pred[i] == Sentinel
    modifies dist
    ensures heap == [(0, source)] && st.S == {} && st.clock == 0
    ensures Inv(g, source, cutoff, st)
    ensures RowIs(dist[..], base, st.D) && RowIs(pred[..], base, st.P) && multiset(heap) == st.H
    ensures forall i :: 0 <= i < dist.Length && i != base + source ==> dist[i] == old(dist[i])
  {
    st := State(seq(g.n, _ => Inf), seq(g.n, _ => Sentinel), seq(g.n, _ => 0),
                multiset{(0, source)}, {}, seq(g.n, _ => 0), 0, 0);
    InitStep(g, source, cutoff, st.D, st.P, st.E, st.rank);
    assert RowIs(dist[..], base, st.D) && RowIs(pred[..], base, st.P);
    RowUpdate(dist[..], base, st.D, source, Fin(0));
    dist[base + source] := Fin(0);
    st := st.(D := st.D[source := Fin(0)]);
    heap := [(0, source)];
  }

  /** The rows of the buffers that hold a certificate meet the specification. */
  lemma RowsShortest(g: CSRGraph, source: int, cutoff: Dist, dist: seq<Dist>, pred: seq<int>, base: nat,
                     D: seq<Dist>, P: seq<int>, rank: seq<nat>)
    requires Certificate(g, source, cutoff, D, P, rank)
    requires RowIs(dist, base, D) && RowIs(pred, base, P)
    ensures ShortestWithin(g, source, cutoff, dist[base..base + g.n])
    ensures PredTree(g, source, dist[base..base + g.n], pred[base..base + g.n], rank)
  {
    RowSlice(dist, base, D);
    RowSlice(pred, base, P);
    CertificateShortest(g, source, cutoff, D, P, rank);
  }

  /** The `while (!heap.empty())` loop of single_source_dijkstra
      (dijkstra.cpp:35-52), one pass per call of SearchStep. It ends with a
      certificate for the row. */
  method Search(g: CSRGraph, source: int, cutoff: Dist, dist: array<Dist>, pred: array<int>, base: nat,
                heap0: seq<Item>, ghost st0: State)
    returns (ghost st: State)
    requires Inv(g, source, cutoff, st0)
    requires RowIs(dist[..], base, st0.D) && RowIs(pred[..], base, st0.P) && multiset(heap0) == st0.H
    modifies dist, pred
    ensures Certificate(g, source, cutoff, st.D, st.P, st.rank)
    ensures RowIs(dist[..], base, st.D) && RowIs(pred[..], base, st.P)
    ensures forall i :: 0 <= i < dist.Length && !(base <= i < base + g.n) ==> dist[i] == old(dist[i])
    ensures forall i :: 0 <= i < pred.Length && !(base <= i < base + g.n) ==> pred[i] == old(pred[i])
  {
    var heap := heap0;
    st := st0;
    var stop := false;
    while |heap| > 0
      invariant Inv(g, source, cutoff, st)
      invariant RowIs(dist[..], base, st.D) && RowIs(pred[..], base, st.P) && multiset(heap) == st.H
      invariant forall i :: 0 <= i < dist.Length && !(base <= i < base + g.n) ==> dist[i] == old(dist[i])
      invariant forall i :: 0 <= i < pred.Length && !(base <= i < base + g.n) ==> pred[i] == old(pred[i])
      decreases Unexpanded(g.n, st.S), |heap|
    {
      var top;
      heap, st, stop, top := SearchStep(g, source, cutoff, dist, pred, base, heap, st);
      if stop {
        return;
      }
    }
    ExhaustedStep(g, source, cutoff, st);
  }

  /** One pass of the `while (!heap.empty())` loop (dijkstra.cpp:36-51):
      pops the least entry `top`. When it is stale (`d > dist[u]`) nothing is
      written, only that entry leaves the heap and the search goes on. When
      it is current but beyond the cutoff the search stops with the row
      final. Otherwise the popped vertex u is expanded and joins the expanded
      ones; the row changes only at out-neighbours of u, which are lowered
      (LoweredVia). */
  method SearchStep(g: CSRGraph, source: int, cutoff: Dist, dist: array<Dist>, pred: array<int>, base: nat,
                    heap0: seq<Item>, ghost st0: State)
    returns (heap: seq<Item>, ghost st: State, stop: bool, top: Item)
    requires |heap0| > 0 && Inv(g, source, cutoff, st0)
    requires RowIs(dist[..], base, st0.D) && RowIs(pred[..], base, st0.P) && multiset(heap0) == st0.H
    modifies dist, pred
    ensures top in heap0 && (forall x :: x in heap0 ==> ItemLe(top, x)) && 0 <= top.1 < g.n
    ensures !AtMost(top.0, old(dist[base + top.1])) ==>
              !stop && dist[..] == old(dist[..]) && pred[..] == old(pred[..]) &&
              multiset(heap) == multiset(heap0) - multiset{top}
    ensures AtMost(top.0, old(dist[base + top.1])) && !AtMost(top.0, cutoff) ==> stop
    ensures AtMost(top.0, old(dist[base + top.1])) && AtMost(top.0, cutoff) ==>
              !stop && st.S == st0.S + {top.1} &&
              LoweredVia(g, top.1, top.0, g.indptr[top.1 + 1], old(dist[base..base + g.n]), old(pred[base..base + g.n]),
                         dist[base..base + g.n], pred[base..base + g.n])
    ensures stop ==> Certificate(g, source, cutoff, st.D, st.P, st.rank)
    ensures stop || st.S == st0.S ==> dist[..] == old(dist[..]) && pred[..] == old(pred[..])
    ensures !stop ==> Inv(g, source, cutoff, st) && multiset(heap) == st.H
    ensures !stop ==> Unexpanded(g.n, st.S) < Unexpanded(g.n, st0.S) || (st.S == st0.S && |heap| < |heap0|)
    ensures RowIs(dist[..], base, st.D) && RowIs(pred[..], base, st.P)
    ensures forall i :: 0 <= i < dist.Length && !(base <= i < base + g.n) ==> dist[i] == old(dist[i])
    ensures forall i :: 0 <= i < pred.Length && !(base <= i < base + g.n) ==> pred[i] == old(pred[i])
  {
    var rest;
    top, rest := PopMin(heap0);
    var d, u := top.0, top.1;
    heap, st, stop := rest, st0, false;
    assert top in st0.H && 0 <= u < g.n;
    assert st0.D[u] == dist[..][base + u];
    if !AtMost(d, dist[base + u]) {
      // stale entry: a shorter distance to u was found after it was pushed
      StaleStep(g, source, cutoff, st0, top);
      st := st0.(H := st0.H - multiset{top});
    } else if !AtMost(d, cutoff) {
      CutoffStep(g, source, cutoff, st0, top);
      stop := true;
    } else {
      heap, st := ExpandVertex(g, source, cutoff, dist, pred, base, rest, st0, top);
      UnexpandedShrinks(g.n, st0.S, u);
    }
  }

  /** LoweredVia on the ghost rows carries over to the array rows they are. */
  lemma LoweredRows(g: CSRGraph, u: int, d: int, hi: int, d0: seq<Dist>, p0: seq<int>, d1: seq<Dist>, p1: seq<int>,
                    base: nat, st0: State, st: State)
    requires LoweredVia(g, u, d, hi, st0.D, st0.P, st.D, st.P)
    requires RowIs(d0, base, st0.D) && RowIs(p0, base, st0.P) && RowIs(d1, base, st.D) && RowIs(p1, base, st.P)
    ensures base + g.n <= |d0| && base + g.n <= |p0| && base + g.n <= |d1| && base + g.n <= |p1|
    ensures LoweredVia(g, u, d, hi, d0[base..base + g.n], p0[base..base + g.n], d1[base..base + g.n], p1[base..base + g.n])
  {
    RowSlice(d0, base, st0.D);
    RowSlice(p0, base, st0.P);
    RowSlice(d1, base, st.D);
    RowSlice(p1, base, st.P);
  }

  /** The popped entry (d, u) is current and within the cutoff: u is expanded
      at distance d (dijkstra.cpp:42-50) and joins the expanded vertices.
      Only out-neighbours of u change, each lowered to d plus the weight of
      an edge from u and pointed at u. */
  method ExpandVertex(g: CSRGraph, source: int, cutoff: Dist, dist: array<Dist>, pred: array<int>, base: nat,
                      heap0: seq<Item>, ghost st0: State, top: Item)
    returns (heap: seq<Item>, ghost st: State)
    requires Inv(g, source, cutoff, st0) && top in st0.H
    requires forall x :: x in st0.H ==> ItemLe(top, x)
    requires AtMost(top.0, st0.D[top.1]) && AtMost(top.0, cutoff)
    requires RowIs(dist[..], base, st0.D) && RowIs(pred[..], base, st0.P)
    requires multiset(heap0) == st0.H - multiset{top}
    modifies dist, pred
    ensures Inv(g, source, cutoff, st) && st.S == st0.S + {top.1} && top.1 !in st0.S
    ensures 0 <= top.1 < g.n && LoweredVia(g, top.1, top.0, g.indptr[top.1 + 1], st0.D, st0.P, st.D, st.P)
    ensures base + g.n <= dist.Length && base + g.n <= pred.Length
    ensures LoweredVia(g, top.1, top.0, g.indptr[top.1 + 1], old(dist[base..base + g.n]), old(pred[base..base + g.n]),
                       dist[base..base + g.n], pred[base..base + g.n])
    ensures RowIs(dist[..], base, st.D) && RowIs(pred[..], base, st.P) && multiset(heap) == st.H
    ensures forall i :: 0 <= i < dist.Length && !(base <= i < base + g.n) ==> dist[i] == old(dist[i])
    ensures forall i :: 0 <= i < pred.Length && !(base <= i < base + g.n) ==> pred[i] == old(pred[i])
  {
    var d, u := top.0, top.1;
    ghost var d0, p0 := dist[..], pred[..];
    ExpandStep(g, source, cutoff, st0, top);
    st := st0.(H := st0.H - multiset{top}, last := d);
    heap, st := RelaxEdges(g, source, cutoff, dist, pred, base, heap0, st, u, d);
    SettleStep(g, source, cutoff, st, u);
    st := st.(S := st.S + {u}, rank := st.rank[u := st.clock], clock := st.clock + 1);
    LoweredRows(g, u, d, g.indptr[u + 1], d0, p0, dist[..], pred[..], base, st0, st);
  }

  /** The loop over u's out-edges (dijkstra.cpp:42-50), one edge at a time. */
  method RelaxEdges(g: CSRGraph, source: int, cutoff: Dist, dist: array<Dist>, pred: array<int>, base: nat,
                    heap0: seq<Item>, ghost st0: State, u: int, d: int)
    returns (heap: seq<Item>, ghost st: State)
    requires g.Valid() && 0 <= u < g.n
    requires Expanding(g, source, cutoff, st0, u, g.indptr[u]) && st0.last == d
    requires RowIs(dist[..], base, st0.D) && RowIs(pred[..], base, st0.P) && multiset(heap0) == st0.H
    modifies dist, pred
    ensures Expanding(g, source, cutoff, st, u, g.indptr[u + 1])
    ensures st.S == st0.S && st.rank == st0.rank && st.clock == st0.clock && st.last == d
    ensures LoweredVia(g, u, d, g.indptr[u + 1], st0.D, st0.P, st.D, st.P)
    ensures RowIs(dist[..], base, st.D) && RowIs(pred[..], base, st.P) && multiset(heap) == st.H
    ensures forall i :: 0 <= i < dist.Length && !(base <= i < base + g.n) ==> dist[i] == old(dist[i])
    ensures forall i :: 0 <= i < pred.Length && !(base <= i < base + g.n) ==> pred[i] == old(pred[i])
  {
    heap, st := heap0, st0;
    LoweredStart(g, u, d, st0.D, st0.P);
    for ei := g.indptr[u] to g.indptr[u + 1]
      invariant Expanding(g, source, cutoff, st, u, ei)
      invariant st.S == st0.S && st.rank == st0.rank && st.clock == st0.clock && st.last == d
      invariant LoweredVia(g, u, d, ei, st0.D, st0.P, st.D, st.P)
      invariant RowIs(dist[..], base, st.D) && RowIs(pred[..], base, st.P) && multiset(heap) == st.H
      invariant forall i :: 0 <= i < dist.Length && !(base <= i < base + g.n) ==> dist[i] == old(dist[i])
      invariant forall i :: 0 <= i < pred.Length && !(base <= i < base + g.n) ==> pred[i] == old(pred[i])
    {
      EdgeStep(g, source, cutoff, st, u, ei);
      LoweredStep(g, cutoff, st, u, ei, st0.D, st0.P);
      heap := RelaxEdge(g, cutoff, dist, pred, base, heap, st, u, d, ei);
      st := EdgeState(g, cutoff, st, u, ei);
    }
  }

  /** One pass of the edge loop (dijkstra.cpp:43-49): for the edge at ei from
      u to v with weight w, `if (nd < dist[v] && nd <= cutoff)` with
      nd = d + w lowers dist[v] to nd, points pred[v] at u and pushes (nd, v);
      otherwise nothing changes. The row and the heap's entries afterwards are
      those of EdgeState. */
  method RelaxEdge(g: CSRGraph, cutoff: Dist, dist: array<Dist>, pred: array<int>, base: nat,
                   heap0: seq<Item>, ghost st0: State, u: int, d: int, ei: int)
    returns (heap: seq<Item>)
    requires g.Valid() && g.IsEdge(u, ei) && st0.last == d
    requires |st0.D| == g.n && |st0.P| == g.n && |st0.E| == g.n
    requires RowIs(dist[..], base, st0.D) && RowIs(pred[..], base, st0.P) && multiset(heap0) == st0.H
    modifies dist, pred
    ensures RowIs(dist[..], base, EdgeState(g, cutoff, st0, u, ei).D)
    ensures RowIs(pred[..], base, EdgeState(g, cutoff, st0, u, ei).P)
    ensures multiset(heap) == EdgeState(g, cutoff, st0, u, ei).H
    ensures forall i :: 0 <= i < dist.Length && !(base <= i < base + g.n) ==> dist[i] == old(dist[i])
    ensures forall i :: 0 <= i < pred.Length && !(base <= i < base + g.n) ==> pred[i] == old(pred[i])
  {
    heap := heap0;
    var v := g.indices[ei];
    var nd := d + g.weights[ei];
    assert st0.D[v] == dist[..][base + v];
    if Below(nd, dist[base + v]) && AtMost(nd, cutoff) {
      RowUpdate(dist[..], base, st0.D, v, Fin(nd));
      RowUpdate(pred[..], base, st0.P, v, u);
      dist[base + v] := Fin(nd);
      pred[base + v] := u;
      heap := heap + [(nd, v)];
    }
  }

  /** Row `base` .. base+n-1 of the buffers is the finished result of a
      search from s: shortest distances within the cutoff, and a ranked tree
      of tight predecessor edges. */
  ghost predicate RowDone(g: CSRGraph, s: int, cutoff: Dist, dist: seq<Dist>, pred: seq<int>, base: int, rank: seq<nat>)
  {
    g.Valid() && 0 <= base && base + g.n <= |dist| && base + g.n <= |pred| &&
    ShortestWithin(g, s, cutoff, dist[base..base + g.n]) &&
    PredTree(g, s, dist[base..base + g.n], pred[base..base + g.n], rank)
  }

  /** Row j of a k-row buffer of width n ends where row j+1 starts, within
      the buffer. */
  lemma {:induction false} RowFits(j: nat, k: nat, n: nat)
    requires j < k
    ensures j * n + n <= k * n
    decreases k - j
  {
    assert (j + 1) * n == j * n + n;
    if j + 1 < k {
      RowFits(j + 1, k, n);
    }
  }

  /** A finished row stays finished while nothing inside it is written. */
  lemma RowKept(g: CSRGraph, s: int, cutoff: Dist, d1: seq<Dist>, p1: seq<int>, d2: seq<Dist>, p2: seq<int>,
                base: int, rank: seq<nat>)
    requires RowDone(g, s, cutoff, d1, p1, base, rank)
    requires |d2| == |d1| && |p2| == |p1|
    requires forall i :: base <= i < base + g.n ==> d2[i] == d1[i] && p2[i] == p1[i]
    ensures RowDone(g, s, cutoff, d2, p2, base, rank)
  {
    assert d2[base..base + g.n] == d1[base..base + g.n];
    assert p2[base..base + g.n] == p1[base..base + g.n];
  }

  /** The first k rows stay finished while nothing before row k is written. */
  lemma RowsKept(g: CSRGraph, sources: seq<int>, cutoff: Dist, d1: seq<Dist>, p1: seq<int>,
                 d2: seq<Dist>, p2: seq<int>, k: nat, ranks: seq<seq<nat>>)
    requires g.Valid() && k <= |sources| && k <= |ranks|
    requires forall j :: 0 <= j < k ==> RowDone(g, sources[j], cutoff, d1, p1, j * g.n, ranks[j])
    requires |d2| == |d1| && |p2| == |p1|
    requires forall i :: 0 <= i < k * g.n && i < |d1| && i < |p1| ==> d2[i] == d1[i] && p2[i] == p1[i]
    ensures forall j :: 0 <= j < k ==> RowDone(g, sources[j], cutoff, d2, p2, j * g.n, ranks[j])
  {
    forall j | 0 <= j < k
      ensures RowDone(g, sources[j], cutoff, d2, p2, j * g.n, ranks[j])
    {
      RowFits(j, k, g.n);
      RowKept(g, sources[j], cutoff, d1, p1, d2, p2, j * g.n, ranks[j]);
    }
  }

  /** The allocation and fill of the output buffers (dijkstra.cpp:83-90):
      `size` entries each, every distance INF and every predecessor -9999. */
  method InitBuffers(size: nat) returns (dist: array<Dist>, pred: array<int>)
    ensures fresh(dist) && fresh(pred) && dist.Length == size && pred.Length == size
    ensures forall i :: 0 <= i < size ==> dist[i] == Inf && pred[i] == Sentinel
  {
    dist := new Dist[size];
    pred := new int[size];
    for i := 0 to size
      invariant forall k :: 0 <= k < i ==> dist[k] == Inf && pred[k] == Sentinel
    {
      dist[i] := Inf;
      pred[i] := Sentinel;
    }
  }

  /** multi_source_dijkstra (dijkstra.cpp:57-108): builds the graph view
      with n = |indptr| - 1 vertices, fills a |sources| x n buffer pair and
      runs one search per source into row si, which starts at si * n. The
      rows are done one after another here; each search writes only its own
      row. Afterwards row si is the finished result of a search from
      sources[si]. */
  method MultiSourceDijkstra(indptr: seq<int>, indices: seq<int>, weights: seq<int>, sources: seq<int>, cutoff: Dist)
    returns (dist: array<Dist>, pred: array<int>, ghost ranks: seq<seq<nat>>)
    requires |indptr| >= 1 && CSRGraph(|indptr| - 1, indptr, indices, weights).Valid()
    requires forall si :: 0 <= si < |sources| ==> 0 <= sources[si] < |indptr| - 1
    ensures fresh(dist) && fresh(pred)
    ensures dist.Length == |sources| * (|indptr| - 1) && pred.Length == |sources| * (|indptr| - 1)
    ensures |ranks| == |sources|
    ensures forall si :: 0 <= si < |sources| ==>
              RowDone(CSRGraph(|indptr| - 1, indptr, indices, weights), sources[si], cutoff,
                      dist[..], pred[..], si * (|indptr| - 1), ranks[si])
  {
    var g := CSRGraph(|indptr| - 1, indptr, indices, weights);
    dist, pred := InitBuffers(|sources| * g.n);
    ranks := SearchRows(g, sources, cutoff, dist, pred);
  }

  /** The per-source loop (dijkstra.cpp:94-105) over buffers that hold INF and
      the sentinel: afterwards every row is finished. */
  method SearchRows(g: CSRGraph, sources: seq<int>, cutoff: Dist, dist: array<Dist>, pred: array<int>)
    returns (ghost ranks: seq<seq<nat>>)
    requires g.Valid() && forall si :: 0 <= si < |sources| ==> 0 <= sources[si] < g.n
    requires dist.Length == |sources| * g.n && pred.Length == |sources| * g.n
    requires forall i :: 0 <= i < |sources| * g.n ==> dist[i] == Inf && pred[i] == Sentinel
    modifies dist, pred
    ensures |ranks| == |sources|
    ensures forall si :: 0 <= si < |sources| ==> RowDone(g, sources[si], cutoff, dist[..], pred[..], si * g.n, ranks[si])
  {
    ranks := [];
    for si := 0 to |sources|
      invariant |ranks| == si
      invariant forall j :: 0 <= j < si ==> RowDone(g, sources[j], cutoff, dist[..], pred[..], j * g.n, ranks[j])
      invariant forall i :: 0 <= i < |sources| * g.n && si * g.n <= i ==> dist[i] == Inf && pred[i] == Sentinel
    {
      ranks := SearchRow(g, sources, cutoff, dist, pred, si, ranks);
    }
  }

  /** One pass of the per-source loop (dijkstra.cpp:95-105): the search from
      sources[si] fills row si and leaves the rows before it finished and
      the rows after it untouched. */
  method SearchRow(g: CSRGraph, sources: seq<int>, cutoff: Dist, dist: array<Dist>, pred: array<int>,
                   si: nat, ghost ranks0: seq<seq<nat>>)
    returns (ghost ranks: seq<seq<nat>>)
    requires g.Valid() && si < |sources| && 0 <= sources[si] < g.n && |ranks0| == si
    requires dist.Length == |sources| * g.n && pred.Length == |sources| * g.n
    requires forall j :: 0 <= j < si ==> RowDone(g, sources[j], cutoff, dist[..], pred[..], j * g.n, ranks0[j])
    requires forall i :: 0 <= i < |sources| * g.n && si * g.n <= i ==> dist[i] == Inf && pred[i] == Sentinel
    modifies dist, pred
    ensures |ranks| == si + 1
    ensures forall j :: 0 <= j < si + 1 ==> RowDone(g, sources[j], cutoff, dist[..], pred[..], j * g.n, ranks[j])
    ensures forall i :: 0 <= i < |sources| * g.n && (si + 1) * g.n <= i ==> dist[i] == Inf && pred[i] == Sentinel
  {
    RowFits(si, |sources|, g.n);
    ghost var d0, p0 := dist[..], pred[..];
    var rank := SingleSourceDijkstra(g, sources[si], dist, pred, si * g.n, cutoff);
    RowsKept(g, sources, cutoff, d0, p0, dist[..], pred[..], si, ranks0);
    ranks := ranks0 + [rank];
    assert (si + 1) * g.n == si * g.n + g.n;
  }

  /** The distance buffer is determined by the graph, the sources and the
      cutoff: whichever order the rows are filled in (the `omp parallel for`
      schedule), every buffer whose rows are all finished is the same. */
  lemma BufferDetermined(g: CSRGraph, sources: seq<int>, cutoff: Dist, d1: seq<Dist>, p1: seq<int>,
                         r1: seq<seq<nat>>, d2: seq<Dist>, p2: seq<int>, r2: seq<seq<nat>>)
    requires g.Valid()
    requires |d1| == |sources| * g.n && |d2| == |sources| * g.n && |r1| == |sources| && |r2| == |sources|
    requires forall si :: 0 <= si < |sources| ==> RowDone(g, sources[si], cutoff, d1, p1, si * g.n, r1[si])
    requires forall si :: 0 <= si < |sources| ==> RowDone(g, sources[si], cutoff, d2, p2, si * g.n, r2[si])
    ensures d1 == d2
  {
    forall si | 0 <= si < |sources|
      ensures si * g.n + g.n <= |d1| && d1[si * g.n..si * g.n + g.n] == d2[si * g.n..si * g.n + g.n]
    {
      RowUnique(g, sources[si], cutoff, d1, p1, r1[si], d2, p2, r2[si], si * g.n);
    }
    EqualByRows(d1, d2, |sources|, g.n);
  }

  /** Two finished rows of a search from the same source hold the same
      distances. */
  lemma RowUnique(g: CSRGraph, s: int, cutoff: Dist, d1: seq<Dist>, p1: seq<int>, r1: seq<nat>,
                  d2: seq<Dist>, p2: seq<int>, r2: seq<nat>, base: int)
    requires RowDone(g, s, cutoff, d1, p1, base, r1) && RowDone(g, s, cutoff, d2, p2, base, r2)
    ensures base + g.n <= |d1| && d1[base..base + g.n] == d2[base..base + g.n]
  {
    ShortestUnique(g, s, cutoff, d1[base..base + g.n], d2[base..base + g.n]);
  }

  /** Two buffers of k rows of width n that agree row by row are equal. */
  lemma EqualByRows<T>(d1: seq<T>, d2: seq<T>, k: nat, n: nat)
    requires |d1| == k * n && |d2| == k * n
    requires forall si :: 0 <= si < k ==> si * n + n <= |d1| && d1[si * n..si * n + n] == d2[si * n..si * n + n]
    ensures d1 == d2
  {
    forall i | 0 <= i < |d1|
      ensures d1[i] == d2[i]
    {
      var si, v := RowOf(i, k, n);
      assert d1[i] == d1[si * n..si * n + n][v];
      assert d2[i] == d2[si * n..si * n + n][v];
    }
  }

  /** Position i of a k-row buffer of width n lies in row si at column v. */
  lemma RowOf(i: nat, k: nat, n: nat) returns (si: nat, v: nat)
    requires i < k * n
    ensures si < k && v < n && i == si * n + v
  {
    si, v := i / n, i % n;
    if k <= si {
      MulLe(k, si, n);
    }
  }

  lemma {:induction false} MulLe(a: nat, b: nat, n: nat)
    requires a <= b
    ensures a * n <= b * n
    decreases b - a
  {
    if a < b {
      assert (a + 1) * n == a * n + n;
      MulLe(a + 1, b, n);
    }
  }
}
