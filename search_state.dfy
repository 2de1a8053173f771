/** The loop invariant of single_source_dijkstra (dijkstra.cpp:35-52), kept
    over a ghost view of the search, and one lemma per event of the loop:
    the initial push, a stale pop, a pop that starts expanding a vertex, one
    edge relaxed or skipped, the end of an expansion, and the two ways the
    loop stops. Each part of the invariant reads only the fields it needs, so
    that every event is proved part by part. */
module SearchState {
  import opened Distance
  import opened Graph
  import opened MinHeap
  import opened ShortestPaths

  /** Ghost view of a search: the row's distances D and predecessors P, the
      edge E[v] through which P[v] last lowered D[v], the heap's entries H,
      the set S of vertices already expanded, the order (rank) in which they
      were expanded, how many were (clock), and the distance of the most
      recently expanded entry (last). */
  datatype State = State(D: seq<Dist>, P: seq<int>, E: seq<int>, H: multiset<Item>,
                         S: set<int>, rank: seq<nat>, clock: nat, last: int)

  ghost predicate Shape(g: CSRGraph, s: int, st: State)
  {
    g.Valid() && 0 <= s < g.n &&
    |st.D| == g.n && |st.P| == g.n && |st.E| == g.n && |st.rank| == g.n &&
    (forall x :: x in st.S ==> 0 <= x < g.n)
  }

  /** The source sits at 0 without predecessor; any other vertex has a
      predecessor exactly when it has a finite distance, and that distance
      is within the cutoff. */
  ghost predicate Labels(g: CSRGraph, s: int, cutoff: Dist, D: seq<Dist>, P: seq<int>, last: int)
    requires 0 <= s < g.n && |D| == g.n && |P| == g.n
  {
    D[s] == Fin(0) && P[s] == Sentinel && 0 <= last &&
    (forall v :: 0 <= v < g.n && v != s ==> (D[v].Inf? <==> P[v] == Sentinel)) &&
    (forall v :: 0 <= v < g.n && v != s && D[v].Fin? ==> AtMost(D[v].d, cutoff))
  }

  /** Every heap entry names a vertex whose distance is at most the entry's,
      is no smaller than the last expanded entry, and is stale when its
      vertex was already expanded. */
  ghost predicate Entries(g: CSRGraph, D: seq<Dist>, H: multiset<Item>, S: set<int>, last: int)
    requires |D| == g.n
  {
    forall it {:trigger H[it]} :: it in H ==>
      0 <= it.1 < g.n && D[it.1].Fin? && D[it.1].d <= it.0 && last <= it.0 &&
      (it.1 in S ==> D[it.1].d < it.0)
  }

  /** A vertex's current distance is in the heap at most once. */
  ghost predicate Unique(g: CSRGraph, D: seq<Dist>, H: multiset<Item>)
    requires |D| == g.n
  {
    forall v :: 0 <= v < g.n && D[v].Fin? ==> H[(D[v].d, v)] <= 1
  }

  /** Expanded vertices are final: at most `last`, within the cutoff, ranked
      before `clock`, with all their edges relaxed. */
  ghost predicate SettledOk(g: CSRGraph, cutoff: Dist, D: seq<Dist>, S: set<int>, rank: seq<nat>, clock: nat, last: int)
    requires g.Valid() && |D| == g.n && |rank| == g.n
  {
    forall u :: 0 <= u < g.n && u in S ==>
      D[u].Fin? && D[u].d <= last && AtMost(D[u].d, cutoff) &&
      rank[u] < clock && Closed(g, cutoff, D, u)
  }

  /** Every vertex with a finite distance that is not expanded (nor in
      `skip`) has that distance waiting in the heap. */
  ghost predicate Pending(g: CSRGraph, D: seq<Dist>, H: multiset<Item>, S: set<int>, skip: set<int>)
    requires |D| == g.n
  {
    forall v :: 0 <= v < g.n && D[v].Fin? && v !in S && v !in skip ==> (D[v].d, v) in H
  }

  /** Every predecessor link follows a tight edge recorded in E, from an
      expanded vertex (or from the one in `open`, to another vertex not yet
      expanded), and links between expanded vertices go down in rank. */
  ghost predicate PredsOk(g: CSRGraph, D: seq<Dist>, P: seq<int>, E: seq<int>, S: set<int>, rank: seq<nat>, open: set<int>)
    requires |D| == g.n && |P| == g.n && |E| == g.n && |rank| == g.n
  {
    forall v {:trigger E[v]} :: 0 <= v < g.n && P[v] != Sentinel ==>
      0 <= P[v] < g.n && g.IsEdge(P[v], E[v]) && g.indices[E[v]] == v &&
      D[P[v]].Fin? && D[v] == Fin(D[P[v]].d + g.weights[E[v]]) &&
      (P[v] in S || (P[v] in open && v !in S && v !in open)) &&
      (v in S ==> P[v] in S && rank[P[v]] < rank[v])
  }

  /** Every entry for u still in the heap lies strictly above `last`. */
  ghost predicate Above(H: multiset<Item>, u: int, last: int)
  {
    forall it {:trigger H[it]} :: it in H && it.1 == u ==> last < it.0
  }

  /** Invariant of the outer `while (!heap.empty())` loop. */
  ghost predicate Inv(g: CSRGraph, s: int, cutoff: Dist, st: State)
  {
    match st
    case State(D, P, E, H, S, rank, clock, last) =>
      Shape(g, s, st) && Labels(g, s, cutoff, D, P, last) &&
      Entries(g, D, H, S, last) && Unique(g, D, H) &&
      SettledOk(g, cutoff, D, S, rank, clock, last) &&
      Pending(g, D, H, S, {}) && PredsOk(g, D, P, E, S, rank, {})
  }

  /** Invariant of the edge loop while u is being expanded at distance
      `last`, the edges before position hi done. */
  ghost predicate Expanding(g: CSRGraph, s: int, cutoff: Dist, st: State, u: int, hi: int)
  {
    match st
    case State(D, P, E, H, S, rank, clock, last) =>
      Shape(g, s, st) && Labels(g, s, cutoff, D, P, last) &&
      Entries(g, D, H, S, last) && Unique(g, D, H) &&
      SettledOk(g, cutoff, D, S, rank, clock, last) &&
      Pending(g, D, H, S, {u}) && PredsOk(g, D, P, E, S, rank, {u}) &&
      0 <= u < g.n && u !in S && D[u] == Fin(last) && AtMost(last, cutoff) &&
      Above(H, u, last) &&
      g.indptr[u] <= hi <= g.indptr[u + 1] && ClosedUpTo(g, cutoff, D, u, hi)
  }

  // ----- parts of the invariant under the changes the loop makes -----

  lemma EntriesRemove(g: CSRGraph, D: seq<Dist>, H: multiset<Item>, S: set<int>, last: int, it: Item)
    requires |D| == g.n && Entries(g, D, H, S, last) && Unique(g, D, H)
    ensures Entries(g, D, H - multiset{it}, S, last) && Unique(g, D, H - multiset{it})
  {
    forall x | x in H - multiset{it}
      ensures x in H
    {
    }
  }

  lemma PendingStale(g: CSRGraph, D: seq<Dist>, H: multiset<Item>, S: set<int>, it: Item)
    requires |D| == g.n && Pending(g, D, H, S, {})
    requires 0 <= it.1 < g.n && !AtMost(it.0, D[it.1])
    ensures Pending(g, D, H - multiset{it}, S, {})
  {
    forall v | 0 <= v < g.n && D[v].Fin? && v !in S
      ensures (D[v].d, v) in H - multiset{it}
    {
      assert (D[v].d, v) in H;
      assert (D[v].d, v) != it;
    }
  }

  lemma PendingPop(g: CSRGraph, D: seq<Dist>, H: multiset<Item>, S: set<int>, it: Item)
    requires |D| == g.n && Pending(g, D, H, S, {})
    ensures Pending(g, D, H - multiset{it}, S, {it.1})
  {
    forall v | 0 <= v < g.n && D[v].Fin? && v !in S && v != it.1
      ensures (D[v].d, v) in H - multiset{it}
    {
      assert (D[v].d, v) in H;
      assert (D[v].d, v) != it;
    }
  }

  lemma EntriesPop(g: CSRGraph, D: seq<Dist>, H: multiset<Item>, S: set<int>, last: int, it: Item)
    requires |D| == g.n && Entries(g, D, H, S, last) && Unique(g, D, H) && it in H
    requires forall x :: x in H ==> ItemLe(it, x)
    requires D[it.1] == Fin(it.0)
    ensures Entries(g, D, H - multiset{it}, S, it.0)
    ensures Above(H - multiset{it}, it.1, it.0)
  {
    forall x | x in H - multiset{it}
      ensures x in H && it.0 <= x.0
    {
    }
    assert H[it] <= 1;
  }

  lemma SettledRaise(g: CSRGraph, cutoff: Dist, D: seq<Dist>, S: set<int>, rank: seq<nat>, clock: nat, last: int, last': int)
    requires g.Valid() && |D| == g.n && |rank| == g.n && last <= last'
    requires SettledOk(g, cutoff, D, S, rank, clock, last)
    ensures SettledOk(g, cutoff, D, S, rank, clock, last')
  {
  }

  lemma PredsOpen(g: CSRGraph, D: seq<Dist>, P: seq<int>, E: seq<int>, S: set<int>, rank: seq<nat>, u: int)
    requires |D| == g.n && |P| == g.n && |E| == g.n && |rank| == g.n
    requires PredsOk(g, D, P, E, S, rank, {})
    ensures PredsOk(g, D, P, E, S, rank, {u})
  {
    forall v | 0 <= v < g.n && P[v] != Sentinel
      ensures 0 <= P[v] < g.n && g.IsEdge(P[v], E[v]) && g.indices[E[v]] == v &&
              D[P[v]].Fin? && D[v] == Fin(D[P[v]].d + g.weights[E[v]]) &&
              (P[v] in S || (P[v] in {u} && v !in S && v !in {u})) &&
              (v in S ==> P[v] in S && rank[P[v]] < rank[v])
    {
      assert g.IsEdge(P[v], E[v]);
    }
  }

  /** Lowering distances other than D[u] keeps u's relaxed edges relaxed. */
  lemma ClosedLower(g: CSRGraph, cutoff: Dist, D: seq<Dist>, D': seq<Dist>, u: int, hi: int)
    requires g.Valid() && |D| == g.n && |D'| == g.n && 0 <= u < g.n && D[u].Fin? && hi <= g.indptr[u + 1]
    requires D'[u] == D[u] && forall y :: 0 <= y < g.n ==> Le(D'[y], D[y])
    requires ClosedUpTo(g, cutoff, D, u, hi)
    ensures ClosedUpTo(g, cutoff, D', u, hi)
  {
    forall ei | g.indptr[u] <= ei < hi
      ensures EdgeRelaxed(g, cutoff, D', u, ei)
    {
      assert EdgeRelaxed(g, cutoff, D, u, ei);
    }
  }

  lemma SettledLower(g: CSRGraph, cutoff: Dist, D: seq<Dist>, S: set<int>, rank: seq<nat>, clock: nat, last: int, v: int, nd: int)
    requires g.Valid() && |D| == g.n && |rank| == g.n && 0 <= v < g.n && v !in S && Below(nd, D[v])
    requires SettledOk(g, cutoff, D, S, rank, clock, last)
    ensures SettledOk(g, cutoff, D[v := Fin(nd)], S, rank, clock, last)
  {
    var D' := D[v := Fin(nd)];
    forall u | 0 <= u < g.n && u in S
      ensures Closed(g, cutoff, D', u)
    {
      ClosedLower(g, cutoff, D, D', u, g.indptr[u + 1]);
    }
  }

  lemma EntriesLower(g: CSRGraph, D: seq<Dist>, H: multiset<Item>, S: set<int>, last: int, u: int, v: int, nd: int)
    requires |D| == g.n && 0 <= v < g.n && v !in S && v != u && Below(nd, D[v]) && last <= nd
    requires Entries(g, D, H, S, last) && Unique(g, D, H)
    requires Above(H, u, last)
    ensures Entries(g, D[v := Fin(nd)], H + multiset{(nd, v)}, S, last)
    ensures Unique(g, D[v := Fin(nd)], H + multiset{(nd, v)})
    ensures Above(H + multiset{(nd, v)}, u, last)
  {
    var D', H' := D[v := Fin(nd)], H + multiset{(nd, v)};
    assert H[(nd, v)] == 0;
    forall w | 0 <= w < g.n && D'[w].Fin?
      ensures H'[(D'[w].d, w)] <= 1
    {
      if w != v {
        assert D'[w] == D[w];
      }
    }
  }

  /** u's closed edges stay closed after D[v] is lowered to u's candidate
      along the edge at ei, which then is closed too. */
  lemma ClosedExtend(g: CSRGraph, cutoff: Dist, D: seq<Dist>, u: int, ei: int, v: int, nd: int)
    requires g.Valid() && |D| == g.n && 0 <= u < g.n && D[u].Fin? && g.indptr[u] <= ei < g.indptr[u + 1]
    requires v == g.indices[ei] && v != u && nd == D[u].d + g.weights[ei] && Below(nd, D[v])
    requires ClosedUpTo(g, cutoff, D, u, ei)
    ensures ClosedUpTo(g, cutoff, D[v := Fin(nd)], u, ei + 1)
  {
    ClosedLower(g, cutoff, D, D[v := Fin(nd)], u, ei);
    assert EdgeRelaxed(g, cutoff, D[v := Fin(nd)], u, ei);
  }

  lemma LabelsLower(g: CSRGraph, s: int, cutoff: Dist, D: seq<Dist>, P: seq<int>, last: int, u: int, v: int, nd: int)
    requires 0 <= s < g.n && |D| == g.n && |P| == g.n && 0 <= u < g.n && 0 <= v < g.n && v != s
    requires AtMost(nd, cutoff)
    requires Labels(g, s, cutoff, D, P, last)
    ensures Labels(g, s, cutoff, D[v := Fin(nd)], P[v := u], last)
  {
  }

  lemma PendingLower(g: CSRGraph, D: seq<Dist>, H: multiset<Item>, S: set<int>, u: int, v: int, nd: int)
    requires |D| == g.n && 0 <= v < g.n
    requires Pending(g, D, H, S, {u})
    ensures Pending(g, D[v := Fin(nd)], H + multiset{(nd, v)}, S, {u})
  {
  }

  lemma PredsLower(g: CSRGraph, D: seq<Dist>, P: seq<int>, E: seq<int>, S: set<int>, rank: seq<nat>, u: int, ei: int, v: int, nd: int)
    requires g.Valid() && |D| == g.n && |P| == g.n && |E| == g.n && |rank| == g.n
    requires g.IsEdge(u, ei) && D[u].Fin? && v == g.indices[ei] && nd == D[u].d + g.weights[ei]
    requires v != u && v !in S && u !in S
    requires PredsOk(g, D, P, E, S, rank, {u})
    ensures PredsOk(g, D[v := Fin(nd)], P[v := u], E[v := ei], S, rank, {u})
  {
    var D', P', E' := D[v := Fin(nd)], P[v := u], E[v := ei];
    forall x | 0 <= x < g.n && P'[x] != Sentinel
      ensures 0 <= P'[x] < g.n && g.IsEdge(P'[x], E'[x]) && g.indices[E'[x]] == x &&
              D'[P'[x]].Fin? && D'[x] == Fin(D'[P'[x]].d + g.weights[E'[x]]) &&
              (P'[x] in S || (P'[x] in {u} && x !in S && x !in {u})) &&
              (x in S ==> P'[x] in S && rank[P'[x]] < rank[x])
    {
      if x != v {
        assert E'[x] == E[x] && P'[x] == P[x];
        assert g.IsEdge(P[x], E[x]);
        assert P[x] != v;
      }
    }
  }

  lemma SettlePreds(g: CSRGraph, D: seq<Dist>, P: seq<int>, E: seq<int>, S: set<int>, rank: seq<nat>, clock: nat, u: int)
    requires |D| == g.n && |P| == g.n && |E| == g.n && |rank| == g.n && 0 <= u < g.n && u !in S
    requires forall x :: x in S ==> 0 <= x < g.n && rank[x] < clock
    requires PredsOk(g, D, P, E, S, rank, {u})
    ensures PredsOk(g, D, P, E, S + {u}, rank[u := clock], {})
  {
    var rank' := rank[u := clock];
    forall v | 0 <= v < g.n && P[v] != Sentinel
      ensures 0 <= P[v] < g.n && g.IsEdge(P[v], E[v]) && g.indices[E[v]] == v &&
              D[P[v]].Fin? && D[v] == Fin(D[P[v]].d + g.weights[E[v]]) &&
              (P[v] in S + {u} || (P[v] in {} && v !in S + {u} && v !in {})) &&
              (v in S + {u} ==> P[v] in S + {u} && rank'[P[v]] < rank'[v])
    {
      assert g.IsEdge(P[v], E[v]);
    }
  }

  lemma SettleSettled(g: CSRGraph, cutoff: Dist, D: seq<Dist>, S: set<int>, rank: seq<nat>, clock: nat, last: int, u: int)
    requires g.Valid() && |D| == g.n && |rank| == g.n && 0 <= u < g.n && u !in S
    requires D[u] == Fin(last) && AtMost(last, cutoff) && ClosedUpTo(g, cutoff, D, u, g.indptr[u + 1])
    requires SettledOk(g, cutoff, D, S, rank, clock, last)
    ensures SettledOk(g, cutoff, D, S + {u}, rank[u := clock], clock + 1, last)
  {
  }

  // ----- the events of the loop -----

  /** dist[source] = 0 and the push of (0, source) into a fresh row. */
  lemma InitStep(g: CSRGraph, s: int, cutoff: Dist, D: seq<Dist>, P: seq<int>, E: seq<int>, rank: seq<nat>)
    requires g.Valid() && 0 <= s < g.n && |D| == g.n && |P| == g.n && |E| == g.n && |rank| == g.n
    requires forall v :: 0 <= v < g.n ==> D[v] == Inf && P[v] == Sentinel
    ensures Inv(g, s, cutoff, State(D[s := Fin(0)], P, E, multiset{(0, s)}, {}, rank, 0, 0))
  {
  }

  /** A popped entry with d > dist[u] is dropped and nothing else changes. */
  lemma StaleStep(g: CSRGraph, s: int, cutoff: Dist, st: State, it: Item)
    requires Inv(g, s, cutoff, st) && it in st.H
    requires !AtMost(it.0, st.D[it.1])
    ensures Inv(g, s, cutoff, st.(H := st.H - multiset{it}))
  {
    EntriesRemove(g, st.D, st.H, st.S, st.last, it);
    PendingStale(g, st.D, st.H, st.S, it);
  }

  /** A popped minimal entry that is neither stale nor beyond the cutoff
      starts the expansion of its vertex at its distance. */
  lemma ExpandStep(g: CSRGraph, s: int, cutoff: Dist, st: State, it: Item)
    requires Inv(g, s, cutoff, st) && it in st.H
    requires forall x :: x in st.H ==> ItemLe(it, x)
    requires AtMost(it.0, st.D[it.1]) && AtMost(it.0, cutoff)
    ensures Expanding(g, s, cutoff, st.(H := st.H - multiset{it}, last := it.0), it.1, g.indptr[it.1])
  {
    var u := it.1;
    assert st.D[u] == Fin(it.0);
    EntriesRemove(g, st.D, st.H, st.S, st.last, it);
    EntriesPop(g, st.D, st.H, st.S, st.last, it);
    SettledRaise(g, cutoff, st.D, st.S, st.rank, st.clock, st.last, it.0);
    PendingPop(g, st.D, st.H, st.S, it);
    PredsOpen(g, st.D, st.P, st.E, st.S, st.rank, u);
  }

  /** `dist[v] = nd; pred[v] = u; heap.emplace(nd, v);` for the edge at ei:
      `next` is the state after these writes. */
  lemma RelaxStep(g: CSRGraph, s: int, cutoff: Dist, st: State, u: int, ei: int, v: int, nd: int, next: State)
    requires Expanding(g, s, cutoff, st, u, ei) && ei < g.indptr[u + 1]
    requires v == g.indices[ei] && nd == st.last + g.weights[ei]
    requires Below(nd, st.D[v]) && AtMost(nd, cutoff)
    requires next == st.(D := st.D[v := Fin(nd)], P := st.P[v := u], E := st.E[v := ei], H := st.H + multiset{(nd, v)})
    ensures Expanding(g, s, cutoff, next, u, ei + 1)
  {
    assert g.IsEdge(u, ei);
    assert v != u;
    assert v !in st.S;
    EntriesLower(g, st.D, st.H, st.S, st.last, u, v, nd);
    SettledLower(g, cutoff, st.D, st.S, st.rank, st.clock, st.last, v, nd);
    PendingLower(g, st.D, st.H, st.S, u, v, nd);
    PredsLower(g, st.D, st.P, st.E, st.S, st.rank, u, ei, v, nd);
    ClosedExtend(g, cutoff, st.D, u, ei, v, nd);
    LabelsLower(g, s, cutoff, st.D, st.P, st.last, u, v, nd);
    assert Shape(g, s, next);
  }

  /** One pass of the edge loop on the ghost view, for the edge at ei leaving
      u, with candidate nd = last + weight: when nd is below the target's
      distance and within the cutoff, the target v gets distance nd,
      predecessor u (through ei) and a heap entry (nd, v); otherwise nothing
      changes. */
  ghost function EdgeState(g: CSRGraph, cutoff: Dist, st: State, u: int, ei: int): (r: State)
    requires g.Valid() && 0 <= ei < |g.indices| && |st.D| == g.n && |st.P| == g.n && |st.E| == g.n
    ensures |r.D| == g.n && |r.P| == g.n && r.S == st.S && r.rank == st.rank && r.clock == st.clock && r.last == st.last
    ensures forall w :: 0 <= w < g.n && r.D[w] != st.D[w] ==>
              r.D[w] == Fin(st.last + g.weights[ei]) && Below(r.D[w].d, st.D[w]) && AtMost(r.D[w].d, cutoff) &&
              r.P[w] == u
    ensures forall w :: 0 <= w < g.n && w != g.indices[ei] ==> r.D[w] == st.D[w] && r.P[w] == st.P[w]
  {
    var v, nd := g.indices[ei], st.last + g.weights[ei];
    if Relaxed(nd, st.D[v], cutoff) then
      st
    else
      st.(D := st.D[v := Fin(nd)], P := st.P[v := u], E := st.E[v := ei], H := st.H + multiset{(nd, v)})
  }

  /** What the edge loop of u, expanded at distance d, has done to the rows
      after the edges before position hi: no distance went up, a vertex whose
      distance is unchanged kept its predecessor, and a vertex whose
      distance changed now points at u and sits at d plus the weight of one
      of those edges into it. */
  ghost predicate LoweredVia(g: CSRGraph, u: int, d: int, hi: int, D0: seq<Dist>, P0: seq<int>, D: seq<Dist>, P: seq<int>)
  {
    |D0| == g.n && |P0| == g.n && |D| == g.n && |P| == g.n &&
    forall v :: 0 <= v < g.n ==>
      Le(D[v], D0[v]) &&
      (D[v] == D0[v] ==> P[v] == P0[v]) &&
      (D[v] != D0[v] ==>
         P[v] == u && exists e :: g.IsEdge(u, e) && e < hi && g.indices[e] == v && D[v] == Fin(d + g.weights[e]))
  }

  /** Before the first edge nothing has changed. */
  lemma LoweredStart(g: CSRGraph, u: int, d: int, D: seq<Dist>, P: seq<int>)
    requires g.Valid() && 0 <= u < g.n && |D| == g.n && |P| == g.n
    ensures LoweredVia(g, u, d, g.indptr[u], D, P, D, P)
  {
  }

  /** One more edge keeps LoweredVia, with the edge now counted. */
  lemma LoweredStep(g: CSRGraph, cutoff: Dist, st: State, u: int, ei: int, D0: seq<Dist>, P0: seq<int>)
    requires g.Valid() && g.IsEdge(u, ei) && |st.E| == g.n
    requires LoweredVia(g, u, st.last, ei, D0, P0, st.D, st.P)
    ensures LoweredVia(g, u, st.last, ei + 1, D0, P0, EdgeState(g, cutoff, st, u, ei).D, EdgeState(g, cutoff, st, u, ei).P)
  {
    var r := EdgeState(g, cutoff, st, u, ei);
    forall v | 0 <= v < g.n
      ensures Le(r.D[v], D0[v]) && (r.D[v] == D0[v] ==> r.P[v] == P0[v])
      ensures r.D[v] != D0[v] ==>
                r.P[v] == u && exists e :: g.IsEdge(u, e) && e < ei + 1 && g.indices[e] == v && r.D[v] == Fin(st.last + g.weights[e])
    {
      if r.D[v] != st.D[v] {
        assert g.indices[ei] == v;
      }
    }
  }

  /** One pass of the edge loop keeps the edge-loop invariant, one edge on. */
  lemma EdgeStep(g: CSRGraph, s: int, cutoff: Dist, st: State, u: int, ei: int)
    requires Expanding(g, s, cutoff, st, u, ei) && ei < g.indptr[u + 1]
    ensures Expanding(g, s, cutoff, EdgeState(g, cutoff, st, u, ei), u, ei + 1)
  {
    var v, nd := g.indices[ei], st.last + g.weights[ei];
    if Relaxed(nd, st.D[v], cutoff) {
      SkipStep(g, s, cutoff, st, u, ei, v, nd);
    } else {
      RelaxStep(g, s, cutoff, st, u, ei, v, nd, EdgeState(g, cutoff, st, u, ei));
    }
  }

  /** An edge whose candidate is not better, or beyond the cutoff, changes
      nothing. */
  lemma SkipStep(g: CSRGraph, s: int, cutoff: Dist, st: State, u: int, ei: int, v: int, nd: int)
    requires Expanding(g, s, cutoff, st, u, ei) && ei < g.indptr[u + 1]
    requires v == g.indices[ei] && nd == st.last + g.weights[ei]
    requires !(Below(nd, st.D[v]) && AtMost(nd, cutoff))
    ensures Expanding(g, s, cutoff, st, u, ei + 1)
  {
  }

  /** After its last edge, u joins the expanded vertices with the next rank. */
  lemma SettleStep(g: CSRGraph, s: int, cutoff: Dist, st: State, u: int)
    requires g.Valid() && 0 <= u < g.n
    requires Expanding(g, s, cutoff, st, u, g.indptr[u + 1])
    ensures Inv(g, s, cutoff, st.(S := st.S + {u}, rank := st.rank[u := st.clock], clock := st.clock + 1))
  {
    SettlePreds(g, st.D, st.P, st.E, st.S, st.rank, st.clock, u);
    SettleSettled(g, cutoff, st.D, st.S, st.rank, st.clock, st.last, u);
  }

  /** The heap ran empty: every vertex within the cutoff was expanded. */
  lemma ExhaustedStep(g: CSRGraph, s: int, cutoff: Dist, st: State)
    requires Inv(g, s, cutoff, st) && |st.H| == 0
    ensures Certificate(g, s, cutoff, st.D, st.P, st.rank)
  {
    Finish(g, s, cutoff, st, 0);
  }

  /** The minimal entry is current but beyond the cutoff (the `break`):
      every vertex within the cutoff was expanded. */
  lemma CutoffStep(g: CSRGraph, s: int, cutoff: Dist, st: State, it: Item)
    requires Inv(g, s, cutoff, st) && it in st.H
    requires forall x :: x in st.H ==> ItemLe(it, x)
    requires !AtMost(it.0, cutoff)
    ensures Certificate(g, s, cutoff, st.D, st.P, st.rank)
  {
    Finish(g, s, cutoff, st, it.0);
  }

  /** Shared end of the two stopping lemmas: when the heap is empty, or all
      its entries are at least a value `floor` beyond the cutoff, every
      vertex within the cutoff is expanded and the labelling is a
      certificate. */
  lemma Finish(g: CSRGraph, s: int, cutoff: Dist, st: State, floor: int)
    requires Inv(g, s, cutoff, st)
    requires |st.H| == 0 || !AtMost(floor, cutoff)
    requires forall x :: x in st.H ==> floor <= x.0
    ensures forall v :: 0 <= v < g.n && st.D[v].Fin? && AtMost(st.D[v].d, cutoff) ==> v in st.S
    ensures Certificate(g, s, cutoff, st.D, st.P, st.rank)
  {
    forall v | 0 <= v < g.n && st.D[v].Fin? && AtMost(st.D[v].d, cutoff)
      ensures v in st.S
    {
    }
    forall v | 0 <= v < g.n && st.P[v] != Sentinel
      ensures g.IsEdge(st.P[v], st.E[v]) && 0 <= st.P[v] < g.n && st.rank[st.P[v]] < st.rank[v] &&
              st.D[st.P[v]].Fin? &&
              exists ei :: g.IsEdge(st.P[v], ei) && g.indices[ei] == v &&
                           st.D[v] == Fin(st.D[st.P[v]].d + g.weights[ei])
    {
      assert g.IsEdge(st.P[v], st.E[v]);
    }
  }
}
