/** What a finished single-source search promises: the specification of the
    distance row (shortest walk lengths up to the cutoff) and of the
    predecessor row (a tree of tight edges rooted at the source), and the
    classical argument that a closed, ranked labelling meets it. */
module ShortestPaths {
  import opened Distance
  import opened Graph

  /** The predecessor of a vertex that has none (dijkstra.cpp's -9999). */
  const Sentinel := -9999

  /** D is the distance row of a search from s bounded by cutoff: D[s] is 0,
      every finite D[v] is the cost of some walk from s to v and (except at the
      source) lies within the cutoff, and no walk from s to v whose cost is
      within the cutoff is cheaper than D[v]. So D[v] is the shortest-walk
      distance when that is <= cutoff, and INF otherwise. */
  ghost predicate ShortestWithin(g: CSRGraph, s: int, cutoff: Dist, D: seq<Dist>)
  {
    |D| == g.n && 0 <= s < g.n && D[s] == Fin(0) &&
    (forall v :: 0 <= v < g.n && D[v].Fin? ==>
       (v == s || AtMost(D[v].d, cutoff)) && exists p :: WalkCost(g, s, p, v) == Some(D[v].d)) &&
    (forall v, p :: 0 <= v < g.n && WalkCost(g, s, p, v).Some? && AtMost(WalkCost(g, s, p, v).value, cutoff)
       ==> D[v].Fin? && D[v].d <= WalkCost(g, s, p, v).value)
  }

  /** P is a predecessor row for distance row D: the source and exactly the
      vertices at INF keep the sentinel, and every other vertex v points at a
      vertex u with an edge u -> v that is tight (D[v] == D[u] + weight). The
      ranks strictly decrease along predecessor links, so following them
      always ends. */
  ghost predicate PredTree(g: CSRGraph, s: int, D: seq<Dist>, P: seq<int>, rank: seq<nat>)
  {
    |D| == g.n && |P| == g.n && |rank| == g.n && 0 <= s < g.n && P[s] == Sentinel &&
    (forall v {:trigger P[v]} :: 0 <= v < g.n && v != s ==> (P[v] == Sentinel <==> D[v].Inf?)) &&
    (forall v :: 0 <= v < g.n && P[v] != Sentinel ==>
       0 <= P[v] < g.n && rank[P[v]] < rank[v] && D[P[v]].Fin? &&
       exists ei :: g.IsEdge(P[v], ei) && g.indices[ei] == v && D[v] == Fin(D[P[v]].d + g.weights[ei]))
  }

  /** Relaxing an edge whose candidate distance is nd would change nothing:
      `nd < dist[v] && nd <= cutoff` is false. */
  predicate Relaxed(nd: int, dv: Dist, cutoff: Dist)
  {
    !(Below(nd, dv) && AtMost(nd, cutoff))
  }

  /** The edge at position ei, leaving u, is relaxed with respect to D. */
  ghost predicate EdgeRelaxed(g: CSRGraph, cutoff: Dist, D: seq<Dist>, u: int, ei: int)
    requires g.Valid() && |D| == g.n && 0 <= u < g.n && D[u].Fin? && 0 <= ei < |g.indices|
  {
    Relaxed(D[u].d + g.weights[ei], D[g.indices[ei]], cutoff)
  }

  /** The edges of u at positions indptr[u] .. hi-1 are relaxed with respect
      to D. */
  ghost predicate ClosedUpTo(g: CSRGraph, cutoff: Dist, D: seq<Dist>, u: int, hi: int)
    requires g.Valid() && |D| == g.n && 0 <= u < g.n && D[u].Fin? && hi <= g.indptr[u + 1]
  {
    forall ei {:trigger EdgeRelaxed(g, cutoff, D, u, ei)} :: g.indptr[u] <= ei < hi ==>
      EdgeRelaxed(g, cutoff, D, u, ei)
  }

  /** All edges of u are relaxed with respect to D. */
  ghost predicate Closed(g: CSRGraph, cutoff: Dist, D: seq<Dist>, u: int)
    requires g.Valid() && |D| == g.n && 0 <= u < g.n && D[u].Fin?
  {
    ClosedUpTo(g, cutoff, D, u, g.indptr[u + 1])
  }

  /** The state a search ends in: a ranked predecessor tree over D, D[s] == 0,
      every other finite distance within the cutoff, and every vertex whose
      distance is within the cutoff closed. */
  ghost predicate Certificate(g: CSRGraph, s: int, cutoff: Dist, D: seq<Dist>, P: seq<int>, rank: seq<nat>)
  {
    g.Valid() && PredTree(g, s, D, P, rank) && D[s] == Fin(0) &&
    (forall v :: 0 <= v < g.n && v != s && D[v].Fin? ==> AtMost(D[v].d, cutoff)) &&
    (forall u :: 0 <= u < g.n && D[u].Fin? && AtMost(D[u].d, cutoff) ==> Closed(g, cutoff, D, u))
  }

  /** The tight edge behind a predecessor link. */
  ghost function PredEdge(g: CSRGraph, s: int, D: seq<Dist>, P: seq<int>, rank: seq<nat>, v: int): (ei: int)
    requires PredTree(g, s, D, P, rank) && 0 <= v < g.n && P[v] != Sentinel
    ensures g.IsEdge(P[v], ei) && g.indices[ei] == v && D[P[v]].Fin? && D[v] == Fin(D[P[v]].d + g.weights[ei])
  {
    var ei :| g.IsEdge(P[v], ei) && g.indices[ei] == v && D[v] == Fin(D[P[v]].d + g.weights[ei]);
    ei
  }

  /** Following predecessor links from a vertex at finite distance reaches the
      source, and the edges passed on the way add up to that distance. */
  ghost function PredPath(g: CSRGraph, s: int, D: seq<Dist>, P: seq<int>, rank: seq<nat>, v: int): (p: seq<Step>)
    requires PredTree(g, s, D, P, rank) && D[s] == Fin(0)
    requires 0 <= v < g.n && D[v].Fin?
    ensures WalkCost(g, s, p, v) == Some(D[v].d)
    decreases rank[v]
  {
    if v == s then
      []
    else
      var u := P[v];
      var ei := PredEdge(g, s, D, P, rank, v);
      var q := PredPath(g, s, D, P, rank, u);
      WalkExtend(g, s, q, u, ei);
      q + [Step(u, ei)]
  }

  /** With every vertex within the cutoff closed, no walk from s whose cost is
      within the cutoff ends at a vertex whose distance exceeds that cost. */
  lemma {:induction false} ClosedBound(g: CSRGraph, s: int, cutoff: Dist, D: seq<Dist>, p: seq<Step>, v: int)
    requires g.Valid() && 0 <= s < g.n && |D| == g.n && D[s] == Fin(0)
    requires forall u :: 0 <= u < g.n && D[u].Fin? && AtMost(D[u].d, cutoff) ==> Closed(g, cutoff, D, u)
    requires WalkCost(g, s, p, v).Some? && AtMost(WalkCost(g, s, p, v).value, cutoff)
    ensures 0 <= v < g.n && D[v].Fin? && D[v].d <= WalkCost(g, s, p, v).value
    decreases |p|
  {
    if |p| > 0 {
      var st := p[|p| - 1];
      var q := p[..|p| - 1];
      var u, ei := st.from, st.edge;
      var k := WalkCost(g, s, p, v).value;
      var k' := WalkCost(g, s, q, u).value;
      assert k == k' + g.weights[ei];
      ClosedBound(g, s, cutoff, D, q, u);
      assert Closed(g, cutoff, D, u);
      assert EdgeRelaxed(g, cutoff, D, u, ei);
    }
  }

  /** The state a search ends in meets the distance specification. */
  lemma CertificateShortest(g: CSRGraph, s: int, cutoff: Dist, D: seq<Dist>, P: seq<int>, rank: seq<nat>)
    requires Certificate(g, s, cutoff, D, P, rank)
    ensures ShortestWithin(g, s, cutoff, D)
  {
    forall v | 0 <= v < g.n && D[v].Fin?
      ensures exists p :: WalkCost(g, s, p, v) == Some(D[v].d)
    {
      var p := PredPath(g, s, D, P, rank, v);
    }
    forall v, p | 0 <= v < g.n && WalkCost(g, s, p, v).Some? && AtMost(WalkCost(g, s, p, v).value, cutoff)
      ensures D[v].Fin? && D[v].d <= WalkCost(g, s, p, v).value
    {
      ClosedBound(g, s, cutoff, D, p, v);
    }
  }

  /** The distance row is determined by the graph, the source and the cutoff:
      whatever order the work is done in, it comes out the same. */
  lemma ShortestUnique(g: CSRGraph, s: int, cutoff: Dist, D1: seq<Dist>, D2: seq<Dist>)
    requires ShortestWithin(g, s, cutoff, D1) && ShortestWithin(g, s, cutoff, D2)
    ensures D1 == D2
  {
    forall v | 0 <= v < g.n
      ensures D1[v] == D2[v]
    {
      if D1[v].Fin? {
        ShortestAgree(g, s, cutoff, cutoff, D1, D2, v);
      } else if D2[v].Fin? {
        ShortestAgree(g, s, cutoff, cutoff, D2, D1, v);
      }
    }
  }

  /** A vertex found within cutoff c1 is found at the same distance under any
      cutoff c2 >= c1. */
  lemma CutoffMonotone(g: CSRGraph, s: int, c1: Dist, c2: Dist, D1: seq<Dist>, D2: seq<Dist>)
    requires Le(c1, c2)
    requires ShortestWithin(g, s, c1, D1) && ShortestWithin(g, s, c2, D2)
    ensures forall v :: 0 <= v < g.n && D1[v].Fin? ==> D2[v] == D1[v]
  {
    forall v | 0 <= v < g.n && D1[v].Fin?
      ensures D2[v] == D1[v]
    {
      ShortestAgree(g, s, c1, c2, D1, D2, v);
    }
  }

  /** Helper: a finite entry under the smaller cutoff reappears unchanged
      under the larger one. */
  lemma ShortestAgree(g: CSRGraph, s: int, c1: Dist, c2: Dist, D1: seq<Dist>, D2: seq<Dist>, v: int)
    requires Le(c1, c2)
    requires ShortestWithin(g, s, c1, D1) && ShortestWithin(g, s, c2, D2)
    requires 0 <= v < g.n && D1[v].Fin?
    ensures D2[v] == D1[v]
  {
    if v != s {
      var p1 :| WalkCost(g, s, p1, v) == Some(D1[v].d);
      assert D2[v].Fin? && D2[v].d <= D1[v].d;
      var p2 :| WalkCost(g, s, p2, v) == Some(D2[v].d);
      assert AtMost(D2[v].d, c1);
    }
  }
}
