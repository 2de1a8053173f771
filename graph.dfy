/** The read-only CSR graph view (`CSRGraph` in dijkstra.cpp) and the walks
    through it that the shortest-path specification talks about. */
module Graph {

  datatype Option<T> = None | Some(value: T)

  /** Vertex u's outgoing edges are the positions indptr[u] .. indptr[u+1]-1
      of `indices` (their targets) and `weights` (their lengths). */
  datatype CSRGraph = CSRGraph(n: int, indptr: seq<int>, indices: seq<int>, weights: seq<int>)
  {
    /** What callers must supply; the kernel checks none of it. */
    ghost predicate Valid()
    {
      |indptr| >= 1 && n == |indptr| - 1 &&
      |indices| == |weights| &&
      (forall u :: 0 <= u < |indptr| ==> 0 <= indptr[u] <= |indices|) &&
      (forall u :: 0 <= u < n ==> indptr[u] <= indptr[u + 1]) &&
      (forall ei :: 0 <= ei < |indices| ==> 0 <= indices[ei] < n) &&
      (forall ei :: 0 <= ei < |weights| ==> 0 <= weights[ei])
    }

    /** Position ei holds an outgoing edge of vertex u. */
    predicate IsEdge(u: int, ei: int)
    {
      0 <= u < n && u + 1 < |indptr| && indptr[u] <= ei < indptr[u + 1] &&
      0 <= ei < |indices| && ei < |weights|
    }
  }

  /** One step of a walk: the edge at position `edge`, leaving vertex `from`. */
  datatype Step = Step(from: int, edge: int)

  /** Some(total weight) when p is a walk from s to v in g, None otherwise. */
  ghost function WalkCost(g: CSRGraph, s: int, p: seq<Step>, v: int): Option<int>
    decreases |p|
  {
    if |p| == 0 then
      if v == s then Some(0) else None
    else
      var st := p[|p| - 1];
      if g.IsEdge(st.from, st.edge) && g.indices[st.edge] == v then
        match WalkCost(g, s, p[..|p| - 1], st.from)
        case Some(c) => Some(c + g.weights[st.edge])
        case None => None
      else
        None
  }

  /** A walk extended by one edge costs that edge's weight more. */
  lemma WalkExtend(g: CSRGraph, s: int, p: seq<Step>, u: int, ei: int)
    requires WalkCost(g, s, p, u).Some? && g.IsEdge(u, ei)
    ensures WalkCost(g, s, p + [Step(u, ei)], g.indices[ei])
            == Some(WalkCost(g, s, p, u).value + g.weights[ei])
  {
    assert (p + [Step(u, ei)])[..|p|] == p;
  }
}
