/** A three-vertex graph worked through: 0 -> 1 (weight 4), 0 -> 2
    (weight 1) and 2 -> 1 (weight 2). The specification of a search from 0
    leaves exactly one output row for each cutoff: the detour through 2 wins
    without a cutoff, and vertex 1 (at distance 3) stays INF under cutoff 2. */
module SampleGraph {
  import opened Distance
  import opened Graph
  import opened ShortestPaths

  function G(): (g: CSRGraph)
    ensures g.Valid() && g.n == 3
  {
    CSRGraph(3, [0, 2, 2, 3], [1, 2, 1], [4, 1, 2])
  }

  /** Without a cutoff, every search from 0 writes distances [0, 3, 1] and
      predecessors [-9999, 2, 0]. */
  lemma NoCutoff(D: seq<Dist>, P: seq<int>, rank: seq<nat>)
    requires ShortestWithin(G(), 0, Inf, D) && PredTree(G(), 0, D, P, rank)
    ensures D == [Fin(0), Fin(3), Fin(1)] && P == [Sentinel, 2, 0]
  {
    var D', P' := [Fin(0), Fin(3), Fin(1)], [Sentinel, 2, 0];
    NoCutoffCertificate();
    CertificateShortest(G(), 0, Inf, D', P', [0, 2, 1]);
    ShortestUnique(G(), 0, Inf, D, D');
    OnlyEdgesIn(P, D);
  }

  lemma NoCutoffCertificate()
    ensures Certificate(G(), 0, Inf, [Fin(0), Fin(3), Fin(1)], [Sentinel, 2, 0], [0, 2, 1])
  {
    var g, D := G(), [Fin(0), Fin(3), Fin(1)];
    assert PredTree(g, 0, D, [Sentinel, 2, 0], [0, 2, 1]) by {
      assert g.IsEdge(0, 1) && g.IsEdge(2, 2);
    }
    assert EdgeRelaxed(g, Inf, D, 0, 0) && EdgeRelaxed(g, Inf, D, 0, 1) && EdgeRelaxed(g, Inf, D, 2, 2);
    assert Closed(g, Inf, D, 1);
  }

  /** Under cutoff 2, every search from 0 writes distances [0, INF, 1] and
      predecessors [-9999, -9999, 0]. */
  lemma CutoffTwo(D: seq<Dist>, P: seq<int>, rank: seq<nat>)
    requires ShortestWithin(G(), 0, Fin(2), D) && PredTree(G(), 0, D, P, rank)
    ensures D == [Fin(0), Inf, Fin(1)] && P == [Sentinel, Sentinel, 0]
  {
    var D', P' := [Fin(0), Inf, Fin(1)], [Sentinel, Sentinel, 0];
    CutoffTwoCertificate();
    CertificateShortest(G(), 0, Fin(2), D', P', [0, 0, 1]);
    ShortestUnique(G(), 0, Fin(2), D, D');
    OnlyEdgesIn(P, D);
  }

  lemma CutoffTwoCertificate()
    ensures Certificate(G(), 0, Fin(2), [Fin(0), Inf, Fin(1)], [Sentinel, Sentinel, 0], [0, 0, 1])
  {
    var g, D := G(), [Fin(0), Inf, Fin(1)];
    assert PredTree(g, 0, D, [Sentinel, Sentinel, 0], [0, 0, 1]) by {
      assert g.IsEdge(0, 1);
    }
    assert EdgeRelaxed(g, Fin(2), D, 0, 0) && EdgeRelaxed(g, Fin(2), D, 0, 1) && EdgeRelaxed(g, Fin(2), D, 2, 2);
  }

  /** Vertex 2 is entered only from 0, and vertex 1 at distance 3 only from
      2, so a predecessor tree over these distances has no choice. */
  lemma OnlyEdgesIn(P: seq<int>, D: seq<Dist>)
    requires |D| == 3 && D[0] == Fin(0) && D[2] == Fin(1) && (D[1] == Fin(3) || D[1] == Inf)
    requires exists rank :: PredTree(G(), 0, D, P, rank)
    ensures P == [Sentinel, if D[1].Fin? then 2 else Sentinel, 0]
  {
    var g := G();
    var rank :| PredTree(g, 0, D, P, rank);
    if D[1].Fin? {
      var ei := PredEdge(g, 0, D, P, rank, 1);
      assert P[1] == 2;
    }
    var ei := PredEdge(g, 0, D, P, rank, 2);
  }

  /** A four-vertex graph: 0 -> 1 (weight 1), 0 -> 2 (weight 5), 1 -> 2
      (weight 2) and 2 -> 3 (weight 1). The path through 1 beats the direct
      edge into 2. */
  function Chain(): (g: CSRGraph)
    ensures g.Valid() && g.n == 4
  {
    CSRGraph(4, [0, 2, 3, 4, 4], [1, 2, 2, 3], [1, 5, 2, 1])
  }

  /** Without a cutoff, every search from 0 writes distances [0, 1, 3, 4]
      and predecessors [-9999, 0, 1, 2]. */
  lemma ChainNoCutoff(D: seq<Dist>, P: seq<int>, rank: seq<nat>)
    requires ShortestWithin(Chain(), 0, Inf, D) && PredTree(Chain(), 0, D, P, rank)
    ensures D == [Fin(0), Fin(1), Fin(3), Fin(4)] && P == [Sentinel, 0, 1, 2]
  {
    var D' := [Fin(0), Fin(1), Fin(3), Fin(4)];
    ChainNoCutoffCertificate();
    CertificateShortest(Chain(), 0, Inf, D', [Sentinel, 0, 1, 2], [0, 1, 2, 3]);
    ShortestUnique(Chain(), 0, Inf, D, D');
    ChainPreds(P, D);
  }

  lemma ChainNoCutoffCertificate()
    ensures Certificate(Chain(), 0, Inf, [Fin(0), Fin(1), Fin(3), Fin(4)], [Sentinel, 0, 1, 2], [0, 1, 2, 3])
  {
    var g, D := Chain(), [Fin(0), Fin(1), Fin(3), Fin(4)];
    ChainNoCutoffTree();
    assert EdgeRelaxed(g, Inf, D, 0, 0) && EdgeRelaxed(g, Inf, D, 0, 1);
    assert EdgeRelaxed(g, Inf, D, 1, 2) && EdgeRelaxed(g, Inf, D, 2, 3);
    assert Closed(g, Inf, D, 3);
  }

  lemma ChainNoCutoffTree()
    ensures PredTree(Chain(), 0, [Fin(0), Fin(1), Fin(3), Fin(4)], [Sentinel, 0, 1, 2], [0, 1, 2, 3])
  {
    var g := Chain();
    assert g.IsEdge(0, 0) && g.IsEdge(1, 2) && g.IsEdge(2, 3);
  }

  /** Under cutoff 2, every search from 0 writes distances [0, 1, INF, INF]
      and predecessors [-9999, 0, -9999, -9999]. */
  lemma ChainCutoffTwo(D: seq<Dist>, P: seq<int>, rank: seq<nat>)
    requires ShortestWithin(Chain(), 0, Fin(2), D) && PredTree(Chain(), 0, D, P, rank)
    ensures D == [Fin(0), Fin(1), Inf, Inf] && P == [Sentinel, 0, Sentinel, Sentinel]
  {
    var D' := [Fin(0), Fin(1), Inf, Inf];
    ChainCutoffTwoCertificate();
    CertificateShortest(Chain(), 0, Fin(2), D', [Sentinel, 0, Sentinel, Sentinel], [0, 1, 0, 0]);
    ShortestUnique(Chain(), 0, Fin(2), D, D');
    ChainPreds(P, D);
  }

  lemma ChainCutoffTwoCertificate()
    ensures Certificate(Chain(), 0, Fin(2), [Fin(0), Fin(1), Inf, Inf], [Sentinel, 0, Sentinel, Sentinel], [0, 1, 0, 0])
  {
    var g, D := Chain(), [Fin(0), Fin(1), Inf, Inf];
    ChainCutoffTwoTree();
    assert EdgeRelaxed(g, Fin(2), D, 0, 0) && EdgeRelaxed(g, Fin(2), D, 0, 1) && EdgeRelaxed(g, Fin(2), D, 1, 2);
  }

  lemma ChainCutoffTwoTree()
    ensures PredTree(Chain(), 0, [Fin(0), Fin(1), Inf, Inf], [Sentinel, 0, Sentinel, Sentinel], [0, 1, 0, 0])
  {
    assert Chain().IsEdge(0, 0);
  }

  /** Vertex 1 is entered only from 0, vertex 2 at distance 3 only from 1
      (the direct edge from 0 costs 5), and 3 only from 2. */
  lemma ChainPreds(P: seq<int>, D: seq<Dist>)
    requires |D| == 4 && D[0] == Fin(0) && D[1] == Fin(1)
    requires (D[2] == Fin(3) && D[3] == Fin(4)) || (D[2] == Inf && D[3] == Inf)
    requires exists rank :: PredTree(Chain(), 0, D, P, rank)
    ensures P == [Sentinel, 0, if D[2].Fin? then 1 else Sentinel, if D[3].Fin? then 2 else Sentinel]
  {
    var g := Chain();
    var rank :| PredTree(g, 0, D, P, rank);
    ChainPred(P, D, rank, 1);
    if D[2].Fin? {
      ChainPred(P, D, rank, 2);
      ChainPred(P, D, rank, 3);
    }
  }

  /** A vertex of the chain at finite distance other than 0 has the one
      predecessor whose edge is tight. */
  lemma ChainPred(P: seq<int>, D: seq<Dist>, rank: seq<nat>, v: int)
    requires PredTree(Chain(), 0, D, P, rank) && 1 <= v < 4 && D[v].Fin?
    requires D[0] == Fin(0) && D[1] == Fin(1) && (v >= 2 ==> D[2] == Fin(3))
    ensures P[v] == v - 1
  {
    var ei := PredEdge(Chain(), 0, D, P, rank, v);
  }
}
