// The refinements as they are used: after singling out a vertex, and side by side.
module Compositions {
  import opened Sums
  import opened Graphs
  import opened Refinement
  import opened Nests
  import opened NestRefinement
  import opened NestCost
  import opened CutRuns
  import opened CutRelabel
  import opened SparseRelabel
  import opened StepRelabel
  import opened RefineInPlace
  import opened Breakout
  import opened SameRefinement
  import Distances
  import SparseRefine

  // Single out a vertex of an equitable partition and refine again: what comes out is the coarsest
  // equitable partition in which that vertex is alone, from a single active cell.
  method SingleOut(g: Graph, lab: array<nat>, ptn: array<int>, level: int, numcells0: int, tc: nat, tv: nat,
                   ghost s: Part, ghost e: nat)
    returns (numcells: int, active: set<nat>, ghost mid: Part)
    requires ValidGraph(g) && Mirrored(g) && lab.Length == ptn.Length == |g|
    requires s.lab == lab[..] && s.ptn == ptn[..] && s.numcells == numcells0 && PartOk(|g|, level, s)
    requires Equitable(RowWeights(g), ColOf(|g|, level, s))
    requires CellAt(ptn[..], level, tc, e) && tc < e && tv in lab[tc..e + 1]
    modifies lab, ptn
    ensures Singled(|g|, level, s, mid, tc, tv)
    ensures Finer(s.ptn, ptn[..], level) && KeepsLower(s.ptn, ptn[..], level)
    ensures RefinementSound(g, level, mid, Part(lab[..], ptn[..], active, numcells))
    ensures CoarsestEquitable(RowWeights(g), ColOf(|g|, level, mid),
                              ColOf(|g|, level, Part(lab[..], ptn[..], active, numcells)))
  {
    hide *;
    active := Breakout.Breakout(lab, ptn, level, tc, tv, s, e);
    mid := Part(lab[..], ptn[..], active, numcells0 + 1);
    SingledParts(|g|, level, s, mid, tc, tv);
    SingledQueue(RowWeights(g), |g|, level, s, mid, tc, tv);
    ghost var run;
    numcells, active, run := Refine1(g, lab, ptn, level, numcells0 + 1, active);
    SoundCoarsest(g, level, mid, Part(lab[..], ptn[..], active, numcells));
    SoundFiner(g, level, mid, Part(lab[..], ptn[..], active, numcells));
    FinerChain(s.ptn, mid.ptn, ptn[..], level);
    FinerKeepsLower(s.ptn, ptn[..], level);
  }

  lemma SoundFiner(g: Graph, level: int, s: Part, t: Part)
    requires RefinementSound(g, level, s, t)
    ensures Finer(s.ptn, t.ptn, level)
  {
  }

  lemma SingledParts(n: nat, level: int, s: Part, t: Part, tc: nat, tv: nat)
    requires Singled(n, level, s, t, tc, tv)
    ensures PartOk(n, level, t)
  {
  }

  lemma SoundCoarsest(g: Graph, level: int, s: Part, t: Part)
    requires RefinementSound(g, level, s, t) && Mirrored(g) && PartOk(|g|, level, s)
    requires QueueInv(RowWeights(g), ColOf(|g|, level, s), s.active)
    ensures PartOk(|g|, level, t) && CoarsestEquitable(RowWeights(g), ColOf(|g|, level, s), ColOf(|g|, level, t))
  {
  }

  // An active set that is correct for the rows is correct for the arcs, where they are the same.
  lemma SameQueue(n: nat, a: Weights, b: Weights, col: seq<nat>, active: set<nat>)
    requires SameArcs(n, a, b) && |col| == n && QueueInv(a, col, active)
    ensures QueueInv(b, col, active)
  {
    forall u: nat, v: nat, c: nat | u < n && v < n
      ensures Agree(a, Class(col, c), u, v) <==> Agree(b, Class(col, c), u, v)
    {
      SameCount(n, a, b, Class(col, c), u);
      SameCount(n, a, b, Class(col, c), v);
    }
    forall u: nat, v: nat | u < n && v < n && col[u] == col[v] && AgreeOn(b, col, active, u, v)
      ensures AgreeAll(b, col, u, v)
    {
      assert AgreeOn(a, col, active, u, v);
      assert AgreeAll(a, col, u, v);
    }
  }

  // Refine an undirected graph by its rows and, on a copy of the partition, by its lists of neighbours:
  // both reach the same cells.
  method BothWays(g: Graph, sg: Distances.SparseGraph, lab: array<nat>, ptn: array<int>, lab2: array<nat>,
                  ptn2: array<int>, level: int, infinity: nat, numcells0: int, active0: set<nat>)
    returns (numcells: int, active: set<nat>, numcells2: int, active2: set<nat>)
    requires Distances.RowsOf(sg, g) && ValidGraph(g) && Symmetric(g) && |g| < infinity
    requires lab.Length == ptn.Length == lab2.Length == ptn2.Length == |g|
    requires lab != lab2 && ptn != ptn2 && lab2[..] == lab[..] && ptn2[..] == ptn[..]
    requires PartOk(|g|, level, Part(lab[..], ptn[..], active0, numcells0))
    requires QueueInv(RowWeights(g), ColOf(|g|, level, Part(lab[..], ptn[..], active0, numcells0)), active0)
    modifies lab, ptn, lab2, ptn2
    ensures PartOk(|g|, level, Part(lab[..], ptn[..], active, numcells))
    ensures PartOk(|g|, level, Part(lab2[..], ptn2[..], active2, numcells2))
    ensures SameClasses(ColOf(|g|, level, Part(lab2[..], ptn2[..], active2, numcells2)),
                        ColOf(|g|, level, Part(lab[..], ptn[..], active, numcells)))
  {
    hide *;
    ghost var s := Part(lab[..], ptn[..], active0, numcells0);
    SymmetricIsMirrored(g);
    RowsServeBothWays(g);
    SameBack(|g|, ArcWeights(g), RowWeights(g));
    SameQueue(|g|, RowWeights(g), ArcWeights(g), ColOf(|g|, level, s), active0);
    ghost var run, run2;
    numcells, active, run := Refine1(g, lab, ptn, level, numcells0, active0);
    ghost var t := Part(lab[..], ptn[..], active, numcells);
    SoundCoarsest(g, level, s, t);
    numcells2, active2, run2 := SparseRefine.RefineSg(sg, lab2, ptn2, level, infinity, numcells0, active0, g);
    SgCoarsest(g, level, s, Part(lab2[..], ptn2[..], active2, numcells2));
    SameInPlace(g, level, s, t, Part(lab2[..], ptn2[..], active2, numcells2));
  }

  lemma SgCoarsest(g: Graph, level: int, s: Part, t: Part)
    requires SparseRefine.SgSound(g, level, s, t) && PartOk(|g|, level, s)
    requires QueueInv(ArcWeights(g), ColOf(|g|, level, s), s.active)
    ensures PartOk(|g|, level, t) && CoarsestEquitable(ArcWeights(g), ColOf(|g|, level, s), ColOf(|g|, level, t))
  {
  }

  lemma SameBack(n: nat, a: Weights, b: Weights)
    requires SameArcs(n, a, b)
    ensures SameArcs(n, b, a)
  {
  }

  // Refine a nest of a digraph, and the relabelled nest of the relabelled digraph: the same positions end
  // cells, the same cells are active, and every cell holds the relabelled vertices.
  method RelabelledBoth(g: Graph, g2: Graph, lab: array<nat>, ptn: array<int>, lab2: array<nat>, ptn2: array<int>,
                        level: int, numcells0: int, active0: set<nat>, ghost p: seq<nat>)
    returns (numcells: int, active: set<nat>, numcells2: int, active2: set<nat>)
    requires ValidGraph(g) && ValidGraph(g2) && Maps(g, g2, p) && |p| == |g|
    requires lab.Length == ptn.Length == lab2.Length == ptn2.Length == |g|
    requires lab != lab2 && ptn != ptn2 && ptn2[..] == ptn[..]
    requires PartOk(|g|, level, Part(lab[..], ptn[..], active0, numcells0))
    requires forall i :: 0 <= i < |g| ==> lab[i] < |g| && lab2[i] == p[lab[i]]
    modifies lab, ptn, lab2, ptn2
    ensures numcells2 == numcells && active2 == active && ptn2[..] == ptn[..]
    ensures forall c1: nat, c2: nat :: CellAt(ptn[..], level, c1, c2) ==>
      CellCarried(p, Part(lab[..], ptn[..], active, numcells), Part(lab2[..], ptn2[..], active2, numcells2), c1, c2)
  {
    ghost var s, s2 := Part(lab[..], ptn[..], active0, numcells0), Part(lab2[..], ptn2[..], active0, numcells0);
    RelabelledStart(p, level, s, s2);
    assert |g2| == |g|;
    hide *;
    AlikeParts(p, level, s, s2);
    ghost var run, run2;
    numcells, active, run := Refine1(g, lab, ptn, level, numcells0, active0);
    ghost var t := Part(lab[..], ptn[..], active, numcells);
    numcells2, active2, run2 := Refine1(g2, lab2, ptn2, level, numcells0, active0);
    ghost var t2 := Part(lab2[..], ptn2[..], active2, numcells2);
    RefinementRelabels(g, g2, p, level, s, run, t, s2, run2, t2);
    AlikeParts(p, level, t, t2);
  }

  // The same for the sparse refinement; the rows may list their neighbours in any order.
  method SparseRelabelledBoth(g: Graph, g2: Graph, sg: Distances.SparseGraph, sg2: Distances.SparseGraph,
                              lab: array<nat>, ptn: array<int>, lab2: array<nat>, ptn2: array<int>, level: int,
                              infinity: nat, numcells0: int, active0: set<nat>, ghost p: seq<nat>)
    returns (numcells: int, active: set<nat>, numcells2: int, active2: set<nat>)
    requires Distances.RowsOf(sg, g) && Distances.RowsOf(sg2, g2) && |g| < infinity
    requires Maps(g, g2, p) && |p| == |g| == |g2|
    requires lab.Length == ptn.Length == lab2.Length == ptn2.Length == |g|
    requires lab != lab2 && ptn != ptn2 && ptn2[..] == ptn[..]
    requires PartOk(|g|, level, Part(lab[..], ptn[..], active0, numcells0))
    requires forall i :: 0 <= i < |g| ==> lab[i] < |g| && lab2[i] == p[lab[i]]
    modifies lab, ptn, lab2, ptn2
    ensures numcells2 == numcells && active2 == active && ptn2[..] == ptn[..]
    ensures forall c1: nat, c2: nat :: CellAt(ptn[..], level, c1, c2) ==>
      CellCarried(p, Part(lab[..], ptn[..], active, numcells), Part(lab2[..], ptn2[..], active2, numcells2), c1, c2)
  {
    ghost var s, s2 := Part(lab[..], ptn[..], active0, numcells0), Part(lab2[..], ptn2[..], active0, numcells0);
    RelabelledStart(p, level, s, s2);
    hide *;
    AlikeParts(p, level, s, s2);
    ghost var run, run2;
    numcells, active, run := SparseRefine.RefineSg(sg, lab, ptn, level, infinity, numcells0, active0, g);
    ghost var t := Part(lab[..], ptn[..], active, numcells);
    numcells2, active2, run2 := SparseRefine.RefineSg(sg2, lab2, ptn2, level, infinity, numcells0, active0, g2);
    ghost var t2 := Part(lab2[..], ptn2[..], active2, numcells2);
    SparseRelabels(g, g2, p, level, s, run, t, s2, run2, t2);
    AlikeParts(p, level, t, t2);
  }

  lemma AlikeParts(p: seq<nat>, level: int, s: Part, s2: Part)
    requires Alike(p, level, s, s2)
    ensures PartOk(|p|, level, s) && PartOk(|p|, level, s2)
    ensures s2.active == s.active && s2.numcells == s.numcells
  {
  }
}
