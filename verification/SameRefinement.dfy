// The work-queue refinement over sets of vertices and the refinements in place end in the same
// partition.
module SameRefinement {
  import opened Sums
  import opened Graphs
  import opened Refinement
  import opened Nests
  import opened NestRefinement
  import opened Wl1Spec
  import opened Wl1Theory

  // Two ways to tell the arcs among n vertices.
  ghost predicate SameArcs(n: nat, a: Weights, b: Weights) {
    forall v: nat, w: nat :: v < n && w < n ==> a(v, w) == b(v, w)
  }

  lemma SameCount(n: nat, a: Weights, b: Weights, s: set<nat>, w: nat)
    requires SameArcs(n, a, b) && w < n && forall v :: v in s ==> v < n
    ensures Count(a, s, w) == Count(b, s, w)
  {
    SumCongruence(s, (v: nat) => a(v, w), (v: nat) => b(v, w));
  }

  lemma SameEquitable(n: nat, a: Weights, b: Weights, col: seq<nat>)
    requires SameArcs(n, a, b) && |col| == n
    ensures Equitable(a, col) <==> Equitable(b, col)
  {
    forall u: nat, v: nat, c: nat | u < |col| && v < |col|
      ensures Agree(a, Class(col, c), u, v) <==> Agree(b, Class(col, c), u, v)
    {
      SameCount(n, a, b, Class(col, c), u);
      SameCount(n, a, b, Class(col, c), v);
    }
  }

  // The rows of a symmetric graph tell the arcs both ways.
  lemma RowsServeBothWays(g: Graph)
    requires Symmetric(g)
    ensures SameArcs(|g|, ArcWeights(g), RowWeights(g))
  {
  }

  // Two starting colourings with the same classes.
  ghost predicate SameClasses<S, T>(a: seq<S>, b: seq<T>) {
    Refines(a, b) && Refines(b, a)
  }

  lemma RefinesChain<S, T>(a: seq<nat>, b: seq<S>, c: seq<T>)
    requires Refines(a, b) && Refines(b, c)
    ensures Refines(a, c)
  {
  }

  // Two coarsest equitable refinements of the same classes, for the same arcs, have the same classes.
  lemma SameCoarsest<S, T>(n: nat, wt: Weights, wt2: Weights, init: seq<S>, init2: seq<T>, a: seq<nat>, b: seq<nat>)
    requires SameArcs(n, wt, wt2) && |init| == n && SameClasses(init, init2)
    requires CoarsestEquitable(wt, init, a) && CoarsestEquitable(wt2, init2, b)
    ensures SameClasses(a, b)
  {
    SameEquitable(n, wt, wt2, a);
    SameEquitable(n, wt, wt2, b);
    hide Equitable;
    RefinesChain(a, init, init2);
    RefinesChain(b, init2, init);
  }

  // Main theorem: from the same starting cells, for the same arcs, the work-queue refinement and a
  // refinement in place reach the same classes.
  lemma SamePartition(csr: Csr, wt: Weights, colours: seq<int>, level: int, s: Part, t: Part)
    requires |colours| == csr.n && SameArcs(csr.n, Wt(csr), wt)
    requires PartOk(csr.n, level, s) && PartOk(csr.n, level, t)
    requires SameClasses(Given(csr.n, colours), ColOf(csr.n, level, s))
    requires CoarsestEquitable(wt, ColOf(csr.n, level, s), ColOf(csr.n, level, t))
    ensures SameClasses(Colours(csr, colours), ColOf(csr.n, level, t))
  {
    ColoursCoarsestEquitable(csr, colours);
    var init, start, res := Given(csr.n, colours), ColOf(csr.n, level, s), ColOf(csr.n, level, t);
    hide ColOf, Given, Colours, PartOk, Equitable;
    SameCoarsest(csr.n, Wt(csr), wt, init, start, Colours(csr, colours), res);
  }

  // Main theorem: on an undirected graph the dense and the sparse refinement in place reach the same
  // classes, in whatever order they split.
  lemma SameInPlace(g: Graph, level: int, s: Part, t: Part, t2: Part)
    requires Symmetric(g) && PartOk(|g|, level, s) && PartOk(|g|, level, t) && PartOk(|g|, level, t2)
    requires CoarsestEquitable(RowWeights(g), ColOf(|g|, level, s), ColOf(|g|, level, t))
    requires CoarsestEquitable(ArcWeights(g), ColOf(|g|, level, s), ColOf(|g|, level, t2))
    ensures SameClasses(ColOf(|g|, level, t2), ColOf(|g|, level, t))
  {
    var start, a, b := ColOf(|g|, level, s), ColOf(|g|, level, t2), ColOf(|g|, level, t);
    RowsServeBothWays(g);
    hide ColOf, PartOk, Equitable;
    SameCoarsest(|g|, ArcWeights(g), RowWeights(g), start, start, a, b);
  }
}
