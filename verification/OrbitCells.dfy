// Refinement never separates vertices that an automorphism exchanges: the orbits of any group of
// automorphisms are equitable in both directions.
module OrbitCells {
  import opened Sums
  import opened Graphs
  import opened Orbits
  import opened GroupOrbits
  import opened Refinement
  import opened NestRefinement
  import opened CutRuns

  // ----- orbits as a colouring -----

  ghost function LeastFrom(perms: seq<seq<nat>>, n: nat, v: nat, i: nat): (r: nat)
    requires Permutations(perms, n) && i <= v < n && SameOrbit(perms, n, v, v)
    ensures i <= r <= v && SameOrbit(perms, n, v, r) && forall y :: i <= y < r ==> !SameOrbit(perms, n, v, y)
    decreases v - i
  {
    if SameOrbit(perms, n, v, i) then i else LeastFrom(perms, n, v, i + 1)
  }

  // Every vertex is labelled by the least of its orbit.
  ghost function OrbitLabels(perms: seq<seq<nat>>, n: nat): (q: seq<nat>)
    requires Permutations(perms, n)
    ensures |q| == n
  {
    seq(n, v requires 0 <= v < n => LeastInOrbitOf(perms, n, v))
  }

  ghost function LeastInOrbitOf(perms: seq<seq<nat>>, n: nat, v: nat): nat
    requires Permutations(perms, n) && v < n
  {
    OrbitEquivalence(perms, n);
    assert OrbitRelation(perms, n)(v, v);
    LeastFrom(perms, n, v, 0)
  }

  lemma LabelsTellOrbits(perms: seq<seq<nat>>, n: nat, u: nat, v: nat)
    requires Permutations(perms, n) && u < n && v < n
    ensures OrbitLabels(perms, n)[u] == OrbitLabels(perms, n)[v] <==> SameOrbit(perms, n, u, v)
  {
    OrbitEquivalence(perms, n);
    var e := OrbitRelation(perms, n);
    var a, b := OrbitLabels(perms, n)[u], OrbitLabels(perms, n)[v];
    assert e(u, u) && e(v, v) && e(u, a) && e(v, b);
    if a == b { assert e(b, v) && e(u, v); }
    if e(u, v) {
      assert e(v, u) && e(u, b) && e(v, a);
    }
  }

  // What no generator changes, no element of the group changes.
  lemma {:induction false} OrbitKeeps<T>(perms: seq<seq<nat>>, n: nat, f: nat -> T, w: Word, x: nat)
    requires Permutations(perms, n) && WordOk(w, |perms|) && x < n
    requires forall t: nat, y: nat :: t < |perms| && y < n ==> f(perms[t][y]) == f(y)
    ensures f(Act(perms, n, w, x)) == f(x)
    decreases |w|
  {
    if w != [] {
      var init, l := w[..|w| - 1], w[|w| - 1];
      OrbitKeeps(perms, n, f, init, x);
      var y := Act(perms, n, init, x);
      assert f(perms[l.0][Letter(perms, n, l, y)]) == f(Letter(perms, n, l, y));
      assert f(perms[l.0][y]) == f(y);
    }
  }

  // ----- orbits are equitable -----

  ghost predicate ClosedBoth(n: nat, p: seq<nat>, c: set<nat>) {
    |p| == n && (forall x :: x in c ==> x < n) && forall x: nat :: x < n ==> (x in c <==> p[x] in c)
  }

  lemma RowsMoved(g: Graph, p: seq<nat>, c: set<nat>, u: nat)
    requires ValidGraph(g) && Automorphism(g, p) && ClosedBoth(|g|, p, c) && u < |g|
    ensures Count(RowWeights(g), c, p[u]) == Count(RowWeights(g), c, u)
  {
    CountIsOverlap(g, c, u);
    CountIsOverlap(g, c, p[u]);
    var here, there := c * g[u], c * g[p[u]];
    forall y ensures y in Image(p, here) <==> y in there {
      if y in there {
        var x := PermutationOnto(|g|, p, y);
        assert x in here;
      }
    }
    ImageCard(|g|, p, here);
    assert Image(p, here) == there;
  }

  lemma ArcsMoved(g: Graph, p: seq<nat>, c: set<nat>, u: nat)
    requires ValidGraph(g) && Automorphism(g, p) && ClosedBoth(|g|, p, c) && u < |g|
    ensures Count(ArcWeights(g), c, p[u]) == Count(ArcWeights(g), c, u)
  {
    CountIsInto(g, c, u);
    CountIsInto(g, c, p[u]);
    var here, there := Into(g, c, u), Into(g, c, p[u]);
    forall y ensures y in Image(p, here) <==> y in there {
      if y in there {
        var x := PermutationOnto(|g|, p, y);
        assert x in here;
      }
    }
    ImageCard(|g|, p, here);
    assert Image(p, here) == there;
  }

  lemma OrbitClosed(perms: seq<seq<nat>>, n: nat, d: nat, t: nat)
    requires Permutations(perms, n) && t < |perms|
    ensures ClosedBoth(n, perms[t], Class(OrbitLabels(perms, n), d))
  {
    var q := OrbitLabels(perms, n);
    forall x: nat | x < n ensures q[perms[t][x]] == q[x] {
      GeneratorInOrbit(perms, n, t, x);
      LabelsTellOrbits(perms, n, x, perms[t][x]);
    }
  }

  lemma OrbitsEquitable(g: Graph, perms: seq<seq<nat>>)
    requires ValidGraph(g) && Automorphisms(g, perms) && Permutations(perms, |g|)
    ensures BothEquitable(g, OrbitLabels(perms, |g|))
  {
    var n, q := |g|, OrbitLabels(perms, |g|);
    forall u: nat, v: nat, d: nat | u < n && v < n && q[u] == q[v]
      ensures Agree(RowWeights(g), Class(q, d), u, v) && Agree(ArcWeights(g), Class(q, d), u, v)
    {
      LabelsTellOrbits(perms, n, u, v);
      SameCounts(g, perms, Class(q, d), d, u, v);
    }
  }

  lemma SameCounts(g: Graph, perms: seq<seq<nat>>, c: set<nat>, d: nat, u: nat, v: nat)
    requires ValidGraph(g) && Automorphisms(g, perms) && Permutations(perms, |g|)
    requires SameOrbit(perms, |g|, u, v) && c == Class(OrbitLabels(perms, |g|), d)
    ensures Agree(RowWeights(g), c, u, v) && Agree(ArcWeights(g), c, u, v)
  {
    var rows, arcs := (x: nat) => Count(RowWeights(g), c, x), (x: nat) => Count(ArcWeights(g), c, x);
    forall t: nat, y: nat | t < |perms| && y < |g|
      ensures rows(perms[t][y]) == rows(y) && arcs(perms[t][y]) == arcs(y)
    {
      OrbitClosed(perms, |g|, d, t);
      RowsMoved(g, perms[t], c, y);
      ArcsMoved(g, perms[t], c, y);
    }
    var w: Word :| WordOk(w, |perms|) && Act(perms, |g|, w, u) == v;
    OrbitKeeps(perms, |g|, rows, w, u);
    OrbitKeeps(perms, |g|, arcs, w, u);
  }

  // Main theorem: a refinement that cuts nothing equitable keeps together all vertices that the
  // automorphisms exchange which keep the starting cells, on any digraph.
  lemma AutomorphismsSurvive(g: Graph, perms: seq<seq<nat>>, init: seq<nat>, col: seq<nat>, u: nat, v: nat)
    requires ValidGraph(g) && Automorphisms(g, perms) && Permutations(perms, |g|) && |init| == |g|
    requires forall t: nat, x: nat :: t < |perms| && x < |g| ==> init[perms[t][x]] == init[x]
    requires CutsNone(g, init, col) && SameOrbit(perms, |g|, u, v)
    ensures |col| == |g| && col[u] == col[v]
  {
    var n, q := |g|, OrbitLabels(perms, |g|);
    OrbitsEquitable(g, perms);
    var f := (x: nat) => if x < |init| then init[x] else 0;
    forall x: nat, y: nat | x < n && y < n && q[x] == q[y] ensures init[x] == init[y] {
      LabelsTellOrbits(perms, n, x, y);
      var w: Word :| WordOk(w, |perms|) && Act(perms, n, w, x) == y;
      OrbitKeeps(perms, n, f, w, x);
    }
    assert Refines(q, init);
    LabelsTellOrbits(perms, n, u, v);
  }
}
