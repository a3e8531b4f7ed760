// Testing a permutation for being an automorphism by its forward images alone.
module Automorphisms {
  import opened Sums
  import opened Graphs
  import opened Rows

  // Adjacency between different vertices is kept.
  ghost predicate KeepsEdges(g: Graph, p: seq<nat>) {
    && Permutation(|g|, p)
    && forall u: nat, v: nat :: u < |g| && v < |g| && u != v ==> (v in g[u] <==> p[v] in g[p[u]])
  }

  ghost predicate KeepsLoops(g: Graph, p: seq<nat>) {
    && Permutation(|g|, p)
    && forall u: nat :: u < |g| ==> (u in g[u] <==> p[u] in g[p[u]])
  }

  lemma EdgesAndLoops(g: Graph, p: seq<nat>)
    ensures Automorphism(g, p) <==> KeepsEdges(g, p) && KeepsLoops(g, p)
  {
  }

  // Without loops there are none to lose, so the test is exact.
  lemma LoopFreeKeepsLoops(g: Graph, p: seq<nat>)
    requires Permutation(|g|, p) && forall u: nat :: u < |g| ==> u !in g[u]
    ensures KeepsLoops(g, p) && (KeepsEdges(g, p) <==> Automorphism(g, p))
  {
    EdgesAndLoops(g, p);
  }

  // Every arc of rows (u's row of t) is mapped to an arc.
  ghost predicate MapsInto(t: Graph, p: seq<nat>) {
    && Permutation(|t|, p)
    && forall u: nat, v: nat :: u < |t| && v < |t| && v in t[u] ==> p[v] in t[p[u]]
  }

  lemma RowGrows(t: Graph, p: seq<nat>, u: nat)
    requires ValidGraph(t) && MapsInto(t, p) && u < |t|
    ensures p[u] < |t| && |t[u]| <= |t[p[u]]| && Image(p, t[u]) <= t[p[u]] && |Image(p, t[u])| == |t[u]|
  {
    ImageCard(|t|, p, t[u]);
    SubsetCard(Image(p, t[u]), t[p[u]]);
  }

  lemma {:induction false} EqualSums(s: set<nat>, f: nat -> int, h: nat -> int, x: nat)
    requires (forall y :: y in s ==> f(y) <= h(y)) && Sum(s, f) == Sum(s, h) && x in s
    ensures f(x) == h(x)
  {
    SumRemove(s, f, x);
    SumRemove(s, h, x);
    SumMonotone(s - {x}, f, h);
  }

  ghost function RowSize(t: Graph): nat -> int {
    (x: nat) => if x < |t| then |t[x]| else 0
  }

  ghost function ImageSize(t: Graph, p: seq<nat>): nat -> int {
    (x: nat) => if x < |p| then RowSize(t)(p[x]) else 0
  }

  lemma SizesSum(t: Graph, p: seq<nat>)
    requires Permutation(|t|, p)
    ensures Sum(Range(|t|), RowSize(t)) == Sum(Range(|t|), ImageSize(t, p))
  {
    SumImage(|t|, p, Range(|t|), ImageSize(t, p), RowSize(t));
    ImageOfRange(|t|, p);
  }

  lemma RowSizes(t: Graph, p: seq<nat>, x: nat)
    requires ValidGraph(t) && MapsInto(t, p)
    ensures x in Range(|t|) <==> x < |t|
    ensures x < |t| ==> x < |p| && p[x] < |t| && RowSize(t)(x) == |t[x]| && ImageSize(t, p)(x) == |t[p[x]]|
    ensures x < |t| ==> |t[x]| <= |t[p[x]]|
  {
    if x < |t| { RowGrows(t, p, x); }
  }

  lemma RowsEqual(t: Graph, p: seq<nat>, u: nat)
    requires ValidGraph(t) && MapsInto(t, p) && u < |t|
    ensures p[u] < |t| && |t[u]| == |t[p[u]]|
  {
    SizesSum(t, p);
    hide *;
    forall x | x in Range(|t|) ensures RowSize(t)(x) <= ImageSize(t, p)(x) {
      RowSizes(t, p, x);
    }
    RowSizes(t, p, u);
    EqualSums(Range(|t|), RowSize(t), ImageSize(t, p), u);
  }

  // Nothing is lost on the way: mapping all arcs to arcs is enough.
  lemma ForwardIsEnough(t: Graph, p: seq<nat>)
    requires ValidGraph(t) && MapsInto(t, p)
    ensures Automorphism(t, p)
  {
    forall u: nat, v: nat | u < |t| && v < |t| ensures v in t[u] <==> p[v] in t[p[u]] {
      RowsEqual(t, p, u);
      RowOnto(t, p, u, v);
    }
  }

  lemma RowOnto(t: Graph, p: seq<nat>, u: nat, v: nat)
    requires ValidGraph(t) && MapsInto(t, p) && u < |t| && v < |t|
    requires p[u] < |t| && |t[u]| == |t[p[u]]|
    ensures v in t[u] <==> p[v] in t[p[u]]
  {
    RowGrows(t, p, u);
    SubsetCard(Image(p, t[u]), t[p[u]]);
    if p[v] in t[p[u]] {
      assert p[v] in Image(p, t[u]);
      var w: nat :| w in t[u] && p[w] == p[v];
      assert w == v;
    }
  }

  ghost function WithoutLoops(g: Graph): (t: Graph)
    ensures |t| == |g|
  {
    seq(|g|, u requires 0 <= u < |g| => g[u] - {u})
  }

  // The part of the test that concerns row i, up to position upto.
  ghost predicate RowTested(g: Graph, p: seq<nat>, digraph: bool, i: nat, upto: int) {
    && i < |g| == |p| && p[i] < |g|
    && forall v: nat :: v in g[i] && v < |p| && (digraph || i < v) && v <= upto ==> p[v] in g[p[i]]
  }

  // perm is an automorphism? For an undirected graph only the arcs to greater vertices are tried.
  method IsAutom(g: Graph, perm: seq<nat>, digraph: bool) returns (answer: bool)
    requires ValidGraph(g) && Permutation(|g|, perm)
    ensures digraph ==> (answer <==> Automorphism(g, perm))
    ensures !digraph && Symmetric(g) ==> (answer <==> KeepsEdges(g, perm))
    ensures !digraph && Symmetric(g) ==>
      ((answer <==> Automorphism(g, perm)) <==> (KeepsEdges(g, perm) ==> KeepsLoops(g, perm)))
    ensures !digraph && Symmetric(g) && KeepsLoops(g, perm) ==> (answer <==> Automorphism(g, perm))
  {
    EdgesAndLoops(g, perm);
    ghost var n := |g|;
    for i := 0 to |g|
      invariant forall u: nat :: u < i ==> RowTested(g, perm, digraph, u, n)
    {
      var pos: int := if digraph then -1 else i;
      ghost var last := pos;
      pos := NextElement(g[i], pos, |g|);
      while pos >= 0
        invariant (if digraph then -1 else i) <= last < n
        invariant RowTested(g, perm, digraph, i, last)
        invariant pos == -1 ==> Exhausted(g[i], last)
        invariant pos != -1 ==> 0 <= pos < n && NextIs(g[i], last, pos)
        invariant pos >= -1
        decreases n - last
      {
        var posp := perm[pos];
        if posp !in g[perm[i]] {
          assert !KeepsArc(g, perm, i, pos);
          return false;
        }
        last := pos;
        pos := NextElement(g[i], pos, |g|);
      }
    }
    answer := true;
    if digraph {
      assert MapsInto(g, perm) by {
        forall u: nat, v: nat | u < n && v < n && v in g[u] ensures perm[v] in g[perm[u]] {
          assert RowTested(g, perm, digraph, u, n);
        }
      }
      ForwardIsEnough(g, perm);
    } else if Symmetric(g) {
      UpperIsEnough(g, perm);
    }
  }

  ghost predicate KeepsArc(g: Graph, p: seq<nat>, u: nat, v: nat) {
    u < |g| == |p| && v < |g| && p[u] < |g| && (v in g[u] <==> p[v] in g[p[u]])
  }

  lemma UpperIsEnough(g: Graph, p: seq<nat>)
    requires ValidGraph(g) && Permutation(|g|, p) && Symmetric(g)
    requires forall u: nat :: u < |g| ==> RowTested(g, p, false, u, |g|)
    ensures KeepsEdges(g, p)
  {
    var t := WithoutLoops(g);
    forall u: nat, v: nat | u < |t| && v < |t| && v in t[u] ensures p[v] in t[p[u]] {
      assert p[u] != p[v];
      if u < v {
        assert RowTested(g, p, false, u, |g|);
      } else {
        assert RowTested(g, p, false, v, |g|);
        assert p[u] in g[p[v]];
      }
    }
    ForwardIsEnough(t, p);
    forall u: nat, v: nat | u < |g| && v < |g| && u != v ensures v in g[u] <==> p[v] in g[p[u]] {
      assert v in t[u] <==> p[v] in t[p[u]];
      assert p[u] != p[v];
    }
  }

  // With a loop, the undirected test accepts a permutation that is no automorphism.
  lemma LoopsUnseen() returns (g: Graph, p: seq<nat>)
    ensures ValidGraph(g) && Symmetric(g) && KeepsEdges(g, p) && !Automorphism(g, p)
  {
    g, p := [{0}, {}], [1, 0];
    assert 0 in g[0] && p[0] !in g[p[0]];
  }
}
