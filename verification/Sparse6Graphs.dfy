// Building a graph from decoded edges, by adding them or by flipping them against a prior graph.
module Sparse6Graphs {
  import opened Sums
  import opened Graphs
  import opened Bits
  import opened Sparse6Spec

  ghost function Empty(n: nat): (g: Graph)
    ensures |g| == n && forall v :: 0 <= v < n ==> g[v] == {}
  {
    seq(n, _ => {})
  }

  ghost predicate InRange(es: seq<Edge>, n: nat) {
    forall e :: e in es ==> e.1 <= e.0 < n
  }

  ghost function AddEdge(g: Graph, e: Edge): (h: Graph)
    requires e.0 < |g| && e.1 < |g|
    ensures |h| == |g|
  {
    var h := g[e.0 := g[e.0] + {e.1}];
    h[e.1 := h[e.1] + {e.0}]
  }

  ghost function FlipEdge(g: Graph, e: Edge): (h: Graph)
    requires e.0 < |g| && e.1 < |g|
    ensures |h| == |g|
  {
    var h := g[e.0 := Flip(g[e.0], e.1)];
    if e.0 == e.1 then h else h[e.1 := Flip(h[e.1], e.0)]
  }

  ghost function AddAll(g: Graph, es: seq<Edge>): (h: Graph)
    requires InRange(es, |g|)
    ensures |h| == |g|
  {
    if es == [] then g
    else
      assert es[|es| - 1] in es && forall e :: e in es[..|es| - 1] ==> e in es;
      AddEdge(AddAll(g, es[..|es| - 1]), es[|es| - 1])
  }

  ghost function FlipAll(g: Graph, es: seq<Edge>): (h: Graph)
    requires InRange(es, |g|)
    ensures |h| == |g|
  {
    if es == [] then g
    else
      assert es[|es| - 1] in es && forall e :: e in es[..|es| - 1] ==> e in es;
      FlipEdge(FlipAll(g, es[..|es| - 1]), es[|es| - 1])
  }

  // The edge between u and v as the encoders write it.
  ghost function Pair(u: nat, v: nat): Edge {
    if u >= v then (u, v) else (v, u)
  }

  lemma InitOf(es: seq<Edge>, n: nat)
    requires es != [] && InRange(es, n)
    ensures InRange(es[..|es| - 1], n) && es[|es| - 1].1 <= es[|es| - 1].0 < n
    ensures forall x :: x in es <==> x in es[..|es| - 1] || x == es[|es| - 1]
  {
    assert es == es[..|es| - 1] + [es[|es| - 1]];
  }

  lemma AddEdgeHas(g: Graph, e: Edge, u: nat, v: nat)
    requires e.1 <= e.0 < |g| && u < |g|
    ensures v in AddEdge(g, e)[u] <==> v in g[u] || Pair(u, v) == e
  {
  }

  lemma FlipEdgeHas(g: Graph, e: Edge, u: nat, v: nat)
    requires e.1 <= e.0 < |g| && u < |g|
    ensures v in FlipEdge(g, e)[u] <==> (v in g[u]) != (Pair(u, v) == e)
  {
  }

  lemma {:induction false} AddAllHas(g: Graph, es: seq<Edge>, u: nat, v: nat)
    requires InRange(es, |g|) && u < |g|
    ensures v in AddAll(g, es)[u] <==> v in g[u] || Pair(u, v) in es
    decreases |es|
  {
    if es != [] {
      InitOf(es, |g|);
      AddAllHas(g, es[..|es| - 1], u, v);
      AddEdgeHas(AddAll(g, es[..|es| - 1]), es[|es| - 1], u, v);
    }
  }

  // How often an edge is listed.
  ghost function Times(es: seq<Edge>, e: Edge): nat {
    if es == [] then 0 else Times(es[..|es| - 1], e) + (if es[|es| - 1] == e then 1 else 0)
  }

  ghost predicate OddTimes(es: seq<Edge>, e: Edge) {
    Times(es, e) % 2 == 1
  }

  lemma {:induction false} ListedTimes(es: seq<Edge>, e: Edge)
    ensures e in es <==> Times(es, e) > 0
    ensures Distinct(es) ==> Times(es, e) <= 1
  {
    if es != [] {
      var init := es[..|es| - 1];
      ListedTimes(init, e);
      assert es == init + [es[|es| - 1]];
      assert Distinct(es) ==> Distinct(init) && es[|es| - 1] !in init;
    }
  }

  // Flipping leaves the edges that were listed an odd number of times.
  lemma {:induction false} FlipAllHas(g: Graph, es: seq<Edge>, u: nat, v: nat)
    requires InRange(es, |g|) && u < |g|
    ensures v in FlipAll(g, es)[u] <==> (v in g[u]) != OddTimes(es, Pair(u, v))
    decreases |es|
  {
    if es != [] {
      InitOf(es, |g|);
      FlipAllHas(g, es[..|es| - 1], u, v);
      FlipEdgeHas(FlipAll(g, es[..|es| - 1]), es[|es| - 1], u, v);
    }
  }

  // Adding the lower triangle of an undirected graph to nothing gives the graph.
  lemma AddLowerEdges(g: Graph)
    requires Undirected(g)
    ensures InRange(LowerEdges(g, |g|), |g|)
    ensures AddAll(Empty(|g|), LowerEdges(g, |g|)) == g
  {
    var es := LowerEdges(g, |g|);
    LowerEdgesListed(g, |g|);
    var h := AddAll(Empty(|g|), es);
    forall u | 0 <= u < |g| ensures h[u] == g[u] {
      forall v: nat ensures v in h[u] <==> v in g[u] {
        AddAllHas(Empty(|g|), es, u, v);
        LowerEdgesHas(g, |g|, Pair(u, v));
      }
    }
  }

  // Row by row symmetric difference.
  ghost function Difference(g: Graph, prev: Graph): (d: Graph)
    requires |prev| == |g|
    ensures |d| == |g|
  {
    seq(|g|, u requires 0 <= u < |g| => (g[u] - prev[u]) + (prev[u] - g[u]))
  }

  lemma DifferenceListed(g: Graph, prev: Graph, u: nat, v: nat)
    requires Undirected(g) && Undirected(prev) && |prev| == |g| && u < |g|
    ensures OddTimes(LowerEdges(Difference(g, prev), |g|), Pair(u, v)) <==> (v in g[u]) != (v in prev[u])
  {
    var d := Difference(g, prev);
    LowerEdgesListed(d, |g|);
    ListedTimes(LowerEdges(d, |g|), Pair(u, v));
    LowerEdgesHas(d, |g|, Pair(u, v));
  }

  // Flipping the differences turns the prior graph into the graph.
  lemma FlipDifference(g: Graph, prev: Graph)
    requires Undirected(g) && Undirected(prev) && |prev| == |g|
    ensures InRange(LowerEdges(Difference(g, prev), |g|), |g|)
    ensures FlipAll(prev, LowerEdges(Difference(g, prev), |g|)) == g
  {
    var d := Difference(g, prev);
    var es := LowerEdges(d, |g|);
    LowerEdgesListed(d, |g|);
    var h := FlipAll(prev, es);
    forall u | 0 <= u < |g| ensures h[u] == g[u] {
      forall v: nat ensures v in h[u] <==> v in g[u] {
        FlipAllHas(prev, es, u, v);
        DifferenceListed(g, prev, u, v);
      }
    }
  }

  // Main theorem: flipping the edges of a list into an empty graph is adding them exactly when every
  // listed edge is listed an odd number of times.
  lemma FlipIsAdd(n: nat, es: seq<Edge>)
    requires InRange(es, n)
    ensures FlipAll(Empty(n), es) == AddAll(Empty(n), es) <==> forall e :: e in es ==> OddTimes(es, e)
  {
    if forall e :: e in es ==> OddTimes(es, e) {
      forall u | 0 <= u < n ensures FlipAll(Empty(n), es)[u] == AddAll(Empty(n), es)[u] {
        forall v: nat ensures v in FlipAll(Empty(n), es)[u] <==> v in AddAll(Empty(n), es)[u] {
          FlipAllHas(Empty(n), es, u, v);
          AddAllHas(Empty(n), es, u, v);
          ListedTimes(es, Pair(u, v));
        }
      }
    } else {
      var e :| e in es && !OddTimes(es, e);
      FlipAllHas(Empty(n), es, e.0, e.1);
      AddAllHas(Empty(n), es, e.0, e.1);
    }
  }

  lemma DistinctOdd(es: seq<Edge>)
    requires Distinct(es)
    ensures forall e :: e in es ==> OddTimes(es, e)
  {
    forall e | e in es ensures OddTimes(es, e) {
      ListedTimes(es, e);
    }
  }

  // Whatever the bits are, decoded edges stay inside the graph.
  lemma {:induction false} DecodedInRange(b: seq<bool>, v: nat, nb: nat, n: nat)
    ensures InRange(DecodeBits(b, v, nb, n), n)
    decreases |b|
  {
    if |b| >= nb + 1 {
      var v1 := if b[0] then v + 1 else v;
      var j := Value(b[1..nb + 1]);
      DecodedInRange(b[nb + 1..], if j > v1 then j else v1, nb, n);
    }
  }

  // Main theorem, at the level of bits: writing, padding and reading gives the edges back.
  lemma EdgesRoundTrip(es: seq<Edge>, n: nat, nb: nat, pad: seq<bool>)
    requires Listed(es, n) && n <= Pow2(nb) && 0 < n
    requires pad == [] || pad == Padding(|pad|, LastRow(es), n, nb)
    ensures DecodeBits(EncodeBits(es, nb) + pad, 0, nb, n) == es
  {
    ReadEdges(es, pad, nb, n);
    if es != [] { assert es[|es| - 1] in es; }
    if pad != [] { PaddingReadsNothing(|pad|, LastRow(es), n, nb); }
    assert es + [] == es;
  }
}
