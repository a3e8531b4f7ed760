// Graphs as rows of neighbour sets.
module Graphs {
  import opened Sums

  type Graph = seq<set<nat>>

  ghost predicate ValidGraph(g: Graph) {
    forall u, v :: 0 <= u < |g| && v in g[u] ==> v < |g|
  }

  ghost predicate Symmetric(g: Graph) {
    forall u: nat, v: nat :: u < |g| && v < |g| && v in g[u] ==> u in g[v]
  }

  ghost predicate Automorphism(g: Graph, p: seq<nat>) {
    && Permutation(|g|, p)
    && forall u: nat, v: nat :: u < |g| && v < |g| ==> (v in g[u] <==> p[v] in g[p[u]])
  }

  ghost predicate Automorphisms(g: Graph, perms: seq<seq<nat>>) {
    forall t :: 0 <= t < |perms| ==> Automorphism(g, perms[t])
  }
}
