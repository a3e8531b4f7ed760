// Orbits of a group on the arcs of a graph, joined generator by generator.
module ArcOrbits {
  import opened Sums
  import opened Graphs
  import opened Rows
  import opened Orbits
  import opened GroupOrbits
  import opened Cycles

  type Arc = (nat, nat)

  predicate Before(a: Arc, b: Arc) {
    a.0 < b.0 || (a.0 == b.0 && a.1 < b.1)
  }

  ghost predicate Sorted(arcs: seq<Arc>) {
    forall i, j :: 0 <= i < j < |arcs| ==> Before(arcs[i], arcs[j])
  }

  ghost predicate IsArc(g: Graph, a: Arc) {
    a.0 < |g| && a.1 in g[a.0]
  }

  // All arcs of the graph, in order.
  ghost predicate ArcList(g: Graph, arcs: seq<Arc>) {
    Sorted(arcs) && forall a: Arc :: a in arcs <==> IsArc(g, a)
  }

  // ----- finding an arc -----

  method FindArc(a: seq<Arc>, from: nat, to: nat) returns (mid: nat)
    requires Sorted(a) && (from, to) in a
    ensures mid < |a| && a[mid] == (from, to)
  {
    var lo, hi := 0, |a| - 1;
    ghost var at :| 0 <= at < |a| && a[at] == (from, to);
    while true
      invariant 0 <= lo <= at <= hi < |a|
      decreases hi - lo
    {
      mid := lo + (hi - lo) / 2;
      if a[mid].0 == from {
        if a[mid].1 == to {
          return;
        } else if a[mid].1 > to {
          hi := mid - 1;
        } else {
          lo := mid + 1;
        }
      } else if a[mid].0 > from {
        hi := mid - 1;
      } else {
        lo := mid + 1;
      }
    }
  }

  ghost function Index(arcs: seq<Arc>, a: Arc): (i: nat)
    requires a in arcs
    ensures i < |arcs| && arcs[i] == a
  {
    var i: nat :| i < |arcs| && arcs[i] == a;
    i
  }

  lemma IndexUnique(arcs: seq<Arc>, i: nat)
    requires Sorted(arcs) && i < |arcs|
    ensures Index(arcs, arcs[i]) == i
  {
  }

  // ----- a vertex permutation on the arcs -----

  ghost function Image2(p: seq<nat>, a: Arc): Arc
    requires a.0 < |p| && a.1 < |p|
  {
    (p[a.0], p[a.1])
  }

  ghost predicate Closed(arcs: seq<Arc>, p: seq<nat>) {
    forall i :: 0 <= i < |arcs| ==> arcs[i].0 < |p| && arcs[i].1 < |p| && Image2(p, arcs[i]) in arcs
  }

  ghost function ArcMap(arcs: seq<Arc>, p: seq<nat>): (m: seq<nat>)
    requires Closed(arcs, p)
    ensures |m| == |arcs|
  {
    seq(|arcs|, i requires 0 <= i < |arcs| => Index(arcs, Image2(p, arcs[i])))
  }

  lemma AutomorphismCloses(g: Graph, arcs: seq<Arc>, p: seq<nat>)
    requires ValidGraph(g) && ArcList(g, arcs) && Automorphism(g, p)
    ensures Closed(arcs, p)
  {
    forall i | 0 <= i < |arcs| ensures arcs[i].0 < |p| && arcs[i].1 < |p| && Image2(p, arcs[i]) in arcs {
      assert arcs[i] in arcs && IsArc(g, arcs[i]);
      assert IsArc(g, Image2(p, arcs[i]));
    }
  }

  lemma ArcMapPermutes(n: nat, arcs: seq<Arc>, p: seq<nat>)
    requires Sorted(arcs) && Permutation(n, p) && Closed(arcs, p)
    ensures Permutation(|arcs|, ArcMap(arcs, p))
  {
    var m := ArcMap(arcs, p);
    forall i: nat, j: nat | i < j < |arcs| ensures m[i] != m[j] {
      assert arcs[m[i]] == Image2(p, arcs[i]) && arcs[m[j]] == Image2(p, arcs[j]);
      assert Before(arcs[i], arcs[j]);
    }
  }

  // ----- several vertex permutations on the arcs -----

  ghost predicate AllClosed(arcs: seq<Arc>, perms: seq<seq<nat>>) {
    forall t :: 0 <= t < |perms| ==> Closed(arcs, perms[t])
  }

  ghost function ArcMaps(arcs: seq<Arc>, perms: seq<seq<nat>>): (maps: seq<seq<nat>>)
    requires AllClosed(arcs, perms)
    ensures |maps| == |perms|
  {
    seq(|perms|, t requires 0 <= t < |perms| => ArcMap(arcs, perms[t]))
  }

  lemma ArcMapsPermute(g: Graph, arcs: seq<Arc>, perms: seq<seq<nat>>)
    requires ValidGraph(g) && ArcList(g, arcs) && Automorphisms(g, perms)
    ensures Permutations(perms, |g|) && AllClosed(arcs, perms) && Permutations(ArcMaps(arcs, perms), |arcs|)
  {
    forall t | 0 <= t < |perms| ensures Closed(arcs, perms[t]) && Permutation(|arcs|, ArcMap(arcs, perms[t])) {
      AutomorphismCloses(g, arcs, perms[t]);
      ArcMapPermutes(|g|, arcs, perms[t]);
    }
  }

  ghost predicate EndsBelow(arcs: seq<Arc>, n: nat) {
    forall i :: 0 <= i < |arcs| ==> arcs[i].0 < n && arcs[i].1 < n
  }

  lemma ArcEnds(g: Graph, arcs: seq<Arc>)
    requires ValidGraph(g) && ArcList(g, arcs)
    ensures EndsBelow(arcs, |g|)
  {
    forall i | 0 <= i < |arcs| ensures arcs[i].0 < |g| && arcs[i].1 < |g| {
      assert arcs[i] in arcs;
    }
  }

  // Vertex permutations and the permutations of the arcs they induce.
  ghost predicate Induced(n: nat, arcs: seq<Arc>, perms: seq<seq<nat>>) {
    && Sorted(arcs) && EndsBelow(arcs, n) && Permutations(perms, n) && AllClosed(arcs, perms)
    && Permutations(ArcMaps(arcs, perms), |arcs|)
  }

  lemma PreimageUnique(n: nat, p: seq<nat>, x: nat)
    requires Permutation(n, p) && x < n
    ensures p[x] < n && Preimage(n, p, p[x]) == x
  {
    var z := Preimage(n, p, p[x]);
  }

  lemma InverseOnArc(n: nat, arcs: seq<Arc>, p: seq<nat>, i: nat)
    requires EndsBelow(arcs, n) && Permutation(n, p) && Closed(arcs, p) && i < |arcs|
    requires Permutation(|arcs|, ArcMap(arcs, p))
    ensures arcs[Preimage(|arcs|, ArcMap(arcs, p), i)] == (Preimage(n, p, arcs[i].0), Preimage(n, p, arcs[i].1))
  {
    assert |p| == n;
    hide Permutation, Closed;
    var z := Preimage(|arcs|, ArcMap(arcs, p), i);
    assert arcs[i] == Image2(p, arcs[z]);
    PreimageUnique(n, p, arcs[z].0);
    PreimageUnique(n, p, arcs[z].1);
  }

  lemma LetterOnArcs(n: nat, arcs: seq<Arc>, perms: seq<seq<nat>>, l: (nat, bool), i: nat)
    requires Induced(n, arcs, perms) && l.0 < |perms| && i < |arcs|
    ensures arcs[Letter(ArcMaps(arcs, perms), |arcs|, l, i)]
         == (Letter(perms, n, l, arcs[i].0), Letter(perms, n, l, arcs[i].1))
  {
    var p, m := perms[l.0], ArcMap(arcs, perms[l.0]);
    assert Closed(arcs, p) && ArcMaps(arcs, perms)[l.0] == m && Permutation(n, p) && Permutation(|arcs|, m);
    hide Permutation, Closed, Sorted, Permutations, AllClosed;
    if l.1 { InverseOnArc(n, arcs, p, i); }
  }

  // A word moves an arc by moving both of its ends.
  lemma {:induction false} WordOnArcs(n: nat, arcs: seq<Arc>, perms: seq<seq<nat>>, w: Word, i: nat)
    requires Induced(n, arcs, perms) && WordOk(w, |perms|) && i < |arcs|
    ensures arcs[Act(ArcMaps(arcs, perms), |arcs|, w, i)] == (Act(perms, n, w, arcs[i].0), Act(perms, n, w, arcs[i].1))
    decreases |w|
  {
    if w != [] {
      WordOnArcs(n, arcs, perms, w[..|w| - 1], i);
      LetterOnArcs(n, arcs, perms, w[|w| - 1], Act(ArcMaps(arcs, perms), |arcs|, w[..|w| - 1], i));
    }
  }

  ghost predicate MovesArc(perms: seq<seq<nat>>, n: nat, w: Word, a: Arc, b: Arc)
    requires Permutations(perms, n)
  {
    && a.0 < n && a.1 < n && WordOk(w, |perms|)
    && Act(perms, n, w, a.0) == b.0 && Act(perms, n, w, a.1) == b.1
  }

  // Some element of the group generated by perms takes arc a to arc b.
  ghost predicate SameArcOrbit(perms: seq<seq<nat>>, n: nat, a: Arc, b: Arc)
    requires Permutations(perms, n)
  {
    exists w: Word :: MovesArc(perms, n, w, a, b)
  }

  lemma OrbitOfIndex(n: nat, arcs: seq<Arc>, perms: seq<seq<nat>>, i: nat, j: nat)
    requires Induced(n, arcs, perms) && i < |arcs| && j < |arcs|
    ensures SameOrbit(ArcMaps(arcs, perms), |arcs|, i, j) <==> SameArcOrbit(perms, n, arcs[i], arcs[j])
  {
    var maps := ArcMaps(arcs, perms);
    if SameOrbit(maps, |arcs|, i, j) {
      var w: Word :| WordOk(w, |maps|) && Act(maps, |arcs|, w, i) == j;
      WordOnArcs(n, arcs, perms, w, i);
      assert MovesArc(perms, n, w, arcs[i], arcs[j]);
    }
    if SameArcOrbit(perms, n, arcs[i], arcs[j]) {
      var w: Word :| MovesArc(perms, n, w, arcs[i], arcs[j]);
      WordOnArcs(n, arcs, perms, w, i);
      assert Act(maps, |arcs|, w, i) == j;
    }
  }

  // Main theorem: the labels of two arcs agree exactly when the group takes one to the other.
  ghost predicate OrbitsOf(arcs: seq<Arc>, perms: seq<seq<nat>>, n: nat, o: seq<nat>) {
    && Permutations(perms, n) && |o| == |arcs| && Canonical(o)
    && forall i, j :: 0 <= i < |arcs| && 0 <= j < |arcs| ==>
        (o[i] == o[j] <==> SameArcOrbit(perms, n, arcs[i], arcs[j]))
  }

  lemma LabelsAreArcOrbits(g: Graph, arcs: seq<Arc>, perms: seq<seq<nat>>, parts: seq<seq<nat>>)
    requires ValidGraph(g) && ArcList(g, arcs) && Automorphisms(g, perms) && |perms| > 0
    requires AllClosed(arcs, perms) && JoinedInTurn(parts, ArcMaps(arcs, perms), |arcs|)
    ensures OrbitsOf(arcs, perms, |g|, parts[|perms|])
  {
    ArcMapsPermute(g, arcs, perms);
    ArcEnds(g, arcs);
    var maps, o := ArcMaps(arcs, perms), parts[|perms|];
    assert Joins(parts[|perms| - 1], maps[|perms| - 1], parts[|perms| - 1 + 1]);
    CellsWithinOrbits(parts, maps, |arcs|, |perms|);
    forall i: nat, j: nat | i < |arcs| && j < |arcs|
      ensures o[i] == o[j] <==> SameArcOrbit(perms, |g|, arcs[i], arcs[j])
    {
      JoinedCellsAreOrbits(parts, maps, |arcs|, i, j);
      OrbitOfIndex(|g|, arcs, perms, i, j);
    }
  }

  // ----- from arcs to edges -----

  ghost predicate ReversesIn(arcs: seq<Arc>) {
    forall i :: 0 <= i < |arcs| ==> (arcs[i].1, arcs[i].0) in arcs
  }

  ghost function Reverse(arcs: seq<Arc>): (m: seq<nat>)
    requires ReversesIn(arcs)
    ensures |m| == |arcs|
  {
    seq(|arcs|, i requires 0 <= i < |arcs| => Index(arcs, (arcs[i].1, arcs[i].0)))
  }

  lemma SymmetricReverses(g: Graph, arcs: seq<Arc>)
    requires ValidGraph(g) && Symmetric(g) && ArcList(g, arcs)
    ensures ReversesIn(arcs)
  {
    forall i | 0 <= i < |arcs| ensures (arcs[i].1, arcs[i].0) in arcs {
      assert arcs[i] in arcs && IsArc(g, arcs[i]);
      assert IsArc(g, (arcs[i].1, arcs[i].0));
    }
  }

  // Some element of the group takes the edge {a.0, a.1} to the edge {b.0, b.1}.
  ghost predicate SameEdgeOrbit(perms: seq<seq<nat>>, n: nat, a: Arc, b: Arc)
    requires Permutations(perms, n)
  {
    SameArcOrbit(perms, n, a, b) || SameArcOrbit(perms, n, a, (b.1, b.0))
  }

  lemma FlipBoth(perms: seq<seq<nat>>, n: nat, a: Arc, b: Arc)
    requires Permutations(perms, n) && SameArcOrbit(perms, n, a, b)
    ensures SameArcOrbit(perms, n, (a.1, a.0), (b.1, b.0))
  {
    var w: Word :| MovesArc(perms, n, w, a, b);
    assert MovesArc(perms, n, w, (a.1, a.0), (b.1, b.0));
  }

  lemma ArcOrbitBack(perms: seq<seq<nat>>, n: nat, a: Arc, b: Arc)
    requires Permutations(perms, n) && SameArcOrbit(perms, n, a, b)
    ensures SameArcOrbit(perms, n, b, a)
  {
    var w: Word :| MovesArc(perms, n, w, a, b);
    var back := UndoAll(perms, n, w);
    assert MovesArc(perms, n, back, b, a);
  }

  lemma ArcOrbitChain(perms: seq<seq<nat>>, n: nat, a: Arc, b: Arc, c: Arc)
    requires Permutations(perms, n) && SameArcOrbit(perms, n, a, b) && SameArcOrbit(perms, n, b, c)
    ensures SameArcOrbit(perms, n, a, c)
  {
    var v: Word :| MovesArc(perms, n, v, a, b);
    var w: Word :| MovesArc(perms, n, w, b, c);
    ActAppend(perms, n, v, w, a.0);
    ActAppend(perms, n, v, w, a.1);
    assert MovesArc(perms, n, v + w, a, c);
  }

  ghost predicate EdgeOrbitsOf(arcs: seq<Arc>, perms: seq<seq<nat>>, n: nat, o: seq<nat>) {
    && Permutations(perms, n) && |o| == |arcs| && Canonical(o)
    && forall i, j :: 0 <= i < |arcs| && 0 <= j < |arcs| ==>
        (o[i] == o[j] <==> SameEdgeOrbit(perms, n, arcs[i], arcs[j]))
  }

  ghost function EdgeRelation(arcs: seq<Arc>, perms: seq<seq<nat>>, n: nat): Relation
    requires Permutations(perms, n)
  {
    (x: nat, y: nat) => x < |arcs| && y < |arcs| && SameEdgeOrbit(perms, n, arcs[x], arcs[y])
  }

  lemma EdgeEquivalence(arcs: seq<Arc>, perms: seq<seq<nat>>, n: nat, o: seq<nat>)
    requires OrbitsOf(arcs, perms, n, o)
    ensures Equivalence(EdgeRelation(arcs, perms, n), |arcs|)
  {
    hide Canonical;
    forall x: nat, y: nat | x < |arcs| && y < |arcs| && SameEdgeOrbit(perms, n, arcs[x], arcs[y])
      ensures SameEdgeOrbit(perms, n, arcs[y], arcs[x])
    {
      EdgeBack(perms, n, arcs[x], arcs[y]);
    }
    forall x: nat, y: nat, z: nat | x < |arcs| && y < |arcs| && z < |arcs|
        && SameEdgeOrbit(perms, n, arcs[x], arcs[y]) && SameEdgeOrbit(perms, n, arcs[y], arcs[z])
      ensures SameEdgeOrbit(perms, n, arcs[x], arcs[z])
    {
      EdgeChain(perms, n, arcs[x], arcs[y], arcs[z]);
    }
    forall x: nat | x < |arcs| ensures SameEdgeOrbit(perms, n, arcs[x], arcs[x]) {
      assert o[x] == o[x];
    }
  }

  lemma EdgeBack(perms: seq<seq<nat>>, n: nat, a: Arc, b: Arc)
    requires Permutations(perms, n) && SameEdgeOrbit(perms, n, a, b)
    ensures SameEdgeOrbit(perms, n, b, a)
  {
    hide SameArcOrbit;
    if SameArcOrbit(perms, n, a, b) {
      ArcOrbitBack(perms, n, a, b);
    } else {
      ArcOrbitBack(perms, n, a, (b.1, b.0));
      FlipBoth(perms, n, (b.1, b.0), a);
    }
  }

  lemma EdgeChain(perms: seq<seq<nat>>, n: nat, a: Arc, b: Arc, c: Arc)
    requires Permutations(perms, n) && SameEdgeOrbit(perms, n, a, b) && SameEdgeOrbit(perms, n, b, c)
    ensures SameEdgeOrbit(perms, n, a, c)
  {
    hide SameArcOrbit;
    var b2, c2 := (b.1, b.0), (c.1, c.0);
    if SameArcOrbit(perms, n, b, c) { FlipBoth(perms, n, b, c); } else { FlipBoth(perms, n, b, c2); }
    var mid := if SameArcOrbit(perms, n, a, b) then b else b2;
    var end := if SameArcOrbit(perms, n, mid, c) then c else c2;
    ArcOrbitChain(perms, n, a, mid, end);
  }

  lemma EdgesJoined(arcs: seq<Arc>, perms: seq<seq<nat>>, n: nat, o: seq<nat>, r: seq<nat>)
    requires OrbitsOf(arcs, perms, n, o) && ReversesIn(arcs) && Sorted(arcs) && Joins(o, Reverse(arcs), r)
    ensures EdgeOrbitsOf(arcs, perms, n, r)
  {
    EdgeEquivalence(arcs, perms, n, o);
    var e, m := EdgeRelation(arcs, perms, n), Reverse(arcs);
    EdgeAdmits(arcs, perms, n, o);
    forall i: nat, j: nat | i < |arcs| && j < |arcs|
      ensures r[i] == r[j] <==> SameEdgeOrbit(perms, n, arcs[i], arcs[j])
    {
      if r[i] == r[j] {
        assert e(i, r[i]) && e(j, r[j]) && e(r[j], j) && e(i, j);
      }
      if SameArcOrbit(perms, n, arcs[i], arcs[j]) {
        assert o[i] == o[j] && r[i] == r[o[i]] && r[j] == r[o[j]];
      }
      if SameArcOrbit(perms, n, arcs[i], (arcs[j].1, arcs[j].0)) {
        assert o[i] == o[m[j]] && r[i] == r[o[i]] && r[m[j]] == r[o[m[j]]];
      }
    }
  }

  lemma EdgeAdmits(arcs: seq<Arc>, perms: seq<seq<nat>>, n: nat, o: seq<nat>)
    requires OrbitsOf(arcs, perms, n, o) && ReversesIn(arcs) && MapInto(Reverse(arcs), |o|)
    requires Equivalence(EdgeRelation(arcs, perms, n), |arcs|)
    ensures Admits(EdgeRelation(arcs, perms, n), o, Reverse(arcs))
  {
    var e, m := EdgeRelation(arcs, perms, n), Reverse(arcs);
    forall i: nat | i < |o| ensures e(i, o[i]) && e(i, m[i]) {
      assert o[i] == o[o[i]];
      assert o[i] == o[i];
      assert SameArcOrbit(perms, n, arcs[i], arcs[i]);
      var b := arcs[m[i]];
      assert (b.1, b.0) == arcs[i];
    }
  }

  // Walking the arcs in order, an arc that runs downwards finds its cells already joined.
  lemma ReverseSeen(arcs: seq<Arc>, o: seq<nat>, o0: seq<nat>, i: nat)
    requires Sorted(arcs) && ReversesIn(arcs) && Growing(o0, Reverse(arcs), o, i)
    requires i < |arcs| && |o0| == |arcs| && arcs[i].0 >= arcs[i].1
    ensures Root(o, Reverse(arcs)[i]) == Root(o, i)
  {
    var m := Reverse(arcs);
    if arcs[i].0 > arcs[i].1 {
      var j := m[i];
      assert arcs[j] == (arcs[i].1, arcs[i].0);
      assert j < i;
      assert arcs[m[j]] == arcs[i];
      assert m[j] == i by { IndexUnique(arcs, i); IndexUnique(arcs, m[j]); }
    } else {
      IndexUnique(arcs, i);
    }
  }

  // ----- the operations on the stored table -----

  lemma ArcParts(g: Graph, arcs: seq<Arc>, p: seq<nat>)
    requires ArcList(g, arcs) && EndsBelow(arcs, |g|) && Automorphism(g, p) && Closed(arcs, p)
    ensures Sorted(arcs) && |ArcMap(arcs, p)| == |arcs| && MapInto(ArcMap(arcs, p), |arcs|)
  {
  }

  class ArcTable {
    var g: Graph
    var arclist: seq<Arc>
    var arcorbits: array<nat>
    var numarcorbits: nat
    // The generators joined so far, and the partitions that they led to.
    ghost var gens: seq<seq<nat>>
    ghost var parts: seq<seq<nat>>

    ghost predicate Valid() reads this, arcorbits {
      && ValidGraph(g) && ArcList(g, arclist) && Automorphisms(g, gens) && |gens| > 0
      && AllClosed(arclist, gens) && JoinedInTurn(parts, ArcMaps(arclist, gens), |arclist|)
      && arcorbits[..] == parts[|gens|] && numarcorbits == |Cells(arcorbits[..])|
    }

    // List the arcs in order.
    method ListArcs()
      requires ValidGraph(g)
      modifies this`arclist
      ensures ArcList(g, arclist)
      ensures forall k, l :: 0 <= k < l < |arclist| ==>
        arclist[k].0 < arclist[l].0 || (arclist[k].0 == arclist[l].0 && arclist[k].1 < arclist[l].1)
    {
      arclist := [];
      for ii := 0 to |g|
        invariant ArcsUpTo(g, arclist, ii, -1)
      {
        var jj := NextElement(g[ii], -1, |g|);
        ghost var last: int := -1;
        while jj >= 0
          invariant -1 <= last < |g| && ArcsUpTo(g, arclist, ii, last)
          invariant jj == -1 ==> Exhausted(g[ii], last)
          invariant jj != -1 ==> 0 <= jj < |g| && NextIs(g[ii], last, jj)
          decreases |g| - last
        {
          ArcsNext(g, arclist, ii, last, jj);
          arclist := arclist + [(ii, jj)];
          last := jj;
          jj := NextElement(g[ii], jj, |g|);
        }
        ArcsRowDone(g, arclist, ii, last);
      }
    }

    // Label the whole cycle of arc i.
    method LabelCycle(p: seq<nat>, i: nat) returns (ghost c: seq<nat>)
      requires Sorted(arclist) && Closed(arclist, p) && Permutation(|arclist|, ArcMap(arclist, p))
      requires arcorbits.Length == |arclist| && i < |arclist|
      modifies arcorbits
      ensures Walk(ArcMap(arclist, p), c, i) && c != [] && c[|c| - 1] == i && i in c
      ensures Labelled(old(arcorbits[..]), arcorbits[..], c, i)
    {
      hide *;
      ghost var m, before := ArcMap(arclist, p), arcorbits[..];
      var pi := NextArc(p, i);
      arcorbits[pi] := i;
      c := [pi];
      FirstStep(m, i, pi, before, arcorbits[..]);
      while pi != i
        invariant pi < arcorbits.Length && Walk(m, c, i) && c[|c| - 1] == pi
        invariant Labelled(before, arcorbits[..], c, i)
        decreases |m| - |c|
      {
        WalkOn(m, c, i);
        WalkLast(m, c, i);
        pi := NextArc(p, pi);
        ghost var now := arcorbits[..];
        arcorbits[pi] := i;
        LabelledOn(before, now, arcorbits[..], c, i, pi);
        c := c + [pi];
      }
      assert c[|c| - 1] in c;
    }

    // The arc that p takes arc i to.
    method NextArc(p: seq<nat>, i: nat) returns (pi: nat)
      requires Sorted(arclist) && Closed(arclist, p) && i < |arclist|
      ensures pi < |arclist| && pi == ArcMap(arclist, p)[i]
    {
      pi := FindArc(arclist, p[arclist[i].0], p[arclist[i].1]);
      IndexUnique(arclist, pi);
    }

    // Label the cycle of the first unlabelled arc.
    method NewCycle(p: seq<nat>, i: nat, ghost done: set<nat>, ghost roots: set<nat>) returns (ghost done1: set<nat>)
      requires Sorted(arclist) && Closed(arclist, p) && Permutation(|arclist|, ArcMap(arclist, p))
      requires arcorbits.Length == |arclist| && i < |arclist| && i !in done
      requires CyclesDone(ArcMap(arclist, p), arcorbits[..], done, i)
      requires LabelsRelated(ArcMap(arclist, p), arcorbits[..], done) && RootsBelow(arcorbits[..], roots, i)
      modifies arcorbits
      ensures CyclesDone(ArcMap(arclist, p), arcorbits[..], done1, i + 1)
      ensures LabelsRelated(ArcMap(arclist, p), arcorbits[..], done1)
      ensures i !in roots && RootsBelow(arcorbits[..], roots + {i}, i + 1)
    {
      hide *;
      ghost var m, before := ArcMap(arclist, p), arcorbits[..];
      ghost var c := LabelCycle(p, i);
      CycleApart(m, before, done, c, i);
      CycleAdded(m, before, arcorbits[..], done, c, i);
      CycleRelated(m, before, arcorbits[..], done, c, i);
      RootAdded(before, arcorbits[..], c, i, roots);
      done1 := done + Elems(c);
    }

    // The first generator: label every arc by the least arc of its cycle.
    method FirstGenerator(p: seq<nat>) returns (count: nat)
      requires Sorted(arclist) && Closed(arclist, p) && Permutation(|arclist|, ArcMap(arclist, p))
      requires arcorbits.Length == |arclist| && Fresh(arcorbits[..])
      modifies arcorbits
      ensures Joins(old(arcorbits[..]), ArcMap(arclist, p), arcorbits[..])
      ensures count == |Cells(arcorbits[..])|
    {
      hide *;
      ghost var m, id := ArcMap(arclist, p), arcorbits[..];
      count := 0;
      ghost var done: set<nat>, roots: set<nat> := {}, {};
      CyclesStart(m, id);
      for i := 0 to arcorbits.Length
        invariant CyclesDone(m, arcorbits[..], done, i) && LabelsRelated(m, arcorbits[..], done)
        invariant count == |roots| && RootsBelow(arcorbits[..], roots, i)
      {
        CyclesSkip(m, arcorbits[..], done, i);
        if arcorbits[i] == i {
          count := count + 1;
          done := NewCycle(p, i, done, roots);
          roots := roots + {i};
        } else {
          RootsSkip(arcorbits[..], roots, i);
        }
      }
      CyclesJoin(m, id, arcorbits[..], done);
      AllRoots(arcorbits[..], roots);
    }

    // A later generator: join the cell of every arc with the cell of its image.
    method NextGenerator(p: seq<nat>)
      requires ValidGraph(g) && ArcList(g, arclist) && Automorphism(g, p) && Closed(arclist, p)
      requires arcorbits.Length == |arclist| && Forest(arcorbits[..])
      modifies this`numarcorbits, arcorbits
      ensures Joins(old(arcorbits[..]), ArcMap(arclist, p), arcorbits[..])
      ensures numarcorbits == |Cells(arcorbits[..])|
    {
      hide *;
      ghost var m, o0 := ArcMap(arclist, p), arcorbits[..];
      ArcEnds(g, arclist);
      ArcParts(g, arclist, p);
      GrowingStart(o0, m);
      for i := 0 to arcorbits.Length
        invariant Growing(o0, m, arcorbits[..], i)
      {
        GrowingParts(o0, m, arcorbits[..], i);
        var pi := NextArc(p, i);
        GrowingStep(o0, m, arcorbits[..], i);
        if pi != i {
          JoinCells(arcorbits, i, pi);
        } else {
          LinkedSame(arcorbits[..], Root(arcorbits[..], i));
        }
      }
      ghost var o := arcorbits[..];
      GrowingParts(o0, m, o, arcorbits.Length);
      numarcorbits := Compress(arcorbits);
      CompressedJoins(o0, m, o, arcorbits[..]);
    }

    // Take in the generator number ngens. The labels then give the orbits of the group
    // generated so far.
    method ArcOrbitJoin(ngens: nat, p: seq<nat>)
      requires ValidGraph(g) && Automorphism(g, p)
      requires ngens != 1 ==> Valid()
      modifies this`arclist, this`arcorbits, this`numarcorbits, this`gens, this`parts, arcorbits
      ensures Valid() && gens == if ngens == 1 then [p] else old(gens) + [p]
      ensures ngens == 1 ==> fresh(arcorbits)
      ensures ngens != 1 ==> arclist == old(arclist) && arcorbits == old(arcorbits)
      ensures OrbitsOf(arclist, gens, |g|, arcorbits[..])
      ensures numarcorbits == |Cells(arcorbits[..])|
    {
      hide Joins, Permutation, Sorted, Forest, JoinedInTurn, Closed, Fresh;
      if ngens == 1 {
        ListArcs();
        AutomorphismCloses(g, arclist, p);
        arcorbits := new nat[|arclist|](i requires 0 <= i => i);
        ghost var id := arcorbits[..];
        ArcMapPermutes(|g|, arclist, p);
        IdentityFresh(id);
        numarcorbits := FirstGenerator(p);
        gens, parts := [p], [id, arcorbits[..]];
        assert ArcMaps(arclist, gens) == [ArcMap(arclist, p)];
        SingleJoin(ArcMap(arclist, p), id, arcorbits[..], parts, ArcMaps(arclist, gens));
      } else {
        AutomorphismCloses(g, arclist, p);
        LabelsAreArcOrbits(g, arclist, gens, parts);
        NextGenerator(p);
        OneMoreJoin(parts, ArcMaps(arclist, gens), |arclist|, ArcMap(arclist, p), arcorbits[..]);
        assert ArcMaps(arclist, gens + [p]) == ArcMaps(arclist, gens) + [ArcMap(arclist, p)];
        gens, parts := gens + [p], parts + [arcorbits[..]];
      }
      LabelsAreArcOrbits(g, arclist, gens, parts);
    }

    // Join every arc with its reverse: the labels then give the orbits on edges.
    method ArcOrbToEdgeOrb() returns (count: nat)
      requires Valid() && Symmetric(g)
      modifies arcorbits
      ensures EdgeOrbitsOf(arclist, gens, |g|, arcorbits[..])
      ensures count == |Cells(arcorbits[..])|
    {
      LabelsAreArcOrbits(g, arclist, gens, parts);
      SymmetricReverses(g, arclist);
      ghost var m, o0 := Reverse(arclist), arcorbits[..];
      GrowingStart(o0, m);
      for i := 0 to arcorbits.Length
        invariant Growing(o0, m, arcorbits[..], i)
      {
        GrowingStep(o0, m, arcorbits[..], i);
        if arclist[i].0 < arclist[i].1 {
          var pi := FindArc(arclist, arclist[i].1, arclist[i].0);
          IndexUnique(arclist, pi);
          JoinCells(arcorbits, i, pi);
        } else {
          ReverseSeen(arclist, arcorbits[..], o0, i);
        }
      }
      ghost var o := arcorbits[..];
      count := Compress(arcorbits);
      CompressedJoins(o0, m, o, arcorbits[..]);
      EdgesJoined(arclist, gens, |g|, o0, arcorbits[..]);
    }
  }

  // The arcs listed once row i has been read up to position j.
  ghost predicate ArcsUpTo(g: Graph, arcs: seq<Arc>, i: nat, j: int) {
    && Sorted(arcs)
    && forall a: Arc :: a in arcs <==> IsArc(g, a) && (a.0 < i || (a.0 == i && a.1 <= j))
  }

  lemma ArcsNext(g: Graph, arcs: seq<Arc>, i: nat, last: int, j: nat)
    requires ArcsUpTo(g, arcs, i, last) && i < |g| && NextIs(g[i], last, j)
    ensures ArcsUpTo(g, arcs + [(i, j)], i, j)
  {
    var arcs1 := arcs + [(i, j)];
    forall k, l | 0 <= k < l < |arcs1| ensures Before(arcs1[k], arcs1[l]) {
      assert arcs1[k] in arcs;
    }
  }

  lemma ArcsRowDone(g: Graph, arcs: seq<Arc>, i: nat, last: int)
    requires ArcsUpTo(g, arcs, i, last) && i < |g| && Exhausted(g[i], last)
    ensures ArcsUpTo(g, arcs, i + 1, -1)
  {
  }
}
