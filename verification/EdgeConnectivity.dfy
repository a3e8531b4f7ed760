// Augmenting paths, maximum flow and global edge connectivity for graphs of one machine word.
module EdgeConnectivity {
  import opened Sums
  import opened Graphs
  import opened EdgeFlow

  // The parent of q[i] is an earlier entry with a residual arc to q[i].
  ghost predicate ParentOk(g: Graph, paths: Graph, q: seq<nat>, parent: seq<nat>, i: nat)
    requires i < |q| && q[i] < |parent|
  {
    exists j :: 0 <= j < i && q[j] == parent[q[i]] && Residual(g, paths, q[j], q[i])
  }

  // A breadth-first tree: q lists its vertices in the order they were reached from s.
  ghost predicate Tree(g: Graph, paths: Graph, q: seq<nat>, parent: seq<nat>, s: nat) {
    && |parent| == |g|
    && 0 < |q| && q[0] == s && Distinct(q)
    && (forall i :: 0 <= i < |q| ==> q[i] < |g|)
    && (forall i :: 1 <= i < |q| ==> ParentOk(g, paths, q, parent, i))
  }

  // Everything residually adjacent to one of the first head entries was reached.
  ghost predicate Expanded(g: Graph, paths: Graph, q: seq<nat>, head: nat)
    requires head <= |q|
  {
    forall i, v: nat :: 0 <= i < head && Residual(g, paths, q[i], v) ==> v in q
  }

  lemma TreeGrow(g: Graph, paths: Graph, q: seq<nat>, parent: seq<nat>, s: nat, h: nat, v: nat)
    requires Tree(g, paths, q, parent, s) && h < |q| && v < |g| && v !in q
    requires Residual(g, paths, q[h], v)
    ensures Tree(g, paths, q + [v], parent[v := q[h]], s)
  {
    var q2, parent2 := q + [v], parent[v := q[h]];
    forall i | 1 <= i < |q2|
      ensures ParentOk(g, paths, q2, parent2, i)
    {
      if i < |q| {
        assert ParentOk(g, paths, q, parent, i);
        var j :| 0 <= j < i && q[j] == parent[q[i]] && Residual(g, paths, q[j], q[i]);
        assert q2[j] == parent2[q2[i]];
      } else {
        assert q2[h] == parent2[q2[i]];
      }
    }
  }

  lemma InRange(g: Graph, paths: Graph, u: nat, v: nat)
    requires ValidGraph(g) && FlowArcs(g, paths) && u < |g| && (v in g[u] || v in paths[u])
    ensures v < |g|
  {
    if v in paths[u] { assert Carries(paths, v, u); }
  }

  // Reach the unvisited residual neighbours of the queue entry at position h.
  method ExpandVertex(g: Graph, paths: array<set<nat>>, h: nat, ghost s: nat,
                      queue0: seq<nat>, parent0: seq<nat>, visited0: set<nat>)
    returns (queue: seq<nat>, parent: seq<nat>, visited: set<nat>)
    requires ValidGraph(g) && FlowArcs(g, paths[..])
    requires Tree(g, paths[..], queue0, parent0, s) && h < |queue0| && Expanded(g, paths[..], queue0, h)
    requires visited0 == Elems(queue0)
    ensures Tree(g, paths[..], queue, parent, s) && h < |queue| && Expanded(g, paths[..], queue, h + 1)
    ensures visited == Elems(queue)
  {
    ghost var p := paths[..];
    queue, parent, visited := queue0, parent0, visited0;
    var u := queue[h];
    var w := (g[u] + paths[u]) - visited;
    while w != {}
      invariant queue0 <= queue && visited == Elems(queue)
      invariant Tree(g, p, queue, parent, s)
      invariant Expanded(g, p, queue, h)
      invariant forall v :: v in w ==> (v in g[u] || v in p[u]) && v !in queue
      invariant forall v: nat :: Residual(g, p, u, v) ==> v in queue || v in w
      decreases |w|
    {
      var v :| v in w;
      w := w - {v};
      if u !in paths[v] {
        InRange(g, p, u, v);
        TreeGrow(g, p, queue, parent, s, h, v);
        visited := visited + {v};
        queue := queue + [v];
        parent := parent[v := u];
      }
    }
  }

  // After the walk came back to q[i], flow is the old one on the pairs inside q[..i + 1].
  ghost predicate SameInside(before: Graph, after: Graph, q: seq<nat>, i: nat)
    requires i < |q|
  {
    forall a, b :: 0 <= a <= i && 0 <= b <= i ==> (Carries(after, q[a], q[b]) <==> Carries(before, q[a], q[b]))
  }

  // One unit more runs from u to t; all other balances are the old ones.
  ghost predicate OneMoreUnit(g: Graph, before: Graph, after: Graph, u: nat, t: nat) {
    && FlowArcs(g, after)
    && forall x: nat :: x < |g| ==>
         Net(after, x) == Net(before, x) + (if x == u then 1 else 0) - (if x == t then 1 else 0)
  }

  lemma WalkStep(g: Graph, before: Graph, paths: Graph, q: seq<nat>, parent: seq<nat>, s: nat, t: nat,
                 i: nat) returns (j: nat)
    requires Tree(g, before, q, parent, s) && 1 <= i < |q| && |before| == |g|
    requires SameInside(before, paths, q, i) && OneMoreUnit(g, before, paths, q[i], t)
    ensures j < i && q[j] == parent[q[i]] && q[j] != q[i]
    ensures OneMoreUnit(g, before, Pushed(paths, q[j], q[i]), q[j], t)
    ensures SameInside(before, Pushed(paths, q[j], q[i]), q, j)
    ensures q[j] !in paths[q[i]]
  {
    assert ParentOk(g, before, q, parent, i);
    j :| 0 <= j < i && q[j] == parent[q[i]] && Residual(g, before, q[j], q[i]);
    var v, u := q[j], q[i];
    assert Carries(paths, v, u) <==> Carries(before, v, u);
    assert Carries(paths, u, v) <==> Carries(before, u, v);
    assert v != u;
    assert Residual(g, paths, v, u);
    PushedNet(g, paths, v, u);
    var after := Pushed(paths, v, u);
    forall a, b | 0 <= a <= j && 0 <= b <= j
      ensures Carries(after, q[a], q[b]) <==> Carries(before, q[a], q[b])
    {
      assert q[a] != u && q[b] != u;
      assert Carries(paths, q[a], q[b]) <==> Carries(before, q[a], q[b]);
    }
  }

  // Push one unit along the tree path from s to t, from t backwards.
  method PushAlong(ghost g: Graph, paths: array<set<nat>>, ghost q: seq<nat>, parent: seq<nat>, s: nat, t: nat,
                   ghost k: int)
    requires ValidGraph(g) && Flow(g, paths[..], s, t, k)
    requires Tree(g, paths[..], q, parent, s) && t in q
    modifies paths
    ensures Flow(g, paths[..], s, t, k + 1)
  {
    ghost var before := paths[..];
    ghost var i: nat :| i < |q| && q[i] == t;
    var u := t;
    while u != s
      invariant i < |q| && q[i] == u
      invariant SameInside(before, paths[..], q, i)
      invariant OneMoreUnit(g, before, paths[..], u, t)
      decreases i
    {
      ghost var now := paths[..];
      i := WalkStep(g, before, now, q, parent, s, t, i);
      var v := parent[u];
      if u in paths[v] {
        paths[v] := paths[v] - {u};
      } else {
        paths[u] := Flip(paths[u], v);
      }
      assert paths[..] == Pushed(now, v, u);
      u := v;
    }
  }

  ghost predicate TightCut(g: Graph, s: nat, t: nat, cut: set<nat>, k: int) {
    Separates(g, cut, s, t) && Leaving(g, cut) == k
  }

  // Find an augmenting path; on success push one unit along it, on failure the reached set is a tight cut.
  method EAugPath1(g: Graph, paths: array<set<nat>>, s: nat, t: nat, ghost k: int) returns (found: bool)
    requires ValidGraph(g) && Flow(g, paths[..], s, t, k)
    modifies paths
    ensures found ==> Flow(g, paths[..], s, t, k + 1)
    ensures !found ==> paths[..] == old(paths[..]) && exists cut :: TightCut(g, s, t, cut, k)
  {
    ghost var p := paths[..];
    var visited: set<nat>, queue: seq<nat>, head := {s}, [s], 0;
    var parent: seq<nat> := seq(|g|, _ => 0);
    assert Elems([s]) == {s};
    while head < |queue|
      invariant Tree(g, p, queue, parent, s) && visited == Elems(queue) && paths[..] == p
      invariant head <= |queue| && Expanded(g, p, queue, head)
      decreases |g| - head
    {
      BoundedQueue(queue, |g|);
      queue, parent, visited := ExpandVertex(g, paths, head, s, queue, parent, visited);
      head := head + 1;
      if t in visited { break; }
    }
    if t !in visited {
      SaturatedCut(g, p, s, t, k, visited);
      assert TightCut(g, s, t, visited, k);
      return false;
    }
    PushAlong(g, paths, queue, parent, s, t, k);
    return true;
  }

  lemma BoundedQueue(q: seq<nat>, n: nat)
    requires Distinct(q) && forall i :: 0 <= i < |q| ==> q[i] < n
    ensures |q| <= n
  {
    DistinctCard(q);
    SubsetCard(Elems(q), Range(n));
    RangeCard(n);
  }

  // value is the smaller of maxneeded and the least cut between s and t.
  ghost predicate CappedMinCut(g: Graph, s: nat, t: nat, maxneeded: int, value: int) {
    && value <= maxneeded
    && (forall cut :: Separates(g, cut, s, t) ==> value <= Leaving(g, cut))
    && (value == maxneeded || exists cut :: TightCut(g, s, t, cut, value))
  }

  ghost predicate HasFlow(g: Graph, s: nat, t: nat, value: int) {
    exists paths: Graph :: Flow(g, paths, s, t, value)
  }

  method MaxEdgeFlow1(g: Graph, s: nat, t: nat, maxneeded0: int) returns (value: int)
    requires ValidGraph(g) && s < |g| && t < |g| && (s != t || maxneeded0 <= 0)
    ensures CappedMinCut(g, s, t, maxneeded0, value)
    ensures s != t && value >= 0 ==> HasFlow(g, s, t, value)
  {
    var maxneeded, d := maxneeded0, |g[s]|;
    if d < maxneeded { maxneeded := d; }
    var paths := new set<nat>[|g|](_ => {});
    if s != t { ZeroFlow(g, paths[..], s, t); }
    var k := 0;
    while k < maxneeded
      invariant 0 <= k && (k <= maxneeded || k == 0)
      invariant s != t ==> Flow(g, paths[..], s, t, k)
    {
      ghost var before := paths[..];
      var found := EAugPath1(g, paths, s, t, k);
      if !found {
        FlowIsCapped(g, before, s, t, k, maxneeded0);
        assert Flow(g, before, s, t, k);
        return k;
      }
      k := k + 1;
    }
    value := maxneeded;
    if s != t && value >= 0 {
      assert Flow(g, paths[..], s, t, value);
      FlowAtMostAnyCut(g, paths[..], s, t, value);
      if value < maxneeded0 { OutOfSource(g, paths[..], s, t); }
    }
  }

  lemma FlowAtMostAnyCut(g: Graph, paths: Graph, s: nat, t: nat, k: int)
    requires ValidGraph(g) && Flow(g, paths, s, t, k)
    ensures forall cut :: Separates(g, cut, s, t) ==> k <= Leaving(g, cut)
  {
    forall cut | Separates(g, cut, s, t) ensures k <= Leaving(g, cut) {
      FlowAtMostCut(g, paths, s, t, k, cut);
    }
  }

  lemma FlowIsCapped(g: Graph, paths: Graph, s: nat, t: nat, k: int, maxneeded: int)
    requires ValidGraph(g) && Flow(g, paths, s, t, k) && k <= maxneeded
    requires exists cut :: TightCut(g, s, t, cut, k)
    ensures CappedMinCut(g, s, t, maxneeded, k)
  {
    FlowAtMostAnyCut(g, paths, s, t, k);
  }

  // A flow as large as the row of s: the arcs out of s are themselves a tight cut (and s has no loop).
  lemma OutOfSource(g: Graph, paths: Graph, s: nat, t: nat)
    requires ValidGraph(g) && s < |g| && Flow(g, paths, s, t, |g[s]|)
    ensures TightCut(g, s, t, {s}, |g[s]|)
  {
    FlowAtMostCut(g, paths, s, t, |g[s]|, {s});
    LeavingOne(g, s);
    SubsetCard(g[s] - {s}, g[s]);
  }

  lemma LeavingOne(g: Graph, v: nat)
    requires v < |g|
    ensures Leaving(g, {v}) == |g[v] - {v}|
  {
    PairsCard(v, g[v] - {v});
    assert CutArcs(g, {v}) == PairsFrom(v, g[v] - {v});
  }

  // ----- global edge connectivity -----

  ghost predicate ProperSet(g: Graph, cut: set<nat>) {
    cut != {} && exists v: nat :: v < |g| && v !in cut && forall u :: u in cut ==> u < |g|
  }

  ghost predicate EdgeConnectivity(g: Graph, c: int) {
    && (forall cut :: ProperSet(g, cut) ==> c <= Leaving(g, cut))
    && exists cut :: ProperSet(g, cut) && Leaving(g, cut) == c
  }

  function Next(n: nat, u: nat): (v: nat)
    requires u < n
    ensures v < n
  {
    if u == n - 1 then 0 else u + 1
  }

  // Some member of a proper set is followed, cyclically, by a non-member.
  lemma CyclicExit(n: nat, cut: set<nat>, x: nat, y: nat) returns (u: nat)
    requires x in cut && y !in cut && x < n && y < n
    ensures u < n && u in cut && Next(n, u) !in cut
  {
    if ClosedUnderNext(n, cut) {
      StaysInside(n, cut, x, n - 1);
      assert Next(n, n - 1) in cut;
      StaysInside(n, cut, 0, y);
    }
    u :| u < n && u in cut && Next(n, u) !in cut;
  }

  ghost predicate ClosedUnderNext(n: nat, cut: set<nat>) {
    forall u: nat :: u < n && u in cut ==> Next(n, u) in cut
  }

  lemma {:induction false} StaysInside(n: nat, cut: set<nat>, x: nat, y: nat)
    requires x in cut && x <= y < n && ClosedUnderNext(n, cut)
    ensures y in cut
    decreases y
  {
    if x < y {
      StaysInside(n, cut, x, y - 1);
      assert Next(n, y - 1) in cut;
    }
  }

  // A vertex of least degree, loops not counted; starts from the bound n.
  method LeastDegreeVertex(g: Graph) returns (u: nat, c: nat)
    requires ValidGraph(g)
    ensures u < |g| || (u == 0 && |g| == 0)
    ensures |g| <= 1 ==> c == 0
    ensures |g| >= 2 ==> c == |g[u] - {u}|
    ensures forall v :: 0 <= v < |g| ==> c <= |g[v] - {v}|
  {
    u, c := 0, |g|;
    for i := 0 to |g|
      invariant u < |g| || (u == 0 && |g| == 0)
      invariant i == 0 ==> c == |g| && u == 0
      invariant i > 0 ==> c == |g[u] - {u}|
      invariant forall v :: 0 <= v < i ==> c <= |g[v] - {v}|
    {
      var d := |g[i] - {i}|;
      DegreeBelow(g, i);
      if d < c {
        u, c := i, d;
      }
    }
  }

  lemma DegreeBelow(g: Graph, v: nat)
    requires ValidGraph(g) && v < |g|
    ensures |g[v] - {v}| < |g|
  {
    SubsetCard(g[v] - {v}, Range(|g|) - {v});
    RangeCard(|g|);
  }

  // Every proper set that u is in and its cyclic successor is not has at least c leaving arcs.
  ghost predicate PairDone(g: Graph, u: nat, c: int)
    requires u < |g|
  {
    forall cut :: Separates(g, cut, u, Next(|g|, u)) ==> c <= Leaving(g, cut)
  }

  function CyclicFrom(n: nat, start: nat, i: nat): (u: nat)
    requires start < n && i <= n
    ensures u < n
  {
    if start + i < n then start + i else start + i - n
  }

  lemma AllPairs(g: Graph, start: nat, c: int)
    requires start < |g|
    requires PairsDone(g, start, |g|, c)
    ensures forall cut :: ProperSet(g, cut) ==> c <= Leaving(g, cut)
  {
    forall cut: set<nat> | ProperSet(g, cut) ensures c <= Leaving(g, cut) {
      var x := Pick(cut);
      var y: nat :| y < |g| && y !in cut;
      var u := CyclicExit(|g|, cut, x, y);
      var i := if u >= start then u - start else u + |g| - start;
      assert CyclicFrom(|g|, start, i) == u;
      assert PairDone(g, u, c);
    }
  }

  lemma SeparatesIsProper(g: Graph, cut: set<nat>, s: nat, t: nat)
    requires Separates(g, cut, s, t) && t < |g|
    ensures ProperSet(g, cut)
  {
  }

  // The pairs tried so far, from start on.
  ghost predicate PairsDone(g: Graph, start: nat, tried: nat, c: int)
    requires start < |g| && tried <= |g|
  {
    forall i :: 0 <= i < tried ==> PairDone(g, CyclicFrom(|g|, start, i), c)
  }

  lemma OnePairMore(g: Graph, start: nat, i: nat, c: int, f: int)
    requires start < |g| && i < |g| && PairsDone(g, start, i, c)
    requires CappedMinCut(g, CyclicFrom(|g|, start, i), Next(|g|, CyclicFrom(|g|, start, i)), c, f)
    ensures PairsDone(g, start, i + 1, f)
  {
  }

  lemma WitnessCut(g: Graph, u: nat, v: nat, c: int, f: int) returns (cut: set<nat>)
    requires CappedMinCut(g, u, v, c, f) && f < c && v < |g|
    ensures ProperSet(g, cut) && Leaving(g, cut) == f
  {
    cut :| TightCut(g, u, v, cut, f);
    SeparatesIsProper(g, cut, u, v);
  }

  // The least number of arcs leaving any proper set; 0 for fewer than two vertices.
  method EdgeConnectivity1(g: Graph) returns (c: int)
    requires ValidGraph(g)
    ensures |g| <= 1 ==> c == 0
    ensures |g| >= 2 ==> EdgeConnectivity(g, c)
  {
    var n := |g|;
    var u;
    u, c := LeastDegreeVertex(g);
    ghost var start := u;
    ghost var best: set<nat> := {u};
    if n >= 2 {
      LeavingOne(g, u);
      SeparatesIsProper(g, best, u, Next(n, u));
    }
    if c == 0 { return; }
    hide PairDone, CappedMinCut, ProperSet, Leaving;
    for i := 0 to n
      invariant c >= 0 && u < n && (i < n ==> u == CyclicFrom(n, start, i))
      invariant ProperSet(g, best) && Leaving(g, best) == c
      invariant PairsDone(g, start, i, c)
    {
      var v := Next(n, u);
      var f := MaxEdgeFlow1(g, u, v, c);
      OnePairMore(g, start, i, c, f);
      CappedAtMost(g, u, v, c, f);
      if f < c {
        best := WitnessCut(g, u, v, c, f);
        c := f;
      }
      u := v;
    }
    AllPairs(g, start, c);
  }

  lemma CappedAtMost(g: Graph, s: nat, t: nat, c: int, f: int)
    requires CappedMinCut(g, s, t, c, f)
    ensures f <= c && (f < c ==> f >= 0)
  {
  }

  // Is every proper set left by at least c arcs?
  method IsThisEdgeConnected1(g: Graph, c: int) returns (yes: bool)
    requires ValidGraph(g)
    ensures |g| <= 1 ==> (yes <==> c <= 0)
    ensures |g| >= 2 ==> (yes <==> forall cut :: ProperSet(g, cut) ==> c <= Leaving(g, cut))
  {
    var n := |g|;
    var u, mind := LeastDegreeVertex(g);
    ghost var start := u;
    if mind < c {
      if n >= 2 {
        LeavingOne(g, u);
        SeparatesIsProper(g, {u}, u, Next(n, u));
      }
      return false;
    }
    hide PairDone, CappedMinCut, ProperSet, Leaving;
    for i := 0 to n
      invariant n > 0 ==> u < n && (i < n ==> u == CyclicFrom(n, start, i))
      invariant n > 0 ==> PairsDone(g, start, i, c)
    {
      var v := Next(n, u);
      var f := MaxEdgeFlow1(g, u, v, c);
      CappedAtMost(g, u, v, c, f);
      if f < c {
        ghost var cut := WitnessCut(g, u, v, c, f);
        return false;
      }
      OnePairMore(g, start, i, c, f);
      u := v;
    }
    if n >= 2 { AllPairs(g, start, c); }
    return true;
  }
}
