// Distances from one vertex by breadth-first search.
module Distances {
  import opened Sums
  import opened Graphs
  import opened EdgePaths
  import opened Refinement
  import opened NestRefinement

  // Rows of neighbours packed into one list: row i is e[v[i]..v[i] + d[i]].
  datatype SparseGraph = SparseGraph(v: seq<nat>, d: seq<nat>, e: seq<nat>)

  ghost predicate RowOk(sg: SparseGraph, g: Graph, u: nat) {
    && u < |g| && u < |sg.v| && u < |sg.d| && sg.v[u] + sg.d[u] <= |sg.e|
    && Distinct(RowOf(sg, u)) && forall x :: x in RowOf(sg, u) <==> x in g[u]
  }

  ghost function RowOf(sg: SparseGraph, u: nat): seq<nat>
    requires u < |sg.v| && u < |sg.d| && sg.v[u] + sg.d[u] <= |sg.e|
  {
    sg.e[sg.v[u]..sg.v[u] + sg.d[u]]
  }

  // The rows of sg are those of g, each neighbour once.
  ghost predicate RowsOf(sg: SparseGraph, g: Graph) {
    && |sg.v| == |sg.d| == |g| && ValidGraph(g)
    && forall u :: 0 <= u < |g| ==> RowOk(sg, g, u)
  }

  ghost predicate Reached(g: Graph, dist: seq<nat>, w: nat)
    requires |dist| == |g|
  {
    w < |g| && 0 < dist[w] && exists u: nat :: u < |g| && w in g[u] && dist[u] + 1 == dist[w]
  }

  // dist is |g| where v0 does not lead, and falls by one towards v0 elsewhere.
  ghost predicate DistOk(g: Graph, v0: nat, dist: seq<nat>) {
    && |dist| == |g| && v0 < |g| && dist[v0] == 0
    && (forall w :: 0 <= w < |g| ==> dist[w] <= |g|)
    && (forall u: nat, w: nat :: u < |g| && w < |g| && w in g[u] && dist[u] < |g| ==>
        dist[w] < |g| && dist[w] <= dist[u] + 1)
    && (forall w: nat :: w < |g| && dist[w] < |g| && w != v0 ==> Reached(g, dist, w))
  }

  // ----- distvals -----

  // The queue lists the vertices reached, in order of distance.
  ghost predicate Queued(g: Graph, v0: nat, dist: seq<nat>, queue: seq<nat>, head: nat, tail: nat) {
    && |dist| == |queue| == |g| && v0 < |g| && head <= tail <= |g| && 0 < tail
    && queue[0] == v0 && dist[v0] == 0
    && (forall i :: 0 <= i < tail ==> queue[i] < |g| && dist[queue[i]] <= i)
    && (forall i, j :: 0 <= i < j < tail ==> queue[i] != queue[j] && dist[queue[i]] <= dist[queue[j]])
    && (forall i :: 0 <= i < tail && head < tail ==> dist[queue[i]] <= dist[queue[head]] + 1)
  }

  ghost predicate Found(g: Graph, v0: nat, dist: seq<nat>, queue: seq<nat>, tail: nat) {
    && |dist| == |queue| == |g| && tail <= |g|
    && (forall w :: 0 <= w < |g| ==> (dist[w] != |g| <==> w in queue[..tail]) && dist[w] <= |g|)
    && (forall w: nat :: w < |g| && dist[w] < |g| && w != v0 ==> Reached(g, dist, w))
  }

  ghost predicate Bfs(g: Graph, v0: nat, dist: seq<nat>, queue: seq<nat>, head: nat, tail: nat) {
    Queued(g, v0, dist, queue, head, tail) && Found(g, v0, dist, queue, tail)
  }

  // The neighbours of the first head entries have been reached, none too far away.
  ghost predicate Scanned(g: Graph, dist: seq<nat>, queue: seq<nat>, head: nat) {
    && |dist| == |queue| == |g| && head <= |g|
    && forall i: nat :: i < head ==> RowScanned(g, dist, queue[i])
  }

  ghost predicate RowScanned(g: Graph, dist: seq<nat>, u: nat) {
    |dist| == |g| && u < |g| && forall w :: w in g[u] && w < |g| ==> dist[w] < |g| && dist[w] <= dist[u] + 1
  }

  lemma BfsStart(g: Graph, v0: nat, dist: seq<nat>, queue: seq<nat>)
    requires |dist| == |queue| == |g| && v0 < |g| && queue[0] == v0
    requires forall w :: 0 <= w < |g| ==> dist[w] == if w == v0 then 0 else |g|
    ensures Bfs(g, v0, dist, queue, 0, 1) && Scanned(g, dist, queue, 0)
  {
    assert queue[..1] == [v0];
  }

  lemma BfsRoom(g: Graph, v0: nat, dist: seq<nat>, queue: seq<nat>, head: nat, tail: nat, k: nat)
    requires Bfs(g, v0, dist, queue, head, tail) && k < |g| && dist[k] == |g|
    ensures tail < |g|
  {
    DistinctMissing(queue[..tail], |g|, k);
  }

  lemma NotQueued(g: Graph, v0: nat, dist: seq<nat>, queue: seq<nat>, head: nat, tail: nat, k: nat)
    requires Bfs(g, v0, dist, queue, head, tail) && k < |g| && dist[k] == |g|
    ensures forall i :: 0 <= i < tail ==> queue[i] != k
  {
    forall i | 0 <= i < tail ensures queue[i] != k {
      assert queue[..tail][i] == queue[i];
    }
  }

  // A new vertex is reached from entry head.
  lemma BfsPush(g: Graph, v0: nat, dist: seq<nat>, queue: seq<nat>, head: nat, tail: nat, k: nat)
    requires Bfs(g, v0, dist, queue, head, tail) && head < tail < |g| && k < |g| && dist[k] == |g|
    requires k in g[queue[head]]
    ensures Bfs(g, v0, dist[k := dist[queue[head]] + 1], queue[tail := k], head, tail + 1)
  {
    NotQueued(g, v0, dist, queue, head, tail, k);
    hide Reached;
    QueuedPush(g, v0, dist, queue, head, tail, k);
    hide Queued;
    FoundPush(g, v0, dist, queue, queue[head], tail, k);
  }

  lemma QueuedPush(g: Graph, v0: nat, dist: seq<nat>, queue: seq<nat>, head: nat, tail: nat, k: nat)
    requires Queued(g, v0, dist, queue, head, tail) && head < tail < |g| && k < |g| && k != v0
    requires forall i :: 0 <= i < tail ==> queue[i] != k
    ensures Queued(g, v0, dist[k := dist[queue[head]] + 1], queue[tail := k], head, tail + 1)
  {
    var d, q := dist[k := dist[queue[head]] + 1], queue[tail := k];
    assert forall i :: 0 <= i < tail ==> q[i] == queue[i] && d[q[i]] == dist[queue[i]];
  }

  lemma FoundPush(g: Graph, v0: nat, dist: seq<nat>, queue: seq<nat>, u0: nat, tail: nat, k: nat)
    requires Found(g, v0, dist, queue, tail) && tail < |g| && k < |g| && dist[k] == |g| && u0 < |g| && k in g[u0]
    requires dist[u0] + 1 < |g|
    ensures Found(g, v0, dist[k := dist[u0] + 1], queue[tail := k], tail + 1)
  {
    var d, q := dist[k := dist[u0] + 1], queue[tail := k];
    assert q[..tail + 1] == queue[..tail] + [k];
    forall w: nat | w < |g| && d[w] < |g| && w != v0 ensures Reached(g, d, w) {
      if w == k {
        assert w in g[u0] && d[u0] + 1 == d[w];
      } else {
        assert Reached(g, dist, w);
        var u: nat :| u < |g| && w in g[u] && dist[u] + 1 == dist[w];
        assert u != k;
        assert w in g[u] && d[u] + 1 == d[w];
      }
    }
  }

  lemma ScannedKept(g: Graph, dist: seq<nat>, queue: seq<nat>, head: nat, tail: nat, k: nat, x: nat, q: seq<nat>)
    requires Scanned(g, dist, queue, head) && head < tail && k < |g| && dist[k] == |g| && |q| == |queue|
    requires forall i :: 0 <= i < tail && i < |q| ==> q[i] == queue[i]
    requires forall i :: 0 <= i < head ==> queue[i] != k
    ensures Scanned(g, dist[k := x], q, head)
  {
    forall i: nat | i < head ensures RowScanned(g, dist[k := x], q[i]) {
      assert RowScanned(g, dist, queue[i]);
    }
  }

  // The row of entry head has been read.
  lemma QueuedOn(g: Graph, v0: nat, dist: seq<nat>, queue: seq<nat>, head: nat, tail: nat)
    requires Bfs(g, v0, dist, queue, head, tail) && head < tail
    requires forall w :: w in g[queue[head]] && w < |g| ==> dist[w] < |g|
    ensures Queued(g, v0, dist, queue, head + 1, tail) && queue[head] < |g|
    ensures forall w :: w in g[queue[head]] && w < |g| ==> dist[w] <= dist[queue[head]] + 1
  {
    forall w | w in g[queue[head]] && w < |g| ensures dist[w] <= dist[queue[head]] + 1 {
      assert w in queue[..tail];
      var i :| 0 <= i < tail && queue[i] == w;
    }
  }

  lemma NextHead(g: Graph, v0: nat, dist: seq<nat>, queue: seq<nat>, head: nat, tail: nat)
    requires Bfs(g, v0, dist, queue, head, tail) && head < tail && Scanned(g, dist, queue, head)
    requires forall w :: w in g[queue[head]] && w < |g| ==> dist[w] < |g|
    ensures Bfs(g, v0, dist, queue, head + 1, tail) && Scanned(g, dist, queue, head + 1)
  {
    hide Reached;
    QueuedOn(g, v0, dist, queue, head, tail);
    hide Queued;
    assert RowScanned(g, dist, queue[head]);
  }

  lemma BfsEnd(g: Graph, v0: nat, dist: seq<nat>, queue: seq<nat>, head: nat, tail: nat)
    requires Bfs(g, v0, dist, queue, head, tail) && Scanned(g, dist, queue, head) && (tail == |g| || head == tail)
    ensures DistOk(g, v0, dist)
  {
    hide Reached;
    forall u: nat, w: nat | u < |g| && w < |g| && w in g[u] && dist[u] < |g|
      ensures dist[w] < |g| && dist[w] <= dist[u] + 1 {
      BfsArc(g, v0, dist, queue, head, tail, u, w);
    }
  }

  lemma BfsArc(g: Graph, v0: nat, dist: seq<nat>, queue: seq<nat>, head: nat, tail: nat, u: nat, w: nat)
    requires Bfs(g, v0, dist, queue, head, tail) && Scanned(g, dist, queue, head) && (tail == |g| || head == tail)
    requires u < |g| && w < |g| && w in g[u] && dist[u] < |g|
    ensures dist[w] < |g| && dist[w] <= dist[u] + 1
  {
    hide Reached;
    assert u in queue[..tail];
    var i: nat :| i < tail && queue[i] == u;
    if i < head {
      assert RowScanned(g, dist, queue[i]);
    } else {
      hide Found, Scanned;
      AllQueued(g, v0, dist, queue, head, tail, w);
      assert dist[queue[head]] <= dist[queue[i]];
    }
  }

  // Once the queue is full, every vertex is in it.
  lemma AllQueued(g: Graph, v0: nat, dist: seq<nat>, queue: seq<nat>, head: nat, tail: nat, w: nat)
    requires Queued(g, v0, dist, queue, head, tail) && tail == |g| && head < tail && w < |g|
    ensures dist[w] < |g| && dist[w] <= dist[queue[head]] + 1
  {
    if w !in queue[..tail] { DistinctMissing(queue[..tail], |g|, w); }
    var j :| 0 <= j < tail && queue[j] == w;
  }

  method DistVals(sg: SparseGraph, v0: nat, dist: array<nat>, ghost g: Graph)
    requires RowsOf(sg, g) && dist.Length == |g| && v0 < |g|
    modifies dist
    ensures DistOk(g, v0, dist[..])
  {
    var n := dist.Length;
    var queue := new nat[n];
    for i := 0 to n
      invariant forall w :: 0 <= w < i ==> dist[w] == n
    {
      dist[i] := n;
    }
    queue[0] := v0;
    dist[v0] := 0;
    var head, tail := 0, 1;
    BfsStart(g, v0, dist[..], queue[..]);
    hide Bfs, Scanned;
    while tail < n && head < tail
      invariant head <= tail <= n
      invariant Bfs(g, v0, dist[..], queue[..], head, tail) && Scanned(g, dist[..], queue[..], head)
      decreases n - head
    {
      tail := ReadRow(sg, v0, dist, queue, head, tail, g);
      NextHead(g, v0, dist[..], queue[..], head, tail);
      head := head + 1;
    }
    BfsEnd(g, v0, dist[..], queue[..], head, tail);
  }

  lemma BfsHead(g: Graph, v0: nat, dist: seq<nat>, queue: seq<nat>, head: nat, tail: nat)
    requires Bfs(g, v0, dist, queue, head, tail) && head < tail
    ensures queue[head] < |g| && dist[queue[head]] < |g|
    ensures forall i :: 0 <= i < tail ==> dist[queue[i]] < |g|
  {
  }

  // Reach all neighbours of entry head.
  method ReadRow(sg: SparseGraph, v0: nat, dist: array<nat>, queue: array<nat>, head: nat, tail0: nat, ghost g: Graph)
    returns (tail: nat)
    requires RowsOf(sg, g) && dist.Length == queue.Length == |g| && dist != queue && head < tail0 <= |g|
    requires Bfs(g, v0, dist[..], queue[..], head, tail0) && Scanned(g, dist[..], queue[..], head)
    modifies dist, queue
    ensures tail0 <= tail <= |g| && queue[head] == old(queue[head])
    ensures Bfs(g, v0, dist[..], queue[..], head, tail) && Scanned(g, dist[..], queue[..], head)
    ensures forall w :: w in g[queue[head]] && w < |g| ==> dist[w] < |g|
  {
    hide *;
    tail := tail0;
    BfsHead(g, v0, dist[..], queue[..], head, tail);
    var i := queue[head];
    RowBounds(sg, g, dist[..], i);
    var vi, di := sg.v[i], sg.d[i];
    for j := 0 to di
      invariant tail0 <= tail <= |g| && queue[head] == i
      invariant Bfs(g, v0, dist[..], queue[..], head, tail) && Scanned(g, dist[..], queue[..], head)
      invariant ReachedIn(sg, dist[..], i, j)
    {
      var k := sg.e[vi + j];
      KnownRow(sg, g, i, j);
      ghost var was := dist[..];
      tail := Visit(v0, dist, queue, head, tail, i, k, g);
      ReachedNext(sg, g, was, dist[..], i, j);
    }
    RowReached(sg, g, dist[..], i);
  }

  lemma RowBounds(sg: SparseGraph, g: Graph, dist: seq<nat>, u: nat)
    requires RowsOf(sg, g) && u < |g|
    ensures |sg.v| == |sg.d| == |g| && sg.v[u] + sg.d[u] <= |sg.e| && ReachedIn(sg, dist, u, 0)
  {
    assert RowOk(sg, g, u);
  }

  // The first j neighbours of u have been reached.
  ghost predicate ReachedIn(sg: SparseGraph, dist: seq<nat>, u: nat, j: nat) {
    && u < |sg.v| && u < |sg.d| && sg.v[u] + sg.d[u] <= |sg.e| && j <= sg.d[u]
    && forall l :: 0 <= l < j ==> RowOf(sg, u)[l] < |dist| && dist[RowOf(sg, u)[l]] < |dist|
  }

  lemma ReachedNext(sg: SparseGraph, g: Graph, was: seq<nat>, dist: seq<nat>, u: nat, j: nat)
    requires ReachedIn(sg, was, u, j) && j < sg.d[u] && |dist| == |was|
    requires forall w :: 0 <= w < |dist| && was[w] < |dist| ==> dist[w] < |dist|
    requires RowOf(sg, u)[j] < |dist| && dist[RowOf(sg, u)[j]] < |dist|
    ensures ReachedIn(sg, dist, u, j + 1)
  {
  }

  lemma RowReached(sg: SparseGraph, g: Graph, dist: seq<nat>, u: nat)
    requires RowsOf(sg, g) && u < |g| && |dist| == |g| && ReachedIn(sg, dist, u, sg.d[u])
    ensures forall w :: w in g[u] && w < |g| ==> dist[w] < |g|
  {
    assert RowOk(sg, g, u);
    forall w | w in g[u] && w < |g| ensures dist[w] < |g| {
      assert w in RowOf(sg, u);
      var l :| 0 <= l < sg.d[u] && RowOf(sg, u)[l] == w;
    }
  }

  lemma KnownRow(sg: SparseGraph, g: Graph, u: nat, j: nat)
    requires RowsOf(sg, g) && u < |g| && sg.v[u] + sg.d[u] <= |sg.e| && j < sg.d[u]
    ensures RowOf(sg, u)[j] == sg.e[sg.v[u] + j] && RowOf(sg, u)[j] in g[u] && RowOf(sg, u)[j] < |g|
  {
    assert RowOk(sg, g, u) && RowOf(sg, u)[j] in RowOf(sg, u);
  }

  // Reach the neighbour k of entry head, unless it has been reached before.
  method Visit(v0: nat, dist: array<nat>, queue: array<nat>, head: nat, tail0: nat, i: nat, k: nat, ghost g: Graph)
    returns (tail: nat)
    requires dist.Length == queue.Length == |g| && dist != queue && head < tail0 <= |g|
    requires Bfs(g, v0, dist[..], queue[..], head, tail0) && Scanned(g, dist[..], queue[..], head)
    requires queue[head] == i < |g| && k < |g| && k in g[i]
    modifies dist, queue
    ensures tail0 <= tail <= |g| && queue[head] == i
    ensures Bfs(g, v0, dist[..], queue[..], head, tail) && Scanned(g, dist[..], queue[..], head)
    ensures dist[k] < |g| && forall w :: 0 <= w < |g| && old(dist[w]) < |g| ==> dist[w] < |g|
  {
    hide *;
    tail := tail0;
    ghost var d0, q0 := dist[..], queue[..];
    if dist[k] == dist.Length {
      VisitNew(g, v0, d0, q0, head, tail, k);
      dist[k] := dist[i] + 1;
      queue[tail] := k;
      assert dist[..] == d0[k := d0[i] + 1] && queue[..] == q0[tail := k];
      tail := tail + 1;
    } else {
      BfsFound2(g, v0, dist[..], queue[..], head, tail, k);
    }
  }

  lemma VisitNew(g: Graph, v0: nat, dist: seq<nat>, queue: seq<nat>, head: nat, tail: nat, k: nat)
    requires |dist| == |queue| == |g| && head < tail <= |g|
    requires Bfs(g, v0, dist, queue, head, tail) && Scanned(g, dist, queue, head)
    requires k < |g| && dist[k] == |g| && queue[head] < |g| && k in g[queue[head]]
    ensures tail < |g| && dist[queue[head]] + 1 < |g|
    ensures Bfs(g, v0, dist[k := dist[queue[head]] + 1], queue[tail := k], head, tail + 1)
    ensures Scanned(g, dist[k := dist[queue[head]] + 1], queue[tail := k], head)
  {
    hide *;
    BfsRoom(g, v0, dist, queue, head, tail, k);
    BfsPush(g, v0, dist, queue, head, tail, k);
    NotQueued(g, v0, dist, queue, head, tail, k);
    var d, q := dist[k := dist[queue[head]] + 1], queue[tail := k];
    BfsFound(g, v0, d, q, head, tail + 1, k);
    ScannedKept(g, dist, queue, head, tail, k, dist[queue[head]] + 1, q);
  }

  lemma BfsFound(g: Graph, v0: nat, dist: seq<nat>, queue: seq<nat>, head: nat, tail: nat, k: nat)
    requires Bfs(g, v0, dist, queue, head, tail) && 0 < tail && queue[tail - 1] == k
    ensures k < |g| && dist[k] < |g|
  {
  }

  lemma BfsFound2(g: Graph, v0: nat, dist: seq<nat>, queue: seq<nat>, head: nat, tail: nat, k: nat)
    requires Bfs(g, v0, dist, queue, head, tail) && k < |g| && dist[k] != |g|
    ensures dist[k] < |g|
  {
  }

  // ----- what the distances mean -----

  // No path is shorter than the distance.
  lemma {:induction false} PathLongEnough(g: Graph, v0: nat, dist: seq<nat>, p: seq<nat>, w: nat)
    requires ValidGraph(g) && DistOk(g, v0, dist) && Path(g, p, v0, w)
    ensures dist[w] < |g| && dist[w] <= |p| - 1
    decreases |p|
  {
    if |p| > 1 {
      var u, q := p[|p| - 2], p[..|p| - 1];
      assert Path(g, q, v0, u);
      hide Reached;
      PathLongEnough(g, v0, dist, q, u);
      assert p[|p| - 1] in g[p[|p| - 2]];
    }
  }

  // The last vertex but one on a shortest path.
  lemma Before(g: Graph, v0: nat, dist: seq<nat>, w: nat) returns (u: nat)
    requires DistOk(g, v0, dist) && w < |g| && dist[w] < |g| && w != v0
    ensures u < |g| && w in g[u] && dist[u] + 1 == dist[w]
  {
    assert Reached(g, dist, w);
    u :| u < |g| && w in g[u] && dist[u] + 1 == dist[w];
  }

  lemma PathOn(g: Graph, q: seq<nat>, v0: nat, u: nat, w: nat)
    requires Path(g, q, v0, u) && w < |g| && u < |g| && w in g[u]
    ensures Path(g, q + [w], v0, w)
  {
  }

  lemma {:induction false} PathShortEnough(g: Graph, v0: nat, dist: seq<nat>, w: nat) returns (p: seq<nat>)
    requires ValidGraph(g) && DistOk(g, v0, dist) && w < |g| && dist[w] < |g|
    ensures Path(g, p, v0, w) && |p| == dist[w] + 1
    decreases dist[w]
  {
    if w == v0 {
      p := [v0];
    } else {
      var u := Before(g, v0, dist, w);
      hide DistOk;
      var q := PathShortEnough(g, v0, dist, u);
      PathOn(g, q, v0, u, w);
      p := q + [w];
    }
  }

  // Main theorem: the value is the number of steps of a shortest path, or |g| if there is none.
  lemma DistancesExact(g: Graph, v0: nat, dist: seq<nat>, w: nat)
    requires ValidGraph(g) && DistOk(g, v0, dist) && w < |g|
    ensures dist[w] == |g| <==> !Reaches(g, v0, w)
    ensures forall p :: Path(g, p, v0, w) ==> dist[w] <= |p| - 1
    ensures dist[w] < |g| ==> exists p :: Path(g, p, v0, w) && |p| - 1 == dist[w]
  {
    forall p | Path(g, p, v0, w) ensures dist[w] < |g| && dist[w] <= |p| - 1 {
      PathLongEnough(g, v0, dist, p, w);
    }
    if dist[w] < |g| {
      var p := PathShortEnough(g, v0, dist, w);
    }
  }

  // ----- the distance -----

  ghost predicate WithinSteps(g: Graph, v0: nat, w: nat, k: nat) {
    exists p :: Path(g, p, v0, w) && |p| <= k + 1
  }

  // The least number of steps that leads from v0 to w, or |g| if there is none below it.
  ghost function Far(g: Graph, v0: nat, w: nat): nat {
    FarFrom(g, v0, w, 0)
  }

  ghost function FarFrom(g: Graph, v0: nat, w: nat, k: nat): nat
    decreases |g| - k
  {
    if k >= |g| || WithinSteps(g, v0, w, k) then k else FarFrom(g, v0, w, k + 1)
  }

  lemma {:induction false} FarFromIs(g: Graph, v0: nat, w: nat, k: nat, d: nat)
    requires k <= d <= |g| && forall j: nat :: k <= j < d ==> !WithinSteps(g, v0, w, j)
    requires d < |g| ==> WithinSteps(g, v0, w, d)
    ensures FarFrom(g, v0, w, k) == d
    decreases d - k
  {
    if k < d { FarFromIs(g, v0, w, k + 1, d); }
  }

  lemma DistanceIsFar(g: Graph, v0: nat, dist: seq<nat>, w: nat)
    requires ValidGraph(g) && DistOk(g, v0, dist) && w < |g|
    ensures dist[w] == Far(g, v0, w)
  {
    DistancesExact(g, v0, dist, w);
    if dist[w] < |g| {
      var p :| Path(g, p, v0, w) && |p| - 1 == dist[w];
      assert WithinSteps(g, v0, w, dist[w]);
    }
    assert dist[w] <= |g|;
    FarFromIs(g, v0, w, 0, dist[w]);
  }

  // ----- distances do not separate what equitable refinements keep together -----

  // u has an arc from x; then v has an arc from the class of x.
  lemma Companion(g: Graph, q: seq<nat>, u: nat, v: nat, x: nat) returns (y: nat)
    requires ValidGraph(g) && Equitable(ArcWeights(g), q) && |q| == |g|
    requires u < |g| && v < |g| && x < |g| && q[u] == q[v] && u in g[x]
    ensures y < |g| && q[y] == q[x] && v in g[y]
  {
    var c := Class(q, q[x]);
    assert AgreeAll(ArcWeights(g), q, u, v);
    assert Agree(ArcWeights(g), c, u, v);
    CountIsInto(g, c, u);
    CountIsInto(g, c, v);
    assert x in Into(g, c, u);
    SubsetCard({x}, Into(g, c, u));
    y := Pick(Into(g, c, v));
  }

  // In an equitable partition in which v0 is alone, a path to u has a companion to every vertex of its class.
  lemma {:induction false} CompanionPath(g: Graph, v0: nat, q: seq<nat>, p: seq<nat>, u: nat, v: nat)
    returns (r: seq<nat>)
    requires ValidGraph(g) && Equitable(ArcWeights(g), q) && |q| == |g| && Saturated(q, {v0})
    requires Path(g, p, v0, u) && u < |g| && v < |g| && q[u] == q[v]
    ensures Path(g, r, v0, v) && |r| == |p|
    decreases |p|
  {
    if |p| == 1 {
      assert v in {v0};
      r := p;
    } else {
      var front := p[..|p| - 1];
      var x := front[|front| - 1];
      assert Path(g, front, v0, x) && u in g[x];
      var y := Companion(g, q, u, v, x);
      r := CompanionPath(g, v0, q, front, x, y);
      PathOn(g, r, v0, y, v);
      r := r + [v];
    }
  }

  // Main theorem: vertices of one class are equally far from v0.
  lemma SameDistance(g: Graph, v0: nat, q: seq<nat>, u: nat, v: nat)
    requires ValidGraph(g) && Equitable(ArcWeights(g), q) && |q| == |g| && Saturated(q, {v0})
    requires u < |g| && v < |g| && q[u] == q[v]
    ensures Far(g, v0, u) == Far(g, v0, v)
  {
    forall k: nat ensures WithinSteps(g, v0, u, k) <==> WithinSteps(g, v0, v, k) {
      if WithinSteps(g, v0, u, k) { WithinToo(g, v0, q, u, v, k); }
      if WithinSteps(g, v0, v, k) { WithinToo(g, v0, q, v, u, k); }
    }
    SameFar(g, v0, u, v, 0);
  }

  lemma WithinToo(g: Graph, v0: nat, q: seq<nat>, u: nat, v: nat, k: nat)
    requires ValidGraph(g) && Equitable(ArcWeights(g), q) && |q| == |g| && Saturated(q, {v0})
    requires u < |g| && v < |g| && q[u] == q[v] && WithinSteps(g, v0, u, k)
    ensures WithinSteps(g, v0, v, k)
  {
    var p :| Path(g, p, v0, u) && |p| <= k + 1;
    var r := CompanionPath(g, v0, q, p, u, v);
  }

  lemma {:induction false} SameFar(g: Graph, v0: nat, u: nat, v: nat, k: nat)
    requires forall j: nat :: WithinSteps(g, v0, u, j) <==> WithinSteps(g, v0, v, j)
    ensures FarFrom(g, v0, u, k) == FarFrom(g, v0, v, k)
    decreases |g| - k
  {
    if k < |g| && !WithinSteps(g, v0, u, k) { SameFar(g, v0, u, v, k + 1); }
  }
}
