// Partition refinement of sparse graphs: only cells that are hit by a splitting cell are looked at.
module SparseRefine {
  import opened Sums
  import opened Graphs
  import opened Rows
  import opened Sorting
  import opened GroupOrbits
  import opened Refinement
  import opened Nests
  import opened NestRefinement
  import opened RefineInPlace
  import opened SparseCells
  import opened NestCost
  import opened QueueOrder
  import opened QueuePasses
  import opened PassSteps
  import opened SparseRuns
  import opened Distances

  // ----- one divided cell inside a pass -----

  lemma DividedStep(n: nat, level: int, base: Part, s: Part, t: Part, key: Key, hits: seq<nat>, cs: seq<nat>,
                    act: seq<nat>, nactive: nat, v1: nat, e: nat, spared: nat, q0: seq<nat>, q: seq<nat>)
    requires Passing(n, level, base, s, key, v1, q0, q) && CellAt(s.ptn, level, v1, e)
    requires Divided(n, level, s, t, hits, cs, act, nactive, v1, e, spared, q)
    requires KeyAt(key, t.lab, v1, e, KeyOf(t.lab, hits))
    ensures nactive <= |act| && Passing(n, level, base, t, key, e + 1, q0, act[..nactive])
    ensures SparseOk(n, level, t, cs, act, nactive)
  {
    DividedFacts(n, level, s, t, hits, cs, act, nactive, v1, e, spared, q);
    hide *;
    PassingDone(n, level, base, s, t, key, v1, e, KeyOf(t.lab, hits), spared, q0, q, act[..nactive]);
  }

  lemma DividedFacts(n: nat, level: int, s: Part, t: Part, hits: seq<nat>, cs: seq<nat>, act: seq<nat>, nactive: nat,
                     v1: nat, e: nat, spared: nat, q: seq<nat>)
    requires Divided(n, level, s, t, hits, cs, act, nactive, v1, e, spared, q)
    ensures |hits| == n && (forall i :: 0 <= i < |t.lab| ==> t.lab[i] < n)
    ensures SparseOk(n, level, t, cs, act, nactive) && PartOk(n, level, t) && Permutation(n, t.lab)
    ensures Within(s.lab, s.ptn, t.lab, t.ptn, v1, e) && CutAt(t.ptn, level, v1, e, KeyOf(t.lab, hits))
    ensures Activated(t.ptn, level, v1, e, s.active, t.active, spared) && Finer(s.ptn, t.ptn, level)
    ensures Frugal(LastOfTwo, t.ptn, level, v1, e, s.active, t.active, spared)
    ensures t.numcells == |Starts(t.ptn, level)|
    ensures s.numcells <= t.numcells && (s.numcells == t.numcells ==> t.active == s.active)
    ensures nactive <= |act|
    ensures act[..nactive] == Entered(q, NewStarts(t.ptn, level, v1, e), n, v1, v1 in s.active, spared)
  {
  }

  lemma PartLengths(n: nat, level: int, s: Part)
    requires PartOk(n, level, s)
    ensures |s.ptn| == |s.lab| == n && (n > 0 ==> s.ptn[n - 1] <= level)
    ensures forall d :: d in s.active ==> d < n && IsStart(s.ptn, level, d)
    ensures forall i :: 0 <= i < n ==> s.lab[i] < n
  {
  }

  // ----- what is still to come in a pass -----

  // Classes from c on that are in the list have their keys in hits; the others need no division.
  ghost predicate ToCome(key: Key, col: seq<nat>, hits: seq<nat>, hit: seq<nat>, c: nat) {
    forall d: nat :: d >= c ==> if d in hit then Counted(key, col, hits, d) else OneKey(col, key, d)
  }

  ghost predicate Counted(key: Key, col: seq<nat>, hits: seq<nat>, d: nat) {
    forall x :: x in Class(col, d) ==> x < |hits| && hits[x] == key(x)
  }

  lemma LaterClass(n: nat, level: int, s: Part, t: Part, v1: nat, e: nat, d: nat)
    requires PartOk(n, level, s) && PartOk(n, level, t) && CellAt(s.ptn, level, v1, e)
    requires Within(s.lab, s.ptn, t.lab, t.ptn, v1, e) && d > e
    ensures Class(ColOf(n, level, t), d) == Class(ColOf(n, level, s), d)
  {
    var col, col2 := ColOf(n, level, s), ColOf(n, level, t);
    forall v: nat | v < n ensures col2[v] == d <==> col[v] == d {
      var i := Position(n, s.lab, s.ptn, t.lab, t.ptn, level, v1, e, v);
    }
  }

  lemma ToComeStep(key: Key, n: nat, level: int, s: Part, t: Part, hits: seq<nat>, hit: seq<nat>, c: nat, v1: nat,
                   e: nat)
    requires PartOk(n, level, s) && PartOk(n, level, t) && CellAt(s.ptn, level, v1, e)
    requires Within(s.lab, s.ptn, t.lab, t.ptn, v1, e) && c <= v1
    requires ToCome(key, ColOf(n, level, s), hits, hit, c)
    ensures ToCome(key, ColOf(n, level, t), hits, hit, e + 1)
  {
    var col, col2 := ColOf(n, level, s), ColOf(n, level, t);
    forall d: nat | d >= e + 1
      ensures if d in hit then Counted(key, col2, hits, d) else OneKey(col2, key, d)
    {
      LaterClass(n, level, s, t, v1, e, d);
    }
  }

  lemma CountedKeys(key: Key, n: nat, level: int, s: Part, t: Part, hits: seq<nat>, v1: nat, e: nat)
    requires PartOk(n, level, s) && PartOk(n, level, t) && CellAt(s.ptn, level, v1, e) && |hits| == n
    requires Within(s.lab, s.ptn, t.lab, t.ptn, v1, e) && Counted(key, ColOf(n, level, s), hits, v1)
    requires forall i :: 0 <= i < |t.lab| ==> t.lab[i] < n
    ensures KeyAt(key, t.lab, v1, e, KeyOf(t.lab, hits))
  {
    forall i: nat | v1 <= i <= e ensures KeyOf(t.lab, hits)[i] == key(t.lab[i]) {
      InCellStill(n, level, s, t, v1, e, i);
      assert t.lab[i] in Class(ColOf(n, level, s), v1);
    }
  }

  // ----- cell starts tell the classes -----

  lemma MarkOfVertex(n: nat, level: int, s: Part, cs: seq<nat>, x: nat)
    requires PartOk(n, level, s) && CellStarts(n, s.lab, s.ptn, level, cs) && x < n
    ensures cs[x] != n ==>
      cs[x] == ColOf(n, level, s)[x] && cs[x] < n && IsStart(s.ptn, level, cs[x]) && s.ptn[cs[x]] > level
    ensures cs[x] == n ==> Class(ColOf(n, level, s), ColOf(n, level, s)[x]) == {x}
  {
    var col := ColOf(n, level, s);
    var i := Preimage(n, s.lab, x);
    ColAt(n, s.lab, s.ptn, level, i);
    assert cs[s.lab[i]] == CellMark(n, s.ptn, level, i);
    if cs[x] == n {
      forall y: nat | y < n && col[y] == col[x] ensures y == x {
        var j := Preimage(n, s.lab, y);
        ColAt(n, s.lab, s.ptn, level, j);
        AloneInCell(s.ptn, level, i, j);
      }
    } else {
      var c := StartOf(s.ptn, level, i);
      NotAlone(s.ptn, level, i);
    }
  }

  lemma AloneInCell(ptn: seq<int>, level: int, i: nat, j: nat)
    requires i < |ptn| && j < |ptn| && IsStart(ptn, level, i) && ptn[i] <= level
    requires StartOf(ptn, level, j) == StartOf(ptn, level, i)
    ensures i == j
  {
    StartIsItself(ptn, level, i);
    if i < j { PastEnd(ptn, level, i, j); }
  }

  lemma PastEnd(ptn: seq<int>, level: int, i: nat, j: nat)
    requires i < j < |ptn| && ptn[i] <= level
    ensures i < StartOf(ptn, level, j)
  {
    BeyondStart(ptn, level, i + 1, j);
  }

  // Every vertex of a listed cell has its key in hits, and no vertex of another cell is hit.
  ghost predicate HitKeys(key: Key, n: nat, cs: seq<nat>, hits: seq<nat>, hit: seq<nat>) {
    && |cs| == |hits| == n
    && forall x :: 0 <= x < n && cs[x] != n ==> if cs[x] in hit then hits[x] == key(x) else key(x) == 0
  }

  // All vertices of a class that is the value of one of its cell starts have this cell start.
  lemma ListedClass(n: nat, level: int, s: Part, cs: seq<nat>, d: nat, x: nat)
    requires PartOk(n, level, s) && CellStarts(n, s.lab, s.ptn, level, cs) && d != n
    requires x in Class(ColOf(n, level, s), d) && exists y: nat :: y < n && cs[y] == d
    ensures cs[x] == d
  {
    var y: nat :| y < n && cs[y] == d;
    MarkOfVertex(n, level, s, cs, x);
    MarkOfVertex(n, level, s, cs, y);
    assert y in Class(ColOf(n, level, s), d);
  }

  lemma ToComeStart(key: Key, n: nat, level: int, s: Part, cs: seq<nat>, hits: seq<nat>, hit: seq<nat>)
    requires PartOk(n, level, s) && CellStarts(n, s.lab, s.ptn, level, cs) && HitKeys(key, n, cs, hits, hit)
    requires n !in hit && forall k :: k in hit ==> exists x: nat :: x < n && cs[x] == k
    ensures ToCome(key, ColOf(n, level, s), hits, hit, 0)
  {
    var col := ColOf(n, level, s);
    forall d: nat ensures if d in hit then Counted(key, col, hits, d) else OneKey(col, key, d) {
      if d in hit {
        forall x | x in Class(col, d) ensures hits[x] == key(x) {
          MarkOfVertex(n, level, s, cs, x);
          ListedClass(n, level, s, cs, d, x);
        }
      } else {
        forall u: nat, v: nat | u in Class(col, d) && v in Class(col, d) ensures key(u) == key(v) {
          MarkOfVertex(n, level, s, cs, u);
          MarkOfVertex(n, level, s, cs, v);
        }
      }
    }
  }

  // The listed cells start at ascending positions, each in a cell with several vertices.
  ghost predicate HitList(level: int, ptn: seq<int>, hit: seq<nat>, i: nat, c: nat) {
    && i <= |hit| && (forall k, l :: 0 <= k < l < |hit| ==> hit[k] < hit[l])
    && (forall k :: 0 <= k < i ==> hit[k] < c)
    && (forall k :: i <= k < |hit| ==> c <= hit[k] < |ptn| && IsStart(ptn, level, hit[k]) && ptn[hit[k]] > level)
  }

  // ----- collecting the cells that are hit -----

  // hit lists, without repetition, the starts of cells of several vertices that contain a
  // vertex of seen.
  ghost predicate HitCells(n: nat, cs: seq<nat>, hit: seq<nat>, seen: set<nat>) {
    && |cs| == n && Distinct(hit) && n !in hit
    && (forall x :: x in seen && x < n && cs[x] != n ==> cs[x] in hit)
    && (forall k :: k in hit ==> HasMember(n, cs, k))
  }

  ghost predicate HasMember(n: nat, cs: seq<nat>, k: nat)
    requires |cs| == n
  {
    exists x: nat :: x < n && cs[x] == k
  }

  lemma HitCellsNext(n: nat, cs: seq<nat>, hit: seq<nat>, seen: set<nat>, x: nat)
    requires HitCells(n, cs, hit, seen) && x < n
    ensures HitCells(n, cs, if cs[x] != n && cs[x] !in hit then hit + [cs[x]] else hit, seen + {x})
  {
    if cs[x] != n && cs[x] !in hit {
      assert HasMember(n, cs, cs[x]);
    }
  }

  // Mark the neighbours of v and list the cells that they hit.
  method MarkNeighbours(sg: SparseGraph, cs: array<nat>, v: nat, ghost g: Graph) returns (marks: set<nat>,
                        hit: seq<nat>)
    requires RowsOf(sg, g) && cs.Length == |g| && v < |g|
    ensures marks == g[v] && HitCells(|g|, cs[..], hit, g[v])
  {
    hide *;
    marks, hit := {}, [];
    RowBounds(sg, g, cs[..], v);
    var vi, di := sg.v[v], sg.d[v];
    ghost var row := RowOf(sg, v);
    WholeRow(sg, g, {}, v);
    NoneMarked(row, cs[..], |g|);
    for ii := 0 to di
      invariant marks == Elems(row[..ii]) && HitCells(|g|, cs[..], hit, marks)
    {
      KnownRow(sg, g, v, ii);
      RowPrefix(sg, g, v, ii);
      var j := sg.e[vi + ii];
      HitCellsNext(|g|, cs[..], hit, marks, j);
      marks := marks + {j};
      var k := cs[j];
      if k != cs.Length && k !in hit {
        hit := hit + [k];
      }
    }
    assert row[..di] == row;
    SameElems(row, g[v]);
  }

  lemma NoneMarked(row: seq<nat>, cs: seq<nat>, n: nat)
    requires |cs| == n
    ensures Elems(row[..0]) == {} && HitCells(n, cs, [], {})
  {
  }

  lemma SameElems(row: seq<nat>, s: set<nat>)
    requires forall x :: x in row <==> x in s
    ensures Elems(row) == s
  {
  }

  // Set the hits of all vertices of the cell at k to zero.
  method ClearHits(lab: array<nat>, ptn: array<int>, hits: array<nat>, level: int, k0: nat, ghost e: nat)
    requires lab.Length == ptn.Length == hits.Length && lab != hits && CellAt(ptn[..], level, k0, e)
    requires forall i :: 0 <= i < lab.Length ==> lab[i] < lab.Length
    modifies hits
    ensures forall i :: k0 <= i <= e ==> hits[lab[i]] == 0
    ensures forall x :: 0 <= x < hits.Length && x !in lab[k0..e + 1] ==> hits[x] == old(hits[x])
  {
    var k := k0;
    while true
      invariant k0 <= k <= e
      invariant forall i :: k0 <= i < k ==> hits[lab[i]] == 0
      invariant forall x :: 0 <= x < hits.Length && x !in lab[k0..e + 1] ==> hits[x] == old(hits[x])
      decreases e - k
    {
      assert lab[k0..e + 1][k - k0] == lab[k];
      hits[lab[k]] := 0;
      k := k + 1;
      if ptn[k - 1] <= level { break; }
    }
  }

  // hits counts, for the vertices of listed cells, arcs from the vertices of done and from u to
  // the vertices of part; nothing else in a cell of several vertices has been hit.
  ghost predicate Tallying(g: Graph, cs: seq<nat>, hits: seq<nat>, hit: seq<nat>, done: set<nat>, part: seq<nat>) {
    && |cs| == |hits| == |g|
    && forall x: nat :: x < |g| && cs[x] != |g| ==> TallyAt(g, cs, hits, hit, done, part, x)
  }

  ghost predicate TallyAt(g: Graph, cs: seq<nat>, hits: seq<nat>, hit: seq<nat>, done: set<nat>, part: seq<nat>, x: nat)
    requires |cs| == |hits| == |g| && x < |g|
  {
    var c := Count(ArcWeights(g), done, x) + if x in part then 1 else 0;
    if cs[x] in hit then hits[x] == c else c == 0
  }

  // The neighbour j, in a cell that is listed already or has just been cleared, is hit once more.
  lemma TallyHit(g: Graph, cs: seq<nat>, hits: seq<nat>, hits1: seq<nat>, hit: seq<nat>, hit1: seq<nat>, done: set<nat>,
                 part: seq<nat>, j: nat)
    requires Tallying(g, cs, hits, hit, done, part) && j < |g| && j !in part && cs[j] != |g| && |hits1| == |g|
    requires hit1 == if cs[j] in hit then hit else hit + [cs[j]]
    requires forall x: nat :: x < |g| && cs[x] != |g| ==>
      hits1[x] == (if cs[x] == cs[j] && cs[j] !in hit then 0 else hits[x]) + if x == j then 1 else 0
    ensures Tallying(g, cs, hits1, hit1, done, part + [j])
  {
    forall x: nat | x < |g| && cs[x] != |g| ensures TallyAt(g, cs, hits1, hit1, done, part + [j], x) {
      assert TallyAt(g, cs, hits, hit, done, part, x);
      assert x in part + [j] <==> x in part || x == j;
      assert cs[x] in hit1 <==> cs[x] in hit || cs[x] == cs[j];
    }
  }

  lemma TallyMiss(g: Graph, cs: seq<nat>, hits: seq<nat>, hit: seq<nat>, done: set<nat>, part: seq<nat>, j: nat)
    requires Tallying(g, cs, hits, hit, done, part) && j < |g| && cs[j] == |g|
    ensures Tallying(g, cs, hits, hit, done, part + [j])
  {
    forall x: nat | x < |g| && cs[x] != |g| ensures TallyAt(g, cs, hits, hit, done, part + [j], x) {
      assert TallyAt(g, cs, hits, hit, done, part, x);
      assert x in part + [j] <==> x in part || x == j;
    }
  }

  // The whole row of u has been read.
  lemma TallyRow(g: Graph, cs: seq<nat>, hits: seq<nat>, hit: seq<nat>, done: set<nat>, part: seq<nat>, u: nat)
    requires Tallying(g, cs, hits, hit, done, part) && u < |g| && u !in done
    requires forall x :: x in part <==> x in g[u]
    ensures Tallying(g, cs, hits, hit, done + {u}, [])
  {
    forall x: nat | x < |g| && cs[x] != |g| ensures TallyAt(g, cs, hits, hit, done + {u}, [], x) {
      assert TallyAt(g, cs, hits, hit, done, part, x);
      CountOut(ArcWeights(g), done + {u}, u, x);
      assert done + {u} - {u} == done;
    }
  }

  lemma TallyStart(g: Graph, cs: seq<nat>, hits: seq<nat>)
    requires |cs| == |hits| == |g|
    ensures Tallying(g, cs, hits, [], {}, [])
  {
    forall x: nat | x < |g| && cs[x] != |g| ensures TallyAt(g, cs, hits, [], {}, [], x) {
      assert Count(ArcWeights(g), {}, x) == 0;
    }
  }

  // The vertices whose cell start is k are those at the positions of the cell.
  lemma MarkedMembers(n: nat, level: int, s: Part, cs: seq<nat>, k: nat, e: nat, x: nat)
    requires PartOk(n, level, s) && CellStarts(n, s.lab, s.ptn, level, cs) && CellAt(s.ptn, level, k, e) && k < e
    requires x < n
    ensures cs[x] == k <==> x in s.lab[k..e + 1]
  {
    MarkOfVertex(n, level, s, cs, x);
    var i := Position(n, s.lab, s.ptn, s.lab, s.ptn, level, k, e, x);
    if k <= i <= e {
      assert s.lab[k..e + 1][i - k] == x;
      InCell(s.ptn, level, k, e, i);
      assert cs[s.lab[i]] == CellMark(n, s.ptn, level, i);
    }
    if x in s.lab[k..e + 1] {
      var l :| 0 <= l <= e - k && s.lab[k..e + 1][l] == x;
      assert s.lab[k + l] == s.lab[i];
    }
  }

  // Clear the counters of exactly the vertices whose cell starts at k.
  method ClearCell(lab: array<nat>, ptn: array<int>, hits: array<nat>, level: int, k: nat,
                   ghost n: nat, ghost s: Part, ghost cs: seq<nat>)
    requires lab.Length == ptn.Length == hits.Length == n && lab != hits
    requires s.lab == lab[..] && s.ptn == ptn[..] && PartOk(n, level, s) && CellStarts(n, s.lab, s.ptn, level, cs)
    requires k < n && IsStart(s.ptn, level, k) && s.ptn[k] > level
    modifies hits
    ensures forall x :: 0 <= x < n ==> hits[x] == if cs[x] == k then 0 else old(hits[x])
  {
    LastEnds(n, level, s);
    hide PartOk, IsStart;
    ghost var e := CellExists(s.ptn, level, k);
    assert k < e by { hide *; CellIsWide(s.ptn, level, k, e); }
    ClearHits(lab, ptn, hits, level, k, e);
    forall x | 0 <= x < n ensures hits[x] == if cs[x] == k then 0 else old(hits[x]) {
      MarkedMembers(n, level, s, cs, k, e, x);
      if cs[x] == k {
        hide CellAt, CellStarts;
        var l :| 0 <= l < e + 1 - k && lab[k..e + 1][l] == x;
        assert lab[k + l] == x;
      }
    }
  }

  lemma CellIsWide(ptn: seq<int>, level: int, k: nat, e: nat)
    requires CellAt(ptn, level, k, e) && ptn[k] > level
    ensures k < e
  {
  }

  // Count one more hit of vertex j.
  method HitVertex(lab: array<nat>, ptn: array<int>, cs: array<nat>, hits: array<nat>, level: int, j: nat,
                   hit0: seq<nat>,
                   ghost g: Graph, ghost s: Part, ghost done: set<nat>, ghost part: seq<nat>)
    returns (hit: seq<nat>)
    requires lab.Length == ptn.Length == cs.Length == hits.Length == |g| && lab != hits && cs != hits
    requires s.lab == lab[..] && s.ptn == ptn[..] && PartOk(|g|, level, s)
    requires CellStarts(|g|, s.lab, s.ptn, level, cs[..])
    requires Tallying(g, cs[..], hits[..], hit0, done, part) && j < |g| && j !in part
    modifies hits
    ensures hit == if cs[j] != |g| && cs[j] !in hit0 then hit0 + [cs[j]] else hit0
    ensures Tallying(g, cs[..], hits[..], hit, done, part + [j])
  {
    hit := hit0;
    var k := cs[j];
    ghost var was, marks := hits[..], cs[..];
    MarkOfVertex(|g|, level, s, marks, j);
    hide *;
    if k != cs.Length {
      if k !in hit {
        hit := hit + [k];
        ClearCell(lab, ptn, hits, level, k, |g|, s, marks);
      }
      hits[j] := hits[j] + 1;
      TallyHit(g, marks, was, hits[..], hit0, hit, done, part, j);
    } else {
      TallyMiss(g, marks, was, hit, done, part, j);
    }
  }

  lemma LastEnds(n: nat, level: int, s: Part)
    requires PartOk(n, level, s)
    ensures |s.ptn| == |s.lab| == n && (n > 0 ==> s.ptn[n - 1] <= level) && forall i :: 0 <= i < n ==> s.lab[i] < n
  {
  }

  // Count the hits from all neighbours of u.
  method HitRow(sg: SparseGraph, lab: array<nat>, ptn: array<int>, cs: array<nat>, hits: array<nat>, level: int, u: nat,
                hit0: seq<nat>,
                ghost g: Graph, ghost s: Part, ghost done: set<nat>)
    returns (hit: seq<nat>)
    requires RowsOf(sg, g) && lab.Length == ptn.Length == cs.Length == hits.Length == |g| && lab != hits && cs != hits
    requires s.lab == lab[..] && s.ptn == ptn[..] && PartOk(|g|, level, s)
    requires CellStarts(|g|, s.lab, s.ptn, level, cs[..])
    requires Tallying(g, cs[..], hits[..], hit0, done, []) && HitCells(|g|, cs[..], hit0, ReachOf(g, done)) && u < |g|
    requires u !in done
    modifies hits
    ensures Tallying(g, cs[..], hits[..], hit, done + {u}, []) && HitCells(|g|, cs[..], hit, ReachOf(g, done + {u}))
  {
    hide *;
    hit := hit0;
    RowBounds(sg, g, cs[..], u);
    var vi, di := sg.v[u], sg.d[u];
    ghost var row, seen := RowOf(sg, u), ReachOf(g, done);
    WholeRow(sg, g, done, u);
    NothingRead(row, seen);
    for ii := 0 to di
      invariant Tallying(g, cs[..], hits[..], hit, done, row[..ii])
      invariant HitCells(|g|, cs[..], hit, seen + Elems(row[..ii]))
    {
      KnownRow(sg, g, u, ii);
      var j := sg.e[vi + ii];
      RowPrefix(sg, g, u, ii);
      HitCellsNext(|g|, cs[..], hit, seen + Elems(row[..ii]), j);
      OneMoreSeen(seen, Elems(row[..ii]), j);
      hit := HitVertex(lab, ptn, cs, hits, level, j, hit, g, s, done, row[..ii]);
    }
    assert row[..di] == row;
    TallyRow(g, cs[..], hits[..], hit, done, row, u);
  }

  lemma NothingRead(row: seq<nat>, seen: set<nat>)
    ensures row[..0] == [] && seen + Elems(row[..0]) == seen
  {
  }

  lemma OneMoreSeen(a: set<nat>, b: set<nat>, x: nat)
    ensures a + (b + {x}) == a + b + {x}
  {
  }

  lemma RowPrefix(sg: SparseGraph, g: Graph, u: nat, ii: nat)
    requires RowsOf(sg, g) && u < |g| && sg.v[u] + sg.d[u] <= |sg.e| && ii < sg.d[u]
    ensures var row := RowOf(sg, u);
      row[..ii + 1] == row[..ii] + [row[ii]] && row[ii] !in row[..ii]
        && Elems(row[..ii + 1]) == Elems(row[..ii]) + {row[ii]}
  {
    var row := RowOf(sg, u);
    assert RowOk(sg, g, u);
    Earlier(row, 0, ii);
    assert row[0..ii] == row[..ii];
  }

  lemma WholeRow(sg: SparseGraph, g: Graph, done: set<nat>, u: nat)
    requires RowsOf(sg, g) && u < |g| && sg.v[u] + sg.d[u] <= |sg.e|
    ensures |RowOf(sg, u)| == sg.d[u] && forall x :: x in RowOf(sg, u) <==> x in g[u]
    ensures ReachOf(g, done) + Elems(RowOf(sg, u)) == ReachOf(g, done + {u})
  {
    assert RowOk(sg, g, u);
  }

  // The neighbours of a set of vertices.
  ghost function ReachOf(g: Graph, done: set<nat>): set<nat> {
    set u, x | u in done && u < |g| && x in g[u] :: x
  }

  // Count the hits from all vertices of the cell from isplit to e.
  method CountHits(sg: SparseGraph, lab: array<nat>, ptn: array<int>, cs: array<nat>, hits: array<nat>, level: int,
                   isplit: nat,
                   ghost g: Graph, ghost s: Part, ghost e: nat)
    returns (hit: seq<nat>)
    requires RowsOf(sg, g) && lab.Length == ptn.Length == cs.Length == hits.Length == |g| && lab != hits && cs != hits
    requires s.lab == lab[..] && s.ptn == ptn[..] && PartOk(|g|, level, s)
    requires CellStarts(|g|, s.lab, s.ptn, level, cs[..])
    requires CellAt(s.ptn, level, isplit, e)
    modifies hits
    ensures HitCells(|g|, cs[..], hit, ReachOf(g, Members(s.lab, isplit, e)))
    ensures HitKeys(ArcKey(g, Members(s.lab, isplit, e)), |g|, cs[..], hits[..], hit)
  {
    hide *;
    hit := [];
    ghost var done: set<nat> := {};
    TallyStart(g, cs[..], hits[..]);
    NothingHit(g, cs[..]);
    CellBounds(s.ptn, level, isplit, e);
    LastEnds(|g|, level, s);
    NoRepeats(|g|, level, s);
    NoneBetween(s.lab, isplit);
    var i := isplit;
    while true
      invariant isplit <= i <= e && done == Elems(s.lab[isplit..i])
      invariant Tallying(g, cs[..], hits[..], hit, done, []) && HitCells(|g|, cs[..], hit, ReachOf(g, done))
      decreases e - i
    {
      var u := lab[i];
      OneFurther(s.lab, isplit, i);
      hit := HitRow(sg, lab, ptn, cs, hits, level, u, hit, g, s, done);
      done := done + {u};
      i := i + 1;
      if ptn[i - 1] <= level { break; }
    }
    TallyDone(g, cs[..], hits[..], hit, done);
    MembersIs(s.lab, isplit, e);
  }

  lemma OneFurther(lab: seq<nat>, lo: nat, i: nat)
    requires Distinct(lab) && lo <= i < |lab|
    ensures lab[i] !in Elems(lab[lo..i]) && Elems(lab[lo..i + 1]) == Elems(lab[lo..i]) + {lab[i]}
  {
    Earlier(lab, lo, i);
    assert lab[lo..i + 1] == lab[lo..i] + [lab[i]];
  }

  lemma MembersIs(lab: seq<nat>, c1: nat, c2: nat)
    requires c1 <= c2 < |lab|
    ensures Members(lab, c1, c2) == Elems(lab[c1..c2 + 1])
  {
  }

  lemma NothingHit(g: Graph, cs: seq<nat>)
    requires |cs| == |g|
    ensures HitCells(|g|, cs, [], ReachOf(g, {}))
  {
  }

  lemma NoneBetween(lab: seq<nat>, i: nat)
    requires i <= |lab|
    ensures Elems(lab[i..i]) == {}
  {
  }

  lemma NoRepeats(n: nat, level: int, s: Part)
    requires PartOk(n, level, s)
    ensures Distinct(s.lab)
  {
  }

  lemma Earlier(lab: seq<nat>, lo: nat, i: nat)
    requires Distinct(lab) && lo <= i < |lab|
    ensures lab[i] !in lab[lo..i]
  {
    forall k | 0 <= k < i - lo ensures lab[lo..i][k] != lab[i] {
      assert lab[lo + k] != lab[i];
    }
  }

  lemma TallyDone(g: Graph, cs: seq<nat>, hits: seq<nat>, hit: seq<nat>, done: set<nat>)
    requires Tallying(g, cs, hits, hit, done, [])
    ensures HitKeys(ArcKey(g, done), |g|, cs, hits, hit)
  {
    forall x: nat | x < |g| && cs[x] != |g|
      ensures if cs[x] in hit then hits[x] == ArcKey(g, done)(x) else ArcKey(g, done)(x) == 0
    {
      assert TallyAt(g, cs, hits, hit, done, [], x);
    }
  }

  // ----- dividing a cell by adjacency to one vertex -----

  ghost function Indicator(n: nat, marks: set<nat>): (h: seq<nat>)
    ensures |h| == n
  {
    seq(n, x requires 0 <= x < n => if x in marks then 1 else 0)
  }

  // Unmarked vertices have been moved to v1..v2-1, marked ones to the first k places of work.
  ghost predicate Parting(lab0: seq<nat>, lab: seq<nat>, work: seq<nat>, marks: set<nat>, v1: nat, v2: nat, j: nat,
                          e: nat, k: nat) {
    && |lab| == |lab0| && v1 <= v2 <= j <= e + 1 <= |lab| && v2 + k == j && k <= |work|
    && (forall i :: 0 <= i < |lab| && (i < v1 || j <= i) ==> lab[i] == lab0[i])
    && (forall i :: v1 <= i < v2 ==> lab[i] !in marks)
    && (forall i :: 0 <= i < k ==> work[i] in marks)
    && multiset(lab[v1..v2]) + multiset(work[..k]) == multiset(lab0[v1..j])
  }

  lemma PartMark(lab0: seq<nat>, lab: seq<nat>, work: seq<nat>, marks: set<nat>, v1: nat, v2: nat, j: nat, e: nat,
                 k: nat)
    requires Parting(lab0, lab, work, marks, v1, v2, j, e, k) && j <= e && lab[j] in marks && k < |work|
    ensures Parting(lab0, lab, work[k := lab[j]], marks, v1, v2, j + 1, e, k + 1)
  {
    OneMore(lab0, v1, j);
    OneMore(work[k := lab[j]], 0, k);
    assert work[k := lab[j]][0..k] == work[..k];
  }

  lemma OneMore(xs: seq<nat>, a: nat, b: nat)
    requires a <= b < |xs|
    ensures multiset(xs[a..b + 1]) == multiset(xs[a..b]) + multiset{xs[b]}
  {
    assert xs[a..b + 1] == xs[a..b] + [xs[b]];
  }

  lemma PartKeep(lab0: seq<nat>, lab: seq<nat>, work: seq<nat>, marks: set<nat>, v1: nat, v2: nat, j: nat, e: nat,
                 k: nat)
    requires Parting(lab0, lab, work, marks, v1, v2, j, e, k) && j <= e && lab[j] !in marks
    ensures Parting(lab0, lab[v2 := lab[j]], work, marks, v1, v2 + 1, j + 1, e, k)
  {
    OneMore(lab0, v1, j);
    OneMore(lab[v2 := lab[j]], v1, v2);
    assert lab[v2 := lab[j]][v1..v2] == lab[v1..v2];
  }

  lemma PartStep(lab0: seq<nat>, lab: seq<nat>, work: seq<nat>, marks: set<nat>, v1: nat, v2: nat, j: nat, e: nat,
                 k: nat)
    requires Parting(lab0, lab, work, marks, v1, v2, j, e, k) && j <= e
    ensures lab[j] in marks && k < |work| ==> Parting(lab0, lab, work[k := lab[j]], marks, v1, v2, j + 1, e, k + 1)
    ensures lab[j] !in marks ==> Parting(lab0, lab[v2 := lab[j]], work, marks, v1, v2 + 1, j + 1, e, k)
  {
    if lab[j] in marks && k < |work| { PartMark(lab0, lab, work, marks, v1, v2, j, e, k); }
    if lab[j] !in marks { PartKeep(lab0, lab, work, marks, v1, v2, j, e, k); }
  }

  // Marked vertices are written back after the others, with their new cell start.
  ghost predicate Returning(lab0: seq<nat>, lab: seq<nat>, work: seq<nat>, marks: set<nat>, v1: nat, v2: nat, v3: nat,
                            e: nat, k: nat) {
    && |lab| == |lab0| && v1 <= v2 <= v3 <= e + 1 <= |lab| && v3 + k == e + 1 && k <= |work|
    && (forall i :: 0 <= i < |lab| && (i < v1 || e < i) ==> lab[i] == lab0[i])
    && (forall i :: v1 <= i < v2 ==> lab[i] !in marks)
    && (forall i :: v2 <= i < v3 ==> lab[i] in marks) && (forall i :: 0 <= i < k ==> work[i] in marks)
    && multiset(lab[v1..v3]) + multiset(work[..k]) == multiset(lab0[v1..e + 1])
  }

  lemma ReturnStep(lab0: seq<nat>, lab: seq<nat>, work: seq<nat>, marks: set<nat>, v1: nat, v2: nat, v3: nat, e: nat,
                   k: nat)
    requires Returning(lab0, lab, work, marks, v1, v2, v3, e, k) && k > 0
    ensures Returning(lab0, lab[v3 := work[k - 1]], work, marks, v1, v2, v3 + 1, e, k - 1)
  {
    var x := work[k - 1];
    var lab1 := lab[v3 := x];
    assert work[..k] == work[..k - 1] + [x];
    assert lab1[v1..v3 + 1] == lab[v1..v3] + [x];
    MoveOne(lab[v1..v3], work[..k - 1], x);
  }

  lemma MoveOne(a: seq<nat>, b: seq<nat>, x: nat)
    ensures multiset(a + [x]) + multiset(b) == multiset(a) + multiset(b + [x])
  {
  }

  method PartOne(lab: array<nat>, work: array<nat>, marks: set<nat>, v20: nat, k0: nat, j: nat, ghost lab0: seq<nat>,
                 ghost v1: nat, ghost e: nat)
    returns (v2: nat, k: nat)
    requires lab.Length == work.Length && lab != work && j <= e
    requires Parting(lab0, lab[..], work[..], marks, v1, v20, j, e, k0)
    modifies lab, work
    ensures Parting(lab0, lab[..], work[..], marks, v1, v2, j + 1, e, k)
  {
    v2, k := v20, k0;
    ghost var was, w0 := lab[..], work[..];
    PartBounds(lab0, was, w0, marks, v1, v2, j, e, k);
    PartStep(lab0, was, w0, marks, v1, v2, j, e, k);
    hide Parting;
    var lj := lab[j];
    if lj in marks {
      work[k] := lj;
      assert work[..] == w0[k := lj];
      k := k + 1;
    } else {
      lab[v2] := lj;
      assert lab[..] == was[v2 := lj];
      v2 := v2 + 1;
    }
  }

  // Separate the marked vertices of the cell from the others.
  method Separate(lab: array<nat>, ptn: array<int>, work: array<nat>, level: int, marks: set<nat>, v1: nat,
                  ghost e: nat)
    returns (v2: nat, k: nat)
    requires lab.Length == ptn.Length == work.Length && lab != work && CellAt(ptn[..], level, v1, e)
    modifies lab, work
    ensures Returning(old(lab[..]), lab[..], work[..], marks, v1, v2, v2, e, k)
  {
    hide *;
    ghost var lab0 := lab[..];
    var j := v1;
    v2, k := v1, 0;
    CellBounds(ptn[..], level, v1, e);
    PartStart(lab0, work[..], marks, v1, e);
    while true
      invariant v1 <= j <= e && Parting(lab0, lab[..], work[..], marks, v1, v2, j, e, k)
      decreases e - j
    {
      v2, k := PartOne(lab, work, marks, v2, k, j, lab0, v1, e);
      j := j + 1;
      if ptn[j - 1] <= level { break; }
    }
    PartEnd(lab0, lab[..], work[..], marks, v1, v2, e, k);
  }

  lemma PartStart(lab: seq<nat>, work: seq<nat>, marks: set<nat>, v1: nat, e: nat)
    requires v1 <= e < |lab|
    ensures Parting(lab, lab, work, marks, v1, v1, v1, e, 0)
  {
  }

  lemma PartBounds(lab0: seq<nat>, lab: seq<nat>, work: seq<nat>, marks: set<nat>, v1: nat, v2: nat, j: nat, e: nat,
                   k: nat)
    requires Parting(lab0, lab, work, marks, v1, v2, j, e, k) && j <= e && |work| == |lab|
    ensures v2 <= j < |lab| && k < |work|
  {
  }

  lemma PartEnd(lab0: seq<nat>, lab: seq<nat>, work: seq<nat>, marks: set<nat>, v1: nat, v2: nat, e: nat, k: nat)
    requires Parting(lab0, lab, work, marks, v1, v2, e + 1, e, k)
    ensures Returning(lab0, lab, work, marks, v1, v2, v2, e, k)
  {
  }

  // The vertices at positions v2..v3-1 have cell start v2, the others what they had.
  ghost predicate StartsBack(cs0: seq<nat>, cs: seq<nat>, lab: seq<nat>, v2: nat, v3: nat) {
    && |cs| == |cs0| && v2 <= v3 <= |lab|
    && forall x :: 0 <= x < |cs| ==> cs[x] == if x in lab[v2..v3] then v2 else cs0[x]
  }

  lemma ReturnBounds(lab0: seq<nat>, lab: seq<nat>, work: seq<nat>, marks: set<nat>, v1: nat, v2: nat, v3: nat, e: nat,
                     k: nat)
    requires Returning(lab0, lab, work, marks, v1, v2, v3, e, k)
    ensures v2 <= v3 && v3 + k == e + 1 <= |lab| && k <= |work| && (k > 0 ==> work[k - 1] in marks)
  {
  }

  lemma NoneBack(cs: seq<nat>, lab: seq<nat>, v2: nat)
    requires v2 <= |lab|
    ensures StartsBack(cs, cs, lab, v2, v2)
  {
  }

  lemma StartsBackNext(cs0: seq<nat>, cs: seq<nat>, lab: seq<nat>, v2: nat, v3: nat, j: nat)
    requires StartsBack(cs0, cs, lab, v2, v3) && v3 < |lab| && j < |cs|
    ensures StartsBack(cs0, cs[j := v2], lab[v3 := j], v2, v3 + 1)
  {
    assert lab[v3 := j][v2..v3 + 1] == lab[v2..v3] + [j];
  }

  method ReturnOne(lab: array<nat>, cs: array<nat>, work: array<nat>, marks: set<nat>, v2: nat, v3: nat, k: nat,
                   ghost lab0: seq<nat>, ghost cs0: seq<nat>, ghost v1: nat, ghost e: nat)
    requires lab.Length == cs.Length == work.Length && lab != cs && lab != work && cs != work && k > 0
    requires Returning(lab0, lab[..], work[..], marks, v1, v2, v3, e, k) && forall x :: x in marks ==> x < cs.Length
    requires StartsBack(cs0, cs[..], lab[..], v2, v3)
    modifies lab, cs
    ensures Returning(lab0, lab[..], work[..], marks, v1, v2, v3 + 1, e, k - 1)
    ensures StartsBack(cs0, cs[..], lab[..], v2, v3 + 1)
  {
    hide Returning, StartsBack;
    ghost var was, cs1 := lab[..], cs[..];
    ReturnBounds(lab0, was, work[..], marks, v1, v2, v3, e, k);
    ReturnStep(lab0, was, work[..], marks, v1, v2, v3, e, k);
    var j := work[k - 1];
    cs[j] := v2;
    lab[v3] := j;
    assert lab[..] == was[v3 := j] && cs[..] == cs1[j := v2];
    StartsBackNext(cs0, cs1, was, v2, v3, j);
  }

  // Write the marked vertices back.
  method Return(lab: array<nat>, cs: array<nat>, work: array<nat>, marks: set<nat>, v1: nat, v2: nat, k0: nat,
                ghost lab0: seq<nat>, ghost e: nat)
    returns (v3: nat)
    requires lab.Length == cs.Length == work.Length && lab != cs && lab != work && cs != work
    requires Returning(lab0, lab[..], work[..], marks, v1, v2, v2, e, k0)
    requires (forall x :: x in marks ==> x < cs.Length)
    modifies lab, cs
    ensures v3 == e + 1 && Returning(lab0, lab[..], work[..], marks, v1, v2, v3, e, 0)
    ensures StartsBack(old(cs[..]), cs[..], lab[..], v2, e + 1)
  {
    v3 := v2;
    var k: nat := k0;
    hide *;
    ghost var cs0 := cs[..];
    ReturnBounds(lab0, lab[..], work[..], marks, v1, v2, v2, e, k);
    NoneBack(cs0, lab[..], v2);
    while k > 0
      invariant Returning(lab0, lab[..], work[..], marks, v1, v2, v3, e, k) && v3 + k == e + 1
      invariant StartsBack(cs0, cs[..], lab[..], v2, v3)
    {
      ReturnOne(lab, cs, work, marks, v2, v3, k, lab0, cs0, v1, e);
      k := k - 1;
      v3 := v3 + 1;
    }
  }

  // After the vertices have been written back, the stretch is a rearrangement.
  lemma ReturnedPermutes(n: nat, lab0: seq<nat>, lab: seq<nat>, work: seq<nat>, marks: set<nat>, v1: nat, v2: nat,
                         e: nat)
    requires Returning(lab0, lab, work, marks, v1, v2, e + 1, e, 0) && Permutation(n, lab0) && v1 <= e
    ensures Permutation(n, lab) && SameOutside(lab0, lab, v1, e) && v1 <= v2 <= e + 1 <= n
    ensures (forall i :: v1 <= i < v2 ==> lab[i] !in marks) && forall i :: v2 <= i <= e ==> lab[i] in marks
  {
    assert work[..0] == [];
    assert multiset(lab[v1..e + 1]) == multiset(lab0[v1..e + 1]);
    StretchPermutes(n, lab0, lab, v1, e + 1);
  }

  lemma SiftedKey(n: nat, lab: seq<nat>, marks: set<nat>, v1: nat, v2: nat, e: nat)
    requires Permutation(n, lab) && v1 <= v2 <= e + 1 <= n
    requires (forall i :: v1 <= i < v2 ==> lab[i] !in marks) && forall i :: v2 <= i <= e ==> lab[i] in marks
    ensures (forall i :: 0 <= i < n ==> lab[i] < n) && |Indicator(n, marks)| == n
    ensures forall i :: v1 <= i <= e ==> KeyOf(lab, Indicator(n, marks))[i] == if i < v2 then 0 else 1
  {
  }

  // The cell was rearranged only.
  lemma Rearranged(n: nat, level: int, s: Part, lab: seq<nat>, hits: seq<nat>, cs: seq<nat>, act: seq<nat>,
                   nactive: nat, v1: nat, e: nat)
    requires SparseOk(n, level, s, cs, act, nactive) && |hits| == n && CellAt(s.ptn, level, v1, e) && v1 < e
    requires Permutation(n, lab) && SameOutside(s.lab, lab, v1, e) && (forall i :: 0 <= i < n ==> lab[i] < n)
    requires forall i :: v1 <= i <= e ==> KeyOf(lab, hits)[i] == KeyOf(lab, hits)[v1]
    ensures nactive <= |act|
    ensures Divided(n, level, s, s.(lab := lab), hits, cs, act, nactive, v1, e, v1, act[..nactive])
  {
    NothingEnqueued(n, level, s.ptn, v1, e, v1 in s.active, v1, act, nactive);
    NoCut(LastOfTwo, s.ptn, level, v1, e, s.active, KeyOf(lab, hits));
    CsStart(n, s.lab, lab, s.ptn, level, cs, v1, e);
    forall i | 0 <= i < n ensures cs[lab[i]] == CellMark(n, s.ptn, level, i) {
      if v1 <= i <= e { InCell(s.ptn, level, v1, e, i); }
    }
    assert PartOk(n, level, s.(lab := lab));
  }

  // The marked vertices form the second block.
  lemma SiftedTwo(n: nat, level: int, s: Part, lab: seq<nat>, hits: seq<nat>, cs0: seq<nat>, mid: seq<nat>,
                  cs: seq<nat>, v1: nat, v2: nat, e: nat)
    requires PartOk(n, level, s) && CellStarts(n, s.lab, s.ptn, level, cs0) && CellAt(s.ptn, level, v1, e)
    requires |hits| == n
    requires Permutation(n, lab) && SameOutside(s.lab, lab, v1, e) && v1 < v2 <= e < n == |lab|
    requires forall i :: 0 <= i < n ==> lab[i] < n
    requires forall i :: v1 <= i <= e ==> KeyOf(lab, hits)[i] == if i < v2 then 0 else 1
    requires MarksBlock(lab, cs0, mid, n, v1, v2) && MarksBlock(lab, mid, cs, n, v2, e + 1)
    ensures v2 <= |s.ptn| && Dividing(n, level, s, lab, hits, s.ptn[v2 - 1 := level], cs, v1, e + 1, e + 1, {v2})
    ensures v2 !in s.active
  {
    hide *;
    CellBounds(s.ptn, level, v1, e);
    PartActive(n, level, s);
    SiftedBlocks(KeyOf(lab, hits), v1, v2, e);
    DividingStart(n, level, s, lab, hits, cs0, v1, e);
    TwoDivided(n, level, s, lab, hits, cs0, mid, cs, v1, v2, e + 1, e);
    NothingPending(s.ptn[v2 - 1 := level], level, e);
    NewsRoom(n, level, s, lab, hits, s.ptn[v2 - 1 := level], cs, v1, e + 1, e + 1, {v2});
  }

  lemma SiftedBlocks(key: seq<int>, v1: nat, v2: nat, e: nat)
    requires v1 < v2 <= e < |key| && forall i :: v1 <= i <= e ==> key[i] == if i < v2 then 0 else 1
    ensures OneBlock(key, e + 1, v1, v2) && OneBlock(key, e + 1, v2, e + 1)
    ensures forall i, k :: v1 <= i < k <= e ==> key[i] <= key[k]
  {
  }

  lemma NothingPending(ptn: seq<int>, level: int, e: nat)
    requires e < |ptn|
    ensures Pending(ptn, level, e, e + 1) == ptn
  {
  }

  lemma PartActive(n: nat, level: int, s: Part)
    requires PartOk(n, level, s)
    ensures ActiveOk(s.ptn, level, s.active) && |s.ptn| == n
  {
  }

  // Cell starts of the two blocks: those of the marked vertices have been set to v2 already.
  method MarkSifted(lab: array<nat>, cs: array<nat>, v1: nat, v2: nat, v3: nat,
                    ghost cs0: seq<nat>) returns (ghost mid: seq<nat>)
    requires lab.Length == cs.Length == |cs0| && lab != cs && v1 < v2 < v3 <= lab.Length
    requires Permutation(lab.Length, lab[..])
    requires forall i :: 0 <= i < lab.Length ==>
      lab[i] < lab.Length && cs[lab[i]] == if v2 <= i < v3 then v2 else cs0[lab[i]]
    requires forall i :: v1 <= i < v3 ==> cs0[lab[i]] == v1
    modifies cs
    ensures MarksBlock(lab[..], cs0, mid, lab.Length, v1, v2) && MarksBlock(lab[..], mid, cs[..], lab.Length, v2, v3)
  {
    ghost var n := lab.Length;
    mid := if v2 == v1 + 1 then cs0[lab[v1] := n] else cs0;
    if v2 == v1 + 1 { cs[lab[v1]] := lab.Length; }
    if v3 == v2 + 1 { cs[lab[v2]] := lab.Length; }
    forall i | 0 <= i < n
      ensures mid[lab[i]] == if v1 <= i < v2 then (if v2 == v1 + 1 then n else v1) else cs0[lab[i]]
      ensures cs[lab[i]] == if v2 <= i < v3 then (if v3 == v2 + 1 then n else v2) else mid[lab[i]]
    {
      if i != v1 { assert lab[i] != lab[v1]; }
      if i != v2 { assert lab[i] != lab[v2]; }
    }
  }

  // Bring the marked vertices of the cell to its end, and give them its position as cell start.
  method PartMarked(lab: array<nat>, ptn: array<int>, cs: array<nat>, work: array<nat>, level: int, marks: set<nat>,
                    v1: nat,
                    ghost s: Part, ghost cs0: seq<nat>, ghost e: nat)
    returns (v2: nat, v3: nat)
    requires lab.Length == ptn.Length == cs.Length == work.Length && lab != cs && lab != work && work != cs
    requires s.lab == lab[..] && s.ptn == ptn[..] && cs0 == cs[..] && PartOk(lab.Length, level, s)
    requires Permutation(lab.Length, s.lab) && CellStarts(lab.Length, s.lab, s.ptn, level, cs0)
    requires CellAt(s.ptn, level, v1, e) && v1 < e < lab.Length && forall x :: x in marks ==> x < lab.Length
    modifies lab, cs, work
    ensures v3 == e + 1 && v1 <= v2 <= v3 && Permutation(lab.Length, lab[..]) && SameOutside(s.lab, lab[..], v1, e)
    ensures forall i :: 0 <= i < lab.Length ==>
      lab[i] < lab.Length && cs[lab[i]] == if v2 <= i <= e then v2 else cs0[lab[i]]
    ensures forall i :: v1 <= i <= e ==> cs0[lab[i]] == v1
    ensures forall i :: v1 <= i <= e ==> KeyOf(lab[..], Indicator(lab.Length, marks))[i] == if i < v2 then 0 else 1
  {
    hide *;
    ghost var n := lab.Length;
    var k;
    v2, k := Separate(lab, ptn, work, level, marks, v1, e);
    v3 := Return(lab, cs, work, marks, v1, v2, k, s.lab, e);
    ReturnedPermutes(n, s.lab, lab[..], work[..], marks, v1, v2, e);
    SiftedKey(n, lab[..], marks, v1, v2, e);
    CsStart(n, s.lab, lab[..], s.ptn, level, cs0, v1, e);
    CsOld(n, lab[..], s.ptn, level, cs0, v1, e);
    assert forall i :: v1 <= i <= e ==> cs0[lab[i]] == v1;
    ReturnedStarts(n, lab[..], cs0, cs[..], v2, e);
  }

  // Divide the cell from v1 on by membership in marks.
  method CutByMarks(lab: array<nat>, ptn: array<int>, cs: array<nat>, act: array<nat>, work: array<nat>, level: int,
                    marks: set<nat>,
                    v1: nat, active0: set<nat>, numcells0: int, nactive0: nat, ghost e: nat)
    returns (active: set<nat>, numcells: int, nactive: nat, ghost spared: nat)
    requires lab.Length == ptn.Length == cs.Length == work.Length == act.Length
    requires lab != cs && lab != act && lab != work && cs != act && work != cs && work != act
    requires SparseOk(lab.Length, level, Part(lab[..], ptn[..], active0, numcells0), cs[..], act[..], nactive0)
    requires CellAt(ptn[..], level, v1, e) && v1 < e && forall x :: x in marks ==> x < lab.Length
    modifies lab, ptn, cs, act, work
    ensures nactive0 <= act.Length
    ensures Divided(lab.Length, level, Part(old(lab[..]), old(ptn[..]), active0, numcells0),
                    Part(lab[..], ptn[..], active, numcells), Indicator(lab.Length, marks), cs[..], act[..], nactive,
                      v1, e, spared, old(act[..nactive0]))
  {
    ghost var n, s, cs0, h :=
      lab.Length, Part(lab[..], ptn[..], active0, numcells0), cs[..], Indicator(lab.Length, marks);
    active, numcells, nactive, spared := active0, numcells0, nactive0, v1;
    SparseParts(n, level, s, cs0, act[..], nactive0);
    CellBounds(s.ptn, level, v1, e);
    LastEnds(n, level, s);
    hide *;
    QueueBound(n, act[..], nactive0, active0);
    var v2, v3 := PartMarked(lab, ptn, cs, work, level, marks, v1, s, cs0, e);
    if v2 != v3 && v2 != v1 {
      active, numcells, nactive, spared :=
        SplitMarked(lab, ptn, cs, act, level, v1, v2, v3, active, numcells, nactive, s, cs0, h, e);
    } else {
      SameStarts(n, lab[..], cs0, cs[..], v1, v2, e);
      Rearranged(n, level, s, lab[..], h, cs0, act[..], nactive, v1, e);
    }
  }

  // The cell has unmarked and marked vertices: it becomes two cells.
  method SplitMarked(lab: array<nat>, ptn: array<int>, cs: array<nat>, act: array<nat>, level: int, v1: nat, v2: nat,
                     v3: nat,
                     active0: set<nat>, numcells0: int, nactive0: nat, ghost s: Part, ghost cs0: seq<nat>,
                     ghost h: seq<nat>, ghost e: nat)
    returns (active: set<nat>, numcells: int, nactive: nat, ghost spared: nat)
    requires lab.Length == ptn.Length == cs.Length == act.Length == |h| == |cs0|
    requires lab != cs && lab != act && cs != act && v1 < v2 <= e && v3 == e + 1 <= lab.Length
    requires SparseOk(lab.Length, level, s, cs0, act[..], nactive0) && CellAt(s.ptn, level, v1, e)
    requires Permutation(lab.Length, lab[..]) && SameOutside(s.lab, lab[..], v1, e) && s.ptn == ptn[..]
    requires active0 == s.active && numcells0 == s.numcells
    requires forall i :: 0 <= i < lab.Length ==>
      lab[i] < lab.Length && cs[lab[i]] == if v2 <= i <= e then v2 else cs0[lab[i]]
    requires forall i :: v1 <= i <= e ==> cs0[lab[i]] == v1
    requires forall i :: v1 <= i <= e ==> KeyOf(lab[..], h)[i] == if i < v2 then 0 else 1
    modifies ptn, cs, act
    ensures nactive0 <= act.Length
    ensures Divided(lab.Length, level, s, Part(lab[..], ptn[..], active, numcells), h, cs[..], act[..], nactive, v1, e,
                    spared, old(act[..nactive0]))
  {
    ghost var n := lab.Length;
    SparseParts(n, level, s, cs0, act[..], nactive0);
    hide *;
    QueueBound(n, act[..], nactive0, s.active);
    numcells := numcells0 + 1;
    ghost var mid := MarkSifted(lab, cs, v1, v2, v3, cs0);
    ptn[v2 - 1] := level;
    SiftedTwo(n, level, s, lab[..], h, cs0, mid, cs[..], v1, v2, e);
    assert ptn[..] == s.ptn[v2 - 1 := level];
    active, nactive, spared := TwoBlocks(act, level, v1, v2, v3, active0, nactive0, s);
    LaterHalf(s.ptn, level, v1, v2, e);
    SomeValues(n, level, s, Part(lab[..], ptn[..], active, numcells), h, cs[..], act[..], nactive, v1, e, {v2}, spared,
               old(act[..nactive0]));
  }

  lemma ReturnedStarts(n: nat, lab: seq<nat>, cs0: seq<nat>, cs: seq<nat>, v2: nat, e: nat)
    requires Permutation(n, lab) && |cs0| == |cs| == n && v2 <= e + 1 <= n
    requires StartsBack(cs0, cs, lab, v2, e + 1)
    ensures forall i :: 0 <= i < n ==> lab[i] < n && cs[lab[i]] == if v2 <= i <= e then v2 else cs0[lab[i]]
  {
    forall i | 0 <= i < n ensures lab[i] in lab[v2..e + 1] <==> v2 <= i <= e {
      if v2 <= i <= e { assert lab[v2..e + 1][i - v2] == lab[i]; }
      if lab[i] in lab[v2..e + 1] {
        var k :| 0 <= k < e + 1 - v2 && lab[v2..e + 1][k] == lab[i];
        assert lab[v2 + k] == lab[i];
      }
    }
  }

  // If all or none of the vertices were marked, no cell start has changed.
  lemma SameStarts(n: nat, lab: seq<nat>, cs0: seq<nat>, cs: seq<nat>, v1: nat, v2: nat, e: nat)
    requires Permutation(n, lab) && |cs0| == |cs| == n && e < n && (v2 == v1 || v2 == e + 1)
    requires forall i :: 0 <= i < n ==> lab[i] < n && cs[lab[i]] == if v2 <= i <= e then v2 else cs0[lab[i]]
    requires forall i :: v1 <= i <= e ==> cs0[lab[i]] == v1
    ensures cs == cs0
  {
    forall x: nat | x < n ensures cs[x] == cs0[x] {
      var i := PermutationOnto(n, lab, x);
    }
  }

  // ----- dividing all cells that are hit -----

  // The first i listed cells have been divided; cells before position c are done.
  ghost predicate Hitting(key: Key, n: nat, level: int, base: Part, s: Part, cs: seq<nat>, act: seq<nat>, nactive: nat,
                          hits: seq<nat>, hit: seq<nat>, i: nat, c: nat, q0: seq<nat>) {
    && |hits| == n && nactive <= |act| && Passing(n, level, base, s, key, c, q0, act[..nactive])
    && SparseOk(n, level, s, cs, act, nactive)
    && ToCome(key, ColOf(n, level, s), hits, hit, c) && HitList(level, s.ptn, hit, i, c)
  }

  lemma NotListed(level: int, ptn: seq<int>, hit: seq<nat>, i: nat, c: nat, d: nat)
    requires HitList(level, ptn, hit, i, c) && c <= d && (i < |hit| ==> d < hit[i])
    ensures d !in hit
  {
    forall k | 0 <= k < |hit| ensures hit[k] != d {
      if i < k { assert hit[i] < hit[k]; }
    }
  }

  // Up to the next listed cell, nothing needs to be divided.
  lemma HittingReach(key: Key, n: nat, level: int, base: Part, s: Part, cs: seq<nat>, act: seq<nat>, nactive: nat,
                     hits: seq<nat>, hit: seq<nat>, i: nat, c: nat, q0: seq<nat>)
    requires Hitting(key, n, level, base, s, cs, act, nactive, hits, hit, i, c, q0)
    ensures nactive <= |act|
    ensures i < |hit| ==>
      hit[i] < n == |s.ptn| && IsStart(s.ptn, level, hit[i]) && s.ptn[hit[i]] > level && s.ptn[n - 1] <= level
    ensures i < |hit| ==> Passing(n, level, base, s, key, hit[i], q0, act[..nactive]) && c <= hit[i]
    ensures i == |hit| ==> Passing(n, level, base, s, key, n, q0, act[..nactive])
  {
    var to := if i < |hit| then hit[i] else n;
    var col := ColOf(n, level, s);
    PassingParts(n, level, base, s, key, c, q0, act[..nactive]);
    assert c <= to <= n;
    hide Passing, PartOk, ColOf, OneKey;
    forall d: nat | c <= d < to ensures OneKey(col, key, d) {
      NotListed(level, s.ptn, hit, i, c, d);
    }
    PartLengths(n, level, s);
    PassingOver(n, level, base, s, key, c, to, q0, act[..nactive]);
  }

  lemma HitListNext(n: nat, level: int, s: Part, t: Part, hit: seq<nat>, i: nat, c: nat, e: nat)
    requires HitList(level, s.ptn, hit, i, c) && i < |hit| && CellAt(s.ptn, level, hit[i], e)
    requires |s.ptn| == |t.ptn| && forall k :: 0 <= k < |s.ptn| && (k < hit[i] || e <= k) ==> t.ptn[k] == s.ptn[k]
    ensures HitList(level, t.ptn, hit, i + 1, e + 1)
  {
    forall k | i + 1 <= k < |hit|
      ensures e + 1 <= hit[k] < |t.ptn| && IsStart(t.ptn, level, hit[k]) && t.ptn[hit[k]] > level {
      assert hit[i] < hit[k] && IsStart(s.ptn, level, hit[k]);
      StartsAfter(s.ptn, s.ptn, level, hit[i], e, hit[k]);
    }
  }

  // One more listed cell has been divided.
  lemma HittingNext(key: Key, n: nat, level: int, base: Part, s: Part, t: Part, cs: seq<nat>, act: seq<nat>,
                    nactive: nat, cs2: seq<nat>, act2: seq<nat>, nactive2: nat, hits: seq<nat>, hit: seq<nat>, i: nat,
                    c: nat, e: nat, spared: nat, q0: seq<nat>)
    requires Hitting(key, n, level, base, s, cs, act, nactive, hits, hit, i, c, q0) && i < |hit|
    requires CellAt(s.ptn, level, hit[i], e) && nactive <= |act|
    requires Divided(n, level, s, t, hits, cs2, act2, nactive2, hit[i], e, spared, act[..nactive])
    ensures nactive2 <= |act2|
    ensures Hitting(key, n, level, base, t, cs2, act2, nactive2, hits, hit, i + 1, e + 1, q0)
  {
    hide *;
    var k := hit[i];
    HittingReach(key, n, level, base, s, cs, act, nactive, hits, hit, i, c, q0);
    DividedFacts(n, level, s, t, hits, cs2, act2, nactive2, k, e, spared, act[..nactive]);
    HittingParts(key, n, level, base, s, cs, act, nactive, hits, hit, i, c, q0);
    CountedKeys(key, n, level, s, t, hits, k, e);
    DividedStep(n, level, base, s, t, key, hits, cs2, act2, nactive2, k, e, spared, q0, act[..nactive]);
    ToComeStep(key, n, level, s, t, hits, hit, c, k, e);
    WithinEnds(s.lab, s.ptn, t.lab, t.ptn, k, e);
    HitListNext(n, level, s, t, hit, i, c, e);
    HittingMade(key, n, level, base, t, cs2, act2, nactive2, hits, hit, i + 1, e + 1, q0);
  }

  lemma HittingMade(key: Key, n: nat, level: int, base: Part, s: Part, cs: seq<nat>, act: seq<nat>, nactive: nat,
                    hits: seq<nat>, hit: seq<nat>, i: nat, c: nat, q0: seq<nat>)
    requires |hits| == n && nactive <= |act| && Passing(n, level, base, s, key, c, q0, act[..nactive])
    requires SparseOk(n, level, s, cs, act, nactive)
    requires ToCome(key, ColOf(n, level, s), hits, hit, c) && HitList(level, s.ptn, hit, i, c)
    ensures Hitting(key, n, level, base, s, cs, act, nactive, hits, hit, i, c, q0)
  {
  }

  lemma WithinEnds(lab: seq<nat>, ptn: seq<int>, lab2: seq<nat>, ptn2: seq<int>, c1: nat, c2: nat)
    requires Within(lab, ptn, lab2, ptn2, c1, c2)
    ensures |ptn| == |ptn2| && forall k :: 0 <= k < |ptn| && (k < c1 || c2 <= k) ==> ptn2[k] == ptn[k]
  {
  }

  lemma HittingParts(key: Key, n: nat, level: int, base: Part, s: Part, cs: seq<nat>, act: seq<nat>, nactive: nat,
                     hits: seq<nat>, hit: seq<nat>, i: nat, c: nat, q0: seq<nat>)
    requires Hitting(key, n, level, base, s, cs, act, nactive, hits, hit, i, c, q0)
    ensures |hits| == n && nactive <= |act| && PartOk(n, level, s) && SparseOk(n, level, s, cs, act, nactive)
    ensures ToCome(key, ColOf(n, level, s), hits, hit, c) && HitList(level, s.ptn, hit, i, c) && i <= |hit|
    ensures i < |hit| ==> Counted(key, ColOf(n, level, s), hits, hit[i])
  {
    if i < |hit| { assert hit[i] in hit && c <= hit[i]; }
  }

  lemma SortedHits(hit: seq<nat>)
    requires Distinct(hit)
    ensures var sorted := Sort(AtMost, hit);
      (forall k, l :: 0 <= k < l < |sorted| ==> sorted[k] < sorted[l]) && forall x :: x in sorted <==> x in hit
  {
    var sorted := Sort(AtMost, hit);
    AtMostOrder();
    SortSorts(AtMost, hit);
    DistinctSorted(hit, sorted);
    forall x ensures x in sorted <==> x in hit {
      assert x in sorted <==> x in multiset(sorted);
      assert x in hit <==> x in multiset(hit);
    }
    forall k, l | 0 <= k < l < |sorted| ensures sorted[k] < sorted[l] {
      assert AtMost(sorted[k], sorted[l]) && sorted[k] != sorted[l];
    }
  }

  lemma DistinctSorted(xs: seq<nat>, ys: seq<nat>)
    requires Distinct(xs) && multiset(ys) == multiset(xs)
    ensures Distinct(ys)
  {
    var p := Matching(ys, xs);
    forall i, j | 0 <= i < j < |ys| ensures ys[i] != ys[j] {
      assert p[i] != p[j];
      assert xs[p[i]] != xs[p[j]];
    }
  }

  lemma HittingStart(key: Key, n: nat, level: int, s: Part, cs: seq<nat>, act: seq<nat>, nactive: nat, hits: seq<nat>,
                     hit: seq<nat>, seen: set<nat>)
    requires SparseOk(n, level, s, cs, act, nactive)
    requires HitCells(n, cs, hit, seen) && HitKeys(key, n, cs, hits, hit)
    ensures nactive <= |act|
    ensures Hitting(key, n, level, s, s, cs, act, nactive, hits, Sort(AtMost, hit), 0, 0, act[..nactive])
  {
    var sorted: seq<nat> := Sort(AtMost, hit);
    SortedHits(hit);
    assert HitKeys(key, n, cs, hits, sorted);
    forall k | k in sorted
      ensures k < n && IsStart(s.ptn, level, k) && s.ptn[k] > level && exists x: nat :: x < n && cs[x] == k {
      assert HasMember(n, cs, k);
      var x: nat :| x < n && cs[x] == k;
      MarkOfVertex(n, level, s, cs, x);
    }
    ToComeStart(key, n, level, s, cs, hits, sorted);
    forall k | 0 <= k < |sorted|
      ensures 0 <= sorted[k] < |s.ptn| && IsStart(s.ptn, level, sorted[k]) && s.ptn[sorted[k]] > level {
      assert sorted[k] in sorted;
    }
    PassingBegin(n, level, s, key, act[..nactive]);
  }

  lemma MarkKeys(g: Graph, cs: seq<nat>, u: nat, hit: seq<nat>)
    requires ValidGraph(g) && u < |g| && HitCells(|g|, cs, hit, g[u])
    ensures HitKeys(ArcKey(g, {u}), |g|, cs, Indicator(|g|, g[u]), hit)
  {
    forall x: nat | x < |g| && cs[x] != |g|
      ensures if cs[x] in hit then Indicator(|g|, g[u])[x] == ArcKey(g, {u})(x) else ArcKey(g, {u})(x) == 0
    {
      OneArc(g, u, x);
    }
  }

  // Use a splitting cell with the single vertex splitv.
  method SplitTrivial(sg: SparseGraph, lab: array<nat>, ptn: array<int>, cs: array<nat>, act: array<nat>,
                      work: array<nat>, level: int, splitv: nat, active0: set<nat>, numcells0: int, nactive0: nat,
                      ghost g: Graph)
    returns (active: set<nat>, numcells: int, nactive: nat)
    requires RowsOf(sg, g) && lab.Length == ptn.Length == cs.Length == work.Length == act.Length == |g|
    requires lab != cs && lab != act && lab != work && cs != act && work != cs && work != act && splitv < |g|
    requires SparseOk(|g|, level, Part(lab[..], ptn[..], active0, numcells0), cs[..], act[..], nactive0)
    modifies lab, ptn, cs, act, work
    ensures nactive0 <= act.Length && nactive <= act.Length
    ensures Passing(|g|, level, Part(old(lab[..]), old(ptn[..]), active0, numcells0),
                    Part(lab[..], ptn[..], active, numcells), ArcKey(g, {splitv}), |g|, old(act[..nactive0]),
                    act[..nactive])
    ensures SparseOk(|g|, level, Part(lab[..], ptn[..], active, numcells), cs[..], act[..], nactive)
  {
    hide *;
    ghost var n, key, s0 := |g|, ArcKey(g, {splitv}), Part(lab[..], ptn[..], active0, numcells0);
    active, numcells, nactive := active0, numcells0, nactive0;
    RowsValid(sg, g);
    var marks, hit := MarkNeighbours(sg, cs, splitv, g);
    MarkKeys(g, cs[..], splitv, hit);
    ghost var h, c := Indicator(n, g[splitv]), 0;
    HittingStart(key, n, level, s0, cs[..], act[..], nactive, h, hit, g[splitv]);
    ghost var q0 := act[..nactive];
    hit := Sort(AtMost, hit);
    for i := 0 to |hit|
      invariant Hitting(key, n, level, s0, Part(lab[..], ptn[..], active, numcells), cs[..], act[..], nactive, h, hit,
                        i, c, q0) && nactive <= act.Length
    {
      ghost var s, cs1, act1, nactive1 := Part(lab[..], ptn[..], active, numcells), cs[..], act[..], nactive;
      ghost var e := HitCellAt(key, n, level, s0, s, cs1, act1, nactive1, h, hit, i, c, q0);
      RowInside(sg, g, splitv);
      ghost var spared;
      active, numcells, nactive, spared :=
        CutByMarks(lab, ptn, cs, act, work, level, marks, hit[i], active, numcells, nactive, e);
      HittingNext(key, n, level, s0, s, Part(lab[..], ptn[..], active, numcells), cs1, act1, nactive1, cs[..], act[..],
                  nactive, h, hit, i, c, e, spared, q0);
      c := e + 1;
    }
    HittingReach(key, n, level, s0, Part(lab[..], ptn[..], active, numcells), cs[..], act[..], nactive, h, hit, |hit|,
                 c, q0);
    HittingParts(key, n, level, s0, Part(lab[..], ptn[..], active, numcells), cs[..], act[..], nactive, h, hit, |hit|,
                 c, q0);
  }

  lemma RowInside(sg: SparseGraph, g: Graph, u: nat)
    requires RowsOf(sg, g) && u < |g|
    ensures forall x :: x in g[u] ==> x < |g|
  {
  }

  // The next listed cell.
  lemma HitCellAt(key: Key, n: nat, level: int, base: Part, s: Part, cs: seq<nat>, act: seq<nat>, nactive: nat,
                  hits: seq<nat>, hit: seq<nat>, i: nat, c: nat, q0: seq<nat>)
    returns (e: nat)
    requires Hitting(key, n, level, base, s, cs, act, nactive, hits, hit, i, c, q0) && i < |hit|
    ensures nactive <= |act|
    ensures CellAt(s.ptn, level, hit[i], e) && hit[i] < e < n && PartOk(n, level, s)
    ensures SparseOk(n, level, s, cs, act, nactive) && Counted(key, ColOf(n, level, s), hits, hit[i]) && |hits| == n
  {
    hide *;
    HittingReach(key, n, level, base, s, cs, act, nactive, hits, hit, i, c, q0);
    HittingParts(key, n, level, base, s, cs, act, nactive, hits, hit, i, c, q0);
    e := CellExists(s.ptn, level, hit[i]);
    CellBounds(s.ptn, level, hit[i], e);
  }

  // Counts into w stay below any number above the number of vertices.
  lemma CountsBelow(g: Graph, level: int, s: Part, w: set<nat>, hits: seq<nat>, k: nat, e: nat, infinity: nat)
    requires ValidGraph(g) && PartOk(|g|, level, s) && CellAt(s.ptn, level, k, e) && |g| < infinity
    requires Counted(ArcKey(g, w), ColOf(|g|, level, s), hits, k)
    ensures forall i :: k <= i <= e && i < |s.lab| ==> s.lab[i] < |hits| && hits[s.lab[i]] < infinity
  {
    forall i: nat | k <= i <= e ensures s.lab[i] < |hits| && hits[s.lab[i]] < infinity {
      InCellStill(|g|, level, s, s, k, e, i);
      assert s.lab[i] in Class(ColOf(|g|, level, s), k);
      CountIsInto(g, w, s.lab[i]);
      IntoBound(g, w, s.lab[i]);
    }
  }

  // Use a splitting cell with several vertices.
  method SplitNontrivial(sg: SparseGraph, lab: array<nat>, ptn: array<int>, cs: array<nat>, act: array<nat>,
                         hits: array<nat>, level: int, infinity: nat, isplit: nat, active0: set<nat>, numcells0: int,
                         nactive0: nat, ghost g: Graph, ghost e0: nat)
    returns (active: set<nat>, numcells: int, nactive: nat)
    requires RowsOf(sg, g) && lab.Length == ptn.Length == cs.Length == hits.Length == act.Length == |g|
    requires lab != cs && lab != act && lab != hits && cs != act && hits != cs && hits != act && |g| < infinity
    requires CellAt(ptn[..], level, isplit, e0) && isplit <= e0 < |g|
    requires SparseOk(|g|, level, Part(lab[..], ptn[..], active0, numcells0), cs[..], act[..], nactive0)
    modifies lab, ptn, cs, act, hits
    ensures nactive0 <= act.Length && nactive <= act.Length
    ensures Passing(|g|, level, Part(old(lab[..]), old(ptn[..]), active0, numcells0),
                    Part(lab[..], ptn[..], active, numcells), ArcKey(g, Members(old(lab[..]), isplit, e0)), |g|,
                    old(act[..nactive0]), act[..nactive])
    ensures SparseOk(|g|, level, Part(lab[..], ptn[..], active, numcells), cs[..], act[..], nactive)
  {
    hide *;
    ghost var n, w, s0 := |g|, Members(lab[..], isplit, e0), Part(lab[..], ptn[..], active0, numcells0);
    ghost var key := ArcKey(g, w);
    active, numcells, nactive := active0, numcells0, nactive0;
    SparseParts(n, level, s0, cs[..], act[..], nactive);
    var hit := CountHits(sg, lab, ptn, cs, hits, level, isplit, g, s0, e0);
    ghost var h, c := hits[..], 0;
    HittingStart(key, n, level, s0, cs[..], act[..], nactive, h, hit, ReachOf(g, w));
    ghost var q0 := act[..nactive];
    hit := Sort(AtMost, hit);
    for i := 0 to |hit|
      invariant Hitting(key, n, level, s0, Part(lab[..], ptn[..], active, numcells), cs[..], act[..], nactive, h, hit,
                        i, c, q0) && nactive <= act.Length
      invariant hits[..] == h
    {
      ghost var s, cs1, act1, nactive1 := Part(lab[..], ptn[..], active, numcells), cs[..], act[..], nactive;
      ghost var e := HitCellAt(key, n, level, s0, s, cs1, act1, nactive1, h, hit, i, c, q0);
      RowsValid(sg, g);
      CountsBelow(g, level, s, w, h, hit[i], e, infinity);
      ghost var spared;
      var next;
      active, numcells, nactive, next, spared :=
        DivideCell(lab, ptn, cs, act, hits, level, infinity, hit[i], active, numcells, nactive, e);
      HittingNext(key, n, level, s0, s, Part(lab[..], ptn[..], active, numcells), cs1, act1, nactive1, cs[..], act[..],
                  nactive, h, hit, i, c, e, spared, q0);
      c := e + 1;
    }
    HittingReach(key, n, level, s0, Part(lab[..], ptn[..], active, numcells), cs[..], act[..], nactive, h, hit, |hit|,
                 c, q0);
    HittingParts(key, n, level, s0, Part(lab[..], ptn[..], active, numcells), cs[..], act[..], nactive, h, hit, |hit|,
                 c, q0);
  }

  lemma RowsValid(sg: SparseGraph, g: Graph)
    requires RowsOf(sg, g)
    ensures ValidGraph(g)
  {
  }

  // ----- the first division by distance -----

  lemma DistKeys(g: Graph, level: int, s: Part, t: Part, v0: nat, dist: seq<nat>, v1: nat, e: nat)
    requires ValidGraph(g) && DistOk(g, v0, dist) && e < |t.lab| == |g| && v1 <= e
    requires forall i :: 0 <= i < |t.lab| ==> t.lab[i] < |g|
    ensures KeyAt(FarKey(g, v0), t.lab, v1, e, KeyOf(t.lab, dist))
  {
    forall i | v1 <= i <= e ensures KeyOf(t.lab, dist)[i] == FarKey(g, v0)(t.lab[i]) {
      DistanceIsFar(g, v0, dist, t.lab[i]);
    }
  }

  lemma DistancesBelow(g: Graph, v0: nat, dist: seq<nat>, lab: seq<nat>, infinity: nat)
    requires DistOk(g, v0, dist) && |g| < infinity && Permutation(|g|, lab)
    ensures forall i :: 0 <= i < |g| ==> lab[i] < |dist| && dist[lab[i]] < infinity
  {
  }

  // Divide all cells by the distance from a vertex.
  method SplitByDistance(sg: SparseGraph, lab: array<nat>, ptn: array<int>, cs: array<nat>, act: array<nat>,
                         hits: array<nat>, level: int, infinity: nat, isplit: nat, active0: set<nat>, numcells0: int,
                         nactive0: nat, ghost g: Graph)
    returns (active: set<nat>, numcells: int, nactive: nat)
    requires RowsOf(sg, g) && lab.Length == ptn.Length == cs.Length == hits.Length == act.Length == |g|
    requires lab != cs && lab != act && lab != hits && cs != act && hits != cs && hits != act && |g| < infinity
    requires isplit < |g| && lab[isplit] < |g|
    requires SparseOk(|g|, level, Part(lab[..], ptn[..], active0, numcells0), cs[..], act[..], nactive0)
    modifies lab, ptn, cs, act, hits
    ensures nactive0 <= act.Length && nactive <= act.Length
    ensures Passing(|g|, level, Part(old(lab[..]), old(ptn[..]), active0, numcells0),
                    Part(lab[..], ptn[..], active, numcells), FarKey(g, old(lab[isplit])), |g|, old(act[..nactive0]),
                    act[..nactive])
    ensures SparseOk(|g|, level, Part(lab[..], ptn[..], active, numcells), cs[..], act[..], nactive)
  {
    hide *;
    ghost var n, s0 := |g|, Part(lab[..], ptn[..], active0, numcells0);
    SparseParts(n, level, s0, cs[..], act[..], nactive0);
    active, numcells, nactive := active0, numcells0, nactive0;
    var v0 := lab[isplit];
    ghost var key := FarKey(g, v0);
    QueueBound(n, act[..], nactive, active);
    ghost var q0 := act[..nactive];
    PassingBegin(n, level, s0, key, q0);
    RowsValid(sg, g);
    DistVals(sg, v0, hits, g);
    ghost var dist := hits[..];
    var v1 := 0;
    while v1 < lab.Length
      invariant v1 <= n && hits[..] == dist
      invariant nactive <= act.Length
      invariant Passing(n, level, s0, Part(lab[..], ptn[..], active, numcells), key, v1, q0, act[..nactive])
      invariant SparseOk(n, level, Part(lab[..], ptn[..], active, numcells), cs[..], act[..], nactive)
      decreases n - v1
    {
      ghost var s := Part(lab[..], ptn[..], active, numcells);
      PassingParts(n, level, s0, s, key, v1, q0, act[..nactive]);
      ghost var e := CellExists(s.ptn, level, v1);
      CellBounds(s.ptn, level, v1, e);
      if ptn[v1] <= level {
        PassingSingle(n, level, s0, s, key, v1, q0, act[..nactive]);
        v1 := v1 + 1;
      } else {
        active, numcells, nactive, v1 :=
          DivideByDistance(lab, ptn, cs, act, hits, level, infinity, v1, active, numcells, nactive, g, s0, v0, e,
                           q0);
      }
    }
  }

  // Divide one cell by distance.
  method DivideByDistance(lab: array<nat>, ptn: array<int>, cs: array<nat>, act: array<nat>, hits: array<nat>,
                          level: int, infinity: nat, v1: nat, active0: set<nat>, numcells0: int, nactive0: nat,
                          ghost g: Graph, ghost base: Part, ghost v0: nat, ghost e: nat, ghost q0: seq<nat>)
    returns (active: set<nat>, numcells: int, nactive: nat, next: nat)
    requires lab.Length == ptn.Length == cs.Length == hits.Length == act.Length == |g| && ValidGraph(g)
    requires lab != cs && lab != act && lab != hits && cs != act && hits != cs && hits != act && |g| < infinity
    requires DistOk(g, v0, hits[..]) && CellAt(ptn[..], level, v1, e) && v1 < e < |g|
    requires nactive0 <= act.Length
    requires Passing(|g|, level, base, Part(lab[..], ptn[..], active0, numcells0), FarKey(g, v0), v1, q0,
                     act[..nactive0])
    requires SparseOk(|g|, level, Part(lab[..], ptn[..], active0, numcells0), cs[..], act[..], nactive0)
    modifies lab, ptn, cs, act
    ensures next == e + 1 && nactive <= act.Length
    ensures Passing(|g|, level, base, Part(lab[..], ptn[..], active, numcells), FarKey(g, v0), next, q0, act[..nactive])
    ensures SparseOk(|g|, level, Part(lab[..], ptn[..], active, numcells), cs[..], act[..], nactive)
  {
    hide *;
    ghost var n, dist, s := |g|, hits[..], Part(lab[..], ptn[..], active0, numcells0);
    SparseParts(n, level, s, cs[..], act[..], nactive0);
    DistancesBelow(g, v0, dist, s.lab, infinity);
    ghost var spared, q := 0, act[..nactive0];
    active, numcells, nactive, next, spared :=
      DivideCell(lab, ptn, cs, act, hits, level, infinity, v1, active0, numcells0, nactive0, e);
    ghost var t := Part(lab[..], ptn[..], active, numcells);
    DividedFacts(n, level, s, t, dist, cs[..], act[..], nactive, v1, e, spared, q);
    DistKeys(g, level, s, t, v0, dist, v1, e);
    DividedStep(n, level, base, s, t, FarKey(g, v0), dist, cs[..], act[..], nactive, v1, e, spared, q0, q);
  }

  // ----- setting up -----

  // The active cells as a queue.
  method FillQueue(act: array<nat>, active: set<nat>) returns (nactive: nat)
    requires forall d :: d in active ==> d < act.Length
    modifies act
    ensures QueueOk(act.Length, act[..], nactive, active)
    ensures nactive <= act.Length && act[..nactive] == InOrder(active, act.Length)
  {
    nactive := 0;
    if act.Length == 0 { return; }
    var i := NextElement(active, -1, act.Length);
    ghost var last := -1;
    InOrderNone(act.Length);
    assert UpTo(active, -1) == {};
    assert act[..0] == [];
    while i >= 0
      invariant -1 <= last < act.Length && i >= -1 && nactive <= last + 1
      invariant i == -1 ==> Exhausted(active, last)
      invariant i != -1 ==> 0 <= i < act.Length && NextIs(active, last, i)
      invariant QueueOk(act.Length, act[..], nactive, UpTo(active, last))
      invariant act[..nactive] == InOrder(UpTo(active, last), act.Length)
      decreases act.Length - last
    {
      ghost var was := act[..];
      QueuePush(act.Length, was, nactive, UpTo(active, last), i);
      act[nactive] := i;
      assert act[..] == was[nactive := i as nat];
      assert UpTo(active, last) + {i as nat} == UpTo(active, i);
      InOrderMore(UpTo(active, last), i, act.Length);
      assert act[..nactive + 1] == was[..nactive] + [i as nat];
      nactive := nactive + 1;
      last := i;
      i := NextElement(active, i, act.Length);
    }
    assert UpTo(active, last) == active;
  }

  ghost function UpTo(s: set<nat>, i: int): set<nat> {
    set x | x in s && x <= i
  }

  // The start of every cell, for its vertices.
  method FillCellStarts(lab: array<nat>, ptn: array<int>, cs: array<nat>, level: int)
    requires lab.Length == ptn.Length == cs.Length && lab != cs && Nest(lab.Length, lab[..], ptn[..], level)
    modifies cs
    ensures CellStarts(lab.Length, lab[..], ptn[..], level, cs[..])
  {
    ghost var n := lab.Length;
    BelowLength(n, lab[..]);
    var i := 0;
    while i < lab.Length
      invariant i <= n && (i < n ==> IsStart(ptn[..], level, i))
      invariant forall p :: 0 <= p < i ==> cs[lab[p]] == CellMark(n, ptn[..], level, p)
      decreases n - i
    {
      if ptn[i] <= level {
        SetMark(n, lab[..], cs[..], ptn[..], level, i, n);
        cs[lab[i]] := lab.Length;
        i := i + 1;
      } else {
        var j := i;
        while true
          invariant j <= i < n && (forall k :: j <= k < i ==> ptn[k] > level) && IsStart(ptn[..], level, j)
          invariant ptn[j] > level
          invariant forall p :: 0 <= p < i ==> cs[lab[p]] == CellMark(n, ptn[..], level, p)
          decreases n - i
        {
          StartInBlock(ptn[..], level, j, i);
          NotAloneMark(n, ptn[..], level, j, i);
          SetMark(n, lab[..], cs[..], ptn[..], level, i, j);
          cs[lab[i]] := j;
          i := i + 1;
          if ptn[i - 1] <= level { break; }
        }
      }
    }
  }

  lemma NotAloneMark(n: nat, ptn: seq<int>, level: int, j: nat, i: nat)
    requires j <= i < |ptn| && IsStart(ptn, level, j) && ptn[j] > level && forall k :: j <= k < i ==> ptn[k] > level
    requires StartOf(ptn, level, i) == j
    ensures CellMark(n, ptn, level, i) == j
  {
  }

  lemma SetMark(n: nat, lab: seq<nat>, cs: seq<nat>, ptn: seq<int>, level: int, i: nat, v: nat)
    requires Permutation(n, lab) && |cs| == |ptn| == n && i < n && v == CellMark(n, ptn, level, i)
    requires forall p :: 0 <= p < i ==> lab[p] < n && cs[lab[p]] == CellMark(n, ptn, level, p)
    ensures lab[i] < n
    ensures forall p :: 0 <= p < i + 1 ==> lab[p] < n && cs[lab[i] := v][lab[p]] == CellMark(n, ptn, level, p)
  {
    forall p | 0 <= p < i ensures lab[p] != lab[i] {
    }
  }

  // ----- the whole refinement -----

  // Take the next active cell out of the queue: one with a single vertex if there is one among
  // the first ten, else the last.
  method NextSplit(ptn: array<int>, act: array<nat>, level: int, nactive0: nat, ghost active: set<nat>)
    returns (isplit: nat, nactive: nat, trivsplit: bool)
    requires ptn.Length == act.Length && QueueOk(act.Length, act[..], nactive0, active) && nactive0 > 0
    modifies act
    ensures isplit in active && isplit < ptn.Length && (trivsplit <==> ptn[isplit] <= level)
    ensures QueueOk(act.Length, act[..], nactive, active - {isplit})
    ensures nactive0 <= act.Length && nactive <= act.Length
    ensures var q := old(act[..nactive0]);
      var i := TakenAt(q, Ends(ptn[..], level), 0); isplit == q[i] && act[..nactive] == Taken(q, i)
  {
    QueueBound(act.Length, act[..], nactive0, active);
    var i := 0;
    ghost var was, q, ends := act[..], act[..nactive0], Ends(ptn[..], level);
    while i < nactive0 && i < 10
      invariant i <= nactive0 <= act.Length && i <= 10 && act[..] == was
      invariant QueueOk(act.Length, act[..], nactive0, active) && forall k :: 0 <= k < i ==> q[k] !in ends
    {
      QueueMember(act.Length, act[..], nactive0, active, i);
      if ptn[act[i]] <= level { break; }
      i := i + 1;
    }
    TakenFrom(q, ends, i);
    if i < nactive0 && i < 10 {
      QueueMember(act.Length, was, nactive0, active, i);
      QueueTake(act.Length, was, nactive0, active, i);
      trivsplit := true;
      isplit := act[i];
      nactive := nactive0 - 1;
      act[i] := act[nactive];
      assert act[..] == was[i := was[nactive0 - 1]];
      assert ptn[isplit] <= level;
      assert act[..nactive] == Taken(q, i);
    } else {
      QueueMember(act.Length, was, nactive0, active, nactive0 - 1);
      QueueTake(act.Length, was, nactive0, active, nactive0 - 1);
      assert was[nactive0 - 1 := was[nactive0 - 1]] == was;
      nactive := nactive0 - 1;
      isplit := act[nactive];
      trivsplit := ptn[isplit] <= level;
      assert act[..nactive] == Taken(q, nactive0 - 1);
    }
  }

  // The positions that end a cell.
  ghost function Ends(ptn: seq<int>, level: int): set<nat> {
    set d: nat | d < |ptn| && ptn[d] <= level
  }

  // A cell starts with its end exactly if it has one vertex.
  lemma EndsAreSingle(n: nat, level: int, s: Part, q: seq<nat>)
    requires PartOk(n, level, s) && q != [] && forall k :: 0 <= k < |q| ==> q[k] in s.active
    ensures TakenAt(q, Ends(s.ptn, level), 0) == TakenAt(q, SingleClasses(ColOf(n, level, s)), 0)
  {
    forall k | 0 <= k < |q| ensures q[k] in Ends(s.ptn, level) <==> q[k] in SingleClasses(ColOf(n, level, s)) {
      var e := CellExists(s.ptn, level, q[k]);
      CellCard(n, level, s, q[k], e);
    }
    TakenSame(q, Ends(s.ptn, level), SingleClasses(ColOf(n, level, s)), 0);
  }

  lemma QueueMembers(n: nat, act: seq<nat>, nactive: nat, active: set<nat>)
    requires QueueOk(n, act, nactive, active)
    ensures nactive <= |act| && forall k :: 0 <= k < nactive ==> act[..nactive][k] in active
  {
    forall k | 0 <= k < nactive ensures act[..nactive][k] in active {
      assert act[..nactive][k] in act[..nactive];
    }
  }

  lemma QueueMember(n: nat, act: seq<nat>, nactive: nat, active: set<nat>, i: nat)
    requires QueueOk(n, act, nactive, active) && i < nactive
    ensures i < |act| && act[i] in active && act[i] < n
  {
    assert act[..nactive][i] == act[i];
  }

  // One splitting cell, from its choice on.
  method SplitNext(sg: SparseGraph, lab: array<nat>, ptn: array<int>, cs: array<nat>, act: array<nat>, hits: array<nat>,
                   level: int, infinity: nat, active0: set<nat>, numcells0: int, nactive0: nat, ghost g: Graph)
    returns (active: set<nat>, numcells: int, nactive: nat, ghost cell: nat)
    requires RowsOf(sg, g) && lab.Length == ptn.Length == cs.Length == hits.Length == act.Length == |g|
    requires lab != cs && lab != act && lab != hits && cs != act && hits != cs && hits != act && |g| < infinity
    requires SparseOk(|g|, level, Part(lab[..], ptn[..], active0, numcells0), cs[..], act[..], nactive0)
    requires nactive0 > 0
    modifies lab, ptn, cs, act, hits
    ensures SparseOk(|g|, level, Part(lab[..], ptn[..], active, numcells), cs[..], act[..], nactive)
    ensures ArcStep(g, level, Part(old(lab[..]), old(ptn[..]), active0, numcells0), cell,
                    Part(lab[..], ptn[..], active, numcells))
    ensures nactive0 <= act.Length && nactive <= act.Length
    ensures QueueStep(|g|, level, Part(old(lab[..]), old(ptn[..]), active0, numcells0), cell,
                      Part(lab[..], ptn[..], active, numcells), old(act[..nactive0]), act[..nactive])
  {
    hide *;
    ghost var n, s := |g|, Part(lab[..], ptn[..], active0, numcells0);
    SparseParts(n, level, s, cs[..], act[..], nactive0);
    LastEnds(n, level, s);
    QueueMembers(n, act[..], nactive0, active0);
    ghost var q := act[..nactive0];
    EndsAreSingle(n, level, s, q);
    var isplit, trivsplit;
    isplit, nactive, trivsplit := NextSplit(ptn, act, level, nactive0, active0);
    ghost var e := ActiveCell(n, level, s, isplit);
    MembersAreClass(n, level, s, isplit, e);
    active, numcells := active0 - {isplit}, numcells0;
    cell := isplit;
    ghost var q1 := act[..nactive];
    StillSparse(n, level, s, Part(lab[..], ptn[..], active, numcells), cs[..], act[..], nactive, isplit);
    if trivsplit {
      OneMember(n, level, s, isplit);
      active, numcells, nactive :=
        SplitTrivial(sg, lab, ptn, cs, act, hits, level, lab[isplit], active, numcells, nactive, g);
    } else {
      active, numcells, nactive :=
        SplitNontrivial(sg, lab, ptn, cs, act, hits, level, infinity, isplit, active, numcells, nactive, g, e);
    }
    StepMade(g, level, s, isplit, Part(lab[..], ptn[..], active, numcells), q1, act[..nactive]);
    QueueMoved(g, level, s, isplit, Part(lab[..], ptn[..], active, numcells), q, q1, act[..nactive]);
  }

  // The cell is used by the arcs that leave it.
  ghost predicate ArcStep(g: Graph, level: int, s: Part, cell: nat, t: Part) {
    PartOk(|g|, level, s) && Step(LastOfTwo, |g|, level, s, cell, t, ArcKey(g, Class(ColOf(|g|, level, s), cell)))
  }

  lemma StepMade(g: Graph, level: int, s: Part, cell: nat, t: Part, q: seq<nat>, q2: seq<nat>)
    requires PartOk(|g|, level, s) && cell in s.active
    requires Passing(|g|, level, s.(active := s.active - {cell}), t, ArcKey(g, Class(ColOf(|g|, level, s), cell)), |g|,
                     q, q2)
    ensures ArcStep(g, level, s, cell, t)
  {
  }

  lemma QueueMoved(g: Graph, level: int, s: Part, cell: nat, t: Part, q: seq<nat>, q1: seq<nat>, q2: seq<nat>)
    requires PartOk(|g|, level, s) && cell in s.active && q != []
    requires var i := TakenAt(q, SingleClasses(ColOf(|g|, level, s)), 0); cell == q[i] && q1 == Taken(q, i)
    requires Passing(|g|, level, s.(active := s.active - {cell}), t, ArcKey(g, Class(ColOf(|g|, level, s), cell)), |g|,
                     q1, q2)
    ensures QueueStep(|g|, level, s, cell, t, q, q2)
  {
    QueueStepMade(|g|, level, s, cell, t, ArcKey(g, Class(ColOf(|g|, level, s), cell)), q, q1, q2);
  }

  lemma QueueStepMade(n: nat, level: int, s: Part, cell: nat, t: Part, key: Key, q: seq<nat>, q1: seq<nat>,
                      q2: seq<nat>)
    requires PartOk(n, level, s) && q != []
    requires var i := TakenAt(q, SingleClasses(ColOf(n, level, s)), 0); cell == q[i] && q1 == Taken(q, i)
    requires Passing(n, level, s.(active := s.active - {cell}), t, key, n, q1, q2)
    ensures QueueStep(n, level, s, cell, t, q, q2)
  {
    assert ColOf(n, level, s.(active := s.active - {cell})) == ColOf(n, level, s);
  }

  // The cell that starts at an active position.
  lemma ActiveCell(n: nat, level: int, s: Part, i: nat) returns (e: nat)
    requires PartOk(n, level, s) && i in s.active
    ensures CellAt(s.ptn, level, i, e) && i <= e < n && (s.ptn[i] <= level <==> e == i)
  {
    e := CellExists(s.ptn, level, i);
  }

  lemma StillSparse(n: nat, level: int, s: Part, t: Part, cs: seq<nat>, act: seq<nat>, nactive: nat, i: nat)
    requires PartOk(n, level, s) && CellStarts(n, s.lab, s.ptn, level, cs) && t == s.(active := s.active - {i})
    requires QueueOk(n, act, nactive, t.active)
    ensures SparseOk(n, level, t, cs, act, nactive)
  {
  }

  // The first division, by distance from the only active vertex.
  method FirstSplit(sg: SparseGraph, lab: array<nat>, ptn: array<int>, cs: array<nat>, act: array<nat>,
                    hits: array<nat>, level: int, infinity: nat, active0: set<nat>, numcells0: int, nactive0: nat,
                    ghost g: Graph)
    returns (active: set<nat>, numcells: int, nactive: nat, ghost cell: nat)
    requires RowsOf(sg, g) && lab.Length == ptn.Length == cs.Length == hits.Length == act.Length == |g|
    requires lab != cs && lab != act && lab != hits && cs != act && hits != cs && hits != act && |g| < infinity
    requires SparseOk(|g|, level, Part(lab[..], ptn[..], active0, numcells0), cs[..], act[..], nactive0)
    requires nactive0 == 1 && act.Length > 0 && act[0] < |g| && ptn[act[0]] <= level
    modifies lab, ptn, cs, act, hits
    ensures SparseOk(|g|, level, Part(lab[..], ptn[..], active, numcells), cs[..], act[..], nactive)
    ensures active0 == {cell} && cell < |g| && old(ptn[cell]) <= level
    ensures nactive <= act.Length
    ensures QueueStep(|g|, level, Part(old(lab[..]), old(ptn[..]), active0, numcells0), cell,
                      Part(lab[..], ptn[..], active, numcells), old(act[..nactive0]), act[..nactive])
    ensures Step(LastOfTwo, |g|, level, Part(old(lab[..]), old(ptn[..]), active0, numcells0), cell,
                 Part(lab[..], ptn[..], active, numcells), FarKey(g, old(lab[cell])))
  {
    hide *;
    ghost var n, s := |g|, Part(lab[..], ptn[..], active0, numcells0);
    SparseParts(n, level, s, cs[..], act[..], nactive0);
    LastEnds(n, level, s);
    nactive := nactive0 - 1;
    var isplit := act[nactive];
    ghost var q := act[..nactive0];
    assert q == [isplit] && Taken(q, 0) == act[..0] by { hide *; OneTaken(act[..], isplit); }
    QueueTake(n, act[..], nactive0, active0, nactive);
    assert act[..][nactive := act[..][nactive0 - 1]] == act[..];
    QueueEmpty(n, act[..], active0 - {isplit});
    OneLeft(active0, isplit);
    active, numcells := active0 - {isplit}, numcells0;
    cell := isplit;
    StillSparse(n, level, s, Part(lab[..], ptn[..], active, numcells), cs[..], act[..], nactive, isplit);
    ghost var v0 := lab[isplit];
    active, numcells, nactive :=
      SplitByDistance(sg, lab, ptn, cs, act, hits, level, infinity, isplit, active, numcells, nactive, g);
    OnlyPlace(q, SingleClasses(ColOf(n, level, s)));
    QueueStepMade(n, level, s, isplit, Part(lab[..], ptn[..], active, numcells), FarKey(g, v0), q, [], act[..nactive]);
    FirstMade(n, level, s, isplit, Part(lab[..], ptn[..], active, numcells), FarKey(g, v0), [], act[..nactive]);
  }

  lemma OneLeft(active: set<nat>, cell: nat)
    requires cell in active && active - {cell} == {}
    ensures active == {cell}
  {
    assert active == (active - {cell}) + {cell};
  }

  lemma FirstMade(n: nat, level: int, s: Part, cell: nat, t: Part, key: Key, q: seq<nat>, q2: seq<nat>)
    requires PartOk(n, level, s) && cell in s.active
    requires Passing(n, level, s.(active := s.active - {cell}), t, key, n, q, q2)
    ensures Step(LastOfTwo, n, level, s, cell, t, key)
  {
  }

  lemma OneTaken(act: seq<nat>, cell: nat)
    requires |act| > 0 && act[0] == cell
    ensures act[..1] == [cell] && Taken([cell], 0) == act[..0]
  {
  }

  lemma OnlyPlace(q: seq<nat>, singles: set<nat>)
    requires |q| == 1
    ensures TakenAt(q, singles, 0) == 0 && Taken(q, 0) == []
  {
  }

  // Refine the partition of a sparse graph or digraph by the arcs that enter each vertex. The run says
  // which cells were used and what each of them cut; infinity stands for any number above the number of
  // vertices.
  method RefineSg(sg: SparseGraph, lab: array<nat>, ptn: array<int>, level: int, infinity: nat, numcells0: int,
                  active0: set<nat>, ghost g: Graph)
    returns (numcells: int, active: set<nat>, ghost run: Run)
    requires RowsOf(sg, g) && lab.Length == ptn.Length == |g| < infinity
    requires PartOk(|g|, level, Part(lab[..], ptn[..], active0, numcells0))
    modifies lab, ptn
    ensures RefinementSg(g, level, Part(old(lab[..]), old(ptn[..]), active0, numcells0), run,
                         Part(lab[..], ptn[..], active, numcells))
    ensures SgSound(g, level, Part(old(lab[..]), old(ptn[..]), active0, numcells0),
                    Part(lab[..], ptn[..], active, numcells))
  {
    hide *;
    ghost var n, s0 := |g|, Part(lab[..], ptn[..], active0, numcells0);
    PartLengths(n, level, s0);
    RowsValid(sg, g);
    numcells, active := numcells0, active0;
    var cs, act, hits := new nat[lab.Length], new nat[lab.Length], new nat[lab.Length];
    var nactive := FillQueue(act, active);
    run := At(s0);
    RunStarts(g, level, s0);
    assert act[..nactive] == QueueOf(n, level, run);
    if nactive == 0 {
      QueueEmpty(n, act[..], active);
      SgIsSound(g, level, s0, run, s0);
      return;
    }
    PartNest(n, level, s0);
    FillCellStarts(lab, ptn, cs, level);
    SparseMade(n, level, s0, cs[..], act[..], nactive);
    QueueMember(n, act[..], nactive, active, 0);
    QueueCard(n, act[..], nactive, active);
    ghost var start := true;
    if level <= 2 && nactive == 1 && ptn[act[0]] <= level && numcells <= lab.Length / 8 {
      ghost var cell;
      active, numcells, nactive, cell :=
        FirstSplit(sg, lab, ptn, cs, act, hits, level, infinity, active, numcells, nactive, g);
      FirstIsSparse(g, level, s0, cell, Part(lab[..], ptn[..], active, numcells));
      RunContinues(g, level, run, cell, Part(lab[..], ptn[..], active, numcells), act[..nactive]);
      run := Next(run, cell, Part(lab[..], ptn[..], active, numcells));
    } else {
      NotFirst(n, level, s0, act[0]);
    }
    active, numcells, nactive, run :=
      SplitAll(sg, lab, ptn, cs, act, hits, level, infinity, active, numcells, nactive, g, run);
    SgIsSound(g, level, s0, run, Part(lab[..], ptn[..], active, numcells));
  }

  // What the result of a run is worth.
  ghost predicate SgSound(g: Graph, level: int, s: Part, t: Part) {
    && PartOk(|g|, level, s) && PartOk(|g|, level, t) && Finer(s.ptn, t.ptn, level)
    && (QueueInv(ArcWeights(g), ColOf(|g|, level, s), s.active) ==>
          CoarsestEquitable(ArcWeights(g), ColOf(|g|, level, s), ColOf(|g|, level, t)))
  }

  lemma SgIsSound(g: Graph, level: int, s: Part, run: Run, t: Part)
    requires IsSparseRun(g, level, run) && First(run) == s && run.state == t && (t.numcells >= |g| || t.active == {})
    requires ValidGraph(g)
    ensures RefinementSg(g, level, s, run, t) && SgSound(g, level, s, t)
  {
    SparseRunIsRun(g, level, run);
    RunFiner(|g|, level, run);
    assert PartOk(|g|, level, t);
    hide IsSparseRun, IsRun, ColOf, QueueInv, CoarsestEquitable, ValidGraph;
    if QueueInv(ArcWeights(g), ColOf(|g|, level, s), s.active) { SparseRunCoarsest(g, level, s, run, t); }
  }

  // A later step, or the first one where the guard of the division by distance is false, goes by the arcs.
  lemma ArcIsSparse(g: Graph, level: int, start: bool, s: Part, cell: nat, t: Part)
    requires ArcStep(g, level, s, cell, t) && (start ==> !DistanceFirst(|g|, level, s))
    ensures SparseStep(g, level, start, s, cell, t)
  {
    hide Going, PartOk, ColOf;
  }

  lemma FirstIsSparse(g: Graph, level: int, s: Part, cell: nat, t: Part)
    requires PartOk(|g|, level, s) && s.active == {cell} && cell < |s.ptn| && s.ptn[cell] <= level
    requires level <= 2 && s.numcells <= |g| / 8 && |s.lab| == |s.ptn|
    requires Step(LastOfTwo, |g|, level, s, cell, t, FarKey(g, s.lab[cell]))
    ensures SparseStep(g, level, true, s, cell, t)
  {
    hide Going, PartOk, ColOf;
  }

  lemma NotFirst(n: nat, level: int, s: Part, d: nat)
    requires d in s.active && d < |s.ptn|
    requires !(level <= 2 && |s.active| == 1 && s.ptn[d] <= level && s.numcells <= n / 8)
    ensures !DistanceFirst(n, level, s)
  {
  }

  lemma {:induction false} QueueCard(n: nat, act: seq<nat>, nactive: nat, active: set<nat>)
    requires QueueOk(n, act, nactive, active)
    ensures |active| == nactive
  {
    DistinctCard(act[..nactive]);
    assert Elems(act[..nactive]) == active;
  }

  // Go on until no cell is active or every cell is a single vertex.
  method SplitAll(sg: SparseGraph, lab: array<nat>, ptn: array<int>, cs: array<nat>, act: array<nat>, hits: array<nat>,
                  level: int, infinity: nat, active0: set<nat>, numcells0: int, nactive0: nat, ghost g: Graph,
                  ghost run0: Run)
    returns (active: set<nat>, numcells: int, nactive: nat, ghost run: Run)
    requires RowsOf(sg, g) && lab.Length == ptn.Length == cs.Length == hits.Length == act.Length == |g|
    requires lab != cs && lab != act && lab != hits && cs != act && hits != cs && hits != act && |g| < infinity
    requires SparseOk(|g|, level, Part(lab[..], ptn[..], active0, numcells0), cs[..], act[..], nactive0)
    requires IsSparseRun(g, level, run0) && run0.state == Part(lab[..], ptn[..], active0, numcells0)
    requires run0.At? ==> !DistanceFirst(|g|, level, run0.state)
    requires nactive0 <= act.Length && act[..nactive0] == QueueOf(|g|, level, run0)
    modifies lab, ptn, cs, act, hits
    ensures IsSparseRun(g, level, run) && First(run) == First(run0)
    ensures run.state == Part(lab[..], ptn[..], active, numcells) && (numcells >= |g| || active == {})
  {
    hide *;
    ghost var n := |g|;
    active, numcells, nactive, run := active0, numcells0, nactive0, run0;
    while nactive > 0 && numcells < lab.Length
      invariant SparseOk(n, level, Part(lab[..], ptn[..], active, numcells), cs[..], act[..], nactive)
      invariant IsSparseRun(g, level, run) && First(run) == First(run0)
      invariant run.state == Part(lab[..], ptn[..], active, numcells)
      invariant run.At? ==> !DistanceFirst(n, level, run.state)
      invariant nactive <= act.Length && act[..nactive] == QueueOf(n, level, run)
      decreases n - numcells, |active|
    {
      ghost var cell, s := 0, run.state;
      active, numcells, nactive, cell :=
        SplitNext(sg, lab, ptn, cs, act, hits, level, infinity, active, numcells, nactive, g);
      ghost var t := Part(lab[..], ptn[..], active, numcells);
      ArcIsSparse(g, level, run.At?, s, cell, t);
      ArcProgress(g, level, s, cell, t);
      RunContinues(g, level, run, cell, t, act[..nactive]);
      run := Next(run, cell, t);
    }
    SparseParts(n, level, Part(lab[..], ptn[..], active, numcells), cs[..], act[..], nactive);
    if nactive == 0 { QueueEmpty(n, act[..], active); }
  }

  // A step makes a new cell, or leaves fewer cells active.
  lemma ArcProgress(g: Graph, level: int, s: Part, cell: nat, t: Part)
    requires ArcStep(g, level, s, cell, t)
    ensures s.numcells <= t.numcells && (t.numcells == s.numcells ==> |t.active| < |s.active|)
  {
    hide PartOk, ColOf, ArcKey;
    StepParts(LastOfTwo, |g|, level, s, cell, t, ArcKey(g, Class(ColOf(|g|, level, s), cell)));
    GrownParts(level, s.(active := s.active - {cell}), t);
  }

  lemma RunStarts(g: Graph, level: int, s: Part)
    requires PartOk(|g|, level, s)
    ensures IsSparseRun(g, level, At(s)) && First(At(s)) == s && QueueOf(|g|, level, At(s)) == InOrder(s.active, |g|)
  {
  }

  lemma RunContinues(g: Graph, level: int, run: Run, cell: nat, t: Part, q2: seq<nat>)
    requires IsSparseRun(g, level, run) && run.state.numcells < |g| && SparseStep(g, level, run.At?, run.state, cell, t)
    requires QueueStep(|g|, level, run.state, cell, t, QueueOf(|g|, level, run), q2)
    ensures IsSparseRun(g, level, Next(run, cell, t)) && First(Next(run, cell, t)) == First(run)
    ensures QueueOf(|g|, level, Next(run, cell, t)) == q2
  {
    hide Pushed, ColOf, SparseStep;
  }

  lemma QueueEmpty(n: nat, act: seq<nat>, active: set<nat>)
    requires QueueOk(n, act, 0, active)
    ensures active == {}
  {
    assert act[..0] == [];
    forall x | x in active ensures x in act[..0] {
    }
  }

  lemma PartNest(n: nat, level: int, s: Part)
    requires PartOk(n, level, s)
    ensures Nest(n, s.lab, s.ptn, level)
  {
  }

  lemma SparseMade(n: nat, level: int, s: Part, cs: seq<nat>, act: seq<nat>, nactive: nat)
    requires PartOk(n, level, s) && CellStarts(n, s.lab, s.ptn, level, cs) && QueueOk(n, act, nactive, s.active)
    ensures SparseOk(n, level, s, cs, act, nactive)
  {
  }

  // With all cells active, the first division by distance is never made.
  lemma NoFirstSplit(n: nat, level: int, s: Part)
    requires PartOk(n, level, s) && s.active == Starts(s.ptn, level) && |s.active| == 1
    requires forall d :: d in s.active ==> s.ptn[d] <= level
    ensures s.numcells > n / 8
  {
    OneStart(n, level, s);
    assert 1 !in Starts(s.ptn, level);
    assert n > 1 ==> IsStart(s.ptn, level, 1);
  }

  lemma OneStart(n: nat, level: int, s: Part)
    requires PartOk(n, level, s) && s.active == Starts(s.ptn, level) && |s.active| == 1
    ensures 0 in s.active && s.active == {0}
  {
    var d := Pick(s.active);
    assert 0 in s.active;
    SubsetCard({0}, s.active);
  }
}
