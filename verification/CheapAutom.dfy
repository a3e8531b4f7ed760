// The quick test that the cells of an equitable partition are the orbits of a group.
module CheapAutom {
  import opened Sums
  import opened Graphs
  import opened Orbits
  import opened GroupOrbits
  import opened Refinement
  import opened Nests
  import opened NestRefinement

  // ----- what the test counts -----

  // Starts of cells with more than one vertex.
  ghost function NonTrivial(ptn: seq<int>, level: int): set<nat> {
    set i: nat | i < |ptn| && IsStart(ptn, level, i) && ptn[i] > level
  }

  // Positions that are third or later in their cells.
  ghost function Later(ptn: seq<int>, level: int): set<nat> {
    set i: nat | i < |ptn| && IsLater(ptn, level, i)
  }

  ghost predicate IsLater(ptn: seq<int>, level: int, i: nat) {
    2 <= i <= |ptn| && ptn[i - 1] > level && ptn[i - 2] > level
  }

  ghost function UpTo(s: set<nat>, i: nat): set<nat> {
    set x | x in s && x < i
  }

  lemma UpToNext(s: set<nat>, i: nat)
    ensures |UpTo(s, i + 1)| == |UpTo(s, i)| + if i in s then 1 else 0
  {
    if i in s {
      assert UpTo(s, i + 1) == UpTo(s, i) + {i};
    } else {
      assert UpTo(s, i + 1) == UpTo(s, i);
    }
  }

  lemma {:induction false} NoneBetween(s: set<nat>, i: nat, j: nat)
    requires i <= j && forall x :: i <= x < j ==> x !in s
    ensures |UpTo(s, j)| == |UpTo(s, i)|
    decreases j
  {
    if i < j {
      NoneBetween(s, i, j - 1);
      UpToNext(s, j - 1);
    }
  }

  ghost predicate Ends(ptn: seq<int>, level: int) {
    |ptn| > 0 ==> ptn[|ptn| - 1] <= level
  }

  // Few more vertices than cells.
  ghost predicate FewVertices(ptn: seq<int>, level: int) {
    var k := |ptn| - |Starts(ptn, level)|;
    k <= |NonTrivial(ptn, level)| + 1 || k <= 4
  }

  // The excess of the number of vertices over the number of cells, and the number of cells with
  // more than one vertex.
  method CheapAutom(ptn: seq<int>, level: int, digraph: bool) returns (answer: bool)
    requires Ends(ptn, level)
    ensures answer == (!digraph && FewVertices(ptn, level))
    ensures var k := |ptn| - |Starts(ptn, level)|; answer <==> !digraph && (k <= |NonTrivial(ptn, level)| + 1 || k <= 4)
  {
    if digraph { return false; }
    var n := |ptn|;
    var k, nnt, i := n, 0, 0;
    ghost var starts, nontrivial := Starts(ptn, level), NonTrivial(ptn, level);
    while i < n
      invariant i <= n && IsStart(ptn, level, i)
      invariant k == n - |UpTo(starts, i)| && nnt == |UpTo(nontrivial, i)|
      decreases n - i
    {
      k := k - 1;
      ghost var start := i;
      UpToNext(starts, start);
      UpToNext(nontrivial, start);
      if ptn[i] > level {
        nnt := nnt + 1;
        i := i + 1;
        while ptn[i] > level
          invariant start < i < n && forall x :: start <= x < i ==> ptn[x] > level
          decreases n - i
        {
          i := i + 1;
        }
      }
      NoneBetween(starts, start + 1, i + 1);
      NoneBetween(nontrivial, start + 1, i + 1);
      i := i + 1;
    }
    assert UpTo(starts, n) == starts && UpTo(nontrivial, n) == nontrivial;
    return k <= nnt + 1 || k <= 4;
  }

  // ----- the shape of the cells -----

  lemma {:induction false} ExcessUpTo(ptn: seq<int>, level: int, i: nat)
    requires 1 <= i <= |ptn|
    ensures i - |UpTo(Starts(ptn, level), i)| == |UpTo(NonTrivial(ptn, level), i - 1)| + |UpTo(Later(ptn, level), i)|
    decreases i
  {
    var starts, nontrivial, later := Starts(ptn, level), NonTrivial(ptn, level), Later(ptn, level);
    UpToNext(starts, i - 1);
    UpToNext(later, i - 1);
    if i == 1 {
      assert UpTo(starts, 0) == {} && UpTo(nontrivial, 0) == {} && UpTo(later, 0) == {};
    } else {
      ExcessUpTo(ptn, level, i - 1);
      UpToNext(nontrivial, i - 2);
    }
  }

  // The excess of vertices over cells is the number of cells with more than one vertex plus the
  // number of positions that are third or later.
  lemma Excess(ptn: seq<int>, level: int)
    requires Ends(ptn, level)
    ensures |ptn| - |Starts(ptn, level)| == |NonTrivial(ptn, level)| + |Later(ptn, level)|
  {
    var n, starts, nontrivial, later := |ptn|, Starts(ptn, level), NonTrivial(ptn, level), Later(ptn, level);
    if n > 0 {
      ExcessUpTo(ptn, level, n);
      assert UpTo(starts, n) == starts && UpTo(nontrivial, n - 1) == nontrivial && UpTo(later, n) == later;
    } else {
      assert starts == {} && nontrivial == {} && later == {};
    }
  }

  // Main theorem: what is TRUE of a partition is TRUE of every finer one.
  lemma FinerStaysCheap(ptn: seq<int>, ptn2: seq<int>, level: int)
    requires Ends(ptn, level) && Finer(ptn, ptn2, level) && FewVertices(ptn, level)
    ensures FewVertices(ptn2, level)
  {
    assert Starts(ptn, level) <= Starts(ptn2, level);
    assert Later(ptn2, level) <= Later(ptn, level);
    SubsetCard(Starts(ptn, level), Starts(ptn2, level));
    SubsetCard(Later(ptn2, level), Later(ptn, level));
    Excess(ptn, level);
    Excess(ptn2, level);
  }

  // At most one position is third or later in its cell: all cells have one or two vertices, but
  // for at most one cell with three.
  ghost predicate NearlyPairs(ptn: seq<int>, level: int) {
    forall i, j :: i in Later(ptn, level) && j in Later(ptn, level) ==> i == j
  }

  lemma ExcessIsShape(ptn: seq<int>, level: int)
    requires Ends(ptn, level)
    ensures |ptn| - |Starts(ptn, level)| <= |NonTrivial(ptn, level)| + 1 <==> NearlyPairs(ptn, level)
  {
    Excess(ptn, level);
    var later := Later(ptn, level);
    if |later| <= 1 {
      forall i, j | i in later && j in later ensures i == j {
        SubsetCard({i, j}, later);
      }
    }
    if NearlyPairs(ptn, level) && later != {} {
      var i := Pick(later);
      assert later == {i};
    }
  }

  // ----- turning every cell around -----

  // The position after i in its cell, cyclically.
  ghost function Next(ptn: seq<int>, level: int, i: nat): (r: nat)
    requires i < |ptn| && Ends(ptn, level)
    ensures r < |ptn|
  {
    if ptn[i] > level then i + 1 else StartOf(ptn, level, i)
  }

  ghost function Rotation(n: nat, lab: seq<nat>, ptn: seq<int>, level: int): (p: seq<nat>)
    requires Nest(n, lab, ptn, level)
    ensures |p| == n
  {
    seq(n, v requires 0 <= v < n => lab[Next(ptn, level, Preimage(n, lab, v))])
  }

  lemma RotationAt(n: nat, lab: seq<nat>, ptn: seq<int>, level: int, i: nat)
    requires Nest(n, lab, ptn, level) && i < n
    ensures Rotation(n, lab, ptn, level)[lab[i]] == lab[Next(ptn, level, i)]
  {
    assert lab[Preimage(n, lab, lab[i])] == lab[i];
  }

  lemma {:induction false} SameStart(ptn: seq<int>, level: int, i: nat, j: nat)
    requires i <= j < |ptn| && StartOf(ptn, level, i) == StartOf(ptn, level, j)
    ensures forall k :: i <= k < j ==> ptn[k] > level
    decreases j
  {
    if i < j {
      if ptn[j - 1] > level { SameStart(ptn, level, i, j - 1); }
    }
  }

  lemma NextInjective(ptn: seq<int>, level: int, i: nat, j: nat)
    requires Ends(ptn, level) && i < j < |ptn|
    ensures Next(ptn, level, i) != Next(ptn, level, j)
  {
    if ptn[i] <= level && ptn[j] <= level && StartOf(ptn, level, i) == StartOf(ptn, level, j) {
      SameStart(ptn, level, i, j);
    }
  }

  lemma RotationPermutes(n: nat, lab: seq<nat>, ptn: seq<int>, level: int)
    requires Nest(n, lab, ptn, level)
    ensures Permutation(n, Rotation(n, lab, ptn, level))
  {
    var p := Rotation(n, lab, ptn, level);
    forall u, v | 0 <= u < v < n ensures p[u] != p[v] {
      var i, j := Preimage(n, lab, u), Preimage(n, lab, v);
      if i < j { NextInjective(ptn, level, i, j); } else { NextInjective(ptn, level, j, i); }
    }
  }

  // The rotation keeps every vertex in its cell.
  lemma RotationKeepsCells(n: nat, lab: seq<nat>, ptn: seq<int>, level: int, v: nat)
    requires Nest(n, lab, ptn, level) && v < n
    ensures Rotation(n, lab, ptn, level)[v] < n
    ensures Col(n, lab, ptn, level)[Rotation(n, lab, ptn, level)[v]] == Col(n, lab, ptn, level)[v]
  {
    var i := Preimage(n, lab, v);
    var j := Next(ptn, level, i);
    ColAt(n, lab, ptn, level, i);
    ColAt(n, lab, ptn, level, j);
    if ptn[i] <= level { StartIsItself(ptn, level, j); }
  }

  // ----- the rotation of nearly paired cells is an automorphism -----

  // The partition under test: equitable, on an undirected graph without loops.
  ghost predicate Tested(g: Graph, lab: seq<nat>, ptn: seq<int>, level: int) {
    && ValidGraph(g) && Symmetric(g) && (forall u: nat :: u < |g| ==> u !in g[u])
    && Nest(|g|, lab, ptn, level) && Equitable(RowWeights(g), Col(|g|, lab, ptn, level))
  }

  // The vertices of the cell of v are v and its images.
  ghost predicate Orbit3(col: seq<nat>, p: seq<nat>, v: nat) {
    && v < |p| == |col| && p[v] < |p| && p[p[v]] < |p|
    && Class(col, col[v]) == {v, p[v], p[p[v]]}
    && (p[p[v]] != v && p[v] != v ==> p[p[p[v]]] == v && p[p[v]] != p[v])
    && (p[v] == v || p[p[v]] == v || p[p[p[v]]] == v)
  }

  lemma WithinThree(ptn: seq<int>, level: int, s: nat, x: nat)
    requires NearlyPairs(ptn, level) && x < |ptn| && StartOf(ptn, level, x) == s
    ensures s <= x <= s + 2 && forall k :: s <= k < x ==> ptn[k] > level
  {
    StartIsItself(ptn, level, s);
    SameStart(ptn, level, s, x);
    if x >= s + 3 { FourTogether(ptn, level, s); }
  }

  lemma FourTogether(ptn: seq<int>, level: int, s: nat)
    requires s + 3 < |ptn| && ptn[s] > level && ptn[s + 1] > level && ptn[s + 2] > level
    ensures !NearlyPairs(ptn, level)
  {
    assert s + 2 in Later(ptn, level) && s + 3 in Later(ptn, level);
  }

  // A cell has one, two or three positions.
  lemma CellPositions(ptn: seq<int>, level: int, s: nat) returns (e: nat)
    requires Ends(ptn, level) && NearlyPairs(ptn, level) && s < |ptn| && IsStart(ptn, level, s)
    ensures CellAt(ptn, level, s, e) && e <= s + 2
    ensures forall x: nat :: x < |ptn| ==> (StartOf(ptn, level, x) == s <==> s <= x <= e)
  {
    e := s;
    if ptn[s] > level {
      e := s + 1;
      if ptn[s + 1] > level { e := s + 2; }
    }
    StartIsItself(ptn, level, s);
    if ptn[e] > level {
      StartInBlock(ptn, level, s, e + 1);
      WithinThree(ptn, level, s, e + 1);
    }
    forall x: nat | x < |ptn| ensures StartOf(ptn, level, x) == s <==> s <= x <= e {
      if StartOf(ptn, level, x) == s { WithinThree(ptn, level, s, x); }
    }
  }

  // What the rotation does to the vertices of a cell with positions s..e.
  ghost predicate Turns(n: nat, lab: seq<nat>, col: seq<nat>, p: seq<nat>, s: nat, e: nat) {
    && s <= e < n == |lab| == |col| == |p| && e <= s + 2
    && (forall i :: s <= i <= e ==> lab[i] < n)
    && (forall i, j :: s <= i < e && j == i + 1 ==> p[lab[i]] == lab[j])
    && p[lab[e]] == lab[s]
    && (forall v: nat :: v < n ==> (col[v] == s <==> v in lab[s..e + 1]))
    && Distinct(lab[s..e + 1])
  }

  lemma CellTurns(n: nat, lab: seq<nat>, ptn: seq<int>, level: int, s: nat) returns (e: nat)
    requires Nest(n, lab, ptn, level) && NearlyPairs(ptn, level) && s < n && IsStart(ptn, level, s)
    ensures Turns(n, lab, Col(n, lab, ptn, level), Rotation(n, lab, ptn, level), s, e)
    ensures CellAt(ptn, level, s, e)
  {
    e := CellPositions(ptn, level, s);
    var p := Rotation(n, lab, ptn, level);
    forall i: nat, j: nat | s <= i < e && j == i + 1 ensures p[lab[i]] == lab[j] {
      RotationAt(n, lab, ptn, level, i);
    }
    RotationAt(n, lab, ptn, level, e);
    CellList(n, lab, ptn, level, s, e);
  }

  lemma CellList(n: nat, lab: seq<nat>, ptn: seq<int>, level: int, s: nat, e: nat)
    requires Nest(n, lab, ptn, level) && s <= e < n
    requires forall x: nat :: x < n ==> (StartOf(ptn, level, x) == s <==> s <= x <= e)
    ensures Distinct(lab[s..e + 1])
    ensures forall v: nat :: v < n ==> (Col(n, lab, ptn, level)[v] == s <==> v in lab[s..e + 1])
  {
    var col, cell := Col(n, lab, ptn, level), lab[s..e + 1];
    forall v: nat | v < n ensures col[v] == s <==> v in cell {
      var i := Preimage(n, lab, v);
      if s <= i <= e { assert cell[i - s] == v; }
      if v in cell {
        var k :| 0 <= k < |cell| && cell[k] == v;
        assert lab[s + k] == lab[i];
      }
    }
  }

  lemma TurnsThree(n: nat, lab: seq<nat>, col: seq<nat>, p: seq<nat>, s: nat, e: nat, v: nat)
    requires Turns(n, lab, col, p, s, e) && v < n && col[v] == s
    ensures Orbit3(col, p, v)
    ensures p[v] == v <==> e == s
    ensures p[v] != v && p[p[v]] != v <==> e == s + 2
  {
    var cell := lab[s..e + 1];
    var a := lab[s];
    assert p[lab[e]] == a;
    if e == s {
      assert cell == [a];
      assert Class(col, s) == {v, p[v], p[p[v]]};
    } else if e == s + 1 {
      var b := lab[s + 1];
      assert cell == [a, b] && cell[0] != cell[1] && p[a] == b;
      assert Class(col, s) == {v, p[v], p[p[v]]};
    } else {
      var b, c := lab[s + 1], lab[s + 2];
      assert cell == [a, b, c] && cell[0] != cell[1] && cell[0] != cell[2] && cell[1] != cell[2];
      assert p[a] == b && p[b] == c;
      assert Class(col, s) == {v, p[v], p[p[v]]};
    }
  }

  // Two cells with three vertices are one.
  lemma OneTriple(ptn: seq<int>, level: int, s: nat, t: nat)
    requires NearlyPairs(ptn, level) && CellAt(ptn, level, s, s + 2) && CellAt(ptn, level, t, t + 2)
    ensures s == t
  {
    assert s + 2 in Later(ptn, level) && t + 2 in Later(ptn, level);
  }

  // ----- adjacency counts -----

  ghost function Adj(g: Graph, u: nat, v: nat): int
    requires u < |g|
  {
    if v in g[u] then 1 else 0
  }

  // The number of neighbours of u in the cell of v.
  ghost function Deg(g: Graph, p: seq<nat>, u: nat, v: nat): int
    requires u < |g| && v < |p| && p[v] < |p|
  {
    if p[v] == v then Adj(g, u, v)
    else if p[p[v]] == v then Adj(g, u, v) + Adj(g, u, p[v])
    else Adj(g, u, v) + Adj(g, u, p[v]) + Adj(g, u, p[p[v]])
  }

  lemma DegIsCount(g: Graph, col: seq<nat>, p: seq<nat>, u: nat, v: nat)
    requires |col| == |p| == |g| && u < |g| && v < |g| && Orbit3(col, p, v)
    ensures Count(RowWeights(g), Class(col, col[v]), u) == Deg(g, p, u, v)
  {
    CountIsOverlap(g, Class(col, col[v]), u);
    if p[v] == v {
      Overlap1(v, g[u]);
      assert {v, p[v], p[p[v]]} == {v};
    } else if p[p[v]] == v {
      Overlap2(v, p[v], g[u]);
      assert {v, p[v], p[p[v]]} == {v, p[v]};
    } else {
      Overlap3(v, p[v], p[p[v]], g[u]);
    }
  }

  lemma Overlap1(a: nat, s: set<nat>)
    ensures |{a} * s| == if a in s then 1 else 0
  {
    assert {a} * s == if a in s then {a} else {};
  }

  lemma Overlap2(a: nat, b: nat, s: set<nat>)
    requires a != b
    ensures |{a, b} * s| == (if a in s then 1 else 0) + (if b in s then 1 else 0)
  {
    Overlap1(a, s);
    Overlap1(b, s);
    assert {a, b} * s == ({a} * s) + ({b} * s);
  }

  lemma Overlap3(a: nat, b: nat, c: nat, s: set<nat>)
    requires a != b && a != c && b != c
    ensures |{a, b, c} * s| == (if a in s then 1 else 0) + (if b in s then 1 else 0) + (if c in s then 1 else 0)
  {
    Overlap2(a, b, s);
    Overlap1(c, s);
    assert {a, b, c} * s == ({a, b} * s) + ({c} * s);
  }

  // The partition is equitable: u and its image have equally many neighbours in the cell of v.
  ghost predicate EvenAt(g: Graph, p: seq<nat>, u: nat, v: nat)
    requires |p| == |g| && u < |g| && v < |p| && p[v] < |p| && p[u] < |p|
  {
    Deg(g, p, u, v) == Deg(g, p, p[u], v)
  }

  lemma EquitableEven(g: Graph, lab: seq<nat>, ptn: seq<int>, level: int, col: seq<nat>, p: seq<nat>, u: nat, v: nat)
    requires Tested(g, lab, ptn, level) && col == Col(|g|, lab, ptn, level) && |p| == |g|
    requires u < |g| && v < |g| && Orbit3(col, p, u) && Orbit3(col, p, v)
    ensures EvenAt(g, p, u, v)
  {
    DegIsCount(g, col, p, u, v);
    DegIsCount(g, col, p, p[u], v);
    assert p[u] in Class(col, col[u]);
    assert AgreeAll(RowWeights(g), col, u, p[u]);
    assert Agree(RowWeights(g), Class(col, col[v]), u, p[u]);
  }

  // Both ways between two cells that are not both triples, adjacency turns with the cells.
  lemma PairTurns(g: Graph, p: seq<nat>, u: nat, v: nat)
    requires |p| == |g| && u < |g| && v < |g| && Symmetric(g)
    requires forall x :: 0 <= x < |g| ==> p[x] < |g|
    requires p[u] == u || p[p[u]] == u
    requires p[v] == v || p[p[v]] == v || p[p[p[v]]] == v
    requires EvenAt(g, p, u, v)
    requires EvenAt(g, p, v, u) && EvenAt(g, p, p[v], u)
    requires Adj(g, u, v) == Adj(g, v, u) && Adj(g, u, p[v]) == Adj(g, p[v], u)
    requires Adj(g, u, p[p[v]]) == Adj(g, p[p[v]], u)
    requires Adj(g, p[u], v) == Adj(g, v, p[u]) && Adj(g, p[u], p[v]) == Adj(g, p[v], p[u])
    requires Adj(g, p[u], p[p[v]]) == Adj(g, p[p[v]], p[u])
    ensures Adj(g, u, v) == Adj(g, p[u], p[v])
  {
  }

  // Within one cell.
  lemma SameCellTurns(g: Graph, p: seq<nat>, u: nat, v: nat)
    requires |p| == |g| && u < |g| && v < |g| && Symmetric(g) && (forall x: nat :: x < |g| ==> x !in g[x])
    requires (forall x :: 0 <= x < |g| ==> p[x] < |g|) && v in {u, p[u], p[p[u]]}
    requires p[u] == u || p[p[u]] == u || p[p[p[u]]] == u
    requires EvenAt(g, p, u, u) && EvenAt(g, p, p[u], u)
    ensures Adj(g, u, v) == Adj(g, p[u], p[v])
  {
    var x, y := p[u], p[p[u]];
    assert Adj(g, u, x) == Adj(g, x, u) && Adj(g, u, y) == Adj(g, y, u) && Adj(g, x, y) == Adj(g, y, x);
    assert Adj(g, u, u) == 0 && Adj(g, x, x) == 0 && Adj(g, y, y) == 0;
  }

  ghost predicate AdjSymmetric(g: Graph, u: nat, v: nat) {
    u < |g| && v < |g| && Adj(g, u, v) == Adj(g, v, u)
  }

  // What is known of every vertex and every pair of vertices.
  ghost predicate Turned(g: Graph, col: seq<nat>, p: seq<nat>) {
    && |p| == |col| == |g| && Symmetric(g) && (forall x: nat :: x < |g| ==> x !in g[x])
    && (forall x :: 0 <= x < |g| ==> p[x] < |g|)
    && (forall x :: 0 <= x < |g| ==> Orbit3(col, p, x))
    && (forall x: nat, y: nat :: x < |g| && y < |g| ==> EvenAt(g, p, x, y))
    && (forall x: nat, y: nat :: x < |g| && y < |g| && IsTriple(p, x) && IsTriple(p, y) ==> col[x] == col[y])
  }

  ghost predicate IsTriple(p: seq<nat>, x: nat)
    requires x < |p| && p[x] < |p|
  {
    p[x] != x && p[p[x]] != x
  }

  lemma RotationTurned(g: Graph, lab: seq<nat>, ptn: seq<int>, level: int)
    requires Tested(g, lab, ptn, level) && NearlyPairs(ptn, level)
    ensures Turned(g, Col(|g|, lab, ptn, level), Rotation(|g|, lab, ptn, level))
  {
    var n, col, p := |g|, Col(|g|, lab, ptn, level), Rotation(|g|, lab, ptn, level);
    hide Equitable, Orbit3;
    RotationPermutes(n, lab, ptn, level);
    assert forall x :: 0 <= x < n ==> p[x] < n;
    forall x: nat | x < n ensures Orbit3(col, p, x) {
      VertexTurned(n, lab, ptn, level, x);
    }
    hide Nest, Col, Rotation, Permutation, Equitable, NearlyPairs, IsTriple, EvenAt, Orbit3;
    forall x: nat, y: nat | x < n && y < n ensures EvenAt(g, p, x, y) {
      EquitableEven(g, lab, ptn, level, col, p, x, y);
    }
    forall x: nat, y: nat | x < n && y < n && IsTriple(p, x) && IsTriple(p, y) ensures col[x] == col[y] {
      TwoTriples(n, lab, ptn, level, x, y);
    }
  }

  lemma TwoTriples(n: nat, lab: seq<nat>, ptn: seq<int>, level: int, x: nat, y: nat)
    requires Nest(n, lab, ptn, level) && NearlyPairs(ptn, level) && x < n && y < n
    requires forall v :: 0 <= v < n ==> Rotation(n, lab, ptn, level)[v] < n
    requires IsTriple(Rotation(n, lab, ptn, level), x) && IsTriple(Rotation(n, lab, ptn, level), y)
    ensures Col(n, lab, ptn, level)[x] == Col(n, lab, ptn, level)[y]
  {
    VertexTurned(n, lab, ptn, level, x);
    VertexTurned(n, lab, ptn, level, y);
    OneTriple(ptn, level, Col(n, lab, ptn, level)[x], Col(n, lab, ptn, level)[y]);
  }

  lemma VertexTurned(n: nat, lab: seq<nat>, ptn: seq<int>, level: int, x: nat)
    requires Nest(n, lab, ptn, level) && NearlyPairs(ptn, level) && x < n
    ensures var col, p := Col(n, lab, ptn, level), Rotation(n, lab, ptn, level);
      Orbit3(col, p, x) && (IsTriple(p, x) ==> CellAt(ptn, level, col[x], col[x] + 2))
  {
    var col, p := Col(n, lab, ptn, level), Rotation(n, lab, ptn, level);
    ColIsStart(n, lab, ptn, level, x);
    var e := CellTurns(n, lab, ptn, level, col[x]);
    TurnsThree(n, lab, col, p, col[x], e, x);
  }

  lemma ColIsStart(n: nat, lab: seq<nat>, ptn: seq<int>, level: int, x: nat)
    requires Nest(n, lab, ptn, level) && x < n
    ensures Col(n, lab, ptn, level)[x] < n && IsStart(ptn, level, Col(n, lab, ptn, level)[x])
  {
  }

  lemma EdgeTurns(g: Graph, col: seq<nat>, p: seq<nat>, u: nat, v: nat)
    requires Turned(g, col, p) && u < |g| && v < |g|
    ensures p[u] < |g| && p[v] < |g| && (v in g[u] <==> p[v] in g[p[u]])
  {
    assert Orbit3(col, p, u) && Orbit3(col, p, v);
    if col[u] == col[v] {
      assert v in Class(col, col[u]);
      assert EvenAt(g, p, u, u) && EvenAt(g, p, p[u], u);
      SameCellTurns(g, p, u, v);
    } else if !IsTriple(p, u) {
      PairTurnsEven(g, col, p, u, v);
    } else {
      assert !IsTriple(p, v);
      PairTurnsEven(g, col, p, v, u);
      assert v in g[u] <==> u in g[v];
    }
  }

  lemma PairTurnsEven(g: Graph, col: seq<nat>, p: seq<nat>, u: nat, v: nat)
    requires Turned(g, col, p) && u < |g| && v < |g| && !IsTriple(p, u)
    ensures Adj(g, u, v) == Adj(g, p[u], p[v])
  {
    assert Orbit3(col, p, v);
    assert EvenAt(g, p, u, v) && EvenAt(g, p, v, u) && EvenAt(g, p, p[v], u);
    hide Orbit3, EvenAt, IsTriple;
    forall x: nat, y: nat | x < |g| && y < |g| ensures AdjSymmetric(g, x, y) {
    }
    assert AdjSymmetric(g, u, v) && AdjSymmetric(g, u, p[v]) && AdjSymmetric(g, u, p[p[v]]);
    assert AdjSymmetric(g, p[u], v) && AdjSymmetric(g, p[u], p[v]) && AdjSymmetric(g, p[u], p[p[v]]);
    NoTriple(p, u);
    ThreeSteps(col, p, v);
    PairTurns(g, p, u, v);
  }

  lemma NoTriple(p: seq<nat>, u: nat)
    requires u < |p| && p[u] < |p| && !IsTriple(p, u)
    ensures p[u] == u || p[p[u]] == u
  {
  }

  lemma ThreeSteps(col: seq<nat>, p: seq<nat>, v: nat)
    requires Orbit3(col, p, v)
    ensures p[v] == v || p[p[v]] == v || p[p[p[v]]] == v
  {
  }

  // ----- the orbits -----

  lemma WordKeepsCells(n: nat, lab: seq<nat>, ptn: seq<int>, level: int, w: Word, v: nat)
    requires Nest(n, lab, ptn, level) && Permutations([Rotation(n, lab, ptn, level)], n) && WordOk(w, 1) && v < n
    ensures Col(n, lab, ptn, level)[Act([Rotation(n, lab, ptn, level)], n, w, v)] == Col(n, lab, ptn, level)[v]
    decreases |w|
  {
    var p := Rotation(n, lab, ptn, level);
    if w != [] {
      var l := w[|w| - 1];
      WordKeepsCells(n, lab, ptn, level, w[..|w| - 1], v);
      var mid := Act([p], n, w[..|w| - 1], v);
      assert l.0 == 0;
      RotationKeepsCells(n, lab, ptn, level, if l.1 then Preimage(n, p, mid) else mid);
    }
  }

  lemma {:induction false} FromStart(n: nat, lab: seq<nat>, ptn: seq<int>, level: int, i: nat)
    requires Nest(n, lab, ptn, level) && Permutations([Rotation(n, lab, ptn, level)], n) && i < n
    ensures SameOrbit([Rotation(n, lab, ptn, level)], n, lab[StartOf(ptn, level, i)], lab[i])
    decreases i
  {
    hide *;
    var p := Rotation(n, lab, ptn, level);
    StartBefore(n, lab, ptn, level, i);
    var s := StartOf(ptn, level, i);
    if s == i {
      OrbitOfSelf([p], n, lab[i]);
    } else {
      FromStart(n, lab, ptn, level, i - 1);
      GeneratorInOrbit([p], n, 0, lab[i - 1]);
      RotationAt(n, lab, ptn, level, i - 1);
      OrbitChain([p], n, lab[s], lab[i - 1], lab[i]);
    }
  }

  lemma StartBefore(n: nat, lab: seq<nat>, ptn: seq<int>, level: int, i: nat)
    requires Nest(n, lab, ptn, level) && i < n
    ensures |lab| == |ptn| == n && lab[i] < n && (i > 0 ==> lab[i - 1] < n) && StartOf(ptn, level, i) <= i
    ensures StartOf(ptn, level, i) != i ==>
      i > 0 && StartOf(ptn, level, i - 1) == StartOf(ptn, level, i) && Next(ptn, level, i - 1) == i
  {
  }

  lemma OrbitOfSelf(perms: seq<seq<nat>>, n: nat, x: nat)
    requires Permutations(perms, n) && x < n
    ensures SameOrbit(perms, n, x, x)
  {
    assert Act(perms, n, [], x) == x;
  }

  lemma OrbitChain(perms: seq<seq<nat>>, n: nat, x: nat, y: nat, z: nat)
    requires Permutations(perms, n) && SameOrbit(perms, n, x, y) && SameOrbit(perms, n, y, z)
    ensures SameOrbit(perms, n, x, z)
  {
    OrbitEquivalence(perms, n);
    var e := OrbitRelation(perms, n);
    assert e(x, y) && e(y, z) && e(x, z);
  }

  lemma CellsAreOrbits(n: nat, lab: seq<nat>, ptn: seq<int>, level: int, u: nat, v: nat)
    requires Nest(n, lab, ptn, level) && Permutations([Rotation(n, lab, ptn, level)], n) && u < n && v < n
    ensures SameOrbit([Rotation(n, lab, ptn, level)], n, u, v)
       <==> Col(n, lab, ptn, level)[u] == Col(n, lab, ptn, level)[v]
  {
    var p, col := Rotation(n, lab, ptn, level), Col(n, lab, ptn, level);
    if SameOrbit([p], n, u, v) {
      var w: Word :| WordOk(w, |[p]|) && Act([p], n, w, u) == v;
      WordKeepsCells(n, lab, ptn, level, w, u);
    }
    if col[u] == col[v] {
      var i, j := Preimage(n, lab, u), Preimage(n, lab, v);
      FromStart(n, lab, ptn, level, i);
      FromStart(n, lab, ptn, level, j);
      OrbitEquivalence([p], n);
      var e, s := OrbitRelation([p], n), lab[StartOf(ptn, level, i)];
      assert e(s, u) && e(s, v) && e(u, s) && e(u, v);
    }
  }

  // Main theorem: when the excess is at most one more than the number of cells with more than
  // one vertex, turning every cell around is an automorphism of the graph, and the cells are
  // exactly the orbits of the group that it generates.
  lemma CheapIsSound(g: Graph, lab: seq<nat>, ptn: seq<int>, level: int) returns (p: seq<nat>)
    requires Tested(g, lab, ptn, level)
    requires |ptn| - |Starts(ptn, level)| <= |NonTrivial(ptn, level)| + 1
    ensures Automorphism(g, p) && Permutations([p], |g|)
    ensures forall u: nat, v: nat :: u < |g| && v < |g| ==>
      (SameOrbit([p], |g|, u, v) <==> Col(|g|, lab, ptn, level)[u] == Col(|g|, lab, ptn, level)[v])
  {
    var n, col := |g|, Col(|g|, lab, ptn, level);
    p := Rotation(n, lab, ptn, level);
    RotationPermutes(n, lab, ptn, level);
    ExcessIsShape(ptn, level);
    RotationTurned(g, lab, ptn, level);
    forall u: nat, v: nat | u < n && v < n ensures v in g[u] <==> p[v] in g[p[u]] {
      EdgeTurns(g, col, p, u, v);
    }
    forall u: nat, v: nat | u < n && v < n ensures SameOrbit([p], n, u, v) <==> col[u] == col[v] {
      CellsAreOrbits(n, lab, ptn, level, u, v);
    }
  }
}
