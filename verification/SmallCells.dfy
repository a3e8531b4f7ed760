// Few vertices in cells of several vertices: the cells of an equitable partition are orbits.
module SmallCells {
  import opened Sums
  import opened Graphs
  import opened GroupOrbits
  import opened Refinement
  import opened Nests
  import opened NestRefinement
  import opened CheapAutom

  // An automorphism that keeps every vertex in its cell.
  ghost predicate CellAutomorphism(g: Graph, col: seq<nat>, p: seq<nat>) {
    |col| == |g| && Automorphism(g, p) && forall x :: 0 <= x < |g| ==> p[x] < |g| && col[p[x]] == col[x]
  }

  // A vertex that shares its cell.
  ghost predicate Shares(col: seq<nat>, x: nat) {
    exists y: nat :: y < |col| && x < |col| && y != x && col[y] == col[x]
  }

  // On vertices that share their cells, adjacency is kept.
  ghost predicate KeepsShared(g: Graph, col: seq<nat>, p: seq<nat>) {
    && |col| == |p| == |g| && (forall x :: 0 <= x < |g| ==> p[x] < |g|)
    && forall x: nat, y: nat :: x < |g| && y < |g| && Shares(col, x) && Shares(col, y) ==>
        Adj(g, x, y) == Adj(g, p[x], p[y])
  }

  // A vertex alone in its cell is adjacent to all or none of another cell.
  lemma AloneToAll(g: Graph, col: seq<nat>, x: nat, y: nat, z: nat)
    requires ValidGraph(g) && Symmetric(g) && Equitable(RowWeights(g), col) && |col| == |g|
    requires x < |g| && y < |g| && z < |g| && !Shares(col, x) && col[y] == col[z]
    ensures Adj(g, x, y) == Adj(g, x, z)
  {
    assert AgreeAll(RowWeights(g), col, y, z);
    assert Agree(RowWeights(g), Class(col, col[x]), y, z);
    assert Class(col, col[x]) == {x};
    CountIsOverlap(g, {x}, y);
    CountIsOverlap(g, {x}, z);
    Overlap1(x, g[y]);
    Overlap1(x, g[z]);
  }

  lemma SharedIsEnough(g: Graph, col: seq<nat>, p: seq<nat>)
    requires ValidGraph(g) && Symmetric(g) && Equitable(RowWeights(g), col) && |col| == |g|
    requires Permutation(|g|, p) && (forall x :: 0 <= x < |g| ==> col[p[x]] == col[x]) && KeepsShared(g, col, p)
    ensures CellAutomorphism(g, col, p)
  {
    forall u: nat, v: nat | u < |g| && v < |g| ensures v in g[u] <==> p[v] in g[p[u]] {
      if !Shares(col, u) {
        assert p[u] == u;
        AloneToAll(g, col, u, v, p[v]);
      } else if !Shares(col, v) {
        assert p[v] == v;
        AloneToAll(g, col, v, u, p[u]);
        assert (v in g[u] <==> u in g[v]) && (v in g[p[u]] <==> p[u] in g[v]);
      } else {
        assert Adj(g, u, v) == Adj(g, p[u], p[v]);
      }
    }
  }

  // ----- exchanging pairs of vertices -----

  ghost function Exchange(p: seq<nat>, a: nat, b: nat): (q: seq<nat>)
    requires a < |p| && b < |p|
    ensures |q| == |p|
  {
    p[a := p[b]][b := p[a]]
  }

  lemma ExchangePermutes(n: nat, p: seq<nat>, a: nat, b: nat)
    requires Permutation(n, p) && a < n && b < n
    ensures Permutation(n, Exchange(p, a, b))
  {
  }

  ghost function Same(n: nat): (p: seq<nat>)
    ensures |p| == n && Permutation(n, p)
  {
    seq(n, i requires 0 <= i < n => i)
  }

  // u and v change places, and so do x and y.
  ghost function Exchange2(n: nat, u: nat, v: nat, x: nat, y: nat): (p: seq<nat>)
    requires u < n && v < n && x < n && y < n
    ensures |p| == n
  {
    Exchange(Exchange(Same(n), u, v), x, y)
  }

  ghost function Exchange3(n: nat, u: nat, v: nat, x: nat, y: nat, a: nat, b: nat): (p: seq<nat>)
    requires u < n && v < n && x < n && y < n && a < n && b < n
    ensures |p| == n
  {
    Exchange(Exchange2(n, u, v, x, y), a, b)
  }

  ghost predicate Apart(xs: seq<nat>, n: nat) {
    Distinct(xs) && forall i :: 0 <= i < |xs| ==> xs[i] < n
  }

  lemma Exchanged2(n: nat, u: nat, v: nat, x: nat, y: nat)
    requires u < n && v < n && x < n && y < n && u != x && u != y && v != x && v != y
    ensures var p := Exchange2(n, u, v, x, y);
      Permutation(n, p) && p[u] == v && p[v] == u && p[x] == y && p[y] == x
      && forall z :: 0 <= z < n && z != u && z != v && z != x && z != y ==> p[z] == z
  {
    ExchangePermutes(n, Same(n), u, v);
    ExchangePermutes(n, Exchange(Same(n), u, v), x, y);
  }

  lemma Exchanged3(n: nat, u: nat, v: nat, x: nat, y: nat, a: nat, b: nat)
    requires u < n && v < n && x < n && y < n && a < n && b < n && u != x && u != y && v != x && v != y
    requires a != u && a != v && a != x && a != y && b != u && b != v && b != x && b != y
    ensures var p := Exchange3(n, u, v, x, y, a, b);
      Permutation(n, p) && p[u] == v && p[v] == u && p[x] == y && p[y] == x && p[a] == b && p[b] == a
      && forall z :: 0 <= z < n && z != u && z != v && z != x && z != y && z != a && z != b ==> p[z] == z
  {
    Exchanged2(n, u, v, x, y);
    ExchangePermutes(n, Exchange2(n, u, v, x, y), a, b);
  }

  // ----- counts inside and between small cells -----

  // The number of neighbours of u among the listed vertices.
  ghost function DegIn(g: Graph, u: nat, cell: seq<nat>): int
    requires u < |g|
  {
    if cell == [] then 0 else DegIn(g, u, cell[..|cell| - 1]) + Adj(g, u, cell[|cell| - 1])
  }

  lemma OverlapLast(cell: seq<nat>, s: set<nat>)
    requires cell != [] && Distinct(cell)
    ensures var init, last := cell[..|cell| - 1], cell[|cell| - 1];
      Distinct(init) && |Elems(cell) * s| == |Elems(init) * s| + if last in s then 1 else 0
  {
    var init, last := cell[..|cell| - 1], cell[|cell| - 1];
    assert last !in init;
    assert cell == init + [last];
    assert Elems(cell) * s == Elems(init) * s + if last in s then {last} else {};
  }

  lemma {:induction false} DegInIsOverlap(g: Graph, u: nat, cell: seq<nat>)
    requires u < |g| && Distinct(cell)
    ensures DegIn(g, u, cell) == |Elems(cell) * g[u]|
  {
    if cell == [] {
      assert Elems(cell) * g[u] == {};
    } else {
      var init, last := cell[..|cell| - 1], cell[|cell| - 1];
      DegInIsOverlap(g, u, init);
      OverlapLast(cell, g[u]);
    }
  }

  // cell lists one cell of the partition.
  ghost predicate ListsCell(col: seq<nat>, cell: seq<nat>) {
    && Apart(cell, |col|) && cell != []
    && forall x: nat :: x < |col| ==> (x in cell <==> col[x] == col[cell[0]])
  }

  lemma EvenDegrees(g: Graph, col: seq<nat>, cell: seq<nat>, u: nat, v: nat)
    requires ValidGraph(g) && Equitable(RowWeights(g), col) && |col| == |g| && ListsCell(col, cell)
    requires u < |g| && v < |g| && col[u] == col[v]
    ensures DegIn(g, u, cell) == DegIn(g, v, cell)
  {
    var c := col[cell[0]];
    assert AgreeAll(RowWeights(g), col, u, v);
    assert Agree(RowWeights(g), Class(col, c), u, v);
    assert Elems(cell) == Class(col, c);
    CountIsOverlap(g, Elems(cell), u);
    CountIsOverlap(g, Elems(cell), v);
    DegInIsOverlap(g, u, cell);
    DegInIsOverlap(g, v, cell);
  }

  // ----- naming the vertices of a cell -----

  lemma Relist(col: seq<nat>, cell: seq<nat>, again: seq<nat>)
    requires ListsCell(col, cell) && Distinct(again) && Elems(again) == Elems(cell)
    ensures ListsCell(col, again) && |again| == |cell|
  {
    DistinctCard(cell);
    DistinctCard(again);
    assert cell[0] in Elems(cell) && cell[0] in Elems(again) && cell[0] in again;
    assert again[0] in Elems(again);
    assert again[0] in cell;
    forall i | 0 <= i < |again| ensures again[i] < |col| {
      assert again[i] in Elems(again);
      assert again[i] in cell;
    }
    forall x: nat | x < |col| ensures x in again <==> col[x] == col[again[0]] {
      assert x in again <==> x in Elems(again);
      assert x in Elems(cell) <==> x in cell;
    }
  }

  lemma OtherThan(s: set<nat>, used: set<nat>) returns (x: nat)
    requires |used| < |s|
    ensures x in s && x !in used
  {
    var rest := s - used;
    SubsetCard(s - rest, used);
    assert rest == {} ==> s - rest == s;
    x := Pick(rest);
  }

  lemma Name3(col: seq<nat>, cell: seq<nat>, u: nat, v: nat) returns (w: nat)
    requires ListsCell(col, cell) && |cell| == 3 && u in cell && v in cell && u != v
    ensures ListsCell(col, [u, v, w])
  {
    DistinctCard(cell);
    w := OtherThan(Elems(cell), {u, v});
    SubsetCard({u, v, w}, Elems(cell));
    assert Elems([u, v, w]) == {u, v, w};
    Relist(col, cell, [u, v, w]);
  }

  lemma Name4(col: seq<nat>, cell: seq<nat>, u: nat, v: nat) returns (x: nat, y: nat)
    requires ListsCell(col, cell) && |cell| == 4 && u in cell && v in cell && u != v
    ensures ListsCell(col, [u, v, x, y])
  {
    DistinctCard(cell);
    x := OtherThan(Elems(cell), {u, v});
    y := OtherThan(Elems(cell), {u, v, x});
    SubsetCard({u, v, x, y}, Elems(cell));
    assert Elems([u, v, x, y]) == {u, v, x, y};
    Relist(col, cell, [u, v, x, y]);
  }

  lemma Name5(col: seq<nat>, cell: seq<nat>, u: nat, v: nat) returns (x: nat, y: nat, z: nat)
    requires ListsCell(col, cell) && |cell| == 5 && u in cell && v in cell && u != v
    ensures ListsCell(col, [u, v, x, y, z])
  {
    DistinctCard(cell);
    x := OtherThan(Elems(cell), {u, v});
    y := OtherThan(Elems(cell), {u, v, x});
    z := OtherThan(Elems(cell), {u, v, x, y});
    SubsetCard({u, v, x, y, z}, Elems(cell));
    assert Elems([u, v, x, y, z]) == {u, v, x, y, z};
    Relist(col, cell, [u, v, x, y, z]);
  }

  lemma Swap2(col: seq<nat>, cell: seq<nat>, u: nat, v: nat)
    requires ListsCell(col, cell) && |cell| == 2 && u in cell && v in cell && u != v
    ensures ListsCell(col, [u, v])
  {
    DistinctCard(cell);
    SubsetCard({u, v}, Elems(cell));
    assert Elems([u, v]) == {u, v};
    Relist(col, cell, [u, v]);
  }

  // ----- sums of adjacencies -----

  lemma Deg2(g: Graph, z: nat, a: nat, b: nat)
    requires z < |g|
    ensures DegIn(g, z, [a, b]) == Adj(g, z, a) + Adj(g, z, b)
  {
    assert [a, b][..1] == [a] && [a][..0] == [];
    assert DegIn(g, z, [a]) == DegIn(g, z, []) + Adj(g, z, a);
  }

  lemma Deg3(g: Graph, z: nat, a: nat, b: nat, c: nat)
    requires z < |g|
    ensures DegIn(g, z, [a, b, c]) == Adj(g, z, a) + Adj(g, z, b) + Adj(g, z, c)
  {
    Deg2(g, z, a, b);
    assert [a, b, c][..2] == [a, b];
  }

  lemma Deg4(g: Graph, z: nat, a: nat, b: nat, c: nat, d: nat)
    requires z < |g|
    ensures DegIn(g, z, [a, b, c, d]) == Adj(g, z, a) + Adj(g, z, b) + Adj(g, z, c) + Adj(g, z, d)
  {
    Deg3(g, z, a, b, c);
    assert [a, b, c, d][..3] == [a, b, c];
  }

  lemma Deg5(g: Graph, z: nat, a: nat, b: nat, c: nat, d: nat, e: nat)
    requires z < |g|
    ensures DegIn(g, z, [a, b, c, d, e]) == Adj(g, z, a) + Adj(g, z, b) + Adj(g, z, c) + Adj(g, z, d) + Adj(g, z, e)
  {
    Deg4(g, z, a, b, c, d);
    assert [a, b, c, d, e][..4] == [a, b, c, d];
  }

  // The standing assumptions on the graph and the partition.
  ghost predicate Even(g: Graph, col: seq<nat>) {
    && ValidGraph(g) && Symmetric(g) && (forall u: nat :: u < |g| ==> u !in g[u])
    && |col| == |g| && Equitable(RowWeights(g), col)
  }

  lemma AdjFacts(g: Graph, col: seq<nat>, a: nat, b: nat)
    requires Even(g, col) && a < |g| && b < |g|
    ensures Adj(g, a, b) == Adj(g, b, a) && Adj(g, a, a) == 0 && Adj(g, b, b) == 0 && 0 <= Adj(g, a, b) <= 1
  {
  }

  // ----- one cell with four vertices -----

  lemma FourDegrees(g: Graph, col: seq<nat>, u: nat, v: nat, x: nat, y: nat)
    requires Even(g, col) && ListsCell(col, [u, v, x, y])
    ensures u < |g| && v < |g| && x < |g| && y < |g| && u != v && u != x && u != y && v != x && v != y && x != y
    ensures col[u] == col[v] == col[x] == col[y]
    ensures Adj(g, u, x) == Adj(g, v, y) && Adj(g, u, y) == Adj(g, v, x)
  {
    var c := [u, v, x, y];
    assert c[0] == u && c[1] == v && c[2] == x && c[3] == y;
    assert c[0] in c && c[1] in c && c[2] in c && c[3] in c;
    EvenDegrees(g, col, c, u, v);
    EvenDegrees(g, col, c, u, x);
    EvenDegrees(g, col, c, u, y);
    Deg4(g, u, u, v, x, y);
    Deg4(g, v, u, v, x, y);
    Deg4(g, x, u, v, x, y);
    Deg4(g, y, u, v, x, y);
    AdjFacts(g, col, u, v);
    AdjFacts(g, col, u, x);
    AdjFacts(g, col, u, y);
    AdjFacts(g, col, v, x);
    AdjFacts(g, col, v, y);
    AdjFacts(g, col, x, y);
  }

  // Every vertex that shares its cell is in the list.
  ghost predicate Covers(col: seq<nat>, list: seq<nat>) {
    forall x: nat :: x < |col| && Shares(col, x) ==> x in list
  }

  lemma OneFour(g: Graph, col: seq<nat>, u: nat, v: nat, x: nat, y: nat) returns (p: seq<nat>)
    requires Even(g, col) && ListsCell(col, [u, v, x, y]) && Covers(col, [u, v, x, y])
    ensures |p| == |g| && CellAutomorphism(g, col, p) && u < |g| && p[u] == v
  {
    var n := |g|;
    FourDegrees(g, col, u, v, x, y);
    p := Exchange2(n, u, v, x, y);
    Exchanged2(n, u, v, x, y);
    hide Exchange2, ListsCell, Permutation;
    forall a: nat, b: nat | a < n && b < n && Shares(col, a) && Shares(col, b)
      ensures Adj(g, a, b) == Adj(g, p[a], p[b]) {
      assert a in [u, v, x, y] && b in [u, v, x, y];
      AdjFacts(g, col, a, b);
      AdjFacts(g, col, p[a], p[b]);
      AdjFacts(g, col, u, x);
      AdjFacts(g, col, u, y);
      AdjFacts(g, col, v, x);
      AdjFacts(g, col, v, y);
    }
    SharedIsEnough(g, col, p);
  }

  // ----- one cell with five vertices -----

  // Exchanging u with v and x with y keeps the adjacency among the five.
  ghost predicate Fits5(g: Graph, u: nat, v: nat, x: nat, y: nat, w: nat) {
    && u < |g| && v < |g| && x < |g| && y < |g| && w < |g|
    && Adj(g, u, x) == Adj(g, v, y) && Adj(g, u, y) == Adj(g, v, x)
    && Adj(g, u, w) == Adj(g, v, w) && Adj(g, x, w) == Adj(g, y, w)
  }

  lemma FiveDegrees(g: Graph, col: seq<nat>, u: nat, v: nat, x: nat, y: nat, z: nat)
    requires Even(g, col) && ListsCell(col, [u, v, x, y, z])
    ensures u < |g| && v < |g| && x < |g| && y < |g| && z < |g|
    ensures Apart([u, v, x, y, z], |g|) && col[u] == col[v] == col[x] == col[y] == col[z]
    ensures Fits5(g, u, v, x, y, z) || Fits5(g, u, v, x, z, y) || Fits5(g, u, v, y, z, x)
         || Fits5(g, u, v, y, x, z) || Fits5(g, u, v, z, x, y) || Fits5(g, u, v, z, y, x)
  {
    var c := [u, v, x, y, z];
    assert c[0] == u && c[1] == v && c[2] == x && c[3] == y && c[4] == z;
    assert c[0] in c && c[1] in c && c[2] in c && c[3] in c && c[4] in c;
    EvenDegrees(g, col, c, u, v);
    EvenDegrees(g, col, c, u, x);
    EvenDegrees(g, col, c, u, y);
    EvenDegrees(g, col, c, u, z);
    Deg5(g, u, u, v, x, y, z);
    Deg5(g, v, u, v, x, y, z);
    Deg5(g, x, u, v, x, y, z);
    Deg5(g, y, u, v, x, y, z);
    Deg5(g, z, u, v, x, y, z);
    AdjFacts(g, col, u, v);
    AdjFacts(g, col, u, x);
    AdjFacts(g, col, u, y);
    AdjFacts(g, col, u, z);
    AdjFacts(g, col, v, x);
    AdjFacts(g, col, v, y);
    AdjFacts(g, col, v, z);
    AdjFacts(g, col, x, y);
    AdjFacts(g, col, x, z);
    AdjFacts(g, col, y, z);
  }

  lemma OneFive(g: Graph, col: seq<nat>, u: nat, v: nat, x: nat, y: nat, w: nat) returns (p: seq<nat>)
    requires Even(g, col) && Apart([u, v, x, y, w], |g|) && Covers(col, [u, v, x, y, w])
    requires u < |g| && v < |g| && x < |g| && y < |g| && w < |g| && col[u] == col[v] == col[x] == col[y]
    requires Fits5(g, u, v, x, y, w)
    ensures |p| == |g| && CellAutomorphism(g, col, p) && p[u] == v
  {
    var n, c := |g|, [u, v, x, y, w];
    assert c[0] != c[1] && c[0] != c[2] && c[0] != c[3] && c[0] != c[4] && c[1] != c[2] && c[1] != c[3] && c[1] != c[4];
    assert c[2] != c[3] && c[2] != c[4] && c[3] != c[4];
    p := Exchange2(n, u, v, x, y);
    Exchanged2(n, u, v, x, y);
    hide Exchange2, Permutation;
    forall a: nat, b: nat | a < n && b < n && Shares(col, a) && Shares(col, b)
      ensures Adj(g, a, b) == Adj(g, p[a], p[b]) {
      assert a in c && b in c;
      AdjFacts(g, col, a, b);
      AdjFacts(g, col, p[a], p[b]);
      AdjFacts(g, col, u, x);
      AdjFacts(g, col, u, y);
      AdjFacts(g, col, v, x);
      AdjFacts(g, col, v, y);
      AdjFacts(g, col, u, w);
      AdjFacts(g, col, v, w);
      AdjFacts(g, col, x, w);
      AdjFacts(g, col, y, w);
    }
    SharedIsEnough(g, col, p);
  }

  lemma CoversSame(col: seq<nat>, list: seq<nat>, again: seq<nat>)
    requires Covers(col, list) && forall x :: x in list ==> x in again
    ensures Covers(col, again)
  {
  }

  lemma ApartSame(n: nat, a: nat, b: nat, x: nat, y: nat, z: nat)
    requires Apart([a, b, x, y, z], n)
    ensures Apart([a, b, x, z, y], n) && Apart([a, b, y, z, x], n) && Apart([a, b, y, x, z], n)
    ensures Apart([a, b, z, x, y], n) && Apart([a, b, z, y, x], n)
    ensures a < n && b < n && x < n && y < n && z < n
  {
    var c := [a, b, x, y, z];
    assert c[0] != c[1] && c[0] != c[2] && c[0] != c[3] && c[0] != c[4] && c[1] != c[2] && c[1] != c[3] && c[1] != c[4];
    assert c[2] != c[3] && c[2] != c[4] && c[3] != c[4];
    assert c[0] < n && c[1] < n && c[2] < n && c[3] < n && c[4] < n;
  }

  lemma Five(g: Graph, col: seq<nat>, u: nat, v: nat, x: nat, y: nat, z: nat) returns (p: seq<nat>)
    requires Even(g, col) && ListsCell(col, [u, v, x, y, z]) && Covers(col, [u, v, x, y, z])
    ensures |p| == |g| && CellAutomorphism(g, col, p) && u < |g| && p[u] == v
  {
    FiveDegrees(g, col, u, v, x, y, z);
    ApartSame(|g|, u, v, x, y, z);
    hide *;
    var list := [u, v, x, y, z];
    if Fits5(g, u, v, x, y, z) {
      p := OneFive(g, col, u, v, x, y, z);
    } else if Fits5(g, u, v, x, z, y) {
      CoversSame(col, list, [u, v, x, z, y]);
      p := OneFive(g, col, u, v, x, z, y);
    } else if Fits5(g, u, v, y, z, x) {
      CoversSame(col, list, [u, v, y, z, x]);
      p := OneFive(g, col, u, v, y, z, x);
    } else if Fits5(g, u, v, y, x, z) {
      CoversSame(col, list, [u, v, y, x, z]);
      p := OneFive(g, col, u, v, y, x, z);
    } else if Fits5(g, u, v, z, x, y) {
      CoversSame(col, list, [u, v, z, x, y]);
      p := OneFive(g, col, u, v, z, x, y);
    } else {
      CoversSame(col, list, [u, v, z, y, x]);
      p := OneFive(g, col, u, v, z, y, x);
    }
  }

  // ----- four vertices and two -----

  lemma FourTwoDegrees(g: Graph, col: seq<nat>, u: nat, v: nat, x: nat, y: nat, e: nat, f: nat)
    requires Even(g, col) && ListsCell(col, [u, v, x, y]) && ListsCell(col, [e, f])
    requires u < |g| && e < |g| && col[u] != col[e]
    ensures u < |g| && v < |g| && x < |g| && y < |g| && e < |g| && f < |g| && e != f && col[e] == col[f]
    ensures Adj(g, u, e) + Adj(g, u, f) == Adj(g, v, e) + Adj(g, v, f) == Adj(g, x, e) + Adj(g, x, f) == Adj(g, y,
        e) + Adj(g, y, f)
    ensures Adj(g, u, e) + Adj(g, v, e) + Adj(g, x, e) + Adj(g, y, e) == Adj(g, u, f) + Adj(g, v, f) + Adj(g, x,
        f) + Adj(g, y, f)
  {
    var c, d := [u, v, x, y], [e, f];
    FourDegrees(g, col, u, v, x, y);
    assert d[0] == e && d[1] == f && d[0] in d && d[1] in d;
    EvenDegrees(g, col, d, u, v);
    EvenDegrees(g, col, d, u, x);
    EvenDegrees(g, col, d, u, y);
    EvenDegrees(g, col, c, e, f);
    Deg2(g, u, e, f);
    Deg2(g, v, e, f);
    Deg2(g, x, e, f);
    Deg2(g, y, e, f);
    Deg4(g, e, u, v, x, y);
    Deg4(g, f, u, v, x, y);
    AdjFacts(g, col, u, e);
    AdjFacts(g, col, v, e);
    AdjFacts(g, col, x, e);
    AdjFacts(g, col, y, e);
    AdjFacts(g, col, u, f);
    AdjFacts(g, col, v, f);
    AdjFacts(g, col, x, f);
    AdjFacts(g, col, y, f);
  }

  // The exchange of u with v and x with y agrees with the second cell as it stands, or with e
  // and f exchanged.
  lemma FourTwo(g: Graph, col: seq<nat>, u: nat, v: nat, x: nat, y: nat, e: nat, f: nat,
                turn: bool) returns (p: seq<nat>)
    requires Even(g, col) && ListsCell(col, [u, v, x, y]) && ListsCell(col, [e, f]) && Covers(col, [u, v, x, y, e, f])
    requires u < |g| && v < |g| && x < |g| && y < |g| && e < |g| && f < |g| && col[u] != col[e]
    requires Adj(g, u, e) == Adj(g, v, if turn then f else e) && Adj(g, u, f) == Adj(g, v, if turn then e else f)
    requires Adj(g, x, e) == Adj(g, y, if turn then f else e) && Adj(g, x, f) == Adj(g, y, if turn then e else f)
    requires turn ==> Adj(g, v, e) == Adj(g, u, f) && Adj(g, y, e) == Adj(g, x, f)
    ensures |p| == |g| && CellAutomorphism(g, col, p) && p[u] == v && (turn ==> p[e] == f)
  {
    var n := |g|;
    FourDegrees(g, col, u, v, x, y);
    FourTwoDegrees(g, col, u, v, x, y, e, f);
    p := FourTwoPerm(col, u, v, x, y, e, f, turn);
    hide ListsCell, Permutation;
    forall a: nat, b: nat | a < n && b < n && Shares(col, a) && Shares(col, b)
      ensures Adj(g, a, b) == Adj(g, p[a], p[b]) {
      assert a in [u, v, x, y, e, f] && b in [u, v, x, y, e, f];
      hide *;
      FourTwoPair(g, col, u, v, x, y, e, f, p, a, b);
    }
    SharedIsEnough(g, col, p);
  }

  lemma FourTwoPerm(col: seq<nat>, u: nat, v: nat, x: nat, y: nat, e: nat, f: nat, turn: bool) returns (p: seq<nat>)
    requires u < |col| && v < |col| && x < |col| && y < |col| && e < |col| && f < |col|
    requires u != v && u != x && u != y && v != x && v != y && x != y && e != f
    requires col[u] == col[v] == col[x] == col[y] != col[e] == col[f]
    ensures |p| == |col| && Permutation(|col|, p) && p[u] == v && p[v] == u && p[x] == y && p[y] == x
    ensures if turn then p[e] == f && p[f] == e else p[e] == e && p[f] == f
    ensures forall z :: 0 <= z < |col| ==> p[z] < |col| && col[p[z]] == col[z]
  {
    if turn {
      p := Exchange3(|col|, u, v, x, y, e, f);
      Exchanged3(|col|, u, v, x, y, e, f);
    } else {
      p := Exchange2(|col|, u, v, x, y);
      Exchanged2(|col|, u, v, x, y);
    }
  }

  lemma FourTwoPair(g: Graph, col: seq<nat>, u: nat, v: nat, x: nat, y: nat, e: nat, f: nat, p: seq<nat>, a: nat,
                    b: nat)
    requires Even(g, col) && |p| == |g| && u < |g| && v < |g| && x < |g| && y < |g| && e < |g| && f < |g|
    requires p[u] == v && p[v] == u && p[x] == y && p[y] == x && ((p[e] == f && p[f] == e) || (p[e] == e && p[f] == f))
    requires Adj(g, u, x) == Adj(g, v, y) && Adj(g, u, y) == Adj(g, v, x)
    requires Adj(g, u, e) == Adj(g, v, p[e]) && Adj(g, u, f) == Adj(g, v, p[f])
    requires Adj(g, v, e) == Adj(g, u, p[e]) && Adj(g, v, f) == Adj(g, u, p[f])
    requires Adj(g, x, e) == Adj(g, y, p[e]) && Adj(g, x, f) == Adj(g, y, p[f])
    requires Adj(g, y, e) == Adj(g, x, p[e]) && Adj(g, y, f) == Adj(g, x, p[f])
    requires (a == u || a == v || a == x || a == y || a == e || a == f)
    requires (b == u || b == v || b == x || b == y || b == e || b == f)
    ensures p[a] < |g| && p[b] < |g| && Adj(g, a, b) == Adj(g, p[a], p[b])
  {
    AdjFacts(g, col, a, b);
    AdjFacts(g, col, p[a], p[b]);
    AdjFacts(g, col, b, a);
  }

  lemma FourMoves(g: Graph, col: seq<nat>, u: nat, v: nat, x: nat, y: nat, e: nat, f: nat) returns (p: seq<nat>)
    requires Even(g, col) && ListsCell(col, [u, v, x, y]) && ListsCell(col, [e, f]) && Covers(col, [u, v, x, y, e, f])
    requires u < |g| && e < |g| && col[u] != col[e]
    ensures |p| == |g| && CellAutomorphism(g, col, p) && p[u] == v
  {
    FourTwoDegrees(g, col, u, v, x, y, e, f);
    hide Even, ListsCell, Covers;
    p := FourTwo(g, col, u, v, x, y, e, f, Adj(g, u, e) != Adj(g, v, e));
  }

  // Exchange e and f, with whatever that needs among the four.
  lemma TwoMoves(g: Graph, col: seq<nat>, a: nat, b: nat, c: nat, d: nat, e: nat, f: nat) returns (p: seq<nat>)
    requires Even(g, col) && ListsCell(col, [a, b, c, d]) && ListsCell(col, [e, f]) && Covers(col, [a, b, c, d, e, f])
    requires a < |g| && e < |g| && col[a] != col[e]
    ensures |p| == |g| && CellAutomorphism(g, col, p) && p[e] == f
  {
    FourTwoDegrees(g, col, a, b, c, d, e, f);
    ThreeOrders(col, a, b, c, d);
    var list := [a, b, c, d, e, f];
    CoversSame(col, list, [a, c, b, d, e, f]);
    CoversSame(col, list, [a, d, b, c, e, f]);
    hide Even, ListsCell, Covers;
    if Adj(g, a, e) == Adj(g, b, f) && Adj(g, a, f) == Adj(g, b, e) && Adj(g, c, e) == Adj(g, d, f)
      && Adj(g, c, f) == Adj(g, d, e) {
      p := FourTwo(g, col, a, b, c, d, e, f, true);
    } else if Adj(g, a, e) == Adj(g, c, f) && Adj(g, a, f) == Adj(g, c, e) && Adj(g, b, e) == Adj(g, d, f)
      && Adj(g, b, f) == Adj(g, d, e) {
      p := FourTwo(g, col, a, c, b, d, e, f, true);
    } else {
      p := FourTwo(g, col, a, d, b, c, e, f, true);
    }
  }

  lemma ThreeOrders(col: seq<nat>, a: nat, b: nat, c: nat, d: nat)
    requires ListsCell(col, [a, b, c, d])
    ensures ListsCell(col, [a, c, b, d]) && ListsCell(col, [a, d, b, c])
  {
    var l := [a, b, c, d];
    assert l[0] != l[1] && l[0] != l[2] && l[0] != l[3] && l[1] != l[2] && l[1] != l[3] && l[2] != l[3];
    assert Elems([a, c, b, d]) == Elems(l) && Elems([a, d, b, c]) == Elems(l);
    Relist(col, l, [a, c, b, d]);
    Relist(col, l, [a, d, b, c]);
  }

  // ----- two cells with three vertices each -----

  lemma ThreeInside(g: Graph, col: seq<nat>, u: nat, v: nat, w: nat)
    requires Even(g, col) && ListsCell(col, [u, v, w])
    ensures u < |g| && v < |g| && w < |g| && u != v && u != w && v != w && col[u] == col[v] == col[w]
    ensures Adj(g, u, v) == Adj(g, u, w) == Adj(g, v, w)
  {
    var c := [u, v, w];
    assert c[0] == u && c[1] == v && c[2] == w;
    assert c[0] in c && c[1] in c && c[2] in c;
    EvenDegrees(g, col, c, u, v);
    EvenDegrees(g, col, c, u, w);
    Deg3(g, u, u, v, w);
    Deg3(g, v, u, v, w);
    Deg3(g, w, u, v, w);
    AdjFacts(g, col, u, v);
    AdjFacts(g, col, u, w);
    AdjFacts(g, col, v, w);
  }

  // Exchanging u with v and s with t keeps the adjacency between the two cells.
  ghost predicate Fits33(g: Graph, u: nat, v: nat, w: nat, s: nat, t: nat, r: nat) {
    && u < |g| && v < |g| && w < |g|
    && Adj(g, u, s) == Adj(g, v, t) && Adj(g, u, t) == Adj(g, v, s) && Adj(g, u, r) == Adj(g, v, r)
    && Adj(g, w, s) == Adj(g, w, t)
  }

  lemma ThreeThreeDegrees(g: Graph, col: seq<nat>, u: nat, v: nat, w: nat, a: nat, b: nat, c: nat)
    requires Even(g, col) && ListsCell(col, [u, v, w]) && ListsCell(col, [a, b, c])
    ensures Fits33(g, u, v, w, a, b, c) || Fits33(g, u, v, w, a, c, b) || Fits33(g, u, v, w, b, c, a)
         || (u < |g| && v < |g| && Adj(g, u, a) == Adj(g, v, a) && Adj(g, u, b) == Adj(g, v, b)
             && Adj(g, u, c) == Adj(g, v, c))
  {
    ThreeInside(g, col, u, v, w);
    ThreeInside(g, col, a, b, c);
    var x, y := [u, v, w], [a, b, c];
    EvenDegrees(g, col, y, u, v);
    EvenDegrees(g, col, y, u, w);
    EvenDegrees(g, col, x, a, b);
    EvenDegrees(g, col, x, a, c);
    Deg3(g, u, a, b, c);
    Deg3(g, v, a, b, c);
    Deg3(g, w, a, b, c);
    Deg3(g, a, u, v, w);
    Deg3(g, b, u, v, w);
    Deg3(g, c, u, v, w);
    AdjFacts(g, col, u, a);
    AdjFacts(g, col, u, b);
    AdjFacts(g, col, u, c);
    AdjFacts(g, col, v, a);
    AdjFacts(g, col, v, b);
    AdjFacts(g, col, v, c);
    AdjFacts(g, col, w, a);
    AdjFacts(g, col, w, b);
    AdjFacts(g, col, w, c);
  }

  lemma ThreePerm(col: seq<nat>, u: nat, v: nat, w: nat, s: nat, t: nat, r: nat, turn: bool) returns (p: seq<nat>)
    requires u < |col| && v < |col| && w < |col| && s < |col| && t < |col| && r < |col|
    requires u != v && u != w && v != w && s != t && s != r && t != r
    requires col[u] == col[v] == col[w] != col[s] == col[t] == col[r]
    ensures |p| == |col| && Permutation(|col|, p) && p[u] == v && p[v] == u && p[w] == w && p[r] == r
    ensures if turn then p[s] == t && p[t] == s else p[s] == s && p[t] == t
    ensures forall z :: 0 <= z < |col| ==> p[z] < |col| && col[p[z]] == col[z]
  {
    if turn {
      p := Exchange2(|col|, u, v, s, t);
      Exchanged2(|col|, u, v, s, t);
    } else {
      p := Exchange2(|col|, u, v, w, w);
      Exchanged2(|col|, u, v, w, w);
    }
  }

  lemma ThreePair(g: Graph, col: seq<nat>, u: nat, v: nat, w: nat, s: nat, t: nat, r: nat, p: seq<nat>, a: nat, b: nat)
    requires Even(g, col) && |p| == |g| && u < |g| && v < |g| && w < |g| && s < |g| && t < |g| && r < |g|
    requires p[u] == v && p[v] == u && p[w] == w && p[r] == r && ((p[s] == t && p[t] == s) || (p[s] == s && p[t] == t))
    requires Adj(g, u, v) == Adj(g, u, w) == Adj(g, v, w) && Adj(g, s, t) == Adj(g, s, r) == Adj(g, t, r)
    requires Adj(g, u, s) == Adj(g, v, p[s]) && Adj(g, u, t) == Adj(g, v, p[t]) && Adj(g, u, r) == Adj(g, v, r)
    requires Adj(g, v, s) == Adj(g, u, p[s]) && Adj(g, v, t) == Adj(g, u, p[t])
    requires Adj(g, w, s) == Adj(g, w, p[s]) && Adj(g, w, t) == Adj(g, w, p[t])
    requires (a == u || a == v || a == w || a == s || a == t || a == r)
    requires (b == u || b == v || b == w || b == s || b == t || b == r)
    ensures p[a] < |g| && p[b] < |g| && Adj(g, a, b) == Adj(g, p[a], p[b])
  {
    AdjFacts(g, col, a, b);
    AdjFacts(g, col, p[a], p[b]);
  }

  lemma ThreeThree(g: Graph, col: seq<nat>, u: nat, v: nat, w: nat, s: nat, t: nat, r: nat,
                   turn: bool) returns (p: seq<nat>)
    requires Even(g, col) && ListsCell(col, [u, v, w]) && ListsCell(col, [s, t, r]) && Covers(col, [u, v, w, s, t, r])
    requires u < |g| && v < |g| && s < |g| && col[u] != col[s]
    requires if turn then Fits33(g, u, v, w, s, t, r)
             else Adj(g, u, s) == Adj(g, v, s) && Adj(g, u, t) == Adj(g, v, t) && Adj(g, u, r) == Adj(g, v, r)
    ensures |p| == |g| && CellAutomorphism(g, col, p) && p[u] == v
  {
    var n := |g|;
    ThreeInside(g, col, u, v, w);
    ThreeInside(g, col, s, t, r);
    p := ThreePerm(col, u, v, w, s, t, r, turn);
    hide ListsCell, Permutation;
    forall a: nat, b: nat | a < n && b < n && Shares(col, a) && Shares(col, b)
      ensures Adj(g, a, b) == Adj(g, p[a], p[b]) {
      assert a in [u, v, w, s, t, r] && b in [u, v, w, s, t, r];
      ThreePair(g, col, u, v, w, s, t, r, p, a, b);
    }
    SharedIsEnough(g, col, p);
  }

  lemma OrdersOfThree(col: seq<nat>, a: nat, b: nat, c: nat)
    requires ListsCell(col, [a, b, c])
    ensures ListsCell(col, [a, c, b]) && ListsCell(col, [b, c, a])
  {
    var l := [a, b, c];
    assert l[0] != l[1] && l[0] != l[2] && l[1] != l[2];
    assert Elems([a, c, b]) == Elems(l) && Elems([b, c, a]) == Elems(l);
    Relist(col, l, [a, c, b]);
    Relist(col, l, [b, c, a]);
  }

  lemma ThreeMoves(g: Graph, col: seq<nat>, u: nat, v: nat, w: nat, a: nat, b: nat, c: nat) returns (p: seq<nat>)
    requires Even(g, col) && ListsCell(col, [u, v, w]) && ListsCell(col, [a, b, c]) && Covers(col, [u, v, w, a, b, c])
    requires u < |g| && a < |g| && col[u] != col[a]
    ensures |p| == |g| && CellAutomorphism(g, col, p) && p[u] == v
  {
    ThreeInside(g, col, u, v, w);
    ThreeInside(g, col, a, b, c);
    ThreeThreeDegrees(g, col, u, v, w, a, b, c);
    OrdersOfThree(col, a, b, c);
    CoversSame(col, [u, v, w, a, b, c], [u, v, w, a, c, b]);
    CoversSame(col, [u, v, w, a, b, c], [u, v, w, b, c, a]);
    hide *;
    if Fits33(g, u, v, w, a, b, c) {
      p := ThreeThree(g, col, u, v, w, a, b, c, true);
    } else if Fits33(g, u, v, w, a, c, b) {
      p := ThreeThree(g, col, u, v, w, a, c, b, true);
    } else if Fits33(g, u, v, w, b, c, a) {
      p := ThreeThree(g, col, u, v, w, b, c, a, true);
    } else {
      p := ThreeThree(g, col, u, v, w, a, b, c, false);
    }
  }

  // ----- all shapes -----

  // The cells with several vertices are one list or two, with few vertices in all.
  ghost predicate FewShared(col: seq<nat>, first: seq<nat>, second: seq<nat>) {
    && ListsCell(col, first)
    && (second == [] || (ListsCell(col, second) && col[first[0]] != col[second[0]]))
    && Covers(col, first + second)
    && ((second == [] && (|first| == 4 || |first| == 5))
        || (|first| == 3 && |second| == 3) || (|first| == 4 && |second| == 2) || (|first| == 2 && |second| == 4))
  }

  lemma MoveInFirst(g: Graph, col: seq<nat>, first: seq<nat>, second: seq<nat>, u: nat, v: nat) returns (p: seq<nat>)
    requires Even(g, col) && FewShared(col, first, second) && u in first && v in first && u != v
    ensures |p| == |g| && CellAutomorphism(g, col, p) && u < |g| && p[u] == v
  {
    assert u < |g| && v < |g| && col[u] == col[first[0]];
    if second == [] {
      if |first| == 4 {
        var x, y := Name4(col, first, u, v);
        Recover(col, first, second, [u, v, x, y], []);
        p := OneFour(g, col, u, v, x, y);
      } else {
        var x, y, z := Name5(col, first, u, v);
        Recover(col, first, second, [u, v, x, y, z], []);
        p := Five(g, col, u, v, x, y, z);
      }
    } else if |first| == 3 {
      var w := Name3(col, first, u, v);
      Recover(col, first, second, [u, v, w], second);
      assert second == [second[0], second[1], second[2]];
      assert [u, v, w] + second == [u, v, w, second[0], second[1], second[2]];
      p := ThreeMoves(g, col, u, v, w, second[0], second[1], second[2]);
    } else if |first| == 4 {
      var x, y := Name4(col, first, u, v);
      Recover(col, first, second, [u, v, x, y], second);
      assert second == [second[0], second[1]];
      assert [u, v, x, y] + second == [u, v, x, y, second[0], second[1]];
      p := FourMoves(g, col, u, v, x, y, second[0], second[1]);
    } else {
      Swap2(col, first, u, v);
      Recover(col, second, first, second, [u, v]);
      assert second == [second[0], second[1], second[2], second[3]];
      assert second + [u, v] == [second[0], second[1], second[2], second[3], u, v];
      p := TwoMoves(g, col, second[0], second[1], second[2], second[3], u, v);
    }
  }

  // Other lists of the same cells cover the same vertices.
  lemma Recover(col: seq<nat>, first: seq<nat>, second: seq<nat>, first2: seq<nat>, second2: seq<nat>)
    requires Covers(col, first + second) || Covers(col, second + first)
    requires (forall x :: x in first ==> x in first2) && (forall x :: x in second ==> x in second2)
    ensures Covers(col, first2 + second2)
    ensures second2 == [] ==> Covers(col, first2)
  {
    assert second2 == [] ==> first2 + second2 == first2;
  }

  // ----- from the counts to the shape -----

  lemma CellRange(ptn: seq<int>, level: int, s: nat, e: nat)
    requires CellAt(ptn, level, s, e)
    ensures forall x: nat :: x < |ptn| ==> (StartOf(ptn, level, x) == s <==> s <= x <= e)
  {
    forall x: nat | x < |ptn| ensures StartOf(ptn, level, x) == s <==> s <= x <= e {
      if s <= x <= e {
        InCell(ptn, level, s, e, x);
      } else if e < x {
        BeyondStart(ptn, level, e + 1, x);
      }
    }
  }

  // The cell at s as a list.
  lemma CellAsList(n: nat, lab: seq<nat>, ptn: seq<int>, level: int, s: nat, e: nat)
    requires Nest(n, lab, ptn, level) && CellAt(ptn, level, s, e)
    ensures ListsCell(Col(n, lab, ptn, level), lab[s..e + 1]) && lab[s..e + 1][0] == lab[s]
    ensures lab[s] < n && Col(n, lab, ptn, level)[lab[s]] == s
  {
    CellRange(ptn, level, s, e);
    CellList(n, lab, ptn, level, s, e);
    ColAt(n, lab, ptn, level, s);
    StartIsItself(ptn, level, s);
  }

  lemma LaterInCell(ptn: seq<int>, level: int, x: nat)
    requires x in Later(ptn, level)
    ensures StartOf(ptn, level, x) in NonTrivial(ptn, level) && StartOf(ptn, level, x) + 2 <= x
  {
    NotAlone(ptn, level, x);
  }

  lemma EndOf(ptn: seq<int>, level: int, s: nat) returns (e: nat)
    requires Ends(ptn, level) && s in NonTrivial(ptn, level)
    ensures CellAt(ptn, level, s, e) && s < e
  {
    e := s;
    while ptn[e] > level
      invariant s <= e < |ptn| && forall k :: s <= k < e ==> ptn[k] > level
      decreases |ptn| - e
    {
      e := e + 1;
    }
  }

  // The positions from the third one of a cell on.
  ghost function Thirds(s: nat, e: nat): set<nat> {
    set x: nat | x <= e && IsThird(s, x)
  }

  ghost predicate IsThird(s: nat, x: nat) {
    s + 2 <= x
  }

  lemma {:induction false} ThirdsCard(s: nat, e: nat)
    requires s < e
    ensures |Thirds(s, e)| == e - s - 1
    decreases e
  {
    if e == s + 1 {
      assert Thirds(s, e) == {};
    } else {
      ThirdsCard(s, e - 1);
      assert Thirds(s, e) == Thirds(s, e - 1) + {e};
    }
  }

  lemma ThirdsAreLater(ptn: seq<int>, level: int, s: nat, e: nat, x: nat)
    requires CellAt(ptn, level, s, e) && s < e
    ensures x in Thirds(s, e) <==> x in Later(ptn, level) && StartOf(ptn, level, x) == s
  {
    CellRange(ptn, level, s, e);
    if x in Later(ptn, level) { LaterInCell(ptn, level, x); }
  }

  lemma SharesNonTrivial(n: nat, lab: seq<nat>, ptn: seq<int>, level: int, x: nat)
    requires Nest(n, lab, ptn, level) && x < n && Shares(Col(n, lab, ptn, level), x)
    ensures Col(n, lab, ptn, level)[x] in NonTrivial(ptn, level)
  {
    var col := Col(n, lab, ptn, level);
    var y: nat :| y < n && y != x && col[y] == col[x];
    var i, j := Preimage(n, lab, x), Preimage(n, lab, y);
    var s := StartOf(ptn, level, i);
    if ptn[s] <= level {
      assert CellAt(ptn, level, s, s);
      CellRange(ptn, level, s, s);
    }
  }

  lemma CoveredBy(n: nat, lab: seq<nat>, ptn: seq<int>, level: int, s: nat, first: seq<nat>, second: seq<nat>)
    requires Nest(n, lab, ptn, level) && s in NonTrivial(ptn, level)
    requires ListsCell(Col(n, lab, ptn, level), first) && Col(n, lab, ptn, level)[first[0]] == s
    requires second == [] ==> NonTrivial(ptn, level) == {s}
    requires second != [] ==> ListsCell(Col(n, lab, ptn, level), second)
    requires second != [] ==> NonTrivial(ptn, level) == {s, Col(n, lab, ptn, level)[second[0]]}
    ensures Covers(Col(n, lab, ptn, level), first + second)
  {
    var col := Col(n, lab, ptn, level);
    forall x: nat | x < n && Shares(col, x) ensures x in first + second {
      SharesNonTrivial(n, lab, ptn, level, x);
    }
  }

  lemma OnlyOne(s: set<nat>, a: nat)
    requires |s| == 1 && a in s
    ensures s == {a}
  {
    SubsetCard({a}, s);
  }

  lemma TwoMembers(s: set<nat>, a: nat) returns (b: nat)
    requires |s| == 2 && a in s
    ensures s == {a, b} && a != b
  {
    b := OtherThan(s, {a});
    SubsetCard({a, b}, s);
  }

  // At most four more vertices than cells, and not nearly pairs: few vertices in one cell or two.
  lemma FewShape(n: nat, lab: seq<nat>, ptn: seq<int>, level: int) returns (first: seq<nat>, second: seq<nat>)
    requires Nest(n, lab, ptn, level) && n - |Starts(ptn, level)| <= 4 && !NearlyPairs(ptn, level)
    ensures FewShared(Col(n, lab, ptn, level), first, second)
  {
    var later, nt := Later(ptn, level), NonTrivial(ptn, level);
    Excess(ptn, level);
    var i, j :| i in later && j in later && i != j;
    SubsetCard({i, j}, later);
    LaterInCell(ptn, level, i);
    var s := StartOf(ptn, level, i);
    assert s in nt && |nt| + |later| <= 4 && |later| >= 2;
    SubsetCard({s}, nt);
    if |nt| == 1 {
      OnlyOne(nt, s);
      first := OneShape(n, lab, ptn, level, s);
      second := [];
    } else {
      var t := TwoMembers(nt, s);
      first, second := TwoShape(n, lab, ptn, level, s, t);
    }
  }

  lemma OneShape(n: nat, lab: seq<nat>, ptn: seq<int>, level: int, s: nat) returns (first: seq<nat>)
    requires Nest(n, lab, ptn, level) && NonTrivial(ptn, level) == {s} && 2 <= |Later(ptn, level)| <= 3
    ensures FewShared(Col(n, lab, ptn, level), first, [])
  {
    var e := EndOf(ptn, level, s);
    ThirdsCard(s, e);
    forall x: nat ensures x in Thirds(s, e) <==> x in Later(ptn, level) {
      ThirdsAreLater(ptn, level, s, e, x);
      if x in Later(ptn, level) { LaterInCell(ptn, level, x); }
    }
    assert Thirds(s, e) == Later(ptn, level);
    CellAsList(n, lab, ptn, level, s, e);
    first := lab[s..e + 1];
    CoveredBy(n, lab, ptn, level, s, first, []);
  }

  lemma TwoShape(n: nat, lab: seq<nat>, ptn: seq<int>, level: int, s: nat, t: nat) returns (first: seq<nat>,
                 second: seq<nat>)
    requires Nest(n, lab, ptn, level) && s != t && NonTrivial(ptn, level) == {s, t} && |Later(ptn, level)| == 2
    ensures FewShared(Col(n, lab, ptn, level), first, second)
  {
    var e := EndOf(ptn, level, s);
    var f := EndOf(ptn, level, t);
    TwoThirds(ptn, level, s, t, e, f);
    CellAsList(n, lab, ptn, level, s, e);
    CellAsList(n, lab, ptn, level, t, f);
    first, second := lab[s..e + 1], lab[t..f + 1];
    CoveredBy(n, lab, ptn, level, s, first, second);
  }

  lemma TwoThirds(ptn: seq<int>, level: int, s: nat, t: nat, e: nat, f: nat)
    requires s != t && NonTrivial(ptn, level) == {s, t} && s < e && t < f
    requires CellAt(ptn, level, s, e) && CellAt(ptn, level, t, f)
    ensures (e - s - 1) + (f - t - 1) == |Later(ptn, level)|
  {
    ThirdsCard(s, e);
    ThirdsCard(t, f);
    var a, b, later := Thirds(s, e), Thirds(t, f), Later(ptn, level);
    hide Thirds, Later;
    forall x: nat
      ensures x in a || x in b <==> x in later
      ensures !(x in a && x in b)
    {
      InThirds(ptn, level, s, t, e, f, x);
    }
    assert a + b == later && a !! b;
  }

  lemma InThirds(ptn: seq<int>, level: int, s: nat, t: nat, e: nat, f: nat, x: nat)
    requires s != t && NonTrivial(ptn, level) == {s, t} && s < e && t < f
    requires CellAt(ptn, level, s, e) && CellAt(ptn, level, t, f)
    ensures x in Thirds(s, e) || x in Thirds(t, f) <==> x in Later(ptn, level)
    ensures !(x in Thirds(s, e) && x in Thirds(t, f))
  {
    ThirdsAreLater(ptn, level, s, e, x);
    ThirdsAreLater(ptn, level, t, f, x);
    if x in Later(ptn, level) { LaterInCell(ptn, level, x); }
  }

  // ----- the theorem -----

  lemma ComposeAutomorphisms(g: Graph, col: seq<nat>, p: seq<nat>, q: seq<nat>) returns (r: seq<nat>)
    requires CellAutomorphism(g, col, p) && CellAutomorphism(g, col, q)
    ensures |r| == |g| && CellAutomorphism(g, col, r) && forall x :: 0 <= x < |g| ==> r[x] == q[p[x]]
  {
    var n := |g|;
    r := seq(n, x requires 0 <= x < n => q[p[x]]);
    forall x, y | 0 <= x < y < n ensures r[x] != r[y] {
      assert p[x] != p[y];
    }
    forall u: nat, v: nat | u < n && v < n ensures v in g[u] <==> r[v] in g[r[u]] {
      assert v in g[u] <==> p[v] in g[p[u]];
      assert p[v] in g[p[u]] <==> q[p[v]] in g[q[p[u]]];
    }
  }

  lemma CellParts(g: Graph, col: seq<nat>, p: seq<nat>)
    requires CellAutomorphism(g, col, p)
    ensures |p| == |g|
  {
  }

  lemma NothingMoves(g: Graph, col: seq<nat>) returns (p: seq<nat>)
    requires |col| == |g|
    ensures |p| == |g| && CellAutomorphism(g, col, p) && forall x :: 0 <= x < |g| ==> p[x] == x
  {
    p := Same(|g|);
  }

  lemma RotationMoves(g: Graph, lab: seq<nat>, ptn: seq<int>, level: int, u: nat, v: nat) returns (p: seq<nat>)
    requires Tested(g, lab, ptn, level) && Nest(|g|, lab, ptn, level) && NearlyPairs(ptn, level) && u < |g| && v < |g|
    requires Col(|g|, lab, ptn, level)[u] == Col(|g|, lab, ptn, level)[v]
    ensures |p| == |g| && CellAutomorphism(g, Col(|g|, lab, ptn, level), p) && p[u] == v
  {
    var n, col, q := |g|, Col(|g|, lab, ptn, level), Rotation(|g|, lab, ptn, level);
    RotationIsCellAutomorphism(g, lab, ptn, level);
    TurnedTo(g, lab, ptn, level, u, v);
    CellParts(g, col, q);
    hide *;
    if v == u {
      p := NothingMoves(g, col);
    } else if v == q[u] {
      p := q;
    } else {
      p := ComposeAutomorphisms(g, col, q, q);
    }
  }

  lemma RotationIsCellAutomorphism(g: Graph, lab: seq<nat>, ptn: seq<int>, level: int)
    requires Tested(g, lab, ptn, level) && NearlyPairs(ptn, level)
    ensures CellAutomorphism(g, Col(|g|, lab, ptn, level), Rotation(|g|, lab, ptn, level))
    ensures forall x :: 0 <= x < |g| ==> Rotation(|g|, lab, ptn, level)[x] < |g|
  {
    var n, col, q := |g|, Col(|g|, lab, ptn, level), Rotation(|g|, lab, ptn, level);
    RotationPermutes(n, lab, ptn, level);
    RotationTurned(g, lab, ptn, level);
    hide Tested, Turned, Col, Rotation, Equitable, NearlyPairs;
    forall a: nat, b: nat | a < n && b < n ensures b in g[a] <==> q[b] in g[q[a]] {
      EdgeTurns(g, col, q, a, b);
    }
    forall x: nat | x < n ensures q[x] < n && col[q[x]] == col[x] {
      RotationKeepsCells(n, lab, ptn, level, x);
    }
  }

  lemma TurnedTo(g: Graph, lab: seq<nat>, ptn: seq<int>, level: int, u: nat, v: nat)
    requires Tested(g, lab, ptn, level) && NearlyPairs(ptn, level) && u < |g| && v < |g|
    requires Col(|g|, lab, ptn, level)[u] == Col(|g|, lab, ptn, level)[v]
    ensures var q := Rotation(|g|, lab, ptn, level); q[u] < |g| && (v == u || v == q[u] || v == q[q[u]])
  {
    VertexTurned(|g|, lab, ptn, level, u);
    assert v in Class(Col(|g|, lab, ptn, level), Col(|g|, lab, ptn, level)[u]);
  }

  lemma Moves(g: Graph, lab: seq<nat>, ptn: seq<int>, level: int, u: nat, v: nat) returns (p: seq<nat>)
    requires Tested(g, lab, ptn, level) && u < |g| && v < |g|
    requires NearlyPairs(ptn, level) || |ptn| - |Starts(ptn, level)| <= 4
    requires Col(|g|, lab, ptn, level)[u] == Col(|g|, lab, ptn, level)[v]
    ensures |p| == |g| && CellAutomorphism(g, Col(|g|, lab, ptn, level), p) && p[u] == v
  {
    var col := Col(|g|, lab, ptn, level);
    if NearlyPairs(ptn, level) {
      p := RotationMoves(g, lab, ptn, level, u, v);
    } else if u == v {
      p := NothingMoves(g, col);
    } else {
      var first, second := FewShape(|g|, lab, ptn, level);
      assert Even(g, col);
      assert Shares(col, u) && u in first + second;
      if u in first {
        p := MoveInFirst(g, col, first, second, u, v);
      } else {
        Recover(col, second, first, second, first);
        p := MoveInFirst(g, col, second, first, u, v);
      }
    }
  }

  // Main theorem: when the test answers TRUE for an equitable partition of an undirected graph
  // without loops, the cells are exactly the orbits of the group of automorphisms that keep
  // every vertex in its cell.
  lemma CheapAutomSound(g: Graph, lab: seq<nat>, ptn: seq<int>, level: int, u: nat, v: nat)
    requires Tested(g, lab, ptn, level) && u < |g| && v < |g|
    requires FewVertices(ptn, level)
    ensures Col(|g|, lab, ptn, level)[u] == Col(|g|, lab, ptn, level)[v]
       <==> exists p: seq<nat> :: |p| == |g| && CellAutomorphism(g, Col(|g|, lab, ptn, level), p) && p[u] == v
  {
    ExcessIsShape(ptn, level);
    if Col(|g|, lab, ptn, level)[u] == Col(|g|, lab, ptn, level)[v] {
      var p := Moves(g, lab, ptn, level, u, v);
    }
  }

  // ----- one vertex more is too many -----

  // Vertices 4 to 7 stand for the pairs of one of 0 and 1 with one of 2 and 3; 0 is adjacent to 2, and 1 to 3.
  function Pairs8(): Graph {
    [{2, 4, 5}, {3, 6, 7}, {0, 4, 6}, {1, 5, 7}, {0, 2}, {0, 3}, {1, 2}, {1, 3}]
  }

  function Pairs8Cells(): seq<nat> {
    [0, 0, 2, 2, 4, 4, 4, 4]
  }

  lemma Pairs8Graph()
    ensures var g := Pairs8();
      |g| == 8 && ValidGraph(g) && Symmetric(g) && forall u: nat :: u < |g| ==> u !in g[u]
  {
  }

  lemma Pairs8First(u: nat)
    requires u < 8
    ensures |{0, 1} * Pairs8()[u]| == if u < 2 then 0 else 1
  {
    var row := Pairs8()[u];
    assert {0, 1} * row == if u < 2 then {} else if u == 3 || u > 5 then {1} else {0};
  }

  lemma Pairs8Second(u: nat)
    requires u < 8
    ensures |{2, 3} * Pairs8()[u]| == if 2 <= u < 4 then 0 else 1
  {
    var row := Pairs8()[u];
    assert {2, 3} * row == if 2 <= u < 4 then {} else if u == 1 || u == 5 || u == 7 then {3} else {2};
  }

  lemma Pairs8Third(u: nat)
    requires u < 8
    ensures |{4, 5, 6, 7} * Pairs8()[u]| == if u < 4 then 2 else 0
  {
    var row := Pairs8()[u];
    assert {4, 5, 6, 7} * row ==
      if u == 0 then {4, 5} else if u == 1 then {6, 7} else if u == 2 then {4, 6} else if u == 3 then {5, 7} else {};
  }

  lemma Pairs8Counts(u: nat)
    requires u < 8
    ensures var g := Pairs8();
      && Count(RowWeights(g), {0, 1}, u) == (if u < 2 then 0 else 1)
      && Count(RowWeights(g), {2, 3}, u) == (if 2 <= u < 4 then 0 else 1)
      && Count(RowWeights(g), {4, 5, 6, 7}, u) == (if u < 4 then 2 else 0)
  {
    var g := Pairs8();
    Pairs8First(u);
    Pairs8Second(u);
    Pairs8Third(u);
    Pairs8Graph();
    hide *;
    CountIsOverlap(g, {0, 1}, u);
    CountIsOverlap(g, {2, 3}, u);
    CountIsOverlap(g, {4, 5, 6, 7}, u);
  }

  lemma Pairs8Equitable()
    ensures Equitable(RowWeights(Pairs8()), Pairs8Cells())
  {
    var g, col := Pairs8(), Pairs8Cells();
    assert Class(col, 0) == {0, 1} && Class(col, 2) == {2, 3} && Class(col, 4) == {4, 5, 6, 7};
    forall u: nat, v: nat, d: nat | u < 8 && v < 8 && col[u] == col[v]
      ensures Agree(RowWeights(g), Class(col, d), u, v)
    {
      Pairs8Counts(u);
      Pairs8Counts(v);
      if d != 0 && d != 2 && d != 4 {
        assert Class(col, d) == {};
        CountIsOverlap(g, {}, u);
        CountIsOverlap(g, {}, v);
      }
    }
  }

  lemma Pairs8Shape(ptn: seq<int>)
    requires ptn == [1, 0, 1, 0, 1, 1, 1, 0]
    ensures |Starts(ptn, 0)| == 3 && |NonTrivial(ptn, 0)| == 3 && !FewVertices(ptn, 0)
    ensures forall v: nat :: v < 8 ==> StartOf(ptn, 0, v) == Pairs8Cells()[v]
  {
    assert Starts(ptn, 0) == {0, 2, 4};
    assert NonTrivial(ptn, 0) == {0, 2, 4};
    forall v: nat | v < 8 ensures StartOf(ptn, 0, v) == Pairs8Cells()[v] {
      StartInBlock(ptn, 0, Pairs8Cells()[v], v);
    }
  }

  // The neighbours of 4 are adjacent to each other, those of 5 are not.
  lemma Pairs8Rigid(p: seq<nat>)
    requires |p| == 8 && CellAutomorphism(Pairs8(), Pairs8Cells(), p)
    ensures p[4] != 5
  {
    var g := Pairs8();
    assert p[0] in g[p[4]] && p[2] in g[p[4]] && p[2] in g[p[0]] by { assert 0 in g[4] && 2 in g[4] && 2 in g[0]; }
    assert p[0] < 2 && 2 <= p[2] < 4;
  }

  // With five vertices more than cells, and three cells of several vertices, the cells of an equitable
  // partition need not be orbits: both bounds of the test are the largest possible.
  lemma FiveIsTooMany() returns (g: Graph, lab: seq<nat>, ptn: seq<int>)
    ensures Tested(g, lab, ptn, 0) && |ptn| - |Starts(ptn, 0)| == 5 && |NonTrivial(ptn, 0)| == 3
    ensures !FewVertices(ptn, 0) && |g| == 8
    ensures Col(8, lab, ptn, 0)[4] == Col(8, lab, ptn, 0)[5]
    ensures forall p: seq<nat> :: |p| == 8 && CellAutomorphism(g, Col(8, lab, ptn, 0), p) ==> p[4] != 5
  {
    g, lab, ptn := Pairs8(), [0, 1, 2, 3, 4, 5, 6, 7], [1, 0, 1, 0, 1, 1, 1, 0];
    Pairs8Graph();
    Pairs8Shape(ptn);
    Pairs8Equitable();
    assert Nest(8, lab, ptn, 0);
    var col := Col(8, lab, ptn, 0);
    forall v: nat | v < 8 ensures col[v] == Pairs8Cells()[v] {
      ColAt(8, lab, ptn, 0, v);
      assert lab[v] == v;
    }
    assert col == Pairs8Cells();
    hide Pairs8, CellAutomorphism;
    forall p: seq<nat> | |p| == 8 && CellAutomorphism(g, col, p) ensures p[4] != 5 {
      Pairs8Rigid(p);
    }
  }
}
