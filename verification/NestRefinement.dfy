// The state of a refinement in place, its cells as classes, and counts of arcs read off rows.
module NestRefinement {
  import opened Sums
  import opened Graphs
  import opened GroupOrbits
  import opened Refinement
  import opened Nests

  // Arcs into w from v, read off the row of w; the rows of a symmetric graph serve both ways.
  ghost function RowWeights(g: Graph): Weights {
    (v: nat, w: nat) => if w < |g| && v in g[w] then 1 else 0
  }

  lemma {:induction false} CountIsOverlap(g: Graph, s: set<nat>, x: nat)
    requires x < |g|
    ensures Count(RowWeights(g), s, x) == |s * g[x]|
    decreases |s|
  {
    var wt := RowWeights(g);
    var f := (v: nat) => wt(v, x);
    if s == {} {
      assert s * g[x] == {};
    } else {
      var y := Pick(s);
      CountIsOverlap(g, s - {y}, x);
      CountOut(wt, s, y, x);
      if y in g[x] {
        assert s * g[x] == (s - {y}) * g[x] + {y};
      } else {
        assert s * g[x] == (s - {y}) * g[x];
      }
    }
  }

  lemma CountOut(wt: Weights, s: set<nat>, y: nat, x: nat)
    requires y in s
    ensures Count(wt, s, x) == wt(y, x) + Count(wt, s - {y}, x)
  {
    CountSplit(wt, s, {y}, x);
    var f := (v: nat) => wt(v, x);
    SumRemove({y}, f, y);
    assert {y} - {y} == {};
  }

  // Arcs from v to w, read off the row of v.
  ghost function ArcWeights(g: Graph): Weights {
    (v: nat, w: nat) => if v < |g| && w in g[v] then 1 else 0
  }

  // The vertices of s with an arc to x.
  ghost function Into(g: Graph, s: set<nat>, x: nat): set<nat> {
    set y | y in s && y < |g| && x in g[y]
  }

  lemma {:induction false} CountIsInto(g: Graph, s: set<nat>, x: nat)
    ensures Count(ArcWeights(g), s, x) == |Into(g, s, x)|
    decreases |s|
  {
    if s != {} {
      var y := Pick(s);
      CountIsInto(g, s - {y}, x);
      CountOut(ArcWeights(g), s, y, x);
      if y < |g| && x in g[y] {
        assert Into(g, s, x) == Into(g, s - {y}, x) + {y};
      } else {
        assert Into(g, s, x) == Into(g, s - {y}, x);
      }
    }
  }

  lemma IntoBound(g: Graph, s: set<nat>, x: nat)
    ensures |Into(g, s, x)| <= |g|
  {
    SubsetCard(Into(g, s, x), Range(|g|));
    RangeCard(|g|);
  }

  lemma OneArc(g: Graph, y: nat, x: nat)
    requires y < |g|
    ensures Count(ArcWeights(g), {y}, x) == if x in g[y] then 1 else 0
  {
    CountIsInto(g, {y}, x);
    assert Into(g, {y}, x) == if x in g[y] then {y} else {};
  }

  // ----- the state of a refinement -----

  datatype Part = Part(lab: seq<nat>, ptn: seq<int>, active: set<nat>, numcells: int)

  ghost predicate ActiveOk(ptn: seq<int>, level: int, active: set<nat>) {
    forall d :: d in active ==> d < |ptn| && IsStart(ptn, level, d)
  }

  ghost predicate PartOk(n: nat, level: int, s: Part) {
    && Nest(n, s.lab, s.ptn, level) && ActiveOk(s.ptn, level, s.active)
    && s.numcells == |Starts(s.ptn, level)|
  }

  ghost function ColOf(n: nat, level: int, s: Part): (col: seq<nat>)
    requires PartOk(n, level, s)
    ensures |col| == n
  {
    Col(n, s.lab, s.ptn, level)
  }

  // The new active set: every piece of an active cell, otherwise every piece but one.
  ghost predicate Activated(ptn2: seq<int>, level: int, c1: nat, c2: nat, active: set<nat>, active2: set<nat>,
                            spared: nat) {
    && active <= active2 && ActiveOk(ptn2, level, active2)
    && forall d: nat :: c1 <= d <= c2 && IsStart(ptn2, level, d) ==> d in active2 || (c1 !in active && d == spared)
  }

  lemma NextStart(n: nat, level: int, s: Part, t: Part, c1: nat, c2: nat)
    requires PartOk(n, level, s) && CellAt(s.ptn, level, c1, c2) && Within(s.lab, s.ptn, t.lab, t.ptn, c1, c2)
    ensures c2 + 1 <= n && (c2 + 1 < n ==> IsStart(t.ptn, level, c2 + 1))
  {
  }

  // A position inside a cell names no class.
  lemma NoClassInside(n: nat, level: int, s: Part, c1: nat, c2: nat, d: nat)
    requires PartOk(n, level, s) && CellAt(s.ptn, level, c1, c2) && c1 < d <= c2
    ensures Class(ColOf(n, level, s), d) == {}
  {
    forall v: nat | v < n ensures ColOf(n, level, s)[v] != d {
      assert IsStart(s.ptn, level, ColOf(n, level, s)[v]);
      assert s.ptn[d - 1] > level;
    }
  }

  // ----- the vertices of a cell -----

  // The vertices at positions c1..c2.
  ghost function Members(lab: seq<nat>, c1: nat, c2: nat): set<nat>
    requires c1 <= c2 < |lab|
  {
    Elems(lab[c1..c2 + 1])
  }

  lemma MembersAreClass(n: nat, level: int, s: Part, c1: nat, c2: nat)
    requires PartOk(n, level, s) && CellAt(s.ptn, level, c1, c2)
    ensures c2 < |s.lab| && Members(s.lab, c1, c2) == Class(ColOf(n, level, s), c1)
  {
    var col, cell := ColOf(n, level, s), s.lab[c1..c2 + 1];
    assert |s.lab| == n && c2 < n;
    hide CellAt, Permutation;
    forall v: nat ensures v in cell <==> v in Class(col, c1) {
      if v in cell {
        var k :| 0 <= k < |cell| && cell[k] == v;
        InCell(s.ptn, level, c1, c2, c1 + k);
        ColAt(n, s.lab, s.ptn, level, c1 + k);
      }
      if v in Class(col, c1) {
        InItsCell(n, level, s, c1, c2, v);
      }
    }
  }

  lemma InItsCell(n: nat, level: int, s: Part, c1: nat, c2: nat, v: nat)
    requires PartOk(n, level, s) && CellAt(s.ptn, level, c1, c2) && v in Class(ColOf(n, level, s), c1)
    ensures c2 < |s.lab| && v in s.lab[c1..c2 + 1]
  {
    var i := Position(n, s.lab, s.ptn, s.lab, s.ptn, level, c1, c2, v);
    assert s.lab[c1..c2 + 1][i - c1] == v;
  }

  lemma AllSingle(n: nat, level: int, s: Part)
    requires PartOk(n, level, s) && s.numcells >= n
    ensures forall u: nat, v: nat :: u < n && v < n && ColOf(n, level, s)[u] == ColOf(n, level, s)[v] ==> u == v
  {
    var starts := Starts(s.ptn, level);
    assert starts <= Range(n);
    RangeCard(n);
    SubsetCard(starts, Range(n));
    forall i: nat | i < n ensures StartOf(s.ptn, level, i) == i {
      assert i in starts;
    }
  }

  // ----- two refinements of one partition -----

  // The coarsest equitable refinement is one partition, whichever algorithm finds it.
  lemma CoarsestUnique<T>(wt: Weights, init: seq<T>, a: seq<nat>, b: seq<nat>)
    requires CoarsestEquitable(wt, init, a) && CoarsestEquitable(wt, init, b)
    ensures Refines(a, b) && Refines(b, a)
  {
  }
}
