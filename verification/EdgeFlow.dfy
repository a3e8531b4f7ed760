// Unit-capacity flows kept as reversed arc sets: u in paths[v] means that arc u -> v carries flow.
module EdgeFlow {
  import opened Sums
  import opened Graphs

  ghost predicate Carries(paths: Graph, u: nat, v: nat) {
    v < |paths| && u in paths[v]
  }

  // Net flow on the pair (u, v), counted positive from u to v.
  ghost function D(paths: Graph, u: nat, v: nat): int {
    (if Carries(paths, u, v) then 1 else 0) - (if Carries(paths, v, u) then 1 else 0)
  }

  // Flow out of v less flow into v.
  ghost function Net(paths: Graph, v: nat): int {
    Sum(Range(|paths|), (w: nat) => D(paths, v, w))
  }

  // Flow uses arcs of g only, never both of two opposite arcs.
  ghost predicate FlowArcs(g: Graph, paths: Graph) {
    && |paths| == |g|
    && forall u: nat, v: nat :: Carries(paths, u, v) ==> u < |g| && u != v && v in g[u] && !Carries(paths, v, u)
  }

  // A flow of value k from s to t.
  ghost predicate Flow(g: Graph, paths: Graph, s: nat, t: nat, k: int) {
    && FlowArcs(g, paths)
    && s < |g| && t < |g| && s != t
    && Net(paths, s) == k
    && forall v: nat :: v < |g| && v != s && v != t ==> Net(paths, v) == 0
  }

  ghost predicate Separates(g: Graph, cut: set<nat>, s: nat, t: nat) {
    s in cut && t !in cut && forall v :: v in cut ==> v < |g|
  }

  // The number of arcs leaving the set.
  ghost function Leaving(g: Graph, cut: set<nat>): nat {
    |CutArcs(g, cut)|
  }

  ghost function CutArcs(g: Graph, cut: set<nat>): set<(nat, nat)> {
    set u, v | u in cut && u < |g| && v in g[u] && v !in cut :: (u, v)
  }

  // ----- net flow across a cut -----

  ghost function Across(paths: Graph, from: set<nat>, to: set<nat>): int {
    Sum(from, (v: nat) => Sum(to, (w: nat) => D(paths, v, w)))
  }

  lemma AcrossAdd(paths: Graph, from: set<nat>, x: nat, to: set<nat>)
    requires x !in from
    ensures Across(paths, from + {x}, to) == Across(paths, from, to) + Sum(to, (w: nat) => D(paths, x, w))
  {
    SumAdd(from, (v: nat) => Sum(to, (w: nat) => D(paths, v, w)), x);
  }

  lemma {:induction false} AcrossSplit(paths: Graph, from: set<nat>, a: set<nat>, b: set<nat>)
    requires a !! b
    ensures Across(paths, from, a + b) == Across(paths, from, a) + Across(paths, from, b)
    decreases |from|
  {
    if from != {} {
      var x := Pick(from);
      var rest := from - {x};
      assert rest + {x} == from;
      AcrossSplit(paths, rest, a, b);
      AcrossAdd(paths, rest, x, a + b);
      AcrossAdd(paths, rest, x, a);
      AcrossAdd(paths, rest, x, b);
      SumUnion(a, b, (w: nat) => D(paths, x, w));
    }
  }

  lemma {:induction false} AcrossOpposite(paths: Graph, from: set<nat>, x: nat)
    ensures Across(paths, from, {x}) == -Sum(from, (w: nat) => D(paths, x, w))
    decreases |from|
  {
    if from != {} {
      var y := Pick(from);
      var rest := from - {y};
      assert rest + {y} == from;
      AcrossOpposite(paths, rest, x);
      AcrossAdd(paths, rest, y, {x});
      SumAdd(rest, (w: nat) => D(paths, x, w), y);
      SumAdd({}, (w: nat) => D(paths, y, w), x);
      assert {} + {x} == {x};
    }
  }

  lemma {:induction false} WithinIsZero(paths: Graph, s: set<nat>)
    ensures Across(paths, s, s) == 0
    decreases |s|
  {
    if s != {} {
      var x := Pick(s);
      var rest := s - {x};
      assert rest + {x} == s;
      WithinIsZero(paths, rest);
      AcrossAdd(paths, rest, x, s);
      AcrossSplit(paths, rest, rest, {x});
      AcrossOpposite(paths, rest, x);
      SumAdd(rest, (w: nat) => D(paths, x, w), x);
    }
  }

  lemma {:induction false} NetsAreAcross(paths: Graph, s: set<nat>)
    ensures Sum(s, (v: nat) => Net(paths, v)) == Across(paths, s, Range(|paths|))
    decreases |s|
  {
    if s != {} {
      var x := Pick(s);
      var rest := s - {x};
      assert rest + {x} == s;
      NetsAreAcross(paths, rest);
      SumAdd(rest, (v: nat) => Net(paths, v), x);
      AcrossAdd(paths, rest, x, Range(|paths|));
    }
  }

  // The value of a flow is the net flow across every cut between s and t.
  lemma FlowAcrossCut(g: Graph, paths: Graph, s: nat, t: nat, k: int, cut: set<nat>)
    requires Flow(g, paths, s, t, k) && Separates(g, cut, s, t)
    ensures Across(paths, cut, Range(|g|) - cut) == k
  {
    var all := Range(|g|);
    NetsAreAcross(paths, cut);
    SumRemove(cut, (v: nat) => Net(paths, v), s);
    SumZero(cut - {s}, (v: nat) => Net(paths, v));
    AcrossSplit(paths, cut, cut, all - cut);
    assert cut + (all - cut) == all;
    WithinIsZero(paths, cut);
  }

  // ----- the number of arcs leaving, as a sum -----

  lemma {:induction false} SumIndicator(s: set<nat>, a: set<nat>)
    ensures Sum(s, (w: nat) => if w in a then 1 else 0) == |s * a|
    decreases |s|
  {
    if s != {} {
      var x := Pick(s);
      var rest := s - {x};
      assert rest + {x} == s;
      SumIndicator(rest, a);
      SumAdd(rest, (w: nat) => if w in a then 1 else 0, x);
      if x in a {
        assert s * a == rest * a + {x};
      } else {
        assert s * a == rest * a;
      }
    } else {
      assert s * a == {};
    }
  }

  ghost function LeavingFrom(g: Graph, from: set<nat>, cut: set<nat>): set<(nat, nat)> {
    set u, v | u in from && u < |g| && v in g[u] && v !in cut :: (u, v)
  }

  ghost function PairsFrom(u: nat, vs: set<nat>): set<(nat, nat)> {
    set v | v in vs :: (u, v)
  }

  lemma {:induction false} PairsCard(u: nat, vs: set<nat>)
    ensures |PairsFrom(u, vs)| == |vs|
    decreases |vs|
  {
    if vs == {} {
      assert PairsFrom(u, vs) == {};
    } else {
      var x := Pick(vs);
      PairsCard(u, vs - {x});
      assert PairsFrom(u, vs) == PairsFrom(u, vs - {x}) + {(u, x)};
      assert (u, x) !in PairsFrom(u, vs - {x});
    }
  }

  lemma LeavingAdd(g: Graph, rest: set<nat>, x: nat, cut: set<nat>)
    requires x !in rest && x < |g|
    ensures |LeavingFrom(g, rest + {x}, cut)| == |LeavingFrom(g, rest, cut)| + |g[x] - cut|
  {
    var here := PairsFrom(x, g[x] - cut);
    PairsCard(x, g[x] - cut);
    assert LeavingFrom(g, rest + {x}, cut) == LeavingFrom(g, rest, cut) + here;
    assert LeavingFrom(g, rest, cut) !! here;
  }

  lemma {:induction false} LeavingIsSum(g: Graph, from: set<nat>, cut: set<nat>)
    requires forall u :: u in from ==> u < |g|
    ensures |LeavingFrom(g, from, cut)| == Sum(from, (u: nat) => if u < |g| then |g[u] - cut| else 0)
    decreases |from|
  {
    if from == {} {
      assert LeavingFrom(g, from, cut) == {};
    } else {
      var x := Pick(from);
      var rest := from - {x};
      assert rest + {x} == from;
      LeavingIsSum(g, rest, cut);
      SumAdd(rest, (u: nat) => if u < |g| then |g[u] - cut| else 0, x);
      LeavingAdd(g, rest, x, cut);
    }
  }

  // One row of a cut: net flow to the other side is at most the number of arcs to it.
  lemma RowAcross(g: Graph, paths: Graph, cut: set<nat>, u: nat)
    requires ValidGraph(g) && FlowArcs(g, paths) && u < |g|
    ensures Sum(Range(|g|) - cut, (w: nat) => D(paths, u, w)) <= |g[u] - cut|
    ensures (forall w: nat :: w < |g| && w !in cut ==> (D(paths, u, w) == if w in g[u] then 1 else 0))
              ==> Sum(Range(|g|) - cut, (w: nat) => D(paths, u, w)) == |g[u] - cut|
  {
    var far := Range(|g|) - cut;
    var row := g[u];
    var flow, one := (w: nat) => D(paths, u, w), (w: nat) => if w in row then 1 else 0;
    SumMonotone(far, flow, one);
    SumIndicator(far, row);
    assert far * row == row - cut;
    if forall w: nat :: w < |g| && w !in cut ==> (D(paths, u, w) == if w in g[u] then 1 else 0) {
      SumCongruence(far, flow, one);
    }
  }

  // Weak duality: a flow is never larger than a cut.
  lemma FlowAtMostCut(g: Graph, paths: Graph, s: nat, t: nat, k: int, cut: set<nat>)
    requires ValidGraph(g) && Flow(g, paths, s, t, k) && Separates(g, cut, s, t)
    ensures k <= Leaving(g, cut)
  {
    FlowAcrossCut(g, paths, s, t, k, cut);
    LeavingIsSum(g, cut, cut);
    assert LeavingFrom(g, cut, cut) == CutArcs(g, cut);
    var far := Range(|g|) - cut;
    var rows, sizes := (v: nat) => Sum(far, (w: nat) => D(paths, v, w)), (u: nat) => if u < |g| then |g[u] - cut|
      else 0;
    forall u | u in cut ensures rows(u) <= sizes(u) {
      RowAcross(g, paths, cut, u);
    }
    SumMonotone(cut, rows, sizes);
  }

  // Strong duality: if every leaving arc is saturated and no arc carries flow back, the cut is tight.
  lemma SaturatedCut(g: Graph, paths: Graph, s: nat, t: nat, k: int, cut: set<nat>)
    requires ValidGraph(g) && Flow(g, paths, s, t, k) && Separates(g, cut, s, t)
    requires forall u: nat, v: nat :: u in cut && v < |g| && v !in cut ==> !Residual(g, paths, u, v)
    ensures k == Leaving(g, cut)
  {
    FlowAcrossCut(g, paths, s, t, k, cut);
    LeavingIsSum(g, cut, cut);
    assert LeavingFrom(g, cut, cut) == CutArcs(g, cut);
    var far := Range(|g|) - cut;
    var rows, sizes := (v: nat) => Sum(far, (w: nat) => D(paths, v, w)), (u: nat) => if u < |g| then |g[u] - cut|
      else 0;
    forall u | u in cut ensures rows(u) == sizes(u) {
      forall w: nat | w < |g| && w !in cut ensures D(paths, u, w) == if w in g[u] then 1 else 0 {
        assert !Residual(g, paths, u, w);
      }
      RowAcross(g, paths, cut, u);
    }
    SumCongruence(cut, rows, sizes);
  }

  // One more unit can be pushed from u to v.
  ghost predicate Residual(g: Graph, paths: Graph, u: nat, v: nat) {
    u < |g| && u < |paths| && (v in g[u] || v in paths[u]) && !Carries(paths, u, v)
  }

  // ----- pushing one unit along a residual pair -----

  ghost function Pushed(paths: Graph, v: nat, u: nat): Graph
    requires u < |paths| && v < |paths|
  {
    if u in paths[v] then paths[v := paths[v] - {u}] else paths[u := paths[u] + {v}]
  }

  lemma SumPoint(s: set<nat>, f: nat -> int, h: nat -> int, y: nat, delta: int)
    requires y in s && h(y) == f(y) + delta
    requires forall x :: x in s && x != y ==> h(x) == f(x)
    ensures Sum(s, h) == Sum(s, f) + delta
  {
    SumRemove(s, f, y);
    SumRemove(s, h, y);
    SumCongruence(s - {y}, f, h);
  }

  // Here Carries(paths, u, v) is flow from u back to v, so pushing v -> u cancels it.
  lemma PushedNet(g: Graph, paths: Graph, v: nat, u: nat)
    requires FlowArcs(g, paths) && u < |g| && v < |g| && u != v
    requires Residual(g, paths, v, u)
    ensures FlowArcs(g, Pushed(paths, v, u))
    ensures Net(Pushed(paths, v, u), v) == Net(paths, v) + 1
    ensures Net(Pushed(paths, v, u), u) == Net(paths, u) - 1
    ensures forall x: nat :: x != u && x != v ==> Net(Pushed(paths, v, u), x) == Net(paths, x)
  {
    var after := Pushed(paths, v, u);
    var all := Range(|g|);
    assert forall x: nat, y: nat :: Carries(after, x, y) <==>
      if u in paths[v] then Carries(paths, x, y) && !(x == u && y == v) else Carries(paths, x, y) || (x == v && y == u);
    SumPoint(all, (w: nat) => D(paths, v, w), (w: nat) => D(after, v, w), u, 1);
    SumPoint(all, (w: nat) => D(paths, u, w), (w: nat) => D(after, u, w), v, -1);
    forall x: nat | x != u && x != v ensures Net(after, x) == Net(paths, x) {
      SumCongruence(all, (w: nat) => D(paths, x, w), (w: nat) => D(after, x, w));
    }
  }

  lemma ZeroFlow(g: Graph, none: Graph, s: nat, t: nat)
    requires s < |g| && t < |g| && s != t
    requires |none| == |g| && forall v :: 0 <= v < |g| ==> none[v] == {}
    ensures Flow(g, none, s, t, 0)
  {
    forall v: nat ensures Net(none, v) == 0 {
      SumZero(Range(|g|), (w: nat) => D(none, v, w));
    }
  }
}
