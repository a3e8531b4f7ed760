// Relabelling the graph relabels the 1-WL result, with the same ids. Hence orbit-mates share a colour.
module Wl1Relabel {
  import opened Sums
  import opened Refinement
  import opened Wl1Spec
  import opened Wl1Theory

  // p maps g onto g2, arc for arc; the order of the rows and within them is free.
  ghost predicate Relabels(g: Csr, g2: Csr, p: seq<nat>) {
    && g2.n == g.n && Permutation(g.n, p)
    && forall v: nat, w: nat :: v < g.n && w < g.n ==> Arcs(g2, p[v], p[w]) == Arcs(g, v, w)
  }

  lemma CarriedCount(g: Csr, g2: Csr, p: seq<nat>, s: set<nat>, w: nat)
    requires Relabels(g, g2, p) && w < g.n && forall x :: x in s ==> x < g.n
    ensures Count(Wt(g2), Image(p, s), p[w]) == Count(Wt(g), s, w)
  {
    forall v: nat, u: nat | v < g.n && u < g.n ensures Wt(g2)(p[v], p[u]) == Wt(g)(v, u) {
      assert Arcs(g2, p[v], p[u]) == Arcs(g, v, u);
    }
    CarriedArcCount(p, Wt(g), Wt(g2), s, w);
  }

  lemma CarriedDegrees(g: Csr, g2: Csr, p: seq<nat>, col: seq<nat>, col2: seq<nat>, c: nat)
    requires Relabels(g, g2, p) && Carried(p, col, col2) && |col| == g.n
    ensures Carried(p, Degrees(g, col, c), Degrees(g2, col2, c))
  {
    CarriedClass(p, col, col2, c);
    var s := Class(col, c);
    forall w: nat | w < g.n
      ensures Count(Wt(g2), Class(col2, c), p[w]) == Count(Wt(g), s, w)
    {
      CarriedCount(g, g2, p, s, w);
    }
  }

  lemma CarriedMembers(p: seq<nat>, col: seq<nat>, col2: seq<nat>, deg: seq<nat>, deg2: seq<nat>, c: nat, d: nat)
    requires Carried(p, col, col2) && Carried(p, deg, deg2)
    ensures |Members(col2, deg2, c, d)| == |Members(col, deg, c, d)|
  {
    CarriedClass(p, col, col2, c);
    assert Members(col2, deg2, c, d) == Image(p, Members(col, deg, c, d));
    ImageCard(|p|, p, Members(col, deg, c, d));
  }

  lemma CarriedTop(p: seq<nat>, col: seq<nat>, col2: seq<nat>, deg: seq<nat>, deg2: seq<nat>, c: nat)
    requires Carried(p, col, col2) && Carried(p, deg, deg2)
    ensures TopUpTo(col2, deg2, c, |p|) == TopUpTo(col, deg, c, |p|)
  {
    TopIs(col, deg, c, |p|);
    TopIs(col2, deg2, c, |p|);
    var t, t2 := TopUpTo(col, deg, c, |p|), TopUpTo(col2, deg2, c, |p|);
    if t > 0 {
      var v :| 0 <= v < |p| && col[v] == c && deg[v] == t;
      assert col2[p[v]] == c && deg2[p[v]] == t;
    }
    if t2 > 0 {
      var y: nat :| y < |p| && col2[y] == c && deg2[y] == t2;
      var x := PermutationOnto(|p|, p, y);
      assert col[x] == c && deg[x] == t2;
    }
  }

  lemma CarriedPlan(p: seq<nat>, s: State, s2: State, deg: seq<nat>, deg2: seq<nat>, c: nat)
    requires Carried(p, s.col, s2.col) && Carried(p, deg, deg2) && s2.queue == s.queue
    ensures PlanFor(s2, deg2, c) == PlanFor(s, deg, c)
  {
    CarriedTop(p, s.col, s2.col, deg, deg2, c);
    forall d: nat ensures |Members(s2.col, deg2, c, d)| == |Members(s.col, deg, c, d)| {
      CarriedMembers(p, s.col, s2.col, deg, deg2, c, d);
    }
    assert Histogram(s2.col, deg2, c) == Histogram(s.col, deg, c);
  }

  lemma {:induction false} SameNames(s: State, s2: State, plan: Plan, i: nat)
    requires s2.queue == s.queue && s2.k == s.k && i <= |plan.num|
    ensures NameUpTo(s2, plan, i) == NameUpTo(s, plan, i)
  {
    if i > 0 { SameNames(s, s2, plan, i - 1); }
  }

  ghost predicate CarriedState(p: seq<nat>, s: State, s2: State) {
    Carried(p, s.col, s2.col) && s2.queue == s.queue && s2.k == s.k
  }

  lemma CarriedSplitOne(p: seq<nat>, s: State, s2: State, deg: seq<nat>, deg2: seq<nat>, c: nat)
    requires CarriedState(p, s, s2) && Carried(p, deg, deg2)
    ensures CarriedState(p, SplitOne(s, deg, c), SplitOne(s2, deg2, c))
  {
    CarriedPlan(p, s, s2, deg, deg2, c);
    var plan := PlanFor(s, deg, c);
    SameNames(s, s2, plan, |plan.num|);
  }

  lemma {:induction false} CarriedSplitUpTo(p: seq<nat>, s: State, s2: State, deg: seq<nat>, deg2: seq<nat>, c: nat)
    requires CarriedState(p, s, s2) && Carried(p, deg, deg2)
    ensures CarriedState(p, SplitUpTo(s, deg, c), SplitUpTo(s2, deg2, c))
  {
    hide SplitOne;
    if c > 0 {
      CarriedSplitUpTo(p, s, s2, deg, deg2, c - 1);
      CarriedSplitOne(p, SplitUpTo(s, deg, c - 1), SplitUpTo(s2, deg2, c - 1), deg, deg2, c - 1);
    }
  }

  lemma {:induction false} CarriedRun(g: Csr, g2: Csr, p: seq<nat>, s: State, s2: State)
    requires Relabels(g, g2, p) && |s.col| == g.n
    requires CarriedState(p, s, s2) && ValidState(s) && ValidState(s2)
    ensures CarriedState(p, Run(g, s), Run(g2, s2))
    decreases |s.col| - s.k, |s.queue|
  {
    hide SplitUpTo;
    if s.queue != [] {
      CarriedDegrees(g, g2, p, s.col, s2.col, s.queue[0]);
      CarriedSplitUpTo(p, Popped(s), Popped(s2), Degrees(g, s.col, s.queue[0]), Degrees(g2, s2.col, s.queue[0]), s.k);
      RoundProgress(g, s);
      RoundProgress(g2, s2);
      DenseBound(s.col, s.k);
      DenseBound(Round(g, s).col, Round(g, s).k);
      CarriedRun(g, g2, p, Round(g, s), Round(g2, s2));
    }
  }

  lemma CarriedStart(p: seq<nat>, init: seq<int>, init2: seq<int>)
    requires Carried(p, init, init2)
    ensures CarriedState(p, Start(init), Start(init2))
  {
    forall x | x in IntElems(init2) ensures x in IntElems(init) {
      var y: nat :| y < |p| && init2[y] == x;
      var v := PermutationOnto(|p|, p, y);
      assert init[v] == x;
    }
    forall x | x in IntElems(init) ensures x in IntElems(init2) {
      var v: nat :| v < |p| && init[v] == x;
      assert init2[p[v]] == x;
    }
    assert IntElems(init2) == IntElems(init);
  }

  // Main theorem: the run commutes with relabelling, ids included.
  lemma RelabellingInvariance(g: Csr, g2: Csr, p: seq<nat>, colours: seq<int>, colours2: seq<int>)
    requires Relabels(g, g2, p)
    requires colours == colours2 == [] || Carried(p, colours, colours2)
    ensures Carried(p, Colours(g, colours), Colours(g2, colours2))
  {
    var init, init2 := Given(g.n, colours), Given(g.n, colours2);
    assert Carried(p, init, init2);
    if g.n > 1 {
      CarriedStart(p, init, init2);
      StartValid(init);
      StartValid(init2);
      CarriedRun(g, g2, p, Start(init), Start(init2));
    } else if g.n == 1 {
      assert p[0] == 0;
    }
  }

  // Orbit-mates share a colour: an automorphism that keeps the given colours keeps the final ones.
  lemma OrbitMatesShareColour(g: Csr, p: seq<nat>, colours: seq<int>, v: nat)
    requires Relabels(g, g, p) && v < g.n
    requires colours == [] || Carried(p, colours, colours)
    ensures Colours(g, colours)[p[v]] == Colours(g, colours)[v]
  {
    RelabellingInvariance(g, g, p, colours, colours);
  }
}
