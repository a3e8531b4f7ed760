// Singling out one vertex of a cell, so that refinement can go on from there.
module Breakout {
  import opened Sums
  import opened Graphs
  import opened GroupOrbits
  import opened Refinement
  import opened Nests
  import opened NestRefinement
  import opened BucketSort
  import opened RefineInPlace

  // lab with the entry at j brought to position tc, the entries between moved up by one.
  ghost predicate Brought(lab: seq<nat>, lab2: seq<nat>, tc: nat, j: nat) {
    && tc <= j < |lab| == |lab2| && lab2[tc] == lab[j]
    && (forall k, l :: tc <= k < j && l == k + 1 ==> lab2[l] == lab[k])
    && (forall k :: 0 <= k < |lab| && (k < tc || j < k) ==> lab2[k] == lab[k])
  }

  lemma BroughtPermutes(n: nat, lab: seq<nat>, lab2: seq<nat>, tc: nat, j: nat)
    requires Permutation(n, lab) && Brought(lab, lab2, tc, j)
    ensures Permutation(n, lab2)
  {
    var p: seq<nat> := seq(n, k requires 0 <= k < n => if tc <= k < j then k + 1 else if k == j then tc else k);
    forall k | 0 <= k < n ensures lab2[p[k]] == lab[k] {
    }
    MovedPermutes(n, p, lab, lab2);
  }

  // The cell at tc becomes {tv} and the rest.
  ghost predicate Singled(n: nat, level: int, s: Part, t: Part, tc: nat, tv: nat) {
    && PartOk(n, level, s) && PartOk(n, level, t)
    && tc + 1 < n && tv < n && ColOf(n, level, s)[tv] == tc && ColOf(n, level, t)[tv] == tc
    && (forall v: nat :: v < n && v != tv ==>
        ColOf(n, level, t)[v] == if ColOf(n, level, s)[v] == tc then tc + 1 else ColOf(n, level, s)[v])
    && (forall v: nat :: v < n ==> ColOf(n, level, s)[v] != tc + 1)
    && t.active == {tc} && t.numcells == s.numcells + 1
  }

  // Bring tv to position tc, the entries before it up by one.
  method BringFront(lab: array<nat>, tc: nat, tv: nat, ghost at: nat)
    requires tc <= at < lab.Length && lab[at] == tv && forall k :: 0 <= k < at ==> lab[k] != tv
    modifies lab
    ensures Brought(old(lab[..]), lab[..], tc, at)
  {
    ghost var lab0 := lab[..];
    var i, prev := tc, tv;
    while true
      invariant tc <= i <= at && prev == if i == tc then tv else lab0[i - 1]
      invariant lab.Length == |lab0| && forall k :: i <= k < lab.Length || 0 <= k < tc ==> lab[k] == lab0[k]
      invariant i > tc ==> lab[tc] == tv
      invariant forall k, l :: tc <= k < i - 1 && l == k + 1 ==> lab[l] == lab0[k]
      decreases at - i
    {
      var next := lab[i];
      lab[i] := prev;
      i := i + 1;
      prev := next;
      if prev == tv { break; }
    }
  }

  method Breakout(lab: array<nat>, ptn: array<int>, level: int, tc: nat, tv: nat,
                  ghost s: Part, ghost e: nat)
    returns (active: set<nat>)
    requires lab.Length == ptn.Length && s.lab == lab[..] && s.ptn == ptn[..] && PartOk(lab.Length, level, s)
    requires CellAt(ptn[..], level, tc, e) && tv in lab[tc..e + 1]
    modifies lab, ptn
    ensures tc < e ==> Singled(lab.Length, level, s, Part(lab[..], ptn[..], active, s.numcells + 1), tc, tv)
    ensures tc == e ==>
      lab[..] == s.lab && SameCells(lab.Length, level, s, Part(lab[..], ptn[..], active, s.numcells), tc)
    ensures tc < lab.Length && lab[tc] == tv && ptn[tc] == level
    ensures forall k :: 0 <= k < ptn.Length && k != tc ==> ptn[k] == s.ptn[k]
    ensures tc < e ==> Finer(s.ptn, ptn[..], level) && KeepsLower(s.ptn, ptn[..], level)
    ensures exists at: nat :: at <= e && Brought(s.lab, lab[..], tc, at)
  {
    hide *;
    active := {tc};
    ghost var at := CellHas(lab.Length, level, s, tc, e, tv);
    BringFront(lab, tc, tv, at);
    BroughtFirst(s.lab, lab[..], tc, at);
    ptn[tc] := level;
    assert ptn[..] == s.ptn[tc := level];
    if tc < e {
      EndAdded(s.ptn, level, tc, e);
      BroughtSingles(lab.Length, level, s, Part(lab[..], ptn[..], active, s.numcells + 1), tc, e, at, tv);
    } else {
      BroughtNowhere(s.lab, lab[..], tc);
      AlreadySingle(lab.Length, level, s, Part(lab[..], ptn[..], active, s.numcells), tc);
    }
  }

  lemma CellHas(n: nat, level: int, s: Part, tc: nat, e: nat, tv: nat) returns (at: nat)
    requires PartOk(n, level, s) && CellAt(s.ptn, level, tc, e) && tv in s.lab[tc..e + 1]
    ensures tc <= at <= e < |s.lab| == |s.ptn| && s.lab[at] == tv && forall k :: 0 <= k < at ==> s.lab[k] != tv
  {
    var k :| 0 <= k < e + 1 - tc && s.lab[tc..e + 1][k] == tv;
    at := tc + k;
  }

  lemma BroughtFirst(lab: seq<nat>, lab2: seq<nat>, tc: nat, at: nat)
    requires Brought(lab, lab2, tc, at)
    ensures tc <= at < |lab| == |lab2| && lab2[tc] == lab[at]
  {
  }

  lemma BroughtNowhere(lab: seq<nat>, lab2: seq<nat>, tc: nat)
    requires Brought(lab, lab2, tc, tc)
    ensures lab2 == lab
  {
  }

  lemma EndAdded(ptn: seq<int>, level: int, tc: nat, e: nat)
    requires CellAt(ptn, level, tc, e) && tc < e
    ensures Finer(ptn, ptn[tc := level], level)
    ensures KeepsLower(ptn, ptn[tc := level], level)
  {
    FinerKeepsLower(ptn, ptn[tc := level], level);
  }

  // The vertex was alone already: the cells are what they were.
  ghost predicate SameCells(n: nat, level: int, s: Part, t: Part, tc: nat) {
    && PartOk(n, level, s) && PartOk(n, level, t) && ColOf(n, level, t) == ColOf(n, level, s)
    && t.active == {tc} && t.numcells == s.numcells
  }

  lemma AlreadySingle(n: nat, level: int, s: Part, t: Part, tc: nat)
    requires PartOk(n, level, s) && CellAt(s.ptn, level, tc, tc)
    requires t.lab == s.lab && t.ptn == s.ptn[tc := level] && t.active == {tc} && t.numcells == s.numcells
    ensures SameCells(n, level, s, t, tc)
  {
    assert Starts(t.ptn, level) == Starts(s.ptn, level);
    forall v: nat | v < n ensures ColOf(n, level, t)[v] == ColOf(n, level, s)[v] {
      StartsAgree(s.ptn, t.ptn, level, Preimage(n, s.lab, v));
    }
  }

  lemma BroughtSingles(n: nat, level: int, s: Part, t: Part, tc: nat, e: nat, at: nat, tv: nat)
    requires PartOk(n, level, s) && CellAt(s.ptn, level, tc, e) && tc < e && tc <= at <= e && s.lab[at] == tv
    requires Brought(s.lab, t.lab, tc, at) && t.ptn == s.ptn[tc := level]
    requires t.active == {tc} && t.numcells == s.numcells + 1
    ensures Singled(n, level, s, t, tc, tv)
  {
    BroughtPermutes(n, s.lab, t.lab, tc, at);
    CutAtMid(s.ptn, level, tc, tc + 1, e);
    assert PartOk(n, level, t);
    assert Within(s.lab, s.ptn, t.lab, t.ptn, tc, e);
    ColAt(n, t.lab, t.ptn, level, tc);
    StartIsItself(t.ptn, level, tc);
    var col, col2 := ColOf(n, level, s), ColOf(n, level, t);
    forall v: nat | v < n
      ensures col[v] != tc + 1 && (v == tv ==> col[v] == tc)
      ensures v != tv ==> col2[v] == if col[v] == tc then tc + 1 else col[v]
    {
      var i := Position(n, s.lab, s.ptn, t.lab, t.ptn, level, tc, e, v);
      NotInside(n, level, s, tc, e, v);
      if tc <= i <= e && v != tv {
        assert i != tc;
        SecondStart(t.ptn, level, tc, e, i);
      }
    }
  }

  lemma NotInside(n: nat, level: int, s: Part, tc: nat, e: nat, v: nat)
    requires PartOk(n, level, s) && CellAt(s.ptn, level, tc, e) && tc < e && v < n
    ensures ColOf(n, level, s)[v] != tc + 1
  {
    NoClassInside(n, level, s, tc, e, tc + 1);
    assert v !in Class(ColOf(n, level, s), tc + 1);
  }

  lemma {:induction false} SecondStart(ptn: seq<int>, level: int, tc: nat, e: nat, i: nat)
    requires tc < i <= e < |ptn| && ptn[tc] <= level && forall k :: tc < k < e ==> ptn[k] > level
    ensures StartOf(ptn, level, i) == tc + 1
    decreases i
  {
    if i > tc + 1 { SecondStart(ptn, level, tc, e, i - 1); }
  }

  lemma SingledTogether(n: nat, level: int, s: Part, t: Part, tc: nat, tv: nat, u: nat, v: nat)
    requires Singled(n, level, s, t, tc, tv) && u < n && v < n && ColOf(n, level, t)[u] == ColOf(n, level, t)[v]
    ensures ColOf(n, level, s)[u] == ColOf(n, level, s)[v]
  {
    assert u != v ==> u != tv && v != tv;
  }

  lemma EquitableAgree(wt: Weights, col: seq<nat>, u: nat, v: nat)
    requires Equitable(wt, col) && u < |col| && v < |col| && col[u] == col[v]
    ensures AgreeAll(wt, col, u, v)
  {
  }

  lemma SingledAgree(wt: Weights, col: seq<nat>, col2: seq<nat>, tc: nat, tv: nat, u: nat, v: nat)
    requires AgreeAll(wt, col, u, v) && AgreeOn(wt, col2, {tc}, u, v)
    requires tv in Class(col, tc) && Class(col2, tc) == {tv} && Class(col2, tc + 1) == Class(col, tc) - {tv}
    requires forall d: nat :: d != tc && d != tc + 1 ==> Class(col2, d) == Class(col, d)
    ensures AgreeAll(wt, col2, u, v)
  {
    hide Agree;
    forall d: nat ensures Agree(wt, Class(col2, d), u, v) {
      if d == tc + 1 {
        assert Agree(wt, Class(col, tc), u, v) && Agree(wt, Class(col2, tc), u, v);
        AgreeSplit(wt, Class(col, tc), {tv}, u, v);
      } else if d == tc {
        assert d in {tc};
      } else {
        assert Agree(wt, Class(col, d), u, v);
      }
    }
  }

  // Main theorem: singling out a vertex of an equitable partition leaves a partition for which
  // the new single vertex alone is a correct choice of active cells.
  lemma SingledQueue(wt: Weights, n: nat, level: int, s: Part, t: Part, tc: nat, tv: nat)
    requires Singled(n, level, s, t, tc, tv) && Equitable(wt, ColOf(n, level, s))
    ensures QueueInv(wt, ColOf(n, level, t), t.active)
  {
    var col, col2 := ColOf(n, level, s), ColOf(n, level, t);
    SingledClasses(n, level, s, t, tc, tv);
    assert t.active == {tc};
    hide Singled, PartOk, ColOf, Equitable;
    forall u: nat, v: nat | u < n && v < n && col2[u] == col2[v] && AgreeOn(wt, col2, {tc}, u, v)
      ensures AgreeAll(wt, col2, u, v)
    {
      SingledTogether(n, level, s, t, tc, tv, u, v);
      EquitableAgree(wt, col, u, v);
      SingledAgree(wt, col, col2, tc, tv, u, v);
    }
  }

  lemma SingledClasses(n: nat, level: int, s: Part, t: Part, tc: nat, tv: nat)
    requires Singled(n, level, s, t, tc, tv)
    ensures var col, col2 := ColOf(n, level, s), ColOf(n, level, t);
      && tv in Class(col, tc) && Class(col2, tc) == {tv} && Class(col2, tc + 1) == Class(col, tc) - {tv}
      && forall d: nat :: d != tc && d != tc + 1 ==> Class(col2, d) == Class(col, d)
  {
  }
}
