// Theorems about the 1-WL run: it ends with the coarsest equitable partition.
module Wl1Theory {
  import opened Sums
  import opened Refinement
  import opened Wl1Spec

  // ----- one round -----

  lemma UndividedSame(s: State, deg: seq<nat>, c: nat)
    requires |deg| == |s.col| && !Divided(s, deg, c)
    ensures SplitOne(s, deg, c) == s
  {
  }

  // In the middle of a pass with splitter w: colours below c and the new ones are done.
  ghost predicate MidPass(wt: Weights, s: State, w: set<nat>, c: nat, k0: nat) {
    && ValidState(s) && k0 <= s.k
    && PassInv(wt, s.col, Elems(s.queue), w)
    && forall d: nat :: d < c || k0 <= d ==> Uniform(wt, s.col, d, w)
  }

  lemma SplitOneMidPass(wt: Weights, s: State, deg: seq<nat>, w: set<nat>, c: nat, k0: nat)
    requires |deg| == |s.col| && DegreesOf(wt, w, deg)
    requires MidPass(wt, s, w, c, k0) && c < k0
    ensures MidPass(wt, SplitOne(s, deg, c), w, c + 1, k0)
  {
    var t := SplitOne(s, deg, c);
    if !Divided(s, deg, c) {
      UndividedUniform(s, deg, c, wt, w);
    } else {
      SplitOneValid(s, deg, c);
      SplitOneGrows(s, deg, c);
      SplitOneSplits(s, deg, c, wt, w);
      var spared := SplitOneRequeues(s, deg, c);
      SplitKeepsPassInv(wt, s.col, t.col, c, w, Elems(s.queue), Elems(t.queue), spared);
      forall d: nat | d < c + 1 || k0 <= d
        ensures Uniform(wt, t.col, d, w)
      {
        PieceUniform(wt, s.col, t.col, c, w, d);
      }
    }
  }

  lemma {:induction false} SplitUpToMidPass(wt: Weights, s: State, deg: seq<nat>, w: set<nat>, c: nat)
    requires |deg| == |s.col| && DegreesOf(wt, w, deg)
    requires MidPass(wt, s, w, 0, s.k) && c <= s.k
    ensures MidPass(wt, SplitUpTo(s, deg, c), w, c, s.k)
  {
    hide SplitOne;
    if c > 0 {
      SplitUpToMidPass(wt, s, deg, w, c - 1);
      SplitOneMidPass(wt, SplitUpTo(s, deg, c - 1), deg, w, c - 1, s.k);
    }
  }

  // Colours are only added, and if none is added nothing is queued.
  lemma {:induction false} SplitUpToProgress(s: State, deg: seq<nat>, c: nat)
    requires ValidState(s) && |deg| == |s.col| && c <= s.k
    ensures var t := SplitUpTo(s, deg, c);
            ValidState(t) && s.k <= t.k && (t.k == s.k ==> t == s)
  {
    hide SplitOne;
    if c > 0 {
      SplitUpToProgress(s, deg, c - 1);
      SplitOneProgress(SplitUpTo(s, deg, c - 1), deg, c - 1);
    }
  }

  lemma SplitOneProgress(s: State, deg: seq<nat>, c: nat)
    requires ValidState(s) && |deg| == |s.col| && c < s.k
    ensures var t := SplitOne(s, deg, c);
            ValidState(t) && s.k <= t.k && (t.k == s.k ==> t == s)
  {
    if Divided(s, deg, c) {
      SplitOneValid(s, deg, c);
      SplitOneGrows(s, deg, c);
    }
  }

  lemma PoppedValid(s: State)
    requires ValidState(s) && s.queue != []
    ensures ValidState(Popped(s))
    ensures Elems(Popped(s).queue) == Elems(s.queue) - {s.queue[0]}
  {
    var rest := s.queue[1..];
    assert s.queue == [s.queue[0]] + rest;
    assert forall i :: 0 <= i < |rest| ==> rest[i] == s.queue[i + 1];
    assert s.queue[0] !in rest;
  }

  lemma RoundProgress(g: Csr, s: State)
    requires ValidState(s) && s.queue != []
    ensures var t := Round(g, s);
            ValidState(t) && s.k <= t.k && (t.k == s.k ==> t == Popped(s))
  {
    PoppedValid(s);
    SplitUpToProgress(Popped(s), Degrees(g, s.col, s.queue[0]), s.k);
  }

  lemma RoundKeepsQueueInv(g: Csr, s: State)
    requires ValidState(s) && s.queue != []
    requires QueueInv(Wt(g), s.col, Elems(s.queue))
    ensures QueueInv(Wt(g), Round(g, s).col, Elems(Round(g, s).queue))
  {
    var wt, w := Wt(g), Class(s.col, s.queue[0]);
    var deg, p := Degrees(g, s.col, s.queue[0]), Popped(s);
    PoppedValid(s);
    PassStart(wt, s.col, Elems(s.queue), s.queue[0]);
    forall d: nat | s.k <= d
      ensures Uniform(wt, s.col, d, w)
    {
      assert Class(s.col, d) == {};
    }
    assert MidPass(wt, p, w, 0, s.k);
    SplitUpToMidPass(wt, p, deg, w, s.k);
    PassEnd(wt, Round(g, s).col, Elems(Round(g, s).queue), w);
  }

  // An equitable partition that refines the colouring is not cut by a round.
  lemma {:induction false} SplitUpToKeepsCoarser(wt: Weights, s: State, deg: seq<nat>, w: set<nat>, c: nat, q: seq<nat>)
    requires |deg| == |s.col| && DegreesOf(wt, w, deg)
    requires ValidState(s) && c <= s.k
    requires Refines(q, s.col) && Equitable(wt, q)
    requires Saturated(q, w)
    ensures Refines(q, SplitUpTo(s, deg, c).col)
  {
    hide SplitOne, Saturated, DegreesOf, Equitable, Refines;
    if c > 0 {
      SplitUpToKeepsCoarser(wt, s, deg, w, c - 1, q);
      SplitUpToProgress(s, deg, c - 1);
      var t := SplitUpTo(s, deg, c - 1);
      assert SplitUpTo(s, deg, c) == SplitOne(t, deg, c - 1);
      SplitOneKeepsCoarser(wt, t, deg, w, c - 1, q);
    }
  }

  lemma SplitOneKeepsCoarser(wt: Weights, t: State, deg: seq<nat>, w: set<nat>, c: nat, q: seq<nat>)
    requires |deg| == |t.col| && DegreesOf(wt, w, deg) && ValidState(t) && c < t.k
    requires Refines(q, t.col) && Equitable(wt, q) && Saturated(q, w)
    ensures Refines(q, SplitOne(t, deg, c).col)
  {
    hide SplitOne, ValidState, Refines, Equitable, SplitBy, Divided, Saturated, DegreesOf;
    if Divided(t, deg, c) {
      SplitOneSplits(t, deg, c, wt, w);
      SplitKeepsCoarser(wt, q, t.col, SplitOne(t, deg, c).col, c, w);
    } else {
      UndividedSame(t, deg, c);
    }
  }

  lemma RoundKeepsCoarser(g: Csr, s: State, q: seq<nat>)
    requires ValidState(s) && s.queue != []
    requires Refines(q, s.col) && Equitable(Wt(g), q)
    ensures Refines(q, Round(g, s).col)
  {
    PoppedValid(s);
    SplitUpToKeepsCoarser(Wt(g), Popped(s), Degrees(g, s.col, s.queue[0]), Class(s.col, s.queue[0]), s.k, q);
  }

  // A round only divides classes.
  lemma {:induction false} SplitUpToRefines(s: State, deg: seq<nat>, c: nat)
    requires ValidState(s) && |deg| == |s.col| && c <= s.k
    ensures Refines(SplitUpTo(s, deg, c).col, s.col)
  {
    hide SplitOne;
    if c > 0 {
      SplitUpToRefines(s, deg, c - 1);
      SplitUpToProgress(s, deg, c - 1);
      SplitOneRefines(SplitUpTo(s, deg, c - 1), deg, c - 1);
    }
  }

  lemma SplitOneRefines(s: State, deg: seq<nat>, c: nat)
    requires ValidState(s) && |deg| == |s.col| && c < s.k
    ensures Refines(SplitOne(s, deg, c).col, s.col)
  {
    var t := SplitOne(s, deg, c);
    hide SplitOne;
    forall u: nat, v: nat | u < |t.col| && v < |t.col| && t.col[u] == t.col[v]
      ensures s.col[u] == s.col[v]
    {
      if !Divided(s, deg, c) {
        UndividedSame(s, deg, c);
      } else if s.col[u] == c {
        SplitOnePair(s, deg, c, u, v);
      } else {
        SplitOneColour(s, deg, c, u);
        SplitOneColour(s, deg, c, v);
        if s.col[v] == c { SplitOnePair(s, deg, c, v, u); }
      }
    }
  }

  // ----- the run -----

  lemma DenseBound(col: seq<nat>, k: nat)
    requires Dense(col, k)
    ensures k <= |col|
  {
    var used := set v | v in Range(|col|) :: col[v];
    forall c | c in Range(k) ensures c in used {
      var v :| v in Class(col, c);
      assert v in Range(|col|);
    }
    SubsetCard(Range(k), used);
    RangeCard(k);
    ValuesCard(Range(|col|), col);
    RangeCard(|col|);
  }

  lemma {:induction false} ValuesCard(s: set<nat>, col: seq<nat>)
    requires forall v :: v in s ==> v < |col|
    ensures |set v | v in s :: col[v]| <= |s|
    decreases |s|
  {
    if s != {} {
      var x :| x in s;
      ValuesCard(s - {x}, col);
      assert (set v | v in s :: col[v]) == (set v | v in s - {x} :: col[v]) + {col[x]};
    }
  }

  ghost function Run(g: Csr, s: State): (t: State)
    requires ValidState(s)
    ensures |t.col| == |s.col|
    decreases |s.col| - s.k, |s.queue|
  {
    if s.queue == [] then s
    else
      RoundProgress(g, s);
      DenseBound(s.col, s.k);
      DenseBound(Round(g, s).col, Round(g, s).k);
      Run(g, Round(g, s))
  }

  lemma {:induction false} RunCoarsest(g: Csr, s: State, q: seq<nat>)
    requires ValidState(s) && QueueInv(Wt(g), s.col, Elems(s.queue))
    ensures Dense(Run(g, s).col, Run(g, s).k)
    ensures Equitable(Wt(g), Run(g, s).col)
    ensures Refines(Run(g, s).col, s.col)
    ensures Refines(q, s.col) && Equitable(Wt(g), q) ==> Refines(q, Run(g, s).col)
    decreases |s.col| - s.k, |s.queue|
  {
    if s.queue == [] {
      assert Elems(s.queue) == {};
      EmptyQueueEquitable(Wt(g), s.col);
    } else {
      var t := Round(g, s);
      RoundProgress(g, s);
      DenseBound(s.col, s.k);
      DenseBound(t.col, t.k);
      RoundKeepsQueueInv(g, s);
      if Refines(q, s.col) && Equitable(Wt(g), q) { RoundKeepsCoarser(g, s, q); }
      RunCoarsest(g, t, q);
      PoppedValid(s);
      SplitUpToRefines(Popped(s), Degrees(g, s.col, s.queue[0]), s.k);
    }
  }

  // ----- normalising the initial colours -----

  ghost function Below(xs: set<int>, x: int): set<int> {
    set y | y in xs && y < x
  }

  ghost function IntElems(xs: seq<int>): set<int> {
    set x | x in xs
  }

  // The caller's colours, all equal when none are given.
  ghost function Given(n: nat, colours: seq<int>): seq<int> {
    if colours == [] then seq(n, _ => 0) else colours
  }

  // Each colour replaced by its rank among the colours in use.
  ghost function Ranks(colours: seq<int>): seq<nat> {
    seq(|colours|, v requires 0 <= v < |colours| => |Below(IntElems(colours), colours[v])|)
  }

  ghost function Start(colours: seq<int>): State {
    var k := |IntElems(colours)|;
    State(Ranks(colours), seq(k, c => c), k)
  }

  // The result of run1WL.
  ghost function Colours(g: Csr, colours: seq<int>): (col: seq<nat>)
    requires |colours| == g.n || colours == []
    ensures |col| == g.n
  {
    if g.n == 0 then []
    else if g.n == 1 then [0]
    else
      StartValid(Given(g.n, colours));
      Run(g, Start(Given(g.n, colours))).col
  }

  lemma RankMonotone(xs: set<int>, x: int, y: int)
    requires x in xs && x < y
    ensures |Below(xs, x)| < |Below(xs, y)|
  {
    assert x in Below(xs, y) && x !in Below(xs, x);
    SubsetCard(Below(xs, x) + {x}, Below(xs, y));
  }

  lemma {:induction false} RankOnto(xs: set<int>, r: nat) returns (x: int)
    requires r < |xs|
    ensures x in xs && |Below(xs, x)| == r
    decreases |xs|
  {
    var top := Greatest(xs);
    assert Below(xs, top) == xs - {top};
    if r == |xs| - 1 {
      x := top;
    } else {
      x := RankOnto(xs - {top}, r);
      assert Below(xs, x) == Below(xs - {top}, x);
    }
  }

  lemma {:induction false} Greatest(xs: set<int>) returns (top: int)
    requires xs != {}
    ensures top in xs
    ensures forall y :: y in xs ==> y <= top
    decreases |xs|
  {
    var x := Pick(xs);
    var rest := xs - {x};
    if rest == {} {
      top := x;
    } else {
      var t := Greatest(rest);
      top := if t > x then t else x;
    }
    forall y | y in xs ensures y <= top {
      if y != x { assert y in rest; }
    }
  }

  lemma RanksRefine(colours: seq<int>)
    ensures Refines(Ranks(colours), colours) && Refines(colours, Ranks(colours))
  {
    var xs := IntElems(colours);
    forall u: nat, v: nat | u < |colours| && v < |colours|
      ensures Ranks(colours)[u] == Ranks(colours)[v] <==> colours[u] == colours[v]
    {
      assert colours[u] in xs && colours[v] in xs;
      if colours[u] < colours[v] { RankMonotone(xs, colours[u], colours[v]); }
      if colours[v] < colours[u] { RankMonotone(xs, colours[v], colours[u]); }
    }
  }

  lemma StartValid(colours: seq<int>)
    ensures ValidState(Start(colours))
    ensures forall v :: 0 <= v < |colours| ==> Start(colours).col[v] in Start(colours).queue
  {
    var s, xs := Start(colours), IntElems(colours);
    forall v: nat | v < |colours| ensures s.col[v] < s.k {
      assert colours[v] in xs && colours[v] !in Below(xs, colours[v]);
      SubsetCard(Below(xs, colours[v]), xs);
    }
    forall c: nat | c < s.k ensures Class(s.col, c) != {} {
      var x := RankOnto(xs, c);
      var v :| 0 <= v < |colours| && colours[v] == x;
      assert v in Class(s.col, c);
    }
    forall v: nat | v < |colours| ensures s.col[v] in s.queue {
      assert s.queue[s.col[v]] == s.col[v];
    }
  }

  // Ids are dense: exactly 0..k-1 for some k.
  ghost predicate DenseColours(col: seq<nat>) {
    exists k: nat :: Dense(col, k)
  }

  // Main theorem: the result is the coarsest equitable refinement of the given colours.
  lemma ColoursCoarsestEquitable(g: Csr, colours: seq<int>)
    requires |colours| == g.n || colours == []
    ensures CoarsestEquitable(Wt(g), Given(g.n, colours), Colours(g, colours))
    ensures DenseColours(Colours(g, colours))
  {
    var init := Given(g.n, colours);
    var res := Colours(g, colours);
    if g.n == 0 {
      assert Dense(res, 0);
    } else if g.n == 1 {
      assert 0 in Class(res, 0);
      assert Dense(res, 1);
    } else {
      var s := Start(init);
      StartValid(init);
      RanksRefine(init);
      QueueAllInv(Wt(g), s.col, Elems(s.queue));
      RunCoarsest(g, s, res);
      forall q: seq<nat> | Refines(q, init) && Equitable(Wt(g), q)
        ensures Refines(q, res)
      {
        RunCoarsest(g, s, q);
      }
    }
  }

  // The number of arcs from v into s.
  ghost function Neighbours(g: Csr, v: nat, s: set<nat>): int {
    Sum(s, (w: nat) => Arcs(g, v, w))
  }

  // In an undirected graph, vertices of one final colour have equally many neighbours in every colour.
  lemma SameColourSameNeighbours(g: Csr, colours: seq<int>, u: nat, v: nat, c: nat)
    requires |colours| == g.n || colours == []
    requires forall x: nat, y: nat :: x < g.n && y < g.n ==> Arcs(g, x, y) == Arcs(g, y, x)
    requires u < g.n && v < g.n && Colours(g, colours)[u] == Colours(g, colours)[v]
    ensures Neighbours(g, u, Class(Colours(g, colours), c)) == Neighbours(g, v, Class(Colours(g, colours), c))
  {
    var col := Colours(g, colours);
    ColoursCoarsestEquitable(g, colours);
    hide Colours;
    assert AgreeAll(Wt(g), col, u, v);
    assert Agree(Wt(g), Class(col, c), u, v);
    InIsOut(g, Class(col, c), u);
    InIsOut(g, Class(col, c), v);
  }

  lemma InIsOut(g: Csr, s: set<nat>, w: nat)
    requires forall x: nat, y: nat :: x < g.n && y < g.n ==> Arcs(g, x, y) == Arcs(g, y, x)
    requires w < g.n && forall x :: x in s ==> x < g.n
    ensures Neighbours(g, w, s) == Count(Wt(g), s, w)
  {
    var wt := Wt(g);
    var into, out := (v: nat) => wt(v, w), (v: nat) => Arcs(g, w, v);
    SumCongruence(s, into, out);
  }
}
