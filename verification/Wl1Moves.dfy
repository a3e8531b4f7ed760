// How many vertices change class in a run, each of which the code looks up in its old class.
module Wl1Moves {
  import opened Sums
  import opened Refinement
  import opened Wl1Spec
  import opened Wl1Theory
  import opened Wl1Cost
  import Bits

  ghost function Moved(col: seq<nat>, col2: seq<nat>): set<nat>
    requires |col2| == |col|
  {
    set v: nat | v < |col| && col2[v] != col[v]
  }

  ghost function Positive(deg: seq<nat>): set<nat> {
    set v: nat | v < |deg| && deg[v] > 0
  }

  // ----- only vertices that the splitter points to move -----

  lemma SplitOneStays(s: State, deg: seq<nat>, c: nat, v: nat)
    requires ValidState(s) && |deg| == |s.col| && c < s.k && v < |s.col| && deg[v] == 0
    ensures SplitOne(s, deg, c).col[v] == s.col[v]
  {
    if Divided(s, deg, c) {
      var p := PlanFor(s, deg, c);
      PlanSound(s, deg, c);
      NameUpToNamed(s, p, |p.num|);
      SplitOneColour(s, deg, c, v);
    } else {
      UndividedSame(s, deg, c);
    }
  }

  lemma {:induction false} SplitUpToStays(s: State, deg: seq<nat>, c: nat, v: nat)
    requires ValidState(s) && |deg| == |s.col| && c <= s.k && v < |s.col| && deg[v] == 0
    ensures SplitUpTo(s, deg, c).col[v] == s.col[v]
  {
    hide SplitOne;
    if c > 0 {
      SplitUpToStays(s, deg, c - 1, v);
      SplitUpToProgress(s, deg, c - 1);
      SplitOneStays(SplitUpTo(s, deg, c - 1), deg, c - 1, v);
    }
  }

  lemma RoundMoves(g: Csr, s: State)
    requires ValidState(s) && s.queue != []
    ensures Moved(s.col, Round(g, s).col) <= Positive(Degrees(g, s.col, s.queue[0]))
  {
    hide SplitUpTo;
    var deg := Degrees(g, s.col, s.queue[0]);
    PoppedValid(s);
    forall v | v in Moved(s.col, Round(g, s).col) ensures v in Positive(deg) {
      if deg[v] == 0 { SplitUpToStays(Popped(s), deg, s.k, v); }
    }
  }

  // ----- and there are at most as many of them as arcs scanned -----

  // The vertices that some vertex of c has an arc to.
  ghost function Targets(g: Csr, n: nat, c: set<nat>): set<nat> {
    set v: nat | v < n && Count(Wt(g), c, v) > 0
  }

  lemma {:induction false} TargetsBound(g: Csr, n: nat, c: set<nat>)
    ensures |Targets(g, n, c)| <= Rows(g, c)
    decreases |c|
  {
    if c == {} {
      assert Targets(g, n, c) == {};
    } else {
      var x := Pick(c);
      TargetsBound(g, n, c - {x});
      TargetsMore(g, n, c, x);
      RowsMore(g, c, x);
      SubsetCard(Targets(g, n, c), Targets(g, n, c - {x}) + RowTargets(g, n, x));
      RowTargetsBound(g, n, x);
    }
  }

  ghost function RowTargets(g: Csr, n: nat, x: nat): set<nat> {
    set v: nat | v < n && Arcs(g, x, v) > 0
  }

  lemma TargetsMore(g: Csr, n: nat, c: set<nat>, x: nat)
    requires x in c
    ensures Targets(g, n, c) <= Targets(g, n, c - {x}) + RowTargets(g, n, x)
  {
    forall v | v in Targets(g, n, c) ensures v in Targets(g, n, c - {x}) + RowTargets(g, n, x) {
      var wt := Wt(g);
      SumRemove(c, (y: nat) => wt(y, v), x);
    }
  }

  lemma RowsMore(g: Csr, c: set<nat>, x: nat)
    requires x in c
    ensures Rows(g, c) == RowLength(g, x) + Rows(g, c - {x})
  {
    SumRemove(c, (v: nat) => RowLength(g, v), x);
  }

  lemma RowTargetsBound(g: Csr, n: nat, x: nat)
    ensures |RowTargets(g, n, x)| <= RowLength(g, x)
  {
    if g.HasRow(x) {
      OccurringBound(g.neighbours, g.offsets[x], g.offsets[x + 1], n);
      assert RowTargets(g, n, x) == Occurring(g.neighbours, g.offsets[x], g.offsets[x + 1], n);
    } else {
      assert RowTargets(g, n, x) == {};
    }
  }

  ghost function Occurring(xs: seq<nat>, lo: nat, hi: nat, n: nat): set<nat>
    requires lo <= hi <= |xs|
  {
    set v: nat | v < n && Occurrences(xs, lo, hi, v) > 0
  }

  lemma {:induction false} OccurringBound(xs: seq<nat>, lo: nat, hi: nat, n: nat)
    requires lo <= hi <= |xs|
    ensures |Occurring(xs, lo, hi, n)| <= hi - lo
    decreases hi
  {
    if lo == hi {
      assert Occurring(xs, lo, hi, n) == {};
    } else {
      OccurringBound(xs, lo, hi - 1, n);
      SubsetCard(Occurring(xs, lo, hi, n), Occurring(xs, lo, hi - 1, n) + {xs[hi - 1]});
    }
  }

  // Main step: a round moves at most as many vertices as it scans arcs.
  lemma RoundMovesBound(g: Csr, s: State)
    requires ValidState(s) && s.queue != []
    ensures |Moved(s.col, Round(g, s).col)| <= Rows(g, Class(s.col, s.queue[0]))
  {
    var deg := Degrees(g, s.col, s.queue[0]);
    RoundMoves(g, s);
    SubsetCard(Moved(s.col, Round(g, s).col), Positive(deg));
    assert Positive(deg) == Targets(g, |s.col|, Class(s.col, s.queue[0]));
    TargetsBound(g, |s.col|, Class(s.col, s.queue[0]));
  }

  // ----- the whole run -----

  ghost function Moves(g: Csr, s: State): nat
    requires ValidState(s)
    decreases |s.col| - s.k, |s.queue|
  {
    if s.queue == [] then 0
    else
      RoundProgress(g, s);
      DenseBound(s.col, s.k);
      DenseBound(Round(g, s).col, Round(g, s).k);
      |Moved(s.col, Round(g, s).col)| + Moves(g, Round(g, s))
  }

  lemma {:induction false} MovesBelowScans(g: Csr, s: State)
    requires ValidState(s)
    ensures Moves(g, s) <= Scans(g, Trace(g, s))
    decreases |s.col| - s.k, |s.queue|
  {
    hide Round, Rows;
    if s.queue != [] {
      RoundProgress(g, s);
      DenseBound(s.col, s.k);
      DenseBound(Round(g, s).col, Round(g, s).k);
      RoundMovesBound(g, s);
      MovesBelowScans(g, Round(g, s));
      var trace := Trace(g, s);
      assert trace[0] == Class(s.col, s.queue[0]) && trace[1..] == Trace(g, Round(g, s));
    }
  }

  // Main theorem: a whole run moves vertices at most (floor(log2 n) + 1) * m times.
  lemma MovesBounded(g: Csr, colours: seq<int>)
    requires g.Valid() && g.n > 1
    requires |colours| == g.n || colours == []
    ensures ValidState(Start(Given(g.n, colours)))
    ensures Moves(g, Start(Given(g.n, colours))) <= (Bits.Log2(g.n) + 1) * ArcCount(g)
  {
    StartValid(Given(g.n, colours));
    MovesBelowScans(g, Start(Given(g.n, colours)));
    ScansBounded(g, colours);
    assert RunTrace(g, colours) == Trace(g, Start(Given(g.n, colours)));
  }
}
