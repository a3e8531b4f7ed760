// The "all but the largest piece" rule: each vertex is in a popped splitter at most log2(n) + 1 times.
module Wl1Cost {
  import opened Sums
  import opened Refinement
  import opened Wl1Spec
  import opened Wl1Theory
  import opened Bits

  // The vertex sets popped during the run, in order.
  ghost function Trace(g: Csr, s: State): seq<set<nat>>
    requires ValidState(s)
    decreases |s.col| - s.k, |s.queue|
  {
    if s.queue == [] then []
    else
      RoundProgress(g, s);
      DenseBound(s.col, s.k);
      DenseBound(Round(g, s).col, Round(g, s).k);
      [Class(s.col, s.queue[0])] + Trace(g, Round(g, s))
  }

  ghost function Pops(trace: seq<set<nat>>, v: nat): nat {
    if trace == [] then 0 else (if v in trace[0] then 1 else 0) + Pops(trace[1..], v)
  }

  // After h pops of v: its class has at most n / 2^h vertices if queued, 2n / 2^h if not.
  ghost predicate Affordable(s: State, v: nat, h: nat)
    requires v < |s.col|
  {
    Pow2(h) * |Class(s.col, s.col[v])| <= (if s.col[v] in s.queue then 1 else 2) * |s.col|
  }

  // A piece that enters the queue is at most half of the class it came from.
  lemma NewPieceHalved(s: State, deg: seq<nat>, c: nat, v: nat)
    requires ValidState(s) && |deg| == |s.col| && c < s.k && v < |s.col|
    requires Divided(s, deg, c) && s.col[v] == c && c !in s.queue
    requires SplitOne(s, deg, c).col[v] in SplitOne(s, deg, c).queue
    ensures 2 * |Class(SplitOne(s, deg, c).col, SplitOne(s, deg, c).col[v])| <= |Class(s.col, c)|
  {
    var t := SplitOne(s, deg, c);
    hide SplitOne, PlanFor;
    var spared := SplitOneRequeues(s, deg, c);
    var u :| u in Class(s.col, c) && t.col[u] == spared;
    ClassShrinks(s, deg, c, u);
    ClassShrinks(s, deg, c, v);
    assert v in Class(s.col, c);
    assert t.col[v] in Pieces(s.col, t.col, c);
    DisjointHalves(Class(t.col, t.col[v]), Class(t.col, spared), Class(s.col, c));
  }

  lemma QueueOnlyGains(s: State, deg: seq<nat>, c: nat, v: nat)
    requires ValidState(s) && |deg| == |s.col| && c < s.k && v < |s.col|
    requires Divided(s, deg, c)
    ensures var t := SplitOne(s, deg, c);
            && (s.col[v] in s.queue ==> t.col[v] in t.queue)
            && (s.col[v] != c ==> Class(t.col, t.col[v]) <= Class(s.col, s.col[v])
                                  && (t.col[v] in t.queue ==> s.col[v] in s.queue))
  {
    var t := SplitOne(s, deg, c);
    hide SplitOne, PlanFor;
    var spared := SplitOneRequeues(s, deg, c);
    SplitOneColour(s, deg, c, v);
    ClassShrinks(s, deg, c, v);
    if s.col[v] in s.queue {
      assert s.col[v] in Elems(s.queue);
      if s.col[v] == c {
        assert v in Class(s.col, c);
        assert t.col[v] in Pieces(s.col, t.col, c);
      }
      assert t.col[v] in Elems(t.queue);
    }
  }

  lemma SplitOneAffordable(s: State, deg: seq<nat>, c: nat, v: nat, h: nat)
    requires ValidState(s) && |deg| == |s.col| && c < s.k && v < |s.col|
    requires Affordable(s, v, h)
    ensures Affordable(SplitOne(s, deg, c), v, h)
  {
    var t := SplitOne(s, deg, c);
    hide SplitOne;
    if !Divided(s, deg, c) {
      UndividedSame(s, deg, c);
    } else {
      hide PlanFor;
      var before, after := |Class(s.col, s.col[v])|, |Class(t.col, t.col[v])|;
      ClassShrinks(s, deg, c, v);
      QueueOnlyGains(s, deg, c, v);
      ScaledLeq(Pow2(h), after, before);
      if s.col[v] == c && c !in s.queue && t.col[v] in t.queue {
        NewPieceHalved(s, deg, c, v);
        ScaledLeq(Pow2(h), 2 * after, before);
        assert Pow2(h) * (2 * after) == 2 * (Pow2(h) * after);
      }
    }
  }

  lemma ClassShrinks(s: State, deg: seq<nat>, c: nat, v: nat)
    requires ValidState(s) && |deg| == |s.col| && c < s.k && v < |s.col|
    requires Divided(s, deg, c)
    ensures var t := SplitOne(s, deg, c);
            && Class(t.col, t.col[v]) <= Class(s.col, s.col[v])
            && |Class(t.col, t.col[v])| <= |Class(s.col, s.col[v])|
  {
    SplitOneRefines(s, deg, c);
    SubsetCard(Class(SplitOne(s, deg, c).col, SplitOne(s, deg, c).col[v]), Class(s.col, s.col[v]));
  }

  lemma {:induction false} SplitUpToAffordable(s: State, deg: seq<nat>, c: nat, v: nat, h: nat)
    requires ValidState(s) && |deg| == |s.col| && c <= s.k && v < |s.col|
    requires Affordable(s, v, h)
    ensures Affordable(SplitUpTo(s, deg, c), v, h)
  {
    hide SplitOne;
    if c > 0 {
      SplitUpToAffordable(s, deg, c - 1, v, h);
      SplitUpToProgress(s, deg, c - 1);
      SplitOneAffordable(SplitUpTo(s, deg, c - 1), deg, c - 1, v, h);
    }
  }

  lemma RoundAffordable(g: Csr, s: State, v: nat, h: nat)
    requires ValidState(s) && s.queue != [] && v < |s.col|
    requires Affordable(s, v, h)
    ensures v in Class(s.col, s.queue[0]) ==> Pow2(h) <= |s.col|
    ensures Affordable(Round(g, s), v, if v in Class(s.col, s.queue[0]) then h + 1 else h)
  {
    hide SplitUpTo;
    var cls := Class(s.col, s.col[v]);
    var popped := v in Class(s.col, s.queue[0]);
    PoppedValid(s);
    assert s.col[v] in Elems(s.queue) <==> s.col[v] in s.queue;
    assert s.col[v] in Elems(Popped(s).queue) <==> s.col[v] in Popped(s).queue;
    if popped {
      assert |cls| >= 1 by { assert v in cls; }
      ScaledLeq(Pow2(h), 1, |cls|);
      assert Pow2(h + 1) * |cls| == 2 * (Pow2(h) * |cls|);
    }
    SplitUpToAffordable(Popped(s), Degrees(g, s.col, s.queue[0]), s.k, v, if popped then h + 1 else h);
  }

  lemma {:induction false} PopsFrom(g: Csr, s: State, v: nat, h: nat)
    requires ValidState(s) && v < |s.col|
    requires Affordable(s, v, h) && h <= Log2(|s.col|) + 1
    ensures h + Pops(Trace(g, s), v) <= Log2(|s.col|) + 1
    decreases |s.col| - s.k, |s.queue|
  {
    hide Round;
    if s.queue != [] {
      RoundProgress(g, s);
      DenseBound(s.col, s.k);
      DenseBound(Round(g, s).col, Round(g, s).k);
      RoundAffordable(g, s, v, h);
      if v in Class(s.col, s.queue[0]) {
        Log2Bound(|s.col|, h);
        PopsFrom(g, Round(g, s), v, h + 1);
      } else {
        PopsFrom(g, Round(g, s), v, h);
      }
    }
  }

  // The pops of a whole run on the given colours.
  ghost function RunTrace(g: Csr, colours: seq<int>): seq<set<nat>>
    requires |colours| == g.n || colours == []
  {
    if g.n <= 1 then []
    else
      StartValid(Given(g.n, colours));
      Trace(g, Start(Given(g.n, colours)))
  }

  // Main theorem: a vertex is in a popped splitter at most floor(log2 n) + 1 times.
  lemma PopsLogarithmic(g: Csr, colours: seq<int>, v: nat)
    requires |colours| == g.n || colours == []
    requires v < g.n
    ensures Pops(RunTrace(g, colours), v) <= Log2(g.n) + 1
  {
    if g.n > 1 {
      var init := Given(g.n, colours);
      var s := Start(init);
      StartValid(init);
      assert forall x :: x in Class(s.col, s.col[v]) ==> x in Range(g.n);
      SubsetCard(Class(s.col, s.col[v]), Range(g.n));
      RangeCard(g.n);
      PopsFrom(g, s, v, 0);
    }
  }

  // ----- arcs scanned -----

  ghost function RowLength(g: Csr, v: nat): nat {
    if g.HasRow(v) then g.offsets[v + 1] - g.offsets[v] else 0
  }

  ghost function Rows(g: Csr, s: set<nat>): nat {
    SumNonNegative(s, (v: nat) => RowLength(g, v));
    Sum(s, (v: nat) => RowLength(g, v))
  }

  // Arcs looked at in all: every popped splitter is scanned row by row.
  ghost function Scans(g: Csr, trace: seq<set<nat>>): nat {
    if trace == [] then 0 else Rows(g, trace[0]) + Scans(g, trace[1..])
  }

  // The work done at v: its row is scanned once for every pop.
  ghost function Work(g: Csr, trace: seq<set<nat>>, v: nat): nat {
    Pops(trace, v) * RowLength(g, v)
  }

  lemma WorkStep(g: Csr, trace: seq<set<nat>>, v: nat)
    requires trace != []
    ensures Work(g, trace, v) == (if v in trace[0] then RowLength(g, v) else 0) + Work(g, trace[1..], v)
  {
  }

  // Adding the rows of one popped set to a sum over all vertices.
  lemma AddRows(g: Csr, head: set<nat>, all: set<nat>, f: nat -> int, h: nat -> int)
    requires head <= all
    requires forall v :: v in all ==> f(v) == (if v in head then RowLength(g, v) else 0) + h(v)
    ensures Sum(all, f) == Rows(g, head) + Sum(all, h)
  {
    var row := (v: nat) => RowLength(g, v);
    SumSplit(all, head, f);
    SumSplit(all, head, h);
    SumCongruence(all - head, f, h);
    SumPlus(head, row, h, f);
  }

  lemma {:induction false} ScansByVertex(g: Csr, trace: seq<set<nat>>)
    requires forall i :: 0 <= i < |trace| ==> trace[i] <= Range(g.n)
    ensures Scans(g, trace) == Sum(Range(g.n), (v: nat) => Work(g, trace, v))
  {
    var all := Range(g.n);
    var f := (v: nat) => Work(g, trace, v);
    if trace == [] {
      SumZero(all, f);
    } else {
      var rest := trace[1..];
      ScansByVertex(g, rest);
      var h := (v: nat) => Work(g, rest, v);
      forall v | v in all ensures f(v) == (if v in trace[0] then RowLength(g, v) else 0) + h(v) {
        WorkStep(g, trace, v);
      }
      AddRows(g, trace[0], all, f, h);
    }
  }

  lemma {:induction false} TraceInRange(g: Csr, s: State)
    requires ValidState(s)
    ensures forall i :: 0 <= i < |Trace(g, s)| ==> Trace(g, s)[i] <= Range(|s.col|)
    decreases |s.col| - s.k, |s.queue|
  {
    hide Round;
    if s.queue != [] {
      RoundProgress(g, s);
      DenseBound(s.col, s.k);
      DenseBound(Round(g, s).col, Round(g, s).k);
      TraceInRange(g, Round(g, s));
    }
  }

  lemma Factor(a: int, x: int, y: int)
    ensures a * (x + y) == a * x + a * y
  {
  }

  lemma {:induction false} SumScaled(s: set<nat>, f: nat -> int, h: nat -> int, a: int)
    requires forall x :: x in s ==> h(x) == a * f(x)
    ensures Sum(s, h) == a * Sum(s, f)
    decreases |s|
  {
    if s != {} {
      var x := Pick(s);
      SumRemove(s, f, x);
      SumRemove(s, h, x);
      SumScaled(s - {x}, f, h, a);
      hide Sum;
      Factor(a, f(x), Sum(s - {x}, f));
    }
  }

  // All the rows together are the arcs of the graph.
  lemma {:induction false} RowsTelescope(g: Csr, k: nat)
    requires g.Valid() && k <= g.n
    ensures g.offsets[k] == g.offsets[0] + Rows(g, Range(k))
  {
    if k > 0 {
      RowsTelescope(g, k - 1);
      assert g.HasRow(k - 1);
      SumAdd(Range(k - 1), (v: nat) => RowLength(g, v), k - 1);
    }
  }

  // The number of arcs, parallel arcs counted separately.
  ghost function ArcCount(g: Csr): int
    requires g.Valid()
  {
    g.offsets[g.n] as int - g.offsets[0] as int
  }

  // Main theorem: a run scans at most (floor(log2 n) + 1) * m arcs, m being the number of arcs.
  lemma ScansBounded(g: Csr, colours: seq<int>)
    requires g.Valid() && g.n > 0
    requires |colours| == g.n || colours == []
    ensures Scans(g, RunTrace(g, colours)) <= (Log2(g.n) + 1) * ArcCount(g)
  {
    hide Rows, Scans, RunTrace;
    ScansInRows(g, colours);
    RowsTelescope(g, g.n);
  }

  lemma ScansInRows(g: Csr, colours: seq<int>)
    requires g.n > 0
    requires |colours| == g.n || colours == []
    ensures Scans(g, RunTrace(g, colours)) <= (Log2(g.n) + 1) * Rows(g, Range(g.n))
  {
    var trace, all := RunTrace(g, colours), Range(g.n);
    var bound := Log2(g.n) + 1;
    assert forall i :: 0 <= i < |trace| ==> trace[i] <= all by {
      if g.n > 1 {
        StartValid(Given(g.n, colours));
        TraceInRange(g, Start(Given(g.n, colours)));
      }
    }
    ScansByVertex(g, trace);
    WorkBounded(g, colours, bound);
  }

  lemma WorkBounded(g: Csr, colours: seq<int>, bound: nat)
    requires g.n > 0 && bound == Log2(g.n) + 1
    requires |colours| == g.n || colours == []
    ensures Sum(Range(g.n), (v: nat) => Work(g, RunTrace(g, colours), v)) <= bound * Rows(g, Range(g.n))
  {
    var trace, all := RunTrace(g, colours), Range(g.n);
    hide RunTrace;
    var row := (v: nat) => RowLength(g, v);
    var most := (v: nat) => bound * RowLength(g, v);
    forall v | v in all
      ensures Work(g, trace, v) <= most(v)
    {
      PopsLogarithmic(g, colours, v);
      ScaledLeq(RowLength(g, v), Pops(trace, v), bound);
    }
    SumMonotone(all, (v: nat) => Work(g, trace, v), most);
    SumScaled(all, row, most, bound);
  }
}
