// On which digraphs the refinement in place of dense graphs is equitable: the failing inputs, and the
// exact condition.
module RefinementLimits {
  import opened Sums
  import opened Graphs
  import opened GroupOrbits
  import opened Refinement
  import opened Nests
  import opened NestRefinement
  import opened NestCost
  import opened PassSteps
  import opened CutRuns
  import opened RefineInPlace

  lemma NotEquitable(wt: Weights, col: seq<nat>, u: nat, v: nat, c: nat)
    requires u < |col| && v < |col| && col[u] == col[v] && !Agree(wt, Class(col, c), u, v)
    ensures !Equitable(wt, col)
  {
    assert !AgreeAll(wt, col, u, v);
  }

  // ----- a digraph that fails from all cells -----

  // The cells are {0}, {1, 2} and {3, 4}. No arc leaves 0, and the vertices of each cell have equally
  // many arcs to {1, 2} and to {3, 4}, so nothing is cut; but 1 and 2 differ in their arcs to {0} and in
  // their arcs from {3, 4}.
  function Missed(): Graph {
    [{}, {0}, {}, {1}, {1}]
  }

  function MissedCells(): seq<nat> {
    [0, 1, 1, 3, 3]
  }

  lemma MissedClasses()
    ensures var col := MissedCells();
      Class(col, 0) == {0} && Class(col, 1) == {1, 2} && Class(col, 3) == {3, 4}
  {
  }

  lemma RowsAgree(g: Graph, s: set<nat>, u: nat, v: nat, a: set<nat>, b: set<nat>)
    requires u < |g| && v < |g| && a == s * g[u] && b == s * g[v]
    ensures Agree(RowWeights(g), s, u, v) <==> |a| == |b|
  {
    CountIsOverlap(g, s, u);
    CountIsOverlap(g, s, v);
  }

  lemma ArcsAgree(g: Graph, s: set<nat>, u: nat, v: nat, a: set<nat>, b: set<nat>)
    requires a == Into(g, s, u) && b == Into(g, s, v)
    ensures Agree(ArcWeights(g), s, u, v) <==> |a| == |b|
  {
    CountIsInto(g, s, u);
    CountIsInto(g, s, v);
  }

  lemma MissedRows()
    ensures var g := Missed();
      && Agree(RowWeights(g), {1, 2}, 1, 2) && Agree(RowWeights(g), {1, 2}, 3, 4)
      && Agree(RowWeights(g), {3, 4}, 1, 2) && Agree(RowWeights(g), {3, 4}, 3, 4)
      && !Agree(RowWeights(g), {0}, 1, 2)
  {
    var g := Missed();
    RowsAgree(g, {1, 2}, 1, 2, {}, {});
    RowsAgree(g, {1, 2}, 3, 4, {1}, {1});
    RowsAgree(g, {3, 4}, 1, 2, {}, {});
    RowsAgree(g, {3, 4}, 3, 4, {}, {});
    RowsAgree(g, {0}, 1, 2, {0}, {});
  }

  lemma MissedArcs()
    ensures var g := Missed();
      && Agree(ArcWeights(g), {0}, 1, 2) && Agree(ArcWeights(g), {0}, 3, 4)
      && !Agree(ArcWeights(g), {3, 4}, 1, 2)
  {
    var g := Missed();
    ArcsAgree(g, {0}, 1, 2, {}, {});
    ArcsAgree(g, {0}, 3, 4, {}, {});
    ArcsAgree(g, {3, 4}, 1, 2, {3, 4}, {});
  }

  // Two classes of two vertices each, and one of a single vertex.
  lemma PairsQuiet(g: Graph, w: set<nat>)
    requires g == Missed()
    requires CountedAlike(g, w, 1, 2) && CountedAlike(g, w, 3, 4)
    ensures Quiet(g, w, MissedCells())
  {
    var col := MissedCells();
    forall u: nat, v: nat | u < 5 && v < 5 && col[u] == col[v] ensures CountedAlike(g, w, u, v) {
      assert u == v || (u == 1 && v == 2) || (u == 2 && v == 1) || (u == 3 && v == 4) || (u == 4 && v == 3);
    }
  }

  lemma MissedUndisturbed()
    ensures Undisturbed(Missed(), MissedCells(), {0, 1, 3})
    ensures !Equitable(RowWeights(Missed()), MissedCells()) && !Equitable(ArcWeights(Missed()), MissedCells())
  {
    var g, col := Missed(), MissedCells();
    MissedClasses();
    MissedRows();
    MissedArcs();
    hide Agree, Class, Quiet, Equitable;
    PairsQuiet(g, {0});
    PairsQuiet(g, {1, 2});
    PairsQuiet(g, {3, 4});
    NotEquitable(RowWeights(g), col, 1, 2, 0);
    NotEquitable(ArcWeights(g), col, 1, 2, 3);
  }

  // All cells are active.
  function MissedStart(): Part {
    Part([0, 1, 2, 3, 4], [0, 1, 0, 1, 0], {0, 1, 3}, 3)
  }

  lemma MissedNest(s: Part)
    requires s == MissedStart()
    ensures PartOk(5, 0, s) && ColOf(5, 0, s) == MissedCells() && s.active == Starts(s.ptn, 0)
  {
    assert Starts(s.ptn, 0) == {0, 1, 3};
    assert PartOk(5, 0, s);
    var col := ColOf(5, 0, s);
    forall v: nat | v < 5 ensures col[v] == MissedCells()[v] {
      ColAt(5, s.lab, s.ptn, 0, v);
      assert s.lab[v] == v;
      MissedStarts(s.ptn, v);
    }
  }

  lemma MissedStarts(ptn: seq<int>, v: nat)
    requires ptn == [0, 1, 0, 1, 0] && v < 5
    ensures StartOf(ptn, 0, v) == MissedCells()[v]
  {
    StartInBlock(ptn, 0, MissedCells()[v], v);
  }

  // Whatever the refinement promises, from here its result is equitable in neither direction, although all
  // cells were active.
  lemma DigraphMissed(t: Part)
    requires RefinementSound(Missed(), 0, MissedStart(), t)
    ensures PartOk(5, 0, MissedStart()) && MissedStart().active == Starts(MissedStart().ptn, 0)
    ensures PartOk(5, 0, t) && ColOf(5, 0, t) == MissedCells()
    ensures !Equitable(RowWeights(Missed()), ColOf(5, 0, t)) && !Equitable(ArcWeights(Missed()), ColOf(5, 0, t))
  {
    hide *;
    MissedNest(MissedStart());
    MissedIsGraph();
    MissedUndisturbed();
    MissedActive();
    SoundQuiet(Missed(), 0, MissedStart(), t);
  }

  lemma MissedActive()
    ensures MissedStart().active == {0, 1, 3}
  {
  }

  lemma MissedIsGraph()
    ensures |Missed()| == 5 && ValidGraph(Missed())
  {
  }

  lemma SoundQuiet(g: Graph, level: int, s: Part, t: Part)
    requires RefinementSound(g, level, s, t)
    requires PartOk(|g|, level, s) && Undisturbed(g, ColOf(|g|, level, s), s.active)
    ensures PartOk(|g|, level, t) && ColOf(|g|, level, t) == ColOf(|g|, level, s)
  {
  }

  // ----- every digraph that is not telling fails from some correct active set -----

  // The first vertex of the list points to the next two alike, and just one of them points to it.
  ghost predicate Untold(g: Graph, p: seq<nat>) {
    && Permutation(|g|, p) && |g| >= 3
    && (p[1] in g[p[0]] <==> p[2] in g[p[0]]) && (p[0] in g[p[1]] <==> p[0] !in g[p[2]])
  }

  lemma NotTelling(g: Graph) returns (p: seq<nat>)
    requires !Telling(g)
    ensures Untold(g, p)
  {
    var w: nat :| w < |g| && !TellingAt(g, w);
    var u: nat, v: nat :| u < |g| && v < |g| && u != w && v != w
      && (u in g[w] <==> v in g[w]) && !(w in g[u] <==> w in g[v]);
    p := ThreeFirst(|g|, w, u, v);
  }

  lemma ThreeFirst(n: nat, w: nat, u: nat, v: nat) returns (p: seq<nat>)
    requires w < n && u < n && v < n && u != w && v != w && u != v
    ensures n >= 3 && Permutation(n, p) && p[0] == w && p[1] == u && p[2] == v
  {
    AtLeastThree(n, w, u, v);
    p := seq(n, i requires 0 <= i < n => i);
    p := Bring(n, p, 0, w);
    p := Bring(n, p, 1, u);
    p := Bring(n, p, 2, v);
  }

  lemma AtLeastThree(n: nat, w: nat, u: nat, v: nat)
    requires w < n && u < n && v < n && u != w && v != w && u != v
    ensures n >= 3
  {
  }

  // Swap v to position i; entries before it that are not v stay.
  lemma Bring(n: nat, p: seq<nat>, i: nat, v: nat) returns (q: seq<nat>)
    requires Permutation(n, p) && i < n && v < n && forall k :: 0 <= k < i ==> p[k] != v
    ensures Permutation(n, q) && q[i] == v && forall k :: 0 <= k < i ==> q[k] == p[k]
  {
    var j := PermutationOnto(n, p, v);
    SwapPermutes(n, p, i, j);
    q := p[i := p[j]][j := p[i]];
  }

  // The second and third vertex share a cell, all others are alone.
  ghost function PairCells(n: nat, p: seq<nat>): (col: seq<nat>)
    requires Permutation(n, p) && n >= 3
    ensures |col| == n
  {
    seq(n, v requires 0 <= v < n => if Preimage(n, p, v) == 2 then 1 else Preimage(n, p, v))
  }

  lemma PairCellsAt(n: nat, p: seq<nat>, i: nat)
    requires Permutation(n, p) && n >= 3 && i < n
    ensures p[i] < n && PairCells(n, p)[p[i]] == if i == 2 then 1 else i
  {
    assert p[Preimage(n, p, p[i])] == p[i];
  }

  lemma SamePair(n: nat, p: seq<nat>, u: nat, v: nat)
    requires Permutation(n, p) && n >= 3 && u < n && v < n && PairCells(n, p)[u] == PairCells(n, p)[v]
    ensures u == v || (u == p[1] && v == p[2]) || (u == p[2] && v == p[1])
  {
    var i, j := Preimage(n, p, u), Preimage(n, p, v);
    assert p[i] == u && p[j] == v;
  }

  lemma FirstAlone(n: nat, p: seq<nat>)
    requires Permutation(n, p) && n >= 3
    ensures Class(PairCells(n, p), 0) == {p[0]}
  {
    PairCellsAt(n, p, 0);
    forall v: nat | v < n && PairCells(n, p)[v] == 0 ensures v == p[0] {
      assert p[Preimage(n, p, v)] == v;
    }
  }

  lemma PairNest(n: nat, p: seq<nat>, s: Part)
    requires Permutation(n, p) && n >= 3
    requires s == Part(p, seq(n, i requires 0 <= i < n => if i == 1 then 1 else 0), {0}, n - 1)
    ensures PartOk(n, 0, s) && ColOf(n, 0, s) == PairCells(n, p)
  {
    var starts := Starts(s.ptn, 0);
    assert starts == Range(n) - {2};
    RangeCard(n);
    assert PartOk(n, 0, s);
    var col := ColOf(n, 0, s);
    forall v: nat | v < n ensures col[v] == PairCells(n, p)[v] {
      var i := Preimage(n, p, v);
      ColAt(n, p, s.ptn, 0, i);
      PairStart(n, s.ptn, i);
    }
  }

  lemma PairStart(n: nat, ptn: seq<int>, i: nat)
    requires n >= 3 && ptn == seq(n, i requires 0 <= i < n => if i == 1 then 1 else 0) && i < n
    ensures StartOf(ptn, 0, i) == if i == 2 then 1 else i
  {
    StartInBlock(ptn, 0, if i == 2 then 1 else i, i);
  }

  // The active set {0} is correct, its cell cuts nothing, and the partition is not equitable.
  lemma UntoldFails(g: Graph, p: seq<nat>)
    requires Untold(g, p)
    ensures QueueInv(RowWeights(g), PairCells(|g|, p), {0})
    ensures Undisturbed(g, PairCells(|g|, p), {0})
    ensures !Equitable(RowWeights(g), PairCells(|g|, p))
  {
    var n, col, wt := |g|, PairCells(|g|, p), RowWeights(g);
    FirstAlone(n, p);
    PairCellsAt(n, p, 1);
    PairCellsAt(n, p, 2);
    SingleCounts(g, p[0], p[1], p[2]);
    hide PairCells, Permutation, Telling;
    forall u: nat, v: nat | u < n && v < n && col[u] == col[v] && AgreeOn(wt, col, {0}, u, v)
      ensures AgreeAll(wt, col, u, v)
    {
      SamePair(n, p, u, v);
      assert Agree(wt, Class(col, 0), u, v);
    }
    forall u: nat, v: nat | u < n && v < n && col[u] == col[v] ensures CountedAlike(g, {p[0]}, u, v) {
      SamePair(n, p, u, v);
    }
    assert Quiet(g, Class(col, 0), col);
    NotEquitable(wt, col, p[1], p[2], 0);
  }

  // Given vertices for which a digraph is not telling, this is a correct start from which no result that
  // the refinement may have is equitable, and from which it may have one.
  lemma UntoldMissed(g: Graph, p: seq<nat>) returns (start: Part)
    requires Untold(g, p)
    ensures PartOk(|g|, 0, start) && QueueInv(RowWeights(g), ColOf(|g|, 0, start), start.active)
    ensures forall t: Part :: RefinementSound(g, 0, start, t) ==>
      PartOk(|g|, 0, t) && !Equitable(RowWeights(g), ColOf(|g|, 0, t))
    ensures RefinementSound(g, 0, start, start)
  {
    start := Part(p, seq(|g|, i requires 0 <= i < |g| => if i == 1 then 1 else 0), {0}, |g| - 1);
    NotTellingUntold(g, p);
    hide *;
    UntoldParts(g, p);
    PairNest(|g|, p, start);
    UntoldFails(g, p);
    forall t: Part | RefinementSound(g, 0, start, t)
      ensures PartOk(|g|, 0, t) && !Equitable(RowWeights(g), ColOf(|g|, 0, t))
    {
      SoundQuiet(g, 0, start, t);
    }
    SoundItself(g, 0, start);
  }

  lemma NotTellingUntold(g: Graph, p: seq<nat>)
    requires Untold(g, p)
    ensures !Telling(g) && !Mirrored(g)
  {
    assert !TellingAt(g, p[0]);
    if Mirrored(g) { MirroredIsTelling(g); }
  }

  lemma SoundItself(g: Graph, level: int, s: Part)
    requires PartOk(|g|, level, s) && !Telling(g) && !Mirrored(g)
    ensures RefinementSound(g, level, s, s)
  {
    hide Telling, Mirrored, PartOk, ColOf;
    FinerItself(s.ptn, level);
  }

  // Main theorem: what the refinement promises makes its result equitable from every correct active set
  // exactly when the digraph is telling.
  lemma EquitableExactly(g: Graph)
    ensures Telling(g) <==>
      forall level: int, s: Part, t: Part :: RefinementSound(g, level, s, t) && Correct(g, level, s) ==>
        Settled(g, level, t)
  {
    if Telling(g) {
      forall level: int, s: Part, t: Part | RefinementSound(g, level, s, t) && Correct(g, level, s)
        ensures Settled(g, level, t)
      {
        hide Telling, QueueInv, ColOf, PartOk, Equitable, CutsNone;
      }
    } else {
      var p := NotTelling(g);
      var start := UntoldMissed(g, p);
      assert Correct(g, 0, start) && RefinementSound(g, 0, start, start) && !Settled(g, 0, start);
    }
  }

  ghost predicate Correct(g: Graph, level: int, s: Part) {
    PartOk(|g|, level, s) && QueueInv(RowWeights(g), ColOf(|g|, level, s), s.active)
  }

  ghost predicate Settled(g: Graph, level: int, t: Part) {
    PartOk(|g|, level, t) && Equitable(RowWeights(g), ColOf(|g|, level, t))
  }

  lemma UntoldParts(g: Graph, p: seq<nat>)
    requires Untold(g, p)
    ensures Permutation(|g|, p) && |g| >= 3 && |p| == |g|
  {
  }

  // ----- telling is not needed from every start -----

  // The directed cycle of four vertices is not telling, but from the unit partition it is left whole,
  // and that is equitable.
  lemma FourCycle() returns (g: Graph)
    ensures ValidGraph(g) && !Telling(g)
    ensures Undisturbed(g, [0, 0, 0, 0], {0}) && Equitable(RowWeights(g), [0, 0, 0, 0])
  {
    g := [{1}, {2}, {3}, {0}];
    assert !TellingAt(g, 0) by { assert 2 !in g[0] && 3 !in g[0] && 0 !in g[2] && 0 in g[3]; }
    FourCounts(g);
  }

  lemma OneClass(g: Graph, u: nat, v: nat)
    requires |g| == 4 && u < 4 && v < 4 && Agree(RowWeights(g), {0, 1, 2, 3}, u, v)
    ensures AgreeAll(RowWeights(g), [0, 0, 0, 0], u, v)
  {
    var col: seq<nat> := [0, 0, 0, 0];
    forall c: nat ensures Agree(RowWeights(g), Class(col, c), u, v) {
      if c == 0 {
        assert Class(col, 0) == {0, 1, 2, 3};
      } else {
        assert Class(col, c) == {};
        CountIsOverlap(g, {}, u);
        CountIsOverlap(g, {}, v);
      }
    }
  }

  lemma FourRow(g: Graph, u: nat)
    requires g == [{1}, {2}, {3}, {0}] && u < 4
    ensures Count(RowWeights(g), {0, 1, 2, 3}, u) == 1
  {
    CountIsOverlap(g, {0, 1, 2, 3}, u);
    assert {0, 1, 2, 3} * g[u] == g[u];
  }

  lemma FourCounts(g: Graph)
    requires g == [{1}, {2}, {3}, {0}]
    ensures Undisturbed(g, [0, 0, 0, 0], {0}) && Equitable(RowWeights(g), [0, 0, 0, 0])
  {
    hide *;
    forall u: nat, v: nat | u < 4 && v < 4 ensures Agree(RowWeights(g), {0, 1, 2, 3}, u, v) {
      FourRow(g, u);
      FourRow(g, v);
      AgreeIs(RowWeights(g), {0, 1, 2, 3}, u, v);
    }
    forall u: nat, v: nat | u < 4 && v < 4 ensures AgreeAll(RowWeights(g), [0, 0, 0, 0], u, v) {
      OneClass(g, u, v);
    }
    UnitEquitable(RowWeights(g));
    UnitQuiet(g);
  }

  lemma AgreeIs(wt: Weights, s: set<nat>, u: nat, v: nat)
    ensures Agree(wt, s, u, v) <==> Count(wt, s, u) == Count(wt, s, v)
  {
  }

  lemma UnitEquitable(wt: Weights)
    requires forall u: nat, v: nat :: u < 4 && v < 4 ==> AgreeAll(wt, [0, 0, 0, 0], u, v)
    ensures Equitable(wt, [0, 0, 0, 0])
  {
  }

  lemma UnitQuiet(g: Graph)
    requires forall u: nat, v: nat :: u < 4 && v < 4 ==> Agree(RowWeights(g), {0, 1, 2, 3}, u, v)
    ensures Undisturbed(g, [0, 0, 0, 0], {0})
  {
    var col: seq<nat>, all: set<nat> := [0, 0, 0, 0], {0, 1, 2, 3};
    hide Agree;
    assert Class(col, 0) == all && |all| == 4;
    assert Quiet(g, all, col);
  }
}
