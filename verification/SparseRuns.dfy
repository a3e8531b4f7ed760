// What the refinement of a sparse graph or digraph does step by step, and what it ends with.
module SparseRuns {
  import opened Sums
  import opened Graphs
  import opened GroupOrbits
  import opened Refinement
  import opened Nests
  import opened NestRefinement
  import opened NestCost
  import opened PassSteps
  import opened QueueOrder
  import opened QueuePasses
  import opened Distances

  // ----- the keys -----

  // The arcs that lead from w.
  ghost function ArcKey(g: Graph, w: set<nat>): Key {
    (x: nat) => Count(ArcWeights(g), w, x)
  }

  ghost function FarKey(g: Graph, v0: nat): Key {
    (x: nat) => Far(g, v0, x)
  }

  // The guard of the division by distance: a single active cell, of a single vertex, and few cells.
  ghost predicate DistanceFirst(n: nat, level: int, s: Part) {
    && level <= 2 && |s.active| == 1 && s.numcells <= n / 8
    && forall d :: d in s.active ==> d < |s.ptn| && s.ptn[d] <= level
  }

  // What the cell is used by: the first one, if the guard holds, by the distance from its vertex, and
  // every other one by the arcs that leave it.
  ghost function SparseKey(g: Graph, level: int, start: bool, s: Part, cell: nat): Key
    requires PartOk(|g|, level, s) && cell in s.active
  {
    if start && DistanceFirst(|g|, level, s) then FarKey(g, s.lab[cell])
    else ArcKey(g, Class(ColOf(|g|, level, s), cell))
  }

  ghost predicate SparseStep(g: Graph, level: int, start: bool, s: Part, cell: nat, t: Part) {
    && PartOk(|g|, level, s) && cell in s.active
    && Step(LastOfTwo, |g|, level, s, cell, t, SparseKey(g, level, start, s, cell))
  }

  // The vertices of the class of v that fewer arcs lead to from w.
  ghost function FewerFrom(g: Graph, col: seq<nat>, w: set<nat>, v: nat): set<nat>
    requires v < |col| == |g|
  {
    set u: nat | u < |g| && col[u] == col[v] && |Into(g, w, u)| < |Into(g, w, v)|
  }

  // How far the piece of a vertex begins behind its class: behind those that fewer arcs lead to from the
  // cell. The one exception is the first cell, when no other is active, it has one vertex, the level is
  // at most 2 and there are at least eight vertices for each cell; then the nearer ones stand in front.
  lemma SparsePlaces(g: Graph, level: int, start: bool, s: Part, cell: nat, t: Part, v: nat)
    requires SparseStep(g, level, start, s, cell, t) && v < |g|
    ensures PartOk(|g|, level, s) && PartOk(|g|, level, t)
    ensures var col, col2 := ColOf(|g|, level, s), ColOf(|g|, level, t);
      var w := Class(col, cell);
      if start && level <= 2 && s.active == {cell} && |w| == 1 && 8 * s.numcells <= |g| then
        forall x :: x in w ==> x < |g| && col2[v] == col[v] + |Nearer(g, col, x, v)|
      else col2[v] == col[v] + |FewerFrom(g, col, w, v)|
  {
    var n := |g|;
    SparseStepParts(g, level, start, s, cell, t);
    var col, col2 := ColOf(n, level, s), ColOf(n, level, t);
    var w, key := Class(col, cell), SparseKey(g, level, start, s, cell);
    StepPlaces(LastOfTwo, n, level, s, cell, t, key, v);
    GuardIs(n, level, s, cell);
    KeyIs(g, level, start, s, cell);
    hide PartOk, SparseStep, ColOf, Count, Far, SparseKey, DistanceFirst;
    if start && DistanceFirst(n, level, s) {
      forall x | x in w ensures x < n && col2[v] == col[v] + |Nearer(g, col, x, v)| {
        ClassOfSingle(n, level, s, cell);
        assert Ahead(col, FarKey(g, x), v) == Nearer(g, col, x, v);
      }
    } else {
      AheadFrom(g, col, w, v);
    }
  }

  // The vertices of the class of v that are nearer to x.
  ghost function Nearer(g: Graph, col: seq<nat>, x: nat, v: nat): set<nat>
    requires v < |col| == |g|
  {
    set u: nat | u < |g| && col[u] == col[v] && Far(g, x, u) < Far(g, x, v)
  }

  lemma SparseStepParts(g: Graph, level: int, start: bool, s: Part, cell: nat, t: Part)
    requires SparseStep(g, level, start, s, cell, t)
    ensures PartOk(|g|, level, s) && PartOk(|g|, level, t) && cell in s.active
    ensures Step(LastOfTwo, |g|, level, s, cell, t, SparseKey(g, level, start, s, cell))
  {
  }

  lemma KeyIs(g: Graph, level: int, start: bool, s: Part, cell: nat)
    requires PartOk(|g|, level, s) && cell in s.active
    ensures SparseKey(g, level, start, s, cell)
      == if start && DistanceFirst(|g|, level, s) then FarKey(g, s.lab[cell])
         else ArcKey(g, Class(ColOf(|g|, level, s), cell))
  {
  }

  lemma GuardIs(n: nat, level: int, s: Part, cell: nat)
    requires PartOk(n, level, s) && cell in s.active
    ensures cell < |s.ptn|
    ensures DistanceFirst(n, level, s)
      <==> level <= 2 && s.active == {cell} && |Class(ColOf(n, level, s), cell)| == 1 && 8 * s.numcells <= n
    ensures DistanceFirst(n, level, s) ==> s.ptn[cell] <= level
  {
    SingleEnd(n, level, s, cell);
    if |s.active| == 1 {
      forall d | d in s.active ensures d == cell {
        OnlyOne(s.active, d, cell);
      }
    }
  }

  lemma AheadFrom(g: Graph, col: seq<nat>, w: set<nat>, v: nat)
    requires v < |col| == |g|
    ensures Ahead(col, ArcKey(g, w), v) == FewerFrom(g, col, w, v)
  {
    hide Count;
    forall u: nat ensures Count(ArcWeights(g), w, u) == |Into(g, w, u)| {
      CountIsInto(g, w, u);
    }
  }

  // A cell of one vertex ends where it begins.
  lemma SingleEnd(n: nat, level: int, s: Part, d: nat)
    requires PartOk(n, level, s) && d in s.active
    ensures d < |s.ptn| && (s.ptn[d] <= level <==> |Class(ColOf(n, level, s), d)| == 1)
  {
    var e := CellExists(s.ptn, level, d);
    CellCard(n, level, s, d, e);
  }

  // ----- the queue -----

  ghost function SingleClasses(col: seq<nat>): set<nat> {
    set d: nat | d < |col| && |Class(col, d)| == 1
  }

  // The cell is taken from its place in the queue q, and the pass leaves the queue q2.
  ghost predicate QueueStep(n: nat, level: int, s: Part, cell: nat, t: Part, q: seq<nat>, q2: seq<nat>) {
    && PartOk(n, level, s) && PartOk(n, level, t) && q != []
    && var i := TakenAt(q, SingleClasses(ColOf(n, level, s)), 0);
       cell == q[i] && q2 == Pushed(ColOf(n, level, s), ColOf(n, level, t), s.active - {cell}, Taken(q, i), n)
  }

  // The queue at the end of a run; it starts with the active cells in ascending order.
  ghost function QueueOf(n: nat, level: int, run: Run): seq<nat> {
    if run.Next? then
      var q := QueueOf(n, level, run.before);
      if PartOk(n, level, run.before.state) && PartOk(n, level, run.state) && q != [] then
        var col := ColOf(n, level, run.before.state);
        Pushed(col, ColOf(n, level, run.state), run.before.state.active - {run.cell},
               Taken(q, TakenAt(q, SingleClasses(col), 0)), n)
      else []
    else InOrder(run.state.active, n)
  }

  // ----- runs -----

  // Every step of the run takes the cell from the queue and cuts along what that cell is used by.
  ghost predicate IsSparseRun(g: Graph, level: int, run: Run) {
    && PartOk(|g|, level, run.state)
    && (run.Next? ==>
        && IsSparseRun(g, level, run.before) && run.before.state.numcells < |g|
        && QueueStep(|g|, level, run.before.state, run.cell, run.state, QueueOf(|g|, level, run.before),
                     QueueOf(|g|, level, run))
        && SparseStep(g, level, run.before.At?, run.before.state, run.cell, run.state))
  }

  // A run from s to t that stopped where the code stops.
  ghost predicate RefinementSg(g: Graph, level: int, s: Part, run: Run, t: Part) {
    IsSparseRun(g, level, run) && First(run) == s && run.state == t && (t.numcells >= |g| || t.active == {})
  }

  // How a step changes the queue q. The cell leaves it, and the last entry moves to its place. All pieces
  // cut off in the step enter at the end in ascending order, whatever their classes; of a class that was
  // not active the first piece stands for the one that is spared.
  lemma QueueGrows(g: Graph, level: int, run: Run)
    requires IsSparseRun(g, level, run) && run.Next?
    ensures PartOk(|g|, level, run.before.state) && PartOk(|g|, level, run.state)
    ensures var q, q2 := QueueOf(|g|, level, run.before), QueueOf(|g|, level, run);
      var col, col2 := ColOf(|g|, level, run.before.state), ColOf(|g|, level, run.state);
      Requeued(col, col2, run.before.state.active - {run.cell}, q, run.cell, q2)
  {
    hide *;
    RunStepParts(g, level, run);
    var n, s, t := |g|, run.before.state, run.state;
    var col, col2, active := ColOf(n, level, s), ColOf(n, level, t), s.active - {run.cell};
    var q, q2 := QueueOf(n, level, run.before), QueueOf(n, level, run);
    var i := TakenFirst(n, level, s, run.cell, t, q, q2);
    StepInside(LastOfTwo, n, level, s, run.cell, t, SparseKey(g, level, run.before.At?, s, run.cell));
    InsideSize(col, col2);
    PushedIs(col, col2, active, Taken(q, i), n);
    AllLater(n, level, s, col2);
    RequeuedMade(col, col2, active, q, i, q2);
  }

  ghost predicate Requeued(col: seq<nat>, col2: seq<nat>, active: set<nat>, q: seq<nat>, cell: nat, q2: seq<nat>) {
    && |col2| == |col|
    && exists i: nat, news: seq<nat> :: RequeuedFrom(col, col2, active, q, i, news, q2) && q[i] == cell
  }

  ghost predicate RequeuedFrom(col: seq<nat>, col2: seq<nat>, active: set<nat>, q: seq<nat>, i: nat, news: seq<nat>,
                               q2: seq<nat>)
    requires |col2| == |col|
  {
    && i < |q| && |q2| == |q| - 1 + |news|
    && (forall k :: 0 <= k < |q| - 1 ==> q2[k] == q[if k == i then |q| - 1 else k])
    && (forall j, k :: 0 <= j < k < |news| ==> news[j] < news[k])
    && (forall x :: x in news <==> exists v :: 0 <= v < |col| && col2[v] == x && col[v] != x)
    && forall k :: 0 <= k < |news| ==> EntersAs(col, col2, active, news[k], q2[|q| - 1 + k])
  }

  lemma RunStepParts(g: Graph, level: int, run: Run)
    requires IsSparseRun(g, level, run) && run.Next?
    ensures PartOk(|g|, level, run.before.state) && PartOk(|g|, level, run.state)
    ensures run.cell in run.before.state.active
    ensures QueueStep(|g|, level, run.before.state, run.cell, run.state, QueueOf(|g|, level, run.before),
                      QueueOf(|g|, level, run))
    ensures Step(LastOfTwo, |g|, level, run.before.state, run.cell, run.state,
                 SparseKey(g, level, run.before.At?, run.before.state, run.cell))
  {
    hide PartOk, QueueStep, Step, SparseKey, QueueOf;
  }

  lemma TakenFirst(n: nat, level: int, s: Part, cell: nat, t: Part, q: seq<nat>, q2: seq<nat>) returns (i: nat)
    requires QueueStep(n, level, s, cell, t, q, q2) && PartOk(n, level, s) && PartOk(n, level, t)
    ensures i < |q| && q[i] == cell
    ensures q2 == Pushed(ColOf(n, level, s), ColOf(n, level, t), s.active - {cell}, Taken(q, i), n)
  {
    i := TakenAt(q, SingleClasses(ColOf(n, level, s)), 0);
  }

  lemma RequeuedMade(col: seq<nat>, col2: seq<nat>, active: set<nat>, q: seq<nat>, i: nat, q2: seq<nat>)
    requires |col2| == |col| && i < |q|
    requires AllPieces(col, col2, LaterPieces(col, col2, |col|))
    requires q2 == Pushed(col, col2, active, Taken(q, i), |col|)
    requires var xs := InOrder(LaterPieces(col, col2, |col|), |col|);
      && |q2| == |q| - 1 + |xs| && q2[..|q| - 1] == Taken(q, i)
      && forall k :: 0 <= k < |xs| ==> EntersAs(col, col2, active, xs[k], q2[|q| - 1 + k])
    requires forall v :: 0 <= v < |col| ==> col2[v] < |col|
    ensures Requeued(col, col2, active, q, q[i], q2)
  {
    var later := LaterPieces(col, col2, |col|);
    var xs := InOrder(later, |col|);
    InOrderIs(later, |col|);
    hide LaterPieces, InOrder, EntersAs, Pushed;
    forall k | 0 <= k < |q| - 1 ensures q2[k] == q[if k == i then |q| - 1 else k] {
      TakenLeaves(q, i, k);
      assert q2[k] == q2[..|q| - 1][k];
    }
    assert RequeuedFrom(col, col2, active, q, i, xs, q2);
  }

  // The pieces that do not begin where their class does.
  ghost predicate AllPieces(col: seq<nat>, col2: seq<nat>, later: set<nat>)
    requires |col2| == |col|
  {
    forall x :: x in later <==> exists v :: 0 <= v < |col| && col2[v] == x && col[v] != x
  }

  lemma AllLater(n: nat, level: int, s: Part, col2: seq<nat>)
    requires PartOk(n, level, s) && |col2| == n
    ensures var col := ColOf(n, level, s); AllPieces(col, col2, LaterPieces(col, col2, n))
  {
    var col := ColOf(n, level, s);
    forall v: nat | v < n ensures col[v] < n {
      ColourBelow(n, level, s, v);
    }
  }

  lemma {:induction false} SparseRunIsRun(g: Graph, level: int, run: Run)
    requires IsSparseRun(g, level, run)
    ensures IsRun(|g|, level, run) && PartOk(|g|, level, First(run))
  {
    if run.Next? {
      SparseRunIsRun(g, level, run.before);
      StepUses(LastOfTwo, |g|, level, run.before.state, run.cell, run.state,
               SparseKey(g, level, run.before.At?, run.before.state, run.cell));
    }
  }

  // ----- a single vertex -----

  lemma ClassOfSingle(n: nat, level: int, s: Part, cell: nat)
    requires PartOk(n, level, s) && cell in s.active && s.ptn[cell] <= level
    ensures s.lab[cell] < n && Class(ColOf(n, level, s), cell) == {s.lab[cell]}
  {
    assert CellAt(s.ptn, level, cell, cell);
    MembersAreClass(n, level, s, cell, cell);
    assert s.lab[cell..cell + 1] == [s.lab[cell]];
  }

  // Equally far from v0 is equally many arcs from v0.
  lemma FarTells(g: Graph, v0: nat, u: nat, v: nat)
    requires v0 < |g| && u < |g| && v < |g| && Far(g, v0, u) == Far(g, v0, v)
    ensures Agree(ArcWeights(g), {v0}, u, v)
  {
    FarZero(g, v0, u);
    FarZero(g, v0, v);
    if u != v0 {
      FarOne(g, v0, u);
      FarOne(g, v0, v);
      OneArc(g, v0, u);
      OneArc(g, v0, v);
    }
  }

  lemma FarZero(g: Graph, v0: nat, x: nat)
    requires v0 < |g| && x < |g|
    ensures Far(g, v0, x) == 0 <==> x == v0
  {
    if x == v0 { assert EdgePaths.Path(g, [v0], v0, x); }
    if WithinSteps(g, v0, x, 0) {
      var p :| EdgePaths.Path(g, p, v0, x) && |p| <= 1;
    }
    FarAbove(g, v0, x, 1);
  }

  lemma {:induction false} FarAbove(g: Graph, v0: nat, x: nat, k: nat)
    ensures FarFrom(g, v0, x, k) >= k
    decreases |g| - k
  {
    if k < |g| { FarAbove(g, v0, x, k + 1); }
  }

  // A vertex other than v0 is one step away exactly if there is an arc.
  lemma FarOne(g: Graph, v0: nat, x: nat)
    requires v0 < |g| && x < |g| && x != v0
    ensures Far(g, v0, x) == 1 <==> x in g[v0]
  {
    FarZero(g, v0, x);
    if x in g[v0] {
      assert EdgePaths.Path(g, [v0, x], v0, x);
      assert WithinSteps(g, v0, x, 1);
    }
    if WithinSteps(g, v0, x, 1) {
      var p :| EdgePaths.Path(g, p, v0, x) && |p| <= 2;
      assert p == [v0, x];
    }
    FarAbove(g, v0, x, 2);
    assert Far(g, v0, x) == FarFrom(g, v0, x, 1);
  }

  // ----- what a step keeps -----

  // The key tells at least those vertices apart that do not agree on the arcs from the cell.
  lemma SparseFine(g: Graph, level: int, start: bool, s: Part, cell: nat)
    requires PartOk(|g|, level, s) && cell in s.active
    ensures FineKey(ArcWeights(g), ColOf(|g|, level, s), SparseKey(g, level, start, s, cell), cell)
  {
    var col, key := ColOf(|g|, level, s), SparseKey(g, level, start, s, cell);
    if start && DistanceFirst(|g|, level, s) { ClassOfSingle(|g|, level, s, cell); }
    forall u: nat, v: nat | u < |g| && v < |g| && col[u] == col[v] && key(u) == key(v)
      ensures Agree(ArcWeights(g), Class(col, cell), u, v)
    {
      if start && DistanceFirst(|g|, level, s) { FarTells(g, s.lab[cell], u, v); }
    }
  }

  // It tells no vertices apart that an equitable refinement keeps together.
  lemma SparseCoarse(g: Graph, level: int, start: bool, s: Part, cell: nat, q: seq<nat>, u: nat, v: nat)
    requires ValidGraph(g) && PartOk(|g|, level, s) && cell in s.active
    requires Equitable(ArcWeights(g), q) && Refines(q, ColOf(|g|, level, s))
    requires u < |g| && v < |g| && q[u] == q[v]
    ensures SparseKey(g, level, start, s, cell)(u) == SparseKey(g, level, start, s, cell)(v)
  {
    var w := Class(ColOf(|g|, level, s), cell);
    ClassSaturated(q, ColOf(|g|, level, s), cell);
    if start && DistanceFirst(|g|, level, s) {
      ClassOfSingle(|g|, level, s, cell);
      SameDistance(g, s.lab[cell], q, u, v);
    } else {
      EquitableUnionAgrees(ArcWeights(g), q, w, u, v);
    }
  }

  lemma SparseStepKeeps(g: Graph, level: int, start: bool, s: Part, cell: nat, t: Part)
    requires SparseStep(g, level, start, s, cell, t) && PartOk(|g|, level, t)
    requires QueueInv(ArcWeights(g), ColOf(|g|, level, s), s.active)
    ensures QueueInv(ArcWeights(g), ColOf(|g|, level, t), t.active)
    ensures Refines(ColOf(|g|, level, t), ColOf(|g|, level, s))
  {
    SparseFine(g, level, start, s, cell);
    hide FineKey, QueueInv, Refines, SparseKey, PartOk, ColOf, Step;
    var key := SparseKey(g, level, start, s, cell);
    StepKeepsQueue(LastOfTwo, ArcWeights(g), |g|, level, s, cell, t, key);
    StepRefines(LastOfTwo, |g|, level, s, cell, t, key);
  }

  lemma SparseStepCoarse(g: Graph, level: int, start: bool, s: Part, cell: nat, t: Part, q: seq<nat>)
    requires SparseStep(g, level, start, s, cell, t) && PartOk(|g|, level, t) && ValidGraph(g)
    requires Equitable(ArcWeights(g), q) && Refines(q, ColOf(|g|, level, s))
    ensures Refines(q, ColOf(|g|, level, t))
  {
    var key := SparseKey(g, level, start, s, cell);
    assert |q| == |g|;
    hide PartOk, ColOf, Step, Equitable, SparseKey, Refines;
    forall u: nat, v: nat | u < |g| && v < |g| && q[u] == q[v] ensures key(u) == key(v) {
      SparseCoarse(g, level, start, s, cell, q, u, v);
    }
    StepCutsNot(LastOfTwo, |g|, level, s, cell, t, key, q);
  }

  // ----- whole runs -----

  lemma {:induction false} SparseRunKeeps(g: Graph, level: int, run: Run)
    requires IsSparseRun(g, level, run) && PartOk(|g|, level, First(run))
    requires QueueInv(ArcWeights(g), ColOf(|g|, level, First(run)), First(run).active)
    ensures QueueInv(ArcWeights(g), ColOf(|g|, level, run.state), run.state.active)
    ensures Refines(ColOf(|g|, level, run.state), ColOf(|g|, level, First(run)))
  {
    hide QueueInv, PartOk, ColOf, SparseStep;
    if run.Next? {
      SparseRunKeeps(g, level, run.before);
      SparseStepKeeps(g, level, run.before.At?, run.before.state, run.cell, run.state);
    }
  }

  lemma {:induction false} SparseRunCoarse(g: Graph, level: int, run: Run, q: seq<nat>)
    requires IsSparseRun(g, level, run) && PartOk(|g|, level, First(run)) && ValidGraph(g)
    requires Equitable(ArcWeights(g), q) && Refines(q, ColOf(|g|, level, First(run)))
    ensures Refines(q, ColOf(|g|, level, run.state))
  {
    hide Equitable, Refines, PartOk, ColOf, SparseStep, ValidGraph;
    if run.Next? {
      SparseRunCoarse(g, level, run.before, q);
      SparseStepCoarse(g, level, run.before.At?, run.before.state, run.cell, run.state, q);
    }
  }

  // Main theorem: on every digraph, from a correct active set, a run ends with the coarsest refinement that
  // is equitable for the arcs that enter each vertex.
  lemma SparseRunCoarsest(g: Graph, level: int, s: Part, run: Run, t: Part)
    requires RefinementSg(g, level, s, run, t) && PartOk(|g|, level, s) && ValidGraph(g)
    requires QueueInv(ArcWeights(g), ColOf(|g|, level, s), s.active)
    ensures PartOk(|g|, level, t) && CoarsestEquitable(ArcWeights(g), ColOf(|g|, level, s), ColOf(|g|, level, t))
  {
    SparseRunKeeps(g, level, run);
    hide PartOk, ColOf, SparseStep, Equitable, Refines, ValidGraph;
    StoppedEquitable(ArcWeights(g), |g|, level, t);
    forall q: seq<nat> | Refines(q, ColOf(|g|, level, s)) && Equitable(ArcWeights(g), q)
      ensures Refines(q, ColOf(|g|, level, t))
    {
      SparseRunCoarse(g, level, run, q);
    }
  }
}
