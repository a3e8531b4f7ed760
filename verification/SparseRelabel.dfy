// The refinement of sparse graphs commutes with relabelling as well: the order in which rows list their
// neighbours does not matter, because the queue depends on the sizes of cells only.
module SparseRelabel {
  import opened Sums
  import opened Graphs
  import opened GroupOrbits
  import opened Refinement
  import opened Nests
  import opened NestRefinement
  import opened NestCost
  import opened PassSteps
  import opened QueueOrder
  import opened QueuePasses
  import opened Distances
  import opened SparseRuns
  import opened StepRelabel
  import EdgePaths

  // ----- distances -----

  lemma PathCarried(g: Graph, g2: Graph, p: seq<nat>, path: seq<nat>, path2: seq<nat>, v0: nat, v: nat)
    requires Maps(g, g2, p) && |p| == |g| && v0 < |g| && v < |g|
    requires |path2| == |path| && forall i :: 0 <= i < |path| ==> path[i] < |g| && path2[i] == p[path[i]]
    ensures EdgePaths.Path(g2, path2, p[v0], p[v]) <==> EdgePaths.Path(g, path, v0, v)
  {
    if EdgePaths.Path(g2, path2, p[v0], p[v]) {
      assert path[0] == v0 && path[|path| - 1] == v;
      forall i, j | 0 <= i < j < |path| && j == i + 1 ensures path[j] in g[path[i]] {
        assert path2[j] in g2[path2[i]];
      }
    }
  }

  lemma WithinCarried(g: Graph, g2: Graph, p: seq<nat>, v0: nat, v: nat, k: nat)
    requires Maps(g, g2, p) && |p| == |g| && v0 < |g| && v < |g|
    ensures WithinSteps(g2, p[v0], p[v], k) <==> WithinSteps(g, v0, v, k)
  {
    var n := |g|;
    if WithinSteps(g, v0, v, k) {
      var path :| EdgePaths.Path(g, path, v0, v) && |path| <= k + 1;
      var path2 := seq(|path|, i requires 0 <= i < |path| => p[path[i]]);
      PathCarried(g, g2, p, path, path2, v0, v);
    }
    if WithinSteps(g2, p[v0], p[v], k) {
      var path2 :| EdgePaths.Path(g2, path2, p[v0], p[v]) && |path2| <= k + 1;
      var path := seq(|path2|, i requires 0 <= i < |path2| => Preimage(n, p, path2[i]));
      PathCarried(g, g2, p, path, path2, v0, v);
    }
  }

  lemma {:induction false} FarCarried(g: Graph, g2: Graph, p: seq<nat>, v0: nat, v: nat, k: nat)
    requires Maps(g, g2, p) && |p| == |g| && v0 < |g| && v < |g|
    ensures FarFrom(g2, p[v0], p[v], k) == FarFrom(g, v0, v, k)
    decreases |g| - k
  {
    WithinCarried(g, g2, p, v0, v, k);
    if k < |g| { FarCarried(g, g2, p, v0, v, k + 1); }
  }

  // ----- the key -----

  lemma GuardCarried(p: seq<nat>, level: int, s: Part, s2: Part)
    requires Alike(p, level, s, s2)
    ensures DistanceFirst(|p|, level, s2) <==> DistanceFirst(|p|, level, s)
  {
    forall d | d in s.active ensures s2.ptn[d] <= level <==> s.ptn[d] <= level {
      SingleEnd(|p|, level, s, d);
      SingleEnd(|p|, level, s2, d);
      CarriedSize(p, ColOf(|p|, level, s), ColOf(|p|, level, s2), d);
    }
  }

  lemma FarKeyCarried(g: Graph, g2: Graph, p: seq<nat>, level: int, s: Part, s2: Part, cell: nat)
    requires Maps(g, g2, p) && |p| == |g| && Alike(p, level, s, s2) && cell in s.active && s.ptn[cell] <= level
    ensures SameKey(p, FarKey(g, s.lab[cell]), FarKey(g2, s2.lab[cell]))
  {
    var n := |p|;
    SingleEnd(n, level, s, cell);
    SingleEnd(n, level, s2, cell);
    CarriedSize(p, ColOf(n, level, s), ColOf(n, level, s2), cell);
    ClassOfSingle(n, level, s, cell);
    ClassOfSingle(n, level, s2, cell);
    var v0 := s.lab[cell];
    assert v0 in Class(ColOf(n, level, s), cell);
    assert p[v0] in Class(ColOf(n, level, s2), cell);
    forall v: nat | v < n ensures FarKey(g2, s2.lab[cell])(p[v]) == FarKey(g, v0)(v) {
      FarCarried(g, g2, p, v0, v, 0);
    }
  }

  lemma ArcKeyCarried(g: Graph, g2: Graph, p: seq<nat>, col: seq<nat>, col2: seq<nat>, cell: nat)
    requires Maps(g, g2, p) && |p| == |g| && Carried(p, col, col2)
    ensures SameKey(p, ArcKey(g, Class(col, cell)), ArcKey(g2, Class(col2, cell)))
  {
    CarriedClass(p, col, col2, cell);
    assert CarriedArcs(p, ArcWeights(g), ArcWeights(g2));
    forall v: nat | v < |p| ensures ArcKey(g2, Class(col2, cell))(p[v]) == ArcKey(g, Class(col, cell))(v) {
      CarriedArcCount(p, ArcWeights(g), ArcWeights(g2), Class(col, cell), v);
    }
  }

  lemma SparseKeyCarried(g: Graph, g2: Graph, p: seq<nat>, level: int, start: bool, s: Part, s2: Part, cell: nat)
    requires Maps(g, g2, p) && |p| == |g| == |g2| && Alike(p, level, s, s2) && cell in s.active
    ensures PartOk(|g|, level, s) && PartOk(|g2|, level, s2) && cell in s2.active
    ensures SameKey(p, SparseKey(g, level, start, s, cell), SparseKey(g2, level, start, s2, cell))
  {
    GuardCarried(p, level, s, s2);
    if start && DistanceFirst(|g|, level, s) {
      FarKeyCarried(g, g2, p, level, s, s2, cell);
    } else {
      ArcKeyCarried(g, g2, p, ColOf(|p|, level, s), ColOf(|p|, level, s2), cell);
    }
  }

  lemma SparseStepCarried(g: Graph, g2: Graph, p: seq<nat>, level: int, start: bool, s: Part, s2: Part, cell: nat,
                          t: Part, t2: Part)
    requires Maps(g, g2, p) && |p| == |g| == |g2| && Alike(p, level, s, s2)
    requires SparseStep(g, level, start, s, cell, t) && SparseStep(g2, level, start, s2, cell, t2)
    ensures Alike(p, level, t, t2)
  {
    hide Maps, Alike, Step, SparseKey, PartOk;
    SparseKeyCarried(g, g2, p, level, start, s, s2, cell);
    StepCarried(LastOfTwo, p, level, s, s2, cell, t, t2, SparseKey(g, level, start, s, cell),
                SparseKey(g2, level, start, s2, cell));
  }

  // ----- the queue -----

  lemma SinglesCarried(p: seq<nat>, col: seq<nat>, col2: seq<nat>)
    requires Carried(p, col, col2)
    ensures SingleClasses(col2) == SingleClasses(col)
  {
    forall d: nat ensures d in SingleClasses(col2) <==> d in SingleClasses(col) {
      CarriedSize(p, col, col2, d);
    }
  }

  lemma PushCarried(p: seq<nat>, col: seq<nat>, col2: seq<nat>, res: seq<nat>, res2: seq<nat>, active: set<nat>,
                    q: seq<nat>, d: nat)
    requires Carried(p, col, col2) && Carried(p, res, res2) && |res| == |col| && |res2| == |col2|
    ensures PushClass(Pieces(col2, res2, d), res2, active, q, d) == PushClass(Pieces(col, res, d), res, active, q, d)
  {
    CarriedPieces(p, col, col2, res, res2, d);
    forall e | e in Pieces(col, res, d) ensures |Class(res2, e)| == |Class(res, e)| {
      CarriedSize(p, res, res2, e);
    }
    SparedSame(Pieces(col, res, d), res, res2);
  }

  lemma {:induction false} PushedCarried(p: seq<nat>, col: seq<nat>, col2: seq<nat>, res: seq<nat>, res2: seq<nat>,
                                         active: set<nat>, q: seq<nat>, c: nat)
    requires Carried(p, col, col2) && Carried(p, res, res2) && |res| == |col| && |res2| == |col2|
    ensures Pushed(col2, res2, active, q, c) == Pushed(col, res, active, q, c)
  {
    hide *;
    if c > 0 {
      PushedCarried(p, col, col2, res, res2, active, q, c - 1);
      PushedNext(col, res, active, q, c);
      PushedNext(col2, res2, active, q, c);
      PushCarried(p, col, col2, res, res2, active, Pushed(col, res, active, q, c - 1), c - 1);
    } else {
      NonePushed(col, res, active, q);
      NonePushed(col2, res2, active, q);
    }
  }

  lemma NonePushed(col: seq<nat>, col2: seq<nat>, active: set<nat>, q: seq<nat>)
    requires |col2| == |col|
    ensures Pushed(col, col2, active, q, 0) == q
  {
  }

  lemma SameCell(p: seq<nat>, level: int, s: Part, s2: Part, cell: nat, cell2: nat, t: Part, t2: Part, q: seq<nat>,
                 r: seq<nat>, r2: seq<nat>)
    requires Alike(p, level, s, s2)
    requires QueueStep(|p|, level, s, cell, t, q, r) && QueueStep(|p|, level, s2, cell2, t2, q, r2)
    ensures cell2 == cell
  {
    SinglesCarried(p, ColOf(|p|, level, s), ColOf(|p|, level, s2));
  }

  lemma SameQueue(p: seq<nat>, level: int, s: Part, s2: Part, cell: nat, t: Part, t2: Part, q: seq<nat>, r: seq<nat>,
                  r2: seq<nat>)
    requires Alike(p, level, s, s2) && Alike(p, level, t, t2)
    requires QueueStep(|p|, level, s, cell, t, q, r) && QueueStep(|p|, level, s2, cell, t2, q, r2)
    ensures r2 == r
  {
    var col, col2 := ColOf(|p|, level, s), ColOf(|p|, level, s2);
    SinglesCarried(p, col, col2);
    PushedCarried(p, col, col2, ColOf(|p|, level, t), ColOf(|p|, level, t2), s.active - {cell},
                  Taken(q, TakenAt(q, SingleClasses(col), 0)), |p|);
  }

  // ----- runs -----

  lemma SparseRunParts(g: Graph, level: int, run: Run)
    requires IsSparseRun(g, level, run) && run.Next?
    ensures IsSparseRun(g, level, run.before) && run.before.state.numcells < |g| && run.cell in run.before.state.active
    ensures QueueStep(|g|, level, run.before.state, run.cell, run.state, QueueOf(|g|, level, run.before),
                      QueueOf(|g|, level, run))
    ensures SparseStep(g, level, run.before.At?, run.before.state, run.cell, run.state)
  {
    hide QueueStep, QueueOf;
  }

  // As long as they go, the two runs take the same cells.
  lemma {:induction false} SparseRunsAlike(g: Graph, g2: Graph, p: seq<nat>, level: int, run: Run, run2: Run)
    requires Maps(g, g2, p) && |p| == |g| == |g2| && IsSparseRun(g, level, run) && IsSparseRun(g2, level, run2)
    requires Steps(run) == Steps(run2) && Alike(p, level, First(run), First(run2))
    ensures Alike(p, level, run.state, run2.state) && QueueOf(|p|, level, run) == QueueOf(|p|, level, run2)
    decreases run
  {
    hide Maps, Alike, SparseStep, QueueStep, QueueOf, IsSparseRun;
    if run.Next? {
      SparseRunParts(g, level, run);
      SparseRunParts(g2, level, run2);
      SparseRunsAlike(g, g2, p, level, run.before, run2.before);
      var s, s2, q := run.before.state, run2.before.state, QueueOf(|p|, level, run.before);
      SameCell(p, level, s, s2, run.cell, run2.cell, run.state, run2.state, q, QueueOf(|p|, level, run),
               QueueOf(|p|, level, run2));
      assert run.before.At? == run2.before.At?;
      SparseStepCarried(g, g2, p, level, run.before.At?, s, s2, run.cell, run.state, run2.state);
      SameQueue(p, level, s, s2, run.cell, run.state, run2.state, q, QueueOf(|p|, level, run),
                QueueOf(|p|, level, run2));
    } else {
      SameActive(p, level, run.state, run2.state);
      QueueAtStart(|p|, level, run);
      QueueAtStart(|p|, level, run2);
    }
  }

  lemma QueueAtStart(n: nat, level: int, run: Run)
    requires run.At?
    ensures QueueOf(n, level, run) == InOrder(run.state.active, n)
  {
  }

  lemma {:induction false} SparsePrefix(g: Graph, level: int, run: Run, k: nat)
    requires IsSparseRun(g, level, run) && k < Steps(run)
    ensures IsSparseRun(g, level, Prefix(run, k)) && Steps(Prefix(run, k)) == k && First(Prefix(run, k)) == First(run)
    ensures Prefix(run, k).state.numcells < |g| && Prefix(run, k).state.active != {}
  {
    SparseRunParts(g, level, run);
    hide IsSparseRun;
    if k < Steps(run.before) {
      SparsePrefix(g, level, run.before, k);
    }
  }

  // One of two runs cannot stop before the other.
  lemma SparseNotShorter(g: Graph, g2: Graph, p: seq<nat>, level: int, s: Part, run: Run, t: Part, s2: Part, run2: Run,
                         t2: Part)
    requires Maps(g, g2, p) && |p| == |g| == |g2| && Alike(p, level, s, s2)
    requires RefinementSg(g, level, s, run, t) && RefinementSg(g2, level, s2, run2, t2)
    ensures Steps(run) <= Steps(run2) && Steps(run2) <= Steps(run)
  {
    hide IsSparseRun, Alike, Maps;
    if Steps(run) < Steps(run2) {
      SparsePrefix(g2, level, run2, Steps(run));
      SparseRunsAlike(g, g2, p, level, run, Prefix(run2, Steps(run)));
      SameActive(p, level, t, Prefix(run2, Steps(run)).state);
      assert false;
    }
    if Steps(run2) < Steps(run) {
      SparsePrefix(g, level, run, Steps(run2));
      SparseRunsAlike(g, g2, p, level, Prefix(run, Steps(run2)), run2);
      SameActive(p, level, Prefix(run, Steps(run2)).state, t2);
      assert false;
    }
  }

  // Main theorem: refining the relabelled nest of the relabelled digraph gives the relabelled result.
  lemma SparseRelabels(g: Graph, g2: Graph, p: seq<nat>, level: int, s: Part, run: Run, t: Part, s2: Part, run2: Run,
                       t2: Part)
    requires Maps(g, g2, p) && |p| == |g| == |g2| && Alike(p, level, s, s2) && s2.ptn == s.ptn
    requires RefinementSg(g, level, s, run, t) && RefinementSg(g2, level, s2, run2, t2)
    ensures Alike(p, level, t, t2) && t2.ptn == t.ptn
    ensures forall c1: nat, c2: nat :: CellAt(t.ptn, level, c1, c2) ==> CellCarried(p, t, t2, c1, c2)
  {
    hide *;
    SparseNotShorter(g, g2, p, level, s, run, t, s2, run2, t2);
    SparseResult(g, level, s, run, t);
    SparseResult(g2, level, s2, run2, t2);
    SparseRunsAlike(g, g2, p, level, run, run2);
    CellsCarried(p, level, s.ptn, t, t2);
  }

  lemma SparseResult(g: Graph, level: int, s: Part, run: Run, t: Part)
    requires RefinementSg(g, level, s, run, t)
    ensures IsSparseRun(g, level, run) && First(run) == s && run.state == t && Finer(s.ptn, t.ptn, level)
  {
    SparseRunIsRun(g, level, run);
    RunFiner(|g|, level, run);
  }
}
