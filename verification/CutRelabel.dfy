// The refinement of dense graphs in place commutes with relabelling: on a relabelled digraph, with the cells
// relabelled alike, the same positions are cells, the same cells are active, and every cell is the
// relabelled one.
module CutRelabel {
  import opened Sums
  import opened Graphs
  import opened GroupOrbits
  import opened Refinement
  import opened Nests
  import opened NestRefinement
  import opened NestCost
  import opened PassSteps
  import opened Hints
  import opened CutRuns
  import opened StepRelabel

  // ----- one step -----

  lemma KeysCarried(g: Graph, g2: Graph, p: seq<nat>, col: seq<nat>, col2: seq<nat>, cell: nat)
    requires Maps(g, g2, p) && Carried(p, col, col2) && |p| == |g|
    ensures SameKey(p, CountedKey(g, Class(col, cell)), CountedKey(g2, Class(col2, cell)))
  {
    CarriedClass(p, col, col2, cell);
    CarriedSize(p, col, col2, cell);
    assert CarriedArcs(p, RowWeights(g), RowWeights(g2)) && CarriedArcs(p, ArcWeights(g), ArcWeights(g2));
    forall v: nat | v < |p|
      ensures CountedKey(g2, Class(col2, cell))(p[v]) == CountedKey(g, Class(col, cell))(v)
    {
      CarriedArcCount(p, RowWeights(g), RowWeights(g2), Class(col, cell), v);
      CarriedArcCount(p, ArcWeights(g), ArcWeights(g2), Class(col, cell), v);
    }
  }

  lemma CutsCarried(g: Graph, g2: Graph, p: seq<nat>, level: int, s: Part, s2: Part, cell: nat, t: Part, t2: Part)
    requires Maps(g, g2, p) && Alike(p, level, s, s2) && |p| == |g|
    requires Cuts(g, level, s, cell, t) && Cuts(g2, level, s2, cell, t2)
    ensures Alike(p, level, t, t2)
  {
    KeysCarried(g, g2, p, ColOf(|p|, level, s), ColOf(|p|, level, s2), cell);
    hide Maps, SameKey, Step, CountedKey, ColOf, Carried;
    StepCarried(Earliest, p, level, s, s2, cell, t, t2, CountedKey(g, Class(ColOf(|p|, level, s), cell)),
                CountedKey(g2, Class(ColOf(|p|, level, s2), cell)));
  }

  // ----- the hint -----

  lemma CarriedHints(p: seq<nat>, col: seq<nat>, col2: seq<nat>, res: seq<nat>, res2: seq<nat>, active: set<nat>,
                     single: bool)
    requires Carried(p, col, col2) && Carried(p, res, res2)
    ensures HintStarts(col2, res2, active, single) == HintStarts(col, res, active, single)
  {
    forall v: nat | v < |p| ensures Hinted(col2, res2, active, single, p[v]) <==> Hinted(col, res, active, single, v) {
      CarriedSize(p, col, col2, col[v]);
      CarriedSize(p, res, res2, res[v]);
    }
    hide Hinted;
    forall d: nat
      ensures d in HintStarts(col2, res2, active, single) <==> d in HintStarts(col, res, active, single)
    {
      if d in HintStarts(col, res, active, single) {
        var v: nat :| v < |col| && Hinted(col, res, active, single, v) && res[v] == d;
        assert res2[p[v]] == d && Hinted(col2, res2, active, single, p[v]);
      }
      if d in HintStarts(col2, res2, active, single) {
        var y: nat :| y < |col2| && Hinted(col2, res2, active, single, y) && res2[y] == d;
        var v := PermutationOnto(|p|, p, y);
        assert Hinted(col, res, active, single, v);
      }
    }
  }

  lemma ChosenUnique(active: set<nat>, hint: nat, a: nat, b: nat)
    requires Chosen(active, hint, a) && Chosen(active, hint, b)
    ensures a == b
  {
  }

  lemma HintCarried(p: seq<nat>, level: int, run: Run, run2: Run)
    requires run.Next? && run2.Next? && run.cell == run2.cell
    requires Alike(p, level, run.before.state, run2.before.state) && Alike(p, level, run.state, run2.state)
    requires HintOf(|p|, level, run.before) == HintOf(|p|, level, run2.before)
    ensures HintOf(|p|, level, run) == HintOf(|p|, level, run2)
  {
    var n := |p|;
    var col, col2 := ColOf(n, level, run.before.state), ColOf(n, level, run2.before.state);
    var active := run.before.state.active - {run.cell};
    CarriedSize(p, col, col2, run.cell);
    CarriedHints(p, col, col2, ColOf(n, level, run.state), ColOf(n, level, run2.state), active,
                 |Class(col, run.cell)| == 1);
  }

  // ----- runs -----

  // As long as they go, the two runs take the same cells.
  lemma {:induction false} RunsAlike(g: Graph, g2: Graph, p: seq<nat>, level: int, run: Run, run2: Run)
    requires Maps(g, g2, p) && IsCutRun(g, level, run) && IsCutRun(g2, level, run2) && |p| == |g|
    requires Steps(run) == Steps(run2) && Alike(p, level, First(run), First(run2))
    ensures Alike(p, level, run.state, run2.state) && HintOf(|p|, level, run) == HintOf(|p|, level, run2)
  {
    assert |g2| == |g|;
    hide Maps, Alike, Cuts, HintOf;
    if run.Next? {
      RunsAlike(g, g2, p, level, run.before, run2.before);
      SameActive(p, level, run.before.state, run2.before.state);
      ChosenUnique(run.before.state.active, HintOf(|p|, level, run.before), run.cell, run2.cell);
      CutsCarried(g, g2, p, level, run.before.state, run2.before.state, run.cell, run.state, run2.state);
      HintCarried(p, level, run, run2);
    } else {
      NoHint(|p|, level, run);
      NoHint(|p|, level, run2);
    }
  }

  lemma NoHint(n: nat, level: int, run: Run)
    requires run.At?
    ensures HintOf(n, level, run) == 0
  {
  }

  lemma {:induction false} PrefixRun(g: Graph, level: int, run: Run, k: nat)
    requires IsCutRun(g, level, run) && k < Steps(run)
    ensures IsCutRun(g, level, Prefix(run, k)) && Steps(Prefix(run, k)) == k && First(Prefix(run, k)) == First(run)
    ensures Prefix(run, k).state.numcells < |g| && Prefix(run, k).state.active != {}
  {
    hide Cuts, HintOf;
    if k < Steps(run.before) {
      PrefixRun(g, level, run.before, k);
    }
  }

  // One of two runs cannot stop before the other.
  lemma NotShorter(g: Graph, g2: Graph, p: seq<nat>, level: int, s: Part, run: Run, t: Part, s2: Part, run2: Run,
                   t2: Part)
    requires Maps(g, g2, p) && |p| == |g| && Alike(p, level, s, s2)
    requires Refinement1(g, level, s, run, t) && Refinement1(g2, level, s2, run2, t2)
    ensures Steps(run) <= Steps(run2) && Steps(run2) <= Steps(run)
  {
    hide IsCutRun, Alike;
    assert |g2| == |g|;
    if Steps(run) < Steps(run2) {
      PrefixRun(g2, level, run2, Steps(run));
      RunsAlike(g, g2, p, level, run, Prefix(run2, Steps(run)));
      SameActive(p, level, t, Prefix(run2, Steps(run)).state);
      assert false;
    }
    if Steps(run2) < Steps(run) {
      PrefixRun(g, level, run, Steps(run2));
      RunsAlike(g, g2, p, level, Prefix(run, Steps(run2)), run2);
      SameActive(p, level, Prefix(run, Steps(run2)).state, t2);
      assert false;
    }
  }

  // Main theorem: refining the relabelled nest of the relabelled digraph gives the relabelled result: the
  // same cell ends, active cells and number of cells, and in each cell the relabelled vertices.
  lemma RefinementRelabels(g: Graph, g2: Graph, p: seq<nat>, level: int, s: Part, run: Run, t: Part, s2: Part,
                           run2: Run, t2: Part)
    requires Maps(g, g2, p) && |p| == |g| && Alike(p, level, s, s2) && s2.ptn == s.ptn
    requires Refinement1(g, level, s, run, t) && Refinement1(g2, level, s2, run2, t2)
    ensures Alike(p, level, t, t2) && t2.ptn == t.ptn
    ensures forall c1: nat, c2: nat :: CellAt(t.ptn, level, c1, c2) ==> CellCarried(p, t, t2, c1, c2)
  {
    hide *;
    NotShorter(g, g2, p, level, s, run, t, s2, run2, t2);
    ResultParts(g, level, s, run, t);
    ResultParts(g2, level, s2, run2, t2);
    RunsAlike(g, g2, p, level, run, run2);
    CellsCarried(p, level, s.ptn, t, t2);
  }

  lemma ResultParts(g: Graph, level: int, s: Part, run: Run, t: Part)
    requires Refinement1(g, level, s, run, t)
    ensures IsCutRun(g, level, run) && First(run) == s && run.state == t && Finer(s.ptn, t.ptn, level)
  {
    CutRunIsRun(g, level, run);
    RunFiner(|g|, level, run);
  }
}
