// What a whole refinement in place of a dense graph or digraph does, and what it ends with.
module CutRuns {
  import opened Sums
  import opened Graphs
  import opened Refinement
  import opened Nests
  import opened NestRefinement
  import opened NestCost
  import opened PassSteps
  import opened Hints

  // ----- one splitting cell -----

  // A splitting cell with several vertices is used by the arcs that lead into it, a single vertex by
  // the arcs that leave it.
  ghost predicate CountedAlike(g: Graph, w: set<nat>, u: nat, v: nat) {
    if |w| == 1 then Agree(ArcWeights(g), w, u, v) else Agree(RowWeights(g), w, u, v)
  }

  // The heads of the arcs from a single vertex come first; otherwise the order is that of the counts.
  ghost function CountedKey(g: Graph, w: set<nat>): Key {
    (x: nat) => if |w| == 1 then 1 - Count(ArcWeights(g), w, x) else Count(RowWeights(g), w, x)
  }

  lemma AlikeKey(g: Graph, w: set<nat>, u: nat, v: nat)
    ensures CountedKey(g, w)(u) == CountedKey(g, w)(v) <==> CountedAlike(g, w, u, v)
  {
  }

  // The cell is used against all cells. Of largest pieces the first one is spared.
  ghost predicate Cuts(g: Graph, level: int, s: Part, cell: nat, t: Part) {
    PartOk(|g|, level, s) && Step(Earliest, |g|, level, s, cell, t, CountedKey(g, Class(ColOf(|g|, level, s), cell)))
  }

  // The vertices of the class of v that have fewer arcs into w.
  ghost function FewerInto(g: Graph, col: seq<nat>, w: set<nat>, v: nat): set<nat>
    requires v < |col| == |g|
  {
    set u: nat | u < |g| && col[u] == col[v] && |w * g[u]| < |w * g[v]|
  }

  // How far the piece of a vertex begins behind its class. A single vertex x puts the vertices it has arcs
  // to in front of the others; otherwise the vertices with fewer arcs into the cell stand in front.
  lemma CutPlaces(g: Graph, level: int, s: Part, cell: nat, t: Part, v: nat)
    requires Cuts(g, level, s, cell, t) && v < |g|
    ensures PartOk(|g|, level, s) && PartOk(|g|, level, t)
    ensures var col, col2 := ColOf(|g|, level, s), ColOf(|g|, level, t);
      var w := Class(col, cell);
      if |w| == 1 then
        forall x :: x in w ==> x < |g| && col2[v] == col[v] + if v in g[x] then 0 else |Class(col, col[v]) * g[x]|
      else col2[v] == col[v] + |FewerInto(g, col, w, v)|
  {
    var n := |g|;
    CutsParts(g, level, s, cell, t);
    var col, col2 := ColOf(n, level, s), ColOf(n, level, t);
    var w := Class(col, cell);
    StepPlaces(Earliest, n, level, s, cell, t, CountedKey(g, w), v);
    hide PartOk, Cuts, ColOf, Count;
    if |w| == 1 {
      forall x | x in w
        ensures x < n && col2[v] == col[v] + if v in g[x] then 0 else |Class(col, col[v]) * g[x]|
      {
        OnlyMember(w, x);
        AheadOfSingle(g, col, w, x, v);
      }
    } else {
      AheadOfSeveral(g, col, w, v);
    }
  }

  lemma CutsParts(g: Graph, level: int, s: Part, cell: nat, t: Part)
    requires Cuts(g, level, s, cell, t)
    ensures PartOk(|g|, level, s) && PartOk(|g|, level, t)
    ensures Step(Earliest, |g|, level, s, cell, t, CountedKey(g, Class(ColOf(|g|, level, s), cell)))
  {
  }

  lemma AheadOfSingle(g: Graph, col: seq<nat>, w: set<nat>, x: nat, v: nat)
    requires w == {x} && x < |g| && v < |col| == |g|
    ensures Ahead(col, CountedKey(g, w), v) == if v in g[x] then {} else Class(col, col[v]) * g[x]
  {
    hide Count;
    forall u: nat ensures Count(ArcWeights(g), {x}, u) == if u in g[x] then 1 else 0 {
      OneArc(g, x, u);
    }
  }

  lemma AheadOfSeveral(g: Graph, col: seq<nat>, w: set<nat>, v: nat)
    requires |w| != 1 && v < |col| == |g|
    ensures Ahead(col, CountedKey(g, w), v) == FewerInto(g, col, w, v)
  {
    hide Count;
    forall u: nat | u < |g| ensures Count(RowWeights(g), w, u) == |w * g[u]| {
      CountIsOverlap(g, w, u);
    }
  }

  // ----- the hint -----

  // The hint at the end of a run: the last hinted piece.
  ghost function HintOf(n: nat, level: int, run: Run): nat {
    if run.Next? && PartOk(n, level, run.before.state) && PartOk(n, level, run.state) then
      var col := ColOf(n, level, run.before.state);
      Last(HintStarts(col, ColOf(n, level, run.state), run.before.state.active - {run.cell},
                      |Class(col, run.cell)| == 1), HintOf(n, level, run.before))
    else 0
  }

  // The piece of v is a single vertex, cut from a larger class. It is not the first piece of the class, or
  // the splitting cell was a single vertex and the class was not active.
  ghost predicate Noted(col: seq<nat>, col2: seq<nat>, active: set<nat>, w: set<nat>, v: nat) {
    && v < |col| == |col2|
    && (forall u :: 0 <= u < |col| && col2[u] == col2[v] ==> u == v)
    && (exists u :: 0 <= u < |col| && col[u] == col[v] && u != v)
    && (col2[v] != col[v] || (|w| == 1 && col[v] !in active))
  }

  // The hint is where the last such piece begins, or what it was if there is none.
  ghost predicate LastNoted(col: seq<nat>, col2: seq<nat>, active: set<nat>, w: set<nat>, hint0: nat, hint: nat) {
    if exists v: nat :: Noted(col, col2, active, w, v) then
      && (exists v: nat :: Noted(col, col2, active, w, v) && col2[v] == hint)
      && forall v: nat :: Noted(col, col2, active, w, v) ==> col2[v] <= hint
    else hint == hint0
  }

  lemma HintIsLast(g: Graph, level: int, run: Run)
    requires IsCutRun(g, level, run)
    ensures run.At? ==> HintOf(|g|, level, run) == 0
    ensures run.Next? ==>
      && PartOk(|g|, level, run.before.state) && PartOk(|g|, level, run.state)
      && var col := ColOf(|g|, level, run.before.state);
         LastNoted(col, ColOf(|g|, level, run.state), run.before.state.active - {run.cell}, Class(col, run.cell),
                   HintOf(|g|, level, run.before), HintOf(|g|, level, run))
  {
    if run.Next? {
      CutRunParts(g, level, run);
      NextHint(|g|, level, run);
      hide *;
      var col, col2 := ColOf(|g|, level, run.before.state), ColOf(|g|, level, run.state);
      LastIsNoted(col, col2, run.before.state.active - {run.cell}, Class(col, run.cell),
                  HintOf(|g|, level, run.before), HintOf(|g|, level, run));
    }
  }

  lemma LastIsNoted(col: seq<nat>, col2: seq<nat>, active: set<nat>, w: set<nat>, hint0: nat, hint: nat)
    requires |col2| == |col| && LastOf(HintStarts(col, col2, active, |w| == 1), hint0, hint)
    ensures LastNoted(col, col2, active, w, hint0, hint)
  {
    hide *;
    forall v: nat | v < |col| ensures Noted(col, col2, active, w, v) <==> Hinted(col, col2, active, |w| == 1, v) {
      NotedHinted(col, col2, active, w, v);
    }
    forall v: nat | Noted(col, col2, active, w, v) ensures v < |col| {
      NotedBelow(col, col2, active, w, v);
    }
    LastNotedMade(col, col2, active, w, hint0, hint);
  }

  lemma LastNotedMade(col: seq<nat>, col2: seq<nat>, active: set<nat>, w: set<nat>, hint0: nat, hint: nat)
    requires |col2| == |col| && LastOf(HintStarts(col, col2, active, |w| == 1), hint0, hint)
    requires forall v: nat :: v < |col| ==> (Noted(col, col2, active, w, v) <==> Hinted(col, col2, active, |w| == 1, v))
    requires forall v: nat :: Noted(col, col2, active, w, v) ==> v < |col|
    ensures LastNoted(col, col2, active, w, hint0, hint)
  {
    hide Noted, Hinted;
    var h := HintStarts(col, col2, active, |w| == 1);
    forall v: nat | Noted(col, col2, active, w, v) ensures col2[v] in h && col2[v] <= hint {
      assert col2[v] in h;
    }
    if h != {} {
      var u: nat :| u < |col| && Hinted(col, col2, active, |w| == 1, u) && col2[u] == hint;
      assert Noted(col, col2, active, w, u);
    }
  }

  lemma NextHint(n: nat, level: int, run: Run)
    requires run.Next? && PartOk(n, level, run.before.state) && PartOk(n, level, run.state)
    ensures var col := ColOf(n, level, run.before.state);
      LastOf(HintStarts(col, ColOf(n, level, run.state), run.before.state.active - {run.cell},
                        |Class(col, run.cell)| == 1), HintOf(n, level, run.before), HintOf(n, level, run))
  {
    hide PartOk, ColOf, HintStarts, LastOf;
  }

  lemma CutRunParts(g: Graph, level: int, run: Run)
    requires IsCutRun(g, level, run) && run.Next?
    ensures PartOk(|g|, level, run.before.state) && PartOk(|g|, level, run.state)
  {
  }

  lemma NotedBelow(col: seq<nat>, col2: seq<nat>, active: set<nat>, w: set<nat>, v: nat)
    ensures Noted(col, col2, active, w, v) ==> v < |col| == |col2|
  {
  }

  lemma NotedHinted(col: seq<nat>, col2: seq<nat>, active: set<nat>, w: set<nat>, v: nat)
    requires v < |col| == |col2|
    ensures Noted(col, col2, active, w, v) <==> Hinted(col, col2, active, |w| == 1, v)
  {
    AloneIs(col2, v);
    AloneIs(col, v);
  }

  lemma AloneIs(col: seq<nat>, v: nat)
    requires v < |col|
    ensures |Class(col, col[v])| >= 1
    ensures |Class(col, col[v])| == 1 <==> forall u :: 0 <= u < |col| && col[u] == col[v] ==> u == v
  {
    var c := Class(col, col[v]);
    assert v in c;
    if |c| == 1 {
      OnlyMember(c, v);
      forall u | 0 <= u < |col| && col[u] == col[v] ensures u == v {
        assert u in c;
      }
    }
    if forall u :: 0 <= u < |col| && col[u] == col[v] ==> u == v {
      assert c == {v};
    }
  }

  // The active cell that is taken: the hinted one, else the next one after it, else the first one.
  ghost predicate Chosen(active: set<nat>, hint: nat, cell: nat) {
    && cell in active
    && (hint in active ==> cell == hint)
    && (hint !in active ==>
        if exists d :: d in active && d > hint then cell > hint && forall d :: d in active && d > hint ==> cell <= d
        else forall d :: d in active ==> cell <= d)
  }

  // ----- a pass, cell by cell -----

  // The vertices w are used against s, and t has been reached; cells before position c are done, and the
  // hint has been set accordingly.
  ghost predicate Cutting(g: Graph, level: int, s: Part, t: Part, w: set<nat>, c: nat, hint0: nat, hint: nat) {
    && PartOk(|g|, level, s) && PartOk(|g|, level, t)
    && Going(Earliest, |g|, level, s, t, CountedKey(g, w), c)
    && LastOf(HintStarts(ColOf(|g|, level, s), ColOf(|g|, level, t), s.active, |w| == 1), hint0, hint)
  }

  lemma CuttingBegin(g: Graph, level: int, s: Part, w: set<nat>, hint: nat)
    requires PartOk(|g|, level, s)
    ensures Cutting(g, level, s, s, w, 0, hint, hint)
  {
    Begin(Earliest, |g|, level, s, CountedKey(g, w));
  }

  lemma CuttingParts(g: Graph, level: int, s: Part, t: Part, w: set<nat>, c: nat, hint0: nat, hint: nat)
    requires Cutting(g, level, s, t, w, c, hint0, hint)
    ensures PartOk(|g|, level, s) && PartOk(|g|, level, t) && Grown(level, s, t)
    ensures Going(Earliest, |g|, level, s, t, CountedKey(g, w), c)
    ensures ActiveOk(t.ptn, level, t.active) && t.numcells == |Starts(t.ptn, level)| && |t.lab| == |t.ptn| == |g|
    ensures Permutation(|g|, t.lab)
    ensures c < |g| ==> t.ptn[|g| - 1] <= level && IsStart(t.ptn, level, c)
  {
    hide *;
    CuttingGoing(g, level, s, t, w, c, hint0, hint);
    GoingParts(Earliest, |g|, level, s, t, CountedKey(g, w), c);
    GoingStart(Earliest, |g|, level, s, t, CountedKey(g, w), c);
  }

  lemma CuttingGoing(g: Graph, level: int, s: Part, t: Part, w: set<nat>, c: nat, hint0: nat, hint: nat)
    requires Cutting(g, level, s, t, w, c, hint0, hint)
    ensures PartOk(|g|, level, s) && PartOk(|g|, level, t)
    ensures Going(Earliest, |g|, level, s, t, CountedKey(g, w), c)
  {
    hide Going, PartOk, HintStarts, LastOf;
  }

  // One more cell has been cut.
  lemma CuttingDone(g: Graph, level: int, s0: Part, s: Part, t: Part, w: set<nat>, c1: nat, c2: nat, keys: seq<int>,
                    spared: nat, hint0: nat, hint1: nat, hint: nat)
    requires Cutting(g, level, s0, s, w, c1, hint0, hint1) && CellAt(s.ptn, level, c1, c2) && c1 < c2
    requires Permutation(|g|, t.lab) && Within(s.lab, s.ptn, t.lab, t.ptn, c1, c2)
    requires CutAt(t.ptn, level, c1, c2, keys) && KeyAt(CountedKey(g, w), t.lab, c1, c2, keys)
    requires Activated(t.ptn, level, c1, c2, s.active, t.active, spared)
    requires Frugal(Earliest, t.ptn, level, c1, c2, s.active, t.active, spared)
    requires t.numcells == |Starts(t.ptn, level)| && Finer(s.ptn, t.ptn, level)
    requires s.numcells <= t.numcells && (t.numcells == s.numcells ==> t.active == s.active)
    requires HintAt(t.ptn, level, c1, c2, |w| == 1 && c1 !in s.active, hint1, hint)
    ensures Cutting(g, level, s0, t, w, c2 + 1, hint0, hint)
  {
    hide *;
    var n, key := |g|, CountedKey(g, w);
    CuttingParts(g, level, s0, s, w, c1, hint0, hint1);
    CuttingHint(g, level, s0, s, w, c1, hint0, hint1);
    CutDone(Earliest, n, level, s0, s, t, key, c1, c2, keys, spared);
    GoingParts(Earliest, n, level, s0, t, key, c2 + 1);
    GoingColours(Earliest, n, level, s0, s, key, c1);
    CellCutAlone(n, level, s, t, key, c1, c2, keys);
    StillActive(Earliest, ColOf(n, level, s0), ColOf(n, level, s), s0.active, s.active, c1);
    HintsFurther(ColOf(n, level, s0), ColOf(n, level, s), ColOf(n, level, t), key, s0.active, s.active, c1, c2,
                 |w| == 1);
    CellHints(n, level, s, t, c1, c2, |w| == 1);
    HintIs(t.ptn, level, c1, c2, |w| == 1 && c1 !in s.active, hint1, hint);
    LastChain(HintStarts(ColOf(n, level, s0), ColOf(n, level, s), s0.active, |w| == 1),
              HintStarts(ColOf(n, level, s), ColOf(n, level, t), s.active, |w| == 1), hint0, hint1, hint);
    CuttingMade(g, level, s0, t, w, c2 + 1, hint0, hint);
  }

  lemma CuttingHint(g: Graph, level: int, s: Part, t: Part, w: set<nat>, c: nat, hint0: nat, hint: nat)
    requires Cutting(g, level, s, t, w, c, hint0, hint) && PartOk(|g|, level, s) && PartOk(|g|, level, t)
    ensures LastOf(HintStarts(ColOf(|g|, level, s), ColOf(|g|, level, t), s.active, |w| == 1), hint0, hint)
  {
  }

  lemma CuttingMade(g: Graph, level: int, s: Part, t: Part, w: set<nat>, c: nat, hint0: nat, hint: nat)
    requires PartOk(|g|, level, s) && PartOk(|g|, level, t)
    requires Going(Earliest, |g|, level, s, t, CountedKey(g, w), c)
    requires LastOf(HintStarts(ColOf(|g|, level, s), ColOf(|g|, level, t), s.active, |w| == 1), hint0, hint)
    ensures Cutting(g, level, s, t, w, c, hint0, hint)
  {
  }

  lemma HintIs(ptn2: seq<int>, level: int, c1: nat, c2: nat, asked: bool, hint0: nat, hint: nat)
    requires HintAt(ptn2, level, c1, c2, asked, hint0, hint)
    ensures LastOf(Singles(ptn2, level, c1, c2 + 1) + FirstSingle(ptn2, level, c1, asked), hint0, hint)
  {
  }

  // A cell whose vertices are counted alike is left as it is.
  lemma CuttingUncut(g: Graph, level: int, s0: Part, s: Part, w: set<nat>, c1: nat, c2: nat, hint0: nat, hint: nat)
    requires Cutting(g, level, s0, s, w, c1, hint0, hint) && CellAt(s.ptn, level, c1, c2) && c2 < |s.lab|
    requires forall i :: c1 <= i <= c2 ==> CountedKey(g, w)(s.lab[i]) == CountedKey(g, w)(s.lab[c1])
    ensures Cutting(g, level, s0, s, w, c2 + 1, hint0, hint)
  {
    Uncut(Earliest, |g|, level, s0, s, CountedKey(g, w), c1, c2);
  }

  // ----- runs -----

  // Every step of the run takes the chosen cell and cuts along what that cell counts.
  ghost predicate IsCutRun(g: Graph, level: int, run: Run) {
    && PartOk(|g|, level, run.state)
    && (run.Next? ==>
        && IsCutRun(g, level, run.before) && run.before.state.numcells < |g|
        && Chosen(run.before.state.active, HintOf(|g|, level, run.before), run.cell)
        && Cuts(g, level, run.before.state, run.cell, run.state))
  }

  // A run from s to t that stopped where the code stops.
  ghost predicate Refinement1(g: Graph, level: int, s: Part, run: Run, t: Part) {
    IsCutRun(g, level, run) && First(run) == s && run.state == t && (t.numcells >= |g| || t.active == {})
  }

  lemma {:induction false} CutRunIsRun(g: Graph, level: int, run: Run)
    requires IsCutRun(g, level, run)
    ensures IsRun(|g|, level, run) && PartOk(|g|, level, First(run))
  {
    if run.Next? {
      CutRunIsRun(g, level, run.before);
      var w := Class(ColOf(|g|, level, run.before.state), run.cell);
      StepUses(Earliest, |g|, level, run.before.state, run.cell, run.state, CountedKey(g, w));
    }
  }

  // ----- nothing that is equitable both ways is cut -----

  // Equitable for the arcs that leave and for the arcs that enter.
  ghost predicate BothEquitable(g: Graph, q: seq<nat>) {
    Equitable(RowWeights(g), q) && Equitable(ArcWeights(g), q)
  }

  // No refinement of init that is equitable both ways is cut by col.
  ghost predicate CutsNone(g: Graph, init: seq<nat>, col: seq<nat>) {
    forall q: seq<nat> :: Refines(q, init) && BothEquitable(g, q) ==> Refines(q, col)
  }

  lemma StepCutsNone(g: Graph, level: int, s: Part, cell: nat, t: Part, q: seq<nat>)
    requires Cuts(g, level, s, cell, t) && PartOk(|g|, level, s) && PartOk(|g|, level, t)
    requires BothEquitable(g, q) && Refines(q, ColOf(|g|, level, s))
    ensures Refines(q, ColOf(|g|, level, t))
  {
    var col := ColOf(|g|, level, s);
    var w := Class(col, cell);
    ClassSaturated(q, col, cell);
    hide PartOk, ColOf, Equitable, Step;
    forall u: nat, v: nat | u < |q| && v < |q| && q[u] == q[v] ensures CountedKey(g, w)(u) == CountedKey(g, w)(v) {
      EquitableUnionAgrees(RowWeights(g), q, w, u, v);
      EquitableUnionAgrees(ArcWeights(g), q, w, u, v);
    }
    StepCutsNot(Earliest, |g|, level, s, cell, t, CountedKey(g, w), q);
  }

  // ----- when one direction tells the other -----

  // Among the other vertices, those that w points to alike point to w alike.
  ghost predicate TellingAt(g: Graph, w: nat) {
    w < |g| && forall u: nat, v: nat :: u < |g| && v < |g| && u != w && v != w ==>
      (u in g[w] <==> v in g[w]) ==> (w in g[u] <==> w in g[v])
  }

  // And the other way round as well.
  ghost predicate MirroredAt(g: Graph, w: nat) {
    w < |g| && forall u: nat, v: nat :: u < |g| && v < |g| && u != w && v != w ==>
      ((u in g[w] <==> v in g[w]) <==> (w in g[u] <==> w in g[v]))
  }

  ghost predicate Telling(g: Graph) {
    forall w: nat :: w < |g| ==> TellingAt(g, w)
  }

  ghost predicate Mirrored(g: Graph) {
    forall w: nat :: w < |g| ==> MirroredAt(g, w)
  }

  ghost predicate Tournament(g: Graph) {
    forall u: nat, v: nat :: u < |g| && v < |g| && u != v ==> (u in g[v] <==> v !in g[u])
  }

  lemma MirroredIsTelling(g: Graph)
    requires Mirrored(g)
    ensures Telling(g)
  {
    forall w: nat | w < |g| ensures TellingAt(g, w) {
      assert MirroredAt(g, w);
    }
  }

  lemma SymmetricIsMirrored(g: Graph)
    requires Symmetric(g)
    ensures Mirrored(g)
  {
    forall w: nat | w < |g| ensures MirroredAt(g, w) {
      assert forall u: nat :: u < |g| ==> (u in g[w] <==> w in g[u]);
    }
  }

  lemma TournamentIsMirrored(g: Graph)
    requires Tournament(g)
    ensures Mirrored(g)
  {
    forall w: nat | w < |g| ensures MirroredAt(g, w) {
      assert forall u: nat :: u < |g| && u != w ==> (u in g[w] <==> w !in g[u]);
    }
  }

  // Arcs from and to a single vertex.
  lemma SingleCounts(g: Graph, x: nat, u: nat, v: nat)
    requires x < |g| && u < |g| && v < |g|
    ensures Agree(ArcWeights(g), {x}, u, v) <==> (u in g[x] <==> v in g[x])
    ensures Agree(RowWeights(g), {x}, u, v) <==> (x in g[u] <==> x in g[v])
  {
    OneArc(g, x, u);
    OneArc(g, x, v);
    OneRow(g, x, u);
    OneRow(g, x, v);
  }

  lemma OneRow(g: Graph, x: nat, u: nat)
    requires u < |g|
    ensures Count(RowWeights(g), {x}, u) == if x in g[u] then 1 else 0
  {
    CountIsOverlap(g, {x}, u);
    assert {x} * g[u] == if x in g[u] then {x} else {};
  }

  lemma OnlyMember(w: set<nat>, x: nat)
    requires |w| == 1 && x in w
    ensures w == {x}
  {
    assert |w - {x}| == 0;
    assert w == {x} + (w - {x});
  }

  // For two vertices of one class, agreeing on what is counted is agreeing on the arcs into w.
  lemma CountedTells(g: Graph, col: seq<nat>, cell: nat, u: nat, v: nat)
    requires |col| == |g| && u < |g| && v < |g| && col[u] == col[v]
    ensures Telling(g) && CountedAlike(g, Class(col, cell), u, v) ==> Agree(RowWeights(g), Class(col, cell), u, v)
    ensures Mirrored(g) && Agree(RowWeights(g), Class(col, cell), u, v) ==> CountedAlike(g, Class(col, cell), u, v)
  {
    var w := Class(col, cell);
    if |w| == 1 {
      var x := Pick(w);
      OnlyMember(w, x);
      SingleCounts(g, x, u, v);
      if u != x && v != x {
        if Telling(g) { assert TellingAt(g, x); }
        if Mirrored(g) { assert MirroredAt(g, x); }
      } else {
        assert u in w && v in w;
      }
    }
  }

  lemma StepCoarse(g: Graph, level: int, s: Part, cell: nat, t: Part, q: seq<nat>)
    requires Cuts(g, level, s, cell, t) && PartOk(|g|, level, s) && PartOk(|g|, level, t)
    requires Mirrored(g) && Equitable(RowWeights(g), q) && Refines(q, ColOf(|g|, level, s))
    ensures Refines(q, ColOf(|g|, level, t))
  {
    var col := ColOf(|g|, level, s);
    var w := Class(col, cell);
    ClassSaturated(q, col, cell);
    hide PartOk, ColOf, Equitable, Step, Mirrored, CountedAlike, CountedKey;
    forall u: nat, v: nat | u < |q| && v < |q| && q[u] == q[v] ensures CountedKey(g, w)(u) == CountedKey(g, w)(v) {
      EquitableUnionAgrees(RowWeights(g), q, w, u, v);
      CountedTells(g, col, cell, u, v);
      AlikeKey(g, w, u, v);
    }
    StepCutsNot(Earliest, |g|, level, s, cell, t, CountedKey(g, w), q);
  }

  // A step from a correct active set leads to a correct active set.
  lemma TellingKeepsQueue(g: Graph, level: int, s: Part, cell: nat, t: Part)
    requires Cuts(g, level, s, cell, t) && PartOk(|g|, level, s) && PartOk(|g|, level, t) && Telling(g)
    requires QueueInv(RowWeights(g), ColOf(|g|, level, s), s.active)
    ensures QueueInv(RowWeights(g), ColOf(|g|, level, t), t.active)
    ensures Refines(ColOf(|g|, level, t), ColOf(|g|, level, s))
  {
    var col := ColOf(|g|, level, s);
    var key := CountedKey(g, Class(col, cell));
    hide PartOk, ColOf, Step, Telling, CountedAlike, CountedKey, QueueInv;
    forall u: nat, v: nat | u < |col| && v < |col| && col[u] == col[v] && key(u) == key(v)
      ensures Agree(RowWeights(g), Class(col, cell), u, v)
    {
      AlikeKey(g, Class(col, cell), u, v);
      CountedTells(g, col, cell, u, v);
    }
    StepKeepsQueue(Earliest, RowWeights(g), |g|, level, s, cell, t, key);
    StepRefines(Earliest, |g|, level, s, cell, t, key);
  }

  // ----- whole runs -----

  lemma {:induction false} RunKeepsQueue(g: Graph, level: int, run: Run)
    requires IsCutRun(g, level, run) && PartOk(|g|, level, First(run)) && Telling(g)
    requires QueueInv(RowWeights(g), ColOf(|g|, level, First(run)), First(run).active)
    ensures QueueInv(RowWeights(g), ColOf(|g|, level, run.state), run.state.active)
    ensures Refines(ColOf(|g|, level, run.state), ColOf(|g|, level, First(run)))
  {
    hide QueueInv, PartOk, ColOf, Cuts, Telling;
    if run.Next? {
      RunKeepsQueue(g, level, run.before);
      TellingKeepsQueue(g, level, run.before.state, run.cell, run.state);
    }
  }

  // Main theorem: if one direction of the arcs tells the other, the result is equitable.
  lemma RunEquitable(g: Graph, level: int, s: Part, run: Run, t: Part)
    requires Refinement1(g, level, s, run, t) && PartOk(|g|, level, s) && Telling(g)
    requires QueueInv(RowWeights(g), ColOf(|g|, level, s), s.active)
    ensures PartOk(|g|, level, t) && Equitable(RowWeights(g), ColOf(|g|, level, t))
    ensures Refines(ColOf(|g|, level, t), ColOf(|g|, level, s))
  {
    RunKeepsQueue(g, level, run);
    hide PartOk, ColOf, Cuts;
    StoppedEquitable(RowWeights(g), |g|, level, t);
  }

  lemma {:induction false} RunCoarse(g: Graph, level: int, run: Run, q: seq<nat>)
    requires IsCutRun(g, level, run) && PartOk(|g|, level, First(run)) && Mirrored(g)
    requires Equitable(RowWeights(g), q) && Refines(q, ColOf(|g|, level, First(run)))
    ensures Refines(q, ColOf(|g|, level, run.state))
  {
    hide Equitable, Refines, PartOk, ColOf, Cuts, Mirrored;
    if run.Next? {
      RunCoarse(g, level, run.before, q);
      StepCoarse(g, level, run.before.state, run.cell, run.state, q);
    }
  }

  // Main theorem: if each direction tells the other, the result is the coarsest equitable one.
  lemma RunCoarsest(g: Graph, level: int, s: Part, run: Run, t: Part)
    requires Refinement1(g, level, s, run, t) && PartOk(|g|, level, s) && Mirrored(g)
    requires QueueInv(RowWeights(g), ColOf(|g|, level, s), s.active)
    ensures PartOk(|g|, level, t) && CoarsestEquitable(RowWeights(g), ColOf(|g|, level, s), ColOf(|g|, level, t))
  {
    MirroredIsTelling(g);
    RunEquitable(g, level, s, run, t);
    hide Mirrored, Equitable, Refines, ColOf, PartOk;
    forall q: seq<nat> | Refines(q, ColOf(|g|, level, s)) && Equitable(RowWeights(g), q)
      ensures Refines(q, ColOf(|g|, level, t))
    {
      RunCoarse(g, level, run, q);
    }
  }

  lemma {:induction false} RunCutsOne(g: Graph, level: int, run: Run, q: seq<nat>)
    requires IsCutRun(g, level, run) && PartOk(|g|, level, First(run))
    requires BothEquitable(g, q) && Refines(q, ColOf(|g|, level, First(run)))
    ensures Refines(q, ColOf(|g|, level, run.state))
  {
    hide BothEquitable, Refines, PartOk, ColOf, Cuts;
    if run.Next? {
      RunCutsOne(g, level, run.before, q);
      StepCutsNone(g, level, run.before.state, run.cell, run.state, q);
    }
  }

  // Main theorem: on every digraph, nothing that is equitable both ways is cut.
  lemma RunCutsNone(g: Graph, level: int, run: Run)
    requires IsCutRun(g, level, run) && PartOk(|g|, level, First(run))
    ensures CutsNone(g, ColOf(|g|, level, First(run)), ColOf(|g|, level, run.state))
  {
    var init := ColOf(|g|, level, First(run));
    hide BothEquitable, Refines, PartOk, ColOf, Cuts;
    forall q: seq<nat> | Refines(q, init) && BothEquitable(g, q) ensures Refines(q, ColOf(|g|, level, run.state)) {
      RunCutsOne(g, level, run, q);
    }
  }

  // ----- runs that do nothing -----

  // No class needs to be cut by the vertices w.
  ghost predicate Quiet(g: Graph, w: set<nat>, col: seq<nat>) {
    forall u: nat, v: nat :: u < |col| && v < |col| && col[u] == col[v] ==> CountedAlike(g, w, u, v)
  }

  // Every class agrees on what each active class counts.
  ghost predicate Undisturbed(g: Graph, col: seq<nat>, active: set<nat>) {
    forall d: nat :: d in active ==> Quiet(g, Class(col, d), col)
  }

  // Main theorem: then the partition stays as it is.
  lemma {:induction false} RunUndisturbed(g: Graph, level: int, run: Run)
    requires IsCutRun(g, level, run) && PartOk(|g|, level, First(run))
    requires Undisturbed(g, ColOf(|g|, level, First(run)), First(run).active)
    ensures ColOf(|g|, level, run.state) == ColOf(|g|, level, First(run))
    ensures run.state.active <= First(run).active
  {
    if run.Next? {
      RunUndisturbed(g, level, run.before);
      var s, cell := run.before.state, run.cell;
      var col := ColOf(|g|, level, s);
      var w := Class(col, cell);
      assert Quiet(g, w, col);
      forall u: nat, v: nat | u < |g| && v < |g| && col[u] == col[v]
        ensures CountedKey(g, w)(u) == CountedKey(g, w)(v)
      {
        AlikeKey(g, w, u, v);
      }
      QuietStep(Earliest, |g|, level, s, cell, run.state, CountedKey(g, w));
    }
  }
}
