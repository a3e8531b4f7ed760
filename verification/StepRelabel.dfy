// A step of refinement in place commutes with relabelling, as long as it is settled which of several
// largest pieces is spared.
module StepRelabel {
  import opened Sums
  import opened Graphs
  import opened GroupOrbits
  import opened Refinement
  import opened Nests
  import opened NestRefinement
  import opened NestCost
  import opened PassSteps
  import opened QueuePasses

  // p maps g onto g2, arc for arc.
  ghost predicate Maps(g: Graph, g2: Graph, p: seq<nat>) {
    && |g2| == |g| && Permutation(|g|, p)
    && forall u: nat, v: nat :: u < |g| && v < |g| ==> (p[v] in g2[p[u]] <==> v in g[u])
  }

  // The same cells, their vertices relabelled.
  ghost predicate Alike(p: seq<nat>, level: int, s: Part, s2: Part) {
    && PartOk(|p|, level, s) && PartOk(|p|, level, s2)
    && Carried(p, ColOf(|p|, level, s), ColOf(|p|, level, s2))
    && s2.active == s.active && s2.numcells == s.numcells
  }

  // Relabelling the list of vertices relabels the cells.
  lemma RelabelledStart(p: seq<nat>, level: int, s: Part, s2: Part)
    requires PartOk(|p|, level, s) && Permutation(|p|, p)
    requires |s2.lab| == |p| && forall i :: 0 <= i < |p| ==> s.lab[i] < |p| && s2.lab[i] == p[s.lab[i]]
    requires s2.ptn == s.ptn && s2.active == s.active && s2.numcells == s.numcells
    ensures Alike(p, level, s, s2)
  {
    var n := |p|;
    forall i, j | 0 <= i < j < n ensures s2.lab[i] != s2.lab[j] {
      assert s.lab[i] != s.lab[j];
    }
    assert PartOk(n, level, s2);
    forall v: nat | v < n ensures ColOf(n, level, s2)[p[v]] == ColOf(n, level, s)[v] {
      var i := Preimage(n, s.lab, v);
      ColAt(n, s.lab, s.ptn, level, i);
      ColAt(n, s2.lab, s2.ptn, level, i);
    }
  }

  // ----- one step -----

  ghost predicate SameKey(p: seq<nat>, key: Key, key2: Key) {
    forall v: nat :: v < |p| ==> key2(p[v]) == key(v)
  }

  lemma CarriedAhead(p: seq<nat>, col: seq<nat>, col2: seq<nat>, key: Key, key2: Key, v: nat)
    requires Carried(p, col, col2) && SameKey(p, key, key2) && v < |p|
    ensures |Ahead(col2, key2, p[v])| == |Ahead(col, key, v)|
  {
    var here, there := Ahead(col, key, v), Ahead(col2, key2, p[v]);
    forall y ensures y in there <==> y in Image(p, here) {
      if y in there {
        var x := PermutationOnto(|p|, p, y);
        assert x in here;
      }
    }
    ImageCard(|p|, p, here);
    assert there == Image(p, here);
  }

  lemma CarriedPieces(p: seq<nat>, col: seq<nat>, col2: seq<nat>, res: seq<nat>, res2: seq<nat>, d: nat)
    requires Carried(p, col, col2) && Carried(p, res, res2)
    ensures Pieces(col2, res2, d) == Pieces(col, res, d)
  {
    CarriedClass(p, col, col2, d);
    forall e ensures e in Pieces(col2, res2, d) <==> e in Pieces(col, res, d) {
      if e in Pieces(col, res, d) {
        var v :| v in Class(col, d) && res[v] == e;
        assert p[v] in Class(col2, d) && res2[p[v]] == e;
      }
      if e in Pieces(col2, res2, d) {
        var y :| y in Class(col2, d) && res2[y] == e;
        var v := PermutationOnto(|p|, p, y);
        assert v in Class(col, d) && res[v] == e;
      }
    }
  }

  lemma CarriedSize(p: seq<nat>, col: seq<nat>, col2: seq<nat>, d: nat)
    requires Carried(p, col, col2)
    ensures |Class(col2, d)| == |Class(col, d)|
  {
    CarriedClass(p, col, col2, d);
    ImageCard(|p|, p, Class(col, d));
  }

  // Which piece is spared depends on the sizes only.
  lemma SameSpared(tie: Tie, p: seq<nat>, col: seq<nat>, col2: seq<nat>, res: seq<nat>, res2: seq<nat>, d: nat,
                   x: nat, y: nat, act: set<nat>, act2: set<nat>, e: nat)
    requires Carried(p, col, col2) && Carried(p, res, res2) && |res| == |col|
    requires Spares(tie, col, res, d, x, act) && Spares(tie, col2, res2, d, y, act2)
    requires tie != Any && e in Pieces(col, res, d)
    ensures e in act2 <==> e in act
  {
    CarriedPieces(p, col, col2, res, res2, d);
    forall c | c in Pieces(col, res, d) ensures |Class(res2, c)| == |Class(res, c)| {
      CarriedSize(p, res, res2, c);
    }
    assert x in Pieces(col, res, d) && y in Pieces(col, res, d);
    assert IsSpared(tie, Pieces(col, res, d), res, y);
    SparedUnique(tie, Pieces(col, res, d), res, x, y);
    assert e in act <==> e in Pieces(col, res, d) * act;
    assert e in act2 <==> e in Pieces(col2, res2, d) * act2;
  }

  lemma SameSpread(tie: Tie, p: seq<nat>, col: seq<nat>, col2: seq<nat>, res: seq<nat>, res2: seq<nat>,
                   active: set<nat>, act: set<nat>, act2: set<nat>, d: nat, e: nat)
    requires Carried(p, col, col2) && Carried(p, res, res2) && |res| == |col|
    requires Respread(tie, col, res, active, act, d) && Respread(tie, col2, res2, active, act2, d)
    requires tie != Any && e in Pieces(col, res, d)
    ensures e in act2 <==> e in act
  {
    CarriedPieces(p, col, col2, res, res2, d);
    if d !in active {
      var x: nat :| Spares(tie, col, res, d, x, act);
      var y: nat :| Spares(tie, col2, res2, d, y, act2);
      SameSpared(tie, p, col, col2, res, res2, d, x, y, act, act2, e);
    }
  }

  lemma StepCarried(tie: Tie, p: seq<nat>, level: int, s: Part, s2: Part, cell: nat, t: Part, t2: Part, key: Key,
                    key2: Key)
    requires Step(tie, |p|, level, s, cell, t, key) && Step(tie, |p|, level, s2, cell, t2, key2)
    requires tie != Any && Alike(p, level, s, s2) && SameKey(p, key, key2)
    ensures Alike(p, level, t, t2)
  {
    var n := |p|;
    StepParts(tie, n, level, s, cell, t, key);
    StepParts(tie, n, level, s2, cell, t2, key2);
    var col, col2, res, res2 := ColOf(n, level, s), ColOf(n, level, s2), ColOf(n, level, t), ColOf(n, level, t2);
    assert Carried(p, col, col2) && s2.active == s.active;
    hide Step, PartOk, ColOf, Ahead, SameKey;
    forall v: nat | v < n ensures res2[p[v]] == res[v] {
      StepPlaces(tie, n, level, s, cell, t, key, v);
      StepPlaces(tie, n, level, s2, cell, t2, key2, p[v]);
      CarriedAhead(p, col, col2, key, key2, v);
    }
    forall e: nat ensures e in t2.active <==> e in t.active {
      ActiveCarried(tie, p, level, s, s2, cell, t, t2, key, key2, e);
    }
    SameStarts(n, level, p, t, t2);
    assert t2.active == t.active;
    AlikeMade(p, level, t, t2);
  }

  lemma AlikeMade(p: seq<nat>, level: int, t: Part, t2: Part)
    requires PartOk(|p|, level, t) && PartOk(|p|, level, t2) && t2.active == t.active && t2.numcells == t.numcells
    requires Carried(p, ColOf(|p|, level, t), ColOf(|p|, level, t2))
    ensures Alike(p, level, t, t2)
  {
  }

  lemma ActiveCarried(tie: Tie, p: seq<nat>, level: int, s: Part, s2: Part, cell: nat, t: Part, t2: Part, key: Key,
                      key2: Key, e: nat)
    requires Step(tie, |p|, level, s, cell, t, key) && Step(tie, |p|, level, s2, cell, t2, key2)
    requires PartOk(|p|, level, s) && PartOk(|p|, level, s2) && PartOk(|p|, level, t) && PartOk(|p|, level, t2)
    requires tie != Any && Carried(p, ColOf(|p|, level, s), ColOf(|p|, level, s2)) && s2.active == s.active
    requires Carried(p, ColOf(|p|, level, t), ColOf(|p|, level, t2))
    ensures e in t2.active <==> e in t.active
  {
    var n := |p|;
    var col, col2, res, res2 := ColOf(n, level, s), ColOf(n, level, s2), ColOf(n, level, t), ColOf(n, level, t2);
    if e in t.active { AStart(n, level, t, e); }
    if e in t2.active { AStart(n, level, t2, e); CarriedSize(p, res, res2, e); }
    if e in t.active || e in t2.active {
      assert Class(res, e) != {};
      var v := Pick(Class(res, e));
      ColourBelow(n, level, s, v);
      StepSpread(tie, n, level, s, cell, t, key, col[v]);
      StepSpread(tie, n, level, s2, cell, t2, key2, col[v]);
      hide Step, PartOk, ColOf, Respread;
      assert v in Class(col, col[v]);
      SameSpread(tie, p, col, col2, res, res2, s.active - {cell}, t.active, t2.active, col[v], e);
    }
  }

  // The classes are named by the starts of the cells.
  lemma StartsOfClasses(n: nat, level: int, s: Part, d: nat)
    requires PartOk(n, level, s)
    ensures d in Starts(s.ptn, level) <==> Class(ColOf(n, level, s), d) != {}
  {
    var col := ColOf(n, level, s);
    if d in Starts(s.ptn, level) {
      ColAt(n, s.lab, s.ptn, level, d);
      StartIsItself(s.ptn, level, d);
      assert s.lab[d] in Class(col, d);
    }
    if Class(col, d) != {} {
      var v := Pick(Class(col, d));
      ColAt(n, s.lab, s.ptn, level, Preimage(n, s.lab, v));
    }
  }

  lemma SameStarts(n: nat, level: int, p: seq<nat>, t: Part, t2: Part)
    requires |p| == n && PartOk(n, level, t) && PartOk(n, level, t2)
    requires Carried(p, ColOf(n, level, t), ColOf(n, level, t2))
    ensures Starts(t2.ptn, level) == Starts(t.ptn, level) && t2.numcells == t.numcells
  {
    forall d: nat ensures d in Starts(t2.ptn, level) <==> d in Starts(t.ptn, level) {
      StartsOfClasses(n, level, t, d);
      StartsOfClasses(n, level, t2, d);
      CarriedSize(p, ColOf(n, level, t), ColOf(n, level, t2), d);
    }
    assert Starts(t2.ptn, level) == Starts(t.ptn, level);
  }

  // ----- runs -----

  ghost function Steps(run: Run): nat {
    if run.At? then 0 else Steps(run.before) + 1
  }

  // The first k steps of a run.
  ghost function Prefix(run: Run, k: nat): Run {
    if run.At? || Steps(run) <= k then run else Prefix(run.before, k)
  }

  lemma SameActive(p: seq<nat>, level: int, s: Part, s2: Part)
    requires Alike(p, level, s, s2)
    ensures s2.active == s.active && s2.numcells == s.numcells
  {
  }

  // ----- results -----

  // The positions c1..c2 hold the relabelled vertices.
  ghost predicate CellCarried(p: seq<nat>, t: Part, t2: Part, c1: nat, c2: nat) {
    && c1 <= c2 < |t.lab| == |t2.lab|
    && Members(t2.lab, c1, c2) == set x | x in Members(t.lab, c1, c2) && x < |p| :: p[x]
  }

  lemma SameResultEnds(p: seq<nat>, level: int, ptn: seq<int>, t: Part, t2: Part)
    requires Alike(p, level, t, t2) && Finer(ptn, t.ptn, level) && Finer(ptn, t2.ptn, level)
    ensures t2.ptn == t.ptn
  {
    SameStarts(|p|, level, p, t, t2);
    SameEnds(ptn, t.ptn, t2.ptn, level);
  }

  lemma SameEnds(ptn: seq<int>, a: seq<int>, b: seq<int>, level: int)
    requires Finer(ptn, a, level) && Finer(ptn, b, level) && Starts(a, level) == Starts(b, level)
    requires |a| > 0 ==> a[|a| - 1] <= level && b[|a| - 1] <= level
    ensures a == b
  {
    forall k | 0 <= k < |a| ensures a[k] == b[k] {
      if k + 1 < |a| { assert k + 1 in Starts(a, level) <==> k + 1 in Starts(b, level); }
    }
  }

  lemma MembersCarried(p: seq<nat>, level: int, t: Part, t2: Part, c1: nat, c2: nat)
    requires Alike(p, level, t, t2) && t2.ptn == t.ptn && CellAt(t.ptn, level, c1, c2)
    ensures CellCarried(p, t, t2, c1, c2)
  {
    var n := |p|;
    MembersAreClass(n, level, t, c1, c2);
    MembersAreClass(n, level, t2, c1, c2);
    CarriedClass(p, ColOf(n, level, t), ColOf(n, level, t2), c1);
  }

  // The cells, position by position.
  lemma CellsCarried(p: seq<nat>, level: int, ptn: seq<int>, t: Part, t2: Part)
    requires Alike(p, level, t, t2) && Finer(ptn, t.ptn, level) && Finer(ptn, t2.ptn, level)
    ensures t2.ptn == t.ptn
    ensures forall c1: nat, c2: nat :: CellAt(t.ptn, level, c1, c2) ==> CellCarried(p, t, t2, c1, c2)
  {
    SameResultEnds(p, level, ptn, t, t2);
    forall c1: nat, c2: nat | CellAt(t.ptn, level, c1, c2) ensures CellCarried(p, t, t2, c1, c2) {
      MembersCarried(p, level, t, t2, c1, c2);
    }
  }
}
