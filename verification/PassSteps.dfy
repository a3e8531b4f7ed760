// What one splitting cell does to a partition kept in place, cell by cell: classes are cut in ascending
// order of a key of their vertices, and largest pieces are spared from the active set.
module PassSteps {
  import opened Sums
  import opened GroupOrbits
  import opened Refinement
  import opened Nests
  import opened NestRefinement
  import opened NestCost

  // What vertices are told apart by.
  type Key = nat -> int

  // The vertices of the class of v that go in front of it.
  ghost function Ahead(col: seq<nat>, key: Key, v: nat): set<nat>
    requires v < |col|
  {
    set u: nat | u < |col| && col[u] == col[v] && key(u) < key(v)
  }

  // Classes below c are cut in ascending order of the key, the others not at all.
  ghost predicate CutBelow(col: seq<nat>, col2: seq<nat>, key: Key, c: nat) {
    && |col2| == |col|
    && forall v: nat :: v < |col| ==> col2[v] == col[v] + if col[v] < c then |Ahead(col, key, v)| else 0
  }

  ghost predicate Untouched(col: seq<nat>, col2: seq<nat>, c: nat) {
    && |col2| == |col|
    && forall u: nat :: u < |col| && (col[u] >= c || col2[u] >= c) ==> col2[u] == col[u]
  }

  ghost predicate RespreadBelow(tie: Tie, col: seq<nat>, col2: seq<nat>, active: set<nat>, active2: set<nat>, c: nat)
    requires |col2| == |col|
  {
    && (forall d: nat :: d < c ==> Respread(tie, col, col2, active, active2, d))
    && forall d: nat :: d >= c ==> (d in active2 <==> d in active)
  }

  // The key is being used against s, and t has been reached; cells before position c are done.
  ghost predicate Going(tie: Tie, n: nat, level: int, s: Part, t: Part, key: Key, c: nat) {
    && PartOk(n, level, s) && PartOk(n, level, t) && c <= n && (c < n ==> IsStart(t.ptn, level, c))
    && Grown(level, s, t)
    && CutBelow(ColOf(n, level, s), ColOf(n, level, t), key, c)
    && Untouched(ColOf(n, level, s), ColOf(n, level, t), c)
    && RespreadBelow(tie, ColOf(n, level, s), ColOf(n, level, t), s.active, t.active, c)
  }

  // A cell is taken from the active ones, and the key used against all cells.
  ghost predicate Step(tie: Tie, n: nat, level: int, s: Part, cell: nat, t: Part, key: Key) {
    PartOk(n, level, s) && cell in s.active && Going(tie, n, level, s.(active := s.active - {cell}), t, key, n)
  }

  lemma Begin(tie: Tie, n: nat, level: int, s: Part, key: Key)
    requires PartOk(n, level, s)
    ensures Going(tie, n, level, s, s, key, 0)
  {
    GrownSelf(level, s);
  }

  lemma GoingParts(tie: Tie, n: nat, level: int, s: Part, t: Part, key: Key, c: nat)
    requires Going(tie, n, level, s, t, key, c)
    ensures PartOk(n, level, s) && PartOk(n, level, t) && Grown(level, s, t)
    ensures ActiveOk(t.ptn, level, t.active) && t.numcells == |Starts(t.ptn, level)| && |t.lab| == |t.ptn| == n
    ensures Permutation(n, t.lab)
  {
  }

  lemma GoingStart(tie: Tie, n: nat, level: int, s: Part, t: Part, key: Key, c: nat)
    requires Going(tie, n, level, s, t, key, c)
    ensures c <= n && (c < n ==> |t.ptn| == n && t.ptn[n - 1] <= level && IsStart(t.ptn, level, c))
  {
    hide Grown, CutBelow, Untouched, RespreadBelow, ColOf;
  }

  lemma GoingColours(tie: Tie, n: nat, level: int, s: Part, t: Part, key: Key, c: nat)
    requires Going(tie, n, level, s, t, key, c) && PartOk(n, level, s) && PartOk(n, level, t)
    ensures CutBelow(ColOf(n, level, s), ColOf(n, level, t), key, c)
    ensures Untouched(ColOf(n, level, s), ColOf(n, level, t), c)
    ensures RespreadBelow(tie, ColOf(n, level, s), ColOf(n, level, t), s.active, t.active, c)
  {
  }

  lemma StillActive(tie: Tie, col: seq<nat>, col2: seq<nat>, active: set<nat>, active2: set<nat>, c: nat)
    requires |col2| == |col| && RespreadBelow(tie, col, col2, active, active2, c)
    ensures c in active2 <==> c in active
  {
  }

  lemma GoingMade(tie: Tie, n: nat, level: int, s: Part, t: Part, key: Key, c: nat)
    requires PartOk(n, level, s) && PartOk(n, level, t) && c <= n && (c < n ==> IsStart(t.ptn, level, c))
    requires Grown(level, s, t)
    requires CutBelow(ColOf(n, level, s), ColOf(n, level, t), key, c)
    requires Untouched(ColOf(n, level, s), ColOf(n, level, t), c)
    requires RespreadBelow(tie, ColOf(n, level, s), ColOf(n, level, t), s.active, t.active, c)
    ensures Going(tie, n, level, s, t, key, c)
  {
  }

  // ----- cutting one cell -----

  // The positions of the cell carry the keys of their vertices.
  ghost predicate KeyAt(key: Key, lab2: seq<nat>, c1: nat, c2: nat, keys: seq<int>) {
    && c2 < |lab2| == |keys|
    && forall i :: c1 <= i <= c2 ==> keys[i] == key(lab2[i])
  }

  // One class is cut, all others stay.
  ghost predicate CutAlone(col: seq<nat>, col2: seq<nat>, key: Key, c1: nat, c2: nat) {
    && |col2| == |col| && c1 <= c2
    && (forall u: nat :: u < |col| && col[u] != c1 ==> col2[u] == col[u] && (col[u] < c1 || c2 < col[u]))
    && (forall u: nat :: u < |col| && col[u] == c1 ==> c1 <= col2[u] <= c2 && col2[u] == c1 + |Ahead(col, key, u)|)
  }

  lemma CellCutAlone(n: nat, level: int, s: Part, t: Part, key: Key, c1: nat, c2: nat, keys: seq<int>)
    requires PartOk(n, level, s) && PartOk(n, level, t) && CellAt(s.ptn, level, c1, c2)
    requires Within(s.lab, s.ptn, t.lab, t.ptn, c1, c2)
    requires CutAt(t.ptn, level, c1, c2, keys) && KeyAt(key, t.lab, c1, c2, keys)
    ensures CutAlone(ColOf(n, level, s), ColOf(n, level, t), key, c1, c2)
  {
    var col, col2 := ColOf(n, level, s), ColOf(n, level, t);
    forall u: nat | u < n
      ensures col[u] != c1 ==> col2[u] == col[u] && (col[u] < c1 || c2 < col[u])
      ensures col[u] == c1 ==> c1 <= col2[u] <= c2
    {
      PieceWithin(n, level, s, t, c1, c2, u);
    }
    hide PartOk, CutAt, Within, CellAt, KeyAt;
    forall u: nat | u < n && col[u] == c1 ensures col2[u] == c1 + |Ahead(col, key, u)| {
      PieceStart(n, level, s, t, key, c1, c2, keys, u);
    }
  }

  // A piece begins after all vertices of its class with smaller keys.
  lemma PieceStart(n: nat, level: int, s: Part, t: Part, key: Key, c1: nat, c2: nat, keys: seq<int>, v: nat)
    requires PartOk(n, level, s) && PartOk(n, level, t) && CellAt(s.ptn, level, c1, c2)
    requires Within(s.lab, s.ptn, t.lab, t.ptn, c1, c2)
    requires CutAt(t.ptn, level, c1, c2, keys) && KeyAt(key, t.lab, c1, c2, keys)
    requires v < n && ColOf(n, level, s)[v] == c1
    ensures ColOf(n, level, t)[v] == c1 + |Ahead(ColOf(n, level, s), key, v)|
  {
    var i := Position(n, s.lab, s.ptn, t.lab, t.ptn, level, c1, c2, v);
    var d := StartOf(t.ptn, level, i);
    assert c1 <= d <= i;
    FrontCard(n, t.lab, c1, d);
    hide CutAt, KeyAt, CellAt, PartOk, ColOf, Within, StartOf;
    forall u: nat ensures u in Ahead(ColOf(n, level, s), key, v) <==> u in Elems(t.lab[c1..d]) {
      InFront(n, level, s, t, key, c1, c2, keys, i, d, u);
    }
    assert Elems(t.lab[c1..d]) == Ahead(ColOf(n, level, s), key, v);
  }

  lemma InFront(n: nat, level: int, s: Part, t: Part, key: Key, c1: nat, c2: nat, keys: seq<int>, i: nat, d: nat,
                u: nat)
    requires PartOk(n, level, s) && PartOk(n, level, t) && CellAt(s.ptn, level, c1, c2)
    requires Within(s.lab, s.ptn, t.lab, t.ptn, c1, c2)
    requires CutAt(t.ptn, level, c1, c2, keys) && KeyAt(key, t.lab, c1, c2, keys)
    requires i < |t.ptn| && c1 <= d <= i <= c2 < |t.lab| && d == StartOf(t.ptn, level, i)
    requires t.lab[i] < n && ColOf(n, level, s)[t.lab[i]] == c1
    ensures u in Ahead(ColOf(n, level, s), key, t.lab[i]) <==> u in Elems(t.lab[c1..d])
  {
    hide *;
    var col := ColOf(n, level, s);
    KeysAre(key, t.lab, c1, c2, keys);
    if u < n && col[u] == c1 {
      var j := PlaceInCell(n, level, s, t, c1, c2, u);
      SmallerKeys(t.ptn, level, c1, c2, keys, i, j);
      AheadIs(col, key, t.lab[i], u);
      SliceHas(n, t.lab, c1, d, j);
      assert u == t.lab[j];
    } else {
      AheadIs(col, key, t.lab[i], u);
      if u in Elems(t.lab[c1..d]) {
        var k := SlicePlace(t.lab, c1, d, u);
        InCellStill(n, level, s, t, c1, c2, k);
        assert false;
      }
    }
  }

  lemma KeysAre(key: Key, lab2: seq<nat>, c1: nat, c2: nat, keys: seq<int>)
    requires KeyAt(key, lab2, c1, c2, keys)
    ensures c2 < |lab2| == |keys| && forall i :: c1 <= i <= c2 ==> keys[i] == key(lab2[i])
  {
  }

  lemma AheadIs(col: seq<nat>, key: Key, v: nat, u: nat)
    requires v < |col|
    ensures u in Ahead(col, key, v) <==> u < |col| && col[u] == col[v] && key(u) < key(v)
  {
  }

  lemma PlaceInCell(n: nat, level: int, s: Part, t: Part, c1: nat, c2: nat, u: nat) returns (j: nat)
    requires PartOk(n, level, s) && PartOk(n, level, t) && CellAt(s.ptn, level, c1, c2)
    requires Within(s.lab, s.ptn, t.lab, t.ptn, c1, c2) && u < n && ColOf(n, level, s)[u] == c1
    ensures c1 <= j <= c2 < |t.lab| && t.lab[j] == u && Permutation(n, t.lab)
  {
    j := Position(n, s.lab, s.ptn, t.lab, t.ptn, level, c1, c2, u);
  }

  lemma SliceHas(n: nat, lab: seq<nat>, c1: nat, d: nat, j: nat)
    requires Permutation(n, lab) && c1 <= d <= |lab| && c1 <= j < |lab|
    ensures lab[j] in Elems(lab[c1..d]) <==> j < d
  {
    if j < d { assert lab[c1..d][j - c1] == lab[j]; }
    if lab[j] in lab[c1..d] {
      var k :| 0 <= k < d - c1 && lab[c1..d][k] == lab[j];
      assert lab[c1 + k] == lab[j];
    }
  }

  lemma SlicePlace(lab: seq<nat>, c1: nat, d: nat, u: nat) returns (k: nat)
    requires c1 <= d <= |lab| && u in Elems(lab[c1..d])
    ensures c1 <= k < d && lab[k] == u
  {
    var j :| 0 <= j < d - c1 && lab[c1..d][j] == u;
    k := c1 + j;
  }

  lemma SmallerKeys(ptn2: seq<int>, level: int, c1: nat, c2: nat, keys: seq<int>, i: nat, j: nat)
    requires CutAt(ptn2, level, c1, c2, keys) && c1 <= i <= c2 && c1 <= j <= c2
    requires c1 <= StartOf(ptn2, level, i)
    ensures keys[j] < keys[i] <==> j < StartOf(ptn2, level, i)
  {
    var d := StartOf(ptn2, level, i);
    StartIsItself(ptn2, level, d);
    SameBlock(ptn2, level, c1, c2, keys, i, d);
    SameBlock(ptn2, level, c1, c2, keys, i, j);
  }

  lemma InCellStill(n: nat, level: int, s: Part, t: Part, c1: nat, c2: nat, k: nat)
    requires PartOk(n, level, s) && PartOk(n, level, t) && CellAt(s.ptn, level, c1, c2)
    requires Within(s.lab, s.ptn, t.lab, t.ptn, c1, c2) && c1 <= k <= c2
    ensures t.lab[k] < n && ColOf(n, level, s)[t.lab[k]] == c1
  {
    var i := Position(n, s.lab, s.ptn, t.lab, t.ptn, level, c1, c2, t.lab[k]);
    assert i == k;
  }

  lemma FrontCard(n: nat, lab: seq<nat>, c1: nat, d: nat)
    requires Permutation(n, lab) && c1 <= d <= n == |lab|
    ensures |Elems(lab[c1..d])| == d - c1
  {
    assert Distinct(lab[c1..d]);
    DistinctCard(lab[c1..d]);
  }

  // Where a vertex stands before, in the middle and after.
  lemma CutOfOne(col: seq<nat>, mid: seq<nat>, col2: seq<nat>, key: Key, c1: nat, c2: nat, u: nat)
    requires Untouched(col, mid, c1) && CutAlone(mid, col2, key, c1, c2) && u < |col|
    ensures mid[u] == c1 <==> col[u] == c1
    ensures col[u] < c1 <==> mid[u] < c1
    ensures col[u] < c2 + 1 <==> mid[u] < c1 || mid[u] == c1
    ensures mid[u] != c1 ==> col2[u] == mid[u] && (mid[u] < c1 || c2 < mid[u])
    ensures mid[u] == c1 ==> c1 <= col2[u] <= c2
  {
  }

  lemma SameClass(col: seq<nat>, mid: seq<nat>, col2: seq<nat>, key: Key, c1: nat, c2: nat)
    requires Untouched(col, mid, c1) && CutAlone(mid, col2, key, c1, c2)
    ensures Class(mid, c1) == Class(col, c1)
  {
    forall u: nat | u < |col| ensures mid[u] == c1 <==> col[u] == c1 {
      CutOfOne(col, mid, col2, key, c1, c2, u);
    }
  }

  lemma CutFurther(col: seq<nat>, mid: seq<nat>, col2: seq<nat>, key: Key, c1: nat, c2: nat)
    requires CutBelow(col, mid, key, c1) && Untouched(col, mid, c1) && CutAlone(mid, col2, key, c1, c2)
    ensures CutBelow(col, col2, key, c2 + 1) && Untouched(col, col2, c2 + 1)
  {
    forall v: nat | v < |col|
      ensures col2[v] == col[v] + if col[v] < c2 + 1 then |Ahead(col, key, v)| else 0
      ensures col[v] >= c2 + 1 || col2[v] >= c2 + 1 ==> col2[v] == col[v]
    {
      CutOfOne(col, mid, col2, key, c1, c2, v);
      if mid[v] == c1 { SameAhead(col, mid, col2, key, c1, c2, v); }
    }
  }

  lemma SameAhead(col: seq<nat>, mid: seq<nat>, col2: seq<nat>, key: Key, c1: nat, c2: nat, v: nat)
    requires Untouched(col, mid, c1) && CutAlone(mid, col2, key, c1, c2) && v < |col| && mid[v] == c1
    ensures col[v] == c1 && Ahead(mid, key, v) == Ahead(col, key, v)
  {
    forall u: nat | u < |col| ensures mid[u] == c1 <==> col[u] == c1 {
      CutOfOne(col, mid, col2, key, c1, c2, u);
    }
  }

  // What becomes active when one class is cut.
  ghost predicate SpreadAlone(tie: Tie, mid: seq<nat>, col2: seq<nat>, actMid: set<nat>, act2: set<nat>, c1: nat,
                              c2: nat)
    requires |col2| == |mid|
  {
    && actMid <= act2 && (forall d: nat :: d in act2 && (d < c1 || c2 < d) ==> d in actMid)
    && (forall d: nat :: c1 < d <= c2 ==> d !in actMid)
    && Respread(tie, mid, col2, actMid, act2, c1)
  }

  lemma RespreadFurther(tie: Tie, col: seq<nat>, mid: seq<nat>, col2: seq<nat>, key: Key, act: set<nat>,
                        actMid: set<nat>, act2: set<nat>, c1: nat, c2: nat)
    requires Untouched(col, mid, c1) && CutAlone(mid, col2, key, c1, c2)
    requires RespreadBelow(tie, col, mid, act, actMid, c1) && SpreadAlone(tie, mid, col2, actMid, act2, c1, c2)
    ensures RespreadBelow(tie, col, col2, act, act2, c2 + 1)
  {
    assert c1 in actMid <==> c1 in act;
    forall d: nat | d < c2 + 1 ensures Respread(tie, col, col2, act, act2, d) {
      PiecesFurther(col, mid, col2, key, c1, c2, d);
      if d < c1 {
        assert Respread(tie, col, mid, act, actMid, d);
        RespreadKept(tie, col, mid, col2, key, act, actMid, act2, c1, c2, d);
      } else if c1 < d && d !in act {
        assert Spares(tie, col, col2, d, d, act2);
      } else if d == c1 && d !in act {
        var x: nat :| Spares(tie, mid, col2, d, x, act2);
        assert Spares(tie, col, col2, d, x, act2);
      }
    }
  }

  // An earlier class is not affected.
  lemma RespreadKept(tie: Tie, col: seq<nat>, mid: seq<nat>, col2: seq<nat>, key: Key, act: set<nat>, actMid: set<nat>,
                     act2: set<nat>, c1: nat, c2: nat, d: nat)
    requires Untouched(col, mid, c1) && CutAlone(mid, col2, key, c1, c2) && d < c1
    requires Respread(tie, col, mid, act, actMid, d) && SpreadAlone(tie, mid, col2, actMid, act2, c1, c2)
    ensures Respread(tie, col, col2, act, act2, d)
  {
    PiecesFurther(col, mid, col2, key, c1, c2, d);
    var pieces := Pieces(col, mid, d);
    forall e | e in pieces ensures Class(col2, e) == Class(mid, e) && (e in act2 <==> e in actMid) {
      EarlierPiece(col, mid, col2, key, c1, c2, d, e);
    }
    if d !in act {
      var x: nat :| Spares(tie, col, mid, d, x, actMid);
      assert Spares(tie, col, col2, d, x, act2);
    }
  }

  lemma EarlierPiece(col: seq<nat>, mid: seq<nat>, col2: seq<nat>, key: Key, c1: nat, c2: nat, d: nat, e: nat)
    requires Untouched(col, mid, c1) && CutAlone(mid, col2, key, c1, c2) && d < c1 && e in Pieces(col, mid, d)
    ensures e < c1 && Class(col2, e) == Class(mid, e)
  {
    var v: nat :| v in Class(col, d) && mid[v] == e;
    CutOfOne(col, mid, col2, key, c1, c2, v);
    forall u: nat | u < |col| ensures col2[u] == e <==> mid[u] == e {
      CutOfOne(col, mid, col2, key, c1, c2, u);
    }
  }

  lemma PiecesFurther(col: seq<nat>, mid: seq<nat>, col2: seq<nat>, key: Key, c1: nat, c2: nat, d: nat)
    requires Untouched(col, mid, c1) && CutAlone(mid, col2, key, c1, c2)
    ensures |col2| == |col|
    ensures d < c1 ==> Pieces(col, col2, d) == Pieces(col, mid, d)
    ensures d == c1 ==> Pieces(col, col2, d) == Pieces(mid, col2, d)
    ensures c1 < d <= c2 ==> Pieces(col, col2, d) == {}
  {
    forall u: nat | u < |col| ensures d <= c2 && col[u] == d ==> (d < c1 ==> col2[u] == mid[u]) && d <= c1 {
      CutOfOne(col, mid, col2, key, c1, c2, u);
    }
    SameClass(col, mid, col2, key, c1, c2);
    if d < c1 {
      forall x ensures x in Pieces(col, col2, d) <==> x in Pieces(col, mid, d) {
      }
    }
  }

  // The cell was cut in place: everything else is kept.
  lemma CutDone(tie: Tie, n: nat, level: int, s0: Part, s: Part, t: Part, key: Key, c1: nat, c2: nat, keys: seq<int>,
                spared: nat)
    requires Going(tie, n, level, s0, s, key, c1) && CellAt(s.ptn, level, c1, c2)
    requires Permutation(n, t.lab) && Within(s.lab, s.ptn, t.lab, t.ptn, c1, c2)
    requires CutAt(t.ptn, level, c1, c2, keys) && KeyAt(key, t.lab, c1, c2, keys)
    requires Activated(t.ptn, level, c1, c2, s.active, t.active, spared)
    requires Frugal(tie, t.ptn, level, c1, c2, s.active, t.active, spared)
    requires t.numcells == |Starts(t.ptn, level)| && Finer(s.ptn, t.ptn, level)
    requires s.numcells <= t.numcells && (t.numcells == s.numcells ==> t.active == s.active)
    ensures Going(tie, n, level, s0, t, key, c2 + 1)
  {
    hide *;
    GoingParts(tie, n, level, s0, s, key, c1);
    ActivatedOk(t.ptn, level, c1, c2, s.active, t.active, spared);
    PartMade(n, level, s, t, c1, c2);
    NextStart(n, level, s, t, c1, c2);
    var col0, col, col2 := ColOf(n, level, s0), ColOf(n, level, s), ColOf(n, level, t);
    GoingColours(tie, n, level, s0, s, key, c1);
    GrownOne(level, s0, s, t);
    CellCutAlone(n, level, s, t, key, c1, c2, keys);
    CutFurther(col0, col, col2, key, c1, c2);
    ActivatedPieces(tie, n, level, s, t, c1, c2, spared);
    RespreadFurther(tie, col0, col, col2, key, s0.active, s.active, t.active, c1, c2);
    GoingMade(tie, n, level, s0, t, key, c2 + 1);
  }

  lemma GrownOne(level: int, s0: Part, s: Part, t: Part)
    requires Grown(level, s0, s) && Finer(s.ptn, t.ptn, level)
    requires s.numcells <= t.numcells && (t.numcells == s.numcells ==> t.active == s.active)
    ensures Grown(level, s0, t)
  {
    GrownChain(level, s0, s, t);
  }

  lemma ActivatedOk(ptn2: seq<int>, level: int, c1: nat, c2: nat, active: set<nat>, active2: set<nat>, spared: nat)
    requires Activated(ptn2, level, c1, c2, active, active2, spared)
    ensures ActiveOk(ptn2, level, active2)
  {
  }

  lemma PartMade(n: nat, level: int, s: Part, t: Part, c1: nat, c2: nat)
    requires PartOk(n, level, s) && CellAt(s.ptn, level, c1, c2)
    requires Permutation(n, t.lab) && Within(s.lab, s.ptn, t.lab, t.ptn, c1, c2)
    requires ActiveOk(t.ptn, level, t.active) && t.numcells == |Starts(t.ptn, level)|
    ensures PartOk(n, level, t)
  {
  }

  lemma InnerNotActive(n: nat, level: int, s: Part, c1: nat, c2: nat)
    requires PartOk(n, level, s) && CellAt(s.ptn, level, c1, c2)
    ensures forall d: nat :: c1 < d <= c2 ==> d !in s.active
  {
    forall d: nat | c1 < d <= c2 ensures d !in s.active {
      StartsAfter(s.ptn, s.ptn, level, c1, c2, d);
    }
  }

  lemma ActivatedPieces(tie: Tie, n: nat, level: int, s: Part, t: Part, c1: nat, c2: nat, spared: nat)
    requires PartOk(n, level, s) && PartOk(n, level, t) && CellAt(s.ptn, level, c1, c2)
    requires Within(s.lab, s.ptn, t.lab, t.ptn, c1, c2)
    requires Activated(t.ptn, level, c1, c2, s.active, t.active, spared)
    requires Frugal(tie, t.ptn, level, c1, c2, s.active, t.active, spared)
    ensures SpreadAlone(tie, ColOf(n, level, s), ColOf(n, level, t), s.active, t.active, c1, c2)
  {
    var col, col2 := ColOf(n, level, s), ColOf(n, level, t);
    InnerNotActive(n, level, s, c1, c2);
    forall d: nat | d in Pieces(col, col2, c1) ensures d in t.active || (c1 !in s.active && d == spared) {
      PiecesAreStarts(n, s.lab, s.ptn, t.lab, t.ptn, level, c1, c2, d);
    }
    if c1 !in s.active {
      SparedLargest(tie, n, level, s, t, c1, c2, spared);
      assert Spares(tie, col, col2, c1, spared, t.active);
    }
  }

  // A cell whose vertices have one key is left as it is.
  lemma Uncut(tie: Tie, n: nat, level: int, s0: Part, s: Part, key: Key, c1: nat, c2: nat)
    requires Going(tie, n, level, s0, s, key, c1) && CellAt(s.ptn, level, c1, c2) && c2 < |s.lab|
    requires forall i :: c1 <= i <= c2 ==> key(s.lab[i]) == key(s.lab[c1])
    ensures Going(tie, n, level, s0, s, key, c2 + 1)
  {
    GoingParts(tie, n, level, s0, s, key, c1);
    var keys := seq(n, i requires 0 <= i < n => key(s.lab[i]));
    NoCut(tie, s.ptn, level, c1, c2, s.active, keys);
    assert KeyAt(key, s.lab, c1, c2, keys);
    hide *;
    FinerItself(s.ptn, level);
    CutDone(tie, n, level, s0, s, s, key, c1, c2, keys, c1);
  }

  // Cells whose vertices have one key can be passed over.
  lemma PassOver(tie: Tie, n: nat, level: int, s0: Part, s: Part, key: Key, c: nat, to: nat)
    requires Going(tie, n, level, s0, s, key, c) && c <= to <= n && (to < n ==> IsStart(s.ptn, level, to))
    requires PartOk(n, level, s)
    requires forall d: nat :: c <= d < to ==> OneKey(ColOf(n, level, s), key, d)
    ensures Going(tie, n, level, s0, s, key, to)
  {
    GoingParts(tie, n, level, s0, s, key, c);
    GoingColours(tie, n, level, s0, s, key, c);
    var col, col2 := ColOf(n, level, s0), ColOf(n, level, s);
    hide PartOk, ColOf, Grown, Going;
    forall v: nat | v < |col| && c <= col[v] < to ensures |Ahead(col, key, v)| == 0 {
      AheadNone(col, col2, key, c, v);
    }
    forall d: nat | d < to ensures Respread(tie, col, col2, s0.active, s.active, d) {
      if d >= c { OnePiece(tie, col, col2, s0.active, s.active, c, d); }
    }
    GoingMade(tie, n, level, s0, s, key, to);
  }

  ghost predicate OneKey(col: seq<nat>, key: Key, d: nat) {
    forall u: nat, v: nat :: u in Class(col, d) && v in Class(col, d) ==> key(u) == key(v)
  }

  lemma AheadNone(col: seq<nat>, col2: seq<nat>, key: Key, c: nat, v: nat)
    requires Untouched(col, col2, c) && v < |col| && c <= col[v] && OneKey(col2, key, col[v])
    ensures Ahead(col, key, v) == {}
  {
    forall u: nat | u < |col| && col[u] == col[v] ensures key(u) == key(v) {
      assert u in Class(col2, col[v]) && v in Class(col2, col[v]);
    }
  }

  lemma OnePiece(tie: Tie, col: seq<nat>, col2: seq<nat>, active: set<nat>, active2: set<nat>, c: nat, d: nat)
    requires Untouched(col, col2, c) && c <= d && (d in active2 <==> d in active)
    ensures Respread(tie, col, col2, active, active2, d)
  {
    assert Pieces(col, col2, d) <= {d};
    if d !in active { assert Spares(tie, col, col2, d, d, active2); }
  }

  // ----- what a step does -----

  // A class ends before the next one begins.
  lemma ClassesApart(n: nat, level: int, s: Part, u: nat, v: nat)
    requires PartOk(n, level, s) && u < n && v < n && ColOf(n, level, s)[u] < ColOf(n, level, s)[v]
    ensures var col := ColOf(n, level, s); col[u] + |Class(col, col[u])| <= col[v]
  {
    var col := ColOf(n, level, s);
    var e := CellExists(s.ptn, level, col[u]);
    CellCard(n, level, s, col[u], e);
    StartsAfter(s.ptn, s.ptn, level, col[u], e, col[v]);
  }

  lemma AheadInClass(col: seq<nat>, key: Key, v: nat)
    requires v < |col|
    ensures |Ahead(col, key, v)| < |Class(col, col[v])|
  {
    assert Ahead(col, key, v) <= Class(col, col[v]) - {v};
    SubsetCard(Ahead(col, key, v), Class(col, col[v]) - {v});
  }

  lemma AheadOrder(col: seq<nat>, key: Key, u: nat, v: nat)
    requires u < |col| && v < |col| && col[u] == col[v]
    ensures |Ahead(col, key, u)| < |Ahead(col, key, v)| <==> key(u) < key(v)
    ensures |Ahead(col, key, u)| == |Ahead(col, key, v)| <==> key(u) == key(v)
  {
    if key(u) < key(v) { AheadMore(col, key, u, v); }
    if key(v) < key(u) { AheadMore(col, key, v, u); }
    if key(u) == key(v) { assert Ahead(col, key, u) == Ahead(col, key, v); }
  }

  lemma AheadMore(col: seq<nat>, key: Key, u: nat, v: nat)
    requires u < |col| && v < |col| && col[u] == col[v] && key(u) < key(v)
    ensures |Ahead(col, key, u)| < |Ahead(col, key, v)|
  {
    assert Ahead(col, key, u) <= Ahead(col, key, v) - {u} && u in Ahead(col, key, v);
    SubsetCard(Ahead(col, key, u), Ahead(col, key, v) - {u});
  }

  lemma StepParts(tie: Tie, n: nat, level: int, s: Part, cell: nat, t: Part, key: Key)
    requires Step(tie, n, level, s, cell, t, key)
    ensures PartOk(n, level, s) && PartOk(n, level, t) && cell in s.active
    ensures CutBelow(ColOf(n, level, s), ColOf(n, level, t), key, n)
    ensures RespreadBelow(tie, ColOf(n, level, s), ColOf(n, level, t), s.active - {cell}, t.active, n)
    ensures Grown(level, s.(active := s.active - {cell}), t)
  {
    var popped := s.(active := s.active - {cell});
    assert ColOf(n, level, popped) == ColOf(n, level, s);
    hide CutBelow, Untouched, RespreadBelow, Grown, ColOf;
  }

  lemma StepPlaces(tie: Tie, n: nat, level: int, s: Part, cell: nat, t: Part, key: Key, v: nat)
    requires Step(tie, n, level, s, cell, t, key) && v < n
    ensures PartOk(n, level, s) && PartOk(n, level, t)
    ensures var col, col2 := ColOf(n, level, s), ColOf(n, level, t); col2[v] == col[v] + |Ahead(col, key, v)|
  {
    StepParts(tie, n, level, s, cell, t, key);
    ColourBelow(n, level, s, v);
  }

  // Vertices stay together exactly when they were together and have one key; the pieces of a class are in
  // the order of their keys, and the classes in the order they had.
  lemma StepClasses(tie: Tie, n: nat, level: int, s: Part, cell: nat, t: Part, key: Key, u: nat, v: nat)
    requires Step(tie, n, level, s, cell, t, key) && u < n && v < n
    ensures PartOk(n, level, s) && PartOk(n, level, t)
    ensures var col, col2 := ColOf(n, level, s), ColOf(n, level, t);
      && (col2[u] == col2[v] <==> col[u] == col[v] && key(u) == key(v))
      && (col2[u] < col2[v] <==> col[u] < col[v] || (col[u] == col[v] && key(u) < key(v)))
  {
    StepPlaces(tie, n, level, s, cell, t, key, u);
    StepPlaces(tie, n, level, s, cell, t, key, v);
    var col := ColOf(n, level, s);
    hide *;
    AheadInClass(col, key, u);
    AheadInClass(col, key, v);
    if col[u] == col[v] {
      AheadOrder(col, key, u, v);
    } else if col[u] < col[v] {
      ClassesApart(n, level, s, u, v);
    } else {
      ClassesApart(n, level, s, v, u);
    }
  }

  lemma StepSpread(tie: Tie, n: nat, level: int, s: Part, cell: nat, t: Part, key: Key, d: nat)
    requires Step(tie, n, level, s, cell, t, key) && d < n
    ensures PartOk(n, level, s) && PartOk(n, level, t)
    ensures Respread(tie, ColOf(n, level, s), ColOf(n, level, t), s.active - {cell}, t.active, d)
  {
    StepParts(tie, n, level, s, cell, t, key);
  }

  lemma StepRefines(tie: Tie, n: nat, level: int, s: Part, cell: nat, t: Part, key: Key)
    requires Step(tie, n, level, s, cell, t, key) && PartOk(n, level, s) && PartOk(n, level, t)
    ensures Refines(ColOf(n, level, t), ColOf(n, level, s))
  {
    var col, col2 := ColOf(n, level, s), ColOf(n, level, t);
    hide Step, PartOk, ColOf;
    forall u: nat, v: nat | u < n && v < n && col2[u] == col2[v] ensures col[u] == col[v] {
      StepClasses(tie, n, level, s, cell, t, key, u, v);
    }
  }

  // A step uses its cell as the bound on uses asks for.
  lemma StepUses(tie: Tie, n: nat, level: int, s: Part, cell: nat, t: Part, key: Key)
    requires Step(tie, n, level, s, cell, t, key)
    ensures Used(n, level, s, cell, t)
  {
    StepParts(tie, n, level, s, cell, t, key);
    StepRefines(tie, n, level, s, cell, t, key);
    var col, col2 := ColOf(n, level, s), ColOf(n, level, t);
    hide PartOk, ColOf, CutBelow, Respread, Grown, Refines, Step;
    forall d: nat | d < n ensures Respread(Any, col, col2, s.active - {cell}, t.active, d) {
      StepSpread(tie, n, level, s, cell, t, key, d);
      RespreadAnyway(tie, col, col2, s.active - {cell}, t.active, d);
    }
  }

  // A key that tells no vertices of one class apart changes nothing but the active cell that was taken.
  lemma QuietStep(tie: Tie, n: nat, level: int, s: Part, cell: nat, t: Part, key: Key)
    requires Step(tie, n, level, s, cell, t, key) && PartOk(n, level, s) && PartOk(n, level, t)
    requires forall u: nat, v: nat :: u < n && v < n && ColOf(n, level, s)[u] == ColOf(n, level, s)[v] ==>
      key(u) == key(v)
    ensures ColOf(n, level, t) == ColOf(n, level, s) && t.active == s.active - {cell}
  {
    var col, col2 := ColOf(n, level, s), ColOf(n, level, t);
    forall v: nat | v < n ensures col2[v] == col[v] {
      StepPlaces(tie, n, level, s, cell, t, key, v);
      assert Ahead(col, key, v) == {};
    }
    assert col2 == col;
    forall d: nat ensures d in t.active <==> d in s.active - {cell} {
      if d in t.active { AStart(n, level, t, d); }
      if d in s.active { AStart(n, level, s, d); }
      if d in t.active || d in s.active {
        StepSpread(tie, n, level, s, cell, t, key, d);
        SamePieces(tie, col, s.active - {cell}, t.active, d);
      }
    }
  }

  lemma AStart(n: nat, level: int, s: Part, d: nat)
    requires PartOk(n, level, s) && d in s.active
    ensures d < n && Class(ColOf(n, level, s), d) != {}
  {
    ColAt(n, s.lab, s.ptn, level, d);
    StartIsItself(s.ptn, level, d);
    assert s.lab[d] in Class(ColOf(n, level, s), d);
  }

  lemma SamePieces(tie: Tie, col: seq<nat>, active: set<nat>, active2: set<nat>, d: nat)
    requires Respread(tie, col, col, active, active2, d) && Class(col, d) != {}
    ensures d in active2 <==> d in active
  {
    assert Pieces(col, col, d) == {d};
  }

  // ----- the queue -----

  // A class whose pieces are known but for one is known piece by piece.
  lemma LastPiece(wt: Weights, col: seq<nat>, col2: seq<nat>, d: nat, e: nat, u: nat, v: nat, known: set<nat>, x: nat)
    requires Refines(col2, col) && Pieces(col, col2, d) - {x} <= known && AgreeOn(wt, col2, known, u, v)
    requires Agree(wt, Class(col, d), u, v) && e in Pieces(col, col2, d)
    ensures Agree(wt, Class(col2, e), u, v)
  {
    if e !in known {
      var others := Pieces(col, col2, d) - {e};
      var rest := UnionOf(col2, others);
      UnionAgree(wt, col2, others, u, v);
      PiecesFill(col, col2, d);
      assert Class(col, d) - rest == Class(col2, e);
      AgreeSplit(wt, Class(col, d), rest, u, v);
    }
  }

  lemma PiecesFill(col: seq<nat>, col2: seq<nat>, d: nat)
    requires Refines(col2, col)
    ensures UnionOf(col2, Pieces(col, col2, d)) == Class(col, d)
  {
    forall v: nat | v < |col| ensures col2[v] in Pieces(col, col2, d) <==> col[v] == d {
      if col[v] == d { assert v in Class(col, d); }
    }
  }

  // Two vertices that agree on all classes now active agree on every class.
  lemma StepAgreement(tie: Tie, wt: Weights, col: seq<nat>, col2: seq<nat>, active: set<nat>, active2: set<nat>,
                      cell: nat, u: nat, v: nat)
    requires |col| == |col2| && Refines(col2, col) && cell in active
    requires forall d: nat :: d < |col| ==> Respread(tie, col, col2, active - {cell}, active2, d)
    requires forall x :: 0 <= x < |col| ==> col[x] < |col|
    requires u < |col| && v < |col| && col[u] == col[v] && QueueInv(wt, col, active)
    requires Agree(wt, Class(col, cell), u, v) && AgreeOn(wt, col2, active2, u, v)
    ensures AgreeAll(wt, col2, u, v)
  {
    forall d | d in active ensures Agree(wt, Class(col, d), u, v) {
      if d != cell { ActiveClassKnown(tie, wt, col, col2, active - {cell}, active2, d, u, v); }
    }
    assert AgreeAll(wt, col, u, v);
    forall e: nat ensures Agree(wt, Class(col2, e), u, v) {
      if Class(col2, e) == {} {
      } else {
        var x := Pick(Class(col2, e));
        PieceKnown(tie, wt, col, col2, active - {cell}, active2, x, u, v);
      }
    }
  }

  lemma ActiveClassKnown(tie: Tie, wt: Weights, col: seq<nat>, col2: seq<nat>, active: set<nat>, active2: set<nat>,
                         d: nat, u: nat, v: nat)
    requires |col2| == |col| && Refines(col2, col) && d in active
    requires forall d: nat :: d < |col| ==> Respread(tie, col, col2, active, active2, d)
    requires forall x :: 0 <= x < |col| ==> col[x] < |col|
    requires AgreeOn(wt, col2, active2, u, v)
    ensures Agree(wt, Class(col, d), u, v)
  {
    if d < |col| {
      assert Respread(tie, col, col2, active, active2, d);
      UnionAgree(wt, col2, Pieces(col, col2, d), u, v);
      PiecesFill(col, col2, d);
    } else {
      assert Class(col, d) == {};
    }
  }

  lemma PieceKnown(tie: Tie, wt: Weights, col: seq<nat>, col2: seq<nat>, active: set<nat>, active2: set<nat>, x: nat,
                   u: nat, v: nat)
    requires |col2| == |col| && Refines(col2, col) && x < |col|
    requires forall d: nat :: d < |col| ==> Respread(tie, col, col2, active, active2, d)
    requires forall y :: 0 <= y < |col| ==> col[y] < |col|
    requires AgreeOn(wt, col2, active2, u, v) && AgreeAll(wt, col, u, v)
    ensures Agree(wt, Class(col2, col2[x]), u, v)
  {
    var d, e := col[x], col2[x];
    assert x in Class(col, d);
    assert e in Pieces(col, col2, d);
    assert Respread(tie, col, col2, active, active2, d);
    if d !in active {
      var y: nat :| Spares(tie, col, col2, d, y, active2);
      assert Pieces(col, col2, d) - {y} <= active2;
      assert Agree(wt, Class(col, d), u, v);
      LastPiece(wt, col, col2, d, e, u, v, active2, y);
    }
  }

  // The key tells at least those vertices of one class apart that do not agree on the cell taken.
  ghost predicate FineKey(wt: Weights, col: seq<nat>, key: Key, cell: nat) {
    forall u: nat, v: nat :: u < |col| && v < |col| && col[u] == col[v] && key(u) == key(v) ==>
      Agree(wt, Class(col, cell), u, v)
  }

  // Then the active set stays correct.
  lemma StepKeepsQueue(tie: Tie, wt: Weights, n: nat, level: int, s: Part, cell: nat, t: Part, key: Key)
    requires Step(tie, n, level, s, cell, t, key) && PartOk(n, level, s) && PartOk(n, level, t)
    requires FineKey(wt, ColOf(n, level, s), key, cell)
    requires QueueInv(wt, ColOf(n, level, s), s.active)
    ensures QueueInv(wt, ColOf(n, level, t), t.active)
  {
    var col, col2 := ColOf(n, level, s), ColOf(n, level, t);
    StepRefines(tie, n, level, s, cell, t, key);
    forall d: nat | d < n ensures Respread(tie, col, col2, s.active - {cell}, t.active, d) {
      StepSpread(tie, n, level, s, cell, t, key, d);
    }
    assert cell in s.active && forall x :: 0 <= x < n ==> col[x] < n;
    hide Step, PartOk, ColOf, Respread, AgreeOn, AgreeAll;
    forall u: nat, v: nat | u < n && v < n && col2[u] == col2[v] && AgreeOn(wt, col2, t.active, u, v)
      ensures AgreeAll(wt, col2, u, v)
    {
      StepClasses(tie, n, level, s, cell, t, key, u, v);
      StepAgreement(tie, wt, col, col2, s.active, t.active, cell, u, v);
    }
  }

  // A partition that the key does not cut is not cut by the step.
  lemma StepCutsNot(tie: Tie, n: nat, level: int, s: Part, cell: nat, t: Part, key: Key, q: seq<nat>)
    requires Step(tie, n, level, s, cell, t, key) && PartOk(n, level, s) && PartOk(n, level, t)
    requires Refines(q, ColOf(n, level, s))
    requires forall u: nat, v: nat :: u < n && v < n && q[u] == q[v] ==> key(u) == key(v)
    ensures Refines(q, ColOf(n, level, t))
  {
    var col, col2 := ColOf(n, level, s), ColOf(n, level, t);
    hide Step, PartOk, ColOf;
    forall u: nat, v: nat | u < |q| && v < |q| && q[u] == q[v] ensures col2[u] == col2[v] {
      StepClasses(tie, n, level, s, cell, t, key, u, v);
    }
  }

  lemma ClassSaturated(q: seq<nat>, col: seq<nat>, c: nat)
    requires Refines(q, col)
    ensures Saturated(q, Class(col, c))
  {
  }

  // Where a refinement stops, a correct active set means that the partition is equitable.
  lemma StoppedEquitable(wt: Weights, n: nat, level: int, t: Part)
    requires PartOk(n, level, t) && (t.numcells >= n || t.active == {})
    requires QueueInv(wt, ColOf(n, level, t), t.active)
    ensures Equitable(wt, ColOf(n, level, t))
  {
    var col := ColOf(n, level, t);
    if t.active == {} {
      EmptyQueueEquitable(wt, col);
    } else {
      AllSingle(n, level, t);
      forall u: nat, v: nat | u < n && v < n && col[u] == col[v] ensures AgreeAll(wt, col, u, v) {
      }
    }
  }
}
