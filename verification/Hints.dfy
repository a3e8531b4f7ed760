// The hint that the refinement of dense graphs keeps: where the last new cell of a single vertex begins
// that was made active. It is the first cell to be tried next.
module Hints {
  import opened Sums
  import opened GroupOrbits
  import opened Refinement
  import opened Nests
  import opened NestRefinement
  import opened NestCost
  import opened PassSteps

  // The piece of v is a single vertex and was made active when its class was cut: it is not the first
  // piece, or it is the first one, smaller than the other, of a class that was not active.
  ghost predicate Hinted(col: seq<nat>, col2: seq<nat>, active: set<nat>, single: bool, v: nat)
    requires |col2| == |col| && v < |col|
  {
    && |Class(col2, col2[v])| == 1 < |Class(col, col[v])|
    && (col2[v] != col[v] || (single && col[v] !in active))
  }

  ghost function HintStarts(col: seq<nat>, col2: seq<nat>, active: set<nat>, single: bool): set<nat>
    requires |col2| == |col|
  {
    set v: nat | v < |col| && Hinted(col, col2, active, single, v) :: col2[v]
  }

  ghost predicate LastOf(h: set<nat>, hint0: nat, hint: nat) {
    if h == {} then hint == hint0 else hint in h && forall d :: d in h ==> d <= hint
  }

  lemma {:induction false} LastExists(h: set<nat>, hint0: nat) returns (hint: nat)
    ensures LastOf(h, hint0, hint)
    decreases |h|
  {
    hint := hint0;
    if h != {} {
      var x := Pick(h);
      hint := LastExists(h - {x}, x);
      if hint < x { hint := x; }
      assert h == (h - {x}) + {x};
    }
  }

  ghost function Last(h: set<nat>, hint0: nat): (hint: nat)
    ensures LastOf(h, hint0, hint)
  {
    assert exists hint: nat :: LastOf(h, hint0, hint) by {
      var hint := LastExists(h, hint0);
    }
    var hint: nat :| LastOf(h, hint0, hint);
    hint
  }

  // ----- one cell -----

  // The cells of a single vertex that begin between lo and hi, after lo.
  ghost function Singles(ptn: seq<int>, level: int, lo: nat, hi: nat): set<nat> {
    set d: nat | lo < d < hi && CellAt(ptn, level, d, d)
  }

  ghost function FirstSingle(ptn: seq<int>, level: int, lo: nat, asked: bool): set<nat> {
    if asked && CellAt(ptn, level, lo, lo) then {lo} else {}
  }

  // The hint after the cell from c1 to c2 has been cut.
  ghost predicate HintAt(ptn2: seq<int>, level: int, c1: nat, c2: nat, asked: bool, hint0: nat, hint: nat) {
    LastOf(Singles(ptn2, level, c1, c2 + 1) + FirstSingle(ptn2, level, c1, asked), hint0, hint)
  }

  lemma UncutHint(ptn: seq<int>, level: int, c1: nat, c2: nat, asked: bool, hint: nat)
    requires CellAt(ptn, level, c1, c2) && c1 < c2
    ensures HintAt(ptn, level, c1, c2, asked, hint, hint)
  {
    forall d: nat | c1 < d < c2 + 1 ensures !CellAt(ptn, level, d, d) {
      StartsAfter(ptn, ptn, level, c1, c2, d);
    }
  }

  lemma NoSingles(ptn: seq<int>, level: int, lo: nat)
    ensures Singles(ptn, level, lo, lo) == {}
  {
  }

  // One more block, from c to c2.
  lemma SinglesNext(ptn: seq<int>, ptn2: seq<int>, level: int, lo: nat, c: nat, c2: nat, hint0: nat, hint: nat)
    requires NextBlock(ptn, ptn2, level, c, c2) && lo <= c && LastOf(Singles(ptn, level, lo, c), hint0, hint)
    ensures LastOf(Singles(ptn2, level, lo, c2), hint0, if c != lo && c2 == c + 1 then c else hint)
  {
    NextBlockCell(ptn, ptn2, level, c, c2);
    forall d: nat ensures d in Singles(ptn2, level, lo, c2) <==>
      d in Singles(ptn, level, lo, c) || (d == c != lo && c2 == c + 1)
    {
      if lo < d < c { assert CellAt(ptn, level, d, d) <==> CellAt(ptn2, level, d, d); }
    }
    assert Singles(ptn2, level, lo, c2) == Singles(ptn, level, lo, c) + if c != lo && c2 == c + 1 then {c} else {};
  }

  lemma HintMade(ptn: seq<int>, level: int, c1: nat, c2: nat, hint0: nat, hint: nat)
    requires LastOf(Singles(ptn, level, c1, c2 + 1), hint0, hint)
    ensures HintAt(ptn, level, c1, c2, false, hint0, hint)
  {
    assert Singles(ptn, level, c1, c2 + 1) + {} == Singles(ptn, level, c1, c2 + 1);
  }

  // A cell cut in two, mid being the start of the second part.
  lemma TwoHints(ptn: seq<int>, level: int, c1: nat, mid: nat, c2: nat, asked: bool, hint0: nat, hint: nat)
    requires CellAt(ptn, level, c1, c2) && c1 < mid <= c2
    requires hint == if mid == c2 then mid else if asked && mid == c1 + 1 then c1 else hint0
    ensures HintAt(ptn[mid - 1 := level], level, c1, c2, asked, hint0, hint)
  {
    var ptn2 := ptn[mid - 1 := level];
    forall d: nat | c1 < d < c2 + 1 ensures CellAt(ptn2, level, d, d) <==> d == mid == c2 {
      assert IsStart(ptn2, level, d) <==> d == mid;
    }
    assert Singles(ptn2, level, c1, c2 + 1) == if mid == c2 then {mid} else {};
    assert CellAt(ptn2, level, c1, c1) <==> mid == c1 + 1;
  }

  // A piece of the cell that was cut.
  lemma PieceHint(n: nat, level: int, s: Part, t: Part, c1: nat, c2: nat, single: bool, v: nat)
    requires PartOk(n, level, s) && PartOk(n, level, t) && CellAt(s.ptn, level, c1, c2) && c1 < c2
    requires Within(s.lab, s.ptn, t.lab, t.ptn, c1, c2) && v < n
    ensures var col, col2 := ColOf(n, level, s), ColOf(n, level, t);
      && (col[v] != c1 ==> !Hinted(col, col2, s.active, single, v))
      && (col[v] == c1 ==> c1 <= col2[v] <= c2)
      && (col[v] == c1 ==>
            (Hinted(col, col2, s.active, single, v) <==>
              CellAt(t.ptn, level, col2[v], col2[v]) && (col2[v] != c1 || (single && c1 !in s.active))))
  {
    var col, col2 := ColOf(n, level, s), ColOf(n, level, t);
    PieceWithin(n, level, s, t, c1, c2, v);
    if col[v] == c1 {
      CellCard(n, level, s, c1, c2);
      var e := CellExists(t.ptn, level, col2[v]);
      CellCard(n, level, t, col2[v], e);
    } else {
      hide PartOk, ColOf, Within, CellAt;
      forall u: nat | u < n ensures col2[u] == col2[v] <==> col[u] == col[v] {
        PieceWithin(n, level, s, t, c1, c2, u);
      }
      assert Class(col2, col2[v]) == Class(col, col[v]);
    }
  }

  // The pieces of a cell of several vertices that set the hint.
  lemma CellHints(n: nat, level: int, s: Part, t: Part, c1: nat, c2: nat, single: bool)
    requires PartOk(n, level, s) && PartOk(n, level, t) && CellAt(s.ptn, level, c1, c2) && c1 < c2
    requires Within(s.lab, s.ptn, t.lab, t.ptn, c1, c2)
    ensures HintStarts(ColOf(n, level, s), ColOf(n, level, t), s.active, single)
      == Singles(t.ptn, level, c1, c2 + 1) + FirstSingle(t.ptn, level, c1, single && c1 !in s.active)
  {
    var col, col2 := ColOf(n, level, s), ColOf(n, level, t);
    var all := Singles(t.ptn, level, c1, c2 + 1) + FirstSingle(t.ptn, level, c1, single && c1 !in s.active);
    forall d: nat ensures d in HintStarts(col, col2, s.active, single) <==> d in all {
      if d in HintStarts(col, col2, s.active, single) {
        var v: nat :| v < n && Hinted(col, col2, s.active, single, v) && col2[v] == d;
        PieceHint(n, level, s, t, c1, c2, single, v);
      }
      if d in all {
        var v := SingleVertex(n, level, s, t, c1, c2, d);
        PieceHint(n, level, s, t, c1, c2, single, v);
      }
    }
  }

  lemma SingleVertex(n: nat, level: int, s: Part, t: Part, c1: nat, c2: nat, d: nat) returns (v: nat)
    requires PartOk(n, level, s) && PartOk(n, level, t) && CellAt(s.ptn, level, c1, c2)
    requires Within(s.lab, s.ptn, t.lab, t.ptn, c1, c2) && c1 <= d <= c2 && CellAt(t.ptn, level, d, d)
    ensures v < n && ColOf(n, level, s)[v] == c1 && ColOf(n, level, t)[v] == d
  {
    v := t.lab[d];
    ColAt(n, t.lab, t.ptn, level, d);
    StartIsItself(t.ptn, level, d);
    InCellStill(n, level, s, t, c1, c2, d);
  }

  // ----- cell after cell -----

  lemma LastChain(a: set<nat>, b: set<nat>, hint0: nat, hint1: nat, hint: nat)
    requires LastOf(a, hint0, hint1) && LastOf(b, hint1, hint)
    requires forall x, y :: x in a && y in b ==> x < y
    ensures LastOf(a + b, hint0, hint)
  {
  }

  // A vertex outside the cell that is cut, and one inside.
  lemma HintOfOne(col: seq<nat>, mid: seq<nat>, col2: seq<nat>, key: Key, act: set<nat>, actMid: set<nat>, c1: nat,
                  c2: nat, single: bool, v: nat)
    requires Untouched(col, mid, c1) && CutAlone(mid, col2, key, c1, c2) && (c1 in actMid <==> c1 in act)
    requires v < |col|
    ensures mid[v] == c1 ==>
      && !Hinted(col, mid, act, single, v)
      && (Hinted(col, col2, act, single, v) <==> Hinted(mid, col2, actMid, single, v))
    ensures mid[v] != c1 ==>
      && !Hinted(mid, col2, actMid, single, v) && col2[v] == mid[v]
      && (Hinted(col, col2, act, single, v) <==> Hinted(col, mid, act, single, v))
      && (Hinted(col, mid, act, single, v) ==> mid[v] < c1)
  {
    CutOfOne(col, mid, col2, key, c1, c2, v);
    SameClass(col, mid, col2, key, c1, c2);
    if mid[v] != c1 {
      forall u: nat | u < |col| ensures col2[u] == col2[v] <==> mid[u] == mid[v] {
        CutOfOne(col, mid, col2, key, c1, c2, u);
      }
      assert Class(col2, col2[v]) == Class(mid, mid[v]);
      if mid[v] > c1 { assert Class(mid, mid[v]) == Class(col, col[v]); }
    }
  }

  lemma HintsFurther(col: seq<nat>, mid: seq<nat>, col2: seq<nat>, key: Key, act: set<nat>, actMid: set<nat>,
                     c1: nat, c2: nat, single: bool)
    requires Untouched(col, mid, c1) && CutAlone(mid, col2, key, c1, c2) && (c1 in actMid <==> c1 in act)
    ensures |col2| == |col|
    ensures var a, b := HintStarts(col, mid, act, single), HintStarts(mid, col2, actMid, single);
      && HintStarts(col, col2, act, single) == a + b && forall x, y :: x in a && y in b ==> x < y
  {
    var a, b := HintStarts(col, mid, act, single), HintStarts(mid, col2, actMid, single);
    forall v: nat | v < |col|
      ensures Hinted(col, col2, act, single, v) <==> Hinted(col, mid, act, single, v)
                                                     || Hinted(mid, col2, actMid, single, v)
      ensures Hinted(col, mid, act, single, v) ==> col2[v] == mid[v] < c1
      ensures Hinted(mid, col2, actMid, single, v) ==> c1 <= col2[v]
    {
      HintOfOne(col, mid, col2, key, act, actMid, c1, c2, single, v);
      CutOfOne(col, mid, col2, key, c1, c2, v);
    }
    hide Hinted;
    forall d: nat ensures d in HintStarts(col, col2, act, single) <==> d in a + b {
      if d in a {
        var v: nat :| v < |col| && Hinted(col, mid, act, single, v) && mid[v] == d;
      }
      if d in b {
        var v: nat :| v < |col| && Hinted(mid, col2, actMid, single, v) && col2[v] == d;
      }
    }
  }
}
