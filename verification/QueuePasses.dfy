// What a whole pass of the sparse refinement adds to its queue, class by class.
module QueuePasses {
  import opened Sums
  import opened GroupOrbits
  import opened Refinement
  import opened Nests
  import opened NestRefinement
  import opened NestCost
  import opened PassSteps
  import opened QueueOrder

  lemma SparedUnique(tie: Tie, pieces: set<nat>, col2: seq<nat>, x: nat, y: nat)
    requires tie != Any && IsSpared(tie, pieces, col2, x) && IsSpared(tie, pieces, col2, y) && pieces != {}
    ensures x == y
  {
    assert x in pieces && y in pieces;
    assert |Class(col2, x)| == |Class(col2, y)|;
  }

  ghost function TheSpared(pieces: set<nat>, col2: seq<nat>): nat {
    if exists x: nat :: x in pieces && IsSpared(LastOfTwo, pieces, col2, x) then
      var x: nat :| x in pieces && IsSpared(LastOfTwo, pieces, col2, x); x
    else 0
  }

  lemma SparedIs(pieces: set<nat>, col2: seq<nat>, x: nat)
    requires x in pieces && IsSpared(LastOfTwo, pieces, col2, x)
    ensures TheSpared(pieces, col2) == x
  {
    var y := TheSpared(pieces, col2);
    SparedUnique(LastOfTwo, pieces, col2, x, y);
  }

  // The queue after class d was cut into the given pieces.
  ghost function PushClass(pieces: set<nat>, col2: seq<nat>, active: set<nat>, q: seq<nat>, d: nat): seq<nat> {
    Entered(q, pieces - {d}, |col2|, d, d in active, TheSpared(pieces, col2))
  }

  // The queue after the classes below c were cut.
  ghost function Pushed(col: seq<nat>, col2: seq<nat>, active: set<nat>, q: seq<nat>, c: nat): seq<nat>
    requires |col2| == |col|
  {
    if c == 0 then q else PushClass(Pieces(col, col2, c - 1), col2, active, Pushed(col, col2, active, q, c - 1), c - 1)
  }

  lemma WholeClass(pieces: set<nat>, col2: seq<nat>, active: set<nat>, q: seq<nat>, d: nat)
    requires pieces <= {d}
    ensures PushClass(pieces, col2, active, q, d) == q
  {
    assert pieces - {d} == {};
    NothingEntered(q, |col2|, d, d in active, TheSpared(pieces, col2));
  }

  lemma PushedNext(col: seq<nat>, col2: seq<nat>, active: set<nat>, q: seq<nat>, c: nat)
    requires |col2| == |col| && c > 0
    ensures Pushed(col, col2, active, q, c)
      == PushClass(Pieces(col, col2, c - 1), col2, active, Pushed(col, col2, active, q, c - 1), c - 1)
  {
  }

  lemma UncutPieces(col: seq<nat>, col2: seq<nat>, c: nat, d: nat)
    requires |col2| == |col| && Untouched(col, col2, c) && c <= d
    ensures Pieces(col, col2, d) <= {d}
  {
  }

  // Classes from c on that are not cut add nothing.
  lemma {:induction false} PushedOver(col: seq<nat>, col2: seq<nat>, active: set<nat>, q: seq<nat>, c: nat, to: nat)
    requires |col2| == |col| && Untouched(col, col2, c) && c <= to
    ensures Pushed(col, col2, active, q, to) == Pushed(col, col2, active, q, c)
  {
    hide *;
    if c < to {
      PushedOver(col, col2, active, q, c, to - 1);
      UncutPieces(col, col2, c, to - 1);
      PushedNext(col, col2, active, q, to);
      WholeClass(Pieces(col, col2, to - 1), col2, active, Pushed(col, col2, active, q, to - 1), to - 1);
    }
  }

  // Cutting a later class does not change what the earlier ones added.
  lemma {:induction false} PushedBefore(col: seq<nat>, mid: seq<nat>, col2: seq<nat>, key: Key, c1: nat, c2: nat,
                                        active: set<nat>, q: seq<nat>, c: nat)
    requires Untouched(col, mid, c1) && CutAlone(mid, col2, key, c1, c2) && c <= c1
    ensures |col2| == |col| && Pushed(col, col2, active, q, c) == Pushed(col, mid, active, q, c)
  {
    if c > 0 {
      PushedBefore(col, mid, col2, key, c1, c2, active, q, c - 1);
      var pieces := Pieces(col, mid, c - 1);
      PiecesFurther(col, mid, col2, key, c1, c2, c - 1);
      forall e | e in pieces ensures Class(col2, e) == Class(mid, e) {
        EarlierPiece(col, mid, col2, key, c1, c2, c - 1, e);
      }
      SparedSame(pieces, mid, col2);
    }
  }

  lemma SparedSame(pieces: set<nat>, col: seq<nat>, col2: seq<nat>)
    requires forall e :: e in pieces ==> |Class(col2, e)| == |Class(col, e)|
    ensures TheSpared(pieces, col2) == TheSpared(pieces, col)
  {
    forall x: nat | x in pieces ensures IsSpared(LastOfTwo, pieces, col, x) <==> IsSpared(LastOfTwo, pieces, col2, x) {
    }
    if x: nat :| x in pieces && IsSpared(LastOfTwo, pieces, col, x) {
      SparedIs(pieces, col, x);
      SparedIs(pieces, col2, x);
    }
  }

  lemma SameActivity(pieces: set<nat>, col2: seq<nat>, active: set<nat>, active2: set<nat>, q: seq<nat>, d: nat)
    requires d in active2 <==> d in active
    ensures PushClass(pieces, col2, active2, q, d) == PushClass(pieces, col2, active, q, d)
  {
  }

  lemma PushedFurther(col: seq<nat>, mid: seq<nat>, col2: seq<nat>, key: Key, c1: nat, c2: nat, active: set<nat>,
                      actMid: set<nat>, q: seq<nat>)
    requires Untouched(col, mid, c1) && CutAlone(mid, col2, key, c1, c2) && (c1 in actMid <==> c1 in active)
    requires |col2| == |col| == |mid| && c1 <= c2
    ensures Pushed(col, col2, active, q, c2 + 1)
      == PushClass(Pieces(mid, col2, c1), col2, actMid, Pushed(col, mid, active, q, c1), c1)
  {
    hide *;
    PushedBefore(col, mid, col2, key, c1, c2, active, q, c1);
    PiecesFurther(col, mid, col2, key, c1, c2, c1);
    SameActivity(Pieces(mid, col2, c1), col2, active, actMid, Pushed(col, mid, active, q, c1), c1);
    PushedNext(col, col2, active, q, c1 + 1);
    PushedInner(col, mid, col2, key, c1, c2, active, q, c2 + 1);
  }

  lemma {:induction false} PushedInner(col: seq<nat>, mid: seq<nat>, col2: seq<nat>, key: Key, c1: nat, c2: nat,
                                       active: set<nat>, q: seq<nat>, c: nat)
    requires Untouched(col, mid, c1) && CutAlone(mid, col2, key, c1, c2) && c1 < c <= c2 + 1 && |col2| == |col|
    ensures Pushed(col, col2, active, q, c) == Pushed(col, col2, active, q, c1 + 1)
  {
    hide *;
    PiecesFurther(col, mid, col2, key, c1, c2, c - 1);
    if c > c1 + 1 {
      PushedInner(col, mid, col2, key, c1, c2, active, q, c - 1);
      PushedNext(col, col2, active, q, c);
      WholeClass({}, col2, active, Pushed(col, col2, active, q, c - 1), c - 1);
    }
  }

  // ----- a pass, cell by cell -----

  // The key is being used against base, and s has been reached; the queue was q0 and is q.
  ghost predicate Passing(n: nat, level: int, base: Part, s: Part, key: Key, c: nat, q0: seq<nat>, q: seq<nat>) {
    && PartOk(n, level, base) && PartOk(n, level, s) && Going(LastOfTwo, n, level, base, s, key, c)
    && q == Pushed(ColOf(n, level, base), ColOf(n, level, s), base.active, q0, c)
  }

  lemma PassingBegin(n: nat, level: int, s: Part, key: Key, q: seq<nat>)
    requires PartOk(n, level, s)
    ensures Passing(n, level, s, s, key, 0, q, q)
  {
    Begin(LastOfTwo, n, level, s, key);
  }

  lemma PassingParts(n: nat, level: int, base: Part, s: Part, key: Key, c: nat, q0: seq<nat>, q: seq<nat>)
    requires Passing(n, level, base, s, key, c, q0, q)
    ensures PartOk(n, level, base) && PartOk(n, level, s) && Going(LastOfTwo, n, level, base, s, key, c)
    ensures |s.ptn| == |s.lab| == n && (n > 0 ==> s.ptn[n - 1] <= level)
    ensures c <= n && (c < n ==> IsStart(s.ptn, level, c))
  {
  }

  lemma PassingQueue(n: nat, level: int, base: Part, s: Part, key: Key, c: nat, q0: seq<nat>, q: seq<nat>)
    requires Passing(n, level, base, s, key, c, q0, q) && PartOk(n, level, base) && PartOk(n, level, s)
    ensures q == Pushed(ColOf(n, level, base), ColOf(n, level, s), base.active, q0, c)
  {
  }

  lemma PassingMade(n: nat, level: int, base: Part, s: Part, key: Key, c: nat, q0: seq<nat>, q: seq<nat>)
    requires PartOk(n, level, base) && PartOk(n, level, s) && Going(LastOfTwo, n, level, base, s, key, c)
    requires q == Pushed(ColOf(n, level, base), ColOf(n, level, s), base.active, q0, c)
    ensures Passing(n, level, base, s, key, c, q0, q)
  {
  }

  // What one cut cell adds, in terms of its class.
  lemma EnteredPieces(n: nat, level: int, s: Part, t: Part, c1: nat, c2: nat, spared: nat, q: seq<nat>, q2: seq<nat>)
    requires PartOk(n, level, s) && PartOk(n, level, t) && CellAt(s.ptn, level, c1, c2)
    requires Within(s.lab, s.ptn, t.lab, t.ptn, c1, c2)
    requires Frugal(LastOfTwo, t.ptn, level, c1, c2, s.active, t.active, spared)
    requires q2 == Entered(q, NewStarts(t.ptn, level, c1, c2), n, c1, c1 in s.active, spared)
    ensures q2 == PushClass(Pieces(ColOf(n, level, s), ColOf(n, level, t), c1), ColOf(n, level, t), s.active, q, c1)
  {
    var pieces := Pieces(ColOf(n, level, s), ColOf(n, level, t), c1);
    forall d: nat ensures d in pieces - {c1} <==> d in NewStarts(t.ptn, level, c1, c2) {
      PiecesAreStarts(n, s.lab, s.ptn, t.lab, t.ptn, level, c1, c2, d);
    }
    assert pieces - {c1} == NewStarts(t.ptn, level, c1, c2);
    if c1 !in s.active {
      SparedLargest(LastOfTwo, n, level, s, t, c1, c2, spared);
      SparedIs(pieces, ColOf(n, level, t), spared);
    }
  }

  // One more cell has been cut.
  lemma PassingDone(n: nat, level: int, base: Part, s: Part, t: Part, key: Key, c1: nat, c2: nat, keys: seq<int>,
                    spared: nat, q0: seq<nat>, q: seq<nat>, q2: seq<nat>)
    requires Passing(n, level, base, s, key, c1, q0, q) && CellAt(s.ptn, level, c1, c2)
    requires Permutation(n, t.lab) && Within(s.lab, s.ptn, t.lab, t.ptn, c1, c2)
    requires CutAt(t.ptn, level, c1, c2, keys) && KeyAt(key, t.lab, c1, c2, keys)
    requires Activated(t.ptn, level, c1, c2, s.active, t.active, spared)
    requires Frugal(LastOfTwo, t.ptn, level, c1, c2, s.active, t.active, spared)
    requires t.numcells == |Starts(t.ptn, level)| && Finer(s.ptn, t.ptn, level)
    requires s.numcells <= t.numcells && (t.numcells == s.numcells ==> t.active == s.active)
    requires q2 == Entered(q, NewStarts(t.ptn, level, c1, c2), n, c1, c1 in s.active, spared)
    ensures Passing(n, level, base, t, key, c2 + 1, q0, q2)
  {
    hide *;
    PassingParts(n, level, base, s, key, c1, q0, q);
    PassingQueue(n, level, base, s, key, c1, q0, q);
    CutDone(LastOfTwo, n, level, base, s, t, key, c1, c2, keys, spared);
    GoingParts(LastOfTwo, n, level, base, t, key, c2 + 1);
    GoingColours(LastOfTwo, n, level, base, s, key, c1);
    GoingColours(LastOfTwo, n, level, base, t, key, c2 + 1);
    CellCutAlone(n, level, s, t, key, c1, c2, keys);
    StillActive(LastOfTwo, ColOf(n, level, base), ColOf(n, level, s), base.active, s.active, c1);
    EnteredPieces(n, level, s, t, c1, c2, spared, q, q2);
    CellBounds(s.ptn, level, c1, c2);
    PushedFurther(ColOf(n, level, base), ColOf(n, level, s), ColOf(n, level, t), key, c1, c2, base.active, s.active,
                  q0);
    PassingMade(n, level, base, t, key, c2 + 1, q0, q2);
  }

  // Cells whose vertices have one key can be passed over.
  lemma PassingOver(n: nat, level: int, base: Part, s: Part, key: Key, c: nat, to: nat, q0: seq<nat>, q: seq<nat>)
    requires Passing(n, level, base, s, key, c, q0, q) && PartOk(n, level, s)
    requires c <= to <= n && (to < n ==> IsStart(s.ptn, level, to))
    requires forall d: nat :: c <= d < to ==> OneKey(ColOf(n, level, s), key, d)
    ensures Passing(n, level, base, s, key, to, q0, q)
  {
    hide *;
    PassingParts(n, level, base, s, key, c, q0, q);
    PassingQueue(n, level, base, s, key, c, q0, q);
    GoingColours(LastOfTwo, n, level, base, s, key, c);
    PassOver(LastOfTwo, n, level, base, s, key, c, to);
    PushedOver(ColOf(n, level, base), ColOf(n, level, s), base.active, q0, c, to);
    PassingMade(n, level, base, s, key, to, q0, q);
  }

  // A cell of a single vertex.
  lemma PassingSingle(n: nat, level: int, base: Part, s: Part, key: Key, c: nat, q0: seq<nat>, q: seq<nat>)
    requires Passing(n, level, base, s, key, c, q0, q) && CellAt(s.ptn, level, c, c)
    ensures Passing(n, level, base, s, key, c + 1, q0, q)
  {
    hide *;
    PassingParts(n, level, base, s, key, c, q0, q);
    SingleKey(n, level, s, key, c);
    NextStart(n, level, s, s, c, c);
    PassingOver(n, level, base, s, key, c, c + 1, q0, q);
  }

  lemma SingleKey(n: nat, level: int, s: Part, key: Key, c: nat)
    requires PartOk(n, level, s) && CellAt(s.ptn, level, c, c)
    ensures OneKey(ColOf(n, level, s), key, c)
    ensures Within(s.lab, s.ptn, s.lab, s.ptn, c, c)
  {
    var col := ColOf(n, level, s);
    CellCard(n, level, s, c, c);
    forall u: nat, v: nat | u in Class(col, c) && v in Class(col, c) ensures u == v {
      OnlyOne(Class(col, c), u, v);
    }
  }

  lemma OnlyOne(s: set<nat>, u: nat, v: nat)
    requires |s| == 1 && u in s && v in s
    ensures u == v
  {
    assert |s - {u}| == 0;
  }

  // ----- the queue after a whole pass -----

  // Pieces lie within their classes.
  ghost predicate Inside(col: seq<nat>, col2: seq<nat>) {
    && |col2| == |col|
    && (forall v :: 0 <= v < |col| ==> col[v] <= col2[v] < |col|)
    && forall u, v :: 0 <= u < |col| && 0 <= v < |col| && col[u] < col[v] ==> col2[u] < col[v]
  }

  // The pieces of the classes below c that are not the first of their class.
  ghost function LaterPieces(col: seq<nat>, col2: seq<nat>, c: nat): set<nat>
    requires |col2| == |col|
  {
    set v: nat | v < |col| && col[v] < c && col2[v] != col[v] :: col2[v]
  }

  // What piece x enters as: itself, but the first piece where x is spared.
  ghost predicate EntersAs(col: seq<nat>, col2: seq<nat>, active: set<nat>, x: nat, y: nat)
    requires |col2| == |col|
  {
    forall v: nat :: v < |col| && col2[v] == x ==>
      y == if col[v] !in active && IsSpared(LastOfTwo, Pieces(col, col2, col[v]), col2, x) then col[v] else x
  }

  // A pass leaves what was in the queue in front. Behind it come the pieces other than the first ones, of
  // all classes in ascending order; where a piece is spared, the first piece of its class stands instead.
  lemma {:induction false} PushedIs(col: seq<nat>, col2: seq<nat>, active: set<nat>, q: seq<nat>, c: nat)
    requires Inside(col, col2) && c <= |col|
    ensures |col2| == |col|
    ensures var r, xs := Pushed(col, col2, active, q, c), InOrder(LaterPieces(col, col2, c), |col|);
      && |r| == |q| + |xs| && r[..|q|] == q
      && forall i :: 0 <= i < |xs| ==> EntersAs(col, col2, active, xs[i], r[|q| + i])
    decreases c
  {
    hide *;
    var n := |col|;
    InsideSize(col, col2);
    if c == 0 {
      NoneLater(col, col2);
      InOrderNone(n);
      PushedFirst(col, col2, active, q);
    } else {
      PushedIs(col, col2, active, q, c - 1);
      PushedNext(col, col2, active, q, c);
      var was, news := LaterPieces(col, col2, c - 1), Pieces(col, col2, c - 1) - {c - 1};
      MoreLater(col, col2, c, was, news);
      InOrderBehind(was, news, n);
      var q1 := Pushed(col, col2, active, q, c - 1);
      PushedClass(col, col2, active, q1, c - 1);
      var r, xs, ys := Pushed(col, col2, active, q, c), InOrder(was, n), InOrder(news, n);
      forall i | 0 <= i < |xs + ys| ensures EntersAs(col, col2, active, (xs + ys)[i], r[|q| + i]) {
        if i < |xs| {
          assert r[|q| + i] == r[..|q1|][|q| + i];
        } else {
          assert r[|q| + i] == r[|q1| + (i - |xs|)];
        }
      }
      assert r[..|q|] == r[..|q1|][..|q|];
    }
  }

  lemma InsideSize(col: seq<nat>, col2: seq<nat>)
    requires Inside(col, col2)
    ensures |col2| == |col| && forall v :: 0 <= v < |col| ==> col2[v] < |col|
  {
  }

  lemma PushedFirst(col: seq<nat>, col2: seq<nat>, active: set<nat>, q: seq<nat>)
    requires |col2| == |col|
    ensures Pushed(col, col2, active, q, 0) == q
  {
  }

  lemma NoneLater(col: seq<nat>, col2: seq<nat>)
    requires |col2| == |col|
    ensures LaterPieces(col, col2, 0) == {}
  {
  }

  lemma MoreLater(col: seq<nat>, col2: seq<nat>, c: nat, was: set<nat>, news: set<nat>)
    requires Inside(col, col2) && 0 < c && |col2| == |col|
    requires was == LaterPieces(col, col2, c - 1) && news == Pieces(col, col2, c - 1) - {c - 1}
    ensures LaterPieces(col, col2, c) == was + news
    ensures forall x, y :: x in was && y in news ==> x < y
  {
  }

  // Larger members stand behind smaller ones.
  lemma {:induction false} InOrderBehind(a: set<nat>, b: set<nat>, n: nat)
    requires forall x, y :: x in a && y in b ==> x < y
    ensures InOrder(a + b, n) == InOrder(a, n) + InOrder(b, n)
  {
    if n > 0 {
      InOrderBehind(a, b, n - 1);
      if n - 1 in a { InOrderBelow(b, n); }
    }
  }

  lemma {:induction false} InOrderBelow(b: set<nat>, n: nat)
    requires forall x :: x in b ==> x >= n
    ensures InOrder(b, n) == []
  {
    if n > 0 { InOrderBelow(b, n - 1); }
  }

  // What one class adds.
  lemma PushedClass(col: seq<nat>, col2: seq<nat>, active: set<nat>, q: seq<nat>, d: nat)
    requires Inside(col, col2) && d < |col|
    ensures |col2| == |col|
    ensures var r := PushClass(Pieces(col, col2, d), col2, active, q, d);
      var ys := InOrder(Pieces(col, col2, d) - {d}, |col|);
      && |r| == |q| + |ys| && r[..|q|] == q
      && forall i :: 0 <= i < |ys| ==> EntersAs(col, col2, active, ys[i], r[|q| + i])
  {
    var pieces := Pieces(col, col2, d);
    var ys := InOrder(pieces - {d}, |col|);
    var r := PushClass(pieces, col2, active, q, d);
    InOrderIs(pieces - {d}, |col|);
    hide InOrder, IsSpared, TheSpared;
    forall i | 0 <= i < |ys| ensures EntersAs(col, col2, active, ys[i], r[|q| + i]) {
      assert ys[i] in ys;
      PieceEnters(col, col2, active, d, ys[i], r[|q| + i]);
    }
  }

  lemma PieceEnters(col: seq<nat>, col2: seq<nat>, active: set<nat>, d: nat, x: nat, y: nat)
    requires Inside(col, col2) && |col2| == |col| && x in Pieces(col, col2, d) && x != d
    requires y == if d !in active && TheSpared(Pieces(col, col2, d), col2) == x then d else x
    ensures EntersAs(col, col2, active, x, y)
  {
    var pieces := Pieces(col, col2, d);
    forall v: nat | v < |col| && col2[v] == x ensures col[v] == d {
    }
    if IsSpared(LastOfTwo, pieces, col2, x) { SparedIs(pieces, col2, x); }
  }

  lemma StepInside(tie: Tie, n: nat, level: int, s: Part, cell: nat, t: Part, key: Key)
    requires Step(tie, n, level, s, cell, t, key) && PartOk(n, level, s) && PartOk(n, level, t)
    ensures Inside(ColOf(n, level, s), ColOf(n, level, t))
  {
    hide PartOk, Step, ColOf;
    var col, col2 := ColOf(n, level, s), ColOf(n, level, t);
    forall v | 0 <= v < n ensures col[v] <= col2[v] < n {
      StepPlaces(tie, n, level, s, cell, t, key, v);
      ColourBelow(n, level, t, v);
    }
    forall u, v | 0 <= u < n && 0 <= v < n && col[u] < col[v] ensures col2[u] < col[v] {
      StepPlaces(tie, n, level, s, cell, t, key, u);
      AheadInClass(col, key, u);
      ClassesApart(n, level, s, u, v);
    }
  }
}
