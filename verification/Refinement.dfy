// The theory behind work-queue partition refinement, independent of any one implementation.
// A graph is its arc multiplicities wt(v, w); a partition of 0..n-1 is a sequence of colours.
module Refinement {
  import opened Sums

  type Weights = (nat, nat) -> nat

  // The number of arcs that enter w from the set s.
  ghost function Count(wt: Weights, s: set<nat>, w: nat): nat {
    SumNonNegative(s, (v: nat) => wt(v, w));
    Sum(s, (v: nat) => wt(v, w))
  }

  ghost function Class(col: seq<nat>, c: nat): set<nat> {
    set v: nat | v < |col| && col[v] == c
  }

  ghost predicate Agree(wt: Weights, s: set<nat>, u: nat, v: nat) {
    Count(wt, s, u) == Count(wt, s, v)
  }

  ghost predicate AgreeOn(wt: Weights, col: seq<nat>, cs: set<nat>, u: nat, v: nat) {
    forall c :: c in cs ==> Agree(wt, Class(col, c), u, v)
  }

  ghost predicate AgreeAll(wt: Weights, col: seq<nat>, u: nat, v: nat) {
    forall c: nat :: Agree(wt, Class(col, c), u, v)
  }

  // Vertices of the same class receive equally many arcs from each class.
  ghost predicate Equitable(wt: Weights, col: seq<nat>) {
    forall u: nat, v: nat :: u < |col| && v < |col| && col[u] == col[v] ==> AgreeAll(wt, col, u, v)
  }

  ghost predicate Refines<S, T>(fine: seq<S>, coarse: seq<T>) {
    |fine| == |coarse| &&
    forall u, v :: 0 <= u < |fine| && 0 <= v < |fine| && fine[u] == fine[v] ==> coarse[u] == coarse[v]
  }

  // res is the coarsest equitable partition that refines init.
  ghost predicate CoarsestEquitable<T>(wt: Weights, init: seq<T>, res: seq<nat>) {
    && Refines(res, init)
    && Equitable(wt, res)
    && forall q: seq<nat> :: Refines(q, init) && Equitable(wt, q) ==> Refines(q, res)
  }

  // The work-queue invariant, between two splitters: agreeing on the queued classes is enough.
  ghost predicate QueueInv(wt: Weights, col: seq<nat>, queued: set<nat>) {
    forall u: nat, v: nat :: u < |col| && v < |col| && col[u] == col[v] && AgreeOn(wt, col, queued, u, v)
      ==> AgreeAll(wt, col, u, v)
  }

  // The same while the vertex set w of a popped splitter is still being processed.
  ghost predicate PassInv(wt: Weights, col: seq<nat>, queued: set<nat>, w: set<nat>) {
    forall u: nat, v: nat ::
      u < |col| && v < |col| && col[u] == col[v] && Agree(wt, w, u, v) && AgreeOn(wt, col, queued, u, v)
      ==> AgreeAll(wt, col, u, v)
  }

  ghost predicate Uniform(wt: Weights, col: seq<nat>, c: nat, w: set<nat>) {
    forall u, v :: u in Class(col, c) && v in Class(col, c) ==> Agree(wt, w, u, v)
  }

  ghost function Pieces(col: seq<nat>, col2: seq<nat>, c: nat): set<nat>
    requires |col2| == |col|
  {
    set v | v in Class(col, c) :: col2[v]
  }

  // col2 is col with class c, and only it, divided.
  ghost predicate Divides(col: seq<nat>, col2: seq<nat>, c: nat) {
    && |col2| == |col|
    && (forall v :: 0 <= v < |col| && col[v] != c ==> col2[v] == col[v])
    && (forall u, v :: 0 <= u < |col| && 0 <= v < |col| && col[u] == c && col[v] != c ==> col2[u] != col[v])
  }

  // Class c is divided by the number of arcs received from w.
  ghost predicate SplitBy(wt: Weights, col: seq<nat>, col2: seq<nat>, c: nat, w: set<nat>) {
    && Divides(col, col2, c)
    && (forall u: nat, v: nat :: u < |col| && v < |col| && col[u] == c && col[v] == c
          ==> (col2[u] == col2[v] <==> Agree(wt, w, u, v)))
  }

  // The queue after class c was split: every piece if c was queued, otherwise all but one piece.
  ghost predicate Requeued(col: seq<nat>, col2: seq<nat>, c: nat, queued: set<nat>, queued2: set<nat>, spared: nat)
    requires |col2| == |col|
  {
    && queued <= queued2
    && (forall d :: d in queued && d != c ==> d !in Pieces(col, col2, c))
    && (if c in queued then Pieces(col, col2, c) <= queued2 else Pieces(col, col2, c) - {spared} <= queued2)
  }

  // ----- counting over unions of classes -----

  ghost function UnionOf(col: seq<nat>, cs: set<nat>): set<nat> {
    set v: nat | v < |col| && col[v] in cs
  }

  lemma CountSplit(wt: Weights, s: set<nat>, t: set<nat>, w: nat)
    requires t <= s
    ensures Count(wt, s, w) == Count(wt, t, w) + Count(wt, s - t, w)
  {
    SumSplit(s, t, (v: nat) => wt(v, w));
  }

  lemma AgreeSplit(wt: Weights, s: set<nat>, t: set<nat>, u: nat, v: nat)
    requires t <= s
    ensures Agree(wt, s, u, v) && Agree(wt, t, u, v) ==> Agree(wt, s - t, u, v)
    ensures Agree(wt, t, u, v) && Agree(wt, s - t, u, v) ==> Agree(wt, s, u, v)
  {
    CountSplit(wt, s, t, u);
    CountSplit(wt, s, t, v);
  }

  lemma {:induction false} UnionAgree(wt: Weights, col: seq<nat>, cs: set<nat>, u: nat, v: nat)
    requires AgreeOn(wt, col, cs, u, v)
    ensures Agree(wt, UnionOf(col, cs), u, v)
    decreases |cs|
  {
    if cs == {} {
      assert UnionOf(col, cs) == {};
    } else {
      var c :| c in cs;
      UnionAgree(wt, col, cs - {c}, u, v);
      var all, one := UnionOf(col, cs), Class(col, c);
      assert all - one == UnionOf(col, cs - {c});
      AgreeSplit(wt, all, one, u, v);
    }
  }

  // ----- one split -----

  lemma SplitClasses(col: seq<nat>, col2: seq<nat>, c: nat)
    requires Divides(col, col2, c)
    ensures UnionOf(col2, Pieces(col, col2, c)) == Class(col, c)
    ensures forall d: nat :: d != c && d !in Pieces(col, col2, c) ==> Class(col2, d) == Class(col, d)
    ensures c !in Pieces(col, col2, c) ==> Class(col2, c) == {}
  {
    forall v: nat | v < |col|
      ensures col2[v] in Pieces(col, col2, c) <==> col[v] == c
    {
      if col[v] == c {
        assert v in Class(col, c);
      }
    }
    assert forall v: nat :: v < |col| && col[v] == c ==> col2[v] in Pieces(col, col2, c);
  }

  lemma SplitKeepsPassInv(wt: Weights, col: seq<nat>, col2: seq<nat>, c: nat, w: set<nat>,
                          queued: set<nat>, queued2: set<nat>, spared: nat)
    requires PassInv(wt, col, queued, w)
    requires Divides(col, col2, c)
    requires Requeued(col, col2, c, queued, queued2, spared)
    ensures PassInv(wt, col2, queued2, w)
  {
    forall u: nat, v: nat | u < |col2| && v < |col2| && col2[u] == col2[v]
                            && Agree(wt, w, u, v) && AgreeOn(wt, col2, queued2, u, v)
      ensures AgreeAll(wt, col2, u, v)
    {
      SplitKeepsAgreement(wt, col, col2, c, w, queued, queued2, spared, u, v);
    }
  }

  lemma SplitKeepsAgreement(wt: Weights, col: seq<nat>, col2: seq<nat>, c: nat, w: set<nat>,
                            queued: set<nat>, queued2: set<nat>, spared: nat, u: nat, v: nat)
    requires PassInv(wt, col, queued, w)
    requires Divides(col, col2, c)
    requires Requeued(col, col2, c, queued, queued2, spared)
    requires u < |col| && v < |col| && col2[u] == col2[v]
    requires Agree(wt, w, u, v) && AgreeOn(wt, col2, queued2, u, v)
    ensures AgreeAll(wt, col2, u, v)
  {
    var pieces := Pieces(col, col2, c);
    SplitClasses(col, col2, c);
    forall d | d in queued
      ensures Agree(wt, Class(col, d), u, v)
    {
      if d == c {
        UnionAgree(wt, col2, pieces, u, v);
      } else {
        assert Class(col2, d) == Class(col, d);
      }
    }
    assert AgreeAll(wt, col, u, v);
    forall d: nat
      ensures Agree(wt, Class(col2, d), u, v)
    {
      if d !in pieces {
        if d == c {
          assert Class(col2, d) == {};
        } else {
          assert Agree(wt, Class(col, d), u, v);
        }
      } else if d !in queued2 {
        var rest := UnionOf(col2, pieces - {d});
        UnionAgree(wt, col2, pieces - {d}, u, v);
        assert Class(col, c) - rest == Class(col2, d);
        assert Agree(wt, Class(col, c), u, v);
        AgreeSplit(wt, Class(col, c), rest, u, v);
      }
    }
  }

  // Splitting c leaves every piece of c uniform and every other class as it was.
  lemma PieceUniform(wt: Weights, col: seq<nat>, col2: seq<nat>, c: nat, w: set<nat>, d: nat)
    requires SplitBy(wt, col, col2, c, w)
    requires d == c || Uniform(wt, col, d, w)
    ensures Uniform(wt, col2, d, w)
  {
    forall u, v | u in Class(col2, d) && v in Class(col2, d)
      ensures Agree(wt, w, u, v)
    {
      if col[u] != c && col[v] != c {
        assert d != c ==> u in Class(col, d) && v in Class(col, d);
        if d == c { SplitClasses(col, col2, c); }
      }
    }
  }

  // ----- a whole pass -----

  // Popping class cur starts a pass with its vertices as the splitter.
  lemma PassStart(wt: Weights, col: seq<nat>, queued: set<nat>, cur: nat)
    requires QueueInv(wt, col, queued) && cur in queued
    ensures PassInv(wt, col, queued - {cur}, Class(col, cur))
  {
    forall u: nat, v: nat | u < |col| && v < |col| && col[u] == col[v]
                            && Agree(wt, Class(col, cur), u, v) && AgreeOn(wt, col, queued - {cur}, u, v)
      ensures AgreeAll(wt, col, u, v)
    {
      forall c | c in queued
        ensures Agree(wt, Class(col, c), u, v)
      {
        if c != cur { assert c in queued - {cur}; }
      }
      assert AgreeOn(wt, col, queued, u, v);
    }
  }

  // The pass is over when no class is divided by the splitter any more.
  lemma PassEnd(wt: Weights, col: seq<nat>, queued: set<nat>, w: set<nat>)
    requires PassInv(wt, col, queued, w)
    requires forall c: nat :: Uniform(wt, col, c, w)
    ensures QueueInv(wt, col, queued)
  {
    forall u: nat, v: nat | u < |col| && v < |col| && col[u] == col[v] && AgreeOn(wt, col, queued, u, v)
      ensures AgreeAll(wt, col, u, v)
    {
      assert Uniform(wt, col, col[u], w);
      assert u in Class(col, col[u]) && v in Class(col, col[u]);
    }
  }

  lemma QueueAllInv(wt: Weights, col: seq<nat>, queued: set<nat>)
    requires forall v :: 0 <= v < |col| ==> col[v] in queued
    ensures QueueInv(wt, col, queued)
  {
    forall u: nat, v: nat | u < |col| && v < |col| && col[u] == col[v] && AgreeOn(wt, col, queued, u, v)
      ensures AgreeAll(wt, col, u, v)
    {
      forall c: nat
        ensures Agree(wt, Class(col, c), u, v)
      {
        if c !in queued { assert Class(col, c) == {}; }
      }
    }
  }

  lemma EmptyQueueEquitable(wt: Weights, col: seq<nat>)
    requires QueueInv(wt, col, {})
    ensures Equitable(wt, col)
  {
    forall u: nat, v: nat | u < |col| && v < |col| && col[u] == col[v]
      ensures AgreeAll(wt, col, u, v)
    {
      assert AgreeOn(wt, col, {}, u, v);
    }
  }

  // ----- coarsest: an equitable partition q is never cut -----

  // w is a union of classes of q.
  ghost predicate Saturated(q: seq<nat>, w: set<nat>) {
    && (forall x :: x in w ==> x < |q|)
    && (forall x, y :: x in w && 0 <= y < |q| && q[y] == q[x] ==> y in w)
  }

  // A union of q-classes receives equally many arcs at q-equivalent vertices.
  lemma {:induction false} EquitableUnionAgrees(wt: Weights, q: seq<nat>, w: set<nat>, u: nat, v: nat)
    requires Equitable(wt, q)
    requires Saturated(q, w)
    requires u < |q| && v < |q| && q[u] == q[v]
    ensures Agree(wt, w, u, v)
    decreases |w|
  {
    if w != {} {
      var x :| x in w;
      var one := Class(q, q[x]);
      assert x in one;
      EquitableUnionAgrees(wt, q, w - one, u, v);
      assert AgreeAll(wt, q, u, v);
      assert Agree(wt, one, u, v);
      AgreeSplit(wt, w, one, u, v);
    }
  }

  lemma SplitKeepsCoarser(wt: Weights, q: seq<nat>, col: seq<nat>, col2: seq<nat>, c: nat, w: set<nat>)
    requires Equitable(wt, q) && Refines(q, col) && SplitBy(wt, col, col2, c, w)
    requires Saturated(q, w)
    ensures Refines(q, col2)
  {
    forall u: nat, v: nat | u < |q| && v < |q| && q[u] == q[v]
      ensures col2[u] == col2[v]
    {
      EquitableUnionAgrees(wt, q, w, u, v);
    }
  }

  // ----- relabelling -----

  // ys is xs with vertex v called p[v].
  ghost predicate Carried<T>(p: seq<nat>, xs: seq<T>, ys: seq<T>) {
    && |xs| == |ys| == |p| && Permutation(|p|, p)
    && forall v :: 0 <= v < |p| ==> ys[p[v]] == xs[v]
  }

  lemma CarriedClass(p: seq<nat>, col: seq<nat>, col2: seq<nat>, c: nat)
    requires Carried(p, col, col2)
    ensures Class(col2, c) == Image(p, Class(col, c))
  {
    forall y | y in Class(col2, c)
      ensures y in Image(p, Class(col, c))
    {
      var x := PermutationOnto(|p|, p, y);
      assert x in Class(col, c);
    }
  }

  ghost predicate CarriedArcs(p: seq<nat>, wt: Weights, wt2: Weights) {
    && Permutation(|p|, p)
    && forall v: nat, w: nat :: v < |p| && w < |p| ==> wt2(p[v], p[w]) == wt(v, w)
  }

  lemma CarriedArcCount(p: seq<nat>, wt: Weights, wt2: Weights, s: set<nat>, w: nat)
    requires CarriedArcs(p, wt, wt2) && w < |p| && forall x :: x in s ==> x < |p|
    ensures Count(wt2, Image(p, s), p[w]) == Count(wt, s, w)
  {
    var y := p[w];
    var f, f2 := (v: nat) => wt(v, w), (v: nat) => wt2(v, y);
    forall x | x in s ensures f2(p[x]) == f(x) {
      assert wt2(p[x], p[w]) == wt(x, w);
    }
    SumImage(|p|, p, s, f, f2);
  }
}
