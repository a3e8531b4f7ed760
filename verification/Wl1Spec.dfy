// What one run of the 1-WL colour refinement does, as functions on colourings and queues.
// The loops of run1WL are proved against these functions; the theorems are about them too.
module Wl1Spec {
  import opened Sums
  import opened Refinement

  // A graph in compressed rows: the arcs of v end at neighbours[offsets[v]..offsets[v+1]].
  datatype Csr = Csr(n: nat, offsets: seq<nat>, neighbours: seq<nat>) {
    ghost predicate Valid() {
      && |offsets| == n + 1
      && (forall v: nat :: v < n ==> HasRow(v))
      && (forall i :: 0 <= i < |neighbours| ==> neighbours[i] < n)
    }

    ghost predicate HasRow(v: nat) {
      v + 1 < |offsets| && offsets[v] <= offsets[v + 1] <= |neighbours|
    }
  }

  // The number of arcs from v to w; parallel arcs count separately.
  ghost function Arcs(g: Csr, v: nat, w: nat): nat {
    if g.HasRow(v) then Occurrences(g.neighbours, g.offsets[v], g.offsets[v + 1], w) else 0
  }

  ghost function Wt(g: Csr): Weights {
    (v, w) => Arcs(g, v, w)
  }

  // k colours are in use; the queue holds the colours still to be tried as splitters.
  datatype State = State(col: seq<nat>, queue: seq<nat>, k: nat)

  ghost predicate Dense(col: seq<nat>, k: nat) {
    && (forall v :: 0 <= v < |col| ==> col[v] < k)
    && (forall c: nat :: c < k ==> Class(col, c) != {})
  }

  ghost predicate ValidState(s: State) {
    && Dense(s.col, s.k)
    && (forall i :: 0 <= i < |s.queue| ==> s.queue[i] < s.k)
    && Distinct(s.queue)
  }

  // ----- splitting one class by degree -----

  ghost function Members(col: seq<nat>, deg: seq<nat>, c: nat, d: nat): set<nat>
    requires |deg| == |col|
  {
    set v | v in Class(col, c) && deg[v] == d
  }

  // The greatest degree in class c among the vertices below i, or 0.
  ghost function TopUpTo(col: seq<nat>, deg: seq<nat>, c: nat, i: nat): nat
    requires |deg| == |col| && i <= |col|
  {
    if i == 0 then 0
    else
      var top := TopUpTo(col, deg, c, i - 1);
      if col[i - 1] == c && deg[i - 1] > top then deg[i - 1] else top
  }

  // How many vertices of class c have degree 0, 1, ..., up to the greatest degree.
  ghost function Histogram(col: seq<nat>, deg: seq<nat>, c: nat): seq<nat>
    requires |deg| == |col|
  {
    seq(TopUpTo(col, deg, c, |col|) + 1, d requires 0 <= d => |Members(col, deg, c, d)|)
  }

  // The least index with a positive entry (or the length if there is none).
  ghost function Least(num: seq<nat>): nat {
    if |num| == 0 || num[0] > 0 then 0 else 1 + Least(num[1..])
  }

  // The first index of a greatest entry among the first i.
  ghost function LargestUpTo(num: seq<nat>, i: nat): nat
    requires 1 <= i <= |num|
    ensures LargestUpTo(num, i) < i
  {
    if i == 1 then 0
    else if num[i - 1] > num[LargestUpTo(num, i - 1)] then i - 1
    else LargestUpTo(num, i - 1)
  }

  // Names given so far to the degrees of a class that is being split; -1 is "no name".
  datatype Naming = Naming(nm: seq<int>, queue: seq<nat>, k: nat)

  datatype Plan = Plan(num: seq<nat>, lo: nat, big: nat, c: nat, queued: bool)

  ghost function NameStep(a: Naming, p: Plan, i: nat): Naming
    requires i < |a.nm| == |p.num|
  {
    if p.num[i] == 0 then a
    else if i == p.lo then
      Naming(a.nm[i := p.c], if !p.queued && p.big != i then a.queue + [p.c] else a.queue, a.k)
    else
      Naming(a.nm[i := a.k], if p.queued || i != p.big then a.queue + [a.k] else a.queue, a.k + 1)
  }

  ghost function NameUpTo(s: State, p: Plan, i: nat): (a: Naming)
    requires i <= |p.num|
    ensures |a.nm| == |p.num|
  {
    if i == 0 then Naming(seq(|p.num|, _ => -1), s.queue, s.k) else NameStep(NameUpTo(s, p, i - 1), p, i - 1)
  }

  ghost function PlanFor(s: State, deg: seq<nat>, c: nat): (p: Plan)
    requires |deg| == |s.col|
    ensures |p.num| == TopUpTo(s.col, deg, c, |s.col|) + 1
  {
    var num := Histogram(s.col, deg, c);
    Plan(num, Least(num), LargestUpTo(num, |num|), c, c in s.queue)
  }

  ghost function Recolour(col: seq<nat>, deg: seq<nat>, c: nat, nm: seq<int>): seq<nat>
    requires |deg| == |col|
  {
    seq(|col|, v requires 0 <= v < |col| =>
      if col[v] == c && deg[v] < |nm| && nm[deg[v]] >= 0 then nm[deg[v]] else col[v])
  }

  ghost function SplitOne(s: State, deg: seq<nat>, c: nat): (t: State)
    requires |deg| == |s.col|
    ensures |t.col| == |s.col|
  {
    var p := PlanFor(s, deg, c);
    if p.lo + 1 >= |p.num| then s
    else
      var a := NameUpTo(s, p, |p.num|);
      State(Recolour(s.col, deg, c, a.nm), a.queue, a.k)
  }

  // Colours 0..c-1 tried, in ascending order.
  ghost function SplitUpTo(s: State, deg: seq<nat>, c: nat): (t: State)
    requires |deg| == |s.col|
    ensures |t.col| == |s.col|
  {
    if c == 0 then s else SplitOne(SplitUpTo(s, deg, c - 1), deg, c - 1)
  }

  // ----- one round of the queue, and the run -----

  ghost function Degrees(g: Csr, col: seq<nat>, cur: nat): (deg: seq<nat>)
    ensures |deg| == |col|
  {
    seq(|col|, w requires 0 <= w => Count(Wt(g), Class(col, cur), w))
  }

  ghost function Popped(s: State): State
    requires s.queue != []
  {
    State(s.col, s.queue[1..], s.k)
  }

  ghost function Round(g: Csr, s: State): (t: State)
    requires s.queue != []
    ensures |t.col| == |s.col|
  {
    SplitUpTo(Popped(s), Degrees(g, s.col, s.queue[0]), s.k)
  }

  // ----- what naming does -----

  lemma {:induction false} LeastIs(num: seq<nat>, i: nat)
    requires i < |num| && num[i] > 0
    ensures Least(num) <= i && num[Least(num)] > 0
    ensures forall j :: 0 <= j < Least(num) ==> num[j] == 0
  {
    if num[0] == 0 {
      LeastIs(num[1..], i - 1);
      assert forall j :: 0 < j < |num| ==> num[j] == num[1..][j - 1];
    }
  }

  lemma {:induction false} LargestIs(num: seq<nat>, i: nat)
    requires 1 <= i <= |num|
    ensures forall j :: 0 <= j < i ==> num[j] <= num[LargestUpTo(num, i)]
    ensures forall j :: 0 <= j < LargestUpTo(num, i) ==> num[j] < num[LargestUpTo(num, i)]
  {
    if i > 1 { LargestIs(num, i - 1); }
  }

  lemma {:induction false} TopIs(col: seq<nat>, deg: seq<nat>, c: nat, i: nat)
    requires |deg| == |col| && i <= |col|
    ensures forall v :: 0 <= v < i && col[v] == c ==> deg[v] <= TopUpTo(col, deg, c, i)
    ensures TopUpTo(col, deg, c, i) > 0 ==>
              exists v :: 0 <= v < i && col[v] == c && deg[v] == TopUpTo(col, deg, c, i)
  {
    if i > 0 { TopIs(col, deg, c, i - 1); }
  }

  ghost predicate SoundPlan(s: State, p: Plan) {
    && p.c < s.k
    && p.lo < |p.num| && p.num[p.lo] > 0
    && p.big < |p.num| && p.num[p.big] > 0
    && p.queued == (p.c in s.queue)
  }

  ghost predicate Named(s: State, p: Plan, a: Naming, i: nat)
    requires i <= |p.num| == |a.nm|
  {
    && a.k >= s.k
    && (forall j :: 0 <= j < i && p.num[j] > 0 ==>
          if j == p.lo then a.nm[j] == p.c else s.k <= a.nm[j] < a.k)
    && (forall j :: 0 <= j < |a.nm| && (i <= j || p.num[j] == 0) ==> a.nm[j] == -1)
    && (forall j, l :: 0 <= j < l < i && p.num[j] > 0 && p.num[l] > 0 ==> a.nm[j] != a.nm[l])
    && (forall j, l :: 0 <= j < l < i && p.num[j] > 0 && p.num[l] > 0 && j != p.lo && l != p.lo ==> a.nm[j] < a.nm[l])
  }

  ghost predicate NameGiven(p: Plan, a: Naming, i: nat, c: nat)
    requires i <= |p.num| == |a.nm|
  {
    exists j :: 0 <= j < i && p.num[j] > 0 && a.nm[j] == c
  }

  // The queue while naming: nothing leaves it, and what enters is new to it.
  ghost predicate QueueGrows(s: State, p: Plan, a: Naming, i: nat) {
    && Elems(s.queue) <= Elems(a.queue)
    && (forall c :: c in a.queue ==> c in s.queue || c == p.c || s.k <= c < a.k)
    && Distinct(a.queue)
    && (!p.queued && i <= p.lo ==> p.c !in a.queue)
    && (a.k == s.k && (p.queued || p.lo == p.big || i <= p.lo) ==> a.queue == s.queue)
  }

  // Every name is queued, except the name of the largest piece of a class that was not queued.
  ghost predicate QueueHas(p: Plan, a: Naming, i: nat)
    requires i <= |p.num| == |a.nm|
  {
    && (forall j :: 0 <= j < i && p.num[j] > 0 && (p.queued || j != p.big) ==> a.nm[j] in a.queue)
    && (!p.queued && p.big < i ==> a.nm[p.big] !in a.queue)
  }

  lemma NamedNothing(s: State, p: Plan)
    ensures Named(s, p, NameUpTo(s, p, 0), 0)
  {
  }

  lemma NamedNext(s: State, p: Plan, a: Naming, i: nat)
    requires SoundPlan(s, p) && i < |p.num| == |a.nm| && Named(s, p, a, i)
    ensures |NameStep(a, p, i).nm| == |p.num| && Named(s, p, NameStep(a, p, i), i + 1)
  {
  }

  lemma {:induction false} NameUpToNamed(s: State, p: Plan, i: nat)
    requires ValidState(s) && SoundPlan(s, p) && i <= |p.num|
    ensures Named(s, p, NameUpTo(s, p, i), i)
  {
    hide Named, ValidState, SoundPlan, NameStep;
    if i > 0 {
      NameUpToNamed(s, p, i - 1);
      NamedNext(s, p, NameUpTo(s, p, i - 1), i - 1);
    } else {
      NamedNothing(s, p);
    }
  }

  // No new colour is skipped.
  lemma {:induction false} NameUpToGiven(s: State, p: Plan, i: nat, c: nat)
    requires ValidState(s) && SoundPlan(s, p) && i <= |p.num|
    requires s.k <= c < NameUpTo(s, p, i).k
    ensures NameGiven(p, NameUpTo(s, p, i), i, c)
  {
    if i > 0 {
      var a, b := NameUpTo(s, p, i - 1), NameUpTo(s, p, i);
      NameUpToNamed(s, p, i - 1);
      if c < a.k {
        NameUpToGiven(s, p, i - 1, c);
        var j :| 0 <= j < i - 1 && p.num[j] > 0 && a.nm[j] == c;
        assert b.nm[j] == c;
      } else {
        assert b.nm[i - 1] == c;
      }
    }
  }

  lemma DistinctAppend(xs: seq<nat>, x: nat)
    requires Distinct(xs) && x !in xs
    ensures Distinct(xs + [x])
    ensures Elems(xs + [x]) == Elems(xs) + {x}
  {
    assert forall i :: 0 <= i < |xs| ==> xs[i] in xs;
  }

  lemma {:induction false} NameUpToQueueGrows(s: State, p: Plan, i: nat)
    requires ValidState(s) && SoundPlan(s, p) && i <= |p.num|
    ensures QueueGrows(s, p, NameUpTo(s, p, i), i)
  {
    if i > 0 {
      NameUpToNamed(s, p, i - 1);
      NameUpToQueueGrows(s, p, i - 1);
      var a := NameUpTo(s, p, i - 1);
      assert a.k !in a.queue;
      DistinctAppend(a.queue, a.k);
      if p.c !in a.queue { DistinctAppend(a.queue, p.c); }
    }
  }

  lemma QueueHasStep(p: Plan, a: Naming, b: Naming, x: nat, i: nat)
    requires i < |p.num| == |a.nm| && QueueHas(p, a, i)
    requires b.nm == a.nm[i := x] && (p.queued || x !in a.queue)
    requires forall c :: c in b.queue <==> c in a.queue || (c == x && (p.queued || i != p.big))
    requires p.big < i ==> a.nm[p.big] != x
    ensures QueueHas(p, b, i + 1)
  {
  }

  lemma NewNameNotQueued(s: State, p: Plan, i: nat)
    requires ValidState(s) && SoundPlan(s, p) && i < |p.num| && p.num[i] > 0
    ensures var a, b := NameUpTo(s, p, i), NameUpTo(s, p, i + 1);
            && b.nm == a.nm[i := if i == p.lo then p.c else a.k]
            && (if p.queued then p.c in a.queue else b.nm[i] !in a.queue)
  {
    var a := NameUpTo(s, p, i);
    NameUpToQueueGrows(s, p, i);
    NameUpToNamed(s, p, i);
    assert a.k !in a.queue;
    if p.queued { assert p.c in Elems(a.queue); }
  }

  lemma {:induction false} NameUpToQueueHas(s: State, p: Plan, i: nat)
    requires ValidState(s) && SoundPlan(s, p) && i <= |p.num|
    ensures QueueHas(p, NameUpTo(s, p, i), i)
  {
    if i > 0 {
      NameUpToQueueHas(s, p, i - 1);
      var a, b := NameUpTo(s, p, i - 1), NameUpTo(s, p, i);
      if p.num[i - 1] > 0 {
        NewNameNotQueued(s, p, i - 1);
        assert b.nm[i - 1] >= 0 && (p.big < i - 1 ==> a.nm[p.big] != b.nm[i - 1]) by { NameUpToNamed(s, p, i); }
        QueueHasStep(p, a, b, b.nm[i - 1], i - 1);
      }
    }
  }

  // ----- what splitting one class does -----

  lemma PlanSound(s: State, deg: seq<nat>, c: nat)
    requires ValidState(s) && |deg| == |s.col| && c < s.k
    ensures SoundPlan(s, PlanFor(s, deg, c))
    ensures var p := PlanFor(s, deg, c);
            && (forall v :: 0 <= v < |s.col| && s.col[v] == c ==>
                deg[v] < |p.num| && p.num[deg[v]] > 0 && p.lo <= deg[v])
            && (forall d :: 0 <= d < |p.num| && p.num[d] > 0 ==> exists v :: v in Class(s.col, c) && deg[v] == d)
            && p.num[|p.num| - 1] > 0
            && (forall d :: 0 <= d < |p.num| ==> p.num[d] == |Members(s.col, deg, c, d)| && p.num[d] <= p.num[p.big])
  {
    var p := PlanFor(s, deg, c);
    var n := |s.col|;
    TopIs(s.col, deg, c, n);
    LargestIs(p.num, |p.num|);
    forall v: nat | v < n && s.col[v] == c
      ensures deg[v] < |p.num| && p.num[deg[v]] > 0 && p.lo <= deg[v]
    {
      assert v in Members(s.col, deg, c, deg[v]);
      LeastIs(p.num, deg[v]);
    }
    forall d: nat | d < |p.num| && p.num[d] > 0
      ensures exists v :: v in Class(s.col, c) && deg[v] == d
    {
      var v :| v in Members(s.col, deg, c, d);
    }
    var v :| v in Class(s.col, c);
    LeastIs(p.num, deg[v]);
    if |p.num| > 1 {
      var top :| 0 <= top < n && s.col[top] == c && deg[top] == |p.num| - 1;
    } else {
      assert deg[v] == 0;
    }
  }

  ghost predicate DegreesOf(wt: Weights, w: set<nat>, deg: seq<nat>) {
    forall v: nat :: v < |deg| ==> deg[v] == Count(wt, w, v)
  }

  ghost predicate Divided(s: State, deg: seq<nat>, c: nat)
    requires |deg| == |s.col|
  {
    var p := PlanFor(s, deg, c);
    p.lo + 1 < |p.num|
  }

  // A class left alone has one degree.
  lemma UndividedUniform(s: State, deg: seq<nat>, c: nat, wt: Weights, w: set<nat>)
    requires ValidState(s) && |deg| == |s.col| && c < s.k && DegreesOf(wt, w, deg)
    requires !Divided(s, deg, c)
    ensures Uniform(wt, s.col, c, w)
  {
    PlanSound(s, deg, c);
    forall u, v | u in Class(s.col, c) && v in Class(s.col, c)
      ensures Agree(wt, w, u, v)
    {
      assert deg[u] == PlanFor(s, deg, c).lo == deg[v];
    }
  }

  // A vertex of a divided class takes the name of its degree.
  lemma SplitOneColour(s: State, deg: seq<nat>, c: nat, v: nat)
    requires ValidState(s) && |deg| == |s.col| && c < s.k && v < |s.col|
    requires Divided(s, deg, c)
    ensures var p, t := PlanFor(s, deg, c), SplitOne(s, deg, c);
            var a := NameUpTo(s, p, |p.num|);
            && t.queue == a.queue && t.k == a.k
            && (s.col[v] != c ==> t.col[v] == s.col[v])
            && (s.col[v] == c ==> deg[v] < |p.num| && p.num[deg[v]] > 0 && t.col[v] == a.nm[deg[v]]
                                  && (t.col[v] == c || s.k <= t.col[v] < t.k))
  {
    var p := PlanFor(s, deg, c);
    PlanSound(s, deg, c);
    NameUpToNamed(s, p, |p.num|);
  }

  lemma SplitOnePair(s: State, deg: seq<nat>, c: nat, u: nat, v: nat)
    requires ValidState(s) && |deg| == |s.col| && c < s.k && u < |s.col| && v < |s.col|
    requires Divided(s, deg, c)
    requires s.col[u] == c
    ensures var t := SplitOne(s, deg, c);
            && (s.col[v] == c ==> (t.col[u] == t.col[v] <==> deg[u] == deg[v]))
            && (s.col[v] != c ==> t.col[u] != t.col[v])
  {
    var p := PlanFor(s, deg, c);
    PlanSound(s, deg, c);
    NameUpToNamed(s, p, |p.num|);
    SplitOneColour(s, deg, c, u);
    SplitOneColour(s, deg, c, v);
  }

  lemma SplitOneGrows(s: State, deg: seq<nat>, c: nat)
    requires ValidState(s) && |deg| == |s.col| && c < s.k
    requires Divided(s, deg, c)
    ensures s.k < SplitOne(s, deg, c).k
  {
    var p := PlanFor(s, deg, c);
    PlanSound(s, deg, c);
    NameUpToNamed(s, p, |p.num|);
    assert NameUpTo(s, p, |p.num|).nm[|p.num| - 1] >= s.k;
  }

  lemma SplitOneSplits(s: State, deg: seq<nat>, c: nat, wt: Weights, w: set<nat>)
    requires ValidState(s) && |deg| == |s.col| && c < s.k && DegreesOf(wt, w, deg)
    requires Divided(s, deg, c)
    ensures SplitBy(wt, s.col, SplitOne(s, deg, c).col, c, w)
  {
    var t := SplitOne(s, deg, c);
    forall v: nat | v < |s.col| && s.col[v] != c
      ensures t.col[v] == s.col[v]
    {
      SplitOneColour(s, deg, c, v);
    }
    forall u: nat, v: nat | u < |s.col| && v < |s.col| && s.col[u] == c
      ensures s.col[v] == c ==> (t.col[u] == t.col[v] <==> Agree(wt, w, u, v))
      ensures s.col[v] != c ==> t.col[u] != s.col[v]
    {
      SplitOnePair(s, deg, c, u, v);
      SplitOneColour(s, deg, c, v);
    }
  }

  lemma SplitOneRequeues(s: State, deg: seq<nat>, c: nat) returns (spared: nat)
    requires ValidState(s) && |deg| == |s.col| && c < s.k
    requires Divided(s, deg, c)
    ensures var t := SplitOne(s, deg, c);
            && Requeued(s.col, t.col, c, Elems(s.queue), Elems(t.queue), spared)
            && spared in Pieces(s.col, t.col, c)
            && (c !in s.queue ==> spared !in t.queue)
            && (forall d :: d in t.queue ==> d in s.queue || d == c || s.k <= d)
            && (forall d :: d in Pieces(s.col, t.col, c) ==> |Class(t.col, d)| <= |Class(t.col, spared)|)
  {
    var p := PlanFor(s, deg, c);
    var a := NameUpTo(s, p, |p.num|);
    var t := SplitOne(s, deg, c);
    PlanSound(s, deg, c);
    NameUpToQueueGrows(s, p, |p.num|);
    NameUpToQueueHas(s, p, |p.num|);
    spared := PieceIsMembers(s, deg, c, p.big);
    var big :| big in Class(s.col, c) && deg[big] == p.big;
    SplitOneColour(s, deg, c, big);
    assert t.col[big] == spared;
    forall d | d in Pieces(s.col, t.col, c)
      ensures d == spared || d in t.queue
      ensures c in s.queue ==> d in t.queue
      ensures d == c || d !in s.queue
      ensures |Class(t.col, d)| <= |Class(t.col, spared)|
    {
      var v :| v in Class(s.col, c) && t.col[v] == d;
      SplitOneColour(s, deg, c, v);
      var e := PieceIsMembers(s, deg, c, deg[v]);
    }
  }

  lemma PieceIsMembers(s: State, deg: seq<nat>, c: nat, d: nat) returns (name: nat)
    requires ValidState(s) && |deg| == |s.col| && c < s.k
    requires Divided(s, deg, c)
    requires d < |PlanFor(s, deg, c).num| && PlanFor(s, deg, c).num[d] > 0
    ensures var p := PlanFor(s, deg, c);
            && name == NameUpTo(s, p, |p.num|).nm[d]
            && Class(SplitOne(s, deg, c).col, name) == Members(s.col, deg, c, d)
  {
    var p := PlanFor(s, deg, c);
    var t := SplitOne(s, deg, c);
    PlanSound(s, deg, c);
    var u :| u in Class(s.col, c) && deg[u] == d;
    SplitOneColour(s, deg, c, u);
    name := t.col[u];
    forall v: nat | v < |s.col|
      ensures t.col[v] == name <==> v in Members(s.col, deg, c, d)
    {
      SplitOnePair(s, deg, c, u, v);
    }
  }

  lemma SplitOneValid(s: State, deg: seq<nat>, c: nat)
    requires ValidState(s) && |deg| == |s.col| && c < s.k
    requires Divided(s, deg, c)
    ensures ValidState(SplitOne(s, deg, c))
  {
    var p := PlanFor(s, deg, c);
    var a := NameUpTo(s, p, |p.num|);
    var t := SplitOne(s, deg, c);
    PlanSound(s, deg, c);
    SplitOneGrows(s, deg, c);
    NameUpToQueueGrows(s, p, |p.num|);
    forall v: nat | v < |t.col| ensures t.col[v] < t.k {
      SplitOneColour(s, deg, c, v);
    }
    forall d: nat | d < t.k
      ensures Class(t.col, d) != {}
    {
      SplitOneInhabited(s, deg, c, d);
    }
    forall i | 0 <= i < |t.queue| ensures t.queue[i] < t.k {
      assert t.queue[i] in t.queue;
    }
  }

  lemma SplitOneInhabited(s: State, deg: seq<nat>, c: nat, d: nat)
    requires ValidState(s) && |deg| == |s.col| && c < s.k
    requires Divided(s, deg, c) && d < SplitOne(s, deg, c).k
    ensures Class(SplitOne(s, deg, c).col, d) != {}
  {
    var p := PlanFor(s, deg, c);
    var a := NameUpTo(s, p, |p.num|);
    var t := SplitOne(s, deg, c);
    PlanSound(s, deg, c);
    if d < s.k && d != c {
      var v :| v in Class(s.col, d);
      SplitOneColour(s, deg, c, v);
      assert v in Class(t.col, d);
    } else {
      NameUpToNamed(s, p, |p.num|);
      if d != c { NameUpToGiven(s, p, |p.num|, d); }
      var j: nat :| j < |p.num| && p.num[j] > 0 && a.nm[j] == d;
      var name := PieceIsMembers(s, deg, c, j);
      assert |Members(s.col, deg, c, j)| > 0;
    }
  }
}
