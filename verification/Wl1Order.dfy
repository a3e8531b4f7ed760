// The ids that run1WL gives, and the order of its queue: what they are, in terms of the colours and degrees
// before a round, and of the colours given at the start.
module Wl1Order {
  import opened Sums
  import opened Refinement
  import opened Wl1Spec
  import opened Wl1Theory

  // ----- the ids of one split -----

  // No vertex of the class of v has a smaller degree.
  ghost predicate LeastInClass(col: seq<nat>, deg: seq<nat>, v: nat)
    requires |deg| == |col| && v < |col|
  {
    forall u: nat :: u < |col| && col[u] == col[v] ==> deg[v] <= deg[u]
  }

  // The vertices of least degree keep the colour; the other degrees take fresh colours in ascending order.
  lemma SplitOneIds(s: State, deg: seq<nat>, c: nat, u: nat, v: nat)
    requires ValidState(s) && |deg| == |s.col| && c < s.k && u < |s.col| && v < |s.col|
    requires s.col[u] == c && s.col[v] == c
    ensures var t := SplitOne(s, deg, c);
      && (t.col[v] == c <==> LeastInClass(s.col, deg, v)) && (t.col[v] != c ==> s.k <= t.col[v])
      && (t.col[u] != c && t.col[v] != c ==> (t.col[u] < t.col[v] <==> deg[u] < deg[v]))
  {
    var p, t := PlanFor(s, deg, c), SplitOne(s, deg, c);
    PlanSound(s, deg, c);
    LeastIsLo(s, deg, c, v);
    if Divided(s, deg, c) {
      SplitOneColour(s, deg, c, u);
      SplitOneColour(s, deg, c, v);
      NameUpToNamed(s, p, |p.num|);
    } else {
      UndividedSame(s, deg, c);
      assert deg[v] == p.lo;
    }
  }

  lemma LeastIsLo(s: State, deg: seq<nat>, c: nat, v: nat)
    requires ValidState(s) && |deg| == |s.col| && c < s.k && v < |s.col| && s.col[v] == c
    ensures LeastInClass(s.col, deg, v) <==> deg[v] == PlanFor(s, deg, c).lo
  {
    PlanSound(s, deg, c);
    var p := PlanFor(s, deg, c);
    var u :| u in Class(s.col, c) && deg[u] == p.lo;
  }

  // ----- the ids of one round -----

  // Colours below c have been tried. Whoever moved has a fresh colour, and the fresh colours are in the order
  // of the old colours and, within one of these, of the degrees.
  ghost predicate InOrder(col: seq<nat>, deg: seq<nat>, col2: seq<nat>, k: nat, c: nat) {
    && |deg| == |col| == |col2|
    && (forall v: nat :: v < |col| ==> if col2[v] == col[v] then c <= col[v] || LeastInClass(col, deg, v)
          else col[v] < c && k <= col2[v] && !LeastInClass(col, deg, v))
    && (forall u: nat, v: nat :: u < |col| && v < |col| && col2[u] != col[u] && col2[v] != col[v] ==>
          (col2[u] < col2[v] <==> col[u] < col[v] || (col[u] == col[v] && deg[u] < deg[v])))
  }

  lemma InOrderNext(s: State, deg: seq<nat>, t: State, c: nat)
    requires ValidState(s) && ValidState(t) && |deg| == |s.col| && c < s.k <= t.k && |t.col| == |s.col|
    requires InOrder(s.col, deg, t.col, s.k, c)
    ensures InOrder(s.col, deg, SplitOne(t, deg, c).col, s.k, c + 1)
  {
    var r := SplitOne(t, deg, c);
    SameMembers(s, deg, t, c);
    hide SplitOne, ValidState, LeastInClass;
    forall v: nat | v < |s.col|
      ensures if r.col[v] == s.col[v] then c + 1 <= s.col[v] || LeastInClass(s.col, deg, v)
        else s.col[v] < c + 1 && s.k <= r.col[v] && !LeastInClass(s.col, deg, v)
    {
      VertexNext(s, deg, t, c, v);
    }
    forall u: nat, v: nat | u < |s.col| && v < |s.col| && r.col[u] != s.col[u] && r.col[v] != s.col[v]
      ensures r.col[u] < r.col[v] <==> s.col[u] < s.col[v] || (s.col[u] == s.col[v] && deg[u] < deg[v])
    {
      PairNext(s, deg, t, c, u, v);
    }
  }

  lemma VertexNext(s: State, deg: seq<nat>, t: State, c: nat, v: nat)
    requires ValidState(s) && ValidState(t) && |deg| == |s.col| && c < s.k <= t.k && |t.col| == |s.col|
    requires InOrder(s.col, deg, t.col, s.k, c) && v < |s.col|
    ensures var r := SplitOne(t, deg, c);
      && |r.col| == |s.col|
      && if r.col[v] == s.col[v] then c + 1 <= s.col[v] || LeastInClass(s.col, deg, v)
         else s.col[v] < c + 1 && s.k <= r.col[v] && !LeastInClass(s.col, deg, v)
  {
    SameMembers(s, deg, t, c);
    assert s.col[v] < s.k && t.col[v] < t.k;
    hide SplitOne, ValidState, LeastInClass;
    MovesOn(s, deg, t, c, v, v);
  }

  lemma PairNext(s: State, deg: seq<nat>, t: State, c: nat, u: nat, v: nat)
    requires ValidState(s) && ValidState(t) && |deg| == |s.col| && c < s.k <= t.k && |t.col| == |s.col|
    requires InOrder(s.col, deg, t.col, s.k, c) && u < |s.col| && v < |s.col|
    ensures var r := SplitOne(t, deg, c);
      && |r.col| == |s.col|
      && (r.col[u] != s.col[u] && r.col[v] != s.col[v] ==>
            (r.col[u] < r.col[v] <==> s.col[u] < s.col[v] || (s.col[u] == s.col[v] && deg[u] < deg[v])))
  {
    SameMembers(s, deg, t, c);
    assert s.col[u] < s.k && s.col[v] < s.k && t.col[u] < t.k && t.col[v] < t.k;
    hide SplitOne, ValidState, LeastInClass;
    MovesOn(s, deg, t, c, u, v);
    MovesOn(s, deg, t, c, v, u);
  }

  // Colour c has the same vertices as at the start of the round.
  lemma SameMembers(s: State, deg: seq<nat>, t: State, c: nat)
    requires ValidState(s) && |deg| == |s.col| && c < s.k && |t.col| == |s.col|
    requires InOrder(s.col, deg, t.col, s.k, c)
    ensures forall v: nat :: v < |s.col| ==> (t.col[v] == c <==> s.col[v] == c)
    ensures forall v: nat :: v < |s.col| && s.col[v] == c ==>
      (LeastInClass(t.col, deg, v) <==> LeastInClass(s.col, deg, v))
  {
    forall v: nat | v < |s.col| ensures t.col[v] == c <==> s.col[v] == c {
      assert s.col[v] < s.k;
    }
  }

  lemma MovesOn(s: State, deg: seq<nat>, t: State, c: nat, u: nat, v: nat)
    requires ValidState(t) && |deg| == |s.col| == |t.col| && c < s.k <= t.k && u < |s.col| && v < |s.col|
    requires forall x: nat :: x < |s.col| ==> (t.col[x] == c <==> s.col[x] == c)
    requires forall x: nat :: x < |s.col| && s.col[x] == c ==>
      (LeastInClass(t.col, deg, x) <==> LeastInClass(s.col, deg, x))
    ensures var r := SplitOne(t, deg, c);
      && (s.col[v] != c ==> r.col[v] == t.col[v] < t.k)
      && (s.col[v] == c ==> (r.col[v] == c <==> LeastInClass(s.col, deg, v)) && (r.col[v] != c ==> t.k <= r.col[v]))
      && (s.col[u] == c && s.col[v] == c && r.col[u] != c && r.col[v] != c ==>
            (r.col[u] < r.col[v] <==> deg[u] < deg[v]))
  {
    assert t.col[v] < t.k;
    if s.col[v] == c {
      SplitOneIds(t, deg, c, v, v);
      if s.col[u] == c { SplitOneIds(t, deg, c, u, v); }
    } else if Divided(t, deg, c) {
      SplitOneColour(t, deg, c, v);
    } else {
      UndividedSame(t, deg, c);
    }
  }

  lemma {:induction false} SplitUpToOrder(s: State, deg: seq<nat>, c: nat)
    requires ValidState(s) && |deg| == |s.col| && c <= s.k
    ensures InOrder(s.col, deg, SplitUpTo(s, deg, c).col, s.k, c)
  {
    hide SplitOne, InOrder;
    if c > 0 {
      SplitUpToOrder(s, deg, c - 1);
      SplitUpToProgress(s, deg, c - 1);
      InOrderNext(s, deg, SplitUpTo(s, deg, c - 1), c - 1);
    } else {
      NoneMoved(s, deg);
    }
  }

  lemma NoneMoved(s: State, deg: seq<nat>)
    requires |deg| == |s.col|
    ensures InOrder(s.col, deg, s.col, s.k, 0)
  {
  }

  // Main theorem: the colours after a round in terms of those before it. A vertex keeps its colour exactly if
  // no vertex of its class receives fewer arcs from the popped class; the others have fresh colours, ordered by
  // old colour and then by the number of arcs; and no colour is skipped.
  lemma RoundIds(g: Csr, s: State)
    requires ValidState(s) && s.queue != []
    ensures var t, deg := Round(g, s), Degrees(g, s.col, s.queue[0]);
      && InOrder(s.col, deg, t.col, s.k, s.k) && Dense(t.col, t.k)
      && forall v: nat :: v < |s.col| ==> deg[v] == Count(Wt(g), Class(s.col, s.queue[0]), v)
  {
    PoppedValid(s);
    RoundProgress(g, s);
    SplitUpToOrder(Popped(s), Degrees(g, s.col, s.queue[0]), s.k);
  }

  // ----- the queue of one round -----

  // Entries after the first m stand in ascending order of degree.
  ghost predicate TailAscends(p: Plan, a: Naming, m: nat, i: nat) {
    && |a.nm| == |p.num| && i <= |p.num|
    && forall x, y :: m <= x < y < |a.queue| ==> exists j, l ::
        0 <= j < l < i && p.num[j] > 0 && p.num[l] > 0 && a.nm[j] == a.queue[x] && a.nm[l] == a.queue[y]
  }

  // Every entry after the first m is a name that has been given.
  ghost predicate TailNamed(p: Plan, a: Naming, m: nat, i: nat) {
    && |a.nm| == |p.num| && i <= |p.num|
    && forall x :: m <= x < |a.queue| ==> exists j :: 0 <= j < i && p.num[j] > 0 && a.nm[j] == a.queue[x]
  }

  lemma TailNext(s: State, p: Plan, i: nat)
    requires i < |p.num| && TailNamed(p, NameUpTo(s, p, i), |s.queue|, i)
    requires TailAscends(p, NameUpTo(s, p, i), |s.queue|, i) && s.queue <= NameUpTo(s, p, i).queue
    ensures TailNamed(p, NameUpTo(s, p, i + 1), |s.queue|, i + 1)
    ensures TailAscends(p, NameUpTo(s, p, i + 1), |s.queue|, i + 1) && s.queue <= NameUpTo(s, p, i + 1).queue
  {
    var a, b, m := NameUpTo(s, p, i), NameUpTo(s, p, i + 1), |s.queue|;
    assert a.queue <= b.queue && |b.queue| <= |a.queue| + 1;
    assert |b.queue| > |a.queue| ==> p.num[i] > 0 && b.nm[i] == b.queue[|a.queue|];
    assert forall j :: 0 <= j < i ==> b.nm[j] == a.nm[j];
    hide NameUpTo;
    forall x | m <= x < |b.queue| ensures exists j :: 0 <= j < i + 1 && p.num[j] > 0 && b.nm[j] == b.queue[x] {
      if x < |a.queue| {
        var j :| 0 <= j < i && p.num[j] > 0 && a.nm[j] == a.queue[x];
        assert b.nm[j] == b.queue[x];
      } else {
        assert b.nm[i] == b.queue[x];
      }
    }
    forall x, y | m <= x < y < |b.queue| ensures exists j, l ::
      0 <= j < l < i + 1 && p.num[j] > 0 && p.num[l] > 0 && b.nm[j] == b.queue[x] && b.nm[l] == b.queue[y]
    {
      if y < |a.queue| {
        var j, l :| 0 <= j < l < i && p.num[j] > 0 && p.num[l] > 0 && a.nm[j] == a.queue[x] && a.nm[l] == a.queue[y];
        assert b.nm[j] == b.queue[x] && b.nm[l] == b.queue[y];
      } else {
        var j :| 0 <= j < i && p.num[j] > 0 && a.nm[j] == a.queue[x];
        assert b.nm[j] == b.queue[x] && b.nm[i] == b.queue[y];
      }
    }
  }

  lemma {:induction false} TailOrder(s: State, p: Plan, i: nat)
    requires i <= |p.num|
    ensures TailNamed(p, NameUpTo(s, p, i), |s.queue|, i)
    ensures TailAscends(p, NameUpTo(s, p, i), |s.queue|, i) && s.queue <= NameUpTo(s, p, i).queue
  {
    hide TailNamed, TailAscends;
    if i > 0 {
      TailOrder(s, p, i - 1);
      TailNext(s, p, i - 1);
    } else {
      NoTail(s, p);
    }
  }

  lemma NoTail(s: State, p: Plan)
    ensures TailNamed(p, NameUpTo(s, p, 0), |s.queue|, 0)
    ensures TailAscends(p, NameUpTo(s, p, 0), |s.queue|, 0) && s.queue <= NameUpTo(s, p, 0).queue
  {
  }

  // What was queued before a split stays in front, and what is queued by it is in ascending order of degree.
  lemma SplitOneQueue(s: State, deg: seq<nat>, c: nat)
    requires ValidState(s) && |deg| == |s.col| && c < s.k
    ensures var t := SplitOne(s, deg, c);
      && s.queue <= t.queue
      && forall x, y, u: nat, v: nat ::
          (|s.queue| <= x < y < |t.queue| && u < |s.col| && v < |s.col| && t.col[u] == t.queue[x]
           && t.col[v] == t.queue[y]) ==> s.col[u] == c && s.col[v] == c && deg[u] < deg[v]
  {
    if Divided(s, deg, c) {
      var p, t := PlanFor(s, deg, c), SplitOne(s, deg, c);
      var a := NameUpTo(s, p, |p.num|);
      TailOrder(s, p, |p.num|);
      assert t.queue == a.queue;
      hide SplitOne, PlanFor, NameUpTo;
      forall x, y, u: nat, v: nat | |s.queue| <= x < y < |t.queue| && u < |s.col| && v < |s.col|
        && t.col[u] == t.queue[x] && t.col[v] == t.queue[y]
        ensures s.col[u] == c && s.col[v] == c && deg[u] < deg[v]
      {
        var j, l :| 0 <= j < l < |p.num| && p.num[j] > 0 && p.num[l] > 0 && a.nm[j] == a.queue[x]
          && a.nm[l] == a.queue[y];
        NameIsDegree(s, deg, c, u, j);
        NameIsDegree(s, deg, c, v, l);
      }
    } else {
      UndividedSame(s, deg, c);
    }
  }

  // A vertex that has the name of degree j after the split has this degree.
  lemma NameIsDegree(s: State, deg: seq<nat>, c: nat, u: nat, j: nat)
    requires ValidState(s) && |deg| == |s.col| && c < s.k && Divided(s, deg, c) && u < |s.col|
    requires var p := PlanFor(s, deg, c); j < |p.num| && p.num[j] > 0
    requires SplitOne(s, deg, c).col[u] == NameUpTo(s, PlanFor(s, deg, c), |PlanFor(s, deg, c).num|).nm[j]
    ensures s.col[u] == c && deg[u] == j
  {
    var name := PieceIsMembers(s, deg, c, j);
    assert u in Class(SplitOne(s, deg, c).col, name);
    assert u in Members(s.col, deg, c, j);
  }

  lemma {:induction false} SplitUpToQueue(s: State, deg: seq<nat>, c: nat)
    requires ValidState(s) && |deg| == |s.col| && c <= s.k
    ensures s.queue <= SplitUpTo(s, deg, c).queue
  {
    hide SplitOne;
    if c > 0 {
      SplitUpToQueue(s, deg, c - 1);
      SplitUpToProgress(s, deg, c - 1);
      SplitOneQueue(SplitUpTo(s, deg, c - 1), deg, c - 1);
    }
  }

  // First in, first out: a round takes the front of the queue, and what it adds goes behind the rest.
  lemma RoundQueue(g: Csr, s: State)
    requires ValidState(s) && s.queue != []
    ensures s.queue[1..] <= Round(g, s).queue
  {
    PoppedValid(s);
    SplitUpToQueue(Popped(s), Degrees(g, s.col, s.queue[0]), s.k);
  }

  // Of several largest pieces the one of least degree is left out.
  lemma SparedIsFirst(s: State, deg: seq<nat>, c: nat, u: nat, v: nat)
    requires ValidState(s) && |deg| == |s.col| && c < s.k && Divided(s, deg, c) && c !in s.queue
    requires u < |s.col| && v < |s.col| && s.col[u] == c && s.col[v] == c
    requires SplitOne(s, deg, c).col[u] !in SplitOne(s, deg, c).queue
    ensures var t := SplitOne(s, deg, c);
      |Class(t.col, t.col[v])| < |Class(t.col, t.col[u])|
      || (|Class(t.col, t.col[v])| == |Class(t.col, t.col[u])| && deg[u] <= deg[v])
  {
    var p, t := PlanFor(s, deg, c), SplitOne(s, deg, c);
    PlanSound(s, deg, c);
    SplitOneColour(s, deg, c, u);
    SplitOneColour(s, deg, c, v);
    NameUpToQueueHas(s, p, |p.num|);
    assert deg[u] == p.big;
    LargestIs(p.num, |p.num|);
    assert p.big == LargestUpTo(p.num, |p.num|);
    var x := PieceIsMembers(s, deg, c, deg[u]);
    var y := PieceIsMembers(s, deg, c, deg[v]);
  }

  // ----- the ids of the whole run -----

  // Ids below k are those of the start.
  ghost predicate KeepsIds(col: seq<nat>, col2: seq<nat>, k: nat) {
    |col2| == |col| && forall v :: 0 <= v < |col| && col2[v] < k ==> col2[v] == col[v]
  }

  lemma {:induction false} RunKeepsIds(g: Csr, s: State, k: nat)
    requires ValidState(s) && k <= s.k
    ensures KeepsIds(s.col, Run(g, s).col, k) && k <= Run(g, s).k
    decreases |s.col| - s.k, |s.queue|
  {
    if s.queue != [] {
      var t := Round(g, s);
      RoundProgress(g, s);
      DenseBound(s.col, s.k);
      DenseBound(t.col, t.k);
      RoundIds(g, s);
      RunKeepsIds(g, t, k);
    }
  }

  ghost function Smaller(given: seq<int>, x: int): set<int> {
    set y | y in given && y < x
  }

  ghost function Used(given: seq<int>): set<int> {
    set y | y in given
  }

  ghost predicate Occurs(result: seq<nat>, c: nat) {
    exists v :: 0 <= v < |result| && result[v] == c
  }

  // With k0 different colours given, the ids below k0 all occur, and a vertex that has one of them has the
  // number of given colours that are smaller than its own.
  ghost predicate GivenIds(given: seq<int>, result: seq<nat>) {
    var k0 := |Used(given)|;
    && |result| == |given|
    && (forall v :: 0 <= v < |result| && result[v] < k0 ==> result[v] == |Smaller(given, given[v])|)
    && (forall c: nat :: c < k0 ==> Occurs(result, c))
    && (forall u, v :: 0 <= u < |result| && 0 <= v < |result| && result[u] < k0 && result[v] < k0 ==>
          (result[u] < result[v] <==> given[u] < given[v]))
  }

  // Main theorem: the ids of the result follow the order of the colours given.
  lemma ColoursFollowGiven(g: Csr, colours: seq<int>)
    requires |colours| == g.n || colours == []
    ensures GivenIds(Given(g.n, colours), Colours(g, colours))
  {
    var given, result := Given(g.n, colours), Colours(g, colours);
    if g.n == 0 {
      assert Used(given) == {};
    } else if g.n == 1 {
      assert |given| == 1 && result == [0];
      assert Used(given) == {given[0]} && Smaller(given, given[0]) == {};
      assert |Used(given)| == 1 && result[0] == 0 && Occurs(result, 0);
    } else {
      StartValid(given);
      RunFollowsGiven(g, given, Start(given));
    }
  }

  lemma RunFollowsGiven(g: Csr, given: seq<int>, s: State)
    requires |given| == g.n > 0 && s == Start(given) && ValidState(s)
    ensures GivenIds(given, Run(g, s).col)
  {
    StartValid(given);
    RunCoarsest(g, s, s.col) by { QueueAllInv(Wt(g), s.col, Elems(s.queue)); }
    RunKeepsIds(g, s, s.k);
    SmallerIs(given);
    hide *;
    IdsOfRanks(given, s.col, s.k, Run(g, s).col, Run(g, s).k);
  }

  lemma IdsOfRanks(given: seq<int>, col: seq<nat>, k0: nat, result: seq<nat>, k: nat)
    requires RanksOf(given, col, k0) && KeepsIds(col, result, k0) && Dense(result, k) && k0 <= k
    ensures GivenIds(given, result)
  {
    hide Smaller, Class;
    forall c: nat | c < k0 ensures Occurs(result, c) {
      var v := Pick(Class(result, c));
      ClassMember(result, c, v);
    }
    forall u, v | 0 <= u < |given| && 0 <= v < |given|
      ensures |Smaller(given, given[u])| < |Smaller(given, given[v])| <==> given[u] < given[v]
    {
      if given[u] < given[v] { MoreSmaller(given, given[u], given[v]); }
      if given[v] < given[u] { MoreSmaller(given, given[v], given[u]); }
    }
  }

  lemma ClassMember(col: seq<nat>, c: nat, v: nat)
    requires v in Class(col, c)
    ensures v < |col| && col[v] == c
  {
  }

  lemma MoreSmaller(given: seq<int>, x: int, y: int)
    requires x in given && x < y
    ensures |Smaller(given, x)| < |Smaller(given, y)|
  {
    assert Smaller(given, x) <= Smaller(given, y) - {x} && x in Smaller(given, y);
    SubsetCard(Smaller(given, x), Smaller(given, y) - {x});
  }

  // Each colour is the number of given colours below it, of k different ones.
  ghost predicate RanksOf(given: seq<int>, col: seq<nat>, k: nat) {
    && k == |Used(given)| && |col| == |given|
    && forall v :: 0 <= v < |given| ==> col[v] == |Smaller(given, given[v])|
  }

  lemma SmallerIs(given: seq<int>)
    ensures RanksOf(given, Start(given).col, Start(given).k)
  {
    assert IntElems(given) == Used(given);
    forall v | 0 <= v < |given| ensures Below(IntElems(given), given[v]) == Smaller(given, given[v]) {
    }
  }
}
