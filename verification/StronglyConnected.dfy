// The one-pass lowlink test for strong connectivity.
module StronglyConnected {
  import opened Sums
  import opened Graphs
  import opened EdgeFlow
  import opened EdgePaths
  import opened Rows

  // ----- reachability -----

  lemma ReachesSelf(g: Graph, v: nat)
    requires v < |g|
    ensures Reaches(g, v, v)
  {
    assert Path(g, [v], v, v);
  }

  lemma {:induction false} ReachesAlong(g: Graph, p: seq<nat>, q: seq<nat>, u: nat, v: nat, w: nat)
    requires Path(g, p, u, v) && Path(g, q, v, w)
    ensures Reaches(g, u, w)
    decreases |q|
  {
    if |q| == 1 {
      assert Path(g, p, u, w);
    } else {
      var x, rest := q[1], q[1..];
      assert q[1] in g[q[0]];
      assert forall i :: 0 <= i < |rest| ==> rest[i] == q[i + 1];
      assert Path(g, rest, x, w);
      assert Path(g, p + [x], u, x);
      ReachesAlong(g, p + [x], rest, u, x, w);
    }
  }

  lemma ReachesTransitive(g: Graph, u: nat, v: nat, w: nat)
    requires Reaches(g, u, v) && Reaches(g, v, w)
    ensures Reaches(g, u, w)
  {
    var p :| Path(g, p, u, v);
    var q :| Path(g, q, v, w);
    ReachesAlong(g, p, q, u, v, w);
  }

  ghost predicate OutClosed(g: Graph, s: set<nat>) {
    forall v: nat, w: nat :: v in s && v < |g| && w in g[v] ==> w in s
  }

  lemma {:induction false} PathStaysInside(g: Graph, p: seq<nat>, u: nat, v: nat, s: set<nat>)
    requires Path(g, p, u, v) && u in s && OutClosed(g, s)
    ensures v in s
    decreases |p|
  {
    if |p| > 1 {
      var rest := p[1..];
      assert p[1] in g[p[0]];
      assert forall i :: 0 <= i < |rest| ==> rest[i] == p[i + 1];
      assert Path(g, rest, p[1], v);
      PathStaysInside(g, rest, p[1], v, s);
    }
  }

  lemma NeverLeaves(g: Graph, u: nat, v: nat, s: set<nat>)
    requires u in s && v !in s && OutClosed(g, s)
    ensures !Reaches(g, u, v)
  {
    if Reaches(g, u, v) {
      var p :| Path(g, p, u, v);
      PathStaysInside(g, p, u, v, s);
    }
  }

  ghost predicate Strong(g: Graph) {
    |g| > 0 && forall u: nat, v: nat :: u < |g| && v < |g| ==> Reaches(g, u, v)
  }

  // ----- the state of the search -----

  datatype State = State(num: seq<int>, lowlink: seq<int>, stack: seq<nat>, vc: int, numvis: nat)

  ghost predicate Visited(s: State, v: nat) {
    v < |s.num| && s.num[v] >= 0
  }

  ghost predicate Finished(s: State, v: nat) {
    Visited(s, v) && v !in s.stack
  }

  // How far the arcs of the stack entry at position i were looked at.
  ghost function Position(s: State, i: nat): int
    requires i < |s.stack|
  {
    if i + 1 < |s.stack| then s.stack[i + 1] else s.vc
  }

  ghost predicate Numbered(g: Graph, s: State, order: seq<nat>) {
    && |s.num| == |s.lowlink| == |g| && |order| == s.numvis
    && (forall i :: 0 <= i < |order| ==> order[i] < |g| && s.num[order[i]] == i)
    && (forall v: nat :: Visited(s, v) ==> s.num[v] < s.numvis && order[s.num[v]] == v)
  }

  ghost predicate StackOk(g: Graph, s: State) {
    && 0 < |s.stack| && s.stack[0] == 0 && 0 < |g| && -1 <= s.vc < |g|
    && (forall i :: 0 <= i < |s.stack| ==> Visited(s, s.stack[i]))
    && s.num[0] == 0
    && (forall i, j :: 0 <= i < j < |s.stack| ==> s.num[s.stack[i]] < s.num[s.stack[j]])
    && (forall i, j :: 0 <= i < j < |s.stack| && j == i + 1 ==> s.stack[i] < |g| && s.stack[j] in g[s.stack[i]])
  }

  // v has only arcs to visited vertices, none numbered below lowlink[v], as far as position pos.
  ghost predicate ArcsOk(g: Graph, s: State, v: nat, pos: int)
    requires v < |g| == |s.num| == |s.lowlink|
  {
    forall w: nat :: w in g[v] && w <= pos ==> Visited(s, w) && s.lowlink[v] <= s.num[w]
  }

  // lowlink[v] is the number of a vertex that v reaches, and 0 reaches v.
  ghost predicate LowOk(g: Graph, s: State, order: seq<nat>, v: nat)
    requires v < |g| == |s.num| == |s.lowlink|
  {
    0 <= s.lowlink[v] <= s.num[v] && ReachesNumber(g, order, v, s.lowlink[v]) && Reaches(g, 0, v)
  }

  ghost predicate ReachesNumber(g: Graph, order: seq<nat>, v: nat, l: int) {
    0 <= l < |order| && Reaches(g, v, order[l])
  }

  // The stack entry below a finished vertex has seen its lowlink.
  ghost predicate Passed(s: State, x: nat, i: nat)
    requires x < |s.num| == |s.lowlink| && i < |s.stack| && s.stack[i] < |s.num|
    requires i + 1 < |s.stack| ==> s.stack[i + 1] < |s.num|
  {
    s.num[s.stack[i]] < s.num[x] && (i + 1 < |s.stack| ==> s.num[x] < s.num[s.stack[i + 1]]) ==>
      s.lowlink[s.stack[i]] <= s.lowlink[x]
  }

  ghost predicate AllLow(g: Graph, s: State, order: seq<nat>)
    requires |s.num| == |s.lowlink| == |g|
  {
    forall v: nat {:trigger LowOk(g, s, order, v)} :: Visited(s, v) ==> LowOk(g, s, order, v)
  }

  ghost predicate StackArcs(g: Graph, s: State)
    requires |s.num| == |s.lowlink| == |g|
  {
    forall i: nat {:trigger ArcsOk(g, s, s.stack[i], Position(s, i))} ::
      i < |s.stack| && s.stack[i] < |g| ==> ArcsOk(g, s, s.stack[i], Position(s, i))
  }

  ghost predicate FinishedArcs(g: Graph, s: State)
    requires |s.num| == |s.lowlink| == |g|
  {
    forall x: nat :: Finished(s, x) ==> ArcsOk(g, s, x, |g|) && s.lowlink[x] < s.num[x]
  }

  ghost predicate AllPassed(s: State)
    requires |s.num| == |s.lowlink| && forall i :: 0 <= i < |s.stack| ==> s.stack[i] < |s.num|
  {
    forall x: nat, i: nat {:trigger Passed(s, x, i)} :: Finished(s, x) && i < |s.stack| ==> Passed(s, x, i)
  }

  ghost predicate Inv(g: Graph, s: State, order: seq<nat>) {
    && ValidGraph(g) && Numbered(g, s, order) && StackOk(g, s)
    && AllLow(g, s, order) && StackArcs(g, s) && FinishedArcs(g, s) && AllPassed(s)
  }

  ghost function Top(s: State): nat
    requires s.stack != []
  {
    s.stack[|s.stack| - 1]
  }

  // ----- the three steps -----

  ghost function Pushed(s: State, w: nat): State
    requires w < |s.num| == |s.lowlink|
  {
    State(s.num[w := s.numvis], s.lowlink[w := s.numvis], s.stack + [w], -1, s.numvis + 1)
  }

  ghost function Looked(s: State, w: nat): State
    requires s.stack != [] && Top(s) < |s.lowlink| && w < |s.num|
  {
    State(s.num, if s.num[w] < s.lowlink[Top(s)] then s.lowlink[Top(s) := s.num[w]]
      else s.lowlink, s.stack, w, s.numvis)
  }

  ghost function Popped(s: State): State
    requires |s.stack| > 1 && Top(s) < |s.lowlink| && s.stack[|s.stack| - 2] < |s.lowlink|
  {
    var v, u := Top(s), s.stack[|s.stack| - 2];
    State(s.num, if s.lowlink[v] < s.lowlink[u] then s.lowlink[u := s.lowlink[v]] else s.lowlink,
          s.stack[..|s.stack| - 1], v, s.numvis)
  }

  lemma ReachesStep(g: Graph, s: State, order: seq<nat>, v: nat, w: nat)
    requires Inv(g, s, order) && Visited(s, v) && w in g[v]
    ensures w < |g| && Reaches(g, v, w) && Reaches(g, 0, w)
  {
    hide ReachesNumber, Reaches;
    assert LowOk(g, s, order, v);
    ReachesNext(g, 0, v, w);
    ReachesSelf(g, v);
    ReachesNext(g, v, v, w);
  }

  lemma PushKeeps(g: Graph, s: State, order: seq<nat>, w: nat)
    requires Inv(g, s, order) && NextIs(g[Top(s)], s.vc, w) && w < |g| && !Visited(s, w)
    ensures Inv(g, Pushed(s, w), order + [w])
  {
    PushNumbers(g, s, order, w);
    PushLow(g, s, order, w);
    PushArcs(g, s, order, w);
    PushFinished(g, s, order, w);
  }

  lemma NumberKept(g: Graph, order: seq<nat>, w: nat, v: nat, l: int)
    requires ReachesNumber(g, order, v, l)
    ensures ReachesNumber(g, order + [w], v, l)
  {
    hide Reaches;
  }

  lemma NumberOf(g: Graph, order: seq<nat>, v: nat, l: int, w: nat)
    requires 0 <= l < |order| && order[l] == w && Reaches(g, v, w)
    ensures ReachesNumber(g, order, v, l)
  {
  }

  lemma NumberThrough(g: Graph, order: seq<nat>, u: nat, v: nat, l: int)
    requires Reaches(g, u, v) && ReachesNumber(g, order, v, l)
    ensures ReachesNumber(g, order, u, l)
  {
    ReachesTransitive(g, u, v, order[l]);
  }

  lemma PushNumbers(g: Graph, s: State, order: seq<nat>, w: nat)
    requires Inv(g, s, order) && w in g[Top(s)] && w < |g| && !Visited(s, w)
    ensures Numbered(g, Pushed(s, w), order + [w]) && StackOk(g, Pushed(s, w))
  {
    hide AllLow, StackArcs, FinishedArcs, AllPassed;
  }

  lemma PushLow(g: Graph, s: State, order: seq<nat>, w: nat)
    requires Inv(g, s, order) && w in g[Top(s)] && w < |g| && !Visited(s, w)
    ensures AllLow(g, Pushed(s, w), order + [w])
  {
    var t, order2 := Pushed(s, w), order + [w];
    ReachesStep(g, s, order, Top(s), w);
    ReachesSelf(g, w);
    NumberOf(g, order2, w, s.numvis, w);
    hide StackArcs, FinishedArcs, AllPassed, ReachesNumber, Reaches, StackOk, ValidGraph;
    assert forall x: nat :: Visited(t, x) <==> Visited(s, x) || x == w;
    forall x: nat | Visited(t, x) ensures LowOk(g, t, order2, x) {
      if x != w {
        assert LowOk(g, s, order, x);
        NumberKept(g, order, w, x, s.lowlink[x]);
      }
    }
  }

  lemma PushArcs(g: Graph, s: State, order: seq<nat>, w: nat)
    requires Inv(g, s, order) && NextIs(g[Top(s)], s.vc, w) && w < |g| && !Visited(s, w)
    ensures StackArcs(g, Pushed(s, w))
  {
    hide ReachesNumber, Reaches;
    var t := Pushed(s, w);
    hide FinishedArcs, AllPassed;
    forall i: nat | i < |t.stack| && t.stack[i] < |g| ensures ArcsOk(g, t, t.stack[i], Position(t, i)) {
      if i < |s.stack| {
        assert ArcsOk(g, s, s.stack[i], Position(s, i)) && LowOk(g, s, order, s.stack[i]);
        if i + 1 < |s.stack| { assert t.stack[i + 1] == s.stack[i + 1]; }
      }
    }
  }

  lemma PushFinished(g: Graph, s: State, order: seq<nat>, w: nat)
    requires Inv(g, s, order) && w < |g| && !Visited(s, w)
    ensures FinishedArcs(g, Pushed(s, w)) && (forall i :: 0 <= i < |Pushed(s, w).stack| ==> Pushed(s, w).stack[i] < |g|)
    ensures AllPassed(Pushed(s, w))
  {
    hide ReachesNumber, Reaches;
    var t := Pushed(s, w);
    hide StackArcs, AllLow;
    forall x: nat | Finished(t, x) ensures Finished(s, x) && x != w {
      assert w in t.stack;
      assert forall y :: y in s.stack ==> y in t.stack;
    }
    forall x: nat | Finished(t, x) ensures ArcsOk(g, t, x, |g|) && t.lowlink[x] < t.num[x] {
      assert ArcsOk(g, s, x, |g|);
    }
    forall x: nat, i: nat | Finished(t, x) && i < |t.stack| ensures Passed(t, x, i) {
      assert s.num[x] < s.numvis;
      if i < |s.stack| { assert Passed(s, x, i); }
    }
  }

  lemma LookKeeps(g: Graph, s: State, order: seq<nat>, w: nat)
    requires Inv(g, s, order) && NextIs(g[Top(s)], s.vc, w) && w < |g| && Visited(s, w)
    ensures Inv(g, Looked(s, w), order)
  {
    LookLow(g, s, order, w);
    LookArcs(g, s, order, w);
    LookFinished(g, s, order, w);
  }

  lemma LookNumbers(g: Graph, s: State, order: seq<nat>, w: nat)
    requires Inv(g, s, order) && w in g[Top(s)] && w < |g| && Visited(s, w)
    ensures Numbered(g, Looked(s, w), order) && StackOk(g, Looked(s, w))
  {
    hide StackArcs, FinishedArcs, AllPassed, AllLow, Reaches;
    assert forall x: nat :: Visited(Looked(s, w), x) <==> Visited(s, x);
  }

  lemma LookOne(g: Graph, s: State, order: seq<nat>, w: nat, x: nat)
    requires |g| == |s.num| == |s.lowlink| && s.stack != [] && Top(s) < |g| && w < |g| && x < |g| && Visited(s, w)
    requires LowOk(g, s, order, x) && ReachesNumber(g, order, Top(s), s.num[w])
    ensures LowOk(g, Looked(s, w), order, x)
  {
    hide Reaches, ReachesNumber;
  }

  lemma LookLow(g: Graph, s: State, order: seq<nat>, w: nat)
    requires Inv(g, s, order) && w in g[Top(s)] && w < |g| && Visited(s, w)
    ensures Numbered(g, Looked(s, w), order) && StackOk(g, Looked(s, w)) && AllLow(g, Looked(s, w), order)
  {
    ReachesStep(g, s, order, Top(s), w);
    LookNumbers(g, s, order, w);
    hide StackArcs, FinishedArcs, AllPassed, Reaches, StackOk, ValidGraph;
    NumberOf(g, order, Top(s), s.num[w], w);
    forall x: nat | Visited(Looked(s, w), x) ensures LowOk(g, Looked(s, w), order, x) {
      assert Visited(s, x) && LowOk(g, s, order, x);
      LookOne(g, s, order, w, x);
    }
  }

  lemma LookArcs(g: Graph, s: State, order: seq<nat>, w: nat)
    requires Inv(g, s, order) && NextIs(g[Top(s)], s.vc, w) && w < |g| && Visited(s, w)
    ensures StackArcs(g, Looked(s, w))
  {
    hide ReachesNumber, Reaches;
    var t := Looked(s, w);
    hide FinishedArcs, AllPassed, AllLow;
    forall i: nat | i < |t.stack| && t.stack[i] < |g| ensures ArcsOk(g, t, t.stack[i], Position(t, i)) {
      assert ArcsOk(g, s, s.stack[i], Position(s, i));
      if i + 1 < |s.stack| { assert s.num[s.stack[i]] < s.num[Top(s)]; }
    }
  }

  lemma LookFinished(g: Graph, s: State, order: seq<nat>, w: nat)
    requires Inv(g, s, order) && w < |g|
    ensures FinishedArcs(g, Looked(s, w)) && (forall i :: 0 <= i < |s.stack| ==> s.stack[i] < |g|)
    ensures AllPassed(Looked(s, w))
  {
    hide ReachesNumber, Reaches;
    var t := Looked(s, w);
    hide StackArcs, AllLow;
    assert Top(s) in s.stack;
    forall x: nat | Finished(t, x) ensures Finished(s, x) && x != Top(s) {
    }
    forall x: nat | Finished(t, x) ensures ArcsOk(g, t, x, |g|) && t.lowlink[x] < t.num[x] {
      assert ArcsOk(g, s, x, |g|);
    }
    forall x: nat, i: nat | Finished(t, x) && i < |t.stack| ensures Passed(t, x, i) {
      assert Passed(s, x, i);
    }
  }

  lemma PopKeeps(g: Graph, s: State, order: seq<nat>)
    requires Inv(g, s, order) && |s.stack| > 1 && Exhausted(g[Top(s)], s.vc)
    requires s.lowlink[Top(s)] < s.num[Top(s)]
    ensures Inv(g, Popped(s), order)
  {
    PopNumbers(g, s, order);
    PopLow(g, s, order);
    PopArcs(g, s, order);
    PopFinished(g, s, order);
    PopPassed(g, s, order);
  }

  lemma PopNumbers(g: Graph, s: State, order: seq<nat>)
    requires Inv(g, s, order) && |s.stack| > 1
    ensures Numbered(g, Popped(s), order) && StackOk(g, Popped(s))
  {
    hide AllLow, StackArcs, FinishedArcs, AllPassed;
  }

  lemma PopLow(g: Graph, s: State, order: seq<nat>)
    requires Inv(g, s, order) && |s.stack| > 1
    ensures AllLow(g, Popped(s), order)
  {
    var t, v, u := Popped(s), Top(s), s.stack[|s.stack| - 2];
    hide StackArcs, FinishedArcs, AllPassed, Reaches, ReachesNumber;
    assert v in g[u];
    ReachesStep(g, s, order, u, v);
    assert LowOk(g, s, order, v) && LowOk(g, s, order, u);
    NumberThrough(g, order, u, v, s.lowlink[v]);
    assert forall x: nat :: Visited(t, x) <==> Visited(s, x);
    assert s.num[u] < s.num[v];
    forall x: nat | Visited(t, x) ensures LowOk(g, t, order, x) {
      assert LowOk(g, s, order, x);
    }
  }

  lemma PopArcs(g: Graph, s: State, order: seq<nat>)
    requires Inv(g, s, order) && |s.stack| > 1
    ensures StackArcs(g, Popped(s))
  {
    hide ReachesNumber, Reaches;
    var t := Popped(s);
    hide FinishedArcs, AllPassed, AllLow;
    forall i: nat | i < |t.stack| && t.stack[i] < |g| ensures ArcsOk(g, t, t.stack[i], Position(t, i)) {
      assert ArcsOk(g, s, s.stack[i], Position(s, i));
      if i + 1 < |t.stack| { assert s.num[s.stack[i]] < s.num[s.stack[|s.stack| - 2]]; }
    }
  }

  lemma PopMembers(g: Graph, s: State, order: seq<nat>, x: nat)
    requires Inv(g, s, order) && |s.stack| > 1 && Finished(Popped(s), x)
    ensures x == Top(s) || Finished(s, x)
    ensures x != s.stack[|s.stack| - 2]
  {
    hide ReachesNumber, Reaches;
    var rest := s.stack[..|s.stack| - 1];
    assert s.stack == rest + [Top(s)];
    assert rest[|rest| - 1] in rest;
  }

  lemma PopFinished(g: Graph, s: State, order: seq<nat>)
    requires Inv(g, s, order) && |s.stack| > 1 && Exhausted(g[Top(s)], s.vc)
    requires s.lowlink[Top(s)] < s.num[Top(s)]
    ensures FinishedArcs(g, Popped(s))
  {
    hide ReachesNumber, Reaches;
    var t, v := Popped(s), Top(s);
    hide AllPassed, AllLow;
    forall x: nat | Finished(t, x) ensures ArcsOk(g, t, x, |g|) && t.lowlink[x] < t.num[x] {
      PopMembers(g, s, order, x);
      if x == v {
        assert ArcsOk(g, s, v, Position(s, |s.stack| - 1));
      } else {
        assert ArcsOk(g, s, x, |g|);
      }
    }
  }

  lemma PassedStays(g: Graph, s: State, order: seq<nat>, x: nat, i: nat)
    requires Inv(g, s, order) && |s.stack| > 1 && i + 1 < |s.stack| && x < |g| && (Finished(s, x) || x == Top(s))
    ensures Passed(Popped(s), x, i)
  {
    hide ReachesNumber, Reaches, StackArcs, AllLow, FinishedArcs;
    var v := Top(s);
    if x != v {
      assert Passed(s, x, i) && Passed(s, x, |s.stack| - 1);
      assert s.num[x] != s.num[v];
    } else if i + 2 < |s.stack| {
      assert s.num[s.stack[i + 1]] < s.num[v];
    }
  }

  lemma PopPassed(g: Graph, s: State, order: seq<nat>)
    requires Inv(g, s, order) && |s.stack| > 1
    ensures forall i :: 0 <= i < |Popped(s).stack| ==> Popped(s).stack[i] < |g|
    ensures AllPassed(Popped(s))
  {
    hide ReachesNumber, Reaches;
    var t := Popped(s);
    hide StackArcs, AllLow, FinishedArcs;
    forall x: nat, i: nat | Finished(t, x) && i < |t.stack| ensures Passed(t, x, i) {
      PopMembers(g, s, order, x);
      PassedStays(g, s, order, x, i);
    }
  }

  // ----- what the outcomes mean -----

  // A vertex that is left without the early answer still reaches a vertex with a lower number.
  lemma LeftReachesLower(g: Graph, s: State, order: seq<nat>)
    requires Inv(g, s, order) && s.lowlink[Top(s)] != s.num[Top(s)]
    ensures exists w: nat :: Visited(s, w) && s.num[w] < s.num[Top(s)] && Reaches(g, Top(s), w)
    ensures s.lowlink[Top(s)] < s.num[Top(s)]
  {
    hide Reaches;
    var v := Top(s);
    assert LowOk(g, s, order, v);
    var w := order[s.lowlink[v]];
    assert Visited(s, w) && s.num[w] == s.lowlink[v];
  }

  // A vertex with lowlink equal to its own number, but not the root: nothing leaves what was numbered since.
  lemma EarlyFalse(g: Graph, s: State, order: seq<nat>)
    requires Inv(g, s, order) && |s.stack| > 1 && Exhausted(g[Top(s)], s.vc)
    requires s.lowlink[Top(s)] == s.num[Top(s)]
    ensures exists c: set<nat> :: OutClosed(g, c) && Top(s) in c && 0 !in c
    ensures !Strong(g)
  {
    hide ReachesNumber, Reaches;
    var v := Top(s);
    var top := |s.stack| - 1;
    var since := set x: nat | x < |g| && Visited(s, x) && s.num[v] <= s.num[x];
    forall x: nat, w: nat | x in since && x < |g| && w in g[x] ensures w in since {
      if x == v {
        assert ArcsOk(g, s, v, Position(s, top));
      } else {
        assert s.num[x] > s.num[v];
        assert x !in s.stack;
        assert Finished(s, x) && ArcsOk(g, s, x, |g|) && Passed(s, x, top);
        ReachesStep(g, s, order, x, w);
      }
    }
    assert OutClosed(g, since) && v in since && 0 !in since;
    NeverLeaves(g, v, 0, since);
  }

  lemma {:induction false} ReachesRoot(g: Graph, s: State, order: seq<nat>, x: nat)
    requires Inv(g, s, order) && |s.stack| == 1 && Visited(s, x)
    ensures Reaches(g, x, 0)
    decreases s.num[x]
  {
    if x == 0 {
      ReachesSelf(g, 0);
    } else {
      assert Finished(s, x);
      assert LowOk(g, s, order, x);
      var y := order[s.lowlink[x]];
      assert s.num[y] == s.lowlink[x];
      ReachesRoot(g, s, order, y);
      ReachesTransitive(g, x, y, 0);
    }
  }

  lemma AtTheEnd(g: Graph, s: State, order: seq<nat>)
    requires Inv(g, s, order) && |s.stack| == 1 && Exhausted(g[0], s.vc)
    ensures s.numvis == |g| <==> Strong(g)
  {
    var seen := set x: nat | x < |g| && Visited(s, x);
    forall x: nat, w: nat | x in seen && x < |g| && w in g[x] ensures w in seen {
      if x == 0 {
        assert ArcsOk(g, s, s.stack[0], Position(s, 0));
      } else {
        assert Finished(s, x);
        ReachesStep(g, s, order, x, w);
        assert ArcsOk(g, s, x, |g|);
      }
    }
    SeenCount(g, s, order, seen);
    if s.numvis == |g| {
      forall u: nat, v: nat | u < |g| && v < |g| ensures Reaches(g, u, v) {
        assert u in Range(|g|) && v in Range(|g|);
        assert LowOk(g, s, order, v);
        ReachesRoot(g, s, order, u);
        ReachesTransitive(g, u, 0, v);
      }
    } else {
      var u: nat := Pick(Range(|g|) - seen);
      assert 0 in seen;
      NeverLeaves(g, 0, u, seen);
    }
  }

  lemma SeenCount(g: Graph, s: State, order: seq<nat>, seen: set<nat>)
    requires Numbered(g, s, order) && seen == set x: nat | x < |g| && Visited(s, x)
    ensures seen <= Range(|g|)
    ensures s.numvis == |g| ==> seen == Range(|g|)
    ensures s.numvis != |g| ==> Range(|g|) - seen != {}
  {
    assert Distinct(order);
    assert Elems(order) == seen;
    DistinctCard(order);
    SubsetCard(seen, Range(|g|));
    RangeCard(|g|);
  }

  // ----- the method -----

  lemma Started(g: Graph, s: State)
    requires ValidGraph(g) && |g| > 0
    requires s == State(seq(|g|, _ => -1)[0 := 0], seq(|g|, _ => 0), [0], -1, 1)
    ensures Inv(g, s, [0])
  {
    ReachesSelf(g, 0);
    assert forall x: nat :: Visited(s, x) <==> x == 0;
  }

  method StronglyConnected(g: Graph) returns (yes: bool)
    requires ValidGraph(g)
    ensures yes <==> Strong(g)
  {
    hide Inv, Numbered, StackOk, AllLow, LowOk, StackArcs, FinishedArcs, AllPassed, ArcsOk, Reaches, ReachesNumber;
    hide Strong, ValidGraph, Exhausted, NextIs, OutClosed;
    var n := |g|;
    if n == 0 {
      NothingStrong(g);
      return false;
    }
    var num: seq<int> := seq(n, _ => -1);
    num := num[0 := 0];
    var lowlink: seq<int> := seq(n, _ => 0);
    var numvis, stack: seq<nat> := 1, [0];
    var v, vc := 0, -1;
    ghost var order: seq<nat> := [0];
    ghost var s := State(num, lowlink, stack, vc, numvis);
    Started(g, s);
    while true
      invariant s == State(num, lowlink, stack, vc, numvis) && Inv(g, s, order)
      invariant stack != [] && v == stack[|stack| - 1]
      decreases n - numvis, |stack|, n - vc
    {
      InvFacts(g, s, order);
      var w := NextElement(g[v], vc, n);
      if w < 0 {
        if |stack| == 1 { break; }
        if lowlink[v] == num[v] {
          EarlyFalse(g, s, order);
          return false;
        }
        LeftReachesLower(g, s, order);
        PopKeeps(g, s, order);
        vc := v;
        stack := stack[..|stack| - 1];
        v := stack[|stack| - 1];
        if lowlink[vc] < lowlink[v] { lowlink := lowlink[v := lowlink[vc]]; }
        s := Popped(s);
      } else if num[w] < 0 {
        PushKeeps(g, s, order, w);
        stack := stack + [w];
        v := w;
        vc := -1;
        num := num[v := numvis];
        lowlink := lowlink[v := numvis];
        numvis := numvis + 1;
        s, order := Pushed(s, w), order + [w];
        InvFacts(g, s, order);
      } else {
        LookKeeps(g, s, order, w);
        LookMoves(g[v], vc, w);
        if w != v && num[w] < lowlink[v] { lowlink := lowlink[v := num[w]]; }
        vc := w;
        s := Looked(s, w);
      }
    }
    InvFacts(g, s, order);
    AtTheEnd(g, s, order);
    return numvis == n;
  }

  lemma NothingStrong(g: Graph)
    requires |g| == 0
    ensures !Strong(g)
  {
  }

  lemma LookMoves(row: set<nat>, pos: int, w: nat)
    requires NextIs(row, pos, w)
    ensures pos < w
  {
  }

  // What the code needs to know of the state.
  lemma InvFacts(g: Graph, s: State, order: seq<nat>)
    requires Inv(g, s, order)
    ensures |s.num| == |s.lowlink| == |g| && s.numvis <= |g| && 0 < |s.stack| && s.stack[0] == 0 && -1 <= s.vc < |g|
    ensures forall i :: 0 <= i < |s.stack| ==> s.stack[i] < |g|
    ensures forall x :: x in g[Top(s)] ==> x < |g|
    ensures s.lowlink[Top(s)] <= s.num[Top(s)]
  {
    BoundedOrder(g, s, order);
    assert forall i :: 0 <= i < |s.stack| ==> Visited(s, s.stack[i]);
    assert LowOk(g, s, order, Top(s));
  }

  lemma BoundedOrder(g: Graph, s: State, order: seq<nat>)
    requires Numbered(g, s, order)
    ensures s.numvis <= |g|
  {
    assert Distinct(order);
    DistinctCard(order);
    SubsetCard(Elems(order), Range(|g|));
    RangeCard(|g|);
  }
}
