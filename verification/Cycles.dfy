// Following the cycles of one permutation and labelling each by its least member.
module Cycles {
  import opened Sums
  import opened Orbits
  import opened GroupOrbits

  // Assigned entries: whole cycles, each labelled by its least member.
  ghost predicate CyclesDone(m: seq<nat>, o: seq<nat>, done: set<nat>, i: nat) {
    && |o| == |m|
    && (forall x: nat :: x < |m| && x !in done ==> o[x] == x && i <= x)
    && (forall x :: x in done ==> CycleAt(m, o, done, i, x))
  }

  ghost predicate CycleAt(m: seq<nat>, o: seq<nat>, done: set<nat>, i: nat, x: nat)
    requires |o| == |m|
  {
    && x < |m| && m[x] < |m| && m[x] in done
    && o[x] < i && o[x] <= x && o[o[x]] == o[x] && o[m[x]] == o[x]
  }

  lemma DoneClosed(m: seq<nat>, o: seq<nat>, done: set<nat>, i: nat)
    requires CyclesDone(m, o, done, i)
    ensures ClosedUnder(m, done)
  {
    assert forall x :: x in done ==> CycleAt(m, o, done, i, x);
  }

  ghost predicate Respects(e: Relation, m: seq<nat>) {
    Equivalence(e, |m|) && forall x: nat :: x < |m| ==> e(x, m[x])
  }

  // Labels are related to their members by every relation that respects the permutation.
  ghost predicate LabelsRelated(m: seq<nat>, o: seq<nat>, done: set<nat>)
    requires |o| == |m|
  {
    forall e: Relation :: Respects(e, m) ==> forall x :: x in done && x < |m| ==> e(x, o[x])
  }

  // The walk m[i], m[m[i]], ... so far.
  ghost predicate Walk(m: seq<nat>, c: seq<nat>, i: nat) {
    && i < |m| && 0 < |c| && c[0] == m[i]
    && (forall j :: 0 <= j < |c| ==> c[j] < |m|)
    && (forall j, l :: 0 <= j < l < |c| && l == j + 1 ==> c[l] == m[c[j]])
    && Distinct(c)
    && (forall j :: 0 <= j < |c| && j + 1 < |c| ==> c[j] != i)
  }

  lemma WalkOn(m: seq<nat>, c: seq<nat>, i: nat)
    requires Permutation(|m|, m) && Walk(m, c, i) && c[|c| - 1] != i
    ensures Walk(m, c + [m[c[|c| - 1]]], i)
    ensures |c| < |m|
  {
    var last, x := c[|c| - 1], m[c[|c| - 1]];
    forall j | 0 <= j < |c| ensures c[j] != x {
      if j == 0 {
        assert m[i] != m[last];
      } else {
        assert c[j] == m[c[j - 1]];
        assert c[j - 1] != last;
      }
    }
    DistinctMissing(c, |m|, x);
  }

  lemma FirstStep(m: seq<nat>, i: nat, x: nat, o0: seq<nat>, o: seq<nat>)
    requires i < |m| && x == m[i] < |m| == |o0| && o == o0[x := i]
    ensures Walk(m, [x], i) && Labelled(o0, o, [x], i)
  {
  }

  lemma WalkLast(m: seq<nat>, c: seq<nat>, i: nat)
    requires Walk(m, c, i)
    ensures 0 < |c| && c[|c| - 1] < |m|
  {
  }

  // Everything on a walk that came back to i is related to i.
  lemma {:induction false} WalkRelated(m: seq<nat>, c: seq<nat>, i: nat, e: Relation, j: nat)
    requires Permutation(|m|, m) && Walk(m, c, i) && j < |c|
    requires Respects(e, m)
    ensures e(c[j], i)
  {
    if j == 0 {
      assert e(i, m[i]);
    } else {
      WalkRelated(m, c, i, e, j - 1);
      assert c[j] == m[c[j - 1]];
      assert e(c[j - 1], m[c[j - 1]]);
      assert e(c[j], c[j - 1]);
    }
  }

  // The whole cycle of i was labelled i.
  ghost predicate Labelled(o0: seq<nat>, o: seq<nat>, c: seq<nat>, i: nat) {
    |o| == |o0| && forall x: nat :: x < |o| ==> o[x] == if x in c then i else o0[x]
  }

  lemma LabelledOn(o0: seq<nat>, o1: seq<nat>, o2: seq<nat>, c: seq<nat>, i: nat, x: nat)
    requires Labelled(o0, o1, c, i) && x < |o1| && o2 == o1[x := i]
    ensures Labelled(o0, o2, c + [x], i)
  {
    forall y: nat | y < |o2| ensures o2[y] == if y in c + [x] then i else o0[y] {
      assert y in c + [x] <==> y in c || y == x;
    }
  }

  lemma CycleClosed(m: seq<nat>, c: seq<nat>, i: nat)
    requires Permutation(|m|, m) && Walk(m, c, i) && c[|c| - 1] == i
    ensures ClosedUnder(m, Elems(c))
  {
    forall y | y in Elems(c) && y < |m| ensures m[y] in Elems(c) {
      var j :| 0 <= j < |c| && c[j] == y;
      if j < |c| - 1 {
        assert c[j + 1] == m[c[j]];
      } else {
        assert c[0] == m[i];
      }
    }
  }

  lemma {:induction false} WalkAvoids(m: seq<nat>, c: seq<nat>, i: nat, done: set<nat>, j: nat)
    requires Permutation(|m|, m) && Walk(m, c, i) && ClosedUnder(m, done) && i !in done && j < |c|
    ensures c[j] !in done
  {
    if j == 0 {
      ClosedOutside(|m|, m, done, i);
    } else {
      WalkAvoids(m, c, i, done, j - 1);
      ClosedOutside(|m|, m, done, c[j - 1]);
      assert c[j] == m[c[j - 1]];
    }
  }

  lemma CycleApart(m: seq<nat>, o: seq<nat>, done: set<nat>, c: seq<nat>, i: nat)
    requires Permutation(|m|, m) && CyclesDone(m, o, done, i) && i !in done && Walk(m, c, i)
    ensures forall x :: x in c ==> x !in done && x < |m| && i <= x
  {
    DoneClosed(m, o, done, i);
    forall x | x in c ensures x !in done && x < |m| && i <= x {
      var j :| 0 <= j < |c| && c[j] == x;
      WalkAvoids(m, c, i, done, j);
    }
  }

  // Every entry is its own label.
  ghost predicate Fresh(o: seq<nat>) {
    forall i :: 0 <= i < |o| ==> o[i] == i
  }

  lemma IdentityFresh(o: seq<nat>)
    requires forall i :: 0 <= i < |o| ==> o[i] == i
    ensures Fresh(o)
  {
  }

  lemma CyclesStart(m: seq<nat>, o: seq<nat>)
    requires |o| == |m| && Fresh(o)
    ensures CyclesDone(m, o, {}, 0) && LabelsRelated(m, o, {}) && RootsBelow(o, {}, 0)
  {
  }

  lemma CyclesSkip(m: seq<nat>, o: seq<nat>, done: set<nat>, i: nat)
    requires CyclesDone(m, o, done, i) && i < |o|
    ensures o[i] == i <==> i !in done
    ensures o[i] != i ==> CyclesDone(m, o, done, i + 1)
  {
  }

  ghost predicate RootsBelow(o: seq<nat>, roots: set<nat>, i: nat) {
    i <= |o| && forall r: nat :: r in roots <==> r < i && o[r] == r
  }

  lemma RootAdded(o0: seq<nat>, o: seq<nat>, c: seq<nat>, i: nat, roots: set<nat>)
    requires Labelled(o0, o, c, i) && i in c && i < |o| && forall x :: x in c ==> i <= x
    requires RootsBelow(o0, roots, i)
    ensures i !in roots && RootsBelow(o, roots + {i}, i + 1)
  {
  }

  lemma RootsSkip(o: seq<nat>, roots: set<nat>, i: nat)
    requires RootsBelow(o, roots, i) && i < |o| && o[i] != i
    ensures RootsBelow(o, roots, i + 1)
  {
  }

  lemma AllRoots(o: seq<nat>, roots: set<nat>)
    requires RootsBelow(o, roots, |o|)
    ensures roots == Cells(o)
  {
  }

  lemma CycleLabels(m: seq<nat>, o0: seq<nat>, o: seq<nat>, c: seq<nat>, i: nat, done: set<nat>, x: nat)
    requires CyclesDone(m, o0, done, i) && i !in done && i in c && i < |m|
    requires Permutation(|m|, m) && Labelled(o0, o, c, i) && ClosedUnder(m, Elems(c))
    requires forall z :: z in c ==> z !in done && z < |m| && i <= z
    requires x in done + Elems(c)
    ensures CycleAt(m, o, done + Elems(c), i + 1, x)
  {
    if x in done {
      assert CycleAt(m, o0, done, i, x);
      assert o[x] == o0[x] && o[m[x]] == o0[m[x]];
      assert o0[x] !in c;
    } else {
      assert x in Elems(c);
      assert m[x] in Elems(c);
    }
  }

  lemma CycleAdded(m: seq<nat>, o0: seq<nat>, o: seq<nat>, done: set<nat>, c: seq<nat>, i: nat)
    requires Permutation(|m|, m) && CyclesDone(m, o0, done, i) && i !in done
    requires Walk(m, c, i) && c[|c| - 1] == i && Labelled(o0, o, c, i)
    ensures CyclesDone(m, o, done + Elems(c), i + 1)
  {
    CycleClosed(m, c, i);
    CycleApart(m, o0, done, c, i);
    assert i in c;
    hide *;
    CyclesMerge(m, o0, o, done, c, i);
  }

  lemma CyclesMerge(m: seq<nat>, o0: seq<nat>, o: seq<nat>, done: set<nat>, c: seq<nat>, i: nat)
    requires Permutation(|m|, m) && CyclesDone(m, o0, done, i) && i !in done && i in c
    requires Labelled(o0, o, c, i) && ClosedUnder(m, Elems(c)) && i < |m|
    requires forall z :: z in c ==> z !in done && z < |m| && i <= z
    ensures CyclesDone(m, o, done + Elems(c), i + 1)
  {
    CyclesUntouched(m, o0, o, done, c, i);
    forall x | x in done + Elems(c) ensures CycleAt(m, o, done + Elems(c), i + 1, x) {
      CycleLabels(m, o0, o, c, i, done, x);
    }
  }

  lemma CyclesUntouched(m: seq<nat>, o0: seq<nat>, o: seq<nat>, done: set<nat>, c: seq<nat>, i: nat)
    requires CyclesDone(m, o0, done, i) && i in c && Labelled(o0, o, c, i)
    ensures |o| == |m| && forall x: nat :: x < |m| && x !in done + Elems(c) ==> o[x] == x && i + 1 <= x
  {
    forall x: nat | x < |m| && x !in done + Elems(c) ensures o[x] == x && i + 1 <= x {
      assert x !in c && x != i && o0[x] == x;
    }
  }

  lemma CycleRelated(m: seq<nat>, o0: seq<nat>, o: seq<nat>, done: set<nat>, c: seq<nat>, i: nat)
    requires Permutation(|m|, m) && |o0| == |m| && LabelsRelated(m, o0, done)
    requires forall x :: x in c ==> x !in done
    requires Walk(m, c, i) && Labelled(o0, o, c, i)
    ensures LabelsRelated(m, o, done + Elems(c))
  {
    forall e: Relation, x: nat | Respects(e, m) && x in done + Elems(c) && x < |m| ensures e(x, o[x]) {
      if x in c {
        var j :| 0 <= j < |c| && c[j] == x;
        WalkRelated(m, c, i, e, j);
      }
    }
  }

  lemma CyclesJoin(m: seq<nat>, id: seq<nat>, o: seq<nat>, done: set<nat>)
    requires Permutation(|m|, m) && CyclesDone(m, o, done, |m|) && LabelsRelated(m, o, done)
    requires |id| == |m| && Fresh(id)
    ensures Joins(id, m, o)
  {
    assert forall x: nat :: x < |m| ==> x in done;
    hide Permutation;
    forall e: Relation | Admits(e, id, m) ensures forall x: nat :: x < |m| ==> e(x, o[x]) {
      assert Respects(e, m);
    }
  }

  lemma SingleJoin(m: seq<nat>, id: seq<nat>, o: seq<nat>, parts: seq<seq<nat>>, maps: seq<seq<nat>>)
    requires |id| == |m| && Fresh(id) && Joins(id, m, o)
    requires parts == [id, o] && maps == [m]
    ensures JoinedInTurn(parts, maps, |m|)
  {
  }

  lemma OneMoreJoin(parts: seq<seq<nat>>, maps: seq<seq<nat>>, n: nat, m: seq<nat>, o: seq<nat>)
    requires JoinedInTurn(parts, maps, n) && Joins(parts[|maps|], m, o)
    ensures JoinedInTurn(parts + [o], maps + [m], n)
  {
    var parts1, maps1 := parts + [o], maps + [m];
    forall t | 0 <= t < |maps1| ensures Joins(parts1[t], maps1[t], parts1[t + 1]) {
      if t < |maps| { assert Joins(parts[t], maps[t], parts[t + 1]); }
    }
  }
}
