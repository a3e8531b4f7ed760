// Pruning a target cell by stored automorphisms: what is removed is never the least of its orbit.
module Pruning {
  import opened Sums
  import opened Orbits
  import opened GroupOrbits
  import opened GroupElements
  import opened Cycles

  ghost function Fixed(perm: seq<nat>): set<nat> {
    set i: nat | i < |perm| && perm[i] == i
  }

  ghost predicate LeastInOrbit(perms: seq<seq<nat>>, n: nat, i: nat)
    requires Permutations(perms, n)
  {
    i < n && forall j: nat :: SameOrbit(perms, n, i, j) ==> i <= j
  }

  // ----- fmperm -----

  lemma LabelsAreLeast(n: nat, perm: seq<nat>, o: seq<nat>, done: set<nat>, i: nat)
    requires Permutation(n, perm) && Permutations([perm], n) && CyclesDone(perm, o, done, n)
    requires LabelsRelated(perm, o, done) && i < n
    ensures o[i] == i <==> LeastInOrbit([perm], n, i)
  {
    var id := Id(n);
    assert Fresh(id);
    CyclesJoin(perm, id, o, done);
    SingleJoin(perm, id, o, [id, o], [perm]);
    forall j: nat | j < n ensures o[i] == o[j] <==> SameOrbit([perm], n, i, j) {
      JoinedCellsAreOrbits([id, o], [perm], n, i, j);
    }
    assert Joins(id, perm, o);
    assert o[o[i]] == o[i] && o[i] <= i;
    if o[i] == i {
      forall j: nat | SameOrbit([perm], n, i, j) ensures i <= j {
        assert o[j] <= j;
      }
    } else {
      assert SameOrbit([perm], n, i, o[i]);
    }
  }

  // The marks stand on the cycles done, fixed points aside.
  ghost predicate MarksOn(perm: seq<nat>, marks: seq<nat>, done: set<nat>) {
    |marks| == |perm| && forall x: nat :: x < |perm| && perm[x] != x ==> (marks[x] == 0 <==> x !in done)
  }

  ghost function Relabel(o: seq<nat>, c: seq<nat>, i: nat): (o2: seq<nat>)
    ensures |o2| == |o| && Labelled(o, o2, c, i)
  {
    seq(|o|, x requires 0 <= x < |o| => if x in c then i else o[x])
  }

  lemma FixedWalk(perm: seq<nat>, i: nat)
    requires i < |perm| && perm[i] == i
    ensures Walk(perm, [i], i)
  {
  }

  // A further cycle is labelled.
  lemma NextCycle(perm: seq<nat>, o: seq<nat>, done: set<nat>, c: seq<nat>, i: nat, mcr: set<nat>)
    requires Permutation(|perm|, perm) && CyclesDone(perm, o, done, i) && LabelsRelated(perm, o, done)
    requires RootsBelow(o, mcr, i) && i !in done && Walk(perm, c, i) && c != [] && c[|c| - 1] == i && i in c
    ensures CyclesDone(perm, Relabel(o, c, i), done + Elems(c), i + 1)
    ensures LabelsRelated(perm, Relabel(o, c, i), done + Elems(c))
    ensures RootsBelow(Relabel(o, c, i), mcr + {i}, i + 1)
  {
    hide *;
    CycleBound(perm, o, done, i, c);
    CycleApart(perm, o, done, c, i);
    CycleAdded(perm, o, Relabel(o, c, i), done, c, i);
    CycleRelated(perm, o, Relabel(o, c, i), done, c, i);
    RootAdded(o, Relabel(o, c, i), c, i, mcr);
  }

  lemma CycleBound(perm: seq<nat>, o: seq<nat>, done: set<nat>, i: nat, c: seq<nat>)
    requires CyclesDone(perm, o, done, i) && Walk(perm, c, i)
    ensures i < |o| == |perm|
  {
  }

  // Mark the cycle of i.
  method MarkCycle(perm: seq<nat>, workperm: array<nat>, i: nat) returns (ghost c: seq<nat>)
    requires Permutation(|perm|, perm) && workperm.Length == |perm| && i < |perm|
    modifies workperm
    ensures Walk(perm, c, i) && c != [] && c[|c| - 1] == i && i in c
    ensures forall x :: 0 <= x < workperm.Length ==> workperm[x] == if x in c then 1 else old(workperm[x])
  {
    var l := perm[i];
    workperm[i] := 1;
    c := [l];
    while l != i
      invariant l < |perm| && Walk(perm, c, i) && c[|c| - 1] == l
      invariant forall x :: 0 <= x < workperm.Length ==>
        workperm[x] == if x == i || x in c[..|c| - 1] then 1 else old(workperm[x])
      decreases |perm| - |c|
    {
      WalkOn(perm, c, i);
      var k := l;
      l := perm[l];
      workperm[k] := 1;
      c := c + [l];
      assert c[..|c| - 1] == c[..|c| - 2] + [k];
    }
    assert c == c[..|c| - 1] + [i];
  }

  // The points that perm fixes, and those that are least in their orbits.
  method FmPerm(perm: seq<nat>) returns (fix: set<nat>, mcr: set<nat>)
    requires Permutation(|perm|, perm)
    ensures fix == Fixed(perm)
    ensures Permutations([perm], |perm|) && forall i: nat :: i in mcr <==> LeastInOrbit([perm], |perm|, i)
  {
    var n := |perm|;
    fix, mcr := {}, {};
    var workperm := new nat[n](_ => 0);
    ghost var o: seq<nat>, done: set<nat> := Id(n), {};
    assert Fresh(o);
    CyclesStart(perm, o);
    assert FmState(perm, workperm[..], 0, fix, mcr, o, done);
    hide *;
    for i := 0 to n
      invariant FmState(perm, workperm[..], i, fix, mcr, o, done)
    {
      fix, mcr, o, done := FmStep(perm, workperm, i, fix, mcr, o, done);
    }
    RootsAreLeast(perm, workperm[..], fix, o, done, mcr);
  }

  // What fmperm has found out before point i.
  ghost predicate FmState(perm: seq<nat>, marks: seq<nat>, i: nat, fix: set<nat>, mcr: set<nat>, o: seq<nat>,
                          done: set<nat>) {
    && fix == (set x: nat | x < i && x < |perm| && perm[x] == x)
    && CyclesDone(perm, o, done, i) && LabelsRelated(perm, o, done) && RootsBelow(o, mcr, i)
    && MarksOn(perm, marks, done)
  }

  lemma RootsAreLeast(perm: seq<nat>, marks: seq<nat>, fix: set<nat>, o: seq<nat>, done: set<nat>, mcr: set<nat>)
    requires Permutation(|perm|, perm) && FmState(perm, marks, |perm|, fix, mcr, o, done)
    ensures fix == Fixed(perm)
    ensures Permutations([perm], |perm|) && forall i: nat :: i in mcr <==> LeastInOrbit([perm], |perm|, i)
  {
    forall i: nat | i < |perm| ensures i in mcr <==> LeastInOrbit([perm], |perm|, i) {
      LabelsAreLeast(|perm|, perm, o, done, i);
    }
  }

  method FmStep(perm: seq<nat>, workperm: array<nat>, i: nat, fix0: set<nat>, mcr0: set<nat>, ghost o0: seq<nat>,
                ghost done0: set<nat>)
    returns (fix: set<nat>, mcr: set<nat>, ghost o: seq<nat>, ghost done: set<nat>)
    requires Permutation(|perm|, perm) && i < |perm| && workperm.Length == |perm|
    requires FmState(perm, workperm[..], i, fix0, mcr0, o0, done0)
    modifies workperm
    ensures FmState(perm, workperm[..], i + 1, fix, mcr, o, done)
  {
    fix, mcr, o, done := fix0, mcr0, o0, done0;
    hide Permutation, CyclesDone, LabelsRelated, RootsBelow, MarksOn, Relabel, Walk;
    CyclesBound(perm, o, done, i);
    CyclesSkip(perm, o, done, i);
    ghost var marks := workperm[..];
    if perm[i] == i {
      fix := fix + {i};
      mcr := mcr + {i};
      FixedNotDone(perm, o, done, i);
      FixedWalk(perm, i);
      NextCycle(perm, o, done, [i], i, mcr0);
      MarksFixed(perm, marks, done, i);
      o, done := Relabel(o, [i], i), done + Elems([i]);
    } else {
      MarkIs(perm, marks, done, i);
      if workperm[i] == 0 {
        ghost var c := MarkCycle(perm, workperm, i);
        NextCycle(perm, o, done, c, i, mcr0);
        mcr := mcr + {i};
        MarksNext(perm, marks, workperm[..], done, c);
        o, done := Relabel(o, c, i), done + Elems(c);
      } else {
        RootsSkip(o, mcr, i);
      }
    }
  }

  lemma CyclesBound(perm: seq<nat>, o: seq<nat>, done: set<nat>, i: nat)
    requires CyclesDone(perm, o, done, i)
    ensures |o| == |perm|
  {
  }

  lemma MarkIs(perm: seq<nat>, marks: seq<nat>, done: set<nat>, i: nat)
    requires MarksOn(perm, marks, done) && i < |perm| && perm[i] != i
    ensures |marks| == |perm| && (marks[i] == 0 <==> i !in done)
  {
  }

  lemma MarksFixed(perm: seq<nat>, marks: seq<nat>, done: set<nat>, i: nat)
    requires MarksOn(perm, marks, done) && i < |perm| && perm[i] == i
    ensures MarksOn(perm, marks, done + Elems([i]))
  {
  }

  ghost predicate Isolates(e: Relation, i: nat) {
    forall x: nat, y: nat :: e(x, y) <==> (x == i <==> y == i)
  }

  lemma IsolatingRespects(perm: seq<nat>, i: nat, e: Relation)
    requires Permutation(|perm|, perm) && i < |perm| && perm[i] == i && Isolates(e, i)
    ensures Respects(e, perm)
  {
    forall x: nat | x < |perm| ensures e(x, perm[x]) {
    }
  }

  lemma LabelRelated(perm: seq<nat>, o: seq<nat>, done: set<nat>, e: Relation, x: nat)
    requires |o| == |perm| && LabelsRelated(perm, o, done) && Respects(e, perm) && x in done && x < |perm|
    ensures e(x, o[x])
  {
  }

  // A fixed point is its whole cycle, so no smaller point has labelled it.
  lemma FixedNotDone(perm: seq<nat>, o: seq<nat>, done: set<nat>, i: nat)
    requires Permutation(|perm|, perm) && CyclesDone(perm, o, done, i) && LabelsRelated(perm, o, done)
    requires i < |perm| && perm[i] == i
    ensures i !in done
  {
    var e: Relation := (x: nat, y: nat) => x == i <==> y == i;
    IsolatingRespects(perm, i, e);
    hide Permutation, LabelsRelated, Respects;
    if i in done { LabelRelated(perm, o, done, e, i); }
  }

  lemma MarksNext(perm: seq<nat>, marks: seq<nat>, marks2: seq<nat>, done: set<nat>, c: seq<nat>)
    requires MarksOn(perm, marks, done) && |marks2| == |marks|
    requires forall x :: 0 <= x < |marks| ==> marks2[x] == if x in c then 1 else marks[x]
    ensures MarksOn(perm, marks2, done + Elems(c))
  {
  }

  // ----- longprune -----

  // Keep, for every stored pair whose fixed points include fix, only the least points.
  method LongPrune(tcell0: set<nat>, fix: set<nat>, pairs: seq<(set<nat>, set<nat>)>) returns (tcell: set<nat>)
    ensures forall v :: v in tcell <==> v in tcell0 && Spared(v, fix, pairs, |pairs|)
  {
    tcell := tcell0;
    for k := 0 to |pairs|
      invariant forall v :: v in tcell <==> v in tcell0 && Spared(v, fix, pairs, k)
    {
      if fix <= pairs[k].0 {
        tcell := tcell * pairs[k].1;
      }
    }
  }

  ghost predicate Spared(v: nat, fix: set<nat>, pairs: seq<(set<nat>, set<nat>)>, k: nat)
    requires k <= |pairs|
  {
    forall i :: 0 <= i < k && fix <= pairs[i].0 ==> v in pairs[i].1
  }

  // ----- soundness -----

  // The stored automorphisms that fix every point of fix.
  ghost function Fixing(perms: seq<seq<nat>>, n: nat, fix: set<nat>): (r: seq<seq<nat>>)
    requires Permutations(perms, n)
    ensures Permutations(r, n) && forall p :: p in r <==> p in perms && fix <= Fixed(p)
  {
    if perms == [] then []
    else
      assert perms == perms[..|perms| - 1] + [perms[|perms| - 1]];
      Fixing(perms[..|perms| - 1], n, fix) + if fix <= Fixed(perms[|perms| - 1]) then [perms[|perms| - 1]] else []
  }

  // The pairs are those that fmperm makes for the permutations.
  ghost predicate PairsOf(perms: seq<seq<nat>>, n: nat, pairs: seq<(set<nat>, set<nat>)>) {
    && Permutations(perms, n) && |pairs| == |perms|
    && forall k :: 0 <= k < |perms| ==> PairOf(perms[k], n, pairs[k])
  }

  ghost predicate PairOf(perm: seq<nat>, n: nat, pair: (set<nat>, set<nat>)) {
    && Permutations([perm], n) && pair.0 == Fixed(perm)
    && forall i: nat :: i in pair.1 <==> LeastInOrbit([perm], n, i)
  }

  lemma LargerOrbit(gens: seq<seq<nat>>, more: seq<seq<nat>>, n: nat, x: nat, y: nat)
    requires Permutations(gens, n) && Permutations(more, n) && (forall g :: g in gens ==> g in more)
    requires SameOrbit(gens, n, x, y)
    ensures SameOrbit(more, n, x, y)
  {
    var w: Word :| WordOk(w, |gens|) && Act(gens, n, w, x) == y;
    var v := SpellMore(gens, more, n, w);
  }

  // The least point of an orbit of the group is never removed.
  lemma LeastIsSpared(perms: seq<seq<nat>>, n: nat, fix: set<nat>, pairs: seq<(set<nat>, set<nat>)>, v: nat)
    requires PairsOf(perms, n, pairs) && LeastInOrbit(Fixing(perms, n, fix), n, v)
    ensures Spared(v, fix, pairs, |pairs|)
  {
    var used := Fixing(perms, n, fix);
    forall i | 0 <= i < |pairs| && fix <= pairs[i].0 ensures v in pairs[i].1 {
      assert PairOf(perms[i], n, pairs[i]);
      assert perms[i] in used;
      forall j: nat | SameOrbit([perms[i]], n, v, j) ensures v <= j {
        LargerOrbit([perms[i]], used, n, v, j);
      }
      assert LeastInOrbit([perms[i]], n, v);
    }
  }

  lemma {:induction false} LeastMember(s: set<nat>) returns (x: nat)
    requires s != {}
    ensures x in s && forall y :: y in s ==> x <= y
    decreases |s|
  {
    var z := Pick(s);
    if s == {z} {
      x := z;
    } else {
      var rest := s - {z};
      assert rest != {};
      var y := LeastMember(rest);
      x := if z < y then z else y;
      assert forall u :: u in s ==> u == z || u in rest;
    }
  }

  // Main theorem: if the target cell is a union of orbits of the group generated by the stored
  // automorphisms that fix every point of fix, the pruned cell still meets each of these orbits,
  // and it contains the least point of each.
  lemma PruningIsSound(perms: seq<seq<nat>>, n: nat, fix: set<nat>, pairs: seq<(set<nat>, set<nat>)>,
                       tcell0: set<nat>, tcell: set<nat>, v: nat) returns (w: nat)
    requires PairsOf(perms, n, pairs)
    requires forall x: nat :: x in tcell <==> x in tcell0 && Spared(x, fix, pairs, |pairs|)
    requires forall x: nat, y: nat :: x in tcell0 && SameOrbit(Fixing(perms, n, fix), n, x, y) ==> y in tcell0
    requires v in tcell0 && v < n
    ensures w in tcell && SameOrbit(Fixing(perms, n, fix), n, v, w) && LeastInOrbit(Fixing(perms, n, fix), n, w)
  {
    var used := Fixing(perms, n, fix);
    var orbit := OrbitOf(used, n, v);
    OrbitEquivalence(used, n);
    var e := OrbitRelation(used, n);
    assert e(v, v);
    assert v in orbit;
    w := LeastMember(orbit);
    forall j: nat | SameOrbit(used, n, w, j) ensures w <= j {
      assert e(v, w) && e(w, j) && e(v, j);
      assert j in orbit;
    }
    LeastIsSpared(perms, n, fix, pairs, w);
  }

  // Intersecting when the fixed points of an automorphism lie in fix, the other way round, would be
  // wrong: here it removes a point that no stored automorphism fixing fix moves.
  lemma OtherWayUnsound() returns (perm: seq<nat>, fix: set<nat>, pair: (set<nat>, set<nat>), v: nat)
    ensures PairOf(perm, 3, pair) && pair.0 <= fix && v !in fix
    ensures Permutations([perm], 3) && LeastInOrbit(Fixing([perm], 3, fix), 3, v) && v !in pair.1
  {
    perm, fix, v := [1, 0, 2], {0, 2}, 1;
    assert Permutation(3, perm) && Permutations([perm], 3);
    pair := (Fixed(perm), set i: nat | i < 3 && LeastInOrbit([perm], 3, i));
    GeneratorInOrbit([perm], 3, 0, 1);
    assert 0 !in Fixed(perm);
    var used := Fixing([perm], 3, fix);
    assert [perm][..0] == [] && Fixing([], 3, fix) == [];
    assert used == [];
    assert Permutations([], 3);
    forall j: nat | SameOrbit([], 3, 1, j) ensures 1 <= j {
      var w: Word :| WordOk(w, 0) && Act([], 3, w, 1) == j;
      assert |w| > 0 ==> w[0].0 < 0;
    }
  }
}
