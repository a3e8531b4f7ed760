// Joining the cells of a partition along a map, in place, over a forest of least representatives.
module Orbits {
  import opened Sums

  // Every entry points at itself or below.
  ghost predicate Forest(o: seq<nat>) {
    forall i :: 0 <= i < |o| ==> o[i] <= i
  }

  ghost function Root(o: seq<nat>, i: nat): (r: nat)
    requires Forest(o) && i < |o|
    ensures r <= i && o[r] == r
    decreases i
  {
    if o[i] == i then i else Root(o, o[i])
  }

  // Every entry is the least member of its cell.
  ghost predicate Canonical(o: seq<nat>) {
    Forest(o) && forall i :: 0 <= i < |o| ==> o[o[i]] == o[i]
  }

  ghost predicate MapInto(map_: seq<nat>, n: nat) {
    |map_| == n && forall i :: 0 <= i < n ==> map_[i] < n
  }

  type Relation = (nat, nat) -> bool

  ghost predicate Equivalence(e: Relation, n: nat) {
    && (forall x: nat :: x < n ==> e(x, x))
    && (forall x: nat, y: nat :: x < n && y < n && e(x, y) ==> e(y, x))
    && (forall x: nat, y: nat, z: nat :: x < n && y < n && z < n && e(x, y) && e(y, z) ==> e(x, z))
  }

  // An equivalence that keeps the cells of o together and relates i to map_[i].
  ghost predicate Admits(e: Relation, o: seq<nat>, map_: seq<nat>)
    requires Forest(o) && MapInto(map_, |o|)
  {
    && Equivalence(e, |o|)
    && (forall i: nat :: i < |o| ==> e(i, o[i]))
    && (forall i: nat :: i < |o| ==> e(i, map_[i]))
  }

  ghost predicate Together(r: seq<nat>, o: seq<nat>, map_: seq<nat>)
    requires |r| == |o| && Forest(o) && MapInto(map_, |o|)
  {
    && (forall i :: 0 <= i < |o| ==> r[i] == r[o[i]])
    && (forall i :: 0 <= i < |o| ==> r[i] == r[map_[i]])
  }

  // r is the finest partition that is coarser than o and keeps i and map_[i] together.
  ghost predicate Joins(o: seq<nat>, map_: seq<nat>, r: seq<nat>) {
    && Forest(o) && MapInto(map_, |o|) && |r| == |o|
    && Canonical(r) && Together(r, o, map_)
    && forall e: Relation :: Admits(e, o, map_) ==> forall x: nat :: x < |o| ==> e(x, r[x])
  }

  // The number of cells of a canonical partition.
  ghost function Cells(r: seq<nat>): set<nat> {
    set i: nat | i < |r| && r[i] == i
  }

  // ----- linking one root below another -----

  lemma {:induction false} LinkRoot(o: seq<nat>, a: nat, b: nat, x: nat)
    requires Forest(o) && b < |o| && a < b && o[b] == b && o[a] == a && x < |o|
    ensures Forest(o[b := a])
    ensures Root(o[b := a], x) == if Root(o, x) == b then a else Root(o, x)
    decreases x
  {
    var o2 := o[b := a];
    if x == b {
      assert Root(o2, a) == a;
    } else if o[x] != x {
      LinkRoot(o, a, b, o[x]);
    }
  }

  // During the first loop: cells grow, and only as far as every admissible relation demands.
  ghost predicate Growing(o0: seq<nat>, map_: seq<nat>, o: seq<nat>, done: nat) {
    && Forest(o0) && MapInto(map_, |o0|) && Forest(o) && |o| == |o0| && done <= |o|
    && (forall i: nat :: i < |o| ==> Root(o, i) == Root(o, o0[i]))
    && (forall i: nat :: i < done ==> Root(o, i) == Root(o, map_[i]))
    && (forall e: Relation :: Admits(e, o0, map_) ==> forall x: nat :: x < |o| ==> e(x, Root(o, x)))
  }

  lemma {:induction false} AdmittedRoot(e: Relation, o: seq<nat>, map_: seq<nat>, x: nat)
    requires Forest(o) && MapInto(map_, |o|) && Admits(e, o, map_) && x < |o|
    ensures e(x, Root(o, x))
    decreases x
  {
    if o[x] != x { AdmittedRoot(e, o, map_, o[x]); }
  }

  lemma GrowingParts(o0: seq<nat>, map_: seq<nat>, o: seq<nat>, done: nat)
    requires Growing(o0, map_, o, done)
    ensures Forest(o) && |o| == |o0| && MapInto(map_, |o|) && forall i :: 0 <= i < |o| ==> i < |map_| && map_[i] < |o|
  {
  }

  lemma GrowingStart(o0: seq<nat>, map_: seq<nat>)
    requires Forest(o0) && MapInto(map_, |o0|)
    ensures Growing(o0, map_, o0, 0)
  {
    forall e: Relation, x: nat | Admits(e, o0, map_) && x < |o0| ensures e(x, Root(o0, x)) {
      AdmittedRoot(e, o0, map_, x);
    }
  }

  // One step of the first loop, for the roots of i and map_[i].
  ghost function Linked(o: seq<nat>, j1: nat, j2: nat): seq<nat>
    requires j1 < |o| && j2 < |o|
  {
    if j1 < j2 then o[j2 := j1] else if j1 > j2 then o[j1 := j2] else o
  }

  lemma LinkedSame(o: seq<nat>, j: nat)
    requires j < |o|
    ensures Linked(o, j, j) == o
  {
  }

  lemma LinkedRoot(o: seq<nat>, j1: nat, j2: nat, x: nat)
    requires Forest(o) && j1 < |o| && j2 < |o| && o[j1] == j1 && o[j2] == j2 && x < |o|
    ensures Forest(Linked(o, j1, j2))
    ensures var lo := if j1 < j2 then j1 else j2;
            Root(Linked(o, j1, j2), x) == if Root(o, x) == j1 || Root(o, x) == j2 then lo else Root(o, x)
  {
    if j1 < j2 { LinkRoot(o, j1, j2, x); }
    if j2 < j1 { LinkRoot(o, j2, j1, x); }
  }

  lemma GrowingStep(o0: seq<nat>, map_: seq<nat>, o: seq<nat>, i: nat)
    requires Growing(o0, map_, o, i) && i < |o|
    ensures Growing(o0, map_, Linked(o, Root(o, i), Root(o, map_[i])), i + 1)
  {
    var j1, j2 := Root(o, i), Root(o, map_[i]);
    var t := Linked(o, j1, j2);
    forall x: nat | x < |o|
      ensures Forest(t)
      ensures Root(t, x) == if Root(o, x) == j1 || Root(o, x) == j2 then (if j1 < j2 then j1 else j2) else Root(o, x)
    {
      LinkedRoot(o, j1, j2, x);
    }
    forall e: Relation | Admits(e, o0, map_)
      ensures forall x: nat :: x < |o| ==> e(x, Root(t, x))
    {
      forall x: nat | x < |o| ensures e(x, Root(t, x)) {
        AdmittedStep(e, o0, map_, o, i, x, Root(t, x));
      }
    }
  }

  lemma AdmittedStep(e: Relation, o0: seq<nat>, map_: seq<nat>, o: seq<nat>, i: nat, x: nat, r: nat)
    requires Forest(o0) && MapInto(map_, |o0|) && Forest(o) && |o| == |o0| && i < |o| && x < |o|
    requires Admits(e, o0, map_) && forall y: nat :: y < |o| ==> e(y, Root(o, y))
    requires r == Root(o, x)
      || ((r == Root(o, i) || r == Root(o, map_[i])) && (Root(o, x) == Root(o, i) || Root(o, x) == Root(o, map_[i])))
    ensures e(x, r)
  {
    var j1, j2 := Root(o, i), Root(o, map_[i]);
    assert e(x, Root(o, x)) && e(i, j1) && e(map_[i], j2) && e(i, map_[i]);
    assert e(j1, i) && e(j1, map_[i]) && e(j1, j2) && e(j2, j1);
  }

  // ----- the second loop: one ascending pass is enough -----

  ghost predicate Compressed(o: seq<nat>, c: seq<nat>, done: nat) {
    && Forest(o) && |c| == |o| && done <= |o|
    && (forall i: nat :: i < done ==> c[i] == Root(o, i))
    && (forall i: nat :: done <= i < |o| ==> c[i] == o[i])
  }

  lemma CompressStep(o: seq<nat>, c: seq<nat>, i: nat)
    requires Compressed(o, c, i) && i < |o|
    ensures c[i] < |c| && Compressed(o, c[i := c[c[i]]], i + 1)
    ensures c[c[i]] == Root(o, i)
  {
  }

  lemma CompressedJoins(o0: seq<nat>, map_: seq<nat>, o: seq<nat>, c: seq<nat>)
    requires Growing(o0, map_, o, |o|) && Compressed(o, c, |o|)
    ensures Joins(o0, map_, c)
  {
    forall i: nat | i < |c| ensures c[c[i]] == c[i] {
      assert Root(o, Root(o, i)) == Root(o, i);
    }
  }

  // Follow the entries from i up to a root.
  method FindRoot(orbits: array<nat>, i: nat) returns (j: nat)
    requires Forest(orbits[..]) && i < orbits.Length
    ensures j == Root(orbits[..], i)
  {
    j := orbits[i];
    while orbits[j] != j
      invariant j < orbits.Length && Root(orbits[..], j) == Root(orbits[..], i)
      decreases j
    {
      j := orbits[j];
    }
  }

  // Join the cells of i and k.
  method JoinCells(orbits: array<nat>, i: nat, k: nat)
    requires Forest(orbits[..]) && i < orbits.Length && k < orbits.Length
    modifies orbits
    ensures orbits[..] == Linked(old(orbits[..]), Root(old(orbits[..]), i), Root(old(orbits[..]), k))
  {
    var j1 := FindRoot(orbits, i);
    var j2 := FindRoot(orbits, k);
    if j1 < j2 {
      orbits[j2] := j1;
    } else if j1 > j2 {
      orbits[j1] := j2;
    }
  }

  // Replace every entry by its root, in one ascending pass, and count the roots.
  method Compress(orbits: array<nat>) returns (count: nat)
    requires Forest(orbits[..])
    modifies orbits
    ensures Compressed(old(orbits[..]), orbits[..], orbits.Length)
    ensures count == |Cells(orbits[..])|
  {
    ghost var o := orbits[..];
    count := 0;
    ghost var roots: set<nat> := {};
    for i := 0 to orbits.Length
      invariant Compressed(o, orbits[..], i)
      invariant count == |roots| && forall r: nat :: r in roots <==> r < i && Root(o, r) == r
    {
      CompressStep(o, orbits[..], i);
      ghost var c := orbits[..];
      orbits[i] := orbits[orbits[i]];
      assert orbits[..] == c[i := c[c[i]]];
      if orbits[i] == i {
        count := count + 1;
        roots := roots + {i};
      }
    }
    assert roots == Cells(orbits[..]);
  }

  // Join the cells of orbits so that i and map_[i] are together for every i.
  method OrbJoin(orbits: array<nat>, map_: seq<nat>) returns (count: nat)
    requires Forest(orbits[..]) && MapInto(map_, orbits.Length)
    modifies orbits
    ensures Joins(old(orbits[..]), map_, orbits[..])
    ensures count == |Cells(orbits[..])|
  {
    ghost var o0 := orbits[..];
    GrowingStart(o0, map_);
    for i := 0 to orbits.Length
      invariant Growing(o0, map_, orbits[..], i)
    {
      GrowingStep(o0, map_, orbits[..], i);
      if map_[i] != i {
        JoinCells(orbits, i, map_[i]);
      }
    }
    ghost var o := orbits[..];
    count := Compress(orbits);
    CompressedJoins(o0, map_, o, orbits[..]);
  }

  // Each entry of the result is the least member of its cell.
  lemma LeastMember(o: seq<nat>, map_: seq<nat>, r: seq<nat>, x: nat, y: nat)
    requires Joins(o, map_, r) && x < |r| && y < |r| && r[x] == r[y]
    ensures r[x] <= y && r[r[x]] == r[x]
  {
  }
}
