// Joining along generators one after the other gives the orbits of the group they generate.
module GroupOrbits {
  import opened Sums
  import opened Orbits

  ghost predicate Permutations(perms: seq<seq<nat>>, n: nat) {
    forall t :: 0 <= t < |perms| ==> Permutation(n, perms[t])
  }

  ghost function Preimage(n: nat, p: seq<nat>, y: nat): (x: nat)
    requires Permutation(n, p) && y < n
    ensures x < n && p[x] == y
  {
    PreimageExists(n, p, y);
    var x: nat :| x < n && p[x] == y;
    x
  }

  lemma PreimageExists(n: nat, p: seq<nat>, y: nat)
    requires Permutation(n, p) && y < n
    ensures exists x: nat :: x < n && p[x] == y
  {
    var x := PermutationOnto(n, p, y);
  }

  // A group element is a word in generators and their inverses (true marks an inverse).
  type Word = seq<(nat, bool)>

  ghost predicate WordOk(w: Word, k: nat) {
    forall i :: 0 <= i < |w| ==> w[i].0 < k
  }

  ghost function Letter(perms: seq<seq<nat>>, n: nat, l: (nat, bool), x: nat): (y: nat)
    requires Permutations(perms, n) && l.0 < |perms| && x < n
    ensures y < n
  {
    if l.1 then Preimage(n, perms[l.0], x) else perms[l.0][x]
  }

  ghost function Act(perms: seq<seq<nat>>, n: nat, w: Word, x: nat): (y: nat)
    requires Permutations(perms, n) && WordOk(w, |perms|) && x < n
    ensures y < n
  {
    if w == [] then x else Letter(perms, n, w[|w| - 1], Act(perms, n, w[..|w| - 1], x))
  }

  ghost predicate SameOrbit(perms: seq<seq<nat>>, n: nat, x: nat, y: nat)
    requires Permutations(perms, n)
  {
    x < n && y < n && exists w: Word :: WordOk(w, |perms|) && Act(perms, n, w, x) == y
  }

  lemma {:induction false} ActAppend(perms: seq<seq<nat>>, n: nat, v: Word, w: Word, x: nat)
    requires Permutations(perms, n) && WordOk(v, |perms|) && WordOk(w, |perms|) && x < n
    ensures WordOk(v + w, |perms|) && Act(perms, n, v + w, x) == Act(perms, n, w, Act(perms, n, v, x))
    decreases |w|
  {
    if w == [] {
      assert v + w == v;
    } else {
      var init := w[..|w| - 1];
      ActAppend(perms, n, v, init, x);
      assert (v + w)[..|v + w| - 1] == v + init;
    }
  }

  lemma LetterBack(perms: seq<seq<nat>>, n: nat, l: (nat, bool), x: nat)
    requires Permutations(perms, n) && l.0 < |perms| && x < n
    ensures Letter(perms, n, (l.0, !l.1), Letter(perms, n, l, x)) == x
  {
    var p := perms[l.0];
    var y := Letter(perms, n, l, x);
    if !l.1 {
      var z := Preimage(n, p, y);
      assert p[z] == p[x];
    }
  }

  // One word undoes another on every point.
  lemma {:induction false} UndoAll(perms: seq<seq<nat>>, n: nat, w: Word) returns (back: Word)
    requires Permutations(perms, n) && WordOk(w, |perms|)
    ensures WordOk(back, |perms|) && forall x: nat :: x < n ==> Act(perms, n, back, Act(perms, n, w, x)) == x
    decreases |w|
  {
    if w == [] {
      back := [];
    } else {
      var init, l := w[..|w| - 1], w[|w| - 1];
      var rest := UndoAll(perms, n, init);
      var first: Word := [(l.0, !l.1)];
      back := first + rest;
      forall x: nat | x < n ensures Act(perms, n, back, Act(perms, n, w, x)) == x {
        LetterBack(perms, n, l, Act(perms, n, init, x));
        assert first[..0] == [];
        assert Act(perms, n, first, Act(perms, n, w, x)) == Act(perms, n, init, x);
        ActAppend(perms, n, first, rest, Act(perms, n, w, x));
      }
    }
  }

  ghost function OrbitRelation(perms: seq<seq<nat>>, n: nat): Relation
    requires Permutations(perms, n)
  {
    (x: nat, y: nat) => SameOrbit(perms, n, x, y)
  }

  lemma OrbitEquivalence(perms: seq<seq<nat>>, n: nat)
    requires Permutations(perms, n)
    ensures Equivalence(OrbitRelation(perms, n), n)
  {
    forall x: nat | x < n ensures SameOrbit(perms, n, x, x) {
      assert Act(perms, n, [], x) == x;
    }
    forall x: nat, y: nat | x < n && y < n && SameOrbit(perms, n, x, y) ensures SameOrbit(perms, n, y, x) {
      var w: Word :| WordOk(w, |perms|) && Act(perms, n, w, x) == y;
      var back := UndoAll(perms, n, w);
    }
    forall x: nat, y: nat, z: nat | x < n && y < n && z < n && SameOrbit(perms, n, x, y) && SameOrbit(perms, n, y, z)
      ensures SameOrbit(perms, n, x, z)
    {
      var v: Word :| WordOk(v, |perms|) && Act(perms, n, v, x) == y;
      var w: Word :| WordOk(w, |perms|) && Act(perms, n, w, y) == z;
      ActAppend(perms, n, v, w, x);
    }
  }

  lemma GeneratorInOrbit(perms: seq<seq<nat>>, n: nat, t: nat, x: nat)
    requires Permutations(perms, n) && t < |perms| && x < n
    ensures SameOrbit(perms, n, x, perms[t][x])
  {
    var w: Word := [(t, false)];
    assert w[..0] == [];
    assert Act(perms, n, w, x) == perms[t][x];
  }

  // The partitions reached by joining along one generator after the other, from singletons on.
  ghost predicate JoinedInTurn(parts: seq<seq<nat>>, perms: seq<seq<nat>>, n: nat) {
    && |parts| == |perms| + 1 && |parts[0]| == n
    && (forall i :: 0 <= i < n ==> parts[0][i] == i)
    && (forall t :: 0 <= t < |perms| ==> Joins(parts[t], perms[t], parts[t + 1]))
  }

  lemma {:induction false} CellsWithinOrbits(parts: seq<seq<nat>>, perms: seq<seq<nat>>, n: nat, t: nat)
    requires Permutations(perms, n) && JoinedInTurn(parts, perms, n) && t <= |perms|
    ensures |parts[t]| == n && forall x: nat :: x < n ==> SameOrbit(perms, n, x, parts[t][x])
  {
    OrbitEquivalence(perms, n);
    var e := OrbitRelation(perms, n);
    if t == 0 {
      forall x: nat | x < n ensures SameOrbit(perms, n, x, parts[0][x]) {
        assert e(x, x) && parts[0][x] == x;
      }
    } else {
      CellsWithinOrbits(parts, perms, n, t - 1);
      assert Joins(parts[t - 1], perms[t - 1], parts[t - 1 + 1]);
      var p := perms[t - 1];
      forall x: nat | x < n ensures e(x, p[x]) {
        GeneratorInOrbit(perms, n, t - 1, x);
      }
      assert Admits(e, parts[t - 1], perms[t - 1]);
    }
  }

  lemma {:induction false} CellsClosed(parts: seq<seq<nat>>, perms: seq<seq<nat>>, n: nat, t: nat, k: nat, x: nat)
    requires Permutations(perms, n) && JoinedInTurn(parts, perms, n) && k < t <= |perms| && x < n
    ensures |parts[t]| == n && parts[t][perms[k][x]] == parts[t][x]
  {
    CellsWithinOrbits(parts, perms, n, t - 1);
    assert Joins(parts[t - 1], perms[t - 1], parts[t - 1 + 1]);
    if k < t - 1 {
      CellsClosed(parts, perms, n, t - 1, k, x);
    }
  }

  lemma {:induction false} OrbitsWithinCells(parts: seq<seq<nat>>, perms: seq<seq<nat>>, n: nat, w: Word, x: nat)
    requires Permutations(perms, n) && JoinedInTurn(parts, perms, n)
    requires WordOk(w, |perms|) && x < n
    ensures |parts[|perms|]| == n && parts[|perms|][Act(perms, n, w, x)] == parts[|perms|][x]
    decreases |w|
  {
    CellsWithinOrbits(parts, perms, n, |perms|);
    if w != [] {
      var init, l := w[..|w| - 1], w[|w| - 1];
      OrbitsWithinCells(parts, perms, n, init, x);
      var y := Act(perms, n, init, x);
      CellsClosed(parts, perms, n, |perms|, l.0, if l.1 then Preimage(n, perms[l.0], y) else y);
    }
  }

  // Main theorem: the final cells are exactly the orbits of the generated group.
  lemma JoinedCellsAreOrbits(parts: seq<seq<nat>>, perms: seq<seq<nat>>, n: nat, x: nat, y: nat)
    requires Permutations(perms, n) && JoinedInTurn(parts, perms, n) && x < n && y < n
    ensures |parts[|perms|]| == n
    ensures parts[|perms|][x] == parts[|perms|][y] <==> SameOrbit(perms, n, x, y)
  {
    var r := parts[|perms|];
    CellsWithinOrbits(parts, perms, n, |perms|);
    if SameOrbit(perms, n, x, y) {
      var w: Word :| WordOk(w, |perms|) && Act(perms, n, w, x) == y;
      OrbitsWithinCells(parts, perms, n, w, x);
    }
    if r[x] == r[y] {
      OrbitEquivalence(perms, n);
      var e := OrbitRelation(perms, n);
      assert e(x, r[x]) && e(y, r[y]) && e(r[y], y) && e(x, y);
    }
  }
}
