// Listing a permutation group from transversals of a stabiliser chain.
module GroupElements {
  import opened Sums
  import opened GroupOrbits

  type Perm = seq<nat>

  datatype Rep = Identity | Stored(p: Perm)

  datatype Coset = Coset(image: nat, rep: Rep)

  datatype Level = Level(fixedpt: nat, orbitsize: nat, gens: seq<Perm>, replist: seq<Coset>)

  function Id(n: nat): (p: Perm)
    ensures |p| == n
  {
    seq(n, i requires 0 <= i < n => i)
  }

  // First a, then b.
  ghost function Then(a: Perm, b: Perm): (c: Perm)
    ensures |c| == |a|
  {
    seq(|a|, i requires 0 <= i < |a| => if a[i] < |b| then b[a[i]] else a[i])
  }

  lemma IdPermutes(n: nat)
    ensures Permutation(n, Id(n))
  {
  }

  lemma ThenPermutes(n: nat, a: Perm, b: Perm)
    requires Permutation(n, a) && Permutation(n, b)
    ensures Permutation(n, Then(a, b))
  {
    var c := Then(a, b);
    forall i, j | 0 <= i < j < n ensures c[i] != c[j] {
      assert a[i] != a[j];
    }
  }

  lemma ThenAssociates(n: nat, a: Perm, b: Perm, c: Perm)
    requires Permutation(n, a) && Permutation(n, b) && Permutation(n, c)
    ensures Permutation(n, Then(a, b)) && Permutation(n, Then(b, c))
    ensures Then(Then(a, b), c) == Then(a, Then(b, c))
  {
    ThenPermutes(n, a, b);
    ThenPermutes(n, b, c);
  }

  lemma ThenId(n: nat, a: Perm)
    requires Permutation(n, a)
    ensures Permutation(n, Id(n)) && Then(a, Id(n)) == a && Then(Id(n), a) == a
  {
  }

  ghost function Inverse(n: nat, a: Perm): (b: Perm)
    requires Permutation(n, a)
    ensures |b| == n
  {
    seq(n, i requires 0 <= i < n => Preimage(n, a, i))
  }

  lemma InverseUndoes(n: nat, a: Perm)
    requires Permutation(n, a)
    ensures Permutation(n, Inverse(n, a))
    ensures Then(a, Inverse(n, a)) == Id(n) && Then(Inverse(n, a), a) == Id(n)
  {
    var b := Inverse(n, a);
    forall i, j | 0 <= i < j < n ensures b[i] != b[j] {
      assert a[b[i]] == i && a[b[j]] == j;
    }
    forall i | 0 <= i < n ensures b[a[i]] == i {
      assert a[b[a[i]]] == a[i];
    }
  }

  lemma CancelRight(n: nat, a: Perm, b: Perm, c: Perm)
    requires Permutation(n, a) && Permutation(n, b) && Permutation(n, c) && Then(a, c) == Then(b, c)
    ensures a == b
  {
    forall i | 0 <= i < n ensures a[i] == b[i] {
      assert Then(a, c)[i] == Then(b, c)[i];
    }
  }

  lemma CancelLeft(n: nat, a: Perm, b: Perm, c: Perm)
    requires Permutation(n, a) && Permutation(n, b) && Permutation(n, c) && Then(a, b) == Then(a, c)
    ensures b == c
  {
    forall i: nat | i < n ensures b[i] == c[i] {
      var x := PermutationOnto(n, a, i);
      assert Then(a, b)[x] == Then(a, c)[x];
    }
  }

  // ----- the group generated by a list of permutations -----

  ghost predicate Spells(gens: seq<Perm>, n: nat, w: Word, q: Perm)
    requires Permutations(gens, n)
  {
    WordOk(w, |gens|) && |q| == n && forall x: nat :: x < n ==> q[x] == Act(gens, n, w, x)
  }

  ghost predicate InGroup(gens: seq<Perm>, n: nat, q: Perm) {
    Permutations(gens, n) && Permutation(n, q) && exists w: Word :: Spells(gens, n, w, q)
  }

  lemma IdInGroup(gens: seq<Perm>, n: nat)
    requires Permutations(gens, n)
    ensures InGroup(gens, n, Id(n))
  {
    IdPermutes(n);
    assert Spells(gens, n, [], Id(n));
  }

  lemma GeneratorInGroup(gens: seq<Perm>, n: nat, t: nat)
    requires Permutations(gens, n) && t < |gens|
    ensures InGroup(gens, n, gens[t])
  {
    var w: Word := [(t, false)];
    assert w[..0] == [];
    assert Spells(gens, n, w, gens[t]);
  }

  lemma ThenInGroup(gens: seq<Perm>, n: nat, a: Perm, b: Perm)
    requires InGroup(gens, n, a) && InGroup(gens, n, b)
    ensures InGroup(gens, n, Then(a, b))
  {
    var v: Word :| Spells(gens, n, v, a);
    var w: Word :| Spells(gens, n, w, b);
    ThenPermutes(n, a, b);
    forall x: nat | x < n ensures WordOk(v + w, |gens|) && Then(a, b)[x] == Act(gens, n, v + w, x) {
      ActAppend(gens, n, v, w, x);
    }
    assert Spells(gens, n, v + w, Then(a, b));
  }

  lemma InverseInGroup(gens: seq<Perm>, n: nat, a: Perm)
    requires InGroup(gens, n, a)
    ensures InGroup(gens, n, Inverse(n, a))
  {
    var w: Word :| Spells(gens, n, w, a);
    var back := UndoAll(gens, n, w);
    var b := Inverse(n, a);
    InverseUndoes(n, a);
    forall x: nat | x < n ensures b[x] == Act(gens, n, back, x) {
      assert a[b[x]] == x;
      assert Act(gens, n, back, Act(gens, n, w, b[x])) == b[x];
    }
    assert Spells(gens, n, back, b);
  }

  lemma {:induction false} SpellMore(gens: seq<Perm>, more: seq<Perm>, n: nat, w: Word) returns (v: Word)
    requires Permutations(gens, n) && Permutations(more, n) && WordOk(w, |gens|)
    requires forall g :: g in gens ==> g in more
    ensures WordOk(v, |more|) && forall x: nat :: x < n ==> Act(more, n, v, x) == Act(gens, n, w, x)
    decreases |w|
  {
    if w == [] {
      v := [];
    } else {
      var l := w[|w| - 1];
      var init := SpellMore(gens, more, n, w[..|w| - 1]);
      assert gens[l.0] in more;
      var t: nat :| t < |more| && more[t] == gens[l.0];
      v := init + [(t, l.1)];
      assert v[..|v| - 1] == init;
    }
  }

  lemma LargerGroup(gens: seq<Perm>, more: seq<Perm>, n: nat, q: Perm)
    requires InGroup(gens, n, q) && Permutations(more, n) && forall g :: g in gens ==> g in more
    ensures InGroup(more, n, q)
  {
    var w: Word :| Spells(gens, n, w, q);
    var v := SpellMore(gens, more, n, w);
    assert Spells(more, n, v, q);
  }

  lemma {:induction false} FixedByWord(gens: seq<Perm>, n: nat, w: Word, f: nat)
    requires Permutations(gens, n) && WordOk(w, |gens|) && f < n
    requires forall t :: 0 <= t < |gens| ==> gens[t][f] == f
    ensures Act(gens, n, w, f) == f
    decreases |w|
  {
    if w != [] {
      var l := w[|w| - 1];
      FixedByWord(gens, n, w[..|w| - 1], f);
      assert gens[l.0][f] == f;
      assert Permutation(n, gens[l.0]);
    }
  }

  lemma SomeLetter(w: Word, k: nat)
    requires WordOk(w, k) && w != []
    ensures k > 0
  {
    assert w[0].0 < k;
  }

  lemma TrivialGroup(n: nat, q: Perm)
    requires InGroup([], n, q)
    ensures q == Id(n)
  {
    var w: Word :| Spells([], n, w, q);
    if w != [] { SomeLetter(w, 0); }
  }

  // ----- transversals -----

  ghost function RepPerm(n: nat, c: Coset): Perm {
    if c.rep.Identity? then Id(n) else c.rep.p
  }

  // The points that the group moves f to.
  ghost function OrbitOf(gens: seq<Perm>, n: nat, f: nat): set<nat>
    requires Permutations(gens, n)
  {
    set x: nat | x < n && SameOrbit(gens, n, f, x)
  }

  // One representative for every point of the orbit of fixedpt; the identity comes first.
  ghost predicate Transversal(n: nat, l: Level) {
    && Permutations(l.gens, n) && l.fixedpt < n && |l.replist| == l.orbitsize && 0 < l.orbitsize
    && l.replist[0] == Coset(l.fixedpt, Identity)
    && (forall j :: 0 <= j < |l.replist| ==> RepOk(n, l, l.replist[j]))
    && (forall i, j :: 0 <= i < j < |l.replist| ==> l.replist[i].image != l.replist[j].image)
    && (forall x: nat :: x < n && SameOrbit(l.gens, n, l.fixedpt, x) ==> Represented(l, x))
  }

  ghost predicate RepOk(n: nat, l: Level, c: Coset)
    requires l.fixedpt < n
  {
    InGroup(l.gens, n, RepPerm(n, c)) && RepPerm(n, c)[l.fixedpt] == c.image
  }

  ghost predicate Represented(l: Level, x: nat) {
    exists j :: 0 <= j < |l.replist| && l.replist[j].image == x
  }

  // ----- stabiliser chains -----

  ghost function GensFrom(levels: seq<Level>, k: nat): seq<Perm> {
    if k < |levels| then levels[k].gens else []
  }

  // The generators of each level generate the stabiliser of the earlier fixed points.
  ghost predicate Stabilises(n: nat, l: Level, next: seq<Perm>) {
    && Permutations(l.gens, n) && Permutations(next, n) && l.fixedpt < n
    && l.orbitsize == |OrbitOf(l.gens, n, l.fixedpt)|
    && (forall g :: g in next ==> g in l.gens)
    && (forall t :: 0 <= t < |next| ==> next[t][l.fixedpt] == l.fixedpt)
    && (forall q :: InGroup(l.gens, n, q) && q[l.fixedpt] == l.fixedpt ==> InGroup(next, n, q))
  }

  ghost predicate StabiliserChain(n: nat, levels: seq<Level>) {
    forall k {:trigger levels[k]} :: 0 <= k < |levels| ==> Stabilises(n, levels[k], GensFrom(levels, k + 1))
  }

  ghost predicate Transversals(n: nat, levels: seq<Level>) {
    forall k :: 0 <= k < |levels| ==> Transversal(n, levels[k])
  }

  // q is r0 after r1 after ... after r(k-1), each ri a representative of level i.
  ghost predicate IsProduct(n: nat, levels: seq<Level>, k: nat, q: Perm)
    requires k <= |levels|
    decreases k, 1
  {
    if k == 0 then q == Id(n)
    else exists j: nat, e: Perm :: LastFactor(n, levels, k, q, j, e)
  }

  ghost predicate LastFactor(n: nat, levels: seq<Level>, k: nat, q: Perm, j: nat, e: Perm)
    requires 0 < k <= |levels|
    decreases k, 0
  {
    && j < |levels[k - 1].replist| && IsProduct(n, levels, k - 1, e) && Permutation(n, e)
    && Permutation(n, RepPerm(n, levels[k - 1].replist[j]))
    && q == Then(RepPerm(n, levels[k - 1].replist[j]), e)
  }

  lemma LevelFacts(n: nat, levels: seq<Level>, k: nat, j: nat)
    requires Transversals(n, levels) && k < |levels| && j < |levels[k].replist|
    ensures Permutations(levels[k].gens, n) && levels[k].fixedpt < n
    ensures InGroup(levels[k].gens, n, RepPerm(n, levels[k].replist[j]))
    ensures RepPerm(n, levels[k].replist[j])[levels[k].fixedpt] == levels[k].replist[j].image
  {
    assert RepOk(n, levels[k], levels[k].replist[j]);
  }

  lemma ChainAt(n: nat, levels: seq<Level>, k: nat)
    requires StabiliserChain(n, levels) && k < |levels|
    ensures Stabilises(n, levels[k], GensFrom(levels, k + 1)) && GensFrom(levels, k) == levels[k].gens
  {
  }

  lemma StepUp(n: nat, l: Level, next: seq<Perm>, q: Perm)
    requires Stabilises(n, l, next) && InGroup(next, n, q)
    ensures InGroup(l.gens, n, q)
  {
    LargerGroup(next, l.gens, n, q);
  }

  lemma {:induction false} Descends(n: nat, levels: seq<Level>, k: nat, q: Perm)
    requires StabiliserChain(n, levels) && k <= |levels| && 0 < |levels| && InGroup(GensFrom(levels, k), n, q)
    ensures InGroup(levels[0].gens, n, q)
    decreases k
  {
    if k > 0 {
      ChainAt(n, levels, k - 1);
      hide StabiliserChain, Stabilises, InGroup;
      StepUp(n, levels[k - 1], GensFrom(levels, k), q);
      Descends(n, levels, k - 1, q);
    }
  }

  lemma {:induction false} ProductsInGroup(n: nat, levels: seq<Level>, k: nat, q: Perm)
    requires StabiliserChain(n, levels) && Transversals(n, levels) && k <= |levels| && 0 < |levels|
    requires IsProduct(n, levels, k, q)
    ensures InGroup(levels[0].gens, n, q)
    decreases k
  {
    hide *;
    if k == 0 {
      NoFactors(n, levels, q);
    } else {
      var j, e := LastProduct(n, levels, k, q);
      FactorFacts(n, levels, k, q, j, e);
      var r := RepPerm(n, levels[k - 1].replist[j]);
      ProductsInGroup(n, levels, k - 1, e);
      Descends(n, levels, k - 1, r);
      ThenInGroup(levels[0].gens, n, r, e);
    }
  }

  lemma NoFactors(n: nat, levels: seq<Level>, q: Perm)
    requires Transversals(n, levels) && 0 < |levels| && IsProduct(n, levels, 0, q)
    ensures InGroup(levels[0].gens, n, q)
  {
    assert Transversal(n, levels[0]);
    IdInGroup(levels[0].gens, n);
  }

  lemma WholeByItself(n: nat, levels: seq<Level>, q: Perm)
    requires Transversals(n, levels) && 0 < |levels| && InGroup(levels[0].gens, n, q)
    ensures InGroup(GensFrom(levels, 0), n, q) && IsProduct(n, levels, 0, Id(n))
    ensures Permutation(n, Id(n)) && q == Then(q, Id(n))
  {
    ThenId(n, q);
  }

  lemma FactorFacts(n: nat, levels: seq<Level>, k: nat, q: Perm, j: nat, e: Perm)
    requires StabiliserChain(n, levels) && Transversals(n, levels) && 0 < k <= |levels|
    requires LastFactor(n, levels, k, q, j, e)
    ensures j < |levels[k - 1].replist| && IsProduct(n, levels, k - 1, e) && Permutation(n, e)
    ensures InGroup(GensFrom(levels, k - 1), n, RepPerm(n, levels[k - 1].replist[j]))
    ensures Permutation(n, RepPerm(n, levels[k - 1].replist[j]))
    ensures q == Then(RepPerm(n, levels[k - 1].replist[j]), e)
  {
    hide StabiliserChain, Transversals, IsProduct, RepPerm, InGroup;
    LevelFacts(n, levels, k - 1, j);
  }

  // An element of level k is an element of the next level followed by a representative.
  lemma SplitOff(n: nat, l: Level, next: seq<Perm>, u: Perm) returns (h: Perm, j: nat)
    requires Stabilises(n, l, next) && Transversal(n, l) && InGroup(l.gens, n, u)
    ensures InGroup(next, n, h) && j < |l.replist|
    ensures InGroup(l.gens, n, RepPerm(n, l.replist[j])) && u == Then(h, RepPerm(n, l.replist[j]))
  {
    var f := l.fixedpt;
    var w: Word :| Spells(l.gens, n, w, u);
    assert Act(l.gens, n, w, f) == u[f];
    assert SameOrbit(l.gens, n, f, u[f]);
    assert Represented(l, u[f]);
    j :| 0 <= j < |l.replist| && l.replist[j].image == u[f];
    assert RepOk(n, l, l.replist[j]);
    var r := RepPerm(n, l.replist[j]);
    var back := Inverse(n, r);
    InverseInGroup(l.gens, n, r);
    InverseUndoes(n, r);
    ThenInGroup(l.gens, n, u, back);
    h := Then(u, back);
    assert Then(r, back)[f] == f;
    ThenAssociates(n, u, back, r);
    ThenId(n, u);
  }

  lemma LastProduct(n: nat, levels: seq<Level>, k: nat, q: Perm) returns (j: nat, e: Perm)
    requires Transversals(n, levels) && 0 < k <= |levels| && IsProduct(n, levels, k, q)
    ensures LastFactor(n, levels, k, q, j, e)
  {
    j, e :| LastFactor(n, levels, k, q, j, e);
  }

  // Every element is an element of level k followed by a product of k representatives.
  lemma {:induction false} Factorises(n: nat, levels: seq<Level>, k: nat, q: Perm) returns (u: Perm, e: Perm)
    requires StabiliserChain(n, levels) && Transversals(n, levels) && k <= |levels| && 0 < |levels|
    requires InGroup(levels[0].gens, n, q)
    ensures InGroup(GensFrom(levels, k), n, u) && IsProduct(n, levels, k, e) && Permutation(n, e) && q == Then(u, e)
    decreases k
  {
    hide *;
    if k == 0 {
      u, e := q, Id(n);
      AllPermute(levels[0].gens, n, q);
      WholeByItself(n, levels, q);
    } else {
      var u1, e1 := Factorises(n, levels, k - 1, q);
      ChainAt(n, levels, k - 1);
      TransversalAt(n, levels, k - 1);
      var j: nat;
      u, j := SplitOff(n, levels[k - 1], GensFrom(levels, k), u1);
      AllPermute(GensFrom(levels, k - 1), n, u1);
      AllPermute(GensFrom(levels, k), n, u);
      AllPermute(GensFrom(levels, k - 1), n, RepPerm(n, levels[k - 1].replist[j]));
      e := FactorStep(n, levels, k, q, u1, e1, u, j);
    }
  }

  lemma TransversalAt(n: nat, levels: seq<Level>, k: nat)
    requires Transversals(n, levels) && k < |levels|
    ensures Transversal(n, levels[k])
  {
  }

  lemma AllPermute(gens: seq<Perm>, n: nat, q: Perm)
    requires InGroup(gens, n, q)
    ensures Permutation(n, q)
  {
  }

  lemma FactorStep(n: nat, levels: seq<Level>, k: nat, q: Perm, u1: Perm, e1: Perm, u: Perm, j: nat) returns (e: Perm)
    requires Transversals(n, levels) && 0 < k <= |levels| && j < |levels[k - 1].replist|
    requires IsProduct(n, levels, k - 1, e1) && Permutation(n, e1)
    requires Permutation(n, u) && Permutation(n, u1) && Permutation(n, RepPerm(n, levels[k - 1].replist[j]))
    requires q == Then(u1, e1) && u1 == Then(u, RepPerm(n, levels[k - 1].replist[j]))
    ensures IsProduct(n, levels, k, e) && Permutation(n, e) && q == Then(u, e)
  {
    hide Transversals;
    var r := RepPerm(n, levels[k - 1].replist[j]);
    ThenAssociates(n, u, r, e1);
    e := Then(r, e1);
    assert LastFactor(n, levels, k, e, j, e1);
  }

  // The factorisation is unique.
  lemma {:induction false} FactorsUnique(n: nat, levels: seq<Level>, k: nat, u: Perm, e: Perm, u2: Perm, e2: Perm)
    requires StabiliserChain(n, levels) && Transversals(n, levels) && k <= |levels|
    requires InGroup(GensFrom(levels, k), n, u) && InGroup(GensFrom(levels, k), n, u2)
    requires IsProduct(n, levels, k, e) && IsProduct(n, levels, k, e2) && Permutation(n, e) && Permutation(n, e2)
    requires Then(u, e) == Then(u2, e2)
    ensures u == u2 && e == e2
    decreases k
  {
    hide *;
    AllPermute(GensFrom(levels, k), n, u);
    AllPermute(GensFrom(levels, k), n, u2);
    if k == 0 {
      NoFactor(n, levels, e);
      NoFactor(n, levels, e2);
      ThenId(n, u);
      ThenId(n, u2);
    } else {
      var l, next := levels[k - 1], GensFrom(levels, k);
      ChainAt(n, levels, k - 1);
      TransversalAt(n, levels, k - 1);
      var j, f := LastProduct(n, levels, k, e);
      var j2, f2 := LastProduct(n, levels, k, e2);
      FactorFacts(n, levels, k, e, j, f);
      FactorFacts(n, levels, k, e2, j2, f2);
      var r, r2 := RepPerm(n, l.replist[j]), RepPerm(n, l.replist[j2]);
      StepUp(n, l, next, u);
      StepUp(n, l, next, u2);
      Bracket(n, l.gens, u, r, f);
      Bracket(n, l.gens, u2, r2, f2);
      FactorsUnique(n, levels, k - 1, Then(u, r), f, Then(u2, r2), f2);
      SameRepresentative(n, l, next, u, j, u2, j2);
    }
  }

  lemma NoFactor(n: nat, levels: seq<Level>, e: Perm)
    requires Transversals(n, levels) && IsProduct(n, levels, 0, e)
    ensures e == Id(n)
  {
  }

  lemma Bracket(n: nat, gens: seq<Perm>, u: Perm, r: Perm, f: Perm)
    requires InGroup(gens, n, u) && InGroup(gens, n, r) && Permutation(n, f)
    ensures InGroup(gens, n, Then(u, r)) && Then(Then(u, r), f) == Then(u, Then(r, f))
  {
    ThenInGroup(gens, n, u, r);
    ThenAssociates(n, u, r, f);
  }

  lemma SameRepresentative(n: nat, l: Level, next: seq<Perm>, u: Perm, j: nat, u2: Perm, j2: nat)
    requires Stabilises(n, l, next) && Transversal(n, l) && j < |l.replist| && j2 < |l.replist|
    requires InGroup(next, n, u) && InGroup(next, n, u2)
    requires Permutation(n, RepPerm(n, l.replist[j])) && Permutation(n, RepPerm(n, l.replist[j2]))
    requires Then(u, RepPerm(n, l.replist[j])) == Then(u2, RepPerm(n, l.replist[j2]))
    ensures j == j2 && u == u2
  {
    var f := l.fixedpt;
    FixedInGroup(next, n, u, f);
    FixedInGroup(next, n, u2, f);
    assert RepOk(n, l, l.replist[j]) && RepOk(n, l, l.replist[j2]);
    assert Then(u, RepPerm(n, l.replist[j]))[f] == Then(u2, RepPerm(n, l.replist[j2]))[f];
    CancelRight(n, u, u2, RepPerm(n, l.replist[j]));
  }

  lemma FixedInGroup(gens: seq<Perm>, n: nat, q: Perm, f: nat)
    requires InGroup(gens, n, q) && f < n && forall t :: 0 <= t < |gens| ==> gens[t][f] == f
    ensures q[f] == f
  {
    var w: Word :| Spells(gens, n, w, q);
    FixedByWord(gens, n, w, f);
  }
}
