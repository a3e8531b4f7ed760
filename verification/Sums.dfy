// Finite sums and cardinalities over sets of vertices, and relabellings of them.
module Sums {

  ghost function Sum(s: set<nat>, f: nat -> int): int {
    if s == {} then 0 else var x :| x in s; f(x) + Sum(s - {x}, f)
  }

  lemma {:induction false} SumRemove(s: set<nat>, f: nat -> int, x: nat)
    requires x in s
    ensures Sum(s, f) == f(x) + Sum(s - {x}, f)
    decreases |s|
  {
    var y :| y in s && Sum(s, f) == f(y) + Sum(s - {y}, f);
    if y != x {
      SumRemove(s - {y}, f, x);
      SumRemove(s - {x}, f, y);
      assert s - {y} - {x} == s - {x} - {y};
    }
  }

  lemma SumAdd(s: set<nat>, f: nat -> int, x: nat)
    requires x !in s
    ensures Sum(s + {x}, f) == f(x) + Sum(s, f)
  {
    SumRemove(s + {x}, f, x);
    assert s + {x} - {x} == s;
  }

  lemma {:induction false} SumCongruence(s: set<nat>, f: nat -> int, g: nat -> int)
    requires forall x :: x in s ==> f(x) == g(x)
    ensures Sum(s, f) == Sum(s, g)
    decreases |s|
  {
    if s != {} {
      var x :| x in s;
      SumRemove(s, f, x);
      SumRemove(s, g, x);
      SumCongruence(s - {x}, f, g);
    }
  }

  lemma {:induction false} SumUnion(s: set<nat>, t: set<nat>, f: nat -> int)
    requires s !! t
    ensures Sum(s + t, f) == Sum(s, f) + Sum(t, f)
    decreases |s|
  {
    if s == {} {
      assert s + t == t;
    } else {
      var x :| x in s;
      SumRemove(s, f, x);
      SumUnion(s - {x}, t, f);
      SumRemove(s + t, f, x);
      assert s + t - {x} == (s - {x}) + t;
    }
  }

  lemma SumSplit(s: set<nat>, t: set<nat>, f: nat -> int)
    requires t <= s
    ensures Sum(s, f) == Sum(t, f) + Sum(s - t, f)
  {
    SumUnion(t, s - t, f);
    assert t + (s - t) == s;
  }

  lemma {:induction false} SumPlus(s: set<nat>, f: nat -> int, g: nat -> int, h: nat -> int)
    requires forall x :: x in s ==> h(x) == f(x) + g(x)
    ensures Sum(s, h) == Sum(s, f) + Sum(s, g)
    decreases |s|
  {
    if s != {} {
      var x :| x in s;
      SumRemove(s, f, x);
      SumRemove(s, g, x);
      SumRemove(s, h, x);
      SumPlus(s - {x}, f, g, h);
    }
  }

  lemma {:induction false} SumNonNegative(s: set<nat>, f: nat -> int)
    requires forall x :: x in s ==> 0 <= f(x)
    ensures 0 <= Sum(s, f)
    decreases |s|
  {
    if s != {} {
      var x :| x in s;
      SumRemove(s, f, x);
      SumNonNegative(s - {x}, f);
    }
  }

  lemma {:induction false} SumMonotone(s: set<nat>, f: nat -> int, g: nat -> int)
    requires forall x :: x in s ==> f(x) <= g(x)
    ensures Sum(s, f) <= Sum(s, g)
    decreases |s|
  {
    if s != {} {
      var x :| x in s;
      SumRemove(s, f, x);
      SumRemove(s, g, x);
      SumMonotone(s - {x}, f, g);
    }
  }

  lemma {:induction false} SumZero(s: set<nat>, f: nat -> int)
    requires forall x :: x in s ==> f(x) == 0
    ensures Sum(s, f) == 0
    decreases |s|
  {
    if s != {} {
      var x :| x in s;
      SumRemove(s, f, x);
      SumZero(s - {x}, f);
    }
  }

  lemma Pick<T>(s: set<T>) returns (x: T)
    requires s != {}
    ensures x in s
  {
    x :| x in s;
  }

  function Flip(s: set<nat>, v: nat): set<nat> {
    if v in s then s - {v} else s + {v}
  }

  // How often x stands in positions lo..hi-1.
  ghost function Occurrences(xs: seq<nat>, lo: nat, hi: nat, x: nat): nat
    requires lo <= hi <= |xs|
  {
    if lo == hi then 0 else Occurrences(xs, lo, hi - 1, x) + (if xs[hi - 1] == x then 1 else 0)
  }

  // ----- lists without repetition -----

  ghost predicate Distinct<T>(xs: seq<T>) {
    forall i, j :: 0 <= i < j < |xs| ==> xs[i] != xs[j]
  }

  ghost function Elems(xs: seq<nat>): set<nat> {
    set x | x in xs
  }

  lemma {:induction false} DistinctCard(xs: seq<nat>)
    requires Distinct(xs)
    ensures |Elems(xs)| == |xs|
  {
    if xs == [] {
      assert Elems(xs) == {};
    } else {
      var last, rest := xs[|xs| - 1], xs[..|xs| - 1];
      assert xs == rest + [last];
      assert last !in rest;
      DistinctCard(rest);
      assert Elems(xs) == Elems(rest) + {last};
    }
  }

  // A list of distinct vertices that misses one is shorter than n.
  lemma DistinctMissing(xs: seq<nat>, n: nat, x: nat)
    requires Distinct(xs) && (forall i :: 0 <= i < |xs| ==> xs[i] < n)
    requires x < n && x !in xs
    ensures |xs| < n
  {
    DistinctCard(xs);
    SubsetCard(Elems(xs) + {x}, Range(n));
    RangeCard(n);
  }

  // ----- ranges and permutations -----

  function Range(n: nat): (r: set<nat>)
    ensures forall x: nat :: x in r <==> x < n
  {
    if n == 0 then {} else Range(n - 1) + {n - 1}
  }

  lemma {:induction false} RangeCard(n: nat)
    ensures |Range(n)| == n
  {
    if n > 0 {
      RangeCard(n - 1);
      assert Range(n) == Range(n - 1) + {n - 1};
    } else {
      assert Range(0) == {};
    }
  }

  lemma {:induction false} SubsetCard<T>(s: set<T>, t: set<T>)
    requires s <= t
    ensures |s| <= |t|
    ensures |s| == |t| ==> s == t
    decreases |s|
  {
    if s != {} {
      var x :| x in s;
      SubsetCard(s - {x}, t - {x});
      if |s| == |t| { assert s == (s - {x}) + {x} == (t - {x}) + {x} == t; }
    }
  }

  ghost predicate Injective(n: nat, p: seq<nat>) {
    |p| == n && forall i, j :: 0 <= i < j < n ==> p[i] != p[j]
  }

  // p is a permutation of 0..n-1.
  ghost predicate Permutation(n: nat, p: seq<nat>) {
    Injective(n, p) && forall i :: 0 <= i < n ==> p[i] < n
  }

  ghost function Image(p: seq<nat>, s: set<nat>): set<nat>
    requires forall x :: x in s ==> x < |p|
  {
    set x | x in s :: p[x]
  }

  lemma {:induction false} ImageCard(n: nat, p: seq<nat>, s: set<nat>)
    requires Injective(n, p) && forall x :: x in s ==> x < n
    ensures |Image(p, s)| == |s|
    decreases |s|
  {
    if s == {} {
      assert Image(p, s) == {};
    } else {
      var x :| x in s;
      ImageCard(n, p, s - {x});
      assert Image(p, s) == Image(p, s - {x}) + {p[x]};
      assert p[x] !in Image(p, s - {x});
    }
  }

  lemma {:induction false} SumImage(n: nat, p: seq<nat>, s: set<nat>, f: nat -> int, g: nat -> int)
    requires Injective(n, p) && forall x :: x in s ==> x < n
    requires forall x :: x in s ==> g(p[x]) == f(x)
    ensures Sum(Image(p, s), g) == Sum(s, f)
    decreases |s|
  {
    if s == {} {
      assert Image(p, s) == {};
    } else {
      var x :| x in s;
      SumImage(n, p, s - {x}, f, g);
      ImageOfMore(n, p, s, x);
      hide Image, Injective;
      SumAdd(Image(p, s - {x}), g, p[x]);
      SumRemove(s, f, x);
    }
  }

  lemma ImageOfMore(n: nat, p: seq<nat>, s: set<nat>, x: nat)
    requires Injective(n, p) && x in s && forall y :: y in s ==> y < n
    ensures Image(p, s) == Image(p, s - {x}) + {p[x]} && p[x] !in Image(p, s - {x})
  {
  }

  lemma ImageOfRange(n: nat, p: seq<nat>)
    requires Permutation(n, p)
    ensures Image(p, Range(n)) == Range(n)
  {
    var image := Image(p, Range(n));
    ImageCard(n, p, Range(n));
    assert image <= Range(n);
    SubsetCard(image, Range(n));
  }

  ghost predicate ClosedUnder(p: seq<nat>, s: set<nat>) {
    (forall y :: y in s ==> y < |p|) && forall y {:trigger p[y]} :: y in s && y < |p| ==> p[y] in s
  }

  // A set that a permutation maps into itself is mapped onto itself.
  lemma PreimageInside(n: nat, p: seq<nat>, s: set<nat>, z: nat) returns (y: nat)
    requires Permutation(n, p) && ClosedUnder(p, s) && z in s
    ensures y in s && p[y] == z
  {
    var image := Image(p, s);
    ImageCard(n, p, s);
    if z !in image {
      forall w | w in image ensures w in s - {z} {
      }
      SubsetCard(image, s - {z});
    }
    y :| y in s && p[y] == z;
  }

  lemma ClosedOutside(n: nat, p: seq<nat>, s: set<nat>, x: nat)
    requires Permutation(n, p) && x < n && x !in s && ClosedUnder(p, s)
    ensures p[x] !in s
  {
    if p[x] in s {
      var y := PreimageInside(n, p, s, p[x]);
    }
  }

  // Every vertex has a preimage under a permutation.
  lemma PermutationOnto(n: nat, p: seq<nat>, y: nat) returns (x: nat)
    requires Permutation(n, p) && y < n
    ensures x < n && p[x] == y
  {
    assert y in Image(p, Range(n)) by { ImageOfRange(n, p); }
    x :| x in Range(n) && p[x] == y;
  }

  lemma ScaledLeq(a: nat, x: nat, y: nat)
    requires x <= y
    ensures a * x <= a * y
  {
  }

  lemma DisjointHalves(small: set<nat>, large: set<nat>, all: set<nat>)
    requires small !! large && small <= all && large <= all && |small| <= |large|
    ensures 2 * |small| <= |all|
  {
    SubsetCard(small + large, all);
  }
}
