// Sorting by a total order, and matching two lists with the same members.
module Sorting {
  import opened Sums

  ghost predicate TotalOrder<T(!new)>(le: (T, T) -> bool) {
    && (forall x, y :: le(x, y) || le(y, x))
    && (forall x, y :: le(x, y) && le(y, x) ==> x == y)
    && (forall x, y, z :: le(x, y) && le(y, z) ==> le(x, z))
  }

  ghost predicate SortedBy<T>(le: (T, T) -> bool, xs: seq<T>) {
    forall i, j :: 0 <= i < j < |xs| ==> le(xs[i], xs[j])
  }

  function Insert<T>(le: (T, T) -> bool, x: T, xs: seq<T>): (r: seq<T>)
    ensures multiset(r) == multiset(xs) + multiset{x}
  {
    if xs == [] then [x]
    else
      assert xs == [xs[0]] + xs[1..];
      if le(x, xs[0]) then [x] + xs else [xs[0]] + Insert(le, x, xs[1..])
  }

  function Sort<T>(le: (T, T) -> bool, xs: seq<T>): (r: seq<T>)
    ensures multiset(r) == multiset(xs)
  {
    if xs == [] then []
    else
      assert xs == [xs[0]] + xs[1..];
      Insert(le, xs[0], Sort(le, xs[1..]))
  }

  lemma {:induction false} InsertSorted<T(!new)>(le: (T, T) -> bool, x: T, xs: seq<T>)
    requires TotalOrder(le) && SortedBy(le, xs)
    ensures SortedBy(le, Insert(le, x, xs))
  {
    if xs != [] && !le(x, xs[0]) {
      var rest := Insert(le, x, xs[1..]);
      InsertSorted(le, x, xs[1..]);
      forall i | 0 <= i < |rest| ensures le(xs[0], rest[i]) {
        assert rest[i] in multiset(rest);
        assert rest[i] in multiset(xs[1..]) || rest[i] == x;
      }
    }
  }

  lemma {:induction false} SortSorts<T(!new)>(le: (T, T) -> bool, xs: seq<T>)
    requires TotalOrder(le)
    ensures SortedBy(le, Sort(le, xs))
  {
    if xs != [] {
      SortSorts(le, xs[1..]);
      InsertSorted(le, xs[0], Sort(le, xs[1..]));
    }
  }

  lemma SortedHead<T(!new)>(le: (T, T) -> bool, xs: seq<T>, y: T)
    requires TotalOrder(le) && SortedBy(le, xs) && y in xs
    ensures le(xs[0], y)
  {
    assert le(y, y);
  }

  lemma {:induction false} SortedUnique<T(!new)>(le: (T, T) -> bool, xs: seq<T>, ys: seq<T>)
    requires TotalOrder(le) && SortedBy(le, xs) && SortedBy(le, ys) && multiset(xs) == multiset(ys)
    ensures xs == ys
  {
    assert |xs| == |multiset(xs)| && |ys| == |multiset(ys)|;
    if xs != [] {
      assert xs[0] in multiset(ys) && ys[0] in multiset(xs);
      SortedHead(le, xs, ys[0]);
      SortedHead(le, ys, xs[0]);
      assert xs == [xs[0]] + xs[1..] && ys == [ys[0]] + ys[1..];
      assert multiset(xs[1..]) == multiset(xs) - multiset{xs[0]};
      assert multiset(ys[1..]) == multiset(ys) - multiset{ys[0]};
      SortedUnique(le, xs[1..], ys[1..]);
    }
  }

  // Sorting does not see the order it starts from.
  lemma SortCanonical<T(!new)>(le: (T, T) -> bool, xs: seq<T>, ys: seq<T>)
    requires TotalOrder(le)
    ensures Sort(le, xs) == Sort(le, ys) <==> multiset(xs) == multiset(ys)
  {
    SortSorts(le, xs);
    SortSorts(le, ys);
    if multiset(xs) == multiset(ys) {
      SortedUnique(le, Sort(le, xs), Sort(le, ys));
    }
  }

  predicate AtMost(x: nat, y: nat) {
    x <= y
  }

  lemma AtMostOrder()
    ensures TotalOrder(AtMost)
  {
  }

  // ----- matchings -----

  // p pairs every entry of xs with an equal entry of ys.
  ghost predicate Matches<T(!new)>(xs: seq<T>, ys: seq<T>, p: seq<nat>) {
    && |xs| == |ys| && Permutation(|xs|, p)
    && forall i :: 0 <= i < |xs| ==> xs[i] == ys[p[i]]
  }

  ghost function Without<T>(ys: seq<T>, j: nat): (r: seq<T>)
    requires j < |ys|
    ensures |r| == |ys| - 1
    ensures multiset(r) + multiset{ys[j]} == multiset(ys)
  {
    assert ys == ys[..j] + [ys[j]] + ys[j + 1..];
    ys[..j] + ys[j + 1..]
  }

  lemma LessOne<T(!new)>(xs: seq<T>, ys: seq<T>, j: nat)
    requires multiset(xs) == multiset(ys) && 0 < |xs| && j < |ys| && ys[j] == xs[|xs| - 1]
    ensures multiset(xs[..|xs| - 1]) == multiset(Without(ys, j))
  {
    var init, last := xs[..|xs| - 1], ys[j];
    assert xs == init + [last];
    assert multiset(init) == multiset(xs) - multiset{last};
    assert multiset(Without(ys, j)) == multiset(ys) - multiset{last};
  }

  lemma ExtendMatching<T(!new)>(init: seq<T>, ys: seq<T>, j: nat, q: seq<nat>, p: seq<nat>)
    requires j < |ys| && Matches(init, Without(ys, j), q) && |p| == |init| + 1 && p[|init|] == j
    requires forall i :: 0 <= i < |init| ==> p[i] == if q[i] < j then q[i] else q[i] + 1
    ensures Matches(init + [ys[j]], ys, p)
  {
  }

  lemma {:induction false} Matching<T(!new)>(xs: seq<T>, ys: seq<T>) returns (p: seq<nat>)
    requires multiset(xs) == multiset(ys)
    ensures Matches(xs, ys, p)
  {
    assert |xs| == |multiset(xs)| && |ys| == |multiset(ys)|;
    if xs == [] {
      p := [];
    } else {
      var last, init := xs[|xs| - 1], xs[..|xs| - 1];
      assert xs == init + [last];
      assert last in multiset(ys);
      var j: nat :| j < |ys| && ys[j] == last;
      LessOne(xs, ys, j);
      var q := Matching(init, Without(ys, j));
      p := seq(|init|, i requires 0 <= i < |init| => if q[i] < j then q[i] else q[i] + 1) + [j];
      ExtendMatching(init, ys, j, q, p);
      assert init + [ys[j]] == xs;
    }
  }

  lemma {:induction false} MatchedMultisets<T(!new)>(xs: seq<T>, ys: seq<T>, p: seq<nat>)
    requires Matches(xs, ys, p)
    ensures multiset(xs) == multiset(ys)
  {
    if xs != [] {
      var n := |xs| - 1;
      var init, j := xs[..n], p[n];
      assert xs == init + [xs[n]];
      var q := seq(n, i requires 0 <= i < n => if p[i] < j then p[i] else p[i] - 1);
      forall i | 0 <= i < n ensures q[i] < n && init[i] == Without(ys, j)[q[i]] && p[i] != j {
        assert p[i] != p[n];
      }
      MatchedMultisets(init, Without(ys, j), q);
    }
  }
}
