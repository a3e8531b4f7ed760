// The order in which the elements of a group are listed, and why every element comes exactly once.
module GroupListing {
  import opened Sums
  import opened GroupOrbits
  import opened GroupElements

  // b followed by each product of representatives of the first k levels.
  ghost function Elements(n: nat, levels: seq<Level>, k: nat, b: Perm): seq<Perm>
    requires k <= |levels|
    decreases k, 0
  {
    if k == 0 then [b] else ElementsUpTo(n, levels, k, b, |levels[k - 1].replist|)
  }

  ghost function ElementsUpTo(n: nat, levels: seq<Level>, k: nat, b: Perm, j: nat): seq<Perm>
    requires 0 < k <= |levels| && j <= |levels[k - 1].replist|
    decreases k - 1, j + 1
  {
    if j == 0 then []
    else ElementsUpTo(n, levels, k, b, j - 1) + Elements(n, levels, k - 1, Extend(n, levels, k, b, j - 1))
  }

  // b followed by representative j of level k - 1.
  ghost function Extend(n: nat, levels: seq<Level>, k: nat, b: Perm, j: nat): (c: Perm)
    requires 0 < k <= |levels| && j < |levels[k - 1].replist|
  {
    Then(b, RepPerm(n, levels[k - 1].replist[j]))
  }

  lemma RepPermutes(n: nat, levels: seq<Level>, k: nat, j: nat, b: Perm)
    requires Transversals(n, levels) && k < |levels| && Permutation(n, b) && j < |levels[k].replist|
    ensures var r := RepPerm(n, levels[k].replist[j]);
      Permutation(n, r) && Permutation(n, Then(b, r)) && Extend(n, levels, k + 1, b, j) == Then(b, r)
  {
    hide Transversals, RepPerm, InGroup;
    LevelFacts(n, levels, k, j);
    AllPermute(levels[k].gens, n, RepPerm(n, levels[k].replist[j]));
    ThenPermutes(n, b, RepPerm(n, levels[k].replist[j]));
  }

  lemma ExtendPermutes(n: nat, levels: seq<Level>, k: nat, b: Perm, j: nat)
    requires Transversals(n, levels) && 0 < k <= |levels| && Permutation(n, b) && j < |levels[k - 1].replist|
    ensures Permutation(n, Extend(n, levels, k, b, j))
  {
    hide *;
    RepPermutes(n, levels, k - 1, j, b);
  }

  ghost predicate ProductAfter(n: nat, levels: seq<Level>, k: nat, b: Perm, q: Perm, e: Perm)
    requires k <= |levels|
  {
    IsProduct(n, levels, k, e) && Permutation(n, e) && q == Then(b, e)
  }

  lemma ExtendProduct(n: nat, levels: seq<Level>, k: nat, b: Perm, j: nat, q: Perm, e: Perm)
    returns (r: Perm, c: Perm)
    requires Transversals(n, levels) && 0 < k <= |levels| && Permutation(n, b) && j < |levels[k - 1].replist|
    requires ProductAfter(n, levels, k - 1, Extend(n, levels, k, b, j), q, e)
    ensures r == RepPerm(n, levels[k - 1].replist[j]) && Permutation(n, r) && c == Then(r, e)
    ensures Permutation(n, c) && ProductAfter(n, levels, k, b, q, c)
  {
    hide *;
    r := RepPerm(n, levels[k - 1].replist[j]);
    c := Then(r, e);
    RepPermutes(n, levels, k - 1, j, b);
    AfterParts(n, levels, k - 1, Extend(n, levels, k, b, j), q, e);
    ThenAssociates(n, b, r, e);
    ProductMade(n, levels, k, j, e);
    AfterMade(n, levels, k, b, q, c);
  }

  lemma AfterParts(n: nat, levels: seq<Level>, k: nat, b: Perm, q: Perm, e: Perm)
    requires k <= |levels| && ProductAfter(n, levels, k, b, q, e)
    ensures IsProduct(n, levels, k, e) && Permutation(n, e) && q == Then(b, e)
  {
  }

  lemma AfterMade(n: nat, levels: seq<Level>, k: nat, b: Perm, q: Perm, e: Perm)
    requires k <= |levels| && IsProduct(n, levels, k, e) && Permutation(n, e) && q == Then(b, e)
    ensures ProductAfter(n, levels, k, b, q, e)
  {
  }

  lemma ProductMade(n: nat, levels: seq<Level>, k: nat, j: nat, e: Perm)
    requires 0 < k <= |levels| && j < |levels[k - 1].replist| && IsProduct(n, levels, k - 1, e) && Permutation(n, e)
    requires Permutation(n, RepPerm(n, levels[k - 1].replist[j]))
    ensures IsProduct(n, levels, k, Then(RepPerm(n, levels[k - 1].replist[j]), e))
  {
    hide RepPerm, Permutation;
    assert LastFactor(n, levels, k, Then(RepPerm(n, levels[k - 1].replist[j]), e), j, e);
  }

  // Whatever is listed is b followed by a product.
  lemma {:induction false} ListedIsProduct(n: nat, levels: seq<Level>, k: nat, b: Perm, q: Perm) returns (e: Perm)
    requires Transversals(n, levels) && k <= |levels| && Permutation(n, b) && q in Elements(n, levels, k, b)
    ensures ProductAfter(n, levels, k, b, q, e)
    decreases k, 0
  {
    hide *;
    if k == 0 {
      e := Id(n);
      OnlyItself(n, levels, b);
      ThenId(n, b);
      AfterMade(n, levels, 0, b, q, e);
    } else {
      AllBlocks(n, levels, k, b);
      e := ListedUpToIsProduct(n, levels, k, b, |levels[k - 1].replist|, q);
    }
  }

  lemma OnlyItself(n: nat, levels: seq<Level>, b: Perm)
    ensures Elements(n, levels, 0, b) == [b] && IsProduct(n, levels, 0, Id(n))
  {
  }

  lemma {:induction false} ListedUpToIsProduct(n: nat, levels: seq<Level>, k: nat, b: Perm, j: nat, q: Perm)
    returns (e: Perm)
    requires Transversals(n, levels) && 0 < k <= |levels| && Permutation(n, b) && j <= |levels[k - 1].replist|
    requires q in ElementsUpTo(n, levels, k, b, j)
    ensures ProductAfter(n, levels, k, b, q, e)
    decreases k - 1, j + 1
  {
    hide *;
    NoBlocks(n, levels, k, b);
    if j > 0 {
      UpToUnfold(n, levels, k, b, j);
      if q in ElementsUpTo(n, levels, k, b, j - 1) {
        e := ListedUpToIsProduct(n, levels, k, b, j - 1, q);
      } else {
        ExtendPermutes(n, levels, k, b, j - 1);
        var f := ListedIsProduct(n, levels, k - 1, Extend(n, levels, k, b, j - 1), q);
        var r: Perm;
        r, e := ExtendProduct(n, levels, k, b, j - 1, q, f);
      }
    }
  }

  // Every product is listed.
  lemma {:induction false} ProductIsListed(n: nat, levels: seq<Level>, k: nat, b: Perm, e: Perm)
    requires Transversals(n, levels) && k <= |levels| && Permutation(n, b)
    requires IsProduct(n, levels, k, e) && Permutation(n, e)
    ensures Then(b, e) in Elements(n, levels, k, b)
    decreases k
  {
    hide *;
    if k == 0 {
      NoFactor(n, levels, e);
      OnlyItself(n, levels, b);
      ThenId(n, b);
    } else {
      var j, f := LastProduct(n, levels, k, e);
      LastParts(n, levels, k, e, j, f);
      ExtendPermutes(n, levels, k, b, j);
      ProductIsListed(n, levels, k - 1, Extend(n, levels, k, b, j), f);
      ExtendThen(n, levels, k, b, j, f);
      BlockListed(n, levels, k, b, j, |levels[k - 1].replist|, Then(b, e));
      AllBlocks(n, levels, k, b);
    }
  }

  lemma LastParts(n: nat, levels: seq<Level>, k: nat, q: Perm, j: nat, e: Perm)
    requires 0 < k <= |levels| && LastFactor(n, levels, k, q, j, e)
    ensures j < |levels[k - 1].replist| && IsProduct(n, levels, k - 1, e) && Permutation(n, e)
    ensures q == Then(RepPerm(n, levels[k - 1].replist[j]), e)
  {
  }

  lemma ExtendThen(n: nat, levels: seq<Level>, k: nat, b: Perm, j: nat, f: Perm)
    requires Transversals(n, levels) && 0 < k <= |levels| && Permutation(n, b) && Permutation(n, f)
    requires j < |levels[k - 1].replist|
    ensures Then(Extend(n, levels, k, b, j), f) == Then(b, Then(RepPerm(n, levels[k - 1].replist[j]), f))
  {
    hide *;
    RepPermutes(n, levels, k - 1, j, b);
    ThenAssociates(n, b, RepPerm(n, levels[k - 1].replist[j]), f);
  }

  lemma AllBlocks(n: nat, levels: seq<Level>, k: nat, b: Perm)
    requires 0 < k <= |levels|
    ensures Elements(n, levels, k, b) == ElementsUpTo(n, levels, k, b, |levels[k - 1].replist|)
  {
  }

  lemma {:induction false} BlockListed(n: nat, levels: seq<Level>, k: nat, b: Perm, j: nat, hi: nat, q: Perm)
    requires 0 < k <= |levels| && j < hi <= |levels[k - 1].replist|
    requires q in Elements(n, levels, k - 1, Extend(n, levels, k, b, j))
    ensures q in ElementsUpTo(n, levels, k, b, hi)
    decreases hi
  {
    hide Extend, Elements;
    if j < hi - 1 { BlockListed(n, levels, k, b, j, hi - 1, q); }
  }

  // An element listed in the blocks before j is not listed in block j.
  lemma {:induction false} BlocksApart(n: nat, levels: seq<Level>, k: nat, b: Perm, hi: nat, j: nat, q: Perm)
    requires StabiliserChain(n, levels) && Transversals(n, levels) && 0 < k <= |levels| && Permutation(n, b)
    requires hi <= j < |levels[k - 1].replist|
    requires q in Elements(n, levels, k - 1, Extend(n, levels, k, b, j))
    ensures q !in ElementsUpTo(n, levels, k, b, hi)
    decreases hi
  {
    hide *;
    if hi == 0 {
      NoBlocks(n, levels, k, b);
    } else {
      UpToUnfold(n, levels, k, b, hi);
      BlocksApart(n, levels, k, b, hi - 1, j, q);
      if q in Elements(n, levels, k - 1, Extend(n, levels, k, b, hi - 1)) {
        TwoBlocksApart(n, levels, k, b, hi - 1, j, q);
      }
    }
  }

  lemma NoBlocks(n: nat, levels: seq<Level>, k: nat, b: Perm)
    requires 0 < k <= |levels|
    ensures ElementsUpTo(n, levels, k, b, 0) == []
  {
  }

  lemma UpToUnfold(n: nat, levels: seq<Level>, k: nat, b: Perm, j: nat)
    requires 0 < k <= |levels| && 0 < j <= |levels[k - 1].replist|
    ensures ElementsUpTo(n, levels, k, b, j)
         == ElementsUpTo(n, levels, k, b, j - 1) + Elements(n, levels, k - 1, Extend(n, levels, k, b, j - 1))
  {
  }

  lemma TwoBlocksApart(n: nat, levels: seq<Level>, k: nat, b: Perm, i: nat, j: nat, q: Perm)
    requires StabiliserChain(n, levels) && Transversals(n, levels) && 0 < k <= |levels| && Permutation(n, b)
    requires i < |levels[k - 1].replist| && j < |levels[k - 1].replist|
    requires q in Elements(n, levels, k - 1, Extend(n, levels, k, b, i))
    requires q in Elements(n, levels, k - 1, Extend(n, levels, k, b, j))
    ensures i == j
  {
    hide *;
    ExtendPermutes(n, levels, k, b, i);
    ExtendPermutes(n, levels, k, b, j);
    var e := ListedIsProduct(n, levels, k - 1, Extend(n, levels, k, b, i), q);
    var f := ListedIsProduct(n, levels, k - 1, Extend(n, levels, k, b, j), q);
    AfterParts(n, levels, k - 1, Extend(n, levels, k, b, i), q, e);
    AfterParts(n, levels, k - 1, Extend(n, levels, k, b, j), q, f);
    var r, c := ExtendProduct(n, levels, k, b, i, q, e);
    var s, d := ExtendProduct(n, levels, k, b, j, q, f);
    AfterParts(n, levels, k, b, q, c);
    AfterParts(n, levels, k, b, q, d);
    LevelFacts(n, levels, k - 1, i);
    LevelFacts(n, levels, k - 1, j);
    CancelLeft(n, b, c, d);
    ChainAt(n, levels, k - 1);
    FactorsUnique(n, levels, k - 1, r, e, s, f);
    ImagesApart(n, levels, k - 1, i, j);
  }

  lemma ImagesApart(n: nat, levels: seq<Level>, k: nat, i: nat, j: nat)
    requires Transversals(n, levels) && k < |levels| && i < |levels[k].replist| && j < |levels[k].replist|
    requires levels[k].replist[i].image == levels[k].replist[j].image
    ensures i == j
  {
    assert Transversal(n, levels[k]);
  }

  lemma {:induction false} ElementsDistinct(n: nat, levels: seq<Level>, k: nat, b: Perm)
    requires StabiliserChain(n, levels) && Transversals(n, levels) && k <= |levels| && Permutation(n, b)
    ensures Distinct(Elements(n, levels, k, b))
    decreases k, 0
  {
    hide *;
    if k == 0 {
      OnlyItself(n, levels, b);
      OneAlone(b);
    } else {
      AllBlocks(n, levels, k, b);
      UpToDistinct(n, levels, k, b, |levels[k - 1].replist|);
    }
  }

  lemma {:induction false} UpToDistinct(n: nat, levels: seq<Level>, k: nat, b: Perm, j: nat)
    requires StabiliserChain(n, levels) && Transversals(n, levels) && 0 < k <= |levels| && Permutation(n, b)
    requires j <= |levels[k - 1].replist|
    ensures Distinct(ElementsUpTo(n, levels, k, b, j))
    decreases k - 1, j + 1
  {
    hide *;
    if j == 0 {
      NoBlocks(n, levels, k, b);
      NothingRepeats<Perm>();
    } else {
      UpToUnfold(n, levels, k, b, j);
      UpToDistinct(n, levels, k, b, j - 1);
      ExtendPermutes(n, levels, k, b, j - 1);
      var head, block := ElementsUpTo(n, levels, k, b, j - 1),
        Elements(n, levels, k - 1, Extend(n, levels, k, b, j - 1));
      ElementsDistinct(n, levels, k - 1, Extend(n, levels, k, b, j - 1));
      forall q | q in block ensures q !in head {
        BlocksApart(n, levels, k, b, j - 1, j - 1, q);
      }
      DistinctConcat(head, block);
    }
  }

  lemma DistinctConcat<T>(xs: seq<T>, ys: seq<T>)
    requires Distinct(xs) && Distinct(ys) && forall y :: y in ys ==> y !in xs
    ensures Distinct(xs + ys)
  {
    var all := xs + ys;
    forall i, j | 0 <= i < j < |all| ensures all[i] != all[j] {
      if i < |xs| <= j { assert all[i] in xs && all[j] in ys; }
    }
  }

  lemma OneAlone<T>(x: T)
    ensures Distinct([x])
  {
  }

  lemma NothingRepeats<T>()
    ensures Distinct<T>([])
  {
  }

  lemma {:induction false} FirstIs(n: nat, levels: seq<Level>, k: nat, b: Perm)
    requires Transversals(n, levels) && k <= |levels|
    ensures |Elements(n, levels, k, b)| > 0 && Elements(n, levels, k, b)[0] == b
    decreases k, 0
  {
    if k > 0 {
      assert Transversal(n, levels[k - 1]);
      FirstUpTo(n, levels, k, b, |levels[k - 1].replist|);
    }
  }

  lemma {:induction false} FirstUpTo(n: nat, levels: seq<Level>, k: nat, b: Perm, j: nat)
    requires Transversals(n, levels) && 0 < k <= |levels| && 0 < j <= |levels[k - 1].replist|
    ensures |ElementsUpTo(n, levels, k, b, j)| > 0 && ElementsUpTo(n, levels, k, b, j)[0] == b
    decreases k - 1, j + 1
  {
    hide *;
    UpToUnfold(n, levels, k, b, j);
    if j == 1 {
      NoBlocks(n, levels, k, b);
      FirstExtend(n, levels, k, b);
      FirstIs(n, levels, k - 1, b);
    } else {
      FirstUpTo(n, levels, k, b, j - 1);
    }
  }

  lemma FirstExtend(n: nat, levels: seq<Level>, k: nat, b: Perm)
    requires Transversals(n, levels) && 0 < k <= |levels| && 0 < |levels[k - 1].replist|
    ensures Extend(n, levels, k, b, 0) == b
  {
    assert Transversal(n, levels[k - 1]);
    assert Then(b, Id(n)) == b;
  }

  // ----- the main theorem -----

  ghost function OrbitProduct(levels: seq<Level>, k: nat): nat
    requires k <= |levels|
  {
    if k == 0 then 1 else levels[k - 1].orbitsize * OrbitProduct(levels, k - 1)
  }

  lemma {:induction false} ListLength(n: nat, levels: seq<Level>, k: nat, b: Perm)
    requires Transversals(n, levels) && k <= |levels|
    ensures |Elements(n, levels, k, b)| == OrbitProduct(levels, k)
    decreases k, 0
  {
    if k > 0 {
      UpToLength(n, levels, k, b, |levels[k - 1].replist|);
      assert Transversal(n, levels[k - 1]);
    }
  }

  lemma {:induction false} UpToLength(n: nat, levels: seq<Level>, k: nat, b: Perm, j: nat)
    requires Transversals(n, levels) && 0 < k <= |levels| && j <= |levels[k - 1].replist|
    ensures |ElementsUpTo(n, levels, k, b, j)| == j * OrbitProduct(levels, k - 1)
    decreases k - 1, j + 1
  {
    hide *;
    if j == 0 {
      NoBlocks(n, levels, k, b);
    } else {
      UpToUnfold(n, levels, k, b, j);
      UpToLength(n, levels, k, b, j - 1);
      ListLength(n, levels, k - 1, Extend(n, levels, k, b, j - 1));
      var m := OrbitProduct(levels, k - 1);
      assert (j - 1) * m + m == j * m;
    }
  }

  // ----- the order -----

  // c moves every point as b does and then as r does.
  ghost predicate Follows(n: nat, b: Perm, r: Perm, c: Perm) {
    && |b| == |r| == |c| == n
    && forall x :: 0 <= x < n ==> b[x] < n && c[x] == r[b[x]]
  }

  // The elements come in blocks, one for each representative of the last level. In the block of
  // representative j every element begins with b followed by that representative.
  lemma ListOrder(n: nat, levels: seq<Level>, k: nat, b: Perm, j: nat, c: Perm, i: nat)
    requires Transversals(n, levels) && 0 < k <= |levels| && Permutation(n, b)
    requires j < |levels[k - 1].replist| && i < OrbitProduct(levels, k - 1)
    requires Follows(n, b, RepPerm(n, levels[k - 1].replist[j]), c)
    ensures Elements(n, levels, 0, b) == [b]
    ensures var size := OrbitProduct(levels, k - 1);
      && |Elements(n, levels, k - 1, c)| == size && Row(j, size) + i < |Elements(n, levels, k, b)|
      && Elements(n, levels, k, b)[Row(j, size) + i] == Elements(n, levels, k - 1, c)[i]
  {
    hide *;
    var r := RepPerm(n, levels[k - 1].replist[j]);
    OnlyItself(n, levels, b);
    RepPermutes(n, levels, k - 1, j, b);
    FollowsThen(n, b, r, c);
    ListLength(n, levels, k - 1, c);
    AllBlocks(n, levels, k, b);
    UpToAt(n, levels, k, b, |levels[k - 1].replist|, j, i);
  }

  lemma FollowsThen(n: nat, b: Perm, r: Perm, c: Perm)
    requires Follows(n, b, r, c)
    ensures c == Then(b, r)
  {
  }

  ghost function Row(j: nat, size: nat): nat {
    j * size
  }

  lemma RowLess(j: nat, hi: nat, size: nat)
    requires j < hi
    ensures Row(j, size) + size <= Row(hi, size) && Row(hi - 1, size) + size == Row(hi, size)
  {
    assert (hi - 1 - j) * size >= 0;
    assert (hi - 1) * size == j * size + (hi - 1 - j) * size;
  }

  lemma {:induction false} UpToAt(n: nat, levels: seq<Level>, k: nat, b: Perm, hi: nat, j: nat, i: nat)
    requires Transversals(n, levels) && 0 < k <= |levels| && hi <= |levels[k - 1].replist| && j < hi
    requires i < OrbitProduct(levels, k - 1)
    ensures var size := OrbitProduct(levels, k - 1);
      && Row(j, size) + i < |ElementsUpTo(n, levels, k, b, hi)|
      && i < |Elements(n, levels, k - 1, Extend(n, levels, k, b, j))|
      && ElementsUpTo(n, levels, k, b, hi)[Row(j, size) + i]
         == Elements(n, levels, k - 1, Extend(n, levels, k, b, j))[i]
    decreases hi
  {
    hide *;
    var size := OrbitProduct(levels, k - 1);
    UpToUnfold(n, levels, k, b, hi);
    UpToRow(n, levels, k, b, hi - 1);
    ListLength(n, levels, k - 1, Extend(n, levels, k, b, j));
    if j < hi - 1 {
      RowLess(j, hi - 1, size);
      UpToAt(n, levels, k, b, hi - 1, j, i);
    }
  }

  lemma UpToRow(n: nat, levels: seq<Level>, k: nat, b: Perm, j: nat)
    requires Transversals(n, levels) && 0 < k <= |levels| && j <= |levels[k - 1].replist|
    ensures |ElementsUpTo(n, levels, k, b, j)| == Row(j, OrbitProduct(levels, k - 1))
  {
    UpToLength(n, levels, k, b, j);
  }

  // made holds every element of the generated group exactly once, the identity first, so the
  // order of the group is the product of the orbit sizes.
  ghost predicate ListsGroup(n: nat, levels: seq<Level>, made: seq<Perm>) {
    && Distinct(made) && |made| == OrbitProduct(levels, |levels|) && |made| > 0 && made[0] == Id(n)
    && forall q :: q in made <==> InGroup(GensFrom(levels, 0), n, q)
  }

  lemma ListIsGroup(n: nat, levels: seq<Level>)
    requires StabiliserChain(n, levels) && Transversals(n, levels)
    ensures ListsGroup(n, levels, Elements(n, levels, |levels|, Id(n)))
  {
    hide Elements, StabiliserChain, Transversals, InGroup, Permutation;
    var d := |levels|;
    var all := Elements(n, levels, d, Id(n));
    IdPermutes(n);
    ElementsDistinct(n, levels, d, Id(n));
    FirstIs(n, levels, d, Id(n));
    ListLength(n, levels, d, Id(n));
    forall q ensures q in all <==> InGroup(GensFrom(levels, 0), n, q) {
      hide *;
      if q in all {
        var e := ListedIsProduct(n, levels, d, Id(n), q);
        ListedInGroup(n, levels, q, e);
      }
      if InGroup(GensFrom(levels, 0), n, q) {
        var e := GroupIsProduct(n, levels, q);
        ProductIsListed(n, levels, d, Id(n), e);
        ThenId(n, e);
      }
    }
  }

  lemma ListedInGroup(n: nat, levels: seq<Level>, q: Perm, e: Perm)
    requires StabiliserChain(n, levels) && Transversals(n, levels) && Permutation(n, Id(n))
    requires ProductAfter(n, levels, |levels|, Id(n), q, e)
    ensures InGroup(GensFrom(levels, 0), n, q)
  {
    ThenId(n, e);
    if levels == [] {
      IdInGroup([], n);
    } else {
      ProductsInGroup(n, levels, |levels|, e);
    }
  }

  lemma GroupIsProduct(n: nat, levels: seq<Level>, q: Perm) returns (e: Perm)
    requires StabiliserChain(n, levels) && Transversals(n, levels) && InGroup(GensFrom(levels, 0), n, q)
    ensures IsProduct(n, levels, |levels|, e) && Permutation(n, e) && e == q
  {
    if levels == [] {
      TrivialGroup(n, q);
      e := q;
    } else {
      var u: Perm;
      u, e := Factorises(n, levels, |levels|, q);
      TrivialGroup(n, u);
      ThenId(n, e);
    }
  }
}
