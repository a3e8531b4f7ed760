// Dividing one cell in place by a value kept for every vertex: a three-way partition, a sort for
// what is left over, and the bookkeeping of cell starts and of the queue of active cells.
module SparseCells {
  import opened Sums
  import opened Sorting
  import opened GroupOrbits
  import opened Refinement
  import opened Nests
  import opened NestRefinement
  import opened BucketSort
  import opened NestCost
  import opened QueueOrder
  import opened RefineInPlace

  // ----- the bookkeeping -----

  // n for a vertex alone in its cell, otherwise the start of the cell.
  ghost function CellMark(n: nat, ptn: seq<int>, level: int, i: nat): nat
    requires i < |ptn|
  {
    if IsStart(ptn, level, i) && ptn[i] <= level then n else StartOf(ptn, level, i)
  }

  ghost predicate CellStarts(n: nat, lab: seq<nat>, ptn: seq<int>, level: int, cs: seq<nat>) {
    && |lab| == |ptn| == |cs| == n
    && forall i :: 0 <= i < n ==> lab[i] < n && cs[lab[i]] == CellMark(n, ptn, level, i)
  }

  // The first nactive entries list the active cells, each once.
  ghost predicate QueueOk(n: nat, act: seq<nat>, nactive: nat, active: set<nat>) {
    && nactive <= |act| == n && Distinct(act[..nactive])
    && (forall x :: x in act[..nactive] <==> x in active)
    && (forall x :: x in active ==> x < n)
  }

  lemma QueueRoom(n: nat, act: seq<nat>, nactive: nat, active: set<nat>, x: nat)
    requires QueueOk(n, act, nactive, active) && x !in active && x < n
    ensures nactive < n
  {
    forall i | 0 <= i < nactive ensures act[..nactive][i] < n {
      assert act[..nactive][i] in act[..nactive];
    }
    DistinctMissing(act[..nactive], n, x);
  }

  lemma QueuePush(n: nat, act: seq<nat>, nactive: nat, active: set<nat>, x: nat)
    requires QueueOk(n, act, nactive, active) && x !in active && x < n && nactive < n
    ensures QueueOk(n, act[nactive := x], nactive + 1, active + {x})
  {
    assert act[nactive := x][..nactive + 1] == act[..nactive] + [x];
  }

  lemma QueueReplace(n: nat, act: seq<nat>, nactive: nat, active: set<nat>, i: nat, x: nat)
    requires QueueOk(n, act, nactive, active) && i < nactive && x !in active && x < n
    ensures act[i] in active && QueueOk(n, act[i := x], nactive, active - {act[i]} + {x})
  {
    var q, r := act[..nactive], act[i := x][..nactive];
    assert q[i] == act[i];
    assert r == q[i := x];
    forall y ensures y in r <==> (y in q && y != q[i]) || y == x {
      if y in q && y != q[i] {
        var k :| 0 <= k < |q| && q[k] == y;
        assert r[k] == y;
      }
      if y == x { assert r[i] == x; }
      if y in r && y != x {
        var k :| 0 <= k < |r| && r[k] == y;
        assert q[k] == y;
      }
    }
  }

  // Entry i leaves the queue, its place taken by the last one.
  lemma QueueTake(n: nat, act: seq<nat>, nactive: nat, active: set<nat>, i: nat)
    requires QueueOk(n, act, nactive, active) && i < nactive
    ensures act[i] in active && QueueOk(n, act[i := act[nactive - 1]], nactive - 1, active - {act[i]})
  {
    var q, r := act[..nactive], act[i := act[nactive - 1]][..nactive - 1];
    assert q[i] == act[i] && q[nactive - 1] == act[nactive - 1];
    forall k, l | 0 <= k < l < |r| ensures r[k] != r[l] {
      assert r[k] == if k == i then q[nactive - 1] else q[k];
      assert r[l] == if l == i then q[nactive - 1] else q[l];
    }
    forall y ensures y in r <==> y in q && y != q[i] {
      if y in q && y != q[i] {
        var k :| 0 <= k < |q| && q[k] == y;
        if k == nactive - 1 { assert r[i] == y; } else { assert r[k] == y; }
      }
      if y in r {
        var k :| 0 <= k < |r| && r[k] == y;
        assert r[k] == if k == i then q[nactive - 1] else q[k];
      }
    }
  }

  // ----- the three-way partition -----

  ghost function KeyOf(lab: seq<nat>, hits: seq<nat>): (key: seq<int>)
    requires forall i :: 0 <= i < |lab| ==> lab[i] < |hits|
    ensures |key| == |lab|
  {
    seq(|lab|, i requires 0 <= i < |lab| => hits[lab[i]])
  }

  // Values: w1 in v1..v2-1, w2 in v2..v3-1, and more than w2 in v3..j-1.
  ghost predicate ThreeWays(lab: seq<nat>, hits: seq<nat>, v1: nat, v2: nat, v3: nat, j: nat, w1: nat, w2: nat) {
    && v1 < v2 <= v3 <= j <= |lab| && w1 < w2
    && (forall i :: v1 <= i < j ==> lab[i] < |hits|)
    && (forall i :: v1 <= i < v2 ==> hits[lab[i]] == w1)
    && (forall i :: v2 <= i < v3 ==> hits[lab[i]] == w2)
    && (forall i :: v3 <= i < j ==> hits[lab[i]] > w2)
  }

  lemma Rotated(n: nat, lab: seq<nat>, a: nat, b: nat, c: nat, lab2: seq<nat>)
    requires Permutation(n, lab) && a < n && b < n && c < n
    requires lab2 == lab[a := lab[b]][b := lab[c]][c := lab[a]]
    requires a == b || b == c || a != c
    ensures Permutation(n, lab2)
  {
    SwapPermutes(n, lab, a, b);
    var mid := lab[a := lab[b]][b := lab[a]];
    SwapPermutes(n, mid, b, c);
    assert lab2 == mid[b := mid[c]][c := mid[b]];
  }

  lemma WaysBounds(n: nat, lab: seq<nat>, hits: seq<nat>, v1: nat, v2: nat, v3: nat, j: nat, w1: nat, w2: nat)
    requires ThreeWays(lab, hits, v1, v2, v3, j, w1, w2) && Permutation(n, lab) && |hits| == n && j < n
    ensures v1 < v2 <= v3 <= j < |lab| && lab[j] < |hits| && w1 < w2
  {
  }

  // Where the vertex at position j belongs.
  lemma WaysNext(lab: seq<nat>, hits: seq<nat>, v1: nat, v2: nat, v3: nat, j: nat, w1: nat, w2: nat)
    requires ThreeWays(lab, hits, v1, v2, v3, j, w1, w2) && j < |lab| && lab[j] < |hits|
    ensures var lj, w3 := lab[j], hits[lab[j]];
      && (w3 == w1 ==> ThreeWays(lab[j := lab[v3]][v3 := lab[v2]][v2 := lj], hits, v1, v2 + 1, v3 + 1, j + 1, w1, w2))
      && (w3 == w2 ==> ThreeWays(lab[j := lab[v3]][v3 := lj], hits, v1, v2, v3 + 1, j + 1, w1, w2))
      && (w3 < w1 ==> ThreeWays(lab[j := lab[v2]][v2 := lab[v1]][v1 := lj], hits, v1, v1 + 1, v2 + 1, j + 1, w3, w1))
      && (w1 < w3 < w2 ==> ThreeWays(lab[j := lab[v2]][v2 := lj], hits, v1, v2, v2 + 1, j + 1, w1, w3))
      && (w2 < w3 ==> ThreeWays(lab, hits, v1, v2, v3, j + 1, w1, w2))
  {
  }

  // The entry at c moves to b, that at b to a, and that at a to c.
  method Rotate(lab: array<nat>, a: nat, b: nat, c: nat, ghost lo: nat, ghost hi: nat)
    requires Permutation(lab.Length, lab[..]) && lo <= a <= hi < lab.Length && lo <= b <= hi && lo <= c <= hi
    requires a == b || b == c || a != c
    modifies lab
    ensures Permutation(lab.Length, lab[..]) && SameOutside(old(lab[..]), lab[..], lo, hi)
    ensures lab[..] == old(lab[..])[a := old(lab[b])][b := old(lab[c])][c := old(lab[a])]
  {
    ghost var lab0 := lab[..];
    Rotated(lab.Length, lab0, a, b, c, lab0[a := lab0[b]][b := lab0[c]][c := lab0[a]]);
    hide Permutation;
    var la := lab[a];
    lab[a] := lab[b];
    lab[b] := lab[c];
    lab[c] := la;
    assert lab[..] == lab0[a := lab0[b]][b := lab0[c]][c := lab0[a]];
  }

  // The entries at a and b change places.
  method Swap(lab: array<nat>, a: nat, b: nat, ghost lo: nat, ghost hi: nat)
    requires Permutation(lab.Length, lab[..]) && lo <= a <= hi < lab.Length && lo <= b <= hi
    modifies lab
    ensures Permutation(lab.Length, lab[..]) && SameOutside(old(lab[..]), lab[..], lo, hi)
    ensures lab[..] == old(lab[..])[a := old(lab[b])][b := old(lab[a])]
  {
    ghost var lab0 := lab[..];
    SwapPermutes(lab.Length, lab0, a, b);
    hide Permutation;
    var la := lab[a];
    lab[a] := lab[b];
    lab[b] := la;
    assert lab[..] == lab0[a := lab0[b]][b := lab0[a]];
  }

  // One more position, whose value is w3, is taken in.
  method PlaceNext(lab: array<nat>, hits: array<nat>, v1: nat, v2_0: nat, v3_0: nat, j: nat, w1_0: nat, w2_0: nat)
    returns (v2: nat, v3: nat, w1: nat, w2: nat)
    requires lab != hits && lab.Length == hits.Length && Permutation(lab.Length, lab[..]) && j < lab.Length
    requires ThreeWays(lab[..], hits[..], v1, v2_0, v3_0, j, w1_0, w2_0)
    modifies lab
    ensures Permutation(lab.Length, lab[..]) && SameOutside(old(lab[..]), lab[..], v1, j)
    ensures ThreeWays(lab[..], hits[..], v1, v2, v3, j + 1, w1, w2)
    ensures (v2_0 < v3_0 || (old(hits[lab[j]]) != w1_0 && old(hits[lab[j]]) < w2_0)) ==> v2 < v3
  {
    v2, v3, w1, w2 := v2_0, v3_0, w1_0, w2_0;
    WaysBounds(lab.Length, lab[..], hits[..], v1, v2, v3, j, w1, w2);
    WaysNext(lab[..], hits[..], v1, v2, v3, j, w1, w2);
    OutsideItself(lab[..], v1, j);
    hide *;
    var w3 := hits[lab[j]];
    if w3 == w1 {
      Rotate(lab, j, v3, v2, v1, j);
      v2 := v2 + 1;
      v3 := v3 + 1;
    } else if w3 == w2 {
      Swap(lab, j, v3, v1, j);
      v3 := v3 + 1;
    } else if w3 < w1 {
      Rotate(lab, j, v2, v1, v1, j);
      v3 := v2 + 1;
      v2 := v1 + 1;
      w2 := w1;
      w1 := w3;
    } else if w3 < w2 {
      Swap(lab, j, v2, v1, j);
      v3 := v2 + 1;
      w2 := w3;
    }
  }

  lemma OutsideItself(lab: seq<nat>, lo: nat, hi: nat)
    ensures SameOutside(lab, lab, lo, hi)
  {
  }

  // The positions from v1 on that have one value: either the whole cell, or up to v2 - 1.
  method ScanEqual(lab: array<nat>, ptn: array<int>, hits: array<nat>, level: int, v1: nat, ghost e: nat)
    returns (w1: nat, v2: nat)
    requires lab.Length == ptn.Length == hits.Length && CellAt(ptn[..], level, v1, e)
    requires forall i :: 0 <= i < lab.Length ==> lab[i] < hits.Length
    ensures v1 < v2 <= e + 1 && (forall i :: v1 <= i < v2 ==> hits[lab[i]] == w1)
    ensures v2 <= e ==> hits[lab[v2]] != w1
  {
    w1 := hits[lab[v1]];
    v2 := v1 + 1;
    while ptn[v2 - 1] > level && hits[lab[v2]] == w1
      invariant v1 < v2 <= e + 1 && forall i :: v1 <= i < v2 ==> hits[lab[i]] == w1
      decreases e - v2
    {
      v2 := v2 + 1;
    }
  }

  // Partition the rest of the cell, once position v20 is known to differ from w10.
  method Partition3(lab: array<nat>, ptn: array<int>, hits: array<nat>, level: int, v1: nat, v20: nat, w10: nat,
                    infinity: nat, ghost e: nat)
    returns (v2: nat, v3: nat, j: nat, ghost w1: nat, ghost w2: nat)
    requires lab != hits && lab.Length == ptn.Length == hits.Length && Permutation(lab.Length, lab[..])
    requires CellAt(ptn[..], level, v1, e) && v1 < v20 <= e && hits[lab[v20]] != w10
    requires (forall i :: v1 <= i < v20 ==> hits[lab[i]] == w10)
    requires forall i :: v1 <= i <= e ==> lab[i] < hits.Length && hits[lab[i]] < infinity
    modifies lab
    ensures Permutation(lab.Length, lab[..]) && SameOutside(old(lab[..]), lab[..], v1, e)
    ensures j == e + 1 && v2 < v3 && ThreeWays(lab[..], hits[..], v1, v2, v3, e + 1, w1, w2)
  {
    ghost var lab0 := lab[..];
    v2, v3, j := v20, v20, v20;
    var u1, u2 := w10, infinity;
    assert u1 < u2 by { assert hits[lab[v1]] < infinity; }
    while true
      invariant v20 <= j <= e && (j == v20 ==> v2 == v3 == j && u1 == w10 && u2 == infinity && lab[..] == lab0)
      invariant Permutation(lab.Length, lab[..]) && SameOutside(lab0, lab[..], v1, e)
      invariant ThreeWays(lab[..], hits[..], v1, v2, v3, j, u1, u2) && (j > v20 ==> v2 < v3)
      decreases e - j
    {
      ghost var was := lab[..];
      v2, v3, u1, u2 := PlaceNext(lab, hits, v1, v2, v3, j, u1, u2);
      OutsideChain(lab0, was, lab[..], v1, j, e);
      j := j + 1;
      if ptn[j - 1] <= level { break; }
    }
    w1, w2 := u1, u2;
  }

  lemma OutsideChain(a: seq<nat>, b: seq<nat>, c: seq<nat>, lo: nat, j: nat, e: nat)
    requires SameOutside(a, b, lo, e) && SameOutside(b, c, lo, j) && j <= e
    ensures SameOutside(a, c, lo, e)
  {
  }

  // ----- sorting what is left over -----

  function ValueOf(hits: seq<nat>, x: nat): nat {
    if x < |hits| then hits[x] else 0
  }

  function ByValue(hits: seq<nat>): (nat, nat) -> bool {
    (x: nat, y: nat) => ValueOf(hits, x) < ValueOf(hits, y) || (ValueOf(hits, x) == ValueOf(hits, y) && x <= y)
  }

  lemma ByValueOrder(hits: seq<nat>)
    ensures TotalOrder(ByValue(hits))
  {
  }

  // Rearranging a stretch of a list without repetition keeps it so.
  lemma StretchPermutes(n: nat, lab: seq<nat>, lab2: seq<nat>, lo: nat, hi: nat)
    requires Permutation(n, lab) && lo < hi <= n && SameOutside(lab, lab2, lo, hi - 1)
    requires |lab| == n && multiset(lab2[lo..hi]) == multiset(lab[lo..hi])
    ensures Permutation(n, lab2)
    ensures forall k :: lo <= k < hi ==> lab2[k] in lab[lo..hi]
  {
    hide *;
    OutsideLength(lab, lab2, lo, hi - 1);
    var q := StretchMatching(lab, lab2, lo, hi);
    var p: seq<nat> := seq(n, k requires 0 <= k < n => if lo <= k < hi then lo + q[k - lo] else k);
    StretchMoved(n, lab, lab2, lo, hi, q, p);
    ShiftedPermutes(n, lo, hi, q, p);
    MovedPermutes(n, p, lab, lab2);
    StretchMembers(lab, lab2, lo, hi);
  }

  lemma OutsideLength(lab: seq<nat>, lab2: seq<nat>, c1: nat, c2: nat)
    requires SameOutside(lab, lab2, c1, c2)
    ensures |lab2| == |lab|
  {
  }

  lemma StretchMatching(lab: seq<nat>, lab2: seq<nat>, lo: nat, hi: nat) returns (q: seq<nat>)
    requires lo <= hi <= |lab| == |lab2| && multiset(lab2[lo..hi]) == multiset(lab[lo..hi])
    ensures |q| == hi - lo && Permutation(hi - lo, q)
    ensures forall i :: 0 <= i < |q| ==> q[i] < |q| && lab2[lo..hi][q[i]] == lab[lo..hi][i]
  {
    q := Matching(lab[lo..hi], lab2[lo..hi]);
  }

  lemma StretchMoved(n: nat, lab: seq<nat>, lab2: seq<nat>, lo: nat, hi: nat, q: seq<nat>, p: seq<nat>)
    requires |lab| == |lab2| == |p| == n && lo < hi <= n && SameOutside(lab, lab2, lo, hi - 1) && |q| == hi - lo
    requires forall i :: 0 <= i < |q| ==> q[i] < |q| && lab2[lo..hi][q[i]] == lab[lo..hi][i]
    requires forall k :: 0 <= k < n ==> p[k] == if lo <= k < hi then lo + q[k - lo] else k
    ensures forall k :: 0 <= k < n ==> p[k] < n && lab2[p[k]] == lab[k]
  {
    forall k | 0 <= k < n ensures p[k] < n && lab2[p[k]] == lab[k] {
      if lo <= k < hi {
        assert lab[lo..hi][k - lo] == lab2[lo..hi][q[k - lo]];
      }
    }
  }

  lemma StretchMembers(lab: seq<nat>, lab2: seq<nat>, lo: nat, hi: nat)
    requires lo <= hi <= |lab| == |lab2| && multiset(lab2[lo..hi]) == multiset(lab[lo..hi])
    ensures forall k :: lo <= k < hi ==> lab2[k] in lab[lo..hi]
  {
    forall k | lo <= k < hi ensures lab2[k] in lab[lo..hi] {
      assert lab2[lo..hi][k - lo] in multiset(lab2[lo..hi]);
      assert lab2[k] in multiset(lab[lo..hi]);
    }
  }

  lemma ShiftedPermutes(n: nat, lo: nat, hi: nat, q: seq<nat>, p: seq<nat>)
    requires lo < hi <= n && Permutation(hi - lo, q) && |p| == n
    requires forall k :: 0 <= k < n ==> p[k] == if lo <= k < hi then lo + q[k - lo] else k
    ensures Permutation(n, p)
  {
    forall k, l | 0 <= k < l < n ensures p[k] != p[l] {
      if lo <= k < hi && lo <= l < hi { assert q[k - lo] != q[l - lo]; }
    }
  }

  // Sort positions lo..hi-1 by value.
  method SortIndirect(lab: array<nat>, hits: array<nat>, lo: nat, hi: nat)
    requires lab != hits && lab.Length == hits.Length && Permutation(lab.Length, lab[..]) && lo < hi <= lab.Length
    modifies lab
    ensures Permutation(lab.Length, lab[..]) && SameOutside(old(lab[..]), lab[..], lo, hi - 1)
    ensures forall k :: lo <= k < hi ==> lab[k] in old(lab[lo..hi])
    ensures forall i, k :: lo <= i < k < hi ==>
      lab[i] < hits.Length && lab[k] < hits.Length && hits[lab[i]] <= hits[lab[k]]
  {
    ghost var lab0 := lab[..];
    var sorted := Sort(ByValue(hits[..]), lab[lo..hi]);
    ByValueOrder(hits[..]);
    SortSorts(ByValue(hits[..]), lab[lo..hi]);
    assert |sorted| == |multiset(sorted)| == hi - lo;
    WriteBack(lab, sorted, lo, hi);
    hide Permutation, Sort;
    assert lab[..][lo..hi] == sorted && lab0[lo..hi] == old(lab[lo..hi]);
    StretchPermutes(lab.Length, lab0, lab[..], lo, hi);
    SortedValues(hits[..], sorted, lab[..], lo, hi);
  }

  method WriteBack(lab: array<nat>, sorted: seq<nat>, lo: nat, hi: nat)
    requires lo < hi <= lab.Length && |sorted| == hi - lo
    modifies lab
    ensures SameOutside(old(lab[..]), lab[..], lo, hi - 1) && lab[lo..hi] == sorted
  {
    for i := lo to hi
      invariant SameOutside(old(lab[..]), lab[..], lo, hi - 1)
      invariant forall k :: lo <= k < i ==> lab[k] == sorted[k - lo]
    {
      lab[i] := sorted[i - lo];
    }
  }

  lemma SortedValues(hits: seq<nat>, sorted: seq<nat>, lab: seq<nat>, lo: nat, hi: nat)
    requires SortedBy(ByValue(hits), sorted) && lo < hi <= |lab| == |hits| && lab[lo..hi] == sorted
    requires Permutation(|lab|, lab)
    ensures forall i, k :: lo <= i < k < hi ==> lab[i] < |hits| && lab[k] < |hits| && hits[lab[i]] <= hits[lab[k]]
  {
    forall i, k | lo <= i < k < hi ensures hits[lab[i]] <= hits[lab[k]] {
      assert lab[i] == sorted[i - lo] && lab[k] == sorted[k - lo];
      assert ByValue(hits)(sorted[i - lo], sorted[k - lo]);
    }
  }

  // ----- cell starts during the division -----

  // Blocks before position c1 have their marks, the rest of the cell has its old one.
  ghost predicate CsDone(n: nat, lab: seq<nat>, ptn0: seq<int>, ptn: seq<int>, level: int, cs: seq<nat>, lo: nat,
                         hi: nat, c1: nat) {
    && |lab| == |ptn0| == |ptn| == |cs| == n && lo <= c1 <= hi <= n
    && (forall i :: 0 <= i < n ==> lab[i] < n)
    && (forall i :: 0 <= i < n && (i < lo || hi <= i) ==> cs[lab[i]] == CellMark(n, ptn0, level, i))
    && (forall i :: lo <= i < c1 ==> cs[lab[i]] == CellMark(n, ptn, level, i))
    && (forall i :: c1 <= i < hi ==> cs[lab[i]] == lo)
  }

  lemma CsStart(n: nat, lab0: seq<nat>, lab: seq<nat>, ptn: seq<int>, level: int, cs: seq<nat>, lo: nat, e: nat)
    requires Permutation(n, lab0) && Permutation(n, lab) && SameOutside(lab0, lab, lo, e)
    requires CellStarts(n, lab0, ptn, level, cs) && CellAt(ptn, level, lo, e) && lo < e
    ensures CsDone(n, lab, ptn, ptn, level, cs, lo, e + 1, lo)
  {
    forall i: nat | lo <= i <= e ensures cs[lab[i]] == lo {
      var j := PermutationOnto(n, lab0, lab[i]);
      SameAt(n, lab0, lab, lo, e, i, j);
      InCell(ptn, level, lo, e, j);
      assert cs[lab0[j]] == CellMark(n, ptn, level, j);
    }
  }

  lemma SameAt(n: nat, lab0: seq<nat>, lab: seq<nat>, lo: nat, e: nat, i: nat, j: nat)
    requires Permutation(n, lab) && SameOutside(lab0, lab, lo, e) && |lab0| == n && lo <= i <= e < n && j < n
    requires lab0[j] == lab[i]
    ensures lo <= j <= e
  {
  }

  // The block from c1 to c2 - 1 gets its marks.
  lemma CsStep(n: nat, lab: seq<nat>, ptn0: seq<int>, ptn: seq<int>, ptn2: seq<int>, level: int, cs: seq<nat>,
               cs2: seq<nat>,
               lo: nat, hi: nat, c1: nat, c2: nat, news: set<nat>)
    requires CsDone(n, lab, ptn0, ptn, level, cs, lo, hi, c1) && Permutation(n, lab) && c1 < c2 <= hi
    requires Marked(ptn0, ptn, level, lo, hi, c1, news) && IsStart(ptn0, level, lo) && ptn0[hi - 1] <= level
    requires ptn2 == if c2 < hi then ptn[c2 - 1 := level] else ptn
    requires |cs2| == n && forall i :: 0 <= i < n ==>
      cs2[lab[i]] == if c1 <= i < c2 then (if c2 == c1 + 1 then n else c1) else cs[lab[i]]
    ensures CsDone(n, lab, ptn0, ptn2, level, cs2, lo, hi, c2)
  {
    assert IsStart(ptn, level, c1) by {
      if c1 > lo { assert c1 < hi; assert c1 in news || c1 == c1; }
    }
    forall i | lo <= i < c2 ensures cs2[lab[i]] == CellMark(n, ptn2, level, i) {
      if i < c1 {
        StartsAgree(ptn, ptn2, level, i);
        assert cs[lab[i]] == CellMark(n, ptn, level, i);
      } else {
        StartInBlock(ptn2, level, c1, i);
      }
    }
  }

  lemma CsEnd(n: nat, lab: seq<nat>, ptn0: seq<int>, ptn: seq<int>, level: int, cs: seq<nat>, lo: nat, e: nat)
    requires CsDone(n, lab, ptn0, ptn, level, cs, lo, e + 1, e + 1) && CellAt(ptn0, level, lo, e)
    requires forall k :: 0 <= k < n && (k < lo || e <= k) ==> ptn[k] == ptn0[k]
    ensures CellStarts(n, lab, ptn, level, cs)
  {
    forall i | 0 <= i < n ensures cs[lab[i]] == CellMark(n, ptn, level, i) {
      if i < lo || e < i {
        StartOutside(ptn0, ptn, level, lo, e, i);
        assert IsStart(ptn, level, i) <==> IsStart(ptn0, level, i) by { StartsAfter(ptn0, ptn, level, lo, e, i); }
      }
    }
  }

  // ----- dividing one cell -----

  // Positions lo..hi-1 of the cell are in order of value; blocks before c1 are marked.
  ghost predicate Dividing(n: nat, level: int, s: Part, lab: seq<nat>, hits: seq<nat>, ptn: seq<int>, cs: seq<nat>,
                           lo: nat, hi: nat, c1: nat, news: set<nat>) {
    && |hits| == n == |lab| && Permutation(n, lab) && lo + 1 < hi <= n
    && SameOutside(s.lab, lab, lo, hi - 1) && CellAt(s.ptn, level, lo, hi - 1)
    && Marked(s.ptn, ptn, level, lo, hi, c1, news)
    && EndsAtChanges(ptn, level, lo, hi, c1, KeyOf(lab, hits))
    && CsDone(n, lab, s.ptn, ptn, level, cs, lo, hi, c1)
    && (forall i, k :: lo <= i < k < hi ==> KeyOf(lab, hits)[i] <= KeyOf(lab, hits)[k])
  }

  // Positions c1..c2-1 have one value, and position c2, if it is in the cell, another.
  ghost predicate OneBlock(key: seq<int>, hi: nat, c1: nat, c2: nat) {
    && c1 < c2 <= hi <= |key|
    && (forall k :: c1 <= k < c2 ==> key[k] == key[c1])
    && (c2 < hi ==> key[c2] != key[c1])
  }

  ghost predicate MarksBlock(lab: seq<nat>, cs: seq<nat>, cs2: seq<nat>, n: nat, c1: nat, c2: nat) {
    && |cs2| == |cs| == n == |lab|
    && forall i :: 0 <= i < n ==>
        lab[i] < n && cs2[lab[i]] == if c1 <= i < c2 then (if c2 == c1 + 1 then n else c1) else cs[lab[i]]
  }

  lemma DividingStep(n: nat, level: int, s: Part, lab: seq<nat>, hits: seq<nat>, ptn: seq<int>, ptn2: seq<int>,
                     cs: seq<nat>,
                     cs2: seq<nat>, lo: nat, hi: nat, c1: nat, c2: nat, news: set<nat>)
    requires Dividing(n, level, s, lab, hits, ptn, cs, lo, hi, c1, news)
    requires OneBlock(KeyOf(lab, hits), hi, c1, c2) && MarksBlock(lab, cs, cs2, n, c1, c2)
    requires ptn2 == if c2 < hi then ptn[c2 - 1 := level] else ptn
    ensures Dividing(n, level, s, lab, hits, ptn2, cs2, lo, hi, c2, if c1 != lo then news + {c1} else news)
    ensures c1 !in news
  {
    var news2 := if c1 != lo then news + {c1} else news;
    MarkStep(s.ptn, ptn, ptn2, level, lo, hi, c1, c2, news, news2);
    ChangesStep(s.ptn, ptn, ptn2, level, lo, hi, c1, c2, news, KeyOf(lab, hits));
    CsStep(n, lab, s.ptn, ptn, ptn2, level, cs, cs2, lo, hi, c1, c2, news);
  }

  // The end of the block before position k + 1 is still to be marked.
  ghost function Pending(ptn: seq<int>, level: int, k: nat, hi: nat): (r: seq<int>)
    requires k < hi <= |ptn|
    ensures |r| == |ptn|
  {
    if k + 1 < hi then ptn[k := level] else ptn
  }

  // Mark the end of the last block and find the next one.
  method NextPiece(lab: array<nat>, ptn: array<int>, cs: array<nat>, hits: array<nat>, level: int, k0: nat, j: nat,
                   ghost s: Part, ghost lo: nat, ghost news: set<nat>)
    returns (k: nat, l: nat)
    requires lab.Length == ptn.Length == cs.Length == hits.Length && lab != cs && hits != cs && lo <= k0 < j - 1
    requires j <= lab.Length
    requires Dividing(lab.Length, level, s, lab[..], hits[..], Pending(ptn[..], level, k0, j), cs[..], lo, j, k0 + 1,
                      news)
    modifies ptn, cs
    ensures l == k0 + 1 && l <= k < j && l !in news
    ensures Dividing(lab.Length, level, s, lab[..], hits[..], Pending(ptn[..], level, k, j), cs[..], lo, j, k + 1,
                     news + {l})
    ensures NextBlock(Pending(old(ptn[..]), level, k0, j), Pending(ptn[..], level, k, j), level, l, k + 1)
  {
    hide *;
    ghost var ptn0, cs0 := ptn[..], cs[..];
    PendingIs(ptn0, level, k0, j);
    DividingPerm(lab.Length, level, s, lab[..], hits[..], Pending(ptn[..], level, k0, j), cs[..], lo, j, k0 + 1, news);
    ptn[k0] := level;
    l := k0 + 1;
    k := MarkPiece(lab, cs, hits, l, j);
    assert ptn[..] == ptn0[k0 := level];
    PendingIs(ptn[..], level, k, j);
    DividingStep(lab.Length, level, s, lab[..], hits[..], ptn0[k0 := level], Pending(ptn[..], level, k, j),
                 cs0, cs[..], lo, j, l, k + 1, news);
    DividingBlock(lab.Length, level, s, lab[..], hits[..], ptn0[k0 := level], cs0, lo, j, l, k + 1, news);
  }

  lemma DividingBlock(n: nat, level: int, s: Part, lab: seq<nat>, hits: seq<nat>, ptn: seq<int>, cs: seq<nat>,
                      lo: nat, hi: nat, c1: nat, c2: nat, news: set<nat>)
    requires Dividing(n, level, s, lab, hits, ptn, cs, lo, hi, c1, news) && c1 < c2 <= hi
    ensures 0 <= c2 - 1 < |ptn| && NextBlock(ptn, if c2 < hi then ptn[c2 - 1 := level] else ptn, level, c1, c2)
  {
    MarkedBlock(s.ptn, ptn, level, lo, hi - 1, c1, c2, news);
  }

  lemma DividingPerm(n: nat, level: int, s: Part, lab: seq<nat>, hits: seq<nat>, ptn: seq<int>, cs: seq<nat>,
                     lo: nat, hi: nat, c1: nat, news: set<nat>)
    requires Dividing(n, level, s, lab, hits, ptn, cs, lo, hi, c1, news)
    ensures Permutation(n, lab) && forall i :: 0 <= i < n ==> lab[i] < n
  {
  }

  // Set the cell starts for the block that begins at l.
  method MarkPiece(lab: array<nat>, cs: array<nat>, hits: array<nat>, l: nat, j: nat) returns (k: nat)
    requires lab.Length == cs.Length == hits.Length && lab != cs && hits != cs && l < j <= lab.Length
    requires Permutation(lab.Length, lab[..]) && forall i :: 0 <= i < lab.Length ==> lab[i] < lab.Length
    modifies cs
    ensures l <= k < j && OneBlock(KeyOf(lab[..], hits[..]), j, l, k + 1)
    ensures MarksBlock(lab[..], old(cs[..]), cs[..], lab.Length, l, k + 1)
  {
    ghost var n, cs0 := lab.Length, cs[..];
    hide Permutation;
    var w3 := hits[lab[l]];
    k := l;
    while k < j - 1 && hits[lab[k + 1]] == w3
      invariant l <= k < j && (forall i :: l <= i <= k ==> hits[lab[i]] == w3)
      invariant StartsSet(lab[..], cs0, cs[..], n, l, k)
    {
      StartSet(lab[..], cs0, cs[..], n, l, k, l);
      cs[lab[k + 1]] := l;
      k := k + 1;
    }
    StartSetLast(lab[..], cs0, cs[..], n, l, k);
    if k - l + 1 == 1 {
      cs[lab[l]] := lab.Length;
    } else {
      cs[lab[l]] := l;
    }
  }

  // The entries of positions l + 1..k have been set to l.
  ghost predicate StartsSet(lab: seq<nat>, cs0: seq<nat>, cs: seq<nat>, n: nat, l: nat, k: nat) {
    && |cs| == |cs0| == n == |lab|
    && forall i :: 0 <= i < n ==> lab[i] < n && cs[lab[i]] == if l < i <= k then l else cs0[lab[i]]
  }

  lemma StartSet(lab: seq<nat>, cs0: seq<nat>, cs: seq<nat>, n: nat, l: nat, k: nat, v: nat)
    requires StartsSet(lab, cs0, cs, n, l, k) && Permutation(n, lab) && l <= k && k + 1 < n && v == l
    ensures StartsSet(lab, cs0, cs[lab[k + 1] := v], n, l, k + 1)
  {
    forall i | 0 <= i < n && i != k + 1 ensures lab[i] != lab[k + 1] {
    }
  }

  lemma StartSetLast(lab: seq<nat>, cs0: seq<nat>, cs: seq<nat>, n: nat, l: nat, k: nat)
    requires StartsSet(lab, cs0, cs, n, l, k) && Permutation(n, lab) && l <= k < n
    ensures k == l ==> MarksBlock(lab, cs0, cs[lab[l] := n], n, l, k + 1)
    ensures k > l ==> MarksBlock(lab, cs0, cs[lab[l] := l], n, l, k + 1)
  {
    forall i | 0 <= i < n && i != l ensures lab[i] != lab[l] {
    }
  }

  // Cell starts and the first new cell end, for the first two blocks.
  method FirstTwo(lab: array<nat>, ptn: array<int>, cs: array<nat>, level: int, v1: nat, v2: nat, v3: nat)
    returns (ghost mid: seq<nat>)
    requires lab.Length == ptn.Length == cs.Length && lab != cs && v1 < v2 < v3 <= lab.Length
    requires Permutation(lab.Length, lab[..]) && forall i :: 0 <= i < lab.Length ==> lab[i] < lab.Length
    requires forall i :: v1 <= i < v3 ==> cs[lab[i]] == v1
    modifies ptn, cs
    ensures ptn[..] == old(ptn[..])[v2 - 1 := level]
    ensures MarksBlock(lab[..], old(cs[..]), mid, lab.Length, v1, v2)
    ensures MarksBlock(lab[..], mid, cs[..], lab.Length, v2, v3)
  {
    ghost var n, cs0 := lab.Length, cs[..];
    if v2 == v1 + 1 {
      cs[lab[v1]] := lab.Length;
    }
    mid := cs[..];
    if v3 == v2 + 1 {
      cs[lab[v2]] := lab.Length;
    } else {
      for k := v2 to v3
        invariant ptn[..] == old(ptn[..])
        invariant |cs[..]| == n && forall i :: 0 <= i < n ==> cs[lab[i]] == if v2 <= i < k then v2 else mid[lab[i]]
      {
        forall i | 0 <= i < n && i != k ensures lab[i] != lab[k] {
        }
        cs[lab[k]] := v2;
      }
    }
    ptn[v2 - 1] := level;
  }

  lemma MarksAfterSort(n: nat, lab: seq<nat>, lab2: seq<nat>, cs: seq<nat>, cs2: seq<nat>, c1: nat, c2: nat, lo: nat,
                       hi: nat)
    requires MarksBlock(lab, cs, cs2, n, c1, c2) && c2 <= lo <= hi <= n == |lab2|
    requires lo < hi && SameOutside(lab, lab2, lo, hi - 1)
    requires forall k :: lo <= k < hi ==> lab2[k] in lab[lo..hi]
    ensures MarksBlock(lab2, cs, cs2, n, c1, c2)
  {
    forall i | 0 <= i < n
      ensures lab2[i] < n && cs2[lab2[i]] == if c1 <= i < c2 then (if c2 == c1 + 1 then n else c1) else cs[lab2[i]]
    {
      if lo <= i < hi {
        var k :| 0 <= k < hi - lo && lab[lo..hi][k] == lab2[i];
        assert lab[lo + k] == lab2[i];
      } else {
        assert lab2[i] == lab[i];
      }
    }
  }

  // Before anything is marked.
  lemma DividingStart(n: nat, level: int, s: Part, lab: seq<nat>, hits: seq<nat>, cs: seq<nat>, lo: nat, e: nat)
    requires PartOk(n, level, s) && CellAt(s.ptn, level, lo, e) && lo < e && |hits| == n
    requires Permutation(n, lab) && SameOutside(s.lab, lab, lo, e) && CellStarts(n, s.lab, s.ptn, level, cs)
    requires forall i, k :: lo <= i < k <= e ==> KeyOf(lab, hits)[i] <= KeyOf(lab, hits)[k]
    ensures Dividing(n, level, s, lab, hits, s.ptn, cs, lo, e + 1, lo, {})
  {
    MarkStart(s.ptn, level, lo, e, KeyOf(lab, hits));
    CsStart(n, s.lab, lab, s.ptn, level, cs, lo, e);
  }

  lemma WaysSorted(lab: seq<nat>, hits: seq<nat>, v1: nat, v2: nat, v3: nat, e: nat, w1: nat, w2: nat)
    requires ThreeWays(lab, hits, v1, v2, v3, e + 1, w1, w2) && (forall i :: 0 <= i < |lab| ==> lab[i] < |hits|)
    requires forall i, k :: v3 <= i < k <= e ==> hits[lab[i]] <= hits[lab[k]]
    requires v2 < v3
    ensures forall i, k :: v1 <= i < k <= e ==> KeyOf(lab, hits)[i] <= KeyOf(lab, hits)[k]
    ensures OneBlock(KeyOf(lab, hits), e + 1, v1, v2) && OneBlock(KeyOf(lab, hits), e + 1, v2, v3)
  {
  }

  lemma BlockBounds(key: seq<int>, hi: nat, c1: nat, c2: nat)
    requires OneBlock(key, hi, c1, c2)
    ensures c1 < c2 <= hi
  {
  }

  lemma DividingLengths(n: nat, level: int, s: Part, lab: seq<nat>, hits: seq<nat>, ptn: seq<int>, cs: seq<nat>,
                        lo: nat, hi: nat, c1: nat, news: set<nat>)
    requires Dividing(n, level, s, lab, hits, ptn, cs, lo, hi, c1, news)
    ensures |ptn| == |s.ptn| == n && hi <= n
  {
  }

  lemma PendingIs(ptn: seq<int>, level: int, k: nat, hi: nat)
    requires k < hi <= |ptn|
    ensures Pending(ptn, level, k, hi) == if k + 1 < hi then ptn[k := level] else ptn
  {
  }

  // After the first two blocks.
  lemma TwoDivided(n: nat, level: int, s: Part, lab: seq<nat>, hits: seq<nat>, cs0: seq<nat>, mid: seq<nat>,
                   cs: seq<nat>,
                   v1: nat, v2: nat, v3: nat, e: nat)
    requires (forall i :: 0 <= i < |lab| ==> lab[i] < |hits|)
    requires Dividing(n, level, s, lab, hits, s.ptn, cs0, v1, e + 1, v1, {})
    requires OneBlock(KeyOf(lab, hits), e + 1, v1, v2) && OneBlock(KeyOf(lab, hits), e + 1, v2, v3)
    requires MarksBlock(lab, cs0, mid, n, v1, v2) && MarksBlock(lab, mid, cs, n, v2, v3)
    ensures v2 - 1 < |s.ptn| && v3 <= e + 1 <= |s.ptn|
    ensures Dividing(n, level, s, lab, hits, Pending(s.ptn[v2 - 1 := level], level, v3 - 1, e + 1), cs, v1, e + 1, v3,
                     {v2})
  {
    hide *;
    BlockBounds(KeyOf(lab, hits), e + 1, v1, v2);
    BlockBounds(KeyOf(lab, hits), e + 1, v2, v3);
    DividingLengths(n, level, s, lab, hits, s.ptn, cs0, v1, e + 1, v1, {});
    var ptn1 := s.ptn[v2 - 1 := level];
    PendingIs(ptn1, level, v3 - 1, e + 1);
    DividingStep(n, level, s, lab, hits, s.ptn, ptn1, cs0, mid, v1, e + 1, v1, v2, {});
    DividingStep(n, level, s, lab, hits, ptn1, Pending(ptn1, level, v3 - 1, e + 1), mid, cs, v1, e + 1, v2, v3, {});
    assert {} + {v2} == {v2};
  }

  // Everything is marked.
  lemma DividingEnd(n: nat, level: int, s: Part, lab: seq<nat>, hits: seq<nat>, ptn: seq<int>, cs: seq<nat>, lo: nat,
                    e: nat, news: set<nat>)
    requires Dividing(n, level, s, lab, hits, ptn, cs, lo, e + 1, e + 1, news) && |s.lab| == n
    ensures Permutation(n, lab) && Within(s.lab, s.ptn, lab, ptn, lo, e)
    ensures CutAt(ptn, level, lo, e, KeyOf(lab, hits)) && Finer(s.ptn, ptn, level) && CellStarts(n, lab, ptn, level, cs)
    ensures Starts(ptn, level) == Starts(s.ptn, level) + news && Starts(s.ptn, level) !! news
    ensures forall d: nat :: lo <= d <= e && IsStart(ptn, level, d) ==> d == lo || d in news
    ensures forall d :: d in news ==> lo <= d <= e
  {
    EndsAreCut(s.ptn, ptn, level, lo, e, KeyOf(lab, hits), news);
    CsEnd(n, lab, s.ptn, ptn, level, cs, lo, e);
  }

  lemma NewsRoom(n: nat, level: int, s: Part, lab: seq<nat>, hits: seq<nat>, ptn: seq<int>, cs: seq<nat>, lo: nat,
                 hi: nat, c1: nat, news: set<nat>)
    requires Dividing(n, level, s, lab, hits, ptn, cs, lo, hi, c1, news) && ActiveOk(s.ptn, level, s.active)
    ensures forall d :: d in news ==> d < n && d !in s.active && d != lo
    ensures lo < c1 < hi ==> c1 !in s.active
  {
    forall d: nat | lo < d < hi ensures d !in s.active {
      StartsAfter(s.ptn, s.ptn, level, lo, hi - 1, d);
    }
  }

  lemma QueueBound(n: nat, act: seq<nat>, nactive: nat, active: set<nat>)
    requires QueueOk(n, act, nactive, active)
    ensures nactive <= |act|
  {
  }

  // Make a cell active.
  method Push(act: array<nat>, nactive0: nat, active0: set<nat>, x: nat) returns (active: set<nat>, nactive: nat)
    requires QueueOk(act.Length, act[..], nactive0, active0) && x !in active0 && x < act.Length
    modifies act
    ensures active == active0 + {x} && nactive == nactive0 + 1 <= act.Length
    ensures QueueOk(act.Length, act[..], nactive, active)
    ensures act[nactive0] == x && forall i :: 0 <= i < nactive0 ==> act[i] == old(act[i])
    ensures nactive0 <= act.Length && act[..nactive] == old(act[..nactive0]) + [x]
  {
    QueueRoom(act.Length, act[..], nactive0, active0, x);
    QueuePush(act.Length, act[..], nactive0, active0, x);
    ghost var was := act[..];
    active := active0 + {x};
    act[nactive0] := x;
    assert act[..] == was[nactive0 := x];
    nactive := nactive0 + 1;
    assert act[..nactive] == was[..nactive0] + [x];
  }

  // Blocks up to position k are marked, and active, but for the end of the last one.
  ghost predicate Resting(n: nat, level: int, s: Part, lab: seq<nat>, hits: seq<nat>, ptn: seq<int>, cs: seq<nat>,
                          act: seq<nat>,
                          lo: nat, j: nat, k: nat, active: set<nat>, nactive: nat, news: set<nat>) {
    && lo <= k < j <= |ptn| && Dividing(n, level, s, lab, hits, Pending(ptn, level, k, j), cs, lo, j, k + 1, news)
    && ActiveOk(s.ptn, level, s.active) && active == s.active + news && QueueOk(n, act, nactive, active)
  }

  method OneMorePiece(lab: array<nat>, ptn: array<int>, cs: array<nat>, act: array<nat>, hits: array<nat>, level: int,
                      j: nat, k0: nat,
                      active0: set<nat>, nactive0: nat, ghost s: Part, ghost lo: nat, ghost news: set<nat>)
    returns (k: nat, l: nat, active: set<nat>, nactive: nat)
    requires lab.Length == ptn.Length == cs.Length == hits.Length == act.Length
    requires lab != cs && lab != act && cs != act && hits != cs && hits != act
    requires Resting(lab.Length, level, s, lab[..], hits[..], ptn[..], cs[..], act[..], lo, j, k0, active0, nactive0,
                     news) && k0 < j - 1
    modifies ptn, cs, act
    ensures l == k0 + 1 && k0 < k < j && l !in news && nactive == nactive0 + 1 <= act.Length
    ensures Resting(lab.Length, level, s, lab[..], hits[..], ptn[..], cs[..], act[..], lo, j, k, active, nactive,
                    news + {l})
    ensures act[nactive0] == l && forall i :: 0 <= i < nactive0 ==> act[i] == old(act[i])
    ensures nactive0 <= act.Length && act[..nactive] == old(act[..nactive0]) + [l]
    ensures k0 < ptn.Length && j <= ptn.Length
    ensures NextBlock(Pending(old(ptn[..]), level, k0, j), Pending(ptn[..], level, k, j), level, l, k + 1)
  {
    ghost var n := lab.Length;
    QueueBound(n, act[..], nactive0, active0);
    DividingBound(n, level, s, lab[..], hits[..], Pending(ptn[..], level, k0, j), cs[..], lo, j, k0 + 1, news);
    NewsRoom(n, level, s, lab[..], hits[..], Pending(ptn[..], level, k0, j), cs[..], lo, j, k0 + 1, news);
    hide Dividing, QueueOk, ActiveOk, Pending, NextBlock;
    k, l := NextPiece(lab, ptn, cs, hits, level, k0, j, s, lo, news);
    active, nactive := Push(act, nactive0, active0, l);
    assert s.active + news + {l} == s.active + (news + {l});
  }

  lemma DividingBound(n: nat, level: int, s: Part, lab: seq<nat>, hits: seq<nat>, ptn: seq<int>, cs: seq<nat>,
                      lo: nat, hi: nat, c1: nat, news: set<nat>)
    requires Dividing(n, level, s, lab, hits, ptn, cs, lo, hi, c1, news)
    ensures hi <= n
  {
  }

  // Where the largest block begins.
  ghost function BigAt(act: seq<nat>, lo: nat, bigpos: int): nat {
    if 0 <= bigpos < |act| then act[bigpos] else lo
  }

  // The blocks after the second one: mark each, make it active, and remember the largest.
  method MarkRest(lab: array<nat>, ptn: array<int>, cs: array<nat>, act: array<nat>, hits: array<nat>, level: int,
                  v3: nat, j: nat,
                  active0: set<nat>, numcells0: int, nactive0: nat, bigpos0: int, bigsize0: nat, ghost s: Part,
                  ghost lo: nat,
                  ghost news0: set<nat>, ghost q0: seq<nat>)
    returns (active: set<nat>, numcells: int, nactive: nat, bigpos: int, ghost news: set<nat>)
    requires lab.Length == ptn.Length == cs.Length == hits.Length == act.Length && 0 < v3 < j
    requires lab != cs && lab != act && cs != act && hits != cs && hits != act
    requires Resting(lab.Length, level, s, lab[..], hits[..], ptn[..], cs[..], act[..], lo, j, v3 - 1, active0,
                     nactive0, news0)
    requires nactive0 <= act.Length && (bigpos0 == -1 || (|q0| <= bigpos0 < nactive0 && act[bigpos0] in news0))
    requires act[..nactive0] == q0 + InOrder(news0, lab.Length) && forall d :: d in news0 ==> d < v3
    requires j <= ptn.Length
    requires FirstBiggest(Pending(ptn[..], level, v3 - 1, j), level, lo, v3, BigAt(act[..], lo, bigpos0), bigsize0)
    modifies ptn, cs, act
    ensures Resting(lab.Length, level, s, lab[..], hits[..], ptn[..], cs[..], act[..], lo, j, j - 1, active, nactive,
                    news)
    ensures numcells - |news| == numcells0 - |news0| && |news| > |news0| && nactive <= act.Length
    ensures bigpos == -1 || (|q0| <= bigpos < nactive && act[bigpos] in news)
    ensures act[..nactive] == q0 + InOrder(news, lab.Length)
    ensures FirstLargest(ptn[..], level, lo, j, BigAt(act[..], lo, bigpos))
  {
    active, numcells, nactive, bigpos, news := active0, numcells0, nactive0, bigpos0, news0;
    var bigsize: nat, k := bigsize0, v3 - 1;
    hide Resting, FirstBiggest, NextBlock, Pending;
    while k < j - 1
      invariant 0 <= k < j && nactive <= act.Length
      invariant Resting(lab.Length, level, s, lab[..], hits[..], ptn[..], cs[..], act[..], lo, j, k, active, nactive,
                        news)
      invariant numcells - |news| == numcells0 - |news0| && |news| >= |news0| && (k >= v3 ==> |news| > |news0|)
      invariant bigpos == -1 || (|q0| <= bigpos < nactive && act[bigpos] in news)
      invariant act[..nactive] == q0 + InOrder(news, lab.Length) && forall d :: d in news ==> d <= k
      invariant FirstBiggest(Pending(ptn[..], level, k, j), level, lo, k + 1, BigAt(act[..], lo, bigpos), bigsize)
      decreases j - k
    {
      var l;
      ghost var was, at, q := Pending(ptn[..], level, k, j), BigAt(act[..], lo, bigpos), act[..nactive];
      k, l, active, nactive := OneMorePiece(lab, ptn, cs, act, hits, level, j, k, active, nactive, s, lo, news);
      FirstBiggestNext(was, Pending(ptn[..], level, k, j), level, lo, l, k + 1, at, bigsize);
      numcells := numcells + 1;
      InOrderMore(news, l, lab.Length);
      news := news + {l};
      var size := k - l + 1;
      if size != 1 && size > bigsize {
        bigsize := size;
        bigpos := nactive - 1;
      }
    }
    RestingLength(lab.Length, level, s, lab[..], hits[..], ptn[..], cs[..], act[..], lo, j, k, active, nactive, news);
    PendingIs(ptn[..], level, j - 1, j);
    assert FirstBiggest(ptn[..], level, lo, j, BigAt(act[..], lo, bigpos), bigsize);
  }

  lemma RestingStart(n: nat, level: int, s: Part, lab: seq<nat>, hits: seq<nat>, ptn: seq<int>, cs: seq<nat>,
                     act: seq<nat>,
                     lo: nat, j: nat, k: nat, active: set<nat>, nactive: nat, news: set<nat>)
    requires lo <= k < j <= |ptn| && Dividing(n, level, s, lab, hits, Pending(ptn, level, k, j), cs, lo, j, k + 1, news)
    requires ActiveOk(s.ptn, level, s.active) && active == s.active + news && QueueOk(n, act, nactive, active)
    ensures Resting(n, level, s, lab, hits, ptn, cs, act, lo, j, k, active, nactive, news)
  {
  }

  lemma RestingLength(n: nat, level: int, s: Part, lab: seq<nat>, hits: seq<nat>, ptn: seq<int>, cs: seq<nat>,
                      act: seq<nat>,
                      lo: nat, j: nat, k: nat, active: set<nat>, nactive: nat, news: set<nat>)
    requires Resting(n, level, s, lab, hits, ptn, cs, act, lo, j, k, active, nactive, news)
    ensures j <= |ptn|
  {
  }

  // The first two blocks of a cell, and which of them is the larger.
  lemma TwoFirst(ptn0: seq<int>, ptn: seq<int>, level: int, v1: nat, v2: nat, v3: nat, j: nat)
    requires v1 < v2 < v3 < j <= |ptn0| && CellAt(ptn0, level, v1, j - 1) && ptn == ptn0[v2 - 1 := level]
    ensures var p := Pending(ptn, level, v3 - 1, j);
      if v2 - v1 < v3 - v2 then FirstBiggest(p, level, v1, v3, v2, v3 - v2)
        else FirstBiggest(p, level, v1, v3, v1, v2 - v1)
  {
    var p := Pending(ptn, level, v3 - 1, j);
    assert NextBlock(ptn0, ptn, level, v1, v2) && NextBlock(ptn, p, level, v2, v3);
    hide CellAt, NextBlock, FirstBiggest, Pending;
    FirstBlock(ptn0, ptn, level, v1, v2);
    FirstBiggestNext(ptn, p, level, v1, v2, v3, v1, v2 - v1);
  }

  lemma DividingCell(n: nat, level: int, s: Part, lab: seq<nat>, hits: seq<nat>, ptn: seq<int>, cs: seq<nat>,
                     lo: nat, hi: nat, c1: nat, news: set<nat>)
    requires Dividing(n, level, s, lab, hits, ptn, cs, lo, hi, c1, news)
    ensures 0 < hi <= |s.ptn| && CellAt(s.ptn, level, lo, hi - 1)
  {
  }

  // What is known before a cell is divided.
  ghost predicate SparseOk(n: nat, level: int, s: Part, cs: seq<nat>, act: seq<nat>, nactive: nat) {
    && PartOk(n, level, s) && CellStarts(n, s.lab, s.ptn, level, cs) && QueueOk(n, act, nactive, s.active)
  }

  // A cell of s was divided by value: t is the new state.
  ghost predicate Divided(n: nat, level: int, s: Part, t: Part, hits: seq<nat>, cs: seq<nat>, act: seq<nat>,
                          nactive: nat, v1: nat, e: nat, spared: nat, q0: seq<nat>) {
    && |hits| == n && SparseOk(n, level, t, cs, act, nactive)
    && (forall i :: 0 <= i < |t.lab| ==> t.lab[i] < n)
    && Within(s.lab, s.ptn, t.lab, t.ptn, v1, e) && CutAt(t.ptn, level, v1, e, KeyOf(t.lab, hits))
    && Activated(t.ptn, level, v1, e, s.active, t.active, spared) && Finer(s.ptn, t.ptn, level)
    && Frugal(LastOfTwo, t.ptn, level, v1, e, s.active, t.active, spared)
    && s.numcells <= t.numcells && (s.numcells == t.numcells ==> t.active == s.active)
    && Enqueued(n, level, t.ptn, v1, e, v1 in s.active, spared, q0, act, nactive)
  }

  lemma AllOneValue(n: nat, level: int, s: Part, hits: seq<nat>, cs: seq<nat>, act: seq<nat>, nactive: nat, v1: nat,
                    e: nat, w1: nat)
    requires SparseOk(n, level, s, cs, act, nactive) && |hits| == n && CellAt(s.ptn, level, v1, e)
    requires (forall i :: 0 <= i < n ==> s.lab[i] < n) && forall i :: v1 <= i <= e ==> hits[s.lab[i]] == w1
    ensures nactive <= |act| && Divided(n, level, s, s, hits, cs, act, nactive, v1, e, v1, act[..nactive])
  {
    NothingEnqueued(n, level, s.ptn, v1, e, v1 in s.active, v1, act, nactive);
    NoCut(LastOfTwo, s.ptn, level, v1, e, s.active, KeyOf(s.lab, hits));
  }

  lemma NewsAreStarts(n: nat, level: int, s: Part, lab: seq<nat>, hits: seq<nat>, ptn: seq<int>, cs: seq<nat>, lo: nat,
                      e: nat, news: set<nat>)
    requires Dividing(n, level, s, lab, hits, ptn, cs, lo, e + 1, e + 1, news)
    ensures NewStarts(ptn, level, lo, e) == news
  {
    forall d: nat | lo < d <= e ensures IsStart(ptn, level, d) <==> d in news {
      assert ptn[d - 1] <= level <==> d in news;
    }
  }

  lemma SomeValues(n: nat, level: int, s: Part, t: Part, hits: seq<nat>, cs: seq<nat>, act: seq<nat>, nactive: nat,
                   v1: nat, e: nat, news: set<nat>, spared: nat, q0: seq<nat>)
    requires PartOk(n, level, s) && Dividing(n, level, s, t.lab, hits, t.ptn, cs, v1, e + 1, e + 1, news)
    requires QueueOk(n, act, nactive, t.active) && t.numcells == s.numcells + |news| && |news| > 0
    requires spared == v1 || spared in news
    requires v1 !in s.active ==> LargestPiece(LastOfTwo, t.ptn, level, v1, e + 1, spared)
    requires t.active == if v1 in s.active then s.active + news else s.active + news + {v1} - {spared}
    requires nactive <= |act| && act[..nactive] == Entered(q0, news, n, v1, v1 in s.active, spared)
    ensures Divided(n, level, s, t, hits, cs, act, nactive, v1, e, spared, q0)
  {
    hide *;
    PartsOf(n, level, s);
    DividingLast(n, level, s, t.lab, hits, t.ptn, cs, v1, e, news);
    DividingEnd(n, level, s, t.lab, hits, t.ptn, cs, v1, e, news);
    NewsAreStarts(n, level, s, t.lab, hits, t.ptn, cs, v1, e, news);
    DividingCell(n, level, s, t.lab, hits, t.ptn, cs, v1, e + 1, e + 1, news);
    NewsActivate(LastOfTwo, s.ptn, t.ptn, level, v1, e, s.active, news, spared);
    assert |Starts(s.ptn, level) + news| == |Starts(s.ptn, level)| + |news|;
    PartAfter(n, level, s, t, v1, e, spared);
    DividedMade(n, level, s, t, hits, cs, act, nactive, v1, e, spared, q0, news);
  }

  lemma DividingLast(n: nat, level: int, s: Part, lab: seq<nat>, hits: seq<nat>, ptn: seq<int>, cs: seq<nat>, lo: nat,
                     e: nat, news: set<nat>)
    requires Dividing(n, level, s, lab, hits, ptn, cs, lo, e + 1, e + 1, news)
    ensures |hits| == n == |lab| && |ptn| == |s.ptn| && forall i :: 0 <= i < |lab| ==> lab[i] < n
  {
  }

  lemma PartAfter(n: nat, level: int, s: Part, t: Part, v1: nat, e: nat, spared: nat)
    requires PartOk(n, level, s) && CellAt(s.ptn, level, v1, e)
    requires Permutation(n, t.lab) && Within(s.lab, s.ptn, t.lab, t.ptn, v1, e)
    requires Activated(t.ptn, level, v1, e, s.active, t.active, spared) && t.numcells == |Starts(t.ptn, level)|
    ensures PartOk(n, level, t)
  {
  }

  lemma DividedMade(n: nat, level: int, s: Part, t: Part, hits: seq<nat>, cs: seq<nat>, act: seq<nat>, nactive: nat,
                    v1: nat, e: nat, spared: nat, q0: seq<nat>, news: set<nat>)
    requires |hits| == n && PartOk(n, level, t) && CellStarts(n, t.lab, t.ptn, level, cs)
    requires QueueOk(n, act, nactive, t.active) && forall i :: 0 <= i < |t.lab| ==> t.lab[i] < n
    requires Within(s.lab, s.ptn, t.lab, t.ptn, v1, e) && CutAt(t.ptn, level, v1, e, KeyOf(t.lab, hits))
    requires Activated(t.ptn, level, v1, e, s.active, t.active, spared) && Finer(s.ptn, t.ptn, level)
    requires Frugal(LastOfTwo, t.ptn, level, v1, e, s.active, t.active, spared) && s.numcells < t.numcells
    requires NewStarts(t.ptn, level, v1, e) == news && nactive <= |act|
    requires act[..nactive] == Entered(q0, news, n, v1, v1 in s.active, spared)
    ensures Divided(n, level, s, t, hits, cs, act, nactive, v1, e, spared, q0)
  {
    hide PartOk, CellStarts, QueueOk, Within, CutAt, Activated, Frugal, Finer, Entered, NewStarts, KeyOf;
  }

  // Only two blocks: the smaller becomes active, unless the old cell was active already.
  method TwoBlocks(act: array<nat>, level: int, v1: nat, v2: nat, v3: nat, active0: set<nat>, nactive0: nat,
                   ghost s: Part)
    returns (active: set<nat>, nactive: nat, ghost spared: nat)
    requires QueueOk(act.Length, act[..], nactive0, active0) && active0 == s.active && v1 < v2 < v3 <= act.Length
    requires v2 !in active0 && nactive0 <= act.Length
    modifies act
    ensures QueueOk(act.Length, act[..], nactive, active) && (spared == v1 || spared == v2)
    ensures nactive <= act.Length
    ensures act[..nactive] == Entered(old(act[..nactive0]), {v2}, act.Length, v1, v1 in s.active, spared)
    ensures active == if v1 in s.active then s.active + {v2} else s.active + {v2} + {v1} - {spared}
    ensures v1 !in s.active ==> if spared == v1 then v2 - v1 > v3 - v2 else v2 - v1 <= v3 - v2
  {
    ghost var q0, x := act[..nactive0], v2;
    if v2 - v1 <= v3 - v2 && v1 !in active0 {
      active, nactive := Push(act, nactive0, active0, v1);
      spared, x := v2, v1;
    } else {
      active, nactive := Push(act, nactive0, active0, v2);
      spared := v1;
    }
    OneEntered(q0, v2, act.Length, v1, v1 in s.active, spared);
  }

  // The second block becomes active; it is the largest so far if it is larger than the first.
  method PushSecond(act: array<nat>, v1: nat, v2: nat, v3: nat, active0: set<nat>, nactive0: nat)
    returns (active: set<nat>, nactive: nat, bigpos: int, bigsize: nat)
    requires QueueOk(act.Length, act[..], nactive0, active0) && v2 !in active0 && v1 < v2 < v3 <= act.Length
    modifies act
    ensures active == active0 + {v2} && nactive == nactive0 + 1 <= act.Length
    ensures QueueOk(act.Length, act[..], nactive, active) && act[..nactive] == old(act[..nactive0]) + [v2]
    ensures bigpos == -1 || (bigpos == nactive0 && act[bigpos] == v2)
    ensures BigAt(act[..], v1, bigpos) == if v2 - v1 < v3 - v2 then v2 else v1
    ensures bigsize == if v2 - v1 < v3 - v2 then v3 - v2 else v2 - v1
  {
    hide QueueOk;
    active, nactive := Push(act, nactive0, active0, v2);
    bigpos, bigsize := -1, v2 - v1;
    if v2 - v1 < v3 - v2 {
      bigpos, bigsize := nactive - 1, v3 - v2;
    }
  }

  // More blocks: all but the largest become active, unless the old cell was active already.
  method ManyBlocks(lab: array<nat>, ptn: array<int>, cs: array<nat>, act: array<nat>, hits: array<nat>, level: int,
                    v1: nat, v2: nat, v3: nat, j: nat, active0: set<nat>, numcells0: int, nactive0: nat, ghost s: Part)
    returns (active: set<nat>, numcells: int, nactive: nat, ghost news: set<nat>, ghost spared: nat)
    requires lab.Length == ptn.Length == cs.Length == hits.Length == act.Length && v1 < v2 < v3 < j <= lab.Length
    requires lab != cs && lab != act && cs != act && hits != cs && hits != act
    requires Dividing(lab.Length, level, s, lab[..], hits[..], Pending(ptn[..], level, v3 - 1, j), cs[..], v1, j, v3,
                      {v2})
    requires PartOk(lab.Length, level, s) && active0 == s.active && QueueOk(lab.Length, act[..], nactive0, active0)
    requires numcells0 == s.numcells + 1 && |s.ptn| == ptn.Length && ptn[..] == s.ptn[v2 - 1 := level]
    modifies ptn, cs, act
    ensures Dividing(lab.Length, level, s, lab[..], hits[..], ptn[..], cs[..], v1, j, j, news)
    ensures QueueOk(lab.Length, act[..], nactive, active) && numcells == s.numcells + |news| && |news| > 0
    ensures spared == v1 || spared in news
    ensures active == if v1 in s.active then s.active + news else s.active + news + {v1} - {spared}
    ensures v1 !in s.active ==> LargestPiece(LastOfTwo, ptn[..], level, v1, j, spared)
    ensures nactive <= act.Length && nactive0 <= act.Length
    ensures act[..nactive] == Entered(old(act[..nactive0]), news, lab.Length, v1, v1 in s.active, spared)
  {
    hide *;
    numcells, spared := numcells0, v1;
    PartsOf(lab.Length, level, s);
    NewsRoom(lab.Length, level, s, lab[..], hits[..], Pending(ptn[..], level, v3 - 1, j), cs[..], v1, j, v3, {v2});
    DividingCell(lab.Length, level, s, lab[..], hits[..], Pending(ptn[..], level, v3 - 1, j), cs[..], v1, j, v3, {v2});
    TwoFirst(s.ptn, ptn[..], level, v1, v2, v3, j);
    QueueBound(lab.Length, act[..], nactive0, active0);
    ghost var q0 := act[..nactive0];
    var bigpos, bigsize;
    active, nactive, bigpos, bigsize := PushSecond(act, v1, v2, v3, active0, nactive0);
    InOrderOne(v2, lab.Length);
    RestingStart(lab.Length, level, s, lab[..], hits[..], ptn[..], cs[..], act[..], v1, j, v3 - 1, active, nactive,
                 {v2});
    active, numcells, nactive, bigpos, news :=
      MarkRest(lab, ptn, cs, act, hits, level, v3, j, active, numcells, nactive, bigpos, bigsize, s, v1, {v2}, q0);
    RestingEnds(lab.Length, level, s, lab[..], hits[..], ptn[..], cs[..], act[..], v1, j, active, nactive, news);
    NotHalves(lab.Length, level, s, lab[..], hits[..], ptn[..], cs[..], v1, j, news);
    FirstIsSpare(ptn[..], level, v1, j, BigAt(act[..], v1, bigpos));
    active, spared := SpareLargest(act, v1, active, nactive, bigpos, s, news, q0);
  }

  // A cell in more than two blocks is not in halves.
  lemma NotHalves(n: nat, level: int, s: Part, lab: seq<nat>, hits: seq<nat>, ptn: seq<int>, cs: seq<nat>, lo: nat,
                  hi: nat, news: set<nat>)
    requires Dividing(n, level, s, lab, hits, ptn, cs, lo, hi, hi, news) && |news| > 1
    ensures !InHalves(ptn, level, lo, hi)
  {
    var x := Pick(news);
    assert |news - {x}| > 0;
    var y := Pick(news - {x});
    assert lo < x < hi && lo < y < hi && ptn[x - 1] <= level && ptn[y - 1] <= level;
    if InHalves(ptn, level, lo, hi) {
      var mid := HalvesCut(ptn, level, lo, hi);
      assert false;
    }
  }

  // The largest block is not needed if the first one is active instead.
  method SpareLargest(act: array<nat>, v1: nat, active0: set<nat>, nactive: nat, bigpos: int, ghost s: Part,
                      ghost news: set<nat>, ghost q0: seq<nat>)
    returns (active: set<nat>, ghost spared: nat)
    requires QueueOk(act.Length, act[..], nactive, active0) && active0 == s.active + news && v1 < act.Length
    requires nactive <= act.Length && act[..nactive] == q0 + InOrder(news, act.Length)
    requires bigpos == -1 || (|q0| <= bigpos < nactive <= act.Length && act[bigpos] in news)
    requires v1 !in news && forall d :: d in news ==> d !in s.active
    requires -1 <= bigpos
    modifies act
    ensures v1 !in s.active ==> spared == BigAt(old(act[..]), v1, bigpos)
    ensures QueueOk(act.Length, act[..], nactive, active) && (spared == v1 || spared in news)
    ensures active == if v1 in s.active then s.active + news else s.active + news + {v1} - {spared}
    ensures act[..nactive] == Entered(q0, news, act.Length, v1, v1 in s.active, spared)
  {
    active, spared := active0, v1;
    if bigpos >= 0 && v1 !in active {
      DistinctTail(act[..nactive], q0, InOrder(news, act.Length));
      SwapOne(q0, InOrder(news, act.Length), bigpos, v1);
      QueueReplace(act.Length, act[..], nactive, active, bigpos, v1);
      ghost var was := act[..];
      spared := act[bigpos];
      active := active - {act[bigpos]};
      active := active + {v1};
      act[bigpos] := v1;
      assert act[..] == was[bigpos := v1];
      assert act[..nactive] == (q0 + InOrder(news, act.Length))[bigpos := v1];
      assert (q0 + InOrder(news, act.Length))[bigpos] == spared;
    }
  }

  lemma DistinctTail(xs: seq<nat>, a: seq<nat>, b: seq<nat>)
    requires Distinct(xs) && xs == a + b
    ensures Distinct(b)
  {
    forall i, j | 0 <= i < j < |b| ensures b[i] != b[j] {
      assert xs[|a| + i] != xs[|a| + j];
    }
  }

  lemma RestingEnds(n: nat, level: int, s: Part, lab: seq<nat>, hits: seq<nat>, ptn: seq<int>, cs: seq<nat>,
                    act: seq<nat>,
                    lo: nat, j: nat, active: set<nat>, nactive: nat, news: set<nat>)
    requires 0 < j && Resting(n, level, s, lab, hits, ptn, cs, act, lo, j, j - 1, active, nactive, news)
    ensures Dividing(n, level, s, lab, hits, ptn, cs, lo, j, j, news)
    ensures active == s.active + news && QueueOk(n, act, nactive, active)
    ensures forall d :: d in news ==> d < n && d !in s.active && d != lo
  {
    NewsRoom(n, level, s, lab, hits, ptn, cs, lo, j, j, news);
  }

  // Divide the cell from v1 on by the values in hits.
  method DivideCell(lab: array<nat>, ptn: array<int>, cs: array<nat>, act: array<nat>, hits: array<nat>, level: int,
                    infinity: nat, v1: nat, active0: set<nat>, numcells0: int, nactive0: nat, ghost e: nat)
    returns (active: set<nat>, numcells: int, nactive: nat, next: nat, ghost spared: nat)
    requires lab.Length == ptn.Length == cs.Length == hits.Length == act.Length
    requires lab != cs && lab != act && lab != hits && cs != act && hits != cs && hits != act
    requires SparseOk(lab.Length, level, Part(lab[..], ptn[..], active0, numcells0), cs[..], act[..], nactive0)
    requires CellAt(ptn[..], level, v1, e) && v1 < e
    requires forall i :: v1 <= i <= e && i < lab.Length ==> lab[i] < hits.Length && hits[lab[i]] < infinity
    modifies lab, ptn, cs, act
    ensures next == e + 1 && nactive0 <= act.Length
    ensures Divided(lab.Length, level, Part(old(lab[..]), old(ptn[..]), active0, numcells0),
                    Part(lab[..], ptn[..], active, numcells), hits[..], cs[..], act[..], nactive, v1, e, spared,
                    old(act[..nactive0]))
  {
    ghost var n, s, cs0 := lab.Length, Part(lab[..], ptn[..], active0, numcells0), cs[..];
    active, numcells, nactive, spared := active0, numcells0, nactive0, v1;
    BelowLength(n, lab[..]);
    var w1, v2 := ScanEqual(lab, ptn, hits, level, v1, e);
    if ptn[v2 - 1] <= level {
      next := v2;
      AllOneValue(n, level, s, hits[..], cs[..], act[..], nactive, v1, e, w1);
      return;
    }
    hide *;
    active, numcells, nactive, next, spared :=
      DivideUnequal(lab, ptn, cs, act, hits, level, infinity, v1, v2, w1, active, numcells, nactive, e);
  }

  // The positions from v1 to v20 - 1 have one value, and v20 has another.
  method DivideUnequal(lab: array<nat>, ptn: array<int>, cs: array<nat>, act: array<nat>, hits: array<nat>, level: int,
                       infinity: nat, v1: nat, v20: nat, w1: nat, active0: set<nat>, numcells0: int, nactive0: nat,
                       ghost e: nat)
    returns (active: set<nat>, numcells: int, nactive: nat, next: nat, ghost spared: nat)
    requires lab.Length == ptn.Length == cs.Length == hits.Length == act.Length
    requires lab != cs && lab != act && lab != hits && cs != act && hits != cs && hits != act
    requires SparseOk(lab.Length, level, Part(lab[..], ptn[..], active0, numcells0), cs[..], act[..], nactive0)
    requires CellAt(ptn[..], level, v1, e) && v1 < e
    requires forall i :: v1 <= i <= e && i < lab.Length ==> lab[i] < hits.Length && hits[lab[i]] < infinity
    requires forall i :: 0 <= i < lab.Length ==> lab[i] < hits.Length
    requires v1 < v20 <= e < lab.Length && hits[lab[v20]] != w1 && forall i :: v1 <= i < v20 ==> hits[lab[i]] == w1
    modifies lab, ptn, cs, act
    ensures next == e + 1 && nactive0 <= act.Length
    ensures Divided(lab.Length, level, Part(old(lab[..]), old(ptn[..]), active0, numcells0),
                    Part(lab[..], ptn[..], active, numcells), hits[..], cs[..], act[..], nactive, v1, e, spared,
                    old(act[..nactive0]))
  {
    ghost var n, s := lab.Length, Part(lab[..], ptn[..], active0, numcells0);
    SparseParts(n, level, s, cs[..], act[..], nactive0);
    hide *;
    QueueBound(n, act[..], nactive0, s.active);
    var v2, v3, j;
    ghost var u1, u2;
    v2, v3, j, u1, u2 := Partition3(lab, ptn, hits, level, v1, v20, w1, infinity, e);
    active, numcells, nactive, spared :=
      DivideWays(lab, ptn, cs, act, hits, level, v1, v2, v3, j, active0, numcells0, nactive0, s, e, u1, u2);
    next := j;
  }

  // Mark the blocks of a cell that has been partitioned.
  method DivideWays(lab: array<nat>, ptn: array<int>, cs: array<nat>, act: array<nat>, hits: array<nat>, level: int,
                    v1: nat, v2: nat, v3: nat, j: nat, active0: set<nat>, numcells0: int, nactive0: nat,
                    ghost s: Part, ghost e: nat, ghost u1: nat, ghost u2: nat)
    returns (active: set<nat>, numcells: int, nactive: nat, ghost spared: nat)
    requires lab.Length == ptn.Length == cs.Length == hits.Length == act.Length
    requires lab != cs && lab != act && lab != hits && cs != act && hits != cs && hits != act
    requires SparseOk(lab.Length, level, s, cs[..], act[..], nactive0) && CellAt(s.ptn, level, v1, e)
    requires v1 < e < lab.Length
    requires s.ptn == ptn[..] && s.active == active0 && s.numcells == numcells0
    requires Permutation(lab.Length, lab[..]) && SameOutside(s.lab, lab[..], v1, e)
    requires j == e + 1 && v2 < v3 && ThreeWays(lab[..], hits[..], v1, v2, v3, e + 1, u1, u2)
    modifies lab, ptn, cs, act
    ensures nactive0 <= act.Length
    ensures Divided(lab.Length, level, s, Part(lab[..], ptn[..], active, numcells), hits[..], cs[..], act[..], nactive,
                    v1, e, spared, old(act[..nactive0]))
  {
    hide *;
    ghost var n, cs0, lab1 := lab.Length, cs[..], lab[..];
    SparseParts(n, level, s, cs[..], act[..], nactive0);
    QueueBound(n, act[..], nactive0, s.active);
    PartsOf(n, level, s);
    OrderOf(lab[..], hits[..], v1, v2, v3, e, u1, u2);
    BelowLength(n, lab[..]);
    CsStart(n, s.lab, lab[..], s.ptn, level, cs0, v1, e);
    CsOld(n, lab1, s.ptn, level, cs0, v1, e);
    ghost var mid := FirstTwo(lab, ptn, cs, level, v1, v2, v3);
    numcells := numcells0 + 1;
    if j == v3 {
      DividedTwo(n, level, s, lab[..], hits[..], ptn[..], cs0, mid, cs[..], v1, v2, v3, e, u1, u2);
      active, nactive, spared := TwoBlocks(act, level, v1, v2, v3, active0, nactive0, s);
      LaterHalf(s.ptn, level, v1, v2, e);
      SomeValues(n, level, s, Part(lab[..], ptn[..], active, numcells), hits[..], cs[..], act[..], nactive, v1, e, {v2},
                 spared, old(act[..nactive0]));
    } else {
      active, numcells, nactive, spared :=
        SortAndMark(lab, ptn, cs, act, hits, level, v1, v2, v3, j, active0, numcells, nactive0, s, e, u1, u2, cs0, mid);
    }
  }

  // The blocks after the second one are sorted and marked.
  method SortAndMark(lab: array<nat>, ptn: array<int>, cs: array<nat>, act: array<nat>, hits: array<nat>, level: int,
                     v1: nat, v2: nat, v3: nat, j: nat, active0: set<nat>, numcells0: int, nactive0: nat,
                     ghost s: Part, ghost e: nat, ghost u1: nat, ghost u2: nat, ghost cs0: seq<nat>,
                     ghost mid: seq<nat>)
    returns (active: set<nat>, numcells: int, nactive: nat, ghost spared: nat)
    requires lab.Length == ptn.Length == cs.Length == hits.Length == act.Length == |s.ptn|
    requires lab != cs && lab != act && lab != hits && cs != act && hits != cs && hits != act
    requires PartOk(lab.Length, level, s) && CellStarts(lab.Length, s.lab, s.ptn, level, cs0)
    requires QueueOk(lab.Length, act[..], nactive0, active0)
    requires CellAt(s.ptn, level, v1, e) && v1 < e < lab.Length && s.active == active0 && numcells0 == s.numcells + 1
    requires Permutation(lab.Length, lab[..]) && SameOutside(s.lab, lab[..], v1, e)
    requires j == e + 1 && v1 < v2 < v3 <= e && ThreeWays(lab[..], hits[..], v1, v2, v3, e + 1, u1, u2)
    requires ptn[..] == s.ptn[v2 - 1 := level]
    requires MarksBlock(lab[..], cs0, mid, lab.Length, v1, v2) && MarksBlock(lab[..], mid, cs[..], lab.Length, v2, v3)
    modifies lab, ptn, cs, act
    ensures nactive0 <= act.Length
    ensures Divided(lab.Length, level, s, Part(lab[..], ptn[..], active, numcells), hits[..], cs[..], act[..], nactive,
                    v1, e, spared, old(act[..nactive0]))
  {
    hide *;
    QueueBound(lab.Length, act[..], nactive0, active0);
    ghost var n, lab1 := lab.Length, lab[..];
    SortIndirect(lab, hits, v3, j);
    assert forall k :: v3 <= k <= e ==> lab[k] in lab1[v3..e + 1];
    BelowLength(n, lab[..]);
    SortedTwo(n, level, s, lab1, lab[..], hits[..], ptn[..], cs0, mid, cs[..], v1, v2, v3, e, u1, u2);
    ghost var news;
    active, numcells, nactive, news, spared :=
      ManyBlocks(lab, ptn, cs, act, hits, level, v1, v2, v3, j, active0, numcells0, nactive0, s);
    SomeValues(n, level, s, Part(lab[..], ptn[..], active, numcells), hits[..], cs[..], act[..], nactive, v1, e, news,
               spared, old(act[..nactive0]));
  }

  lemma SparseParts(n: nat, level: int, s: Part, cs: seq<nat>, act: seq<nat>, nactive: nat)
    requires SparseOk(n, level, s, cs, act, nactive)
    ensures PartOk(n, level, s) && Permutation(n, s.lab) && CellStarts(n, s.lab, s.ptn, level, cs)
    ensures QueueOk(n, act, nactive, s.active)
  {
  }

  lemma OrderOf(lab: seq<nat>, hits: seq<nat>, v1: nat, v2: nat, v3: nat, e: nat, w1: nat, w2: nat)
    requires ThreeWays(lab, hits, v1, v2, v3, e + 1, w1, w2)
    ensures v1 < v2 && v3 <= e + 1 <= |lab|
  {
  }

  lemma CsOld(n: nat, lab: seq<nat>, ptn: seq<int>, level: int, cs: seq<nat>, lo: nat, e: nat)
    requires CsDone(n, lab, ptn, ptn, level, cs, lo, e + 1, lo)
    ensures forall i :: lo <= i <= e ==> lab[i] < |cs| && cs[lab[i]] == lo
  {
  }

  lemma BelowLength(n: nat, lab: seq<nat>)
    requires Permutation(n, lab)
    ensures forall i :: 0 <= i < n ==> lab[i] < n
  {
  }

  lemma PartsOf(n: nat, level: int, s: Part)
    requires PartOk(n, level, s)
    ensures |s.ptn| == |s.lab| == n && ActiveOk(s.ptn, level, s.active) && s.numcells == |Starts(s.ptn, level)|
  {
  }

  // The first two blocks are marked; nothing else is left in the cell.
  lemma DividedTwo(n: nat, level: int, s: Part, lab: seq<nat>, hits: seq<nat>, ptn: seq<int>, cs0: seq<nat>,
                   mid: seq<nat>, cs: seq<nat>,
                   v1: nat, v2: nat, v3: nat, e: nat, w1: nat, w2: nat)
    requires PartOk(n, level, s) && CellStarts(n, s.lab, s.ptn, level, cs0) && CellAt(s.ptn, level, v1, e) && v1 < e
    requires |hits| == n
    requires Permutation(n, lab) && SameOutside(s.lab, lab, v1, e) && v1 < v2 < v3 == e + 1 <= n == |lab| == |s.ptn|
    requires forall i :: 0 <= i < n ==> lab[i] < n
    requires ThreeWays(lab, hits, v1, v2, v3, e + 1, w1, w2) && ptn == s.ptn[v2 - 1 := level]
    requires MarksBlock(lab, cs0, mid, n, v1, v2) && MarksBlock(lab, mid, cs, n, v2, v3)
    ensures Dividing(n, level, s, lab, hits, ptn, cs, v1, e + 1, e + 1, {v2}) && v2 !in s.active
  {
    hide *;
    OrderOf(lab, hits, v1, v2, v3, e, w1, w2);
    WaysSorted(lab, hits, v1, v2, v3, e, w1, w2);
    DividingStart(n, level, s, lab, hits, cs0, v1, e);
    TwoDivided(n, level, s, lab, hits, cs0, mid, cs, v1, v2, v3, e);
    PendingIs(ptn, level, v3 - 1, e + 1);
    PartsOf(n, level, s);
    NewsRoom(n, level, s, lab, hits, ptn, cs, v1, e + 1, e + 1, {v2});
  }

  // The first two blocks are marked, and the others have been sorted.
  lemma SortedTwo(n: nat, level: int, s: Part, lab1: seq<nat>, lab: seq<nat>, hits: seq<nat>, ptn: seq<int>,
                  cs0: seq<nat>, mid: seq<nat>,
                  cs: seq<nat>, v1: nat, v2: nat, v3: nat, e: nat, w1: nat, w2: nat)
    requires PartOk(n, level, s) && CellStarts(n, s.lab, s.ptn, level, cs0) && CellAt(s.ptn, level, v1, e) && v1 < e
    requires |hits| == n
    requires Permutation(n, lab1) && SameOutside(s.lab, lab1, v1, e) && v2 < v3 <= e && e + 1 <= n
    requires ThreeWays(lab1, hits, v1, v2, v3, e + 1, w1, w2) && ptn == s.ptn[v2 - 1 := level]
    requires MarksBlock(lab1, cs0, mid, n, v1, v2) && MarksBlock(lab1, mid, cs, n, v2, v3)
    requires Permutation(n, lab) && SameOutside(lab1, lab, v3, e)
    requires forall k :: v3 <= k <= e ==> lab[k] in lab1[v3..e + 1]
    requires |lab| == n && (forall i :: 0 <= i < n ==> lab[i] < n)
    requires forall i, k :: v3 <= i < k <= e ==> hits[lab[i]] <= hits[lab[k]]
    ensures Dividing(n, level, s, lab, hits, Pending(ptn, level, v3 - 1, e + 1), cs, v1, e + 1, v3, {v2})
  {
    hide *;
    OrderOf(lab1, hits, v1, v2, v3, e, w1, w2);
    StillThreeWays(lab1, lab, hits, v1, v2, v3, e, w1, w2);
    WaysSorted(lab, hits, v1, v2, v3, e, w1, w2);
    MarksAfterSort(n, lab1, lab, cs0, mid, v1, v2, v3, e + 1);
    MarksAfterSort(n, lab1, lab, mid, cs, v2, v3, v3, e + 1);
    TwoSteps(s.lab, lab1, lab, v1, v3, e);
    DividingStart(n, level, s, lab, hits, cs0, v1, e);
    TwoDivided(n, level, s, lab, hits, cs0, mid, cs, v1, v2, v3, e);
  }

  lemma TwoSteps(a: seq<nat>, b: seq<nat>, c: seq<nat>, v1: nat, v3: nat, e: nat)
    requires SameOutside(a, b, v1, e) && SameOutside(b, c, v3, e) && v1 <= v3
    ensures SameOutside(a, c, v1, e)
  {
  }

  lemma StillThreeWays(lab1: seq<nat>, lab: seq<nat>, hits: seq<nat>, v1: nat, v2: nat, v3: nat, e: nat, w1: nat,
                       w2: nat)
    requires ThreeWays(lab1, hits, v1, v2, v3, e + 1, w1, w2) && SameOutside(lab1, lab, v3, e) && v3 <= e < |lab|
    requires forall k :: v3 <= k <= e ==> lab[k] in lab1[v3..e + 1]
    ensures ThreeWays(lab, hits, v1, v2, v3, e + 1, w1, w2)
  {
    forall k | v3 <= k <= e ensures lab[k] < |hits| && hits[lab[k]] > w2 {
      var i :| 0 <= i < e + 1 - v3 && lab1[v3..e + 1][i] == lab[k];
      assert lab1[v3 + i] == lab[k];
    }
  }
}
