// Partition refinement in place: cells of vertices are cut by their counts into one active cell
// after another, until no cell is active or every cell is a single vertex.
module RefineInPlace {
  import opened Sums
  import opened Graphs
  import opened Rows
  import opened GroupOrbits
  import opened Refinement
  import opened Nests
  import opened NestRefinement
  import opened BucketSort
  import opened NestCost
  import opened PassSteps
  import opened Hints
  import opened CutRuns
  import opened Bits

  // ----- a splitting cell with a single vertex -----

  // Neighbours come first, then the others, within positions cell1..cell2.
  ghost predicate Sifted(row: set<nat>, lab: seq<nat>, cell1: nat, mid: int, cell2: nat) {
    && cell1 <= mid <= cell2 + 1 && cell2 < |lab|
    && (forall k :: cell1 <= k < mid ==> lab[k] in row)
    && (forall k :: mid <= k <= cell2 ==> lab[k] !in row)
  }

  ghost predicate SameOutside(lab: seq<nat>, lab2: seq<nat>, c1: nat, c2: nat) {
    |lab2| == |lab| && forall k :: 0 <= k < |lab| && (k < c1 || c2 < k) ==> lab2[k] == lab[k]
  }

  lemma SwapPermutes(n: nat, lab: seq<nat>, i: nat, j: nat)
    requires Permutation(n, lab) && i < n && j < n
    ensures Permutation(n, lab[i := lab[j]][j := lab[i]])
  {
  }

  method Sift(row: set<nat>, lab: array<nat>, cell1: nat, cell2: nat) returns (c1: nat)
    requires Permutation(lab.Length, lab[..]) && cell1 <= cell2 < lab.Length
    modifies lab
    ensures Permutation(lab.Length, lab[..]) && SameOutside(old(lab[..]), lab[..], cell1, cell2)
    ensures Sifted(row, lab[..], cell1, c1, cell2)
  {
    var c2: int := cell2;
    c1 := cell1;
    while c1 <= c2
      invariant cell1 <= c1 <= c2 + 1 && c2 <= cell2
      invariant Permutation(lab.Length, lab[..]) && SameOutside(old(lab[..]), lab[..], cell1, cell2)
      invariant forall k :: cell1 <= k < c1 ==> lab[k] in row
      invariant forall k :: c2 < k <= cell2 ==> lab[k] !in row
    {
      var labc1 := lab[c1];
      if labc1 in row {
        c1 := c1 + 1;
      } else {
        SwapPermutes(lab.Length, lab[..], c1, c2);
        ghost var was := lab[..];
        lab[c1] := lab[c2];
        lab[c2] := labc1;
        assert lab[..] == was[c1 := was[c2]][c2 := was[c1]];
        c2 := c2 - 1;
      }
    }
  }

  ghost function SiftKey(n: nat, mid: int): (key: seq<int>)
    ensures |key| == n
  {
    seq(n, k requires 0 <= k < n => if k < mid then 0 else 1)
  }

  lemma SiftedCounts(g: Graph, u: nat, lab: seq<nat>, cell1: nat, mid: int, cell2: nat)
    requires u < |g| && Permutation(|g|, lab) && Sifted(g[u], lab, cell1, mid, cell2)
    ensures KeyAt(CountedKey(g, {u}), lab, cell1, cell2, SiftKey(|g|, mid))
  {
    forall i | cell1 <= i <= cell2 ensures CountedKey(g, {u})(lab[i]) == SiftKey(|g|, mid)[i] {
      OneArc(g, u, lab[i]);
    }
  }

  lemma CutAtMid(ptn: seq<int>, level: int, cell1: nat, mid: int, cell2: nat)
    requires CellAt(ptn, level, cell1, cell2) && cell1 < mid <= cell2
    ensures CutAt(ptn[mid - 1 := level], level, cell1, cell2, SiftKey(|ptn|, mid))
    ensures Starts(ptn[mid - 1 := level], level) == Starts(ptn, level) + {mid} && mid !in Starts(ptn, level)
    ensures Finer(ptn, ptn[mid - 1 := level], level)
  {
    var ptn2, starts, starts2 := ptn[mid - 1 := level], Starts(ptn, level), Starts(ptn[mid - 1 := level], level);
    forall d: nat ensures d in starts2 <==> d in starts || d == mid {
      if 0 < d < |ptn| && d != mid { assert ptn2[d - 1] == ptn[d - 1]; }
    }
    assert ptn[mid - 1] > level;
  }

  lemma MidActivates(ptn: seq<int>, level: int, cell1: nat, mid: nat, cell2: nat, active: set<nat>, added: nat)
    requires CellAt(ptn, level, cell1, cell2) && cell1 < mid <= cell2 && ActiveOk(ptn, level, active)
    requires added == mid || (added == cell1 && cell1 !in active)
    ensures Activated(ptn[mid - 1 := level], level, cell1, cell2, active, active + {added}, cell1 + mid - added)
  {
    var ptn2 := ptn[mid - 1 := level];
    forall d: nat | cell1 < d <= cell2 && d != mid ensures !IsStart(ptn2, level, d) {
      assert ptn2[d - 1] == ptn[d - 1];
    }
    forall d | d in active + {added} ensures d < |ptn2| && IsStart(ptn2, level, d) {
      if d > 0 { assert d in active ==> IsStart(ptn, level, d); }
    }
  }

  // The larger part is spared, and the first one of two equal ones.
  lemma MidFrugal(ptn: seq<int>, level: int, cell1: nat, mid: nat, cell2: nat, active: set<nat>, added: nat)
    requires CellAt(ptn, level, cell1, cell2) && cell1 < mid <= cell2 && ActiveOk(ptn, level, active)
    requires added == mid || (added == cell1 && cell1 !in active)
    requires cell1 !in active ==>
      if added == mid then mid - cell1 >= cell2 + 1 - mid else mid - cell1 < cell2 + 1 - mid
    ensures Frugal(Earliest, ptn[mid - 1 := level], level, cell1, cell2, active, active + {added}, cell1 + mid - added)
  {
    LargerHalf(ptn, level, cell1, mid, cell2);
    if cell1 !in active { FirstIsSpare(ptn[mid - 1 := level], level, cell1, cell2 + 1, cell1 + mid - added); }
    assert mid !in active by { assert !IsStart(ptn, level, mid); }
  }

  lemma SiftBounds(row: set<nat>, lab: seq<nat>, cell1: nat, mid: int, cell2: nat)
    requires Sifted(row, lab, cell1, mid, cell2)
    ensures cell1 <= mid <= cell2 + 1
  {
  }

  lemma SiftConstant(n: nat, cell1: nat, mid: nat, cell2: nat)
    requires (mid == cell1 || mid == cell2 + 1) && cell1 <= cell2 < n
    ensures |SiftKey(n, mid)| == n && forall k :: cell1 <= k <= cell2 ==> SiftKey(n, mid)[k] == SiftKey(n, mid)[cell1]
  {
  }

  lemma SiftWithin(lab: seq<nat>, ptn: seq<int>, lab2: seq<nat>, ptn2: seq<int>, cell1: nat, cell2: nat, mid: nat,
                   level: int)
    requires SameOutside(lab, lab2, cell1, cell2)
    requires (ptn2 == ptn || (cell1 < mid <= cell2 < |ptn| && ptn2 == ptn[mid - 1 := level]))
    ensures Within(lab, ptn, lab2, ptn2, cell1, cell2)
  {
  }

  // Mark the end of the neighbours, and make the new cell, or the old one if smaller, active.
  method MarkMid(ptn: array<int>, level: int, cell1: nat, c1: nat, cell2: nat, active0: set<nat>, numcells0: int,
                 hint0: nat, n: nat)
    returns (active: set<nat>, numcells: int, hint: nat, ghost spared: nat)
    requires ptn.Length == n && CellAt(ptn[..], level, cell1, cell2) && cell1 < c1 <= cell2 < n && hint0 < n
    requires ActiveOk(ptn[..], level, active0) && numcells0 == |Starts(ptn[..], level)|
    modifies ptn
    ensures ptn[..] == old(ptn[..])[c1 - 1 := level] && Finer(old(ptn[..]), ptn[..], level) && hint < n
    ensures CutAt(ptn[..], level, cell1, cell2, SiftKey(n, c1))
    ensures Activated(ptn[..], level, cell1, cell2, active0, active, spared)
    ensures Frugal(Earliest, ptn[..], level, cell1, cell2, active0, active, spared)
    ensures HintAt(ptn[..], level, cell1, cell2, cell1 !in active0, hint0, hint)
    ensures numcells == numcells0 + 1 == |Starts(ptn[..], level)|
  {
    hide *;
    ghost var ptn0 := ptn[..];
    var c2 := c1 - 1;
    CutAtMid(ptn0, level, cell1, c1, cell2);
    ptn[c2] := level;
    assert ptn[..] == ptn0[c1 - 1 := level];
    numcells, hint := numcells0 + 1, hint0;
    if cell1 in active0 || c2 - cell1 >= cell2 - c1 {
      MidActivates(ptn0, level, cell1, c1, cell2, active0, c1);
      MidFrugal(ptn0, level, cell1, c1, cell2, active0, c1);
      spared := cell1;
      active := active0 + {c1};
      if c1 == cell2 { hint := c1; }
    } else {
      MidActivates(ptn0, level, cell1, c1, cell2, active0, cell1);
      MidFrugal(ptn0, level, cell1, c1, cell2, active0, cell1);
      spared := c1;
      active := active0 + {cell1};
      if c2 == cell1 { hint := cell1; }
    }
    TwoHints(ptn0, level, cell1, c1, cell2, cell1 !in active0, hint0, hint);
  }

  // Cut one cell by adjacency to the single vertex u.
  method CutByVertex(g: Graph, lab: array<nat>, ptn: array<int>, level: int, u: nat, cell1: nat, cell2: nat,
                     active0: set<nat>, numcells0: int, hint0: nat, ghost base: Part, ghost hintBase: nat)
    returns (active: set<nat>, numcells: int, hint: nat, ghost spared: nat)
    requires lab.Length == ptn.Length == |g| && u < |g| && hint0 < |g|
    requires Cutting(g, level, base, Part(lab[..], ptn[..], active0, numcells0), {u}, cell1, hintBase, hint0)
    requires CellAt(ptn[..], level, cell1, cell2) && cell1 < cell2
    modifies lab, ptn
    ensures Cutting(g, level, base, Part(lab[..], ptn[..], active, numcells), {u}, cell2 + 1, hintBase, hint)
    ensures Activated(ptn[..], level, cell1, cell2, active0, active, spared)
    ensures Frugal(Earliest, ptn[..], level, cell1, cell2, active0, active, spared)
    ensures hint < |g|
  {
    hide *;
    active, numcells, hint, spared := active0, numcells0, hint0, cell1;
    ghost var s := Part(lab[..], ptn[..], active0, numcells0);
    CuttingParts(g, level, base, s, {u}, cell1, hintBase, hint0);
    CellBounds(s.ptn, level, cell1, cell2);
    var c1: nat := Sift(g[u], lab, cell1, cell2);
    var c2 := c1 - 1;
    ghost var lab1 := lab[..];
    SiftedCounts(g, u, lab1, cell1, c1, cell2);
    SiftBounds(g[u], lab1, cell1, c1, cell2);
    if c2 >= cell1 && c1 <= cell2 {
      active, numcells, hint, spared := MarkMid(ptn, level, cell1, c1, cell2, active0, numcells0, hint0, |g|);
    } else {
      SiftConstant(|g|, cell1, c1, cell2);
      NoCut(Earliest, s.ptn, level, cell1, cell2, active, SiftKey(|g|, c1));
      UncutHint(s.ptn, level, cell1, cell2, cell1 !in active0, hint0);
      FinerItself(ptn[..], level);
    }
    SiftWithin(s.lab, s.ptn, lab1, ptn[..], cell1, cell2, c1, level);
    CuttingDone(g, level, base, s, Part(lab[..], ptn[..], active, numcells), {u}, cell1, cell2, SiftKey(|g|, c1),
                spared,
                hintBase, hint0, hint);
  }

  // ----- a splitting cell with several vertices -----

  ghost predicate CountsInto(g: Graph, w: set<nat>, lab: seq<nat>, count: seq<nat>, lo: nat, hi: nat) {
    && lo <= hi <= |lab| == |g| && hi <= |count|
    && forall i :: lo <= i < hi ==> lab[i] < |g| && count[i] == |w * g[lab[i]]|
  }

  ghost predicate CountsBetween(count: seq<nat>, lo: nat, hi: nat, bmin: nat, bmax: nat) {
    && lo <= hi <= |count|
    && forall i :: lo <= i < hi ==> bmin <= count[i] <= bmax
  }

  // bucket[c] is the number of entries equal to c, for every c from bmin to bmax.
  ghost predicate Tallied(count: seq<nat>, bucket: seq<nat>, lo: nat, hi: nat, bmin: nat, bmax: nat) {
    && lo <= hi <= |count| && bmin <= bmax < |bucket|
    && forall c: nat :: bmin <= c <= bmax ==> bucket[c] == Occurrences(count, lo, hi, c)
  }

  lemma OverlapBound(g: Graph, w: set<nat>, x: nat)
    requires ValidGraph(g) && x < |g|
    ensures |w * g[x]| <= |g|
  {
    assert w * g[x] <= Range(|g|);
    SubsetCard(w * g[x], Range(|g|));
    RangeCard(|g|);
  }

  lemma {:induction false} NoOccurrence(xs: seq<nat>, lo: nat, hi: nat, c: nat)
    requires lo <= hi <= |xs| && forall i :: lo <= i < hi ==> xs[i] != c
    ensures Occurrences(xs, lo, hi, c) == 0
    decreases hi
  {
    if lo < hi { NoOccurrence(xs, lo, hi - 1, c); }
  }

  lemma {:induction false} SomeOccurrence(xs: seq<nat>, lo: nat, hi: nat, i: nat)
    requires lo <= i < hi <= |xs|
    ensures Occurrences(xs, lo, hi, xs[i]) > 0
    decreases hi
  {
    if i < hi - 1 { SomeOccurrence(xs, lo, hi - 1, i); }
  }

  lemma {:induction false} OccurrencesSame(xs: seq<nat>, ys: seq<nat>, lo: nat, hi: nat, c: nat)
    requires lo <= hi <= |xs| == |ys| && forall i :: lo <= i < hi ==> xs[i] == ys[i]
    ensures Occurrences(xs, lo, hi, c) == Occurrences(ys, lo, hi, c)
    decreases hi
  {
    if lo < hi { OccurrencesSame(xs, ys, lo, hi - 1, c); }
  }

  // Count and tally for one more position.
  method TallyNext(g: Graph, lab: array<nat>, count: array<nat>, bucket: array<nat>, w: set<nat>, cell1: nat, i: nat,
                   bmin0: nat, bmax0: nat)
    returns (bmin: nat, bmax: nat)
    requires ValidGraph(g) && lab.Length == count.Length == |g| && bucket.Length == |g| + 2 && i < |g| && lab[i] < |g|
    requires count != bucket && lab != count && lab != bucket && bmax0 <= |g|
    requires CountsInto(g, w, lab[..], count[..], cell1, i) && CountsBetween(count[..], cell1, i, bmin0, bmax0)
    requires Tallied(count[..], bucket[..], cell1, i, bmin0, bmax0) && bmin0 < bucket.Length && bucket[bmin0] > 0
    requires bucket[bmax0] > 0
    modifies count, bucket
    ensures CountsInto(g, w, lab[..], count[..], cell1, i + 1) && CountsBetween(count[..], cell1, i + 1, bmin, bmax)
    ensures Tallied(count[..], bucket[..], cell1, i + 1, bmin, bmax) && bmin <= bmax <= |g| && bucket[bmin] > 0
    ensures bucket[bmax] > 0
  {
    var cnt: nat := |w * g[lab[i]]|;
    OverlapBound(g, w, lab[i]);
    CountsBounds(count[..], cell1, i, bmin0, bmax0);
    hide CountsInto, CountsBetween, Tallied;
    bmin, bmax := Widen(count, bucket, cell1, i, bmin0, bmax0, cnt);
    ghost var was, tally := count[..], bucket[..];
    CountsNext(g, w, lab[..], was, cell1, i, cnt);
    bucket[cnt] := bucket[cnt] + 1;
    count[i] := cnt;
    assert count[..] == was[i := cnt] && bucket[..] == tally[cnt := tally[cnt] + 1];
    TallyOne(was, tally, cell1, i, bmin, bmax, cnt, count[..], bucket[..]);
  }

  lemma CountsBounds(count: seq<nat>, lo: nat, hi: nat, bmin: nat, bmax: nat)
    requires CountsBetween(count, lo, hi, bmin, bmax)
    ensures lo <= hi <= |count|
  {
  }

  lemma CountsNext(g: Graph, w: set<nat>, lab: seq<nat>, count: seq<nat>, lo: nat, i: nat, cnt: nat)
    requires CountsInto(g, w, lab, count, lo, i) && i < |g| && i < |count| && lab[i] < |g| && cnt == |w * g[lab[i]]|
    ensures CountsInto(g, w, lab, count[i := cnt], lo, i + 1)
  {
  }

  lemma BelowSize(n: nat, lab: seq<nat>)
    requires Permutation(n, lab)
    ensures forall i :: 0 <= i < n ==> lab[i] < n
  {
  }

  // Count and tally for the first position.
  method TallyFirst(g: Graph, lab: array<nat>, count: array<nat>, bucket: array<nat>, w: set<nat>, cell1: nat)
    returns (bmin: nat, bmax: nat)
    requires ValidGraph(g) && lab.Length == count.Length == |g| && bucket.Length == |g| + 2
    requires count != bucket && lab != count && lab != bucket && cell1 < |g| && lab[cell1] < |g|
    modifies count, bucket
    ensures CountsInto(g, w, lab[..], count[..], cell1, cell1 + 1)
    ensures CountsBetween(count[..], cell1, cell1 + 1, bmin, bmax) && bmin <= bmax <= |g|
    ensures Tallied(count[..], bucket[..], cell1, cell1 + 1, bmin, bmax)
    ensures bucket[bmin] > 0 && bucket[bmax] > 0
  {
    var cnt: nat := |w * g[lab[cell1]]|;
    OverlapBound(g, w, lab[cell1]);
    count[cell1], bmin, bmax := cnt, cnt, cnt;
    bucket[cnt] := 1;
    OccursOnce(count[..], cell1);
  }

  lemma OccursOnce(xs: seq<nat>, i: nat)
    requires i < |xs|
    ensures Occurrences(xs, i, i + 1, xs[i]) == 1
  {
    assert Occurrences(xs, i, i, xs[i]) == 0;
  }

  // Count the arcs from every vertex of the cell into w, and tally the counts.
  method Tally(g: Graph, lab: array<nat>, count: array<nat>, bucket: array<nat>, w: set<nat>, cell1: nat, cell2: nat)
    returns (bmin: nat, bmax: nat)
    requires ValidGraph(g) && lab.Length == count.Length == |g| && bucket.Length == |g| + 2
    requires count != bucket && lab != count && lab != bucket
    requires Permutation(|g|, lab[..]) && cell1 <= cell2 < |g|
    modifies count, bucket
    ensures CountsInto(g, w, lab[..], count[..], cell1, cell2 + 1)
    ensures CountsBetween(count[..], cell1, cell2 + 1, bmin, bmax)
    ensures Tallied(count[..], bucket[..], cell1, cell2 + 1, bmin, bmax)
    ensures bmin <= bmax < bucket.Length && bucket[bmin] > 0 && bucket[bmax] > 0
  {
    bmin, bmax := TallyFirst(g, lab, count, bucket, w, cell1);
    BelowSize(|g|, lab[..]);
    hide *;
    var i := cell1 + 1;
    while i <= cell2
      invariant cell1 < i <= cell2 + 1
      invariant CountsInto(g, w, lab[..], count[..], cell1, i)
      invariant CountsBetween(count[..], cell1, i, bmin, bmax) && bmin <= bmax <= |g|
      invariant Tallied(count[..], bucket[..], cell1, i, bmin, bmax)
      invariant bucket[bmin] > 0 && bucket[bmax] > 0
    {
      bmin, bmax := TallyNext(g, lab, count, bucket, w, cell1, i, bmin, bmax);
      i := i + 1;
    }
  }

  // Make room for the value cnt between bmin and bmax.
  method Widen(count: array<nat>, bucket: array<nat>, lo: nat, i: nat, bmin0: nat, bmax0: nat, cnt: nat)
    returns (bmin: nat, bmax: nat)
    requires count != bucket && lo <= i <= count.Length && CountsBetween(count[..], lo, i, bmin0, bmax0)
    requires Tallied(count[..], bucket[..], lo, i, bmin0, bmax0) && cnt < bucket.Length
    requires bucket[bmin0] > 0 && bucket[bmax0] > 0
    modifies bucket
    ensures CountsBetween(count[..], lo, i, bmin, bmax) && bmin <= cnt <= bmax
    ensures bmin == (if cnt < bmin0 then cnt else bmin0) && bmax == (if cnt > bmax0 then cnt else bmax0)
    ensures Tallied(count[..], bucket[..], lo, i, bmin, bmax)
    ensures (bmin != cnt ==> bucket[bmin] > 0) && (bmax != cnt ==> bucket[bmax] > 0)
  {
    bmin, bmax := bmin0, bmax0;
    while bmin > cnt
      invariant bmin <= bmin0 && (cnt < bmin0 ==> cnt <= bmin) && (bmin < bmin0 ==> cnt < bmin0)
      invariant CountsBetween(count[..], lo, i, bmin, bmax)
      invariant Tallied(count[..], bucket[..], lo, i, bmin, bmax)
      invariant bucket[bmin0] > 0 && bucket[bmax0] > 0
    {
      NoOccurrence(count[..], lo, i, bmin - 1);
      bmin := bmin - 1;
      bucket[bmin] := 0;
    }
    while bmax < cnt
      invariant bmax0 <= bmax && (cnt > bmax0 ==> bmax <= cnt) && (bmax > bmax0 ==> cnt > bmax0)
      invariant CountsBetween(count[..], lo, i, bmin, bmax)
      invariant Tallied(count[..], bucket[..], lo, i, bmin, bmax)
      invariant bucket[bmin0] > 0 && bucket[bmax0] > 0
    {
      NoOccurrence(count[..], lo, i, bmax + 1);
      bmax := bmax + 1;
      bucket[bmax] := 0;
    }
  }

  lemma TallyOne(was: seq<nat>, tally: seq<nat>, lo: nat, i: nat, bmin: nat, bmax: nat, cnt: nat,
                 count: seq<nat>, bucket: seq<nat>)
    requires CountsBetween(was, lo, i, bmin, bmax) && Tallied(was, tally, lo, i, bmin, bmax)
    requires i < |was| && bmin <= cnt <= bmax
    requires count == was[i := cnt] && bucket == tally[cnt := tally[cnt] + 1]
    ensures CountsBetween(count, lo, i + 1, bmin, bmax) && Tallied(count, bucket, lo, i + 1, bmin, bmax)
    ensures bucket[cnt] > 0
  {
    forall c: nat | bmin <= c <= bmax ensures bucket[c] == Occurrences(count, lo, i + 1, c) {
      OccurrencesSame(was, count, lo, i, c);
    }
  }

  // ----- marking the blocks -----

  // Positions before c1 are divided into blocks. The starts of blocks are news and lo, and c1
  // is the next one.
  ghost predicate Marked(ptn0: seq<int>, ptn: seq<int>, level: int, lo: nat, hi: nat, c1: nat, news: set<nat>) {
    && lo < hi <= |ptn0| == |ptn| && lo <= c1 <= hi
    && (forall k :: 0 <= k < |ptn| && (k < lo || hi - 1 <= k) ==> ptn[k] == ptn0[k])
    && (forall k :: lo <= k < hi - 1 && c1 <= k ==> ptn[k] > level)
    && (forall k :: lo <= k < hi - 1 ==> ptn0[k] > level && (ptn[k] == ptn0[k] || ptn[k] == level))
    && (forall d :: d in news ==> lo < d < c1)
    && (forall d: nat {:trigger d in news} :: lo < d < hi ==> (ptn[d - 1] <= level <==> d in news || d == c1))
  }

  // Inside the finished blocks, ends stand exactly where the sorted counts change.
  ghost predicate EndsAtChanges(ptn: seq<int>, level: int, lo: nat, hi: nat, c1: nat, key: seq<int>) {
    && lo < hi <= |ptn| == |key|
    && forall k, l :: lo <= k && l == k + 1 && l < hi && k < c1 ==> (ptn[k] <= level <==> key[k] != key[l])
  }

  lemma MarkStart(ptn: seq<int>, level: int, cell1: nat, cell2: nat, key: seq<int>)
    requires CellAt(ptn, level, cell1, cell2) && |key| == |ptn|
    ensures Marked(ptn, ptn, level, cell1, cell2 + 1, cell1, {})
    ensures EndsAtChanges(ptn, level, cell1, cell2 + 1, cell1, key)
  {
  }

  // The next block reaches from c1 to c2.
  lemma MarkStep(ptn0: seq<int>, ptn: seq<int>, ptn2: seq<int>, level: int, lo: nat, hi: nat, c1: nat, c2: nat,
                 news: set<nat>, news2: set<nat>)
    requires Marked(ptn0, ptn, level, lo, hi, c1, news) && c1 < c2 <= hi
    requires ptn2 == if c2 < hi then ptn[c2 - 1 := level] else ptn
    requires news2 == if c1 != lo then news + {c1} else news
    ensures Marked(ptn0, ptn2, level, lo, hi, c2, news2) && c1 !in news
  {
  }

  lemma ChangesStep(ptn0: seq<int>, ptn: seq<int>, ptn2: seq<int>, level: int, lo: nat, hi: nat, c1: nat, c2: nat,
                    news: set<nat>, key: seq<int>)
    requires Marked(ptn0, ptn, level, lo, hi, c1, news) && c1 < c2 <= hi
    requires ptn2 == if c2 < hi then ptn[c2 - 1 := level] else ptn
    requires EndsAtChanges(ptn, level, lo, hi, c1, key)
    requires forall k, l :: c1 <= k < c2 && l == k + 1 && l < hi ==> (key[k] != key[l] <==> l == c2)
    ensures EndsAtChanges(ptn2, level, lo, hi, c2, key)
  {
  }

  // bucket[c] is the next free position in the block of c, for every count c below top that
  // occurs, once the entries before position j have been placed.
  ghost predicate Slots(count: seq<nat>, bucket: seq<nat>, lo: nat, hi: nat, bmin: nat, top: nat, j: nat) {
    && lo <= j <= hi <= |count| && top <= |bucket|
    && forall c: nat {:trigger bucket[c]} :: bmin <= c < top && Occurrences(count, lo, hi, c) > 0
         ==> bucket[c] == lo + Below(count, lo, hi, c) + Occurrences(count, lo, j, c)
  }

  ghost predicate StillTallied(count: seq<nat>, bucket: seq<nat>, lo: nat, hi: nat, from: nat, bmax: nat) {
    && lo <= hi <= |count| && bmax < |bucket|
    && forall c: nat :: from <= c <= bmax ==> bucket[c] == Occurrences(count, lo, hi, c)
  }

  lemma StartSlots(count: seq<nat>, bucket: seq<nat>, lo: nat, hi: nat, bmin: nat, bmax: nat)
    requires Tallied(count, bucket, lo, hi, bmin, bmax)
    ensures Slots(count, bucket, lo, hi, bmin, bmin, lo) && StillTallied(count, bucket, lo, hi, bmin, bmax)
  {
  }

  lemma SlotStep(count: seq<nat>, bucket: seq<nat>, lo: nat, hi: nat, bmin: nat, i: nat, bmax: nat)
    requires Slots(count, bucket, lo, hi, bmin, i, lo) && StillTallied(count, bucket, lo, hi, i, bmax)
    requires bmin <= i <= bmax
    ensures bucket[i] == Occurrences(count, lo, hi, i)
    ensures Slots(count, bucket[i := lo + Below(count, lo, hi, i)], lo, hi, bmin, i + 1, lo)
    ensures StillTallied(count, bucket[i := lo + Below(count, lo, hi, i)], lo, hi, i + 1, bmax)
    ensures bucket[i] == 0 ==>
      Slots(count, bucket, lo, hi, bmin, i + 1, lo) && StillTallied(count, bucket, lo, hi, i + 1, bmax)
  {
  }

  // The block of count i reaches from c1 to c2.
  lemma BlockStep(ptn0: seq<int>, ptn: seq<int>, ptn2: seq<int>, level: int, count: seq<nat>, lo: nat, hi: nat,
                  i: nat, bmax: nat, c1: nat, c2: nat, news: set<nat>, news2: set<nat>)
    requires Marked(ptn0, ptn, level, lo, hi, c1, news) && c1 < c2 <= hi && |count| == |ptn| && i <= bmax
    requires ptn2 == if c2 < hi then ptn[c2 - 1 := level] else ptn
    requires news2 == if c1 != lo then news + {c1} else news
    requires c1 == lo + Below(count, lo, hi, i) && c2 == lo + Below(count, lo, hi, i + 1)
    requires Below(count, lo, hi, bmax + 1) == hi - lo
    requires EndsAtChanges(ptn, level, lo, hi, c1, SortedKey(count, lo, hi, |count|, bmax))
    ensures Marked(ptn0, ptn2, level, lo, hi, c2, news2) && c1 !in news
    ensures EndsAtChanges(ptn2, level, lo, hi, c2, SortedKey(count, lo, hi, |count|, bmax))
  {
    var key := SortedKey(count, lo, hi, |count|, bmax);
    MarkStep(ptn0, ptn, ptn2, level, lo, hi, c1, c2, news, news2);
    forall k, l | c1 <= k < c2 && l == k + 1 && l < hi ensures key[k] != key[l] <==> l == c2 {
      KeyAlongBlock(count, lo, hi, |count|, bmax, i, k);
    }
    ChangesStep(ptn0, ptn, ptn2, level, lo, hi, c1, c2, news, key);
  }

  // Everything the marking loop keeps in its arrays, before count i.
  ghost predicate Marking(ptn0: seq<int>, ptn: seq<int>, bucket: seq<nat>, level: int, count: seq<nat>, lo: nat,
                          hi: nat,
                          bmin: nat, i: nat, bmax: nat, c1: nat, news: set<nat>) {
    && |count| == |ptn| && bmin <= i <= bmax + 1
    && Marked(ptn0, ptn, level, lo, hi, c1, news)
    && Slots(count, bucket, lo, hi, bmin, i, lo) && StillTallied(count, bucket, lo, hi, i, bmax)
    && c1 == lo + Below(count, lo, hi, i) && Below(count, lo, hi, bmax + 1) == hi - lo
    && EndsAtChanges(ptn, level, lo, hi, c1, SortedKey(count, lo, hi, |count|, bmax))
  }

  lemma MarkingStart(ptn: seq<int>, bucket: seq<nat>, level: int, count: seq<nat>, cell1: nat, cell2: nat, bmin: nat,
                     bmax: nat)
    requires CellAt(ptn, level, cell1, cell2) && |count| == |ptn|
    requires CountsBetween(count, cell1, cell2 + 1, bmin, bmax) && Tallied(count, bucket, cell1, cell2 + 1, bmin, bmax)
    ensures Marking(ptn, ptn, bucket, level, count, cell1, cell2 + 1, bmin, bmin, bmax, cell1, {})
  {
    MarkStart(ptn, level, cell1, cell2, SortedKey(count, cell1, cell2 + 1, |count|, bmax));
    BelowNone(count, cell1, cell2 + 1, bmin);
    BelowAll(count, cell1, cell2 + 1, bmax + 1);
    StartSlots(count, bucket, cell1, cell2 + 1, bmin, bmax);
  }

  lemma MarkingSkip(ptn0: seq<int>, ptn: seq<int>, bucket: seq<nat>, level: int, count: seq<nat>, lo: nat, hi: nat,
                    bmin: nat, i: nat, bmax: nat, c1: nat, news: set<nat>)
    requires Marking(ptn0, ptn, bucket, level, count, lo, hi, bmin, i, bmax, c1, news)
    requires i <= bmax && bucket[i] == 0
    ensures Marking(ptn0, ptn, bucket, level, count, lo, hi, bmin, i + 1, bmax, c1, news)
  {
    hide Marked, EndsAtChanges, SortedKey;
    SlotStep(count, bucket, lo, hi, bmin, i, bmax);
    hide Slots, StillTallied;
    BelowNext(count, lo, hi, i);
  }

  lemma MarkingStep(ptn0: seq<int>, ptn: seq<int>, bucket: seq<nat>, level: int, count: seq<nat>, lo: nat, hi: nat,
                    bmin: nat, i: nat, bmax: nat, c1: nat, c2: nat, news: set<nat>)
    requires Marking(ptn0, ptn, bucket, level, count, lo, hi, bmin, i, bmax, c1, news)
    requires i <= bmax && bucket[i] > 0 && c2 == c1 + bucket[i]
    ensures c1 < c2 <= hi <= |ptn| && c1 !in news
    ensures Marking(ptn0, if c2 < hi then ptn[c2 - 1 := level] else ptn, bucket[i := c1], level, count, lo, hi,
                    bmin, i + 1, bmax, c2, if c1 != lo then news + {c1} else news)
  {
    SlotStep(count, bucket, lo, hi, bmin, i, bmax);
    BelowNext(count, lo, hi, i);
    BelowMonotone(count, lo, hi, i + 1, bmax + 1);
    hide Slots, StillTallied;
    BlockStep(ptn0, ptn, if c2 < hi then ptn[c2 - 1 := level] else ptn, level, count, lo, hi, i, bmax, c1, c2,
              news, if c1 != lo then news + {c1} else news);
  }

  lemma MarkedBlock(ptn0: seq<int>, ptn: seq<int>, level: int, lo: nat, e: nat, c1: nat, c2: nat, news: set<nat>)
    requires Marked(ptn0, ptn, level, lo, e + 1, c1, news) && CellAt(ptn0, level, lo, e) && c1 < c2 <= e + 1
    ensures c2 - 1 < |ptn| && NextBlock(ptn, if c2 < e + 1 then ptn[c2 - 1 := level] else ptn, level, c1, c2)
  {
    if lo < c1 { assert c1 in news || c1 == c1; }
  }

  lemma MarkingBlock(ptn0: seq<int>, ptn: seq<int>, bucket: seq<nat>, level: int, count: seq<nat>, lo: nat, e: nat,
                     bmin: nat, i: nat, bmax: nat, c1: nat, c2: nat, news: set<nat>)
    requires Marking(ptn0, ptn, bucket, level, count, lo, e + 1, bmin, i, bmax, c1, news)
    requires CellAt(ptn0, level, lo, e) && c1 < c2 <= e + 1
    ensures c2 - 1 < |ptn| && NextBlock(ptn, if c2 < e + 1 then ptn[c2 - 1 := level] else ptn, level, c1, c2)
  {
    hide CellAt, Marked, NextBlock;
    MarkedBlock(ptn0, ptn, level, lo, e, c1, c2, news);
  }

  // Give count i its block, which starts at c1, and mark the end of the block.
  method EndBlock(ptn: array<int>, bucket: array<nat>, level: int, i: nat, c1: nat, cell2: nat,
                  ghost ptn0: seq<int>, ghost count: seq<nat>, ghost lo: nat, ghost bmin: nat, ghost bmax: nat,
                  ghost news: set<nat>)
    returns (c2: nat)
    requires Marking(ptn0, ptn[..], bucket[..], level, count, lo, cell2 + 1, bmin, i, bmax, c1, news)
    requires i <= bmax < bucket.Length && bucket[i] > 0 && CellAt(ptn0, level, lo, cell2)
    modifies ptn, bucket
    ensures NextBlock(old(ptn[..]), ptn[..], level, c1, c2)
    ensures c1 < c2 <= cell2 + 1 <= ptn.Length && c1 !in news
    ensures Marking(ptn0, ptn[..], bucket[..], level, count, lo, cell2 + 1, bmin, i + 1, bmax, c2,
                    if c1 != lo then news + {c1} else news)
  {
    hide Marking;
    ghost var was, tally := ptn[..], bucket[..];
    c2 := c1 + bucket[i];
    MarkingStep(ptn0, was, tally, level, count, lo, cell2 + 1, bmin, i, bmax, c1, c2, news);
    MarkingBlock(ptn0, was, tally, level, count, lo, cell2, bmin, i, bmax, c1, c2, news);
    bucket[i] := c1;
    if c2 <= cell2 {
      ptn[c2 - 1] := level;
    }
    assert bucket[..] == tally[i := c1];
    assert ptn[..] == if c2 < cell2 + 1 then was[c2 - 1 := level] else was;
  }

  // Divide the cell into one block for every count that occurs, in ascending order.
  method MarkBlocks(ptn: array<int>, bucket: array<nat>, level: int, bmin: nat, bmax: nat, cell1: nat, cell2: nat,
                    active0: set<nat>, numcells0: int, hint0: nat, maxpos0: nat, ghost count: seq<nat>)
    returns (active: set<nat>, numcells: int, hint: nat, maxpos: nat, ghost news: set<nat>)
    requires CellAt(ptn[..], level, cell1, cell2) && |count| == ptn.Length && hint0 < ptn.Length
    requires CountsBetween(count, cell1, cell2 + 1, bmin, bmax)
    requires Tallied(count, bucket[..], cell1, cell2 + 1, bmin, bmax) && bucket[bmin] > 0
    modifies ptn, bucket
    ensures Marking(old(ptn[..]), ptn[..], bucket[..], level, count, cell1, cell2 + 1, bmin, bmax + 1, bmax, cell2 + 1,
                    news)
    ensures active == active0 + news && numcells == numcells0 + |news| && hint < ptn.Length
    ensures (maxpos == cell1 || maxpos in news) && FirstLargest(ptn[..], level, cell1, cell2 + 1, maxpos)
    ensures LastOf(Singles(ptn[..], level, cell1, cell2 + 1), hint0, hint)
  {
    hide *;
    ghost var ptn0, hi := ptn[..], cell2 + 1;
    active, numcells, hint, maxpos, news := active0, numcells0, hint0, maxpos0, {};
    var c1: nat, maxcell: int := cell1, -1;
    MarkingStart(ptn0, bucket[..], level, count, cell1, cell2, bmin, bmax);
    TalliedBounds(count, bucket[..], cell1, cell2 + 1, bmin, bmax);
    NoSingles(ptn0, level, cell1);
    LastOfNone(hint);
    for i := bmin to bmax + 1
      invariant Marking(ptn0, ptn[..], bucket[..], level, count, cell1, hi, bmin, i, bmax, c1, news)
      invariant active == active0 + news && numcells == numcells0 + |news| && hint < ptn.Length
      invariant if maxcell == -1 then c1 == cell1 else maxpos == cell1 || maxpos in news
      invariant -1 <= maxcell && (maxcell != -1 ==> FirstBiggest(ptn[..], level, cell1, c1, maxpos, maxcell))
      invariant cell1 <= c1 && LastOf(Singles(ptn[..], level, cell1, c1), hint0, hint)
      invariant i == bmin ==> maxcell == -1 && bucket[i] > 0
      invariant i > bmin ==> maxcell != -1
    {
      if bucket[i] > 0 {
        ghost var was := ptn[..];
        var c2 := EndBlock(ptn, bucket, level, i, c1, cell2, ptn0, count, cell1, bmin, bmax, news);
        if maxcell == -1 {
          FirstBlock(was, ptn[..], level, cell1, c2);
        } else {
          FirstBiggestNext(was, ptn[..], level, cell1, c1, c2, maxpos, maxcell);
        }
        SinglesNext(was, ptn[..], level, cell1, c1, c2, hint0, hint);
        if c2 - c1 > maxcell {
          maxcell := c2 - c1;
          maxpos := c1;
        }
        if c1 != cell1 {
          active := active + {c1};
          if c2 - c1 == 1 { hint := c1; }
          numcells := numcells + 1;
          news := news + {c1};
        }
        c1 := c2;
      } else {
        MarkingSkip(ptn0, ptn[..], bucket[..], level, count, cell1, hi, bmin, i, bmax, c1, news);
      }
    }
    MarkingEnd(ptn0, ptn[..], bucket[..], level, count, cell1, hi, bmin, bmax, c1, news);
    FirstLargestMade(ptn[..], level, cell1, hi, maxpos, maxcell);
  }

  lemma TalliedBounds(count: seq<nat>, bucket: seq<nat>, lo: nat, hi: nat, bmin: nat, bmax: nat)
    requires Tallied(count, bucket, lo, hi, bmin, bmax)
    ensures bmin <= bmax < |bucket|
  {
  }

  lemma FirstLargestMade(ptn: seq<int>, level: int, lo: nat, hi: nat, pos: nat, size: nat)
    requires FirstBiggest(ptn, level, lo, hi, pos, size)
    ensures FirstLargest(ptn, level, lo, hi, pos)
  {
  }

  lemma MarkingEnd(ptn0: seq<int>, ptn: seq<int>, bucket: seq<nat>, level: int, count: seq<nat>, lo: nat, hi: nat,
                   bmin: nat, bmax: nat, c1: nat, news: set<nat>)
    requires Marking(ptn0, ptn, bucket, level, count, lo, hi, bmin, bmax + 1, bmax, c1, news)
    ensures c1 == hi
  {
  }

  // ----- moving the vertices -----

  // The vertices at positions lo..j-1 have been copied to their places.
  ghost predicate Copied(lab: seq<nat>, work: seq<nat>, count: seq<nat>, lo: nat, hi: nat, j: nat) {
    && lo <= j <= hi <= |count| == |lab| == |work|
    && forall i :: lo <= i < j ==> lo <= Place(count, lo, hi, i) < hi && work[Place(count, lo, hi, i)] == lab[i]
  }

  lemma CopyStep(lab: seq<nat>, work: seq<nat>, bucket: seq<nat>, count: seq<nat>, lo: nat, hi: nat, j: nat, bmin: nat,
                 bmax: nat)
    requires Copied(lab, work, count, lo, hi, j) && Slots(count, bucket, lo, hi, bmin, bmax + 1, j) && j < hi
    requires CountsBetween(count, lo, hi, bmin, bmax)
    ensures count[j] < |bucket| && bucket[count[j]] < hi
    ensures Copied(lab, work[bucket[count[j]] := lab[j]], count, lo, hi, j + 1)
    ensures Slots(count, bucket[count[j] := bucket[count[j]] + 1], lo, hi, bmin, bmax + 1, j + 1)
  {
    SomeOccurrence(count, lo, hi, j);
    var at := Place(count, lo, hi, j);
    PlaceInBlock(count, lo, hi, j);
    assert bucket[count[j]] == at;
    forall i | lo <= i < j ensures Place(count, lo, hi, i) != at {
      PlaceInjective(count, lo, hi, i, j);
    }
  }

  // Move the vertices of the cell to the blocks of their counts, keeping their order.
  method PlaceAll(lab: array<nat>, count: array<nat>, bucket: array<nat>, workperm: array<nat>, cell1: nat, cell2: nat,
                  ghost bmin: nat, ghost bmax: nat)
    requires lab.Length == count.Length == workperm.Length && cell1 <= cell2 < lab.Length
    requires lab != count && lab != bucket && lab != workperm && count != bucket && count != workperm
    requires bucket != workperm
    requires CountsBetween(count[..], cell1, cell2 + 1, bmin, bmax)
    requires Slots(count[..], bucket[..], cell1, cell2 + 1, bmin, bmax + 1, cell1)
    requires Permutation(lab.Length, lab[..])
    modifies lab, bucket, workperm
    ensures Permutation(lab.Length, lab[..]) && SameOutside(old(lab[..]), lab[..], cell1, cell2)
    ensures Copied(old(lab[..]), lab[..], count[..], cell1, cell2 + 1, cell2 + 1)
  {
    ghost var lab0, hi := lab[..], cell2 + 1;
    hide Slots, Copied, CountsBetween, Permutation;
    NothingCopied(lab0, workperm[..], count[..], cell1, hi);
    for i := cell1 to cell2 + 1
      invariant Copied(lab0, workperm[..], count[..], cell1, hi, i) && lab[..] == lab0
      invariant Slots(count[..], bucket[..], cell1, hi, bmin, bmax + 1, i)
    {
      ghost var work, slots := workperm[..], bucket[..];
      CopyStep(lab0, work, slots, count[..], cell1, hi, i, bmin, bmax);
      workperm[bucket[count[i]]] := lab[i];
      bucket[count[i]] := bucket[count[i]] + 1;
      assert workperm[..] == work[slots[count[i]] := lab0[i]];
      assert bucket[..] == slots[count[i] := slots[count[i]] + 1];
    }
    CopyBack(lab, workperm, cell1, cell2);
    CopiedPermutes(lab0, workperm[..], lab[..], count[..], cell1, hi);
  }

  method CopyBack(lab: array<nat>, workperm: array<nat>, cell1: nat, cell2: nat)
    requires lab.Length == workperm.Length && lab != workperm && cell1 <= cell2 < lab.Length
    modifies lab
    ensures SameOutside(old(lab[..]), lab[..], cell1, cell2)
    ensures forall k :: cell1 <= k <= cell2 ==> lab[k] == workperm[k]
  {
    for i := cell1 to cell2 + 1
      invariant SameOutside(old(lab[..]), lab[..], cell1, cell2)
      invariant forall k :: cell1 <= k < i ==> lab[k] == workperm[k]
    {
      lab[i] := workperm[i];
    }
  }

  lemma NothingCopied(lab: seq<nat>, work: seq<nat>, count: seq<nat>, lo: nat, hi: nat)
    requires lo <= hi <= |count| == |lab| == |work|
    ensures Copied(lab, work, count, lo, hi, lo)
  {
  }

  lemma CopiedPermutes(lab: seq<nat>, work: seq<nat>, lab2: seq<nat>, count: seq<nat>, lo: nat, hi: nat)
    requires Copied(lab, work, count, lo, hi, hi) && lo < hi && Permutation(|lab|, lab)
    requires SameOutside(lab, lab2, lo, hi - 1) && forall k :: lo <= k < hi ==> lab2[k] == work[k]
    ensures Copied(lab, lab2, count, lo, hi, hi) && Permutation(|lab|, lab2)
  {
    var n := |lab|;
    var p := Places(count, lo, hi, n);
    PlacesPermute(count, lo, hi, n);
    forall i | 0 <= i < n ensures lab2[p[i]] == lab[i] {
    }
    MovedPermutes(n, p, lab, lab2);
  }

  lemma PlacedCounts(g: Graph, w: set<nat>, lab: seq<nat>, lab2: seq<nat>, count: seq<nat>, cell1: nat, cell2: nat,
                     bmin: nat, bmax: nat)
    requires CountsInto(g, w, lab, count, cell1, cell2 + 1) && CountsBetween(count, cell1, cell2 + 1, bmin, bmax)
    requires Copied(lab, lab2, count, cell1, cell2 + 1, cell2 + 1) && cell1 <= cell2 && |w| != 1
    ensures KeyAt(CountedKey(g, w), lab2, cell1, cell2, SortedKey(count, cell1, cell2 + 1, |count|, bmax))
  {
    var n, hi := |count|, cell2 + 1;
    var key, p := SortedKey(count, cell1, hi, n, bmax), Places(count, cell1, hi, n);
    PlacesPermute(count, cell1, hi, n);
    forall k: nat | cell1 <= k <= cell2 ensures Count(RowWeights(g), w, lab2[k]) == key[k] {
      var i := PermutationOnto(n, p, k);
      assert cell1 <= i < hi;
      KeyAtPlace(count, cell1, hi, n, bmax, i);
      CountIsOverlap(g, w, lab[i]);
    }
  }

  // ----- one cell against a splitting cell with several vertices -----

  // A fully marked cell is cut along its key.
  lemma EndsAreCut(ptn0: seq<int>, ptn: seq<int>, level: int, c1: nat, c2: nat, key: seq<int>, news: set<nat>)
    requires Marked(ptn0, ptn, level, c1, c2 + 1, c2 + 1, news) && CellAt(ptn0, level, c1, c2)
    requires EndsAtChanges(ptn, level, c1, c2 + 1, c2 + 1, key)
    requires forall i, j :: c1 <= i < j <= c2 ==> key[i] <= key[j]
    ensures CutAt(ptn, level, c1, c2, key) && Finer(ptn0, ptn, level)
    ensures Starts(ptn, level) == Starts(ptn0, level) + news && Starts(ptn0, level) !! news
    ensures forall d: nat :: c1 <= d <= c2 && IsStart(ptn, level, d) ==> d == c1 || d in news
    ensures forall d :: d in news ==> c1 <= d <= c2
  {
    forall d: nat | d < |ptn|
      ensures IsStart(ptn, level, d) <==> IsStart(ptn0, level, d) || d in news
      ensures d in news ==> !IsStart(ptn0, level, d)
    {
      StartsAfter(ptn0, ptn, level, c1, c2, d);
    }
  }

  lemma MarkedIsCut(ptn0: seq<int>, ptn: seq<int>, bucket: seq<nat>, level: int, count: seq<nat>, c1: nat, c2: nat,
                    bmin: nat, bmax: nat, news: set<nat>)
    requires Marking(ptn0, ptn, bucket, level, count, c1, c2 + 1, bmin, bmax + 1, bmax, c2 + 1, news)
    requires CellAt(ptn0, level, c1, c2)
    ensures CutAt(ptn, level, c1, c2, SortedKey(count, c1, c2 + 1, |count|, bmax))
    ensures Finer(ptn0, ptn, level)
    ensures Starts(ptn, level) == Starts(ptn0, level) + news && Starts(ptn0, level) !! news
    ensures forall d: nat :: c1 <= d <= c2 && IsStart(ptn, level, d) ==> d == c1 || d in news
    ensures forall d :: d in news ==> c1 <= d <= c2
  {
    KeySorted(count, c1, c2 + 1, |count|, bmax);
    EndsAreCut(ptn0, ptn, level, c1, c2, SortedKey(count, c1, c2 + 1, |count|, bmax), news);
  }

  lemma NewsActivate(tie: Tie, ptn0: seq<int>, ptn: seq<int>, level: int, c1: nat, c2: nat, active: set<nat>,
                     news: set<nat>, maxpos: nat)
    requires ActiveOk(ptn0, level, active) && |ptn| == |ptn0| && CellAt(ptn0, level, c1, c2)
    requires Starts(ptn, level) == Starts(ptn0, level) + news && Starts(ptn0, level) !! news
    requires forall d: nat :: c1 <= d <= c2 && IsStart(ptn, level, d) ==> d == c1 || d in news
    requires maxpos == c1 || maxpos in news
    requires c1 !in active ==> LargestPiece(tie, ptn, level, c1, c2 + 1, maxpos)
    requires forall d :: d in news ==> c1 <= d <= c2
    ensures Activated(ptn, level, c1, c2, active,
                      if c1 in active then active + news else active + news + {c1} - {maxpos}, maxpos)
    ensures Frugal(tie, ptn, level, c1, c2, active,
                   if c1 in active then active + news else active + news + {c1} - {maxpos}, maxpos)
  {
    FrugalNews(tie, ptn, level, c1, c2, active, news, maxpos);
    var active2 := if c1 in active then active + news else active + news + {c1} - {maxpos};
    forall d | d in active2 ensures d < |ptn| && IsStart(ptn, level, d) {
      assert d in Starts(ptn0, level) || d in news;
      assert d in Starts(ptn, level);
    }
    forall d | d in active ensures d in active2 {
      assert d in Starts(ptn0, level);
    }
  }

  // Cut one cell by the number of arcs into w.
  method CutByCounts(g: Graph, lab: array<nat>, ptn: array<int>, count: array<nat>, bucket: array<nat>,
                     workperm: array<nat>, level: int, w: set<nat>, cell1: nat, cell2: nat,
                     active0: set<nat>, numcells0: int, hint0: nat, maxpos0: nat, ghost base: Part, ghost hintBase: nat)
    returns (active: set<nat>, numcells: int, hint: nat, maxpos: nat, ghost spared: nat)
    requires ValidGraph(g) && lab.Length == ptn.Length == count.Length == workperm.Length == |g|
    requires bucket.Length == |g| + 2 && hint0 < |g| && |w| != 1
    requires lab != count && lab != bucket && lab != workperm && count != bucket && count != workperm
    requires bucket != workperm
    requires Cutting(g, level, base, Part(lab[..], ptn[..], active0, numcells0), w, cell1, hintBase, hint0)
    requires CellAt(ptn[..], level, cell1, cell2) && cell1 < cell2
    modifies lab, ptn, count, bucket, workperm
    ensures Cutting(g, level, base, Part(lab[..], ptn[..], active, numcells), w, cell2 + 1, hintBase, hint)
    ensures Activated(ptn[..], level, cell1, cell2, active0, active, spared)
    ensures Frugal(Earliest, ptn[..], level, cell1, cell2, active0, active, spared)
    ensures hint < |g|
  {
    hide *;
    ghost var s := Part(lab[..], ptn[..], active0, numcells0);
    active, numcells, hint, maxpos, spared := active0, numcells0, hint0, maxpos0, cell1;
    CuttingParts(g, level, base, s, w, cell1, hintBase, hint0);
    CellBounds(s.ptn, level, cell1, cell2);
    var bmin, bmax := Tally(g, lab, count, bucket, w, cell1, cell2);
    if bmin == bmax {
      EqualCounts(g, level, base, s, w, cell1, cell2, count[..], bmin, hintBase, hint0);
      NoCutAtAll(s.ptn, level, cell1, cell2, active);
      return;
    }
    active, numcells, hint, maxpos :=
      MarkAndPlace(g, lab, ptn, count, bucket, workperm, level, w, bmin, bmax, cell1, cell2, active, numcells, hint,
                   maxpos, s);
    spared := maxpos;
    CuttingDone(g, level, base, s, Part(lab[..], ptn[..], active, numcells), w, cell1, cell2,
                SortedKey(count[..], cell1, cell2 + 1, |g|, bmax), maxpos, hintBase, hint0, hint);
  }

  lemma NoCutAtAll(ptn: seq<int>, level: int, c1: nat, c2: nat, active: set<nat>)
    requires CellAt(ptn, level, c1, c2) && ActiveOk(ptn, level, active)
    ensures Activated(ptn, level, c1, c2, active, active, c1)
    ensures Frugal(Earliest, ptn, level, c1, c2, active, active, c1)
  {
    NoCut(Earliest, ptn, level, c1, c2, active, seq(|ptn|, _ => 0));
  }

  // The cell has several counts: mark the blocks, move the vertices and make blocks active.
  method MarkAndPlace(g: Graph, lab: array<nat>, ptn: array<int>, count: array<nat>, bucket: array<nat>,
                      workperm: array<nat>, level: int, w: set<nat>, bmin: nat, bmax: nat, cell1: nat, cell2: nat,
                      active0: set<nat>, numcells0: int, hint0: nat, maxpos0: nat, ghost s: Part)
    returns (active: set<nat>, numcells: int, hint: nat, maxpos: nat)
    requires lab.Length == ptn.Length == count.Length == workperm.Length == |g| && hint0 < |g|
    requires lab != count && lab != bucket && lab != workperm && count != bucket && count != workperm
    requires bucket != workperm
    requires s == Part(lab[..], ptn[..], active0, numcells0) && Permutation(|g|, s.lab)
    requires ActiveOk(s.ptn, level, active0)
    requires numcells0 == |Starts(s.ptn, level)| && CellAt(s.ptn, level, cell1, cell2) && cell1 <= cell2 < |g|
    requires CountsInto(g, w, s.lab, count[..], cell1, cell2 + 1)
    requires CountsBetween(count[..], cell1, cell2 + 1, bmin, bmax)
    requires Tallied(count[..], bucket[..], cell1, cell2 + 1, bmin, bmax) && bmin < bucket.Length && bucket[bmin] > 0
    requires |w| != 1
    modifies lab, ptn, bucket, workperm
    ensures Permutation(|g|, lab[..]) && Within(s.lab, s.ptn, lab[..], ptn[..], cell1, cell2) && hint < |g|
    ensures CutAt(ptn[..], level, cell1, cell2, SortedKey(count[..], cell1, cell2 + 1, |g|, bmax))
    ensures KeyAt(CountedKey(g, w), lab[..], cell1, cell2, SortedKey(count[..], cell1, cell2 + 1, |g|, bmax))
    ensures Activated(ptn[..], level, cell1, cell2, active0, active, maxpos) && Finer(s.ptn, ptn[..], level)
    ensures Frugal(Earliest, ptn[..], level, cell1, cell2, active0, active, maxpos)
    ensures numcells == |Starts(ptn[..], level)| >= numcells0 && (numcells == numcells0 ==> active == active0)
    ensures HintAt(ptn[..], level, cell1, cell2, false, hint0, hint)
  {
    hide *;
    ghost var news;
    ghost var counts := count[..];
    active, numcells, hint, maxpos, news :=
      MarkBlocks(ptn, bucket, level, bmin, bmax, cell1, cell2, active0, numcells0, hint0, maxpos0, counts);
    MarkedIsCut(s.ptn, ptn[..], bucket[..], level, counts, cell1, cell2, bmin, bmax, news);
    MarkingSlots(s.ptn, ptn[..], bucket[..], level, counts, cell1, cell2, bmin, bmax, news);
    HintMade(ptn[..], level, cell1, cell2, hint0, hint);
    FirstIsSpare(ptn[..], level, cell1, cell2 + 1, maxpos);
    NewsActivate(Earliest, s.ptn, ptn[..], level, cell1, cell2, active0, news, maxpos);
    OldNotNews(s.ptn, level, cell1, cell2, news);
    ghost var ptn1 := ptn[..];
    PlaceAll(lab, count, bucket, workperm, cell1, cell2, bmin, bmax);
    PlacedCounts(g, w, s.lab, lab[..], counts, cell1, cell2, bmin, bmax);
    WithinMade(s.lab, s.ptn, lab[..], ptn1, cell1, cell2);
    if cell1 !in active {
      active := active + {cell1};
      active := active - {maxpos};
    }
    assert numcells0 + |news| == |Starts(s.ptn, level) + news|;
    NoNews(news);
  }

  lemma NoNews(news: set<nat>)
    ensures |news| == 0 ==> news == {}
  {
  }

  lemma OldNotNews(ptn: seq<int>, level: int, cell1: nat, cell2: nat, news: set<nat>)
    requires CellAt(ptn, level, cell1, cell2) && Starts(ptn, level) !! news
    ensures cell1 !in news
  {
    assert cell1 in Starts(ptn, level);
  }

  lemma WithinMade(lab: seq<nat>, ptn: seq<int>, lab2: seq<nat>, ptn2: seq<int>, c1: nat, c2: nat)
    requires SameOutside(lab, lab2, c1, c2) && |ptn2| == |ptn|
    requires forall k :: 0 <= k < |ptn| && (k < c1 || c2 <= k) ==> ptn2[k] == ptn[k]
    ensures Within(lab, ptn, lab2, ptn2, c1, c2)
  {
  }

  lemma EqualCounts(g: Graph, level: int, base: Part, s: Part, w: set<nat>, cell1: nat, cell2: nat, count: seq<nat>,
                    c: nat, hintBase: nat, hint: nat)
    requires Cutting(g, level, base, s, w, cell1, hintBase, hint)
    requires CellAt(s.ptn, level, cell1, cell2) && cell2 < |s.lab| && |w| != 1
    requires CountsInto(g, w, s.lab, count, cell1, cell2 + 1) && CountsBetween(count, cell1, cell2 + 1, c, c)
    ensures Cutting(g, level, base, s, w, cell2 + 1, hintBase, hint)
  {
    forall i | cell1 <= i <= cell2 ensures Count(RowWeights(g), w, s.lab[i]) == c {
      CountIsOverlap(g, w, s.lab[i]);
    }
    CuttingUncut(g, level, base, s, w, cell1, cell2, hintBase, hint);
  }

  lemma LastOfNone(hint: nat)
    ensures LastOf({}, hint, hint)
  {
  }

  lemma MarkingSlots(ptn0: seq<int>, ptn: seq<int>, bucket: seq<nat>, level: int, count: seq<nat>, c1: nat, c2: nat,
                     bmin: nat, bmax: nat, news: set<nat>)
    requires Marking(ptn0, ptn, bucket, level, count, c1, c2 + 1, bmin, bmax + 1, bmax, c2 + 1, news)
    ensures Slots(count, bucket, c1, c2 + 1, bmin, bmax + 1, c1)
    ensures |ptn| == |ptn0|
    ensures forall k :: 0 <= k < |ptn| && (k < c1 || c2 <= k) ==> ptn[k] == ptn0[k]
  {
  }

  // ----- the whole refinement -----

  lemma SingleCell(g: Graph, level: int, base: Part, s: Part, w: set<nat>, c: nat, hintBase: nat, hint: nat)
    requires Cutting(g, level, base, s, w, c, hintBase, hint) && CellAt(s.ptn, level, c, c)
    ensures Cutting(g, level, base, s, w, c + 1, hintBase, hint)
  {
    CuttingParts(g, level, base, s, w, c, hintBase, hint);
    CuttingUncut(g, level, base, s, w, c, c, hintBase, hint);
  }

  // The last position of the cell that starts at c1.
  method CellEnd(ptn: array<int>, level: int, c1: nat) returns (c2: nat)
    requires c1 < ptn.Length && IsStart(ptn[..], level, c1) && ptn[ptn.Length - 1] <= level
    ensures CellAt(ptn[..], level, c1, c2) && c2 < ptn.Length
  {
    c2 := c1;
    while ptn[c2] > level
      invariant c1 <= c2 < ptn.Length && forall k :: c1 <= k < c2 ==> ptn[k] > level
      decreases ptn.Length - c2
    {
      c2 := c2 + 1;
    }
  }

  // Use a splitting cell with the single vertex u against the cell at cell1.
  method CutNextByVertex(g: Graph, lab: array<nat>, ptn: array<int>, level: int, u: nat, cell1: nat,
                         active0: set<nat>, numcells0: int, hint0: nat, ghost base: Part, ghost hintBase: nat,
                         ghost w: set<nat>)
    returns (cell2: nat, active: set<nat>, numcells: int, hint: nat)
    requires lab.Length == ptn.Length == |g| && u < |g| && hint0 < |g| && cell1 < |g| && w == {u}
    requires Cutting(g, level, base, Part(lab[..], ptn[..], active0, numcells0), w, cell1, hintBase, hint0)
    modifies lab, ptn
    ensures Cutting(g, level, base, Part(lab[..], ptn[..], active, numcells), w, cell2 + 1, hintBase, hint)
    ensures cell1 <= cell2 < |g| && hint < |g|
  {
    hide *;
    ghost var s := Part(lab[..], ptn[..], active0, numcells0);
    active, numcells, hint := active0, numcells0, hint0;
    CuttingParts(g, level, base, s, w, cell1, hintBase, hint0);
    cell2 := CellEnd(ptn, level, cell1);
    if cell1 == cell2 {
      SingleCell(g, level, base, s, w, cell1, hintBase, hint);
    } else {
      ghost var spared;
      active, numcells, hint, spared :=
        CutByVertex(g, lab, ptn, level, u, cell1, cell2, active, numcells, hint, base, hintBase);
    }
  }

  // Use a splitting cell with the single vertex u against every cell.
  method SplitByVertex(g: Graph, lab: array<nat>, ptn: array<int>, level: int, u: nat,
                       active0: set<nat>, numcells0: int, hint0: nat, ghost base: Part, ghost hintBase: nat)
    returns (active: set<nat>, numcells: int, hint: nat)
    requires lab.Length == ptn.Length == |g| && u < |g| && hint0 < |g|
    requires Cutting(g, level, base, Part(lab[..], ptn[..], active0, numcells0), {u}, 0, hintBase, hint0)
    modifies lab, ptn
    ensures Cutting(g, level, base, Part(lab[..], ptn[..], active, numcells), {u}, |g|, hintBase, hint)
    ensures hint < |g|
  {
    hide *;
    ghost var w := {u};
    active, numcells, hint := active0, numcells0, hint0;
    var cell1 := 0;
    while cell1 < |g|
      invariant cell1 <= |g| && hint < |g|
      invariant Cutting(g, level, base, Part(lab[..], ptn[..], active, numcells), w, cell1, hintBase, hint)
    {
      var cell2;
      cell2, active, numcells, hint :=
        CutNextByVertex(g, lab, ptn, level, u, cell1, active, numcells, hint, base, hintBase, w);
      cell1 := cell2 + 1;
    }
  }

  // Use a splitting cell with several vertices against the cell at cell1.
  method CutNextByCounts(g: Graph, lab: array<nat>, ptn: array<int>, count: array<nat>, bucket: array<nat>,
                         workperm: array<nat>, level: int, w: set<nat>, cell1: nat,
                         active0: set<nat>, numcells0: int, hint0: nat, maxpos0: nat, ghost base: Part,
                         ghost hintBase: nat)
    returns (cell2: nat, active: set<nat>, numcells: int, hint: nat, maxpos: nat)
    requires ValidGraph(g) && lab.Length == ptn.Length == count.Length == workperm.Length == |g|
    requires bucket.Length == |g| + 2 && hint0 < |g| && cell1 < |g| && |w| != 1
    requires lab != count && lab != bucket && lab != workperm && count != bucket && count != workperm
    requires bucket != workperm
    requires Cutting(g, level, base, Part(lab[..], ptn[..], active0, numcells0), w, cell1, hintBase, hint0)
    modifies lab, ptn, count, bucket, workperm
    ensures Cutting(g, level, base, Part(lab[..], ptn[..], active, numcells), w, cell2 + 1, hintBase, hint)
    ensures cell1 <= cell2 < |g| && hint < |g|
  {
    hide *;
    ghost var s := Part(lab[..], ptn[..], active0, numcells0);
    active, numcells, hint, maxpos := active0, numcells0, hint0, maxpos0;
    CuttingParts(g, level, base, s, w, cell1, hintBase, hint0);
    cell2 := CellEnd(ptn, level, cell1);
    if cell1 == cell2 {
      SingleCell(g, level, base, s, w, cell1, hintBase, hint);
    } else {
      ghost var spared;
      active, numcells, hint, maxpos, spared :=
        CutByCounts(g, lab, ptn, count, bucket, workperm, level, w, cell1, cell2, active, numcells, hint, maxpos, base,
                    hintBase);
    }
  }

  // Use a splitting cell with several vertices against every cell.
  method SplitByCounts(g: Graph, lab: array<nat>, ptn: array<int>, count: array<nat>, bucket: array<nat>,
                       workperm: array<nat>, level: int, w: set<nat>,
                       active0: set<nat>, numcells0: int, hint0: nat, maxpos0: nat, ghost base: Part,
                       ghost hintBase: nat)
    returns (active: set<nat>, numcells: int, hint: nat, maxpos: nat)
    requires ValidGraph(g) && lab.Length == ptn.Length == count.Length == workperm.Length == |g|
    requires bucket.Length == |g| + 2 && hint0 < |g| && |w| != 1
    requires lab != count && lab != bucket && lab != workperm && count != bucket && count != workperm
    requires bucket != workperm
    requires Cutting(g, level, base, Part(lab[..], ptn[..], active0, numcells0), w, 0, hintBase, hint0)
    modifies lab, ptn, count, bucket, workperm
    ensures Cutting(g, level, base, Part(lab[..], ptn[..], active, numcells), w, |g|, hintBase, hint)
    ensures hint < |g|
  {
    hide *;
    active, numcells, hint, maxpos := active0, numcells0, hint0, maxpos0;
    var cell1 := 0;
    while cell1 < |g|
      invariant cell1 <= |g| && hint < |g|
      invariant Cutting(g, level, base, Part(lab[..], ptn[..], active, numcells), w, cell1, hintBase, hint)
    {
      var cell2;
      cell2, active, numcells, hint, maxpos :=
        CutNextByCounts(g, lab, ptn, count, bucket, workperm, level, w, cell1, active, numcells, hint, maxpos, base,
                    hintBase);
      cell1 := cell2 + 1;
    }
  }

  // The active cell to use next: the hinted one, else the next one after it, else the first one.
  method NextActive(active: set<nat>, hint: nat, n: nat) returns (split1: int)
    requires hint < n && forall d :: d in active ==> d < n
    ensures if active == {} then split1 == -1 else 0 <= split1 && Chosen(active, hint, split1)
  {
    if hint in active {
      return hint;
    }
    split1 := NextElement(active, hint, n);
    if split1 < 0 {
      split1 := NextElement(active, -1, n);
    }
    if split1 < 0 {
      forall d | d in active ensures false { }
      assert active == {};
    }
  }

  // The vertices of a cell as a set.
  method Gather(lab: array<nat>, split1: nat, split2: nat) returns (workset: set<nat>)
    requires split1 <= split2 < lab.Length
    ensures workset == Members(lab[..], split1, split2)
  {
    workset := {};
    for i := split1 to split2 + 1
      invariant forall v :: v in workset <==> v in lab[split1..i]
    {
      workset := workset + {lab[i]};
      assert lab[split1..i + 1] == lab[split1..i] + [lab[i]];
    }
    assert lab[split1..split2 + 1] == lab[..][split1..split2 + 1];
  }

  // Refine the partition by one active cell after another. The run says which cells were used and what
  // each of them cut; what the result is worth follows from that. An active set is correct when
  // agreeing on the arcs into active cells is agreeing on the arcs into all cells; all cells together
  // always are (StartWithAll). From a correct active set the result is equitable if one direction of
  // the arcs tells the other, and the coarsest equitable partition if each tells the other.
  method Refine1(g: Graph, lab: array<nat>, ptn: array<int>, level: int, numcells0: int, active0: set<nat>)
    returns (numcells: int, active: set<nat>, ghost run: Run)
    requires ValidGraph(g) && lab.Length == ptn.Length == |g|
    requires PartOk(|g|, level, Part(lab[..], ptn[..], active0, numcells0))
    modifies lab, ptn
    ensures Refinement1(g, level, Part(old(lab[..]), old(ptn[..]), active0, numcells0), run,
                        Part(lab[..], ptn[..], active, numcells))
    ensures RefinementSound(g, level, Part(old(lab[..]), old(ptn[..]), active0, numcells0),
                            Part(lab[..], ptn[..], active, numcells))
  {
    hide *;
    ghost var n, s0 := |g|, Part(lab[..], ptn[..], active0, numcells0);
    numcells, active := numcells0, active0;
    var count, workperm, bucket := new nat[|g|], new nat[|g|], new nat[|g| + 2];
    var hint: nat, maxpos: nat, split1: int := 0, 0, -1;
    run := At(s0);
    RunBegins(g, level, s0);
    while true
      invariant IsCutRun(g, level, run) && First(run) == s0 && run.state == Part(lab[..], ptn[..], active, numcells)
      invariant hint == HintOf(n, level, run) && (|g| > 0 ==> hint < |g|)
      decreases n - numcells, |active|
    {
      ghost var s := run.state;
      PartFacts(g, level, run);
      if numcells >= |g| { break; }
      split1 := NextActive(active, hint, |g|);
      if split1 < 0 { break; }
      active := active - {split1 as nat};
      var split2 := CellEnd(ptn, level, split1);
      ghost var s1, w := Part(lab[..], ptn[..], active, numcells), Class(ColOf(n, level, s), split1);
      TakenPart(n, level, s, split1, split2);
      ghost var hintWas := hint;
      CuttingBegin(g, level, s1, w, hint);
      if split1 == split2 {
        active, numcells, hint := SplitByVertex(g, lab, ptn, level, lab[split1], active, numcells, hint, s1, hintWas);
      } else {
        var workset := Gather(lab, split1, split2);
        active, numcells, hint, maxpos :=
          SplitByCounts(g, lab, ptn, count, bucket, workperm, level, workset, active, numcells, hint, maxpos, s1,
                        hintWas);
      }
      ghost var t := Part(lab[..], ptn[..], active, numcells);
      CuttingParts(g, level, s1, t, w, n, hintWas, hint);
      GrownParts(level, s1, t);
      RunGoesOn(g, level, run, split1, t, hint);
      run := Next(run, split1, t);
    }
    RunIsSound(g, level, s0, run, Part(lab[..], ptn[..], active, numcells));
  }

  // What the result of a run is worth.
  ghost predicate RefinementSound(g: Graph, level: int, s: Part, t: Part) {
    && PartOk(|g|, level, s) && PartOk(|g|, level, t) && Finer(s.ptn, t.ptn, level)
    && (Telling(g) && QueueInv(RowWeights(g), ColOf(|g|, level, s), s.active) ==>
          Refines(ColOf(|g|, level, t), ColOf(|g|, level, s)) && Equitable(RowWeights(g), ColOf(|g|, level, t)))
    && (Mirrored(g) && QueueInv(RowWeights(g), ColOf(|g|, level, s), s.active) ==>
          CoarsestEquitable(RowWeights(g), ColOf(|g|, level, s), ColOf(|g|, level, t)))
    && CutsNone(g, ColOf(|g|, level, s), ColOf(|g|, level, t))
    && (Undisturbed(g, ColOf(|g|, level, s), s.active) ==> ColOf(|g|, level, t) == ColOf(|g|, level, s))
  }

  lemma RunIsSound(g: Graph, level: int, s: Part, run: Run, t: Part)
    requires IsCutRun(g, level, run) && First(run) == s && run.state == t && (t.numcells >= |g| || t.active == {})
    ensures Refinement1(g, level, s, run, t) && RefinementSound(g, level, s, t)
  {
    assert Refinement1(g, level, s, run, t);
    CutRunIsRun(g, level, run);
    RunFiner(|g|, level, run);
    RunCutsNone(g, level, run);
    PartOfRun(g, level, run);
    hide *;
    var init, col, wt := ColOf(|g|, level, s), ColOf(|g|, level, t), RowWeights(g);
    if Telling(g) && QueueInv(wt, init, s.active) { RunEquitable(g, level, s, run, t); }
    if Mirrored(g) && QueueInv(wt, init, s.active) { RunCoarsest(g, level, s, run, t); }
    if Undisturbed(g, init, s.active) { RunUndisturbed(g, level, run); }
    SoundMade(g, level, s, t);
  }

  lemma SoundMade(g: Graph, level: int, s: Part, t: Part)
    requires PartOk(|g|, level, s) && PartOk(|g|, level, t) && Finer(s.ptn, t.ptn, level)
    requires Telling(g) && QueueInv(RowWeights(g), ColOf(|g|, level, s), s.active) ==>
      Refines(ColOf(|g|, level, t), ColOf(|g|, level, s)) && Equitable(RowWeights(g), ColOf(|g|, level, t))
    requires Mirrored(g) && QueueInv(RowWeights(g), ColOf(|g|, level, s), s.active) ==>
      CoarsestEquitable(RowWeights(g), ColOf(|g|, level, s), ColOf(|g|, level, t))
    requires CutsNone(g, ColOf(|g|, level, s), ColOf(|g|, level, t))
    requires Undisturbed(g, ColOf(|g|, level, s), s.active) ==> ColOf(|g|, level, t) == ColOf(|g|, level, s)
    ensures RefinementSound(g, level, s, t)
  {
  }

  lemma PartOfRun(g: Graph, level: int, run: Run)
    requires IsCutRun(g, level, run)
    ensures PartOk(|g|, level, run.state)
  {
  }

  lemma RunBegins(g: Graph, level: int, s: Part)
    requires PartOk(|g|, level, s)
    ensures IsCutRun(g, level, At(s)) && First(At(s)) == s && HintOf(|g|, level, At(s)) == 0
  {
  }

  lemma RunGoesOn(g: Graph, level: int, run: Run, cell: nat, t: Part, hint: nat)
    requires IsCutRun(g, level, run) && PartOk(|g|, level, run.state) && run.state.numcells < |g|
    requires Chosen(run.state.active, HintOf(|g|, level, run), cell)
    requires Cutting(g, level, run.state.(active := run.state.active - {cell}), t,
                     Class(ColOf(|g|, level, run.state), cell), |g|, HintOf(|g|, level, run), hint)
    ensures IsCutRun(g, level, Next(run, cell, t)) && First(Next(run, cell, t)) == First(run)
    ensures HintOf(|g|, level, Next(run, cell, t)) == hint
  {
    var s, col := run.state, ColOf(|g|, level, run.state);
    var popped := s.(active := s.active - {cell});
    assert ColOf(|g|, level, popped) == col;
    hide Going, ColOf, HintStarts, PartOk;
    var h := HintStarts(col, ColOf(|g|, level, t), popped.active, |Class(col, cell)| == 1);
    assert HintOf(|g|, level, Next(run, cell, t)) == Last(h, HintOf(|g|, level, run));
  }

  lemma PartFacts(g: Graph, level: int, run: Run)
    requires IsCutRun(g, level, run)
    ensures var s := run.state;
      && PartOk(|g|, level, s) && |s.ptn| == |s.lab| == |g| && (|g| > 0 ==> s.ptn[|g| - 1] <= level)
      && (forall d :: d in s.active ==> d < |g| && IsStart(s.ptn, level, d))
      && (forall i :: 0 <= i < |g| ==> s.lab[i] < |g|)
  {
  }

  // The vertices of the cell taken, as the code gathers them.
  lemma TakenPart(n: nat, level: int, s: Part, c1: nat, c2: nat)
    requires PartOk(n, level, s) && CellAt(s.ptn, level, c1, c2)
    ensures PartOk(n, level, s.(active := s.active - {c1})) && c2 < |s.lab|
    ensures Members(s.lab, c1, c2) == Class(ColOf(n, level, s), c1)
    ensures |Class(ColOf(n, level, s), c1)| == c2 + 1 - c1
    ensures c1 == c2 ==> Class(ColOf(n, level, s), c1) == {s.lab[c1]}
  {
    MembersAreClass(n, level, s, c1, c2);
    CellCard(n, level, s, c1, c2);
    if c1 == c2 { OneMember(n, level, s, c1); }
  }

  lemma OneMember(n: nat, level: int, s: Part, c: nat)
    requires PartOk(n, level, s) && CellAt(s.ptn, level, c, c)
    ensures Members(s.lab, c, c) == {s.lab[c]}
  {
    assert s.lab[c..c + 1] == [s.lab[c]];
  }

  // All cells together are a correct choice of active cells.
  lemma StartWithAll(wt: Weights, n: nat, level: int, s: Part)
    requires PartOk(n, level, s) && s.active == Starts(s.ptn, level)
    ensures QueueInv(wt, ColOf(n, level, s), s.active)
  {
    QueueAllInv(wt, ColOf(n, level, s), s.active);
  }
}
