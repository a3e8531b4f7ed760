// Partitions kept as an array of vertices with cell ends marked in a second array, and what it
// means to cut a cell in place.
module Nests {
  import opened Sums
  import opened Graphs
  import opened GroupOrbits
  import opened Refinement

  // ----- cells -----

  // A cell begins at position i.
  ghost predicate IsStart(ptn: seq<int>, level: int, i: nat) {
    i <= |ptn| && (i == 0 || ptn[i - 1] <= level)
  }

  ghost function StartOf(ptn: seq<int>, level: int, i: nat): (r: nat)
    requires i < |ptn|
    ensures r <= i && IsStart(ptn, level, r)
  {
    if i == 0 || ptn[i - 1] <= level then i else StartOf(ptn, level, i - 1)
  }

  ghost function Starts(ptn: seq<int>, level: int): set<nat> {
    set i: nat | i < |ptn| && IsStart(ptn, level, i)
  }

  // Cell ends are only ever added.
  ghost predicate Finer(ptn: seq<int>, ptn2: seq<int>, level: int) {
    |ptn2| == |ptn| && forall k :: 0 <= k < |ptn| ==> ptn2[k] == ptn[k] || (ptn[k] > level && ptn2[k] == level)
  }

  lemma FinerItself(ptn: seq<int>, level: int)
    ensures Finer(ptn, ptn, level)
  {
  }

  lemma FinerChain(a: seq<int>, b: seq<int>, c: seq<int>, level: int)
    requires Finer(a, b, level) && Finer(b, c, level)
    ensures Finer(a, c, level)
  {
  }

  // Entries below the level are unchanged, and no others fall below it: the same positions end cells at
  // every lower level.
  ghost predicate KeepsLower(ptn: seq<int>, ptn2: seq<int>, level: int) {
    |ptn2| == |ptn| && forall k :: 0 <= k < |ptn| ==> ptn2[k] == ptn[k] || (ptn[k] >= level && ptn2[k] >= level)
  }

  // Going back to a lower level therefore finds the cells of that level as they were.
  lemma LowerCells(ptn: seq<int>, ptn2: seq<int>, level: int, lower: int)
    requires KeepsLower(ptn, ptn2, level) && lower < level
    ensures Starts(ptn2, lower) == Starts(ptn, lower)
  {
    forall i: nat | i < |ptn| ensures IsStart(ptn2, lower, i) <==> IsStart(ptn, lower, i) {
    }
  }

  lemma FinerKeepsLower(ptn: seq<int>, ptn2: seq<int>, level: int)
    requires Finer(ptn, ptn2, level)
    ensures KeepsLower(ptn, ptn2, level)
  {
  }

  // lab lists the vertices cell by cell; ptn marks the ends of the cells.
  ghost predicate Nest(n: nat, lab: seq<nat>, ptn: seq<int>, level: int) {
    Permutation(n, lab) && |ptn| == n && (n > 0 ==> ptn[n - 1] <= level)
  }

  // Every vertex is coloured by the start of its cell.
  ghost function Col(n: nat, lab: seq<nat>, ptn: seq<int>, level: int): (col: seq<nat>)
    requires Nest(n, lab, ptn, level)
    ensures |col| == n
  {
    seq(n, v requires 0 <= v < n => StartOf(ptn, level, Preimage(n, lab, v)))
  }

  lemma ColAt(n: nat, lab: seq<nat>, ptn: seq<int>, level: int, i: nat)
    requires Nest(n, lab, ptn, level) && i < n
    ensures lab[i] < n && Col(n, lab, ptn, level)[lab[i]] == StartOf(ptn, level, i)
  {
    assert lab[Preimage(n, lab, lab[i])] == lab[i];
  }

  ghost predicate CellAt(ptn: seq<int>, level: int, c1: nat, c2: nat) {
    c1 <= c2 < |ptn| && IsStart(ptn, level, c1) && ptn[c2] <= level && forall k :: c1 <= k < c2 ==> ptn[k] > level
  }

  lemma {:induction false} InCell(ptn: seq<int>, level: int, c1: nat, c2: nat, i: nat)
    requires CellAt(ptn, level, c1, c2) && c1 <= i <= c2
    ensures StartOf(ptn, level, i) == c1
    decreases i
  {
    if i > c1 { InCell(ptn, level, c1, c2, i - 1); }
  }

  lemma {:induction false} BeyondStart(ptn: seq<int>, level: int, s: nat, i: nat)
    requires s <= i < |ptn| && IsStart(ptn, level, s)
    ensures s <= StartOf(ptn, level, i)
    decreases i
  {
    if i > s { BeyondStart(ptn, level, s, i - 1); }
  }

  lemma {:induction false} StartIsItself(ptn: seq<int>, level: int, s: nat)
    requires s < |ptn| && IsStart(ptn, level, s)
    ensures StartOf(ptn, level, s) == s
  {
  }

  lemma {:induction false} NotAlone(ptn: seq<int>, level: int, i: nat)
    requires i < |ptn| && !(IsStart(ptn, level, i) && ptn[i] <= level)
    ensures ptn[StartOf(ptn, level, i)] > level
    decreases i
  {
    if !IsStart(ptn, level, i) && !IsStart(ptn, level, i - 1) {
      NotAlone(ptn, level, i - 1);
    }
  }

  lemma {:induction false} StartInBlock(ptn: seq<int>, level: int, c1: nat, i: nat)
    requires c1 <= i < |ptn| && IsStart(ptn, level, c1) && forall k :: c1 <= k < i ==> ptn[k] > level
    ensures StartOf(ptn, level, i) == c1
    decreases i
  {
    if i > c1 { StartInBlock(ptn, level, c1, i - 1); }
  }

  lemma CellBounds(ptn: seq<int>, level: int, c1: nat, c2: nat)
    requires CellAt(ptn, level, c1, c2)
    ensures c1 <= c2 < |ptn| && ptn[c2] <= level && forall k :: c1 <= k < c2 ==> ptn[k] > level
  {
  }

  lemma {:induction false} StartsAgree(ptn: seq<int>, ptn2: seq<int>, level: int, i: nat)
    requires |ptn| == |ptn2| && i < |ptn| && forall k :: 0 <= k < i ==> (ptn[k] <= level <==> ptn2[k] <= level)
    ensures StartOf(ptn, level, i) == StartOf(ptn2, level, i)
    decreases i
  {
    if i > 0 { StartsAgree(ptn, ptn2, level, i - 1); }
  }

  // ----- cutting one cell -----

  // Only positions c1..c2 of lab and ends before c2 inside the cell may differ.
  ghost predicate Within(lab: seq<nat>, ptn: seq<int>, lab2: seq<nat>, ptn2: seq<int>, c1: nat, c2: nat) {
    && |lab2| == |lab| && |ptn2| == |ptn|
    && (forall k :: 0 <= k < |lab| && (k < c1 || c2 < k) ==> lab2[k] == lab[k])
    && (forall k :: 0 <= k < |ptn| && (k < c1 || c2 <= k) ==> ptn2[k] == ptn[k])
  }

  lemma {:induction false} StartOutside(ptn: seq<int>, ptn2: seq<int>, level: int, c1: nat, c2: nat, i: nat)
    requires CellAt(ptn, level, c1, c2) && i < |ptn| == |ptn2|
    requires forall k :: 0 <= k < |ptn| && (k < c1 || c2 <= k) ==> ptn2[k] == ptn[k]
    ensures i < c1 ==> StartOf(ptn2, level, i) == StartOf(ptn, level, i) < c1
    ensures c2 < i ==> StartOf(ptn2, level, i) == StartOf(ptn, level, i) && c2 < StartOf(ptn, level, i)
    ensures c1 <= i <= c2 ==> c1 <= StartOf(ptn2, level, i) <= c2
    decreases i
  {
    if i > 0 { StartOutside(ptn, ptn2, level, c1, c2, i - 1); }
  }

  // Inside the cell, key is sorted along the positions and the new ends are where it changes.
  ghost predicate CutAt(ptn2: seq<int>, level: int, c1: nat, c2: nat, key: seq<int>) {
    && c1 <= c2 < |ptn2| == |key|
    && (forall i, j :: c1 <= i < j <= c2 ==> key[i] <= key[j])
    && (forall k, l :: c1 <= k < c2 && l == k + 1 ==> (ptn2[k] <= level <==> key[k] != key[l]))
  }

  lemma {:induction false} BlockStarts(ptn2: seq<int>, level: int, c1: nat, c2: nat, key: seq<int>, i: nat, j: nat)
    requires CutAt(ptn2, level, c1, c2, key) && c1 <= i <= j <= c2
    ensures StartOf(ptn2, level, i) == StartOf(ptn2, level, j) <==> key[i] == key[j]
    decreases j
  {
    if i < j {
      BlockStarts(ptn2, level, c1, c2, key, i, j - 1);
      assert ptn2[j - 1] <= level <==> key[j - 1] != key[j];
      if key[j - 1] != key[j] {
        assert key[i] <= key[j - 1] < key[j];
      }
    }
  }

  // The position of v, before and after the cut.
  lemma Position(n: nat, lab: seq<nat>, ptn: seq<int>, lab2: seq<nat>, ptn2: seq<int>, level: int, c1: nat, c2: nat,
                 v: nat)
    returns (i: nat)
    requires Nest(n, lab, ptn, level) && Nest(n, lab2, ptn2, level) && CellAt(ptn, level, c1, c2)
    requires Within(lab, ptn, lab2, ptn2, c1, c2) && v < n
    ensures i < n && lab2[i] == v && Col(n, lab2, ptn2, level)[v] == StartOf(ptn2, level, i)
    ensures c1 <= i <= c2 <==> Col(n, lab, ptn, level)[v] == c1
    ensures !(c1 <= i <= c2) ==> Col(n, lab2, ptn2, level)[v] == Col(n, lab, ptn, level)[v]
    ensures !(c1 <= i <= c2) ==> Col(n, lab2, ptn2, level)[v] < c1 || c2 < Col(n, lab2, ptn2, level)[v]
    ensures c1 <= i <= c2 ==> c1 <= Col(n, lab2, ptn2, level)[v] <= c2
  {
    i := Preimage(n, lab2, v);
    var j := Preimage(n, lab, v);
    ColAt(n, lab, ptn, level, j);
    ColAt(n, lab2, ptn2, level, i);
    StartOutside(ptn, ptn2, level, c1, c2, i);
    StartOutside(ptn, ptn, level, c1, c2, j);
    if c1 <= j <= c2 {
      InCell(ptn, level, c1, c2, j);
      assert c1 <= i <= c2;
    } else {
      assert lab2[j] == v && j == i;
    }
  }

  lemma SameBlock(ptn2: seq<int>, level: int, c1: nat, c2: nat, key: seq<int>, i: nat, j: nat)
    requires CutAt(ptn2, level, c1, c2, key) && c1 <= i <= c2 && c1 <= j <= c2
    ensures StartOf(ptn2, level, i) == StartOf(ptn2, level, j) <==> key[i] == key[j]
  {
    if i <= j { BlockStarts(ptn2, level, c1, c2, key, i, j); } else { BlockStarts(ptn2, level, c1, c2, key, j, i); }
  }

  // The pieces of the cell are named by the starts inside it.
  lemma PiecesAreStarts(n: nat, lab: seq<nat>, ptn: seq<int>, lab2: seq<nat>, ptn2: seq<int>, level: int, c1: nat,
                        c2: nat, d: nat)
    requires Nest(n, lab, ptn, level) && Nest(n, lab2, ptn2, level) && CellAt(ptn, level, c1, c2)
    requires Within(lab, ptn, lab2, ptn2, c1, c2)
    ensures d in Pieces(Col(n, lab, ptn, level), Col(n, lab2, ptn2, level), c1)
       <==> c1 <= d <= c2 && IsStart(ptn2, level, d)
  {
    var col, col2 := Col(n, lab, ptn, level), Col(n, lab2, ptn2, level);
    if d in Pieces(col, col2, c1) {
      var v: nat :| v in Class(col, c1) && col2[v] == d;
      var i := Position(n, lab, ptn, lab2, ptn2, level, c1, c2, v);
    }
    if c1 <= d <= c2 && IsStart(ptn2, level, d) {
      var v := lab2[d];
      ColAt(n, lab2, ptn2, level, d);
      var i := Position(n, lab, ptn, lab2, ptn2, level, c1, c2, v);
      assert i == d;
      StartIsItself(ptn2, level, d);
      assert v in Class(col, c1);
    }
  }

  // Starts outside the cell stay; starts inside it are new, but for the first.
  lemma StartsAfter(ptn: seq<int>, ptn2: seq<int>, level: int, c1: nat, c2: nat, d: nat)
    requires CellAt(ptn, level, c1, c2) && |ptn2| == |ptn|
    requires forall k :: 0 <= k < |ptn| && (k < c1 || c2 <= k) ==> ptn2[k] == ptn[k]
    ensures d < c1 || c2 < d ==> (IsStart(ptn2, level, d) <==> IsStart(ptn, level, d))
    ensures c1 <= d <= c2 ==> (IsStart(ptn, level, d) <==> d == c1)
    ensures IsStart(ptn2, level, c1)
  {
  }

  lemma CellExists(ptn: seq<int>, level: int, c1: nat) returns (e: nat)
    requires c1 < |ptn| && IsStart(ptn, level, c1) && ptn[|ptn| - 1] <= level
    ensures CellAt(ptn, level, c1, e)
  {
    e := c1;
    while ptn[e] > level
      invariant c1 <= e < |ptn| && forall k :: c1 <= k < e ==> ptn[k] > level
      decreases |ptn| - e
    {
      e := e + 1;
    }
  }
}
