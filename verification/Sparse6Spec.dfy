// The sparse6 bit stream: what is written for a list of edges, what is read back, and the padding rule.
module Sparse6Spec {
  import opened Sums
  import opened Bits
  import opened Graphs
  type Edge = (nat, nat)  // (j, i) with i <= j

  // ----- graphs and their lower triangles -----

  ghost predicate Undirected(g: Graph) {
    && (forall u: nat, v: nat :: u < |g| && v in g[u] ==> v < |g|)
    && (forall u: nat, v: nat :: u < |g| && v < |g| && v in g[u] ==> u in g[v])
  }

  // The edges (j, i) with i below m that the row holds, in ascending order.
  ghost function RowEdges(row: set<nat>, j: nat, m: nat): seq<Edge> {
    if m == 0 then [] else RowEdges(row, j, m - 1) + (if m - 1 in row then [(j, m - 1)] else [])
  }

  // The lower triangle of the first m rows, loops included.
  ghost function LowerEdges(rows: Graph, m: nat): seq<Edge>
    requires m <= |rows|
  {
    if m == 0 then [] else LowerEdges(rows, m - 1) + RowEdges(rows[m - 1], m - 1, m)
  }

  ghost function LastRow(es: seq<Edge>): nat {
    if es == [] then 0 else es[|es| - 1].0
  }

  // Edges as the encoders list them: rows ascending, ends below n.
  ghost predicate Listed(es: seq<Edge>, n: nat) {
    && (forall e :: e in es ==> e.1 <= e.0 < n)
    && (forall a, b :: 0 <= a < b < |es| ==> es[a].0 <= es[b].0)
  }

  // ----- writing -----

  // One bit whether the row advances; a jump of more than one row is written out first.
  ghost function EdgeBits(last: nat, e: Edge, nb: nat): seq<bool> {
    if e.0 == last then [false] + Bin(e.1, nb)
    else if e.0 > last + 1 then [true] + Bin(e.0, nb) + [false] + Bin(e.1, nb)
    else [true] + Bin(e.1, nb)
  }

  // Which bits these are: whether the row advances; after a jump the row, a zero; and the other end.
  lemma EdgeBitsAre(last: nat, e: Edge, nb: nat)
    requires last <= e.0 < Pow2(nb) && e.1 <= e.0
    ensures var b := EdgeBits(last, e, nb);
      && |b| == (if e.0 <= last + 1 then nb + 1 else 2 * nb + 2) && b[0] == (e.0 != last)
      && Value(b[|b| - nb..]) == e.1
      && (e.0 > last + 1 ==> Value(b[1..nb + 1]) == e.0 && !b[nb + 1])
  {
    var b := EdgeBits(last, e, nb);
    ValueBin(e.0, nb);
    ValueBin(e.1, nb);
    ModSmall(e.0, Pow2(nb));
    ModSmall(e.1, Pow2(nb));
    assert b[|b| - nb..] == Bin(e.1, nb);
    if e.0 > last + 1 { assert b[1..nb + 1] == Bin(e.0, nb); }
  }

  ghost function EncodeBits(es: seq<Edge>, nb: nat): seq<bool> {
    if es == [] then []
    else EncodeBits(es[..|es| - 1], nb) + EdgeBits(LastRow(es[..|es| - 1]), es[|es| - 1], nb)
  }

  // ----- reading -----

  // Groups of a bit and a number; an incomplete group at the end is dropped.
  ghost function DecodeBits(b: seq<bool>, v: nat, nb: nat, n: nat): seq<Edge>
    decreases |b|
  {
    if |b| < nb + 1 then []
    else
      var v1 := if b[0] then v + 1 else v;
      var j := Value(b[1..nb + 1]);
      var rest := b[nb + 1..];
      if j > v1 then DecodeBits(rest, j, nb, n)
      else if v1 < n then [(v1, j)] + DecodeBits(rest, v1, nb, n)
      else DecodeBits(rest, v1, nb, n)
  }

  lemma ReadGroup(bit: bool, x: nat, rest: seq<bool>, v: nat, nb: nat, n: nat)
    requires x < Pow2(nb)
    ensures var v1 := if bit then v + 1 else v;
            DecodeBits([bit] + Bin(x, nb) + rest, v, nb, n) ==
              if x > v1 then DecodeBits(rest, x, nb, n)
              else if v1 < n then [(v1, x)] + DecodeBits(rest, v1, nb, n)
              else DecodeBits(rest, v1, nb, n)
  {
    var b := [bit] + Bin(x, nb) + rest;
    assert b[0] == bit && b[1..nb + 1] == Bin(x, nb) && b[nb + 1..] == rest;
    ValueBin(x, nb);
    ModSmall(x, Pow2(nb));
  }

  lemma ReadEdge(last: nat, e: Edge, rest: seq<bool>, nb: nat, n: nat)
    requires last <= e.0 && e.1 <= e.0 < n <= Pow2(nb)
    ensures DecodeBits(EdgeBits(last, e, nb) + rest, last, nb, n) == [e] + DecodeBits(rest, e.0, nb, n)
  {
    hide DecodeBits, Bin, Pow2;
    if e.0 > last + 1 {
      var tail := [false] + Bin(e.1, nb) + rest;
      assert EdgeBits(last, e, nb) + rest == [true] + Bin(e.0, nb) + tail;
      ReadGroup(true, e.0, tail, last, nb, n);
      ReadGroup(false, e.1, rest, e.0, nb, n);
    } else {
      ReadGroup(e.0 != last, e.1, rest, last, nb, n);
    }
  }

  lemma ListedInit(es: seq<Edge>, n: nat)
    requires Listed(es, n) && es != []
    ensures var init, e := es[..|es| - 1], es[|es| - 1];
            Listed(init, n) && LastRow(init) <= e.0 && e.1 <= e.0 < n
  {
    assert es[|es| - 1] in es;
    assert forall x :: x in es[..|es| - 1] ==> x in es;
  }

  lemma EncodeStep(es: seq<Edge>, nb: nat, rest: seq<bool>)
    requires es != []
    ensures var init, e := es[..|es| - 1], es[|es| - 1];
            EncodeBits(es, nb) + rest == EncodeBits(init, nb) + (EdgeBits(LastRow(init), e, nb) + rest)
  {
  }

  lemma Reassociate<T>(es: seq<T>, tail: seq<T>)
    requires es != []
    ensures es[..|es| - 1] + ([es[|es| - 1]] + tail) == es + tail
  {
  }

  // Everything written is read back, whatever follows.
  lemma {:induction false} ReadEdges(es: seq<Edge>, rest: seq<bool>, nb: nat, n: nat)
    requires Listed(es, n) && n <= Pow2(nb)
    ensures DecodeBits(EncodeBits(es, nb) + rest, 0, nb, n) == es + DecodeBits(rest, LastRow(es), nb, n)
    decreases |es|
  {
    if es == [] {
      assert EncodeBits(es, nb) + rest == rest;
      assert LastRow(es) == 0;
    } else {
      var init, e := es[..|es| - 1], es[|es| - 1];
      EncodeStep(es, nb, rest);
      ListedInit(es, n);
      assert LastRow(es) == e.0;
      hide EdgeBits, DecodeBits, Listed, EncodeBits, LastRow;
      ReadEdges(init, EdgeBits(LastRow(init), e, nb) + rest, nb, n);
      ReadEdge(LastRow(init), e, rest, nb, n);
      Reassociate(es, DecodeBits(rest, e.0, nb, n));
    }
  }

  // ----- the padding of the last byte -----

  // Padding by ones is dangerous exactly for a last row n - 2 of a full range n == 2^nb.
  ghost predicate NeedsZero(k: nat, last: nat, n: nat, nb: nat) {
    k >= nb + 1 && last + 2 == n && n == Pow2(nb)
  }

  ghost function Padding(k: nat, last: nat, n: nat, nb: nat): (b: seq<bool>)
    requires k > 0
    ensures |b| == k
  {
    if NeedsZero(k, last, n, nb) then [false] + Ones(k - 1) else Ones(k)
  }

  // A group of ones names vertex 2^nb - 1 after advancing.
  lemma OnesGroup(m: nat, v: nat, n: nat, nb: nat)
    requires m >= nb + 1
    ensures var j, rest := Pow2(nb) - 1, Ones(m - nb - 1);
            DecodeBits(Ones(m), v, nb, n) ==
              if j > v + 1 then DecodeBits(rest, j, nb, n)
              else if v + 1 < n then [(v + 1, j)] + DecodeBits(rest, v + 1, nb, n)
              else DecodeBits(rest, v + 1, nb, n)
  {
    assert Ones(m)[1..nb + 1] == Ones(nb) && Ones(m)[nb + 1..] == Ones(m - nb - 1);
    ValueOnes(nb);
  }

  lemma {:induction false} OnesPastEnd(m: nat, v: nat, n: nat, nb: nat)
    requires n <= v + 1
    ensures DecodeBits(Ones(m), v, nb, n) == []
    decreases m
  {
    if m >= nb + 1 {
      OnesGroup(m, v, n, nb);
      OnesPastEnd(m - nb - 1, if Pow2(nb) - 1 > v + 1 then Pow2(nb) - 1 else v + 1, n, nb);
    }
  }

  // Ones alone read as no edge, unless they are long enough to name the loop at the last vertex.
  lemma OnesRead(m: nat, v: nat, n: nat, nb: nat)
    requires v < n <= Pow2(nb)
    ensures DecodeBits(Ones(m), v, nb, n) == [] <==> !NeedsZero(m, v, n, nb)
  {
    if m >= nb + 1 {
      OnesGroup(m, v, n, nb);
      hide DecodeBits, Ones;
      if Pow2(nb) - 1 > v + 1 {
        OnesPastEnd(m - nb - 1, Pow2(nb) - 1, n, nb);
      } else if v + 1 >= n {
        OnesPastEnd(m - nb - 1, v + 1, n, nb);
      }
    }
  }

  // The padding that is written never reads as an edge.
  lemma PaddingReadsNothing(k: nat, v: nat, n: nat, nb: nat)
    requires k > 0 && v < n <= Pow2(nb)
    ensures DecodeBits(Padding(k, v, n, nb), v, nb, n) == []
  {
    if NeedsZero(k, v, n, nb) {
      var b := Padding(k, v, n, nb);
      assert b[1..nb + 1] == Ones(nb) && b[nb + 1..] == Ones(k - nb - 1);
      ValueOnes(nb);
      OnesPastEnd(k - nb - 1, n - 1, n, nb);
    } else {
      OnesRead(k, v, n, nb);
    }
  }

  // ----- lists of edges and the rows they came from -----

  lemma {:induction false} RowEdgesHas(row: set<nat>, j: nat, m: nat, e: Edge)
    ensures e in RowEdges(row, j, m) <==> e.0 == j && e.1 < m && e.1 in row
  {
    if m > 0 { RowEdgesHas(row, j, m - 1, e); }
  }

  lemma {:induction false} LowerEdgesHas(rows: Graph, m: nat, e: Edge)
    requires m <= |rows|
    ensures e in LowerEdges(rows, m) <==> e.0 < m && e.1 <= e.0 && e.1 in rows[e.0]
  {
    hide RowEdges;
    if m > 0 {
      var init, row := LowerEdges(rows, m - 1), RowEdges(rows[m - 1], m - 1, m);
      LowerEdgesHas(rows, m - 1, e);
      RowEdgesHas(rows[m - 1], m - 1, m, e);
      assert LowerEdges(rows, m) == init + row;
      hide LowerEdges;
    }
  }

  lemma {:induction false} RowEdgesDistinct(row: set<nat>, j: nat, m: nat)
    ensures Distinct(RowEdges(row, j, m))
  {
    if m > 0 {
      RowEdgesDistinct(row, j, m - 1);
      RowEdgesHas(row, j, m - 1, (j, m - 1));
      var init := RowEdges(row, j, m - 1);
      assert forall a :: 0 <= a < |init| ==> init[a] in init;
    }
  }

  // Within a row the other ends ascend.
  lemma {:induction false} RowEdgesAscend(row: set<nat>, j: nat, m: nat, a: nat, b: nat)
    requires a < b < |RowEdges(row, j, m)|
    ensures RowEdges(row, j, m)[a].1 < RowEdges(row, j, m)[b].1
  {
    var init := RowEdges(row, j, m - 1);
    if b < |init| {
      RowEdgesAscend(row, j, m - 1, a, b);
    } else {
      assert init[a] in init;
      RowEdgesHas(row, j, m - 1, init[a]);
    }
  }

  // Appending a row that lies above all the others.
  lemma ListedAppend(init: seq<Edge>, row: seq<Edge>, m: nat)
    requires Listed(init, m) && Distinct(init) && Distinct(row)
    requires forall e :: e in row ==> e.0 == m && e.1 <= m
    ensures Listed(init + row, m + 1) && Distinct(init + row)
  {
    assert forall a :: 0 <= a < |init| ==> init[a] in init;
    assert forall a :: 0 <= a < |row| ==> row[a] in row;
  }

  lemma {:induction false} LowerEdgesListed(rows: Graph, m: nat)
    requires m <= |rows|
    ensures Listed(LowerEdges(rows, m), m) && Distinct(LowerEdges(rows, m))
  {
    hide RowEdges;
    if m > 0 {
      var row := RowEdges(rows[m - 1], m - 1, m);
      LowerEdgesListed(rows, m - 1);
      RowEdgesDistinct(rows[m - 1], m - 1, m);
      forall e | e in row ensures e.0 == m - 1 && e.1 < m {
        RowEdgesHas(rows[m - 1], m - 1, m, e);
      }
      ListedAppend(LowerEdges(rows, m - 1), row, m - 1);
    }
  }
}
