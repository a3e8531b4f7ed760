// graph6 text written straight from the rows of a sparse graph, bit by bit.
module SparseGraph6 {
  import opened Sums
  import opened Graphs
  import opened Bits
  import opened GraphText
  import opened Graph6
  import opened Distances

  // ----- setting one bit of six -----

  // The value of the bit at place i, from the left.
  function Place(i: nat): (w: nat)
    requires i < 6
  {
    if i == 0 then 32 else if i == 1 then 16 else if i == 2 then 8 else if i == 3 then 4 else if i == 4 then 2 else 1
  }

  // x with the bit of value w set.
  function WithBit(x: nat, w: nat): nat
    requires w > 0
  {
    if (x / w) % 2 == 1 then x else x + w
  }

  lemma SetBit(x: nat, i: nat)
    requires x < 64 && i < 6
    ensures WithBit(x, Place(i)) < 64 && Bin(WithBit(x, Place(i)), 6) == Bin(x, 6)[i := true]
  {
    var y := WithBit(x, Place(i));
    SixBits(x);
    SixBits(y);
    hide Bin;
    SetBitDigits(x, i);
    assert forall k :: 0 <= k < 6 ==> Bin(y, 6)[k] == Bin(x, 6)[i := true][k];
  }

  lemma DigitsOf(x: nat) returns (a: nat, b: nat, c: nat, d: nat, e: nat, f: nat)
    requires x < 64
    ensures a <= 1 && b <= 1 && c <= 1 && d <= 1 && e <= 1 && f <= 1
    ensures x == 32 * a + 16 * b + 8 * c + 4 * d + 2 * e + f
  {
    var x1 := x / 2;
    var x2 := x1 / 2;
    var x3 := x2 / 2;
    var x4 := x3 / 2;
    a, b, c, d, e, f := x4 / 2, x4 % 2, x3 % 2, x2 % 2, x1 % 2, x % 2;
  }

  lemma FromDigits(a: nat, b: nat, c: nat, d: nat, e: nat, f: nat, x: nat)
    requires a <= 1 && b <= 1 && c <= 1 && d <= 1 && e <= 1 && f <= 1
    requires x == 32 * a + 16 * b + 8 * c + 4 * d + 2 * e + f
    ensures x < 64 && (x / 32) % 2 == a && (x / 16) % 2 == b && (x / 8) % 2 == c
    ensures (x / 4) % 2 == d && (x / 2) % 2 == e && x % 2 == f
  {
    assert x / 32 == a && x / 16 == 2 * a + b && x / 8 == 4 * a + 2 * b + c;
    assert x / 4 == 8 * a + 4 * b + 2 * c + d && x / 2 == 16 * a + 8 * b + 4 * c + 2 * d + e;
  }

  lemma SetBitDigits(x: nat, i: nat)
    requires x < 64 && i < 6
    ensures var y := WithBit(x, Place(i));
      && y < 64
      && ((y / 32) % 2 == 1 <==> i == 0 || (x / 32) % 2 == 1) && ((y / 16) % 2 == 1 <==> i == 1 || (x / 16) % 2 == 1)
      && ((y / 8) % 2 == 1 <==> i == 2 || (x / 8) % 2 == 1) && ((y / 4) % 2 == 1 <==> i == 3 || (x / 4) % 2 == 1)
      && ((y / 2) % 2 == 1 <==> i == 4 || (x / 2) % 2 == 1) && (y % 2 == 1 <==> i == 5 || x % 2 == 1)
  {
    var a, b, c, d, e, f := DigitsOf(x);
    FromDigits(a, b, c, d, e, f, x);
    var y := WithBit(x, Place(i));
    FromDigits(if i == 0 then 1 else a, if i == 1 then 1 else b, if i == 2 then 1 else c,
               if i == 3 then 1 else d, if i == 4 then 1 else e, if i == 5 then 1 else f, y);
  }

  // ----- the body as a list of bits -----

  // bits are the six-bit values of p, one after the other.
  ghost predicate BitsOf(p: seq<nat>, bits: seq<bool>) {
    && |bits| == 6 * |p|
    && forall k :: 0 <= k < |p| ==> p[k] < 64 && bits[6 * k..6 * k + 6] == Bin(p[k], 6)
  }

  lemma SetInBody(p: seq<nat>, bits: seq<bool>, ii: nat)
    requires BitsOf(p, bits) && ii < |bits|
    ensures ii / 6 < |p| && BitsOf(p[ii / 6 := WithBit(p[ii / 6], Place(ii % 6))], bits[ii := true])
  {
    var k, i := ii / 6, ii % 6;
    var q, b := p[k := WithBit(p[k], Place(i))], bits[ii := true];
    SetBit(p[k], i);
    hide Bin, WithBit, Place;
    forall l | 0 <= l < |q| ensures q[l] < 64 && b[6 * l..6 * l + 6] == Bin(q[l], 6) {
      assert p[l] < 64 && bits[6 * l..6 * l + 6] == Bin(p[l], 6);
      if l == k {
        assert b[6 * l..6 * l + 6] == bits[6 * l..6 * l + 6][i := true];
      } else {
        assert b[6 * l..6 * l + 6] == bits[6 * l..6 * l + 6];
      }
    }
  }

  lemma {:induction false} BiasedUnpacks(p: seq<nat>, s: seq<nat>, bits: seq<bool>)
    requires BitsOf(p, bits) && |s| == |p| && forall k :: 0 <= k < |p| ==> s[k] == p[k] + BIAS6
    ensures Unpack(s) == bits
  {
    if p != [] {
      var n := |p| - 1;
      BitsBefore(p, bits, n);
      assert Six(s[n]) == Bin(p[n], 6);
      hide Bin, BitsOf, Six;
      BiasedUnpacks(p[..n], s[..n], bits[..6 * n]);
    }
  }

  lemma BitsBefore(p: seq<nat>, bits: seq<bool>, n: nat)
    requires BitsOf(p, bits) && |p| == n + 1
    ensures |bits| == 6 * n + 6 && BitsOf(p[..n], bits[..6 * n]) && p[n] < 64
    ensures bits == bits[..6 * n] + Bin(p[n], 6)
  {
    hide Bin;
    assert p[n] < 64 && bits[6 * n..6 * n + 6] == Bin(p[n], 6);
    forall k | 0 <= k < n ensures p[..n][k] < 64 && bits[..6 * n][6 * k..6 * k + 6] == Bin(p[..n][k], 6) {
      assert p[k] < 64 && bits[6 * k..6 * k + 6] == Bin(p[k], 6);
    }
  }

  // ----- the bits of the lower triangle -----

  // The bit for row j and column i is set, if the row or the part of it has been written.
  ghost predicate BitIs(g: Graph, bits: seq<bool>, row: nat, part: seq<nat>, j: nat, i: nat)
    requires j < |g|
  {
    && Offset(|g|, j, false) + i < |bits|
    && (bits[Offset(|g|, j, false) + i] <==> (j < row && i in g[j]) || (j == row && i in part))
  }

  ghost predicate TriangleBits(g: Graph, bits: seq<bool>, row: nat, part: seq<nat>) {
    && Offset(|g|, |g|, false) <= |bits|
    && (forall j: nat, i: nat :: i < j < |g| ==> BitIs(g, bits, row, part, j, i))
    && (forall k :: Offset(|g|, |g|, false) <= k < |bits| ==> !bits[k])
  }

  lemma OffsetApart(n: nat, j: nat, i: nat, l: nat, k: nat)
    requires i < j < n && k < l < n && (j != l || i != k)
    ensures Offset(n, j, false) + i != Offset(n, l, false) + k
    ensures Offset(n, j, false) + i < Offset(n, n, false)
  {
    OffsetMonotone(n, j + 1, n, false);
    if j < l { OffsetMonotone(n, j + 1, l, false); }
    if l < j { OffsetMonotone(n, l + 1, j, false); }
  }

  lemma SetTriangle(g: Graph, bits: seq<bool>, row: nat, part: seq<nat>, x: nat)
    requires TriangleBits(g, bits, row, part) && row < |g|
    ensures x < row ==> Offset(|g|, row, false) + x < |bits|
    ensures x < row ==> TriangleBits(g, bits[Offset(|g|, row, false) + x := true], row, part + [x])
    ensures x >= row ==> TriangleBits(g, bits, row, part + [x])
  {
    var n := |g|;
    if x < row {
      OffsetMonotone(n, row + 1, n, false);
      var ii := Offset(n, row, false) + x;
      var b := bits[ii := true];
      assert BitIs(g, bits, row, part, row, x);
      forall j: nat, i: nat | i < j < n ensures BitIs(g, b, row, part + [x], j, i) {
        assert BitIs(g, bits, row, part, j, i);
        assert i in part + [x] <==> i in part || i == x;
        if j != row || i != x { OffsetApart(n, j, i, row, x); }
      }
    } else {
      forall j: nat, i: nat | i < j < n ensures BitIs(g, bits, row, part + [x], j, i) {
        assert BitIs(g, bits, row, part, j, i);
        assert i in part + [x] <==> i in part || i == x;
      }
    }
  }

  lemma RowWritten(g: Graph, bits: seq<bool>, row: nat, part: seq<nat>)
    requires TriangleBits(g, bits, row, part) && row < |g| && forall x :: x in part <==> x in g[row]
    ensures TriangleBits(g, bits, row + 1, [])
  {
    var next := row + 1;
    forall j: nat, i: nat | i < j < |g| ensures BitIs(g, bits, next, [], j, i) {
      assert BitIs(g, bits, row, part, j, i);
    }
  }

  lemma {:induction false} TriangleIsMatrix(g: Graph, bits: seq<bool>, j: nat)
    requires TriangleBits(g, bits, |g|, []) && j <= |g|
    ensures Offset(|g|, j, false) <= |bits| && bits[..Offset(|g|, j, false)] == Matrix(g, j, false)
    decreases j
  {
    var n := |g|;
    OffsetMonotone(n, j, n, false);
    if j > 0 {
      TriangleIsMatrix(g, bits, j - 1);
      var r := j - 1;
      var a := Offset(n, r, false);
      assert bits[..a + r] == bits[..a] + bits[a..a + r];
      var stretch, row := bits[a..a + r], RowBits(g[r], r);
      forall i: nat | i < r ensures stretch[i] == row[i] {
        assert BitIs(g, bits, n, [], r, i);
      }
      assert stretch == row;
    }
  }

  lemma WrittenPacks(g: Graph, p: seq<nat>, s: seq<nat>, bits: seq<bool>)
    requires BitsOf(p, bits) && TriangleBits(g, bits, |g|, []) && |s| == |p|
    requires forall k :: 0 <= k < |p| ==> s[k] == p[k] + BIAS6
    requires |p| == (Offset(|g|, |g|, false) + 5) / 6
    ensures Packs(s, Matrix(g, |g|, false))
  {
    var n := Offset(|g|, |g|, false);
    BodyPrintable(p, s, bits);
    TriangleTail(g, bits);
    TriangleIsMatrix(g, bits, |g|);
    BiasedUnpacks(p, s, bits);
    hide *;
    PacksMade(s, Matrix(g, |g|, false), bits);
  }

  lemma PacksMade(s: seq<nat>, bits: seq<bool>, all: seq<bool>)
    requires Printable(s) && |s| == (|bits| + 5) / 6 && |all| == 6 * |s| && Unpack(s) == all
    requires |bits| <= |all| && all == bits + Zeros(|all| - |bits|)
    ensures Packs(s, bits)
  {
  }

  lemma BodyPrintable(p: seq<nat>, s: seq<nat>, bits: seq<bool>)
    requires BitsOf(p, bits) && |s| == |p| && forall k :: 0 <= k < |p| ==> s[k] == p[k] + BIAS6
    ensures Printable(s) && |bits| == 6 * |s|
  {
    hide Bin;
    forall k | 0 <= k < |s| ensures BIAS6 <= s[k] < BIAS6 + 64 {
      assert p[k] < 64;
    }
  }

  lemma TriangleTail(g: Graph, bits: seq<bool>)
    requires TriangleBits(g, bits, |g|, [])
    ensures var n := Offset(|g|, |g|, false); n <= |bits| && bits == bits[..n] + Zeros(|bits| - n)
    ensures |Matrix(g, |g|, false)| == Offset(|g|, |g|, false)
  {
    TailZero(bits, Offset(|g|, |g|, false));
  }

  lemma TailZero(bits: seq<bool>, n: nat)
    requires n <= |bits| && forall k :: n <= k < |bits| ==> !bits[k]
    ensures bits == bits[..n] + Zeros(|bits| - n)
  {
  }

  // ----- the writer -----

  lemma EmptyBody(p: seq<nat>, g: Graph)
    requires (forall k :: 0 <= k < |p| ==> p[k] == 0) && |p| == (Offset(|g|, |g|, false) + 5) / 6
    ensures BitsOf(p, Zeros(6 * |p|)) && TriangleBits(g, Zeros(6 * |p|), 0, [])
  {
    assert Bin(0, 6) == [false, false, false, false, false, false] by { SixBits(0); }
    forall k | 0 <= k < |p| ensures Zeros(6 * |p|)[6 * k..6 * k + 6] == Bin(p[k], 6) {
    }
    forall j: nat, i: nat | i < j < |g| ensures BitIs(g, Zeros(6 * |p|), 0, [], j, i) {
      OffsetMonotone(|g|, j + 1, |g|, false);
    }
  }

  // Write the part of row i left of the diagonal.
  method WriteSparseRow(sg: SparseGraph, p: array<nat>, i: nat, org: nat, ghost g: Graph, ghost bits0: seq<bool>)
    returns (ghost bits: seq<bool>)
    requires RowsOf(sg, g) && i < |g| && org == Offset(|g|, i, false)
    requires BitsOf(p[..], bits0) && TriangleBits(g, bits0, i, [])
    modifies p
    ensures |bits| == |bits0| && BitsOf(p[..], bits) && TriangleBits(g, bits, i + 1, [])
  {
    bits := bits0;
    RowBounds(sg, g, [], i);
    WholeRow6(sg, g, i);
    var vi, di := sg.v[i], sg.d[i];
    ghost var row := RowOf(sg, i);
    assert row[..0] == [];
    hide BitsOf, TriangleBits, RowsOf, Offset;
    for j := 0 to di
      invariant |bits| == |bits0| && BitsOf(p[..], bits) && TriangleBits(g, bits, i, row[..j])
    {
      var x := sg.e[vi + j];
      KnownRow(sg, g, i, j);
      SetTriangle(g, bits, i, row[..j], x);
      assert row[..j + 1] == row[..j] + [x];
      if x < i {
        var ii := x + org;
        SetInBody(p[..], bits, ii);
        ghost var was := p[..];
        p[ii / 6] := WithBit(p[ii / 6], Place(ii % 6));
        assert p[..] == was[ii / 6 := WithBit(was[ii / 6], Place(ii % 6))];
        bits := bits[ii := true];
      }
    }
    assert row[..di] == row;
    RowWritten(g, bits, i, row);
  }

  lemma WholeRow6(sg: SparseGraph, g: Graph, u: nat)
    requires RowsOf(sg, g) && u < |g| && sg.v[u] + sg.d[u] <= |sg.e|
    ensures |RowOf(sg, u)| == sg.d[u] && forall x :: x in RowOf(sg, u) <==> x in g[u]
  {
    assert RowOk(sg, g, u);
  }

  method Sgtog6(sg: SparseGraph, ghost g: Graph) returns (s: seq<nat>)
    requires RowsOf(sg, g)
    ensures Graph6Text(s, g) && (|g| < 0x10_0000_0000 ==> exists q :: PlainGraph6(s, g, q))
  {
    hide PlainGraph6;
    var n := |sg.v|;
    G6BodyLenIs(n);
    var bodylen := G6BodyLen(n);
    var p := new nat[bodylen](_ => 0);
    ghost var bits := Zeros(6 * p.Length);
    EmptyBody(p[..], g);
    var org := 0;
    for i := 0 to n
      invariant BitsOf(p[..], bits) && TriangleBits(g, bits, i, []) && org == Offset(n, i, false)
    {
      bits := WriteSparseRow(sg, p, i, org, g, bits);
      org := org + i;
    }
    ghost var raw := p[..];
    for ii := 0 to bodylen
      invariant forall k :: 0 <= k < ii ==> p[k] == raw[k] + BIAS6
      invariant forall k :: ii <= k < p.Length ==> p[k] == raw[k]
    {
      p[ii] := p[ii] + BIAS6;
    }
    WrittenPacks(g, raw, p[..], bits);
    s := EncodeGraphSize(n) + p[..] + [NEWLINE, NUL];
    if n < 0x10_0000_0000 { Graph6IsPlain(s, g); }
  }

  // ----- both writers agree -----

  // Main theorem: there is one graph6 text for a graph, so both writers produce the same bytes.
  lemma OneText(g: Graph, s: seq<nat>, t: seq<nat>)
    requires Graph6Text(s, g) && Graph6Text(t, g)
    ensures s == t
  {
    var a: seq<nat> :| Packs(a, Matrix(g, |g|, false)) && s == EncodeGraphSize(|g|) + a + [NEWLINE, NUL];
    var b: seq<nat> :| Packs(b, Matrix(g, |g|, false)) && t == EncodeGraphSize(|g|) + b + [NEWLINE, NUL];
    UnpackInjective(a, b);
  }
}
