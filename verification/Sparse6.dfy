// ntos6, ntois6 and the sparse6 half of stringtograph and stringtograph_inc.
module Sparse6 {
  import opened Sums
  import opened Graphs
  import opened Bits
  import opened GraphText
  import opened Sparse6Spec
  import opened Sparse6Graphs

  // nb bits are just enough for the numbers below n.
  ghost predicate IsWidth(n: nat, nb: nat) {
    if n <= 1 then nb == 0 else nb > 0 && Pow2(nb - 1) <= n - 1 < Pow2(nb)
  }

  // The width of a vertex number.
  function Width(n: nat): (nb: nat)
    ensures IsWidth(n, nb)
  {
    if n == 0 then 0
    else
      BitLengthIs(n - 1);
      BitLength(n - 1)
  }

  lemma WidthUnique(n: nat, nb: nat)
    requires IsWidth(n, nb)
    ensures nb == Width(n)
  {
    var w := Width(n);
    if nb < w { PowMonotone(nb, w - 1); }
    if w < nb { PowMonotone(w, nb - 1); }
  }

  lemma {:induction false} PowMonotone(a: nat, b: nat)
    requires a <= b
    ensures Pow2(a) <= Pow2(b)
  {
    if a < b { PowMonotone(a, b - 1); }
  }

  // i = n - 1 is halved until it vanishes, counting the halvings.
  method CountWidth(n: nat) returns (nb: nat)
    ensures nb == Width(n)
    ensures n <= 1 ==> nb == 0
    ensures n > 1 ==> nb > 0 && Pow2(nb - 1) <= n - 1 < Pow2(nb)
  {
    nb := 0;
    var i: nat := if n == 0 then 0 else n - 1;
    while i > 0
      invariant nb + BitLength(i) == Width(n)
    {
      i, nb := i / 2, nb + 1;
    }
  }

  lemma WidthEnough(n: nat)
    ensures n <= Pow2(Width(n))
  {
    if n > 0 { BitLengthIs(n - 1); }
  }

  // body holds the edges es of a graph on n vertices, padded to whole bytes.
  ghost predicate BodyOf(body: seq<nat>, es: seq<Edge>, n: nat) {
    Printable(body) && exists pad :: PaddedBits(Unpack(body), es, n, pad)
  }

  ghost predicate PaddedBits(bits: seq<bool>, es: seq<Edge>, n: nat, pad: seq<bool>) {
    && bits == EncodeBits(es, Width(n)) + pad && |pad| < 6
    && (pad == [] || pad == Padding(|pad|, LastRow(es), n, Width(n)))
  }

  // ----- writing -----

  method PushEdge(out0: seq<nat>, x0: nat, k0: nat, lastj: nat, j: nat, i: nat, nb: nat, ghost bits: seq<bool>)
    returns (out: seq<nat>, x: nat, k: nat)
    requires Writing(out0, x0, k0, bits) && lastj <= j
    ensures Writing(out, x, k, bits + EdgeBits(lastj, (j, i), nb))
  {
    ghost var b := bits;
    assert bits + EdgeBits(lastj, (j, i), nb) == EdgeBitsAfter(bits, lastj, j, nb) + Bin(i, nb);
    hide Writing, Bin, EdgeBits;
    if j == lastj {
      out, x, k := PushBit(out0, x0, k0, false, b);
      b := b + [false];
    } else {
      out, x, k := PushBit(out0, x0, k0, true, b);
      b := b + [true];
      if j > lastj + 1 {
        out, x, k := PushNumber(out, x, k, j, nb, b);
        b := b + Bin(j, nb);
        out, x, k := PushBit(out, x, k, false, b);
        b := b + [false];
      }
    }
    assert b == EdgeBitsAfter(bits, lastj, j, nb);
    out, x, k := PushNumber(out, x, k, i, nb, b);
  }

  // The bits of an edge up to its lower end.
  ghost function EdgeBitsAfter(bits: seq<bool>, last: nat, j: nat, nb: nat): seq<bool> {
    if j == last then bits + [false]
    else if j > last + 1 then bits + [true] + Bin(j, nb) + [false]
    else bits + [true]
  }

  // The last byte, with the padding rule.
  method Finish(out0: seq<nat>, x: nat, k: nat, lastj: nat, n: nat, nb: nat,
                ghost es: seq<Edge>) returns (out: seq<nat>)
    requires nb == Width(n) && lastj == LastRow(es) && Writing(out0, x, k, EncodeBits(es, nb))
    ensures BodyOf(out, es, n)
  {
    hide *;
    out := out0;
    WritingBounds(out0, x, k, EncodeBits(es, nb));
    if k == 6 { WholeBytes(out0, x, n, es); }
    if k != 6 {
      PaddingValue(k, lastj, n, nb);
      NeedsZeroIs(k, lastj, n, nb);
      LastByte(out0, x, k, n, es);
      if k >= nb + 1 && lastj + 2 == n && n == Pow2(nb) {
        out := out + [BIAS6 + Shl(x, k) + (Pow2(k - 1) - 1)];
      } else {
        out := out + [BIAS6 + Shl(x, k) + (Pow2(k) - 1)];
      }
    }
  }

  lemma NeedsZeroIs(k: nat, last: nat, n: nat, nb: nat)
    ensures NeedsZero(k, last, n, nb) <==> k >= nb + 1 && last + 2 == n && n == Pow2(nb)
  {
  }

  lemma WritingBounds(out: seq<nat>, x: nat, k: nat, bits: seq<bool>)
    requires Writing(out, x, k, bits)
    ensures 1 <= k <= 6
  {
  }

  lemma WholeBytes(out: seq<nat>, x: nat, n: nat, es: seq<Edge>)
    requires Writing(out, x, 6, EncodeBits(es, Width(n)))
    ensures BodyOf(out, es, n)
  {
    hide EncodeBits, Unpack;
    assert Bin(x, 0) == [];
    assert Unpack(out) == EncodeBits(es, Width(n)) + [];
    assert PaddedBits(Unpack(out), es, n, []);
  }

  lemma NothingWritten(rows: Graph, nb: nat)
    ensures Writing([], 0, 6, EncodeBits(LowerEdges(rows, 0), nb)) && LastRow(LowerEdges(rows, 0)) == 0
  {
    assert Bin(0, 0) == [] && Unpack([]) == [];
  }

  lemma LastByte(out: seq<nat>, x: nat, k: nat, n: nat, es: seq<Edge>)
    requires Writing(out, x, k, EncodeBits(es, Width(n))) && 1 <= k < 6
    ensures BodyOf(out + [BIAS6 + Shl(x, k) + Value(Padding(k, LastRow(es), n, Width(n)))], es, n)
  {
    hide *;
    WritingParts(out, x, k, EncodeBits(es, Width(n)));
    var pad := Padding(k, LastRow(es), n, Width(n));
    var last := BIAS6 + Shl(x, k) + Value(pad);
    PaddingLength(k, LastRow(es), n, Width(n));
    JoinBits(x, k, pad);
    AppendByte(out, last, Bin(x, 6 - k), pad);
    PaddedBody(out + [last], es, n, k);
  }

  lemma WritingParts(out: seq<nat>, x: nat, k: nat, bits: seq<bool>)
    requires Writing(out, x, k, bits)
    ensures Printable(out) && 1 <= k <= 6 && x < Pow2(6 - k) && bits == Unpack(out) + Bin(x, 6 - k)
  {
  }

  lemma PaddingLength(k: nat, last: nat, n: nat, nb: nat)
    requires k > 0
    ensures |Padding(k, last, n, nb)| == k
  {
  }

  lemma PaddedBody(body: seq<nat>, es: seq<Edge>, n: nat, k: nat)
    requires 0 < k < 6 && Printable(body)
    requires Unpack(body) == EncodeBits(es, Width(n)) + Padding(k, LastRow(es), n, Width(n))
    ensures BodyOf(body, es, n)
  {
    hide Unpack, EncodeBits, Printable;
    assert PaddedBits(Unpack(body), es, n, Padding(k, LastRow(es), n, Width(n)));
  }

  lemma AppendByte(out: seq<nat>, last: nat, have: seq<bool>, pad: seq<bool>)
    requires Printable(out) && BIAS6 <= last < BIAS6 + 64 && Bin(last - BIAS6, 6) == have + pad
    ensures Printable(out + [last])
    ensures Unpack(out + [last]) == (Unpack(out) + have) + pad
  {
    UnpackLast(out, last);
  }

  lemma PaddingValue(k: nat, last: nat, n: nat, nb: nat)
    requires k > 0
    ensures Value(Padding(k, last, n, nb)) == if NeedsZero(k, last, n, nb) then Pow2(k - 1) - 1 else Pow2(k) - 1
  {
    ValueOnes(k);
    ValueOnes(k - 1);
    ValueAppend([false], Ones(k - 1));
    assert Value([false]) == 0;
  }

  lemma EncodeAppend(es: seq<Edge>, e: Edge, nb: nat)
    ensures EncodeBits(es + [e], nb) == EncodeBits(es, nb) + EdgeBits(LastRow(es), e, nb)
    ensures LastRow(es + [e]) == e.0
  {
    assert (es + [e])[..|es|] == es;
  }

  lemma RowEdgesNext(es: seq<Edge>, row: set<nat>, j: nat, i: nat)
    ensures es + RowEdges(row, j, i + 1) == if i in row then (es + RowEdges(row, j, i)) + [(j, i)]
      else es + RowEdges(row, j, i)
  {
  }

  // Write the edges of one row.
  method WriteRow(row: set<nat>, j: nat, nb: nat, lastj0: nat, out0: seq<nat>, x0: nat, k0: nat, ghost es: seq<Edge>)
    returns (out: seq<nat>, x: nat, k: nat, lastj: nat)
    requires Writing(out0, x0, k0, EncodeBits(es, nb)) && lastj0 == LastRow(es) <= j
    ensures Writing(out, x, k, EncodeBits(es + RowEdges(row, j, j + 1), nb))
    ensures lastj == LastRow(es + RowEdges(row, j, j + 1)) <= j
  {
    out, x, k, lastj := out0, x0, k0, lastj0;
    assert es + RowEdges(row, j, 0) == es;
    hide Writing, EncodeBits, EdgeBits, LastRow, RowEdges;
    for i := 0 to j + 1
      invariant Writing(out, x, k, EncodeBits(es + RowEdges(row, j, i), nb))
      invariant lastj == LastRow(es + RowEdges(row, j, i)) <= j
    {
      ghost var sofar := es + RowEdges(row, j, i);
      RowEdgesNext(es, row, j, i);
      if i in row {
        out, x, k := PushEdge(out, x, k, lastj, j, i, nb, EncodeBits(sofar, nb));
        EncodeAppend(sofar, (j, i), nb);
        lastj := j;
      }
    }
  }

  // The sparse6 text of a graph, with its newline and NUL.
  ghost predicate Sparse6Text(s: seq<nat>, g: Graph) {
    exists body :: BodyOf(body, LowerEdges(g, |g|), |g|) && s == [COLON] + EncodeGraphSize(|g|) + body + [NEWLINE, NUL]
  }

  // The incremental text of a graph against a prior graph.
  ghost predicate IncrementalText(s: seq<nat>, g: Graph, prev: Graph)
    requires |prev| == |g|
  {
    exists body :: BodyOf(body, LowerEdges(Difference(g, prev), |g|), |g|) && s == [SEMICOLON] + body + [NEWLINE, NUL]
  }

  lemma LowerEdgesNext(rows: Graph, j: nat)
    requires j < |rows|
    ensures LowerEdges(rows, j + 1) == LowerEdges(rows, j) + RowEdges(rows[j], j, j + 1)
  {
  }

  // ----- the texts in plain numbers -----

  // From position q on stand the bits, then ones up to the end of the byte, but for a first 0 where ones
  // alone would name a loop at the last vertex; then newline and NUL.
  ghost predicate PlainBody(s: seq<nat>, q: nat, bits: seq<bool>, last: nat, n: nat, nb: nat) {
    var m, bytes := |bits|, (|bits| + 5) / 6;
    && |s| == q + bytes + 2 && s[|s| - 2] == 10 && s[|s| - 1] == 0
    && (forall i :: q <= i < |s| - 2 ==> 63 <= s[i] <= 126)
    && (forall k :: 0 <= k < m ==> (TextBit(s, q, k) <==> bits[k]))
    && forall k :: m <= k < 6 * bytes ==>
      (!TextBit(s, q, k) <==> k == m && 6 * bytes - m >= nb + 1 && last + 2 == n && n == Pow2(nb))
  }

  lemma PaddingAt(k: nat, last: nat, n: nat, nb: nat, i: nat)
    requires i < k
    ensures Padding(k, last, n, nb)[i] <==> !(i == 0 && k >= nb + 1 && last + 2 == n && n == Pow2(nb))
  {
  }

  lemma BytesNeeded(bytes: nat, m: nat, pad: nat)
    requires 6 * bytes == m + pad && pad < 6
    ensures bytes == (m + 5) / 6
  {
  }

  // The parts of a body.
  lemma BodyBits(body: seq<nat>, es: seq<Edge>, n: nat) returns (pad: seq<bool>)
    requires BodyOf(body, es, n)
    ensures Printable(body) && Unpack(body) == EncodeBits(es, Width(n)) + pad && |pad| < 6
    ensures pad == [] || pad == Padding(|pad|, LastRow(es), n, Width(n))
    ensures 6 * |body| == |EncodeBits(es, Width(n))| + |pad| && |body| == (|EncodeBits(es, Width(n))| + 5) / 6
  {
    hide Unpack, EncodeBits, Padding, Printable;
    pad :| PaddedBits(Unpack(body), es, n, pad);
    assert 6 * |body| == |EncodeBits(es, Width(n))| + |pad|;
    BytesNeeded(|body|, |EncodeBits(es, Width(n))|, |pad|);
  }

  lemma BodyIsPlain(head: seq<nat>, body: seq<nat>, es: seq<Edge>, n: nat, nb: nat, s: seq<nat>)
    requires BodyOf(body, es, n) && IsWidth(n, nb) && s == head + body + [NEWLINE, NUL]
    ensures PlainBody(s, |head|, EncodeBits(es, nb), LastRow(es), n, nb)
  {
    hide *;
    WidthUnique(n, nb);
    var pad := BodyBits(body, es, n);
    var bits, q, e := EncodeBits(es, nb), |head|, |head| + |body|;
    assert s[q..e] == body;
    assert forall i :: q <= i < e ==> s[i] == body[i - q];
    var m := |bits|;
    forall k | 0 <= k < 6 * |body|
      ensures TextBit(s, q, k) <==> if k < m then bits[k]
        else !(k == m && |pad| >= nb + 1 && LastRow(es) + 2 == n && n == Pow2(nb))
    {
      UnpackTextBit(s, q, e, k);
      assert Unpack(body)[k] == (bits + pad)[k];
      if k >= m { PaddingAt(|pad|, LastRow(es), n, nb, k - m); }
    }
    PrintableIs(body);
    Constants();
    PlainMade(s, q, bits, LastRow(es), n, nb);
  }

  lemma PlainMade(s: seq<nat>, q: nat, bits: seq<bool>, last: nat, n: nat, nb: nat)
    requires |s| == q + (|bits| + 5) / 6 + 2 && s[|s| - 2] == 10 && s[|s| - 1] == 0
    requires forall i :: q <= i < |s| - 2 ==> 63 <= s[i] <= 126
    requires forall k :: 0 <= k < 6 * ((|bits| + 5) / 6) ==> (TextBit(s, q, k) <==> if k < |bits| then bits[k]
      else !(k == |bits| && 6 * ((|bits| + 5) / 6) - |bits| >= nb + 1 && last + 2 == n && n == Pow2(nb)))
    ensures PlainBody(s, q, bits, last, n, nb)
  {
    hide TextBit, Pow2;
  }

  // The mark 58, the size, and the bits of the edges in the width of the vertex numbers.
  ghost predicate PlainSparse6(s: seq<nat>, g: Graph, q: nat, nb: nat) {
    var es := LowerEdges(g, |g|);
    && |s| > 0 && s[0] == 58 && SizePrefix(s, 1, |g|, q) && IsWidth(|g|, nb)
    && PlainBody(s, q, EncodeBits(es, nb), LastRow(es), |g|, nb)
  }

  // The mark 59, and the bits of the edges that differ.
  ghost predicate PlainIncremental(s: seq<nat>, g: Graph, prev: Graph, nb: nat)
    requires |prev| == |g|
  {
    var es := LowerEdges(Difference(g, prev), |g|);
    && |s| > 0 && s[0] == 59 && IsWidth(|g|, nb)
    && PlainBody(s, 1, EncodeBits(es, nb), LastRow(es), |g|, nb)
  }

  // Main theorem: what the texts are, in plain numbers.
  lemma Sparse6IsPlain(s: seq<nat>, g: Graph)
    requires Sparse6Text(s, g) && |g| < 0x10_0000_0000
    ensures exists q, nb :: PlainSparse6(s, g, q, nb)
  {
    var n, es := |g|, LowerEdges(g, |g|);
    var body :| BodyOf(body, es, n) && s == [COLON] + EncodeGraphSize(n) + body + [NEWLINE, NUL];
    var size := EncodeGraphSize(n);
    assert s[1..1 + |size|] == size;
    hide BodyOf, EncodeGraphSize, SizePrefix, PlainBody, EncodeBits, LowerEdges, LastRow, IsWidth;
    SizeIsPrefix(s, 1, n);
    BodyIsPlain([COLON] + size, body, es, n, Width(n), s);
    assert PlainSparse6(s, g, 1 + |size|, Width(n));
  }

  lemma IncrementalIsPlain(s: seq<nat>, g: Graph, prev: Graph)
    requires |prev| == |g| && IncrementalText(s, g, prev)
    ensures exists nb :: PlainIncremental(s, g, prev, nb)
  {
    var n, es := |g|, LowerEdges(Difference(g, prev), |g|);
    var body :| BodyOf(body, es, n) && s == [SEMICOLON] + body + [NEWLINE, NUL];
    hide BodyOf, PlainBody, EncodeBits, LowerEdges, LastRow, IsWidth;
    BodyIsPlain([SEMICOLON], body, es, n, Width(n), s);
    assert PlainIncremental(s, g, prev, Width(n));
  }

  // There is one sparse6 text for a graph.
  lemma OneSparseText(g: Graph, s: seq<nat>, t: seq<nat>)
    requires Sparse6Text(s, g) && Sparse6Text(t, g)
    ensures s == t
  {
    var n, es := |g|, LowerEdges(g, |g|);
    var a :| BodyOf(a, es, n) && s == [COLON] + EncodeGraphSize(n) + a + [NEWLINE, NUL];
    var b :| BodyOf(b, es, n) && t == [COLON] + EncodeGraphSize(n) + b + [NEWLINE, NUL];
    OneBody(a, b, es, n);
  }

  lemma OneBody(a: seq<nat>, b: seq<nat>, es: seq<Edge>, n: nat)
    requires BodyOf(a, es, n) && BodyOf(b, es, n)
    ensures a == b
  {
    hide *;
    var pad := BodyBits(a, es, n);
    var pad2 := BodyBits(b, es, n);
    assert |pad| == |pad2|;
    UnpackInjective(a, b);
  }

  method WriteRows(rows: Graph) returns (body: seq<nat>)
    ensures BodyOf(body, LowerEdges(rows, |rows|), |rows|)
  {
    var n := |rows|;
    var nb := CountWidth(n);
    var out: seq<nat>, x: nat, k: nat, lastj: nat := [], 0, 6, 0;
    NothingWritten(rows, nb);
    hide *;
    for j := 0 to n
      invariant Writing(out, x, k, EncodeBits(LowerEdges(rows, j), nb))
      invariant lastj == LastRow(LowerEdges(rows, j)) <= j
    {
      ghost var es := LowerEdges(rows, j);
      out, x, k, lastj := WriteRow(rows[j], j, nb, lastj, out, x, k, es);
      LowerEdgesNext(rows, j);
    }
    body := Finish(out, x, k, lastj, n, nb, LowerEdges(rows, n));
  }

  method Ntos6(g: Graph) returns (s: seq<nat>)
    ensures Sparse6Text(s, g)
    ensures |g| < 0x10_0000_0000 ==> exists q, nb :: PlainSparse6(s, g, q, nb)
  {
    hide PlainSparse6;
    var body := WriteRows(g);
    s := [COLON] + EncodeGraphSize(|g|) + body + [NEWLINE, NUL];
    if |g| < 0x10_0000_0000 { Sparse6IsPlain(s, g); }
  }

  method Ntois6(g: Graph, prevg: Graph) returns (s: seq<nat>)
    requires |prevg| == |g|
    ensures IncrementalText(s, g, prevg) && exists nb :: PlainIncremental(s, g, prevg, nb)
  {
    hide PlainIncremental;
    var gdiff := seq(|g|, u requires 0 <= u < |g| => (g[u] - prevg[u]) + (prevg[u] - g[u]));
    assert gdiff == Difference(g, prevg);
    var body := WriteRows(gdiff);
    s := [SEMICOLON] + body + [NEWLINE, NUL];
    IncrementalIsPlain(s, g, prevg);
  }

  // ----- reading -----

  ghost predicate IsEnd(c: nat) {
    c == NEWLINE || c == NUL
  }

  // s[e] is the first byte from p on that ends the text.
  ghost predicate BodyAt(s: seq<nat>, p: nat, e: nat) {
    p <= e < |s| && IsEnd(s[e]) && forall i :: p <= i < e ==> !IsEnd(s[i])
  }

  // The bits not yet consumed: the k low bits of x, then the bytes up to e.
  ghost function Rest(s: seq<nat>, p: nat, e: nat, x: nat, k: nat): seq<bool>
    requires p <= e <= |s|
  {
    Bin(x, k) + Unpack(s[p..e])
  }

  lemma NextByte(s: seq<nat>, p: nat, e: nat, x: nat)
    requires BodyAt(s, p, e)
    ensures IsEnd(s[p]) <==> p == e
    ensures p == e ==> Rest(s, p, e, x, 0) == []
    ensures p < e ==> Rest(s, p + 1, e, LowSix(s[p]), 6) == Rest(s, p, e, x, 0)
    ensures p < e ==> BodyAt(s, p + 1, e)
  {
    if p < e {
      var body := s[p..e];
      assert body[0] == s[p] && body[1..] == s[p + 1..e];
      UnpackFirst(body);
    }
  }

  // Taking the top m of the k waiting bits.
  lemma TakeBits(x: nat, k: nat, m: nat, tail: seq<bool>)
    requires m <= k
    ensures var b := Bin(x, k) + tail;
            && b[m..] == Bin(x, k - m) + tail
            && Value(b[..m]) == Shr(x, k - m) % Pow2(m)
  {
    BinSplit(x, m, k - m);
    ValueBin(Shr(x, k - m), m);
    assert (Bin(x, k) + tail)[..m] == Bin(Shr(x, k - m), m);
  }

  // Appending the top m waiting bits to a number of which got bits are known.
  lemma NumberStep(s: seq<nat>, p: nat, e: nat, all: seq<bool>, got: nat, x: nat, k: nat, m: nat)
    requires p <= e <= |s|
    requires got <= |all| && Rest(s, p, e, x, k) == all[got..] && m <= k
    ensures got + m <= |all|
    ensures Value(all[..got + m]) == Value(all[..got]) * Pow2(m) + Shr(x, k - m) % Pow2(m)
    ensures Rest(s, p, e, x, k - m) == all[got + m..]
  {
    TakeBits(x, k, m, Unpack(s[p..e]));
    var here := all[got..][..m];
    assert all[..got + m] == all[..got] + here;
    ValueAppend(all[..got], here);
    assert all[got + m..] == all[got..][m..];
  }

  lemma InText(s: seq<nat>, p: nat, e: nat)
    requires BodyAt(s, p, e)
    ensures p <= e < |s|
  {
  }

  // Fetch a byte when no bits are waiting.
  method Fetch(s: seq<nat>, p0: nat, x0: nat, k0: nat, ghost e: nat) returns (p: nat, x: nat, k: nat, done: bool)
    requires BodyAt(s, p0, e) && k0 <= 6
    ensures done <==> Rest(s, p0, e, x0, k0) == []
    ensures !done ==> BodyAt(s, p, e) && 0 < k <= 6 && Rest(s, p, e, x, k) == Rest(s, p0, e, x0, k0)
  {
    p, x, k, done := p0, x0, k0, false;
    if k == 0 {
      NextByte(s, p, e, x);
      x := s[p];
      p := p + 1;
      if x == NEWLINE || x == NUL {
        done := true;
      } else {
        x, k := LowSix(x), 6;
      }
    }
  }

  // Take as many of the k waiting bits as are needed, or all of them.
  method TakePart(s: seq<nat>, p: nat, x: nat, k0: nat, need0: nat, j0: nat, nb: nat, ghost all: seq<bool>,
                  ghost e: nat)
    returns (need: nat, k: nat, j: nat)
    requires p <= e <= |s| && 0 < k0 <= 6 && 0 < need0 <= nb && nb - need0 <= |all|
    requires j0 == Value(all[..nb - need0]) && Rest(s, p, e, x, k0) == all[nb - need0..]
    ensures need < need0 && k <= 6 && nb - need <= |all|
    ensures j == Value(all[..nb - need]) && Rest(s, p, e, x, k) == all[nb - need..]
  {
    hide *;
    NumberStep(s, p, e, all, nb - need0, x, k0, if need0 >= k0 then k0 else need0);
    if need0 >= k0 {
      ShrZero(x);
      j := j0 * Pow2(k0) + x % Pow2(k0);
      need, k := need0 - k0, 0;
    } else {
      k := k0 - need0;
      j := j0 * Pow2(need0) + Shr(x, k) % Pow2(need0);
      need := 0;
    }
  }

  // Read nb bits as a number, or find the end of the text.
  method ReadNumber(s: seq<nat>, p0: nat, x0: nat, k0: nat, nb: nat, ghost e: nat)
    returns (p: nat, x: nat, k: nat, j: nat, done: bool)
    requires BodyAt(s, p0, e) && k0 <= 6
    ensures done <==> |Rest(s, p0, e, x0, k0)| < nb
    ensures !done ==> BodyAt(s, p, e) && k <= 6
    ensures !done ==> j == Value(Rest(s, p0, e, x0, k0)[..nb]) && Rest(s, p, e, x, k) == Rest(s, p0, e, x0, k0)[nb..]
  {
    ghost var all := Rest(s, p0, e, x0, k0);
    var need: nat := nb;
    p, x, k, j, done := p0, x0, k0, 0, false;
    assert all[..0] == [] && all[0..] == all;
    assert Value(all[..0]) == 0;
    hide Bin, Unpack, Value, Shr, Pow2, BodyAt, Rest;
    while need > 0
      invariant 0 <= need <= nb && !done
      invariant BodyAt(s, p, e) && k <= 6 && nb - need <= |all|
      invariant j == Value(all[..nb - need]) && Rest(s, p, e, x, k) == all[nb - need..]
      decreases need
    {
      p, x, k, done := Fetch(s, p, x, k, e);
      if done { return; }
      InText(s, p, e);
      need, k, j := TakePart(s, p, x, k, need, j, nb, all, e);
    }
  }

  lemma ShrZero(x: nat)
    ensures Shr(x, 0) == x
  {
  }

  // What a sparse6 body says, added to or flipped against the rows already there.
  ghost function Apply(g: Graph, es: seq<Edge>, flip: bool): (h: Graph)
    requires InRange(es, |g|)
    ensures |h| == |g|
  {
    if flip then FlipAll(g, es) else AddAll(g, es)
  }

  lemma ApplyNext(g: Graph, es: seq<Edge>, e: Edge, flip: bool)
    requires InRange(es, |g|) && e.1 <= e.0 < |g|
    ensures InRange(es + [e], |g|)
    ensures Apply(g, es + [e], flip) == if flip then FlipEdge(Apply(g, es, flip), e) else AddEdge(Apply(g, es, flip), e)
  {
    assert (es + [e])[..|es|] == es;
  }

  lemma StartReading(s: seq<nat>, p: nat, e: nat, g: Graph, flip: bool)
    requires p <= e <= |s|
    ensures Rest(s, p, e, 0, 0) == Unpack(s[p..e])
    ensures InRange([], |g|) && Apply(g, [], flip) == g
  {
    assert Bin(0, 0) == [];
  }

  // One group of the bit stream, as the decoder takes it.
  lemma DecodeGroup(b: seq<bool>, v: nat, nb: nat, n: nat, es: seq<Edge>)
    ensures |b| < nb + 1 ==> es + DecodeBits(b, v, nb, n) == es
    ensures |b| >= nb + 1 ==>
      var v1, j, tail := if b[0] then v + 1 else v, Value(b[1..][..nb]), b[1..][nb..];
      es + DecodeBits(b, v, nb, n) ==
        if j > v1 then es + DecodeBits(tail, j, nb, n)
        else if v1 < n then (es + [(v1, j)]) + DecodeBits(tail, v1, nb, n)
        else es + DecodeBits(tail, v1, nb, n)
  {
    if |b| >= nb + 1 {
      assert b[1..][..nb] == b[1..nb + 1] && b[1..][nb..] == b[nb + 1..];
    }
  }

  method ReadBit(s: seq<nat>, p0: nat, x0: nat, k0: nat, ghost e: nat)
    returns (p: nat, x: nat, k: nat, bit: bool, done: bool)
    requires BodyAt(s, p0, e) && k0 <= 6
    ensures done <==> Rest(s, p0, e, x0, k0) == []
    ensures !done ==> BodyAt(s, p, e) && k <= 6
    ensures !done ==> bit == Rest(s, p0, e, x0, k0)[0] && Rest(s, p, e, x, k) == Rest(s, p0, e, x0, k0)[1..]
  {
    bit := false;
    p, x, k, done := Fetch(s, p0, x0, k0, e);
    if done { return; }
    TopOf(x, k, Unpack(s[p..e]));
    bit := Shr(x, k - 1) % 2 == 1;
    k := k - 1;
  }

  lemma TopOf(x: nat, k: nat, tail: seq<bool>)
    requires 0 < k
    ensures var b := Bin(x, k) + tail; b[0] == (Shr(x, k - 1) % 2 == 1) && b[1..] == Bin(x, k - 1) + tail
  {
    BinSplit(x, 1, k - 1);
    assert Bin(Shr(x, k - 1), 1) == [Shr(x, k - 1) % 2 == 1];
  }

  // Flip or add one edge.
  method PutEdge(g: array<set<nat>>, v: nat, j: nat, flip: bool)
    requires v < g.Length && j < g.Length
    modifies g
    ensures g[..] == if flip then FlipEdge(old(g[..]), (v, j)) else AddEdge(old(g[..]), (v, j))
  {
    if flip {
      g[v] := Flip(g[v], j);
      if j != v { g[j] := Flip(g[j], v); }
    } else {
      g[v] := g[v] + {j};
      g[j] := g[j] + {v};
    }
  }

  // What a group of the bit stream does to the current vertex and to the list of edges.
  ghost predicate GroupRead(all: seq<Edge>, es: seq<Edge>, tail: seq<bool>, v: nat, j: nat, nb: nat, n: nat) {
    if j > v then es + DecodeBits(tail, j, nb, n) == all
    else if v < n then (es + [(v, j)]) + DecodeBits(tail, v, nb, n) == all
    else es + DecodeBits(tail, v, nb, n) == all
  }

  // Read the bit and the number of one group.
  method ReadGroup(s: seq<nat>, p0: nat, x0: nat, k0: nat, v0: nat, nb: nat, n: nat, ghost e: nat, ghost es: seq<Edge>,
                   ghost all: seq<Edge>)
    returns (p: nat, x: nat, k: nat, v: nat, j: nat, done: bool)
    requires BodyAt(s, p0, e) && k0 <= 6
    requires es + DecodeBits(Rest(s, p0, e, x0, k0), v0, nb, n) == all
    ensures done ==> es == all
    ensures !done ==> BodyAt(s, p, e) && k <= 6 && |Rest(s, p, e, x, k)| < |Rest(s, p0, e, x0, k0)|
    ensures !done ==> GroupRead(all, es, Rest(s, p, e, x, k), v, j, nb, n)
  {
    hide Bin, Unpack, Rest, DecodeBits, Value, InRange;
    ghost var here := Rest(s, p0, e, x0, k0);
    DecodeGroup(here, v0, nb, n, es);
    var bit;
    v, j := v0, 0;
    p, x, k, bit, done := ReadBit(s, p0, x0, k0, e);
    if done { return; }
    if bit { v := v + 1; }
    p, x, k, j, done := ReadNumber(s, p, x, k, nb, e);
  }

  // The edge of a group lies in the graph, as all edges do.
  lemma GroupEdge(all: seq<Edge>, es: seq<Edge>, tail: seq<bool>, v: nat, j: nat, nb: nat, n: nat)
    requires GroupRead(all, es, tail, v, j, nb, n) && j <= v < n
    ensures (es + [(v, j)]) + DecodeBits(tail, v, nb, n) == all
  {
  }

  lemma GroupOther(all: seq<Edge>, es: seq<Edge>, tail: seq<bool>, v: nat, j: nat, nb: nat, n: nat)
    requires GroupRead(all, es, tail, v, j, nb, n) && (j > v || v >= n)
    ensures es + DecodeBits(tail, if j > v then j else v, nb, n) == all
  {
  }

  // Read edges from position p up to the end of the text into the rows of g.
  method DecodeInto(s: seq<nat>, p0: nat, g: array<set<nat>>, nb: nat, flip: bool, ghost e: nat)
    requires BodyAt(s, p0, e) && 0 < g.Length && nb == Width(g.Length)
    modifies g
    ensures InRange(DecodeBits(Unpack(s[p0..e]), 0, nb, g.Length), g.Length)
    ensures g[..] == Apply(old(g[..]), DecodeBits(Unpack(s[p0..e]), 0, nb, g.Length), flip)
  {
    hide Bin, Unpack, Rest, DecodeBits, Apply, Value, InRange, Width, GroupRead, AddEdge, FlipEdge;
    var n := g.Length;
    ghost var g0, all := g[..], DecodeBits(Unpack(s[p0..e]), 0, nb, n);
    ghost var es: seq<Edge> := [];
    DecodedInRange(Unpack(s[p0..e]), 0, nb, n);
    var p: nat, x: nat, k: nat, v: nat := p0, 0, 0, 0;
    StartReading(s, p0, e, g0, flip);
    var done := false;
    while !done
      invariant !done ==> BodyAt(s, p, e) && k <= 6
      invariant InRange(es, n) && g[..] == Apply(g0, es, flip)
      invariant done ==> es == all
      invariant !done ==> es + DecodeBits(Rest(s, p, e, x, k), v, nb, n) == all
      decreases !done, if done then 0 else |Rest(s, p, e, x, k)|
    {
      var j;
      p, x, k, v, j, done := ReadGroup(s, p, x, k, v, nb, n, e, es, all);
      if done { continue; }
      if j > v {
        GroupOther(all, es, Rest(s, p, e, x, k), v, j, nb, n);
        v := j;
      } else if v < n {
        GroupEdge(all, es, Rest(s, p, e, x, k), v, j, nb, n);
        PutEdge(g, v, j, flip);
        ApplyNext(g0, es, (v, j), flip);
        es := es + [(v, j)];
      } else {
        GroupOther(all, es, Rest(s, p, e, x, k), v, j, nb, n);
      }
    }
  }

  // ----- whole texts -----

  ghost predicate HasEnd(s: seq<nat>, p: nat) {
    exists e :: p <= e < |s| && IsEnd(s[e])
  }

  // The end of the text that starts at p.
  ghost function EndOf(s: seq<nat>, p: nat): (e: nat)
    requires HasEnd(s, p)
    ensures BodyAt(s, p, e)
    decreases |s| - p
  {
    if IsEnd(s[p]) then p else EndOf(s, p + 1)
  }

  lemma EndUnique(s: seq<nat>, p: nat, e: nat)
    requires BodyAt(s, p, e)
    ensures HasEnd(s, p) && EndOf(s, p) == e
  {
    assert HasEnd(s, p);
  }

  // A sparse6 text with a readable size; any bytes may follow, up to the first that ends the text.
  ghost predicate Readable(s: seq<nat>) {
    |s| > 0 && s[0] == COLON && SizeAt(s, 1) && HasEnd(s, 1 + SizeLen(GraphSizeAt(s, 1)))
  }

  // The graph that a sparse6 text stands for.
  ghost function GraphOf(s: seq<nat>): Graph
    requires Readable(s)
  {
    var n, p := GraphSizeAt(s, 1), 1 + SizeLen(GraphSizeAt(s, 1));
    var es := DecodeBits(Unpack(s[p..EndOf(s, p)]), 0, Width(n), n);
    DecodedInRange(Unpack(s[p..EndOf(s, p)]), 0, Width(n), n);
    AddAll(Empty(n), es)
  }

  // The graph of n vertices whose edges are read from position q on, in numbers of nb bits.
  ghost predicate ReadsFrom(s: seq<nat>, q: nat, n: nat, nb: nat, h: Graph) {
    && HasEnd(s, q)
    && var es := DecodeBits(Unpack(s[q..EndOf(s, q)]), 0, nb, n);
       InRange(es, n) && h == AddAll(Empty(n), es)
  }

  lemma GraphIsRead(s: seq<nat>, n: nat, q: nat, nb: nat)
    requires Readable(s) && SizePrefix(s, 1, n, q) && IsWidth(n, nb)
    ensures ReadsFrom(s, q, n, nb, GraphOf(s))
  {
    hide SizePrefix, IsWidth, Unpack, DecodeBits;
    PrefixIsRead(s, 1, n, q);
    WidthUnique(n, nb);
    DecodedInRange(Unpack(s[q..EndOf(s, q)]), 0, nb, n);
  }

  // stringtograph on sparse6 text; g has the rows for the size given in s.
  method StringToGraph(s: seq<nat>, g: array<set<nat>>)
    requires Readable(s) && g.Length == GraphSizeAt(s, 1)
    modifies g
    ensures g[..] == GraphOf(s)
    ensures forall n: nat, q: nat, nb: nat :: SizePrefix(s, 1, n, q) && IsWidth(n, nb) ==> ReadsFrom(s, q, n, nb, g[..])
  {
    forall n: nat, q: nat, nb: nat | SizePrefix(s, 1, n, q) && IsWidth(n, nb)
      ensures ReadsFrom(s, q, n, nb, GraphOf(s)) {
      GraphIsRead(s, n, q, nb);
    }
    hide ReadsFrom;
    var n := GraphSize(s);
    if n == 0 { return; }
    for ii := 0 to n
      invariant forall i :: 0 <= i < ii ==> g[i] == {}
    {
      g[ii] := {};
    }
    assert g[..] == Empty(n);
    var p := 1 + SizeLen(n);
    var nb := CountWidth(n);
    DecodeInto(s, p, g, nb, false, EndOf(s, p));
  }

  // An incremental text: no size, flips against a prior graph of prevn vertices.
  ghost predicate ReadableInc(s: seq<nat>) {
    |s| > 1 && s[0] == SEMICOLON && HasEnd(s, 1)
  }

  ghost function GraphOfInc(s: seq<nat>, prev: Graph): Graph
    requires ReadableInc(s)
  {
    var n := |prev|;
    DecodedInRange(Unpack(s[1..EndOf(s, 1)]), 0, Width(n), n);
    FlipAll(prev, DecodeBits(Unpack(s[1..EndOf(s, 1)]), 0, Width(n), n))
  }

  // stringtograph_inc on incremental text (flipping a copy of the prior graph) and on sparse6 text.
  method StringToGraphInc(s: seq<nat>, g: array<set<nat>>, prevg: Graph)
    requires Readable(s) || ReadableInc(s)
    requires g.Length == if s[0] == SEMICOLON then |prevg| else GraphSizeAt(s, 1)
    modifies g
    ensures s[0] == SEMICOLON ==> g[..] == GraphOfInc(s, prevg)
    ensures s[0] == COLON ==> InRange(EdgesOf(s), g.Length) && g[..] == FlipAll(Empty(g.Length), EdgesOf(s))
    ensures s[0] == COLON ==> (g[..] == GraphOf(s) <==> OddEdges(s))
  {
    var n, p;
    if s[0] == COLON { EdgesInRange(s); }
    if s[0] == SEMICOLON {
      n, p := |prevg|, 1;
      if n == 0 { return; }
      for ii := 0 to n
        invariant g[..ii] == prevg[..ii]
      {
        g[ii] := prevg[ii];
      }
      assert g[..] == prevg;
    } else {
      n := GraphSize(s);
      p := 1 + SizeLen(n);
      if n == 0 { return; }
      for ii := 0 to n
        invariant forall i :: 0 <= i < ii ==> g[i] == {}
      {
        g[ii] := {};
      }
      assert g[..] == Empty(n);
    }
    var nb := CountWidth(n);
    hide EndOf, Printable, Unpack, DecodeBits;
    DecodeInto(s, p, g, nb, true, EndOf(s, p));
    if s[0] == COLON { FlipIsAdd(n, EdgesOf(s)); }
  }

  lemma EdgesInRange(s: seq<nat>)
    requires Readable(s)
    ensures InRange(EdgesOf(s), GraphSizeAt(s, 1))
  {
    var n, p := GraphSizeAt(s, 1), 1 + SizeLen(GraphSizeAt(s, 1));
    DecodedInRange(Unpack(s[p..EndOf(s, p)]), 0, Width(n), n);
  }

  // Every edge that the text lists is listed an odd number of times.
  ghost predicate OddEdges(s: seq<nat>)
    requires Readable(s)
  {
    forall e :: e in EdgesOf(s) ==> OddTimes(EdgesOf(s), e)
  }

  ghost function EdgesOf(s: seq<nat>): seq<Edge>
    requires Readable(s)
  {
    var n, p := GraphSizeAt(s, 1), 1 + SizeLen(GraphSizeAt(s, 1));
    DecodeBits(Unpack(s[p..EndOf(s, p)]), 0, Width(n), n)
  }

  // ----- round trips -----

  lemma BodyDecodes(body: seq<nat>, es: seq<Edge>, n: nat)
    requires BodyOf(body, es, n) && Listed(es, n) && (n == 0 ==> es == [])
    ensures DecodeBits(Unpack(body), 0, Width(n), n) == es
  {
    var pad :| PaddedBits(Unpack(body), es, n, pad);
    WidthEnough(n);
    if n > 0 {
      EdgesRoundTrip(es, n, Width(n), pad);
    } else {
      DecodeNone(Unpack(body), 0, Width(n));
    }
  }

  lemma {:induction false} DecodeNone(b: seq<bool>, v: nat, nb: nat)
    ensures DecodeBits(b, v, nb, 0) == []
    decreases |b|
  {
    if |b| >= nb + 1 {
      var v1 := if b[0] then v + 1 else v;
      var j := Value(b[1..nb + 1]);
      DecodeNone(b[nb + 1..], if j > v1 then j else v1, nb);
    }
  }

  // The body of a text sits between its head and the newline.
  lemma BodyFound(head: seq<nat>, body: seq<nat>, s: seq<nat>)
    requires Printable(body) && s == head + body + [NEWLINE, NUL]
    ensures HasEnd(s, |head|) && EndOf(s, |head|) == |head| + |body| && s[|head|..EndOf(s, |head|)] == body
  {
    assert s[|head|..|head| + |body|] == body;
    EndUnique(s, |head|, |head| + |body|);
  }

  lemma TextLayout(s: seq<nat>, n: nat, body: seq<nat>)
    requires n < 0x10_0000_0000 && Printable(body)
    requires s == [COLON] + EncodeGraphSize(n) + body + [NEWLINE, NUL]
    ensures Readable(s) && GraphSizeAt(s, 1) == n
    ensures s[1 + SizeLen(n)..EndOf(s, 1 + SizeLen(n))] == body
  {
    var size := EncodeGraphSize(n);
    SizeRoundTrip([COLON], n, body + [NEWLINE, NUL]);
    assert s == [COLON] + size + (body + [NEWLINE, NUL]);
    hide EncodeGraphSize, SizeAt, GraphSizeAt, EndOf, HasEnd;
    BodyFound([COLON] + size, body, s);
  }

  // Main theorem: sparse6 text is read back as the graph it was written for.
  lemma Sparse6RoundTrip(s: seq<nat>, g: Graph)
    requires Undirected(g) && |g| < 0x10_0000_0000 && Sparse6Text(s, g)
    ensures Readable(s) && GraphSizeAt(s, 1) == |g|
    ensures GraphOf(s) == g && OddEdges(s)
  {
    var n, es := |g|, LowerEdges(g, |g|);
    var body :| BodyOf(body, es, n) && s == [COLON] + EncodeGraphSize(n) + body + [NEWLINE, NUL];
    TextLayout(s, n, body);
    LowerEdgesListed(g, n);
    AddLowerEdges(g);
    assert n == 0 ==> es == [];
    hide EncodeGraphSize, DecodeBits, EncodeBits, Unpack, LowerEdges, BodyOf, SizeAt, GraphSizeAt, EndOf;
    BodyDecodes(body, es, n);
    DistinctOdd(es);
  }

  // The text of the graph with the edge 0-1 listed twice: two vertices, two groups 1 0 and 0 0 of a
  // bit and a number, and two bits of padding.
  function Twice(): seq<nat> {
    [COLON, BIAS6 + 2, BIAS6 + 0x23, NEWLINE, NUL]
  }

  // The two readers disagree on it: one adds the edge, the other flips it in and out again.
  lemma ReadersDisagree()
    ensures Readable(Twice()) && GraphSizeAt(Twice(), 1) == 2 && !OddEdges(Twice())
    ensures EdgesOf(Twice()) == [(1, 0), (1, 0)]
    ensures GraphOf(Twice()) == [{1}, {0}] && FlipAll(Empty(2), EdgesOf(Twice())) == [{}, {}]
  {
    var s := Twice();
    TwiceBits();
    TwiceEdges();
    assert IsEnd(s[3]) && BodyAt(s, 2, 3);
    EndUnique(s, 2, 3);
    assert s[2..3] == [BIAS6 + 0x23];
    assert Width(2) == 1;
    var es := EdgesOf(s);
    TwiceGraphs(es);
  }

  lemma TwiceBits()
    ensures Unpack([BIAS6 + 0x23]) == [true, false, false, false, true, true]
  {
    UnpackLast([], BIAS6 + 0x23);
    var b := [true, false, false, false, true, true];
    BinValue(b);
    var c, d, e := [true, false, false, false, true], [true, false, false, false], [true, false, false];
    assert b[..5] == c && c[..4] == d && d[..3] == e && e[..2] == [true, false] && [true, false][..1] == [true];
    assert Value([true]) == 1 && Value([true, false]) == 2 && Value(e) == 4 && Value(d) == 8 && Value(c) == 0x11;
    assert Unpack([]) == [];
  }

  lemma TwiceEdges()
    ensures DecodeBits([true, false, false, false, true, true], 0, 1, 2) == [(1, 0), (1, 0)]
  {
    var one, two, three: seq<bool> := [true, true], [false, false, true, true], [true, false, false, false, true, true];
    assert three[1..2] == [false] && three[2..] == two && two[1..2] == [false] && two[2..] == one
      && one[1..2] == [true];
    assert Value([false]) == 0 && Value([true]) == 1;
    assert DecodeBits(one[2..], 2, 1, 2) == [];
    assert DecodeBits(one, 1, 1, 2) == [];
    assert DecodeBits(two, 1, 1, 2) == [(1, 0)] + [];
  }

  lemma TwiceGraphs(es: seq<Edge>)
    requires es == [(1, 0), (1, 0)]
    ensures InRange(es, 2) && AddAll(Empty(2), es) == [{1}, {0}] && FlipAll(Empty(2), es) == [{}, {}]
    ensures (1, 0) in es && !OddTimes(es, (1, 0))
  {
    assert es[..1] == [(1, 0)] && es[..1][..0] == [];
    assert Times(es[..1], (1, 0)) == 1;
    assert AddAll(Empty(2), es[..1]) == AddEdge(Empty(2), (1, 0));
    assert Empty(2)[1] + {0} == {0} && Empty(2)[0] + {1} == {1};
    assert AddEdge(Empty(2), (1, 0)) == [{1}, {0}];
    assert FlipAll(Empty(2), es[..1]) == [{1}, {0}];
  }

  // Main theorem: incremental text turns the prior graph into the graph it was written for.
  lemma IncrementalRoundTrip(s: seq<nat>, g: Graph, prev: Graph)
    requires Undirected(g) && Undirected(prev) && |prev| == |g| && IncrementalText(s, g, prev)
    ensures ReadableInc(s) && GraphOfInc(s, prev) == g
  {
    var n, es := |g|, LowerEdges(Difference(g, prev), |g|);
    var body :| BodyOf(body, es, n) && s == [SEMICOLON] + body + [NEWLINE, NUL];
    BodyFound([SEMICOLON], body, s);
    LowerEdgesListed(Difference(g, prev), n);
    BodyDecodes(body, es, n);
    FlipDifference(g, prev);
  }

  // ----- one text in full -----

  // Seven vertices with the edges 0-1, 0-2, 1-2 and 5-6.
  function Sample(): Graph {
    [{1, 2}, {0, 2}, {0, 1}, {}, {}, {6}, {5}]
  }

  // Its text is ":Fa@x^": bits 1 000, 1 000, 0 001, 1 110, 0 101 and four ones.
  lemma SampleText(s: seq<nat>)
    requires Sparse6Text(s, Sample())
    ensures s == [58, 70, 97, 64, 120, 94, 10, 0]
    ensures Readable(s) && GraphOf(s) == Sample()
  {
    hide *;
    SampleIsText();
    SampleIsGraph();
    OneSparseText(Sample(), s, [58, 70, 97, 64, 120, 94, 10, 0]);
    Sparse6RoundTrip(s, Sample());
  }

  lemma SampleIsGraph()
    ensures Undirected(Sample()) && |Sample()| == 7
  {
  }

  lemma SampleIsText()
    ensures Sparse6Text([58, 70, 97, 64, 120, 94, 10, 0], Sample())
  {
    hide *;
    var es: seq<Edge> := [(1, 0), (2, 0), (2, 1), (6, 5)];
    SampleIsGraph();
    SampleEdges();
    SampleBody();
    SampleWidth();
    SamplePadding();
    PaddedBody([97, 64, 120, 94], es, 7, 4);
    SampleMade([97, 64, 120, 94]);
  }

  lemma SamplePadding()
    ensures Padding(4, LastRow([(1, 0), (2, 0), (2, 1), (6, 5)]), 7, 3) == Ones(4)
  {
    assert !NeedsZero(4, 6, 7, 3);
  }

  lemma SampleMade(body: seq<nat>)
    requires body == [97, 64, 120, 94] && |Sample()| == 7 && BodyOf(body, LowerEdges(Sample(), 7), 7)
    ensures Sparse6Text([58, 70, 97, 64, 120, 94, 10, 0], Sample())
  {
    hide BodyOf, LowerEdges, Sample;
    assert [COLON] + EncodeGraphSize(7) + body + [NEWLINE, NUL] == [58, 70, 97, 64, 120, 94, 10, 0];
  }

  lemma SampleWidth()
    ensures Width(7) == 3
  {
    assert Pow2(1) == 2 && Pow2(2) == 4 && Pow2(3) == 8;
    WidthUnique(7, 3);
  }

  lemma SampleEdges()
    ensures LowerEdges(Sample(), 7) == [(1, 0), (2, 0), (2, 1), (6, 5)]
  {
    hide RowEdges, LowerEdges;
    var g := Sample();
    SampleRows();
    EmptyRow(3, 4);
    EmptyRow(4, 5);
    OneEntry(5, 6, 6);
    OneEntry(6, 5, 7);
    LowerNone(g);
    LowerNext(g, 0, {1, 2}, [], [], []);
    LowerNext(g, 1, {0, 2}, [], [(1, 0)], [(1, 0)]);
    LowerNext(g, 2, {0, 1}, [(1, 0)], [(2, 0), (2, 1)], [(1, 0), (2, 0), (2, 1)]);
    LowerNext(g, 3, {}, [(1, 0), (2, 0), (2, 1)], [], [(1, 0), (2, 0), (2, 1)]);
    LowerNext(g, 4, {}, [(1, 0), (2, 0), (2, 1)], [], [(1, 0), (2, 0), (2, 1)]);
    LowerNext(g, 5, {6}, [(1, 0), (2, 0), (2, 1)], [], [(1, 0), (2, 0), (2, 1)]);
    LowerNext(g, 6, {5}, [(1, 0), (2, 0), (2, 1)], [(6, 5)], [(1, 0), (2, 0), (2, 1), (6, 5)]);
  }

  lemma SampleRows()
    ensures RowEdges({1, 2}, 0, 1) == [] && RowEdges({0, 2}, 1, 2) == [(1, 0)]
    ensures RowEdges({0, 1}, 2, 3) == [(2, 0), (2, 1)]
  {
    assert RowEdges({0, 2}, 1, 1) == [(1, 0)];
    assert RowEdges({0, 1}, 2, 1) == [(2, 0)] && RowEdges({0, 1}, 2, 2) == [(2, 0), (2, 1)];
  }

  lemma LowerNone(g: Graph)
    ensures LowerEdges(g, 0) == []
  {
  }

  lemma LowerNext(g: Graph, m: nat, row: set<nat>, es: seq<Edge>, more: seq<Edge>, all: seq<Edge>)
    requires m < |g| && g[m] == row && LowerEdges(g, m) == es && RowEdges(row, m, m + 1) == more && all == es + more
    ensures LowerEdges(g, m + 1) == all
  {
  }

  lemma {:induction false} EmptyRow(j: nat, m: nat)
    ensures RowEdges({}, j, m) == []
  {
    if m > 0 { EmptyRow(j, m - 1); }
  }

  lemma {:induction false} OneEntry(j: nat, x: nat, m: nat)
    ensures RowEdges({x}, j, m) == if x < m then [(j, x)] else []
  {
    if m > 0 { OneEntry(j, x, m - 1); }
  }

  lemma SampleNumbers()
    ensures Bin(0, 3) == [false, false, false] && Bin(1, 3) == [false, false, true]
    ensures Bin(6, 3) == [true, true, false] && Bin(5, 3) == [true, false, true]
  {
    assert Bin(0, 2) == [false, false] by { assert Bin(0, 1) == [false]; }
    assert Bin(3, 2) == [true, true] by { assert Bin(1, 1) == [true]; }
    assert Bin(2, 2) == [true, false] by { assert Bin(1, 1) == [true]; }
  }

  lemma SampleBits()
    ensures EncodeBits([(1, 0), (2, 0), (2, 1), (6, 5)], 3) ==
      [true, false, false, false] + [true, false, false, false] + [false, false, false, true] +
      [true, true, true, false, false, true, false, true]
  {
    hide *;
    SampleEdgeBits();
    EncodeNone(3);
    var a: seq<Edge> := [(1, 0)];
    var b: seq<Edge> := [(1, 0), (2, 0)];
    var c: seq<Edge> := [(1, 0), (2, 0), (2, 1)];
    EncodeNext([], (1, 0), a, 3);
    EncodeNext(a, (2, 0), b, 3);
    EncodeNext(b, (2, 1), c, 3);
    EncodeNext(c, (6, 5), [(1, 0), (2, 0), (2, 1), (6, 5)], 3);
  }

  lemma EncodeNext(es: seq<Edge>, e: Edge, fs: seq<Edge>, nb: nat)
    requires fs == es + [e]
    ensures EncodeBits(fs, nb) == EncodeBits(es, nb) + EdgeBits(LastRow(es), e, nb)
    ensures LastRow(fs) == e.0
  {
    EncodeAppend(es, e, nb);
  }

  lemma SampleEdgeBits()
    ensures EdgeBits(0, (1, 0), 3) == [true, false, false, false]
    ensures EdgeBits(1, (2, 0), 3) == [true, false, false, false]
    ensures EdgeBits(2, (2, 1), 3) == [false, false, false, true]
    ensures EdgeBits(2, (6, 5), 3) == [true, true, true, false, false, true, false, true]
  {
    SampleNumbers();
    hide Bin;
  }

  lemma EncodeNone(nb: nat)
    ensures EncodeBits([], nb) == [] && LastRow([]) == 0
  {
  }

  lemma SampleBody()
    ensures Printable([97, 64, 120, 94])
    ensures Unpack([97, 64, 120, 94]) == EncodeBits([(1, 0), (2, 0), (2, 1), (6, 5)], 3) + Ones(4)
  {
    SampleBits();
    SampleOnes();
    var body: seq<nat> := [97, 64, 120, 94];
    assert Printable(body);
    hide *;
    var bits := EncodeBits([(1, 0), (2, 0), (2, 1), (6, 5)], 3) + Ones(4);
    SampleSet(bits);
    forall k | 0 <= k < 24 ensures Unpack(body)[k] == bits[k] {
      UnpackAt(body, k);
      SampleByte(k);
    }
  }

  lemma SampleSet(bits: seq<bool>)
    requires bits == [true, false, false, false] + [true, false, false, false] + [false, false, false, true] +
      [true, true, true, false, false, true, false, true] + [true, true, true, true]
    ensures forall k :: 0 <= k < 24 ==> (bits[k] <==> k in {0, 4, 11, 12, 13, 14, 17, 19, 20, 21, 22, 23})
  {
  }

  lemma SampleOnes()
    ensures Ones(4) == [true, true, true, true]
  {
  }

  lemma SampleByte(k: nat)
    requires k < 24
    ensures ByteBit([97, 64, 120, 94][k / 6], k % 6) <==> k in {0, 4, 11, 12, 13, 14, 17, 19, 20, 21, 22, 23}
  {
    var w := Weight(k % 6);
    if k < 6 {
      assert k / 6 == 0 && k % 6 == k;
    } else if k < 12 {
      assert k / 6 == 1 && k % 6 == k - 6;
    } else if k < 18 {
      assert k / 6 == 2 && k % 6 == k - 12;
    } else {
      assert k / 6 == 3 && k % 6 == k - 18;
    }
  }
}
