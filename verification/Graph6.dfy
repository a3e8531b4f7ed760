// graph6 and digraph6: adjacency matrices as printable text, their exact lengths, and reading back.
module Graph6 {
  import opened Sums
  import opened Graphs
  import opened Bits
  import opened GraphText

  // ----- the bits of an adjacency matrix -----

  ghost function RowBits(row: set<nat>, width: nat): (b: seq<bool>)
    ensures |b| == width
  {
    seq(width, i requires 0 <= i < width => i in row)
  }

  // Row j holds n entries of a full matrix, or the j entries left of the diagonal.
  ghost function Width(n: nat, j: nat, full: bool): nat {
    if full then n else j
  }

  ghost function Matrix(g: Graph, j: nat, full: bool): (b: seq<bool>)
    requires j <= |g|
    ensures |b| == Offset(|g|, j, full)
  {
    if j == 0 then [] else Matrix(g, j - 1, full) + RowBits(g[j - 1], Width(|g|, j - 1, full))
  }

  // The number of bits of the rows before row j.
  ghost function Offset(n: nat, j: nat, full: bool): nat {
    if j == 0 then 0 else Offset(n, j - 1, full) + Width(n, j - 1, full)
  }

  lemma {:induction false} OffsetIs(n: nat, j: nat, full: bool)
    ensures full ==> Offset(n, j, full) == n * j
    ensures !full ==> 2 * Offset(n, j, full) == j * (j - 1)
    decreases j
  {
    if j > 0 {
      OffsetIs(n, j - 1, full);
      if full {
        assert n * j == n * (j - 1) + n;
      } else {
        assert j * (j - 1) == (j - 1) * (j - 2) + 2 * (j - 1);
      }
    }
  }

  lemma {:induction false} OffsetMonotone(n: nat, j: nat, l: nat, full: bool)
    requires j <= l
    ensures Offset(n, j, full) <= Offset(n, l, full)
    decreases l
  {
    if j < l { OffsetMonotone(n, j, l - 1, full); }
  }

  // Where the bit for row j and column i stands.
  lemma {:induction false} MatrixBit(g: Graph, l: nat, full: bool, j: nat, i: nat)
    requires j < l <= |g| && i < Width(|g|, j, full)
    ensures Offset(|g|, j, full) + i < Offset(|g|, l, full)
    ensures Matrix(g, l, full)[Offset(|g|, j, full) + i] == (i in g[j])
    decreases l
  {
    if j < l - 1 { MatrixBit(g, l - 1, full, j, i); }
  }

  // ----- lengths -----

  // The length macros of the source.
  function G6BodyLen(n: nat): int {
    (n / 12) * (n - 1) + ((n % 12) * (n - 1) + 11) / 12
  }

  function D6BodyLen(n: nat): int {
    n * (n / 6) + (n * (n % 6) + 5) / 6
  }

  function G6Len(n: nat): int {
    SizeLen(n) + G6BodyLen(n)
  }

  function D6Len(n: nat): int {
    1 + SizeLen(n) + D6BodyLen(n)
  }

  lemma QuotientShift(a: int, b: nat, m: nat)
    requires m > 0
    ensures (m * a + b) / m == a + b / m
  {
    assert m * a + b == m * (a + b / m) + b % m;
    var q := (m * a + b) / m;
    var d := q - (a + b / m);
    assert m * d == b % m - (m * a + b) % m by {
      assert m * a + b == m * q + (m * a + b) % m;
      assert m * d == m * q - m * (a + b / m);
    }
    MulSign(m, d);
  }

  lemma Regroup(m: nat, n: nat, k: int)
    requires m > 0
    ensures n * k == m * ((n / m) * k) + (n % m) * k
  {
    var q, r := n / m, n % m;
    assert n == m * q + r;
    Distribute(m * q, r, k);
    assert (m * q) * k == m * (q * k);
  }

  lemma Distribute(a: int, b: int, k: int)
    ensures (a + b) * k == a * k + b * k
  {
  }

  // Each macro is the number of bits divided by six, rounded up.
  lemma G6BodyLenIs(n: nat)
    ensures G6BodyLen(n) == (Offset(n, n, false) + 5) / 6
  {
    OffsetIs(n, n, false);
    if n > 0 {
      Regroup(12, n, n - 1);
      QuotientShift((n / 12) * (n - 1), (n % 12) * (n - 1) + 11, 12);
    }
  }

  lemma D6BodyLenIs(n: nat)
    ensures D6BodyLen(n) == (Offset(n, n, true) + 5) / 6
  {
    OffsetIs(n, n, true);
    Regroup(6, n, n);
    assert (n / 6) * n == n * (n / 6) && (n % 6) * n == n * (n % 6);
    QuotientShift(n * (n / 6), n * (n % 6) + 5, 6);
  }

  // ----- writing -----

  // body packs the bits, six to a byte, the last byte filled up with zeros.
  ghost predicate Packs(body: seq<nat>, bits: seq<bool>) {
    Printable(body) && |body| == (|bits| + 5) / 6 && Unpack(body) == bits + Zeros(6 * |body| - |bits|)
  }

  method WriteRow6(row: set<nat>, width: nat, out0: seq<nat>, x0: nat, k0: nat, ghost bits: seq<bool>)
    returns (out: seq<nat>, x: nat, k: nat)
    requires Writing(out0, x0, k0, bits)
    ensures Writing(out, x, k, bits + RowBits(row, width))
  {
    out, x, k := out0, x0, k0;
    assert bits + RowBits(row, 0) == bits;
    for i := 0 to width
      invariant Writing(out, x, k, bits + RowBits(row, i))
    {
      out, x, k := PushBit(out, x, k, i in row, bits + RowBits(row, i));
      assert bits + RowBits(row, i + 1) == bits + RowBits(row, i) + [i in row];
    }
  }

  // The last byte, if bits are waiting.
  method FlushBits(out0: seq<nat>, x: nat, k: nat, ghost bits: seq<bool>) returns (out: seq<nat>)
    requires Writing(out0, x, k, bits)
    ensures Packs(out, bits)
  {
    hide Packs;
    out := out0;
    if k != 6 {
      PacksLast(out, x, k, bits);
      out := out + [BIAS6 + Shl(x, k)];
    } else {
      PacksWhole(out, x, bits);
    }
  }

  ghost function Zeros(m: nat): (b: seq<bool>)
    ensures |b| == m
  {
    seq(m, _ => false)
  }

  lemma {:induction false} ValueZeros(m: nat)
    ensures Value(Zeros(m)) == 0
  {
    if m > 0 {
      ValueZeros(m - 1);
      assert Zeros(m)[..m - 1] == Zeros(m - 1);
    }
  }

  lemma LastBits(x: nat, k: nat)
    requires 1 <= k <= 5 && x < Pow2(6 - k)
    ensures Shl(x, k) < 64 && Bin(Shl(x, k), 6) == Bin(x, 6 - k) + Zeros(k)
  {
    ValueZeros(k);
    JoinBits(x, k, Zeros(k));
  }

  lemma PacksLast(out: seq<nat>, x: nat, k: nat, bits: seq<bool>)
    requires Writing(out, x, k, bits) && k <= 5
    ensures Packs(out + [BIAS6 + Shl(x, k)], bits)
  {
    LastBits(x, k);
    UnpackLast(out, BIAS6 + Shl(x, k));
    hide Unpack, Bin, Shl;
    var have := Unpack(out) + Bin(x, 6 - k);
    assert Unpack(out + [BIAS6 + Shl(x, k)]) == have + Zeros(k);
  }

  lemma PacksWhole(out: seq<nat>, x: nat, bits: seq<bool>)
    requires Writing(out, x, 6, bits)
    ensures Packs(out, bits)
  {
    assert Bin(x, 0) == [];
    assert Unpack(out) == bits + Zeros(0);
  }

  ghost predicate Graph6Text(s: seq<nat>, g: Graph) {
    exists body: seq<nat> :: Packs(body, Matrix(g, |g|, false)) && s == EncodeGraphSize(|g|) + body + [NEWLINE, NUL]
  }

  ghost predicate Digraph6Text(s: seq<nat>, g: Graph) {
    exists body: seq<nat> :: Packs(body, Matrix(g, |g|, true))
      && s == [AMPERSAND] + EncodeGraphSize(|g|) + body + [NEWLINE, NUL]
  }

  // ----- the texts in plain numbers -----

  // The number of pairs i < k with k below j.
  function Tri(j: nat): nat {
    j * (j - 1) / 2
  }

  // The place of row u and column v in a full matrix.
  function At(n: nat, u: nat, v: nat): nat {
    n * u + v
  }

  // The size; then, for i < j, the bit for i and j at place j * (j - 1) / 2 + i.
  ghost predicate PlainGraph6(s: seq<nat>, g: Graph, q: nat) {
    && SizePrefix(s, 0, |g|, q) && BitBody(s, q, Tri(|g|))
    && forall i: nat, j: nat :: i < j < |g| ==> (TextBit(s, q, Tri(j) + i) <==> i in g[j])
  }

  // The mark 38; the size; then the bit for the arc from u to v at place n * u + v.
  ghost predicate PlainDigraph6(s: seq<nat>, g: Graph, q: nat) {
    && |s| > 0 && s[0] == 38 && SizePrefix(s, 1, |g|, q) && BitBody(s, q, At(|g|, |g|, 0))
    && forall u: nat, v: nat :: u < |g| && v < |g| ==> (TextBit(s, q, At(|g|, u, v)) <==> v in g[u])
  }

  lemma OffsetPlain(n: nat, j: nat)
    ensures Offset(n, j, true) == At(n, j, 0) && Offset(n, j, false) == Tri(j)
    ensures forall v: nat :: At(n, j, v) == At(n, j, 0) + v
  {
    OffsetIs(n, j, true);
    OffsetIs(n, j, false);
  }

  lemma PackedBody(head: seq<nat>, body: seq<nat>, bits: seq<bool>, s: seq<nat>)
    requires Packs(body, bits) && s == head + body + [NEWLINE, NUL]
    ensures BitBody(s, |head|, |bits|)
    ensures forall k :: 0 <= k < |bits| ==> (TextBit(s, |head|, k) <==> bits[k])
  {
    var q, e, m := |head|, |head| + |body|, |bits|;
    assert s[q..e] == body;
    assert forall i :: q <= i < e ==> s[i] == body[i - q];
    hide Unpack, TextBit;
    forall k | 0 <= k < 6 * |body| ensures TextBit(s, q, k) <==> k < m && bits[k] {
      UnpackTextBit(s, q, e, k);
      assert Unpack(body)[k] == (bits + Zeros(6 * |body| - m))[k];
    }
  }

  lemma SizeFirst(size: seq<nat>, rest: seq<nat>, mark: seq<nat>)
    ensures (mark + size + rest)[|mark|..|mark| + |size|] == size
  {
  }

  // Main theorem: what the text is, in plain numbers.
  lemma Graph6IsPlain(s: seq<nat>, g: Graph)
    requires Graph6Text(s, g) && |g| < 0x10_0000_0000
    ensures exists q :: PlainGraph6(s, g, q)
  {
    hide *;
    var body := Graph6Body(s, g);
    var size, bits := EncodeGraphSize(|g|), Matrix(g, |g|, false);
    SizeFirst(size, body + [NEWLINE, NUL], []);
    assert s == [] + size + (body + [NEWLINE, NUL]);
    SizeIsPrefix(s, 0, |g|);
    PackedBody(size, body, bits, s);
    MatrixLength(g, false);
    OffsetPlain(|g|, |g|);
    forall i: nat, j: nat | i < j < |g| ensures TextBit(s, |size|, Tri(j) + i) <==> i in g[j] {
      OffsetPlain(|g|, j);
      UpperPlace(g, i, j);
    }
    UpperMade(s, g, |size|);
  }

  lemma UpperPlace(g: Graph, i: nat, j: nat)
    requires i < j < |g|
    ensures var k := Offset(|g|, j, false) + i;
      k < |Matrix(g, |g|, false)| && Matrix(g, |g|, false)[k] == (i in g[j])
  {
    MatrixBit(g, |g|, false, j, i);
  }

  lemma FullPlace(g: Graph, u: nat, v: nat)
    requires u < |g| && v < |g|
    ensures var k := Offset(|g|, u, true) + v;
      k < |Matrix(g, |g|, true)| && Matrix(g, |g|, true)[k] == (v in g[u])
  {
    MatrixBit(g, |g|, true, u, v);
  }

  lemma UpperMade(s: seq<nat>, g: Graph, q: nat)
    requires SizePrefix(s, 0, |g|, q) && BitBody(s, q, Tri(|g|))
    requires forall i: nat, j: nat :: i < j < |g| ==> (TextBit(s, q, Tri(j) + i) <==> i in g[j])
    ensures PlainGraph6(s, g, q)
  {
    hide SizePrefix, BitBody, TextBit, Tri;
  }

  lemma Digraph6IsPlain(s: seq<nat>, g: Graph)
    requires Digraph6Text(s, g) && |g| < 0x10_0000_0000
    ensures exists q :: PlainDigraph6(s, g, q)
  {
    hide *;
    var body := Digraph6Body(s, g);
    var n, size, bits := |g|, EncodeGraphSize(|g|), Matrix(g, |g|, true);
    var head := [AMPERSAND] + size;
    SizeFirst(size, body + [NEWLINE, NUL], [AMPERSAND]);
    assert s == [AMPERSAND] + size + (body + [NEWLINE, NUL]);
    SizeIsPrefix(s, 1, n);
    PackedBody(head, body, bits, s);
    MatrixLength(g, true);
    OffsetPlain(n, n);
    forall u: nat, v: nat | u < n && v < n ensures TextBit(s, |head|, At(n, u, v)) <==> v in g[u] {
      OffsetPlain(n, u);
      FullPlace(g, u, v);
    }
    Constants();
    FullMade(s, g, |head|);
  }

  lemma FullMade(s: seq<nat>, g: Graph, q: nat)
    requires |s| > 0 && s[0] == 38 && SizePrefix(s, 1, |g|, q) && BitBody(s, q, At(|g|, |g|, 0))
    requires forall u: nat, v: nat :: u < |g| && v < |g| ==> (TextBit(s, q, At(|g|, u, v)) <==> v in g[u])
    ensures PlainDigraph6(s, g, q)
  {
    hide SizePrefix, BitBody, TextBit, At;
  }

  // The macros are the number of bits divided by six, rounded up, plus the size.
  lemma LengthsArePlain(n: nat)
    ensures G6BodyLen(n) == (n * (n - 1) / 2 + 5) / 6 && D6BodyLen(n) == (n * n + 5) / 6
    ensures SizeLen(n) == if n <= 62 then 1 else if n <= 258047 then 4 else 8
  {
    G6BodyLenIs(n);
    D6BodyLenIs(n);
    OffsetPlain(n, n);
  }

  method Ntog6(g: Graph) returns (s: seq<nat>)
    ensures Graph6Text(s, g)
    ensures |g| < 0x10_0000_0000 ==> |s| == G6Len(|g|) + 2 && exists q :: PlainGraph6(s, g, q)
  {
    hide PlainGraph6;
    var n := |g|;
    s := EncodeGraphSize(n);
    var body: seq<nat>, x: nat, k: nat := [], 0, 6;
    assert n > 0 ==> Matrix(g, 1, false) == [];
    for j := 1 to n + (if n == 0 then 1 else 0)
      invariant Writing(body, x, k, Matrix(g, if n == 0 then 0 else j, false))
    {
      body, x, k := WriteRow6(g[j], j, body, x, k, Matrix(g, j, false));
    }
    body := FlushBits(body, x, k, Matrix(g, n, false));
    s := s + body + [NEWLINE, NUL];
    G6BodyLenIs(n);
    if n < 0x10_0000_0000 { Graph6IsPlain(s, g); }
  }

  method Ntod6(g: Graph) returns (s: seq<nat>)
    ensures Digraph6Text(s, g)
    ensures |g| < 0x10_0000_0000 ==> |s| == D6Len(|g|) + 2 && exists q :: PlainDigraph6(s, g, q)
  {
    hide PlainDigraph6;
    var n := |g|;
    s := [AMPERSAND] + EncodeGraphSize(n);
    var body: seq<nat>, x: nat, k: nat := [], 0, 6;
    for j := 0 to n
      invariant Writing(body, x, k, Matrix(g, j, true))
    {
      body, x, k := WriteRow6(g[j], n, body, x, k, Matrix(g, j, true));
    }
    body := FlushBits(body, x, k, Matrix(g, n, true));
    s := s + body + [NEWLINE, NUL];
    D6BodyLenIs(n);
    if n < 0x10_0000_0000 { Digraph6IsPlain(s, g); }
  }

  // ----- reading -----

  // After t bits: k - 1 bits wait in the top of the low six bits of x, the others are in the text.
  ghost predicate Taking(bits: seq<bool>, t: nat, s: seq<nat>, p: nat, e: nat, x: nat, k: nat) {
    && t <= |bits| && 1 <= k <= 6 && p <= e <= |s|
    && bits[t..] == Bin(x, 6)[..k - 1] + Unpack(s[p..e])
  }

  lemma SixShift(x: nat)
    ensures Bin(2 * x, 6) == Bin(x, 6)[1..] + [false]
    ensures Bin(x, 6)[0] == ((x / 32) % 2 == 1)
  {
    BinSplit(x, 1, 5);
    FiveHalves(x);
    var top := Shr(x, 5);
    assert Bin(top, 1) == [top % 2 == 1] by { assert Bin(top / 2, 0) == []; }
    hide Bin, Shr;
    assert Bin(x, 6)[1..] == Bin(x, 5);
    DoubleShift(x);
  }

  lemma DoubleShift(x: nat)
    ensures Bin(2 * x, 6) == Bin(x, 5) + [false]
  {
  }

  lemma FiveHalves(x: nat)
    ensures Shr(x, 5) == x / 32
  {
    var a := x / 2 / 2;
    assert Shr(x, 5) == Shr(x / 2, 4) == Shr(a, 3);
    assert Shr(a, 3) == Shr(a / 2, 2) == Shr(a / 2 / 2, 1) == a / 2 / 2 / 2;
  }

  method TakeBit(s: seq<nat>, p0: nat, x0: nat, k0: nat, ghost bits: seq<bool>, ghost t: nat, ghost e: nat)
    returns (bit: bool, p: nat, x: nat, k: nat)
    requires Taking(bits, t, s, p0, e, x0, k0) && t < |bits|
    ensures bit == bits[t] && Taking(bits, t + 1, s, p, e, x, k)
  {
    hide Bin, Unpack;
    p, x, k := p0, x0, k0 - 1;
    if k == 0 {
      UnpackAt(s, p, e, bits, t, x0);
      k := 6;
      x := LowSix(s[p]);
      p := p + 1;
    }
    ShiftOne(bits, t, x, k, Unpack(s[p..e]));
    bit := (x / 32) % 2 == 1;
    x := 2 * x;
  }

  lemma ShiftOne(bits: seq<bool>, t: nat, x: nat, k: nat, rest: seq<bool>)
    requires t < |bits| && 1 <= k <= 6 && bits[t..] == Bin(x, 6)[..k] + rest
    ensures bits[t] == ((x / 32) % 2 == 1) && bits[t + 1..] == Bin(2 * x, 6)[..k - 1] + rest
  {
    SixShift(x);
    hide Bin;
    assert bits[t..][0] == Bin(x, 6)[0];
    assert bits[t + 1..] == bits[t..][1..];
    assert Bin(2 * x, 6)[..k - 1] == Bin(x, 6)[1..k];
    assert (Bin(x, 6)[..k] + rest)[1..] == Bin(x, 6)[1..k] + rest;
  }

  lemma UnpackAt(s: seq<nat>, p: nat, e: nat, bits: seq<bool>, t: nat, x: nat)
    requires Taking(bits, t, s, p, e, x, 1) && t < |bits|
    ensures p < e && bits[t..] == Bin(LowSix(s[p]), 6)[..6] + Unpack(s[p + 1..e])
  {
    assert Bin(x, 6)[..0] == [];
    assert bits[t..] == Unpack(s[p..e]);
    assert |Unpack(s[p..e])| == 6 * (e - p);
    UnpackFirst(s[p..e]);
    assert s[p..e][1..] == s[p + 1..e];
    var six := Bin(LowSix(s[p]), 6);
    hide Bin, Unpack;
    assert six[..6] == six;
  }

  // A size stands at position at, and enough bytes follow it.
  ghost predicate Readable6(s: seq<nat>, at: nat, full: bool) {
    SizeAt(s, at) && BodyEnd(s, at, full) <= |s|
  }

  ghost function BodyStart(s: seq<nat>, at: nat): nat
    requires SizeAt(s, at)
  {
    at + SizeLen(GraphSizeAt(s, at))
  }

  ghost function BodyEnd(s: seq<nat>, at: nat, full: bool): nat
    requires SizeAt(s, at)
  {
    BodyStart(s, at) + (Offset(GraphSizeAt(s, at), GraphSizeAt(s, at), full) + 5) / 6
  }

  ghost function BodyBits(s: seq<nat>, at: nat, full: bool): (b: seq<bool>)
    requires Readable6(s, at, full)
    ensures |b| >= Offset(GraphSizeAt(s, at), GraphSizeAt(s, at), full)
  {
    Unpack(s[BodyStart(s, at)..BodyEnd(s, at, full)])
  }

  // The bit for columns u and v, if it has been reached when row j is read up to column i.
  ghost predicate UpperBit(bits: seq<bool>, n: nat, u: nat, v: nat, j: nat, i: nat) {
    var lo, hi := if u < v then u else v, if u < v then v else u;
    && lo < hi < n && (hi < j || (hi == j && lo < i))
    && Offset(n, hi, false) + lo < |bits| && bits[Offset(n, hi, false) + lo]
  }

  // The undirected graph whose edges are the bits read so far.
  ghost predicate UpperRead(bits: seq<bool>, g: Graph, n: nat, j: nat, i: nat) {
    |g| == n && forall u: nat, v: nat :: u < n ==> (v in g[u] <==> UpperBit(bits, n, u, v, j, i))
  }

  ghost predicate FullBit(bits: seq<bool>, n: nat, u: nat, v: nat, j: nat, i: nat) {
    && u < n && v < n && (u < j || (u == j && v < i))
    && Offset(n, u, true) + v < |bits| && bits[Offset(n, u, true) + v]
  }

  // The digraph whose arcs are the bits read so far.
  ghost predicate FullRead(bits: seq<bool>, g: Graph, n: nat, j: nat, i: nat) {
    |g| == n && forall u: nat, v: nat :: u < n ==> (v in g[u] <==> FullBit(bits, n, u, v, j, i))
  }

  lemma UpperNext(bits: seq<bool>, g: Graph, n: nat, j: nat, i: nat, h: Graph)
    requires UpperRead(bits, g, n, j, i) && i < j < n && Offset(n, j, false) + i < |bits| && |h| == n
    requires if bits[Offset(n, j, false) + i] then h == g[i := g[i] + {j}][j := g[j] + {i}] else h == g
    ensures UpperRead(bits, h, n, j, i + 1)
  {
    forall u: nat, v: nat | u < n ensures v in h[u] <==> UpperBit(bits, n, u, v, j, i + 1) {
      assert v in g[u] <==> UpperBit(bits, n, u, v, j, i);
    }
  }

  lemma FullNext(bits: seq<bool>, g: Graph, n: nat, j: nat, i: nat, h: Graph)
    requires FullRead(bits, g, n, j, i) && i < n && j < n && Offset(n, j, true) + i < |bits| && |h| == n
    requires if bits[Offset(n, j, true) + i] then h == g[j := g[j] + {i}] else h == g
    ensures FullRead(bits, h, n, j, i + 1)
  {
    forall u: nat, v: nat | u < n ensures v in h[u] <==> FullBit(bits, n, u, v, j, i + 1) {
      assert v in g[u] <==> FullBit(bits, n, u, v, j, i);
    }
  }

  lemma StartTaking(s: seq<nat>, at: nat, full: bool)
    requires Readable6(s, at, full)
    ensures Taking(BodyBits(s, at, full), 0, s, BodyStart(s, at), BodyEnd(s, at, full), 0, 1)
  {
    var bits := BodyBits(s, at, full);
    assert bits[0..] == bits;
    hide Bin, Unpack;
    assert Bin(0, 6)[..0] == [];
  }

  method ClearRows(g: array<set<nat>>)
    modifies g
    ensures forall i :: 0 <= i < g.Length ==> g[i] == {}
  {
    for ii := 0 to g.Length
      invariant forall i :: 0 <= i < ii ==> g[i] == {}
    {
      g[ii] := {};
    }
  }

  // The edges are the bits from position q on, in plain numbers.
  ghost predicate PlainUpper(s: seq<nat>, q: nat, g: Graph, n: nat) {
    |g| == n && forall u: nat, v: nat :: u < n ==> (v in g[u] <==> PlainEdge(s, q, n, u, v))
  }

  ghost predicate PlainEdge(s: seq<nat>, q: nat, n: nat, u: nat, v: nat) {
    (u < v < n && TextBit(s, q, Tri(v) + u)) || (v < u < n && TextBit(s, q, Tri(u) + v))
  }

  // The arcs are the bits from position q on.
  ghost predicate PlainFull(s: seq<nat>, q: nat, g: Graph, n: nat) {
    |g| == n && forall u: nat, v: nat :: u < n ==> (v in g[u] <==> v < n && TextBit(s, q, At(n, u, v)))
  }

  lemma BodyBit(s: seq<nat>, at: nat, full: bool, k: nat)
    requires Readable6(s, at, full)
    requires k < Offset(GraphSizeAt(s, at), GraphSizeAt(s, at), full)
    ensures k < |BodyBits(s, at, full)|
    ensures BodyBits(s, at, full)[k] <==> TextBit(s, BodyStart(s, at), k)
  {
    hide Unpack, TextBit, SizeAt, GraphSizeAt;
    UnpackTextBit(s, BodyStart(s, at), BodyEnd(s, at, full), k);
  }

  lemma UpperIsPlain(s: seq<nat>, g: Graph)
    requires Readable6(s, 0, false) && |g| == GraphSizeAt(s, 0)
    requires UpperRead(BodyBits(s, 0, false), g, |g|, |g|, 0)
    ensures forall n: nat, q: nat :: SizePrefix(s, 0, n, q) ==> PlainUpper(s, q, g, n)
  {
    var bits := BodyBits(s, 0, false);
    hide SizePrefix, BodyBits, UpperBit, Readable6, PlainEdge;
    forall n: nat, q: nat | SizePrefix(s, 0, n, q) ensures PlainUpper(s, q, g, n) {
      PrefixIsRead(s, 0, n, q);
      forall u: nat, v: nat | u < n ensures v in g[u] <==> PlainEdge(s, q, n, u, v) {
        EdgePlain(s, q, n, u, v);
        assert v in g[u] <==> UpperBit(bits, n, u, v, n, 0);
      }
    }
  }

  lemma EdgePlain(s: seq<nat>, q: nat, n: nat, u: nat, v: nat)
    requires Readable6(s, 0, false) && n == GraphSizeAt(s, 0) && q == SizeLen(n) && u < n
    ensures UpperBit(BodyBits(s, 0, false), n, u, v, n, 0) <==> PlainEdge(s, q, n, u, v)
  {
    hide SizeLen, GraphSizeAt, Readable6, BodyBits, TextBit;
    if v < n && u != v {
      var lo, hi := if u < v then u else v, if u < v then v else u;
      OffsetPlain(n, hi);
      OffsetMonotone(n, hi + 1, n, false);
      BodyBit(s, 0, false, Offset(n, hi, false) + lo);
    }
  }

  lemma FullIsPlain(s: seq<nat>, g: Graph)
    requires Readable6(s, 1, true) && |g| == GraphSizeAt(s, 1)
    requires FullRead(BodyBits(s, 1, true), g, |g|, |g|, 0)
    ensures forall n: nat, q: nat :: SizePrefix(s, 1, n, q) ==> PlainFull(s, q, g, n)
  {
    var bits := BodyBits(s, 1, true);
    hide SizePrefix, BodyBits, FullBit, Readable6, TextBit, At;
    forall n: nat, q: nat | SizePrefix(s, 1, n, q) ensures PlainFull(s, q, g, n) {
      PrefixIsRead(s, 1, n, q);
      forall u: nat, v: nat | u < n ensures v in g[u] <==> v < n && TextBit(s, q, At(n, u, v)) {
        ArcPlain(s, q, n, u, v);
        assert v in g[u] <==> FullBit(bits, n, u, v, n, 0);
      }
    }
  }

  lemma ArcPlain(s: seq<nat>, q: nat, n: nat, u: nat, v: nat)
    requires Readable6(s, 1, true) && n == GraphSizeAt(s, 1) && q == 1 + SizeLen(n) && u < n
    ensures FullBit(BodyBits(s, 1, true), n, u, v, n, 0) <==> v < n && TextBit(s, q, At(n, u, v))
  {
    if v < n {
      OffsetPlain(n, u);
      OffsetMonotone(n, u + 1, n, true);
      BodyBit(s, 1, true, Offset(n, u, true) + v);
    }
  }

  // stringtograph (adding edges) and stringtograph_inc (flipping them) on graph6 text.
  method ReadGraph6(s: seq<nat>, g: array<set<nat>>, flip: bool)
    requires Readable6(s, 0, false) && !Marked(s) && g.Length == GraphSizeAt(s, 0)
    modifies g
    ensures UpperRead(BodyBits(s, 0, false), g[..], g.Length, g.Length, 0)
    ensures forall n: nat, q: nat :: SizePrefix(s, 0, n, q) ==> PlainUpper(s, q, g[..], n)
  {
    hide *;
    BodyIs(s, 0, false);
    SizeUnmarked(s);
    var n := GraphSize(s);
    ghost var bits, e := BodyBits(s, 0, false), BodyEnd(s, 0, false);
    if n == 0 {
      NoEdgesRead(bits, g[..], n);
      UpperIsPlain(s, g[..]);
      return;
    }
    ClearRows(g);
    var p: nat, x: nat, k: nat := SizeLen(n), 0, 1;
    StartTaking(s, 0, false);
    OffsetStart(n);
    NoEdgesRead(bits, g[..], n);
    for j := 1 to n
      invariant UpperRead(bits, g[..], n, j, 0) && Taking(bits, Offset(n, j, false), s, p, e, x, k)
    {
      OffsetMonotone(n, j + 1, n, false);
      p, x, k := ReadUpperRow(s, p, x, k, g, j, flip, bits, e);
      UpperRowDone(bits, g[..], n, j);
    }
    UpperIsPlain(s, g[..]);
  }

  method ReadUpperRow(s: seq<nat>, p0: nat, x0: nat, k0: nat, g: array<set<nat>>, j: nat, flip: bool,
                      ghost bits: seq<bool>, ghost e: nat)
    returns (p: nat, x: nat, k: nat)
    requires j < g.Length && Offset(g.Length, j + 1, false) <= |bits|
    requires UpperRead(bits, g[..], g.Length, j, 0) && Taking(bits, Offset(g.Length, j, false), s, p0, e, x0, k0)
    modifies g
    ensures UpperRead(bits, g[..], g.Length, j, j) && Taking(bits, Offset(g.Length, j + 1, false), s, p, e, x, k)
  {
    hide Taking, UpperRead;
    p, x, k := p0, x0, k0;
    ghost var n := g.Length;
    for i := 0 to j
      invariant UpperRead(bits, g[..], n, j, i) && Taking(bits, Offset(n, j, false) + i, s, p, e, x, k)
    {
      ghost var was := g[..];
      var bit;
      bit, p, x, k := TakeBit(s, p, x, k, bits, Offset(n, j, false) + i, e);
      UpperUnread(bits, was, n, j, i);
      if bit {
        g[i] := if flip then Flip(g[i], j) else g[i] + {j};
        g[j] := if flip then Flip(g[j], i) else g[j] + {i};
      }
      UpperNext(bits, was, n, j, i, g[..]);
    }
  }

  // An edge that has not been read is not there, so flipping it is adding it.
  lemma UpperUnread(bits: seq<bool>, g: Graph, n: nat, j: nat, i: nat)
    requires UpperRead(bits, g, n, j, i) && i < j < n
    ensures |g| == n && Flip(g[i], j) == g[i] + {j} && Flip(g[j], i) == g[j] + {i}
  {
    assert j !in g[i] && i !in g[j];
  }

  lemma FullUnread(bits: seq<bool>, g: Graph, n: nat, j: nat, i: nat)
    requires FullRead(bits, g, n, j, i) && i < n && j < n
    ensures |g| == n && Flip(g[j], i) == g[j] + {i}
  {
    assert i !in g[j];
  }

  lemma UpperRowDone(bits: seq<bool>, g: Graph, n: nat, j: nat)
    requires UpperRead(bits, g, n, j, j)
    ensures UpperRead(bits, g, n, j + 1, 0)
  {
    forall u: nat, v: nat | u < n ensures v in g[u] <==> UpperBit(bits, n, u, v, j + 1, 0) {
      assert v in g[u] <==> UpperBit(bits, n, u, v, j, j);
    }
  }

  lemma FullRowDone(bits: seq<bool>, g: Graph, n: nat, j: nat)
    requires FullRead(bits, g, n, j, n)
    ensures FullRead(bits, g, n, j + 1, 0)
  {
    forall u: nat, v: nat | u < n ensures v in g[u] <==> FullBit(bits, n, u, v, j + 1, 0) {
      assert v in g[u] <==> FullBit(bits, n, u, v, j, n);
    }
  }

  method ReadFullRow(s: seq<nat>, p0: nat, x0: nat, k0: nat, g: array<set<nat>>, i: nat, flip: bool,
                     ghost bits: seq<bool>, ghost e: nat)
    returns (p: nat, x: nat, k: nat)
    requires i < g.Length && Offset(g.Length, i + 1, true) <= |bits|
    requires FullRead(bits, g[..], g.Length, i, 0) && Taking(bits, Offset(g.Length, i, true), s, p0, e, x0, k0)
    modifies g
    ensures FullRead(bits, g[..], g.Length, i, g.Length) && Taking(bits, Offset(g.Length, i + 1, true), s, p, e, x, k)
  {
    hide Taking, FullRead;
    p, x, k := p0, x0, k0;
    ghost var n := g.Length;
    for j := 0 to g.Length
      invariant FullRead(bits, g[..], n, i, j) && Taking(bits, Offset(n, i, true) + j, s, p, e, x, k)
    {
      ghost var was := g[..];
      var bit;
      bit, p, x, k := TakeBit(s, p, x, k, bits, Offset(n, i, true) + j, e);
      FullUnread(bits, was, n, i, j);
      if bit {
        g[i] := if flip then Flip(g[i], j) else g[i] + {j};
      }
      FullNext(bits, was, n, i, j, g[..]);
    }
  }

  // stringtograph (adding arcs) and stringtograph_inc (flipping them) on digraph6 text.
  method ReadDigraph6(s: seq<nat>, g: array<set<nat>>, flip: bool)
    requires Readable6(s, 1, true) && |s| > 0 && s[0] == AMPERSAND && g.Length == GraphSizeAt(s, 1)
    modifies g
    ensures FullRead(BodyBits(s, 1, true), g[..], g.Length, g.Length, 0)
    ensures forall n: nat, q: nat :: SizePrefix(s, 1, n, q) ==> PlainFull(s, q, g[..], n)
  {
    hide *;
    BodyIs(s, 1, true);
    SizeMarked(s);
    var n := GraphSize(s);
    ghost var bits, e := BodyBits(s, 1, true), BodyEnd(s, 1, true);
    if n == 0 {
      NoArcsRead(bits, g[..], n);
      FullIsPlain(s, g[..]);
      return;
    }
    ClearRows(g);
    var p: nat, x: nat, k: nat := 1 + SizeLen(n), 0, 1;
    StartTaking(s, 1, true);
    OffsetStart(n);
    NoArcsRead(bits, g[..], n);
    for i := 0 to n
      invariant FullRead(bits, g[..], n, i, 0) && Taking(bits, Offset(n, i, true), s, p, e, x, k)
    {
      OffsetMonotone(n, i + 1, n, true);
      p, x, k := ReadFullRow(s, p, x, k, g, i, flip, bits, e);
      FullRowDone(bits, g[..], n, i);
    }
    FullIsPlain(s, g[..]);
  }

  lemma BodyIs(s: seq<nat>, at: nat, full: bool)
    requires Readable6(s, at, full)
    ensures SizeAt(s, at) && BodyStart(s, at) == at + SizeLen(GraphSizeAt(s, at))
  {
  }

  lemma SizeMarked(s: seq<nat>)
    requires |s| > 0 && s[0] == AMPERSAND && SizeAt(s, 1)
    ensures Marked(s) && GraphSize(s) == GraphSizeAt(s, 1)
  {
  }

  lemma SizeUnmarked(s: seq<nat>)
    requires !Marked(s) && SizeAt(s, 0)
    ensures GraphSize(s) == GraphSizeAt(s, 0)
  {
  }

  lemma OffsetStart(n: nat)
    ensures Offset(n, 0, true) == 0 && Offset(n, 1, false) == 0
  {
  }

  lemma NoEdgesRead(bits: seq<bool>, g: Graph, n: nat)
    requires |g| == n && forall i :: 0 <= i < n ==> g[i] == {}
    ensures UpperRead(bits, g, n, 1, 0) && (n == 0 ==> UpperRead(bits, g, 0, 0, 0))
  {
  }

  lemma NoArcsRead(bits: seq<bool>, g: Graph, n: nat)
    requires |g| == n && forall i :: 0 <= i < n ==> g[i] == {}
    ensures FullRead(bits, g, n, 0, 0)
  {
  }

  // ----- round trips -----

  ghost predicate LoopFree(g: Graph) {
    forall u: nat :: u < |g| ==> u !in g[u]
  }

  lemma BodyLayout(head: seq<nat>, s: seq<nat>, n: nat, body: seq<nat>, full: bool, bits: seq<bool>)
    requires n < 0x10_0000_0000 && Packs(body, bits) && |bits| == Offset(n, n, full)
    requires s == head + EncodeGraphSize(n) + body + [NEWLINE, NUL]
    ensures Readable6(s, |head|, full) && GraphSizeAt(s, |head|) == n
    ensures bits <= BodyBits(s, |head|, full)
  {
    var at := |head|;
    SizeRoundTrip(head, n, body + [NEWLINE, NUL]);
    assert s == head + EncodeGraphSize(n) + (body + [NEWLINE, NUL]);
    hide EncodeGraphSize, SizeAt, GraphSizeAt, Unpack, Offset;
    assert s[BodyStart(s, at)..BodyEnd(s, at, full)] == body;
  }

  // Main theorem: graph6 text of an undirected graph without loops is read back as that graph,
  // and its length is the one that the macro gives.
  lemma Graph6RoundTrip(s: seq<nat>, g: Graph, h: Graph)
    requires ValidGraph(g) && Symmetric(g) && LoopFree(g) && |g| < 0x10_0000_0000 && Graph6Text(s, g)
    ensures !Marked(s) && Readable6(s, 0, false) && GraphSizeAt(s, 0) == |g|
    ensures |s| == G6Len(|g|) + 2
    ensures UpperRead(BodyBits(s, 0, false), h, |g|, |g|, 0) ==> h == g
  {
    hide *;
    var n, bits := |g|, Matrix(g, |g|, false);
    var body := Graph6Body(s, g);
    PacksLength(body, bits);
    SizeStart(n);
    MatrixLength(g, false);
    assert s == [] + EncodeGraphSize(n) + body + [NEWLINE, NUL];
    BodyLayout([], s, n, body, false, bits);
    G6BodyLenIs(n);
    UnmarkedText(s, EncodeGraphSize(n), body + [NEWLINE, NUL]);
    G6LenIs(n);
    var all := BodyBits(s, 0, false);
    if UpperRead(all, h, n, n, 0) { SameUpper(g, bits, all, h); }
  }

  lemma Graph6Body(s: seq<nat>, g: Graph) returns (body: seq<nat>)
    requires Graph6Text(s, g)
    ensures Packs(body, Matrix(g, |g|, false)) && s == EncodeGraphSize(|g|) + body + [NEWLINE, NUL]
  {
    body :| Packs(body, Matrix(g, |g|, false)) && s == EncodeGraphSize(|g|) + body + [NEWLINE, NUL];
  }

  lemma Digraph6Body(s: seq<nat>, g: Graph) returns (body: seq<nat>)
    requires Digraph6Text(s, g)
    ensures Packs(body, Matrix(g, |g|, true)) && s == [AMPERSAND] + EncodeGraphSize(|g|) + body + [NEWLINE, NUL]
  {
    body :| Packs(body, Matrix(g, |g|, true)) && s == [AMPERSAND] + EncodeGraphSize(|g|) + body + [NEWLINE, NUL];
  }

  lemma MatrixLength(g: Graph, full: bool)
    ensures |Matrix(g, |g|, full)| == Offset(|g|, |g|, full)
  {
  }

  lemma PacksLength(body: seq<nat>, bits: seq<bool>)
    requires Packs(body, bits)
    ensures |body| == (|bits| + 5) / 6
  {
  }

  lemma SizeStart(n: nat)
    ensures |EncodeGraphSize(n)| == SizeLen(n) > 0 && EncodeGraphSize(n)[0] >= BIAS6
  {
  }

  lemma UnmarkedText(s: seq<nat>, size: seq<nat>, rest: seq<nat>)
    requires s == size + rest && |size| > 0 && size[0] >= BIAS6
    ensures !Marked(s)
  {
  }

  lemma G6LenIs(n: nat)
    ensures G6Len(n) == SizeLen(n) + G6BodyLen(n) && SizeLen(n) > 0
  {
  }

  lemma SameUpper(g: Graph, bits: seq<bool>, all: seq<bool>, h: Graph)
    requires ValidGraph(g) && Symmetric(g) && LoopFree(g)
    requires bits == Matrix(g, |g|, false) && bits <= all && UpperRead(all, h, |g|, |g|, 0)
    ensures h == g
  {
    forall u | 0 <= u < |g| ensures h[u] == g[u] {
      forall v: nat ensures v in h[u] <==> v in g[u] {
        UpperBitIs(g, bits, all, u, v);
      }
    }
  }

  lemma UpperBitIs(g: Graph, bits: seq<bool>, all: seq<bool>, u: nat, v: nat)
    requires ValidGraph(g) && Symmetric(g) && LoopFree(g) && u < |g|
    requires bits == Matrix(g, |g|, false) && bits <= all
    ensures UpperBit(all, |g|, u, v, |g|, 0) <==> v in g[u]
  {
    if u < |g| && v < |g| && u != v {
      var lo, hi := if u < v then u else v, if u < v then v else u;
      MatrixBit(g, |g|, false, hi, lo);
      assert all[Offset(|g|, hi, false) + lo] == bits[Offset(|g|, hi, false) + lo];
    }
  }

  // Main theorem: digraph6 text is read back as the digraph that it was written for.
  lemma Digraph6RoundTrip(s: seq<nat>, g: Graph, h: Graph)
    requires ValidGraph(g) && |g| < 0x10_0000_0000 && Digraph6Text(s, g)
    ensures |s| > 0 && s[0] == AMPERSAND && Readable6(s, 1, true) && GraphSizeAt(s, 1) == |g|
    ensures |s| == D6Len(|g|) + 2
    ensures FullRead(BodyBits(s, 1, true), h, |g|, |g|, 0) ==> h == g
  {
    hide *;
    var n, bits := |g|, Matrix(g, |g|, true);
    var body := Digraph6Body(s, g);
    PacksLength(body, bits);
    SizeStart(n);
    MatrixLength(g, true);
    BodyLayout([AMPERSAND], s, n, body, true, bits);
    D6BodyLenIs(n);
    D6LenIs(n);
    var all := BodyBits(s, 1, true);
    if FullRead(all, h, n, n, 0) { SameFull(g, bits, all, h); }
  }

  lemma D6LenIs(n: nat)
    ensures D6Len(n) == 1 + SizeLen(n) + D6BodyLen(n)
  {
  }

  lemma SameFull(g: Graph, bits: seq<bool>, all: seq<bool>, h: Graph)
    requires ValidGraph(g) && bits == Matrix(g, |g|, true) && bits <= all && FullRead(all, h, |g|, |g|, 0)
    ensures h == g
  {
    var n := |g|;
    hide Matrix, Offset;
    forall u: nat, v: nat | u < n ensures v in h[u] <==> v in g[u] {
      assert v in h[u] <==> FullBit(all, n, u, v, n, 0);
      if v < n { MatrixBit(g, n, true, u, v); }
    }
    forall u | 0 <= u < n ensures h[u] == g[u] {
    }
  }
}
