// Printable bytes of six bits each, the size prefix, and the writing of single bits.
module GraphText {
  import opened Bits

  const BIAS6: nat := 63
  const MAXBYTE: nat := 126
  const SMALLN: nat := 62
  const SMALLISHN: nat := 258047
  const NEWLINE: nat := 10
  const NUL: nat := 0
  const COLON: nat := 58
  const SEMICOLON: nat := 59
  const AMPERSAND: nat := 38

  lemma Constants()
    ensures BIAS6 == 63 && MAXBYTE == 126 && SMALLN == 62 && SMALLISHN == 258047
    ensures NEWLINE == 10 && NUL == 0 && COLON == 58 && SEMICOLON == 59 && AMPERSAND == 38
  {
  }

  // ----- size prefix -----

  function SizeLen(n: nat): nat {
    if n <= SMALLN then 1 else if n <= SMALLISHN then 4 else 8
  }

  function EncodeGraphSize(n: nat): (s: seq<nat>) {
    if n <= SMALLN then [BIAS6 + n]
    else if n <= SMALLISHN then [MAXBYTE, BIAS6 + n / 0x1000, BIAS6 + (n / 0x40) % 64, BIAS6 + n % 64]
    else [MAXBYTE, MAXBYTE, BIAS6 + n / 0x4000_0000, BIAS6 + (n / 0x100_0000) % 64, BIAS6 + (n / 0x4_0000) % 64,
          BIAS6 + (n / 0x1000) % 64, BIAS6 + (n / 0x40) % 64, BIAS6 + n % 64]
  }

  // Can a size be read at position p?
  ghost predicate SizeAt(s: seq<nat>, p: nat) {
    && p < |s| && s[p] >= BIAS6
    && (s[p] - BIAS6 > SMALLN ==> p + 4 <= |s| && (forall i :: p <= i < p + 4 ==> s[i] >= BIAS6))
    && (s[p] - BIAS6 > SMALLN && s[p + 1] - BIAS6 > SMALLN ==>
        p + 8 <= |s| && (forall i :: p <= i < p + 8 ==> s[i] >= BIAS6))
  }

  function GraphSizeAt(s: seq<nat>, p: nat): (n: nat)
    requires SizeAt(s, p)
  {
    if s[p] - BIAS6 <= SMALLN then s[p] - BIAS6
    else if s[p + 1] - BIAS6 <= SMALLN then
      ((s[p + 1] - BIAS6) * 64 + (s[p + 2] - BIAS6)) * 64 + (s[p + 3] - BIAS6)
    else
      ((((((s[p + 2] - BIAS6) * 64 + (s[p + 3] - BIAS6)) * 64 + (s[p + 4] - BIAS6)) * 64 + (s[p + 5] - BIAS6)) * 64
        + (s[p + 6] - BIAS6)) * 64 + (s[p + 7] - BIAS6))
  }

  // A marker byte, if any, precedes the size.
  function Marked(s: seq<nat>): bool {
    |s| > 0 && (s[0] == COLON || s[0] == AMPERSAND)
  }

  function GraphSize(s: seq<nat>): nat
    requires SizeAt(s, if Marked(s) then 1 else 0)
  {
    GraphSizeAt(s, if Marked(s) then 1 else 0)
  }

  lemma Quotients(n: nat)
    ensures n / 0x1000 == (n / 0x40) / 64
    ensures n / 0x4_0000 == (n / 0x1000) / 64
    ensures n / 0x100_0000 == (n / 0x4_0000) / 64
    ensures n / 0x4000_0000 == (n / 0x100_0000) / 64
  {
  }

  lemma SixDigits(n: nat)
    ensures n == ((((((n / 0x4000_0000) * 64 + (n / 0x100_0000) % 64) * 64 + (n / 0x4_0000) % 64) * 64
                    + (n / 0x1000) % 64) * 64 + (n / 0x40) % 64) * 64 + n % 64)
  {
    Quotients(n);
  }

  // The size is read from the bytes after the head.
  lemma SizeFromBytes(head: seq<nat>, size: seq<nat>, rest: seq<nat>, n: nat)
    requires size == EncodeGraphSize(n) && n < 0x10_0000_0000
    ensures var s := head + size + rest; SizeAt(s, |head|) && GraphSizeAt(s, |head|) == n
  {
    var s := head + size + rest;
    var p := |head|;
    assert s[p..p + |size|] == size;
    SizeInside(s, p, size);
    if n <= SMALLISHN { ThreeDigits(n); } else { SixDigits(n); }
  }

  lemma ThreeDigits(n: nat)
    requires n < 0x4_0000
    ensures n == ((n / 0x1000) * 64 + (n / 0x40) % 64) * 64 + n % 64 && n / 0x1000 < 64
  {
  }

  // A size is read from the bytes of its encoding alone.
  lemma SizeInside(s: seq<nat>, p: nat, size: seq<nat>)
    requires p + |size| <= |s| && s[p..p + |size|] == size && SizeAt(size, 0)
    ensures SizeAt(s, p) && GraphSizeAt(s, p) == GraphSizeAt(size, 0)
  {
    assert forall i :: p <= i < p + |size| ==> s[i] == size[i - p];
    assert s[p] == size[0];
    if size[0] - BIAS6 > SMALLN {
      assert s[p + 1] == size[1] && s[p + 2] == size[2] && s[p + 3] == size[3];
      if size[1] - BIAS6 > SMALLN {
        assert s[p + 4] == size[4] && s[p + 5] == size[5] && s[p + 6] == size[6] && s[p + 7] == size[7];
      }
    }
  }

  // Main theorem: the size prefix is read back, whatever precedes and follows it.
  lemma SizeRoundTrip(head: seq<nat>, n: nat, rest: seq<nat>)
    requires n < 0x10_0000_0000
    ensures var s := head + EncodeGraphSize(n) + rest;
            SizeAt(s, |head|) && GraphSizeAt(s, |head|) == n && |EncodeGraphSize(n)| == SizeLen(n)
  {
    SizeFromBytes(head, EncodeGraphSize(n), rest, n);
  }

  // ----- six bits to a byte -----

  ghost predicate Printable(s: seq<nat>) {
    forall i :: 0 <= i < |s| ==> BIAS6 <= s[i] < BIAS6 + 64
  }

  // The low six bits of c - BIAS6, the only ones that the readers look at.
  function LowSix(c: nat): nat {
    if BIAS6 <= c < BIAS6 + 64 then c - BIAS6 else (c + (64 - BIAS6)) % 64
  }

  ghost function Six(c: nat): (b: seq<bool>)
    ensures |b| == 6
  {
    Bin(LowSix(c), 6)
  }

  ghost function Unpack(s: seq<nat>): (b: seq<bool>)
    ensures |b| == 6 * |s|
  {
    if s == [] then [] else Unpack(s[..|s| - 1]) + Six(s[|s| - 1])
  }

  lemma {:induction false} UnpackFirst(s: seq<nat>)
    requires s != []
    ensures Unpack(s) == Six(s[0]) + Unpack(s[1..])
    decreases |s|
  {
    if |s| == 1 {
      assert s[..0] == [] && s[1..] == [];
    } else {
      var init, tail := s[..|s| - 1], s[1..];
      UnpackFirst(init);
      assert init[1..] == tail[..|tail| - 1];
      hide Six;
      assert Unpack(s) == Six(s[0]) + Unpack(init[1..]) + Six(s[|s| - 1]);
      assert Unpack(tail) == Unpack(init[1..]) + Six(s[|s| - 1]);
    }
  }

  lemma UnpackLast(s: seq<nat>, c: nat)
    ensures Unpack(s + [c]) == Unpack(s) + Six(c)
  {
    assert (s + [c])[..|s|] == s;
  }

  // ----- in plain numbers -----

  // The weights of the six bits of a byte, from the left.
  function Weight(r: nat): nat
    requires r < 6
  {
    [32, 16, 8, 4, 2, 1][r]
  }

  // Bit r of the byte c; for a printable byte, of c - 63.
  ghost predicate ByteBit(c: nat, r: nat)
    requires r < 6
  {
    (((c + 1) % 64) / Weight(r)) % 2 == 1
  }

  // Bit k of the text that starts at position p.
  ghost predicate TextBit(s: seq<nat>, p: nat, k: nat) {
    p + k / 6 < |s| && ByteBit(s[p + k / 6], k % 6)
  }

  lemma LowSixIs(c: nat)
    ensures LowSix(c) == (c + 1) % 64
    ensures 63 <= c <= 126 ==> (c + 1) % 64 == c - 63
  {
  }

  lemma SixAt(c: nat, r: nat)
    requires r < 6
    ensures Six(c)[r] <==> ByteBit(c, r)
  {
    LowSixIs(c);
    SixBits(LowSix(c));
  }

  lemma {:induction false} UnpackAt(s: seq<nat>, k: nat)
    requires k < 6 * |s|
    ensures Unpack(s)[k] <==> ByteBit(s[k / 6], k % 6)
  {
    hide Six, ByteBit;
    if k < 6 * (|s| - 1) {
      UnpackAt(s[..|s| - 1], k);
    } else {
      assert k / 6 == |s| - 1 && k % 6 == k - 6 * (|s| - 1);
      SixAt(s[|s| - 1], k % 6);
    }
  }

  lemma UnpackTextBit(s: seq<nat>, p: nat, e: nat, k: nat)
    requires p <= e <= |s| && k < 6 * (e - p)
    ensures Unpack(s[p..e])[k] <==> TextBit(s, p, k)
  {
    UnpackAt(s[p..e], k);
    assert s[p..e][k / 6] == s[p + k / 6];
  }

  lemma PrintableIs(s: seq<nat>)
    ensures Printable(s) <==> forall i :: 0 <= i < |s| ==> 63 <= s[i] <= 126
  {
  }

  // From position p up to position q stands the number n: one byte 63 + n up to 62, else 126 and 18 bits in
  // three bytes up to 258047, else twice 126 and 36 bits in six bytes.
  ghost predicate SizePrefix(s: seq<nat>, p: nat, n: nat, q: nat) {
    && p < q <= |s| && (forall i :: p <= i < q ==> 63 <= s[i] <= 126)
    && if n <= 62 then q == p + 1 && s[p] == 63 + n
       else if n <= 258047 then q == p + 4 && s[p] == 126 && NumberBits(s, p + 1, n, 18)
       else q == p + 8 && s[p] == 126 && s[p + 1] == 126 && NumberBits(s, p + 2, n, 36)
  }

  // The first len bits from position p on are the digits of n, the highest first.
  ghost predicate NumberBits(s: seq<nat>, p: nat, n: nat, len: nat) {
    n < Pow2(len) && forall k :: 0 <= k < len ==> (TextBit(s, p, k) <==> (n / Pow2(len - 1 - k)) % 2 == 1)
  }

  lemma NumberBitsMade(s: seq<nat>, p: nat, e: nat, n: nat, len: nat)
    requires p <= e <= |s| && len == 6 * (e - p) && Value(Unpack(s[p..e])) == n
    ensures NumberBits(s, p, n, len)
  {
    hide Unpack, Value, Bin, TextBit, Pow2;
    var b := Unpack(s[p..e]);
    ValueBound(b);
    BinValue(b);
    forall k | 0 <= k < len ensures TextBit(s, p, k) <==> (n / Pow2(len - 1 - k)) % 2 == 1 {
      UnpackTextBit(s, p, e, k);
      BinAt(n, len, k);
    }
  }

  // And the other way round: such digits are the number.
  lemma NumberBitsRead(s: seq<nat>, p: nat, e: nat, n: nat, len: nat)
    requires p <= e <= |s| && len == 6 * (e - p) && NumberBits(s, p, n, len)
    ensures Value(Unpack(s[p..e])) == n
  {
    var b := Unpack(s[p..e]);
    hide Unpack, Value, Bin, TextBit, Pow2;
    forall k | 0 <= k < len ensures b[k] == Bin(n, len)[k] {
      UnpackTextBit(s, p, e, k);
      BinAt(n, len, k);
    }
    assert b == Bin(n, len);
    ValueBin(n, len);
    ModSmall(n, Pow2(len));
  }

  // The value of the bits of one more byte.
  lemma ValueByte(s: seq<nat>, x: nat)
    requires x < 64
    ensures Value(Unpack(s + [BIAS6 + x])) == Value(Unpack(s)) * 64 + x
  {
    hide Unpack, Value, Bin, Six;
    UnpackLast(s, BIAS6 + x);
    SixIs(x);
    ValueAppend(Unpack(s), Six(BIAS6 + x));
    ValueBin(x, 6);
    SixtyFour();
    ModSmall(x, 64);
  }

  lemma ValueNone()
    ensures Unpack([]) == [] && Value([]) == 0
  {
  }

  lemma ValueThree(a: nat, b: nat, c: nat)
    requires a < 64 && b < 64 && c < 64
    ensures Value(Unpack([BIAS6 + a, BIAS6 + b, BIAS6 + c])) == (a * 64 + b) * 64 + c
  {
    hide Unpack, Value;
    ValueNone();
    ValueByte([], a);
    ValueByte([BIAS6 + a], b);
    ValueByte([BIAS6 + a, BIAS6 + b], c);
    assert [] + [BIAS6 + a] == [BIAS6 + a] && [BIAS6 + a] + [BIAS6 + b] == [BIAS6 + a, BIAS6 + b];
    assert [BIAS6 + a, BIAS6 + b] + [BIAS6 + c] == [BIAS6 + a, BIAS6 + b, BIAS6 + c];
  }

  lemma ValueSix(a: nat, b: nat, c: nat, d: nat, e: nat, f: nat)
    requires a < 64 && b < 64 && c < 64 && d < 64 && e < 64 && f < 64
    ensures Value(Unpack([BIAS6 + a, BIAS6 + b, BIAS6 + c, BIAS6 + d, BIAS6 + e, BIAS6 + f]))
      == ((((a * 64 + b) * 64 + c) * 64 + d) * 64 + e) * 64 + f
  {
    hide Unpack, Value;
    var s := [BIAS6 + a, BIAS6 + b, BIAS6 + c];
    ValueThree(a, b, c);
    ValueByte(s, d);
    ValueByte(s + [BIAS6 + d], e);
    ValueByte(s + [BIAS6 + d] + [BIAS6 + e], f);
    assert s + [BIAS6 + d] + [BIAS6 + e] + [BIAS6 + f]
      == [BIAS6 + a, BIAS6 + b, BIAS6 + c, BIAS6 + d, BIAS6 + e, BIAS6 + f];
  }

  lemma HighDigit(n: nat)
    ensures n < 0x4_0000 ==> n / 0x1000 < 64
    ensures n < 0x10_0000_0000 ==> n / 0x4000_0000 < 64
  {
  }

  lemma MiddleSize(n: nat)
    requires 62 < n <= 258047
    ensures var size := EncodeGraphSize(n);
      |size| == 4 && size[0] == 126 && Value(Unpack(size[1..])) == n && forall i :: 0 <= i < 4 ==> 63 <= size[i] <= 126
  {
    HighDigit(n);
    ThreeDigits(n);
    hide Unpack, Value;
    ValueThree(n / 0x1000, (n / 0x40) % 64, n % 64);
  }

  lemma LongSize(n: nat)
    requires 258047 < n < 0x10_0000_0000
    ensures var size := EncodeGraphSize(n);
      && |size| == 8 && size[0] == 126 && size[1] == 126 && Value(Unpack(size[2..])) == n
      && forall i :: 0 <= i < 8 ==> 63 <= size[i] <= 126
  {
    HighDigit(n);
    SixDigits(n);
    hide Unpack, Value;
    ValueSix(n / 0x4000_0000, (n / 0x100_0000) % 64, (n / 0x4_0000) % 64, (n / 0x1000) % 64, (n / 0x40) % 64, n % 64);
  }

  // Main theorem: the prefix that is written is the number, in plain digits, wherever it stands.
  lemma SizeIsPrefix(s: seq<nat>, p: nat, n: nat)
    requires n < 0x10_0000_0000
    requires p + |EncodeGraphSize(n)| <= |s| && s[p..p + |EncodeGraphSize(n)|] == EncodeGraphSize(n)
    ensures SizePrefix(s, p, n, p + |EncodeGraphSize(n)|)
  {
    var size := EncodeGraphSize(n);
    var q := p + |size|;
    assert forall i :: p <= i < q ==> s[i] == size[i - p];
    hide NumberBits, Unpack, Value;
    if n <= 62 {
    } else if n <= 258047 {
      MiddleSize(n);
      hide EncodeGraphSize;
      assert s[p + 1..q] == size[1..];
      NumberBitsMade(s, p + 1, q, n, 18);
    } else {
      LongSize(n);
      hide EncodeGraphSize;
      assert s[p + 2..q] == size[2..];
      NumberBitsMade(s, p + 2, q, n, 36);
    }
  }

  // Main theorem: whatever is read as a size from printable bytes is the number that stands there.
  lemma SizeReadsNumber(s: seq<nat>, p: nat)
    requires SizeAt(s, p) && forall i :: p <= i < p + 8 && i < |s| ==> s[i] <= 126
    ensures s[p] < 126 ==> GraphSizeAt(s, p) == s[p] - 63
    ensures s[p] == 126 && s[p + 1] < 126 ==> NumberBits(s, p + 1, GraphSizeAt(s, p), 18)
    ensures s[p] == 126 && s[p + 1] == 126 ==> NumberBits(s, p + 2, GraphSizeAt(s, p), 36)
  {
    hide NumberBits, Unpack, Value;
    if s[p] == 126 && s[p + 1] < 126 {
      ValueThree(s[p + 1] - 63, s[p + 2] - 63, s[p + 3] - 63);
      assert s[p + 1..p + 4] == [s[p + 1], s[p + 2], s[p + 3]];
      NumberBitsMade(s, p + 1, p + 4, GraphSizeAt(s, p), 18);
    } else if s[p] == 126 {
      ValueSix(s[p + 2] - 63, s[p + 3] - 63, s[p + 4] - 63, s[p + 5] - 63, s[p + 6] - 63, s[p + 7] - 63);
      assert s[p + 2..p + 8] == [s[p + 2], s[p + 3], s[p + 4], s[p + 5], s[p + 6], s[p + 7]];
      NumberBitsMade(s, p + 2, p + 8, GraphSizeAt(s, p), 36);
    }
  }

  lemma {:induction false} UnpackInjective(a: seq<nat>, b: seq<nat>)
    requires Printable(a) && Printable(b) && Unpack(a) == Unpack(b)
    ensures a == b
  {
    assert 6 * |a| == 6 * |b|;
    if a != [] {
      var n := |a| - 1;
      SplitEqual(Unpack(a[..n]), Six(a[n]), Unpack(b[..n]), Six(b[n]));
      UnpackInjective(a[..n], b[..n]);
      SixInjective(a[n], b[n]);
      assert a == a[..n] + [a[n]] && b == b[..n] + [b[n]];
    }
  }

  lemma SplitEqual<T>(a: seq<T>, b: seq<T>, c: seq<T>, d: seq<T>)
    requires a + b == c + d && |a| == |c|
    ensures a == c && b == d
  {
    assert a == (a + b)[..|a|] && c == (c + d)[..|c|];
    assert b == (a + b)[|a|..] && d == (c + d)[|c|..];
  }

  lemma SixInjective(x: nat, y: nat)
    requires BIAS6 <= x < BIAS6 + 64 && BIAS6 <= y < BIAS6 + 64 && Six(x) == Six(y)
    ensures x == y
  {
    SixtyFour();
    hide Bin, Value, Pow2;
    ValueBin(x - BIAS6, 6);
    ValueBin(y - BIAS6, 6);
  }

  // A number in plain digits is what is read, and it is read to its end.
  lemma PrefixIsRead(s: seq<nat>, p: nat, n: nat, q: nat)
    requires SizePrefix(s, p, n, q)
    ensures SizeAt(s, p) && GraphSizeAt(s, p) == n && q == p + SizeLen(n)
  {
    hide Unpack, Value, NumberBits;
    if 62 < n <= 258047 {
      NumberBitsRead(s, p + 1, q, n, 18);
      ValueThree(s[p + 1] - 63, s[p + 2] - 63, s[p + 3] - 63);
      assert s[p + 1..q] == [s[p + 1], s[p + 2], s[p + 3]];
    } else if 62 < n {
      NumberBitsRead(s, p + 2, q, n, 36);
      ValueSix(s[p + 2] - 63, s[p + 3] - 63, s[p + 4] - 63, s[p + 5] - 63, s[p + 6] - 63, s[p + 7] - 63);
      assert s[p + 2..q] == [s[p + 2], s[p + 3], s[p + 4], s[p + 5], s[p + 6], s[p + 7]];
    }
  }

  // From position q on stand m bits in printable bytes, filled up with zeros, and then newline and NUL.
  ghost predicate BitBody(s: seq<nat>, q: nat, m: nat) {
    && |s| == q + (m + 5) / 6 + 2 && s[|s| - 2] == 10 && s[|s| - 1] == 0
    && (forall i :: q <= i < |s| - 2 ==> 63 <= s[i] <= 126)
    && forall k :: m <= k < 6 * ((m + 5) / 6) ==> !TextBit(s, q, k)
  }

  // Bits written so far: whole bytes, then the 6 - k bits waiting in x.
  ghost predicate Writing(out: seq<nat>, x: nat, k: nat, bits: seq<bool>) {
    Printable(out) && 1 <= k <= 6 && x < Pow2(6 - k) && bits == Unpack(out) + Bin(x, 6 - k)
  }

  method PushBit(out0: seq<nat>, x0: nat, k0: nat, bit: bool, ghost bits: seq<bool>)
    returns (out: seq<nat>, x: nat, k: nat)
    requires Writing(out0, x0, k0, bits)
    ensures Writing(out, x, k, bits + [bit])
  {
    hide *;
    OneMoreBit(out0, x0, k0, bit, bits);
    out, x, k := out0, 2 * x0 + (if bit then 1 else 0), k0 - 1;
    if k == 0 {
      ByteFull(out0, x, bits + [bit]);
      out := out + [BIAS6 + x];
      x, k := 0, 6;
    }
  }

  lemma OneMoreBit(out: seq<nat>, x0: nat, k0: nat, bit: bool, bits: seq<bool>)
    requires Writing(out, x0, k0, bits)
    ensures 1 <= k0 && Printable(out)
    ensures var x := 2 * x0 + (if bit then 1 else 0);
            x < Pow2(7 - k0) && bits + [bit] == Unpack(out) + Bin(x, 7 - k0)
    ensures k0 > 1 ==> Writing(out, 2 * x0 + (if bit then 1 else 0), k0 - 1, bits + [bit])
  {
    var x := 2 * x0 + (if bit then 1 else 0);
    assert Bin(x, 7 - k0) == Bin(x0, 6 - k0) + [bit];
    hide Unpack, Bin, Printable;
    assert bits + [bit] == Unpack(out) + Bin(x, 7 - k0);
  }

  lemma ByteFull(out: seq<nat>, x: nat, bits: seq<bool>)
    requires Printable(out) && x < Pow2(6) && bits == Unpack(out) + Bin(x, 6)
    ensures Writing(out + [BIAS6 + x], 0, 6, bits)
  {
    hide *;
    SixtyFour();
    UnpackLast(out, BIAS6 + x);
    SixIs(x);
    StillPrintable(out, x);
    NothingWaiting(out + [BIAS6 + x], bits);
  }

  lemma SixIs(x: nat)
    requires x < 64
    ensures Six(BIAS6 + x) == Bin(x, 6)
  {
  }

  lemma StillPrintable(out: seq<nat>, x: nat)
    requires Printable(out) && x < 64
    ensures Printable(out + [BIAS6 + x])
  {
  }

  lemma NothingWaiting(out: seq<nat>, bits: seq<bool>)
    requires Printable(out) && bits == Unpack(out)
    ensures Writing(out, 0, 6, bits)
  {
    assert Bin(0, 0) == [];
    hide Unpack;
    assert Unpack(out) + [] == Unpack(out);
  }

  lemma SixtyFour()
    ensures Pow2(6) == 64 && Pow2(5) == 32 && Pow2(4) == 16 && Pow2(3) == 8 && Pow2(2) == 4 && Pow2(1) == 2
  {
    assert Pow2(2) == 4;
    assert Pow2(4) == 16;
  }

  lemma {:induction false} ShrScaled(y: nat, r: nat, e: nat)
    requires r <= e
    ensures Shr(y * Pow2(r), e) == Shr(y, e - r)
  {
    if r > 0 {
      ShrScaled(y, r - 1, e - 1);
      Scale(y, Pow2(r - 1));
    }
  }

  lemma TopBit(value: nat, nb: nat, r: nat)
    requires r < nb
    ensures Bin(value, nb)[r] == (Shr(value * Pow2(r), nb - 1) % 2 == 1)
  {
    BinSplit(value, r + 1, nb - 1 - r);
    ShrScaled(value, r, nb - 1);
    assert Bin(Shr(value, nb - 1 - r), r + 1)[r] == (Shr(value, nb - 1 - r) % 2 == 1);
  }

  // The nb bits of a number, from the top: rr is doubled and its bit nb - 1 tested.
  method PushNumber(out0: seq<nat>, x0: nat, k0: nat, value: nat, nb: nat, ghost bits: seq<bool>)
    returns (out: seq<nat>, x: nat, k: nat)
    requires Writing(out0, x0, k0, bits)
    ensures Writing(out, x, k, bits + Bin(value, nb))
  {
    out, x, k := out0, x0, k0;
    ghost var b := Bin(value, nb);
    assert bits + b[..0] == bits;
    var rr := value;
    for r := 0 to nb
      invariant Writing(out, x, k, bits + b[..r])
      invariant rr == value * Pow2(r)
    {
      TopBit(value, nb, r);
      out, x, k := PushBit(out, x, k, Shr(rr, nb - 1) % 2 == 1, bits + b[..r]);
      assert b[..r + 1] == b[..r] + [b[r]];
      assert bits + b[..r + 1] == (bits + b[..r]) + [b[r]];
      Scale(value, Pow2(r));
      rr := 2 * rr;
    }
    assert b[..nb] == b;
  }

  // x shifted left by k with the value of pad in the low bits.
  lemma JoinBits(x: nat, k: nat, pad: seq<bool>)
    requires 1 <= k <= 5 && x < Pow2(6 - k) && |pad| == k
    ensures Bin(Shl(x, k) + Value(pad), 6) == Bin(x, 6 - k) + pad
    ensures Shl(x, k) + Value(pad) < 64
  {
    hide *;
    var b := Bin(x, 6 - k) + pad;
    ShlIs(x, k);
    ValueBin(x, 6 - k);
    ModSmall(x, Pow2(6 - k));
    ValueAppend(Bin(x, 6 - k), pad);
    BinValue(b);
    ValueBound(b);
    SixtyFour();
  }
}
