// Binary numbers as bit strings, most significant bit first.
module Bits {
  function Pow2(e: nat): (r: nat)
    ensures r > 0
  {
    if e == 0 then 1 else 2 * Pow2(e - 1)
  }

  ghost function Value(b: seq<bool>): nat {
    if b == [] then 0 else 2 * Value(b[..|b| - 1]) + (if b[|b| - 1] then 1 else 0)
  }

  // The len low bits of x.
  ghost function Bin(x: nat, len: nat): (b: seq<bool>)
    ensures |b| == len
  {
    if len == 0 then [] else Bin(x / 2, len - 1) + [x % 2 == 1]
  }

  lemma {:induction false} ValueBin(x: nat, len: nat)
    ensures Value(Bin(x, len)) == x % Pow2(len)
  {
    if len > 0 {
      ValueBin(x / 2, len - 1);
      var b := Bin(x, len);
      assert b[..len - 1] == Bin(x / 2, len - 1);
      ModHalf(x, Pow2(len - 1));
    }
  }

  lemma ModHalf(x: nat, m: nat)
    requires m > 0
    ensures 2 * ((x / 2) % m) + x % 2 == x % (2 * m)
  {
    var q, r := (x / 2) / m, (x / 2) % m;
    assert x / 2 == m * q + r;
    assert x == (2 * m) * q + (2 * r + x % 2);
    DivModUnique(x, 2 * m, q, 2 * r + x % 2);
  }

  lemma ModSmall(x: nat, m: nat)
    requires x < m
    ensures x % m == x
  {
  }

  lemma DivModUnique(x: nat, m: nat, q: nat, r: nat)
    requires m > 0 && x == m * q + r && r < m
    ensures x / m == q && x % m == r
  {
    var d := x / m - q;
    assert x == m * (x / m) + x % m;
    assert m * d == r - x % m;
    MulSign(m, d);
  }

  lemma MulSign(m: int, d: int)
    requires m > 0
    ensures d > 0 ==> m * d >= m
    ensures d < 0 ==> m * d <= 0 - m
  {
  }

  lemma {:induction false} ValueBound(b: seq<bool>)
    ensures Value(b) < Pow2(|b|)
  {
    if b != [] { ValueBound(b[..|b| - 1]); }
  }

  lemma {:induction false} BinValue(b: seq<bool>)
    ensures Bin(Value(b), |b|) == b
  {
    if b != [] {
      var rest := b[..|b| - 1];
      BinValue(rest);
      assert b == rest + [b[|b| - 1]];
    }
  }

  lemma BinSplitStep(x: nat, y: nat, high: nat, low: nat)
    requires Bin(x / 2, high + low) == Bin(y, high) + Bin(x / 2, low)
    ensures Bin(x, high + low + 1) == Bin(y, high) + Bin(x, low + 1)
  {
    var bit := [x % 2 == 1];
    assert (Bin(y, high) + Bin(x / 2, low)) + bit == Bin(y, high) + (Bin(x / 2, low) + bit);
  }

  // x << e
  function Shl(x: nat, e: nat): nat
    decreases e
  {
    if e == 0 then x else Shl(2 * x, e - 1)
  }

  lemma {:induction false} ShlIs(x: nat, e: nat)
    ensures Shl(x, e) == x * Pow2(e)
    decreases e
  {
    if e > 0 {
      ShlIs(2 * x, e - 1);
      assert (2 * x) * Pow2(e - 1) == x * (2 * Pow2(e - 1));
    }
  }

  // x >> e
  function Shr(x: nat, e: nat): nat {
    if e == 0 then x else Shr(x / 2, e - 1)
  }

  // The high bits followed by the low bits.
  lemma {:induction false} BinSplit(x: nat, high: nat, low: nat)
    ensures Bin(x, high + low) == Bin(Shr(x, low), high) + Bin(x, low)
  {
    if low == 0 {
      assert Bin(x, 0) == [];
    } else {
      BinSplit(x / 2, high, low - 1);
      BinSplitStep(x, Shr(x, low), high, low - 1);
    }
  }

  lemma {:induction false} ValueAppend(a: seq<bool>, b: seq<bool>)
    ensures Value(a + b) == Value(a) * Pow2(|b|) + Value(b)
  {
    if b == [] {
      assert a + b == a;
    } else {
      var rest, last := b[..|b| - 1], b[|b| - 1];
      ValueAppend(a, rest);
      ValueLast(a + rest, last);
      ValueLast(rest, last);
      assert a + b == (a + rest) + [last] && b == rest + [last];
      assert Pow2(|b|) == 2 * Pow2(|rest|);
      Scale(Value(a), Pow2(|rest|));
    }
  }

  lemma ValueLast(a: seq<bool>, bit: bool)
    ensures Value(a + [bit]) == 2 * Value(a) + (if bit then 1 else 0)
  {
    assert (a + [bit])[..|a|] == a;
  }

  lemma Scale(x: nat, m: nat)
    ensures x * (2 * m) == 2 * (x * m)
  {
  }

  // The number of bits of x.
  function BitLength(x: nat): nat {
    if x == 0 then 0 else 1 + BitLength(x / 2)
  }

  lemma {:induction false} BitLengthIs(x: nat)
    ensures x < Pow2(BitLength(x))
    ensures x > 0 ==> Pow2(BitLength(x) - 1) <= x
  {
    if x > 0 { BitLengthIs(x / 2); }
  }

  ghost function Ones(m: nat): (b: seq<bool>)
    ensures |b| == m
  {
    seq(m, _ => true)
  }

  lemma {:induction false} ValueOnes(m: nat)
    ensures Value(Ones(m)) == Pow2(m) - 1
  {
    if m > 0 {
      ValueOnes(m - 1);
      assert Ones(m)[..m - 1] == Ones(m - 1);
    }
  }

  ghost function Log2(n: nat): nat
    requires n > 0
  {
    if n == 1 then 0 else 1 + Log2(n / 2)
  }

  lemma {:induction false} Log2Bound(n: nat, e: nat)
    requires n > 0 && Pow2(e) <= n
    ensures e <= Log2(n)
  {
    if e > 0 { Log2Bound(n / 2, e - 1); }
  }

  // ----- in plain numbers -----

  // Bit r from the left has the weight 2^(len - 1 - r).
  lemma {:induction false} BinAt(x: nat, len: nat, r: nat)
    requires r < len
    ensures Bin(x, len)[r] <==> (x / Pow2(len - 1 - r)) % 2 == 1
  {
    if r < len - 1 {
      BinAt(x / 2, len - 1, r);
      HalfQuotient(x, Pow2(len - 2 - r));
    }
  }

  lemma HalfQuotient(x: nat, m: nat)
    requires m > 0
    ensures (x / 2) / m == x / (2 * m)
  {
    var q := (x / 2) / m;
    assert x == (2 * m) * q + (2 * ((x / 2) % m) + x % 2) by {
      assert x / 2 == m * q + (x / 2) % m;
    }
    DivModUnique(x, 2 * m, q, 2 * ((x / 2) % m) + x % 2);
  }

  lemma {:induction false} Log2Is(n: nat)
    requires n > 0
    ensures Pow2(Log2(n)) <= n < Pow2(Log2(n) + 1)
  {
    if n > 1 { Log2Is(n / 2); }
  }

  lemma SixBits(x: nat)
    ensures var b := Bin(x, 6);
      b[0] == ((x / 32) % 2 == 1) && b[1] == ((x / 16) % 2 == 1) && b[2] == ((x / 8) % 2 == 1)
      && b[3] == ((x / 4) % 2 == 1) && b[4] == ((x / 2) % 2 == 1) && b[5] == (x % 2 == 1)
  {
    var x1 := x / 2;
    var x2 := x1 / 2;
    var x3 := x2 / 2;
    var x4 := x3 / 2;
    var x5 := x4 / 2;
    assert x2 == x / 4 && x3 == x / 8 && x4 == x / 16 && x5 == x / 32;
    assert Bin(x5, 1) == Bin(x5 / 2, 0) + [x5 % 2 == 1];
    assert Bin(x4, 2) == Bin(x5, 1) + [x4 % 2 == 1];
    assert Bin(x3, 3) == Bin(x4, 2) + [x3 % 2 == 1];
    assert Bin(x2, 4) == Bin(x3, 3) + [x2 % 2 == 1];
    assert Bin(x1, 5) == Bin(x2, 4) + [x1 % 2 == 1];
    assert Bin(x, 6) == Bin(x1, 5) + [x % 2 == 1];
  }
}
