// Where a counting sort puts the entries of a stretch of positions.
module BucketSort {
  import opened Sums

  // The number of positions in lo..hi-1 whose entry is below c.
  ghost function Below(xs: seq<nat>, lo: nat, hi: nat, c: nat): (r: nat)
    requires lo <= hi <= |xs|
    ensures r <= hi - lo
  {
    if lo == hi then 0 else Below(xs, lo, hi - 1, c) + (if xs[hi - 1] < c then 1 else 0)
  }

  lemma {:induction false} BelowNext(xs: seq<nat>, lo: nat, hi: nat, c: nat)
    requires lo <= hi <= |xs|
    ensures Below(xs, lo, hi, c + 1) == Below(xs, lo, hi, c) + Occurrences(xs, lo, hi, c)
    decreases hi
  {
    if lo < hi { BelowNext(xs, lo, hi - 1, c); }
  }

  lemma {:induction false} BelowMonotone(xs: seq<nat>, lo: nat, hi: nat, c: nat, d: nat)
    requires lo <= hi <= |xs| && c <= d
    ensures Below(xs, lo, hi, c) <= Below(xs, lo, hi, d)
    decreases hi
  {
    if lo < hi { BelowMonotone(xs, lo, hi - 1, c, d); }
  }

  lemma {:induction false} BelowAll(xs: seq<nat>, lo: nat, hi: nat, c: nat)
    requires lo <= hi <= |xs| && forall i :: lo <= i < hi ==> xs[i] < c
    ensures Below(xs, lo, hi, c) == hi - lo
    decreases hi
  {
    if lo < hi { BelowAll(xs, lo, hi - 1, c); }
  }

  lemma {:induction false} BelowNone(xs: seq<nat>, lo: nat, hi: nat, c: nat)
    requires lo <= hi <= |xs| && forall i :: lo <= i < hi ==> c <= xs[i]
    ensures Below(xs, lo, hi, c) == 0
    decreases hi
  {
    if lo < hi { BelowNone(xs, lo, hi - 1, c); }
  }

  lemma {:induction false} OccursBefore(xs: seq<nat>, lo: nat, i: nat, hi: nat, c: nat)
    requires lo <= i < hi <= |xs|
    ensures Occurrences(xs, lo, i, c) + (if xs[i] == c then 1 else 0) <= Occurrences(xs, lo, hi, c)
    decreases hi
  {
    if i < hi - 1 { OccursBefore(xs, lo, i, hi - 1, c); }
  }

  // The position that the entry at i moves to: after the smaller entries, and after the equal
  // ones before it.
  ghost function Place(xs: seq<nat>, lo: nat, hi: nat, i: nat): nat
    requires lo <= i < hi <= |xs|
  {
    lo + Below(xs, lo, hi, xs[i]) + Occurrences(xs, lo, i, xs[i])
  }

  lemma PlaceInBlock(xs: seq<nat>, lo: nat, hi: nat, i: nat)
    requires lo <= i < hi <= |xs|
    ensures lo + Below(xs, lo, hi, xs[i]) <= Place(xs, lo, hi, i) < lo + Below(xs, lo, hi, xs[i] + 1) <= hi
  {
    OccursBefore(xs, lo, i, hi, xs[i]);
    BelowNext(xs, lo, hi, xs[i]);
  }

  lemma PlaceInjective(xs: seq<nat>, lo: nat, hi: nat, i: nat, j: nat)
    requires lo <= i < hi <= |xs| && lo <= j < hi && i != j
    ensures Place(xs, lo, hi, i) != Place(xs, lo, hi, j)
  {
    PlaceInBlock(xs, lo, hi, i);
    PlaceInBlock(xs, lo, hi, j);
    if xs[i] == xs[j] {
      if i < j { OccursBefore(xs, lo, i, j, xs[i]); } else { OccursBefore(xs, lo, j, i, xs[i]); }
    } else if xs[i] < xs[j] {
      BelowMonotone(xs, lo, hi, xs[i] + 1, xs[j]);
    } else {
      BelowMonotone(xs, lo, hi, xs[j] + 1, xs[i]);
    }
  }

  // Entries in lo..hi-1 move to their places; the others stay.
  ghost function Places(xs: seq<nat>, lo: nat, hi: nat, n: nat): (p: seq<nat>)
    requires lo <= hi <= n && hi <= |xs|
    ensures |p| == n
  {
    seq(n, i requires 0 <= i < n => if lo <= i < hi then Place(xs, lo, hi, i) else i)
  }

  lemma PlacesPermute(xs: seq<nat>, lo: nat, hi: nat, n: nat)
    requires lo <= hi <= n && hi <= |xs|
    ensures Permutation(n, Places(xs, lo, hi, n))
    ensures forall i :: lo <= i < hi ==> lo <= Places(xs, lo, hi, n)[i] < hi
  {
    var p := Places(xs, lo, hi, n);
    forall i | lo <= i < hi ensures lo <= p[i] < hi {
      PlaceInBlock(xs, lo, hi, i);
    }
    forall i, j | 0 <= i < j < n ensures p[i] != p[j] {
      if lo <= i < hi && lo <= j < hi { PlaceInjective(xs, lo, hi, i, j); }
    }
  }

  // The entry at offset r of the sorted stretch: the largest c, up to a given top, with at most
  // r entries below it.
  ghost function EntryAt(xs: seq<nat>, lo: nat, hi: nat, r: nat, c: nat): nat
    requires lo <= hi <= |xs|
    decreases c
  {
    if c == 0 then 0
    else if Below(xs, lo, hi, c) > r then EntryAt(xs, lo, hi, r, c - 1)
    else c
  }

  lemma {:induction false} EntryInBlock(xs: seq<nat>, lo: nat, hi: nat, r: nat, c: nat, top: nat)
    requires lo <= hi <= |xs| && c <= top && Below(xs, lo, hi, c) <= r < Below(xs, lo, hi, c + 1)
    ensures EntryAt(xs, lo, hi, r, top) == c
    decreases top
  {
    if c < top {
      BelowMonotone(xs, lo, hi, c + 1, top);
      EntryInBlock(xs, lo, hi, r, c, top - 1);
    }
  }

  // The entries in the order in which they end up.
  ghost function SortedKey(xs: seq<nat>, lo: nat, hi: nat, n: nat, top: nat): (key: seq<int>)
    requires lo <= hi <= |xs|
    ensures |key| == n
  {
    seq(n, k requires 0 <= k < n => if k < lo then 0 else EntryAt(xs, lo, hi, k - lo, top))
  }

  lemma KeyInBlock(xs: seq<nat>, lo: nat, hi: nat, n: nat, top: nat, c: nat, k: nat)
    requires lo <= hi <= |xs| && c <= top && lo + Below(xs, lo, hi, c) <= k < lo + Below(xs, lo, hi, c + 1) && k < n
    ensures SortedKey(xs, lo, hi, n, top)[k] == c
  {
    EntryInBlock(xs, lo, hi, k - lo, c, top);
  }

  lemma KeyAtPlace(xs: seq<nat>, lo: nat, hi: nat, n: nat, top: nat, i: nat)
    requires lo <= i < hi <= |xs| && hi <= n && xs[i] <= top
    ensures lo <= Place(xs, lo, hi, i) < hi && SortedKey(xs, lo, hi, n, top)[Place(xs, lo, hi, i)] == xs[i]
  {
    PlaceInBlock(xs, lo, hi, i);
    KeyInBlock(xs, lo, hi, n, top, xs[i], Place(xs, lo, hi, i));
  }

  lemma {:induction false} EntryMonotone(xs: seq<nat>, lo: nat, hi: nat, r: nat, s: nat, c: nat)
    requires lo <= hi <= |xs| && r <= s
    ensures EntryAt(xs, lo, hi, r, c) <= EntryAt(xs, lo, hi, s, c) <= c
    decreases c
  {
    if c > 0 { EntryMonotone(xs, lo, hi, r, s, c - 1); }
  }

  lemma {:induction false} EntryBeyond(xs: seq<nat>, lo: nat, hi: nat, r: nat, c: nat, top: nat)
    requires lo <= hi <= |xs| && c <= top && Below(xs, lo, hi, c) <= r
    ensures c <= EntryAt(xs, lo, hi, r, top)
    decreases top
  {
    if c < top { EntryBeyond(xs, lo, hi, r, c, top - 1); }
  }

  // The key is constant along the block of c and changes at its end.
  lemma KeyAlongBlock(xs: seq<nat>, lo: nat, hi: nat, n: nat, top: nat, c: nat, k: nat)
    requires lo <= hi <= |xs| && hi <= n && c <= top && k + 1 < hi
    requires lo + Below(xs, lo, hi, c) <= k < lo + Below(xs, lo, hi, c + 1)
    requires Below(xs, lo, hi, top + 1) == hi - lo
    ensures SortedKey(xs, lo, hi, n, top)[k] != SortedKey(xs, lo, hi, n, top)[k + 1]
       <==> k + 1 == lo + Below(xs, lo, hi, c + 1)
  {
    KeyInBlock(xs, lo, hi, n, top, c, k);
    if k + 1 < lo + Below(xs, lo, hi, c + 1) {
      KeyInBlock(xs, lo, hi, n, top, c, k + 1);
    } else {
      EntryBeyond(xs, lo, hi, k + 1 - lo, c + 1, top);
    }
  }

  lemma KeySorted(xs: seq<nat>, lo: nat, hi: nat, n: nat, top: nat)
    requires lo <= hi <= |xs| && hi <= n
    ensures forall i, j :: lo <= i < j < hi ==> SortedKey(xs, lo, hi, n, top)[i] <= SortedKey(xs, lo, hi, n, top)[j]
  {
    var key := SortedKey(xs, lo, hi, n, top);
    forall i, j | lo <= i < j < hi ensures key[i] <= key[j] {
      EntryMonotone(xs, lo, hi, i - lo, j - lo, top);
    }
  }

  // Moving every entry of a list to its place keeps the list free of repetition.
  lemma MovedPermutes(n: nat, p: seq<nat>, lab: seq<nat>, lab2: seq<nat>)
    requires Permutation(n, p) && Permutation(n, lab) && |lab2| == n
    requires forall i :: 0 <= i < n ==> lab2[p[i]] == lab[i]
    ensures Permutation(n, lab2)
  {
    forall x: nat | x < n ensures lab2[x] < n {
      var i := PermutationOnto(n, p, x);
    }
    forall x: nat, y: nat | x < y < n ensures lab2[x] != lab2[y] {
      var i := PermutationOnto(n, p, x);
      var j := PermutationOnto(n, p, y);
      assert lab[i] != lab[j];
    }
  }
}
