// The order in which the sparse refinement queues cells: new cells enter in ascending order, and the first
// cell of a class takes the place of the piece that is spared.
module QueueOrder {
  import opened Sums
  import opened Nests

  // The members of s below n in ascending order.
  ghost function InOrder(s: set<nat>, n: nat): seq<nat> {
    if n == 0 then [] else InOrder(s, n - 1) + if n - 1 in s then [n - 1] else []
  }

  // Each member below n is there, and smaller ones stand in front of larger ones.
  lemma {:induction false} InOrderIs(s: set<nat>, n: nat)
    ensures forall x: nat :: x in InOrder(s, n) <==> x in s && x < n
    ensures forall i, j :: 0 <= i < j < |InOrder(s, n)| ==> InOrder(s, n)[i] < InOrder(s, n)[j]
  {
    if n > 0 {
      InOrderIs(s, n - 1);
      var xs := InOrder(s, n - 1);
      forall i | 0 <= i < |xs| ensures xs[i] < n - 1 {
        assert xs[i] in xs;
      }
    }
  }

  lemma {:induction false} InOrderSame(s: set<nat>, t: set<nat>, n: nat)
    requires forall x :: x < n ==> (x in s <==> x in t)
    ensures InOrder(s, n) == InOrder(t, n)
  {
    if n > 0 { InOrderSame(s, t, n - 1); }
  }

  lemma {:induction false} InOrderEnd(s: set<nat>, a: nat, n: nat)
    requires a <= n && forall x :: x in s ==> x < a
    ensures InOrder(s, n) == InOrder(s, a)
  {
    if a < n { InOrderEnd(s, a, n - 1); }
  }

  lemma InOrderNone(n: nat)
    ensures InOrder({}, n) == []
  {
    InOrderEnd({}, 0, n);
  }

  // A member above all others comes last.
  lemma InOrderMore(s: set<nat>, x: nat, n: nat)
    requires x < n && forall y :: y in s ==> y < x
    ensures InOrder(s + {x}, n) == InOrder(s, n) + [x]
  {
    InOrderEnd(s + {x}, x + 1, n);
    InOrderEnd(s, x, n);
    InOrderSame(s + {x}, s, x);
  }

  lemma InOrderOne(x: nat, n: nat)
    requires x < n
    ensures InOrder({x}, n) == [x]
  {
    InOrderNone(n);
    assert {} + {x} == {x};
    InOrderMore({}, x, n);
  }

  ghost function Swapped(xs: seq<nat>, x: nat, d: nat): (r: seq<nat>)
    ensures |r| == |xs|
  {
    seq(|xs|, i requires 0 <= i < |xs| => if xs[i] == x then d else xs[i])
  }

  // The queue after class d was cut, news being the pieces other than the first one.
  ghost function Entered(q: seq<nat>, news: set<nat>, n: nat, d: nat, active: bool, spared: nat): seq<nat> {
    q + if active || spared == d then InOrder(news, n) else Swapped(InOrder(news, n), spared, d)
  }

  lemma NothingEntered(q: seq<nat>, n: nat, d: nat, active: bool, spared: nat)
    ensures Entered(q, {}, n, d, active, spared) == q
  {
    InOrderNone(n);
  }

  lemma OneEntered(q: seq<nat>, x: nat, n: nat, d: nat, active: bool, spared: nat)
    requires x < n
    ensures active || spared == d ==> Entered(q, {x}, n, d, active, spared) == q + [x]
    ensures !active && spared == x ==> Entered(q, {x}, n, d, active, spared) == q + [d]
  {
    InOrderOne(x, n);
  }

  // One entry, which occurs only once, is replaced.
  lemma SwapOne(q: seq<nat>, xs: seq<nat>, i: nat, d: nat)
    requires |q| <= i < |q + xs| && Distinct(xs)
    ensures (q + xs)[i := d] == q + Swapped(xs, (q + xs)[i], d)
  {
    var k := i - |q|;
    forall j | 0 <= j < |xs| && j != k ensures xs[j] != xs[k] {
    }
  }

  // The cells that begin in v1..e after v1.
  ghost function NewStarts(ptn: seq<int>, level: int, v1: nat, e: nat): set<nat> {
    set d: nat | v1 < d <= e && IsStart(ptn, level, d)
  }

  // Of the queue, the first nactive entries of act, what was there before the cell was cut is q0.
  ghost predicate Enqueued(n: nat, level: int, ptn2: seq<int>, v1: nat, e: nat, active: bool, spared: nat, q0: seq<nat>,
                           act: seq<nat>, nactive: nat) {
    && nactive <= |act|
    && act[..nactive] == Entered(q0, NewStarts(ptn2, level, v1, e), n, v1, active, spared)
  }

  lemma NothingEnqueued(n: nat, level: int, ptn: seq<int>, v1: nat, e: nat, active: bool, spared: nat, act: seq<nat>,
                        nactive: nat)
    requires CellAt(ptn, level, v1, e) && nactive <= |act|
    ensures Enqueued(n, level, ptn, v1, e, active, spared, act[..nactive], act, nactive)
  {
    forall d: nat | v1 < d <= e ensures !IsStart(ptn, level, d) {
      StartsAfter(ptn, ptn, level, v1, e, d);
    }
    assert NewStarts(ptn, level, v1, e) == {};
    NothingEntered(act[..nactive], n, v1, active, spared);
  }

  // ----- the cell that is taken next -----

  // The place of the first cell of a single vertex among the first ten, else the last place.
  ghost function TakenAt(q: seq<nat>, singles: set<nat>, i: nat): (r: nat)
    requires q != [] && i <= |q|
    ensures r < |q|
    decreases |q| - i
  {
    if i >= |q| || i >= 10 then |q| - 1 else if q[i] in singles then i else TakenAt(q, singles, i + 1)
  }

  // The last entry moves there.
  ghost function Taken(q: seq<nat>, i: nat): (r: seq<nat>)
    requires i < |q|
    ensures |r| == |q| - 1
  {
    q[i := q[|q| - 1]][..|q| - 1]
  }

  lemma {:induction false} TakenSame(q: seq<nat>, a: set<nat>, b: set<nat>, i: nat)
    requires q != [] && i <= |q| && forall k :: 0 <= k < |q| ==> (q[k] in a <==> q[k] in b)
    ensures TakenAt(q, a, i) == TakenAt(q, b, i)
    decreases |q| - i
  {
    if i < |q| && i < 10 && q[i] !in a { TakenSame(q, a, b, i + 1); }
  }

  lemma {:induction false} TakenFrom(q: seq<nat>, singles: set<nat>, i: nat)
    requires q != [] && i <= |q| && i <= 10 && forall k :: 0 <= k < i ==> q[k] !in singles
    ensures TakenAt(q, singles, 0) == TakenAt(q, singles, i)
    decreases i
  {
    if i > 0 { TakenFrom(q, singles, i - 1); }
  }

  // Only the first ten cells are looked at. The first cell of a single vertex among them is taken, and if
  // there is none the last cell of the queue, wherever it stands.
  lemma TakenIs(q: seq<nat>, singles: set<nat>)
    requires q != []
    ensures (exists k :: 0 <= k < |q| && k < 10 && q[k] in singles) ==>
      var i := TakenAt(q, singles, 0);
      i < 10 && q[i] in singles && forall k :: 0 <= k < i ==> q[k] !in singles
    ensures (forall k :: 0 <= k < |q| && k < 10 ==> q[k] !in singles) ==> TakenAt(q, singles, 0) == |q| - 1
  {
    TakenSearch(q, singles, 0);
  }

  lemma {:induction false} TakenSearch(q: seq<nat>, singles: set<nat>, i: nat)
    requires q != [] && i <= |q| && i <= 10 && forall k :: 0 <= k < i ==> q[k] !in singles
    ensures var j := TakenAt(q, singles, i);
      || (j < 10 && q[j] in singles && forall k :: 0 <= k < j ==> q[k] !in singles)
      || (j == |q| - 1 && forall k :: 0 <= k < |q| && k < 10 ==> q[k] !in singles)
    decreases |q| - i
  {
    if i < |q| && i < 10 && q[i] !in singles { TakenSearch(q, singles, i + 1); }
  }

  // What is taken leaves the queue, the last entry is moved to its place, and the rest stays.
  lemma TakenLeaves(q: seq<nat>, i: nat, k: nat)
    requires i < |q| && k < |q| - 1
    ensures |Taken(q, i)| == |q| - 1 && Taken(q, i)[k] == q[if k == i then |q| - 1 else k]
  {
  }
}
