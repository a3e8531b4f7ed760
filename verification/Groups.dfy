// Coset representatives and the enumeration of a group, with its scratch buffer.
module Groups {
  import opened Sums
  import opened GroupOrbits
  import opened GroupElements
  import opened GroupListing

  // ----- the breadth-first search for representatives -----

  // The points reached so far, numbered in the order in which they were reached.
  ghost predicate Reached(n: nat, l: Level, queue: seq<nat>, lab: seq<int>, cr: seq<Coset>, tail: nat) {
    && Permutations(l.gens, n) && l.fixedpt < n && |lab| == n
    && 0 < tail <= |queue| && tail <= |cr| && cr[0] == Coset(l.fixedpt, Identity)
    && (forall i :: 0 <= i < tail ==> ReachedAt(n, l, queue, lab, cr, i))
    && (forall x :: 0 <= x < n && lab[x] >= 0 ==> lab[x] < tail && queue[lab[x]] == x)
  }

  ghost predicate ReachedAt(n: nat, l: Level, queue: seq<nat>, lab: seq<int>, cr: seq<Coset>, i: nat)
    requires l.fixedpt < n && |lab| == n && i < |queue| && i < |cr|
  {
    queue[i] < n && lab[queue[i]] == i && cr[i].image == queue[i] && RepOk(n, l, cr[i])
  }

  // The images of the first head points under every generator have been reached, and those of
  // point number head under the first gi generators.
  ghost predicate Explored(n: nat, gens: seq<Perm>, queue: seq<nat>, lab: seq<int>, head: nat, gi: nat) {
    forall i, t :: 0 <= i < |queue| && 0 <= t < |gens| && (i < head || (i == head && t < gi)) ==>
      ImageSeen(n, gens[t], lab, queue[i])
  }

  ghost predicate ImageSeen(n: nat, g: Perm, lab: seq<int>, x: nat) {
    x < |g| && g[x] < |lab| && lab[g[x]] >= 0
  }

  lemma ReachedStart(n: nat, l: Level, queue: seq<nat>, lab: seq<int>, cr: seq<Coset>)
    requires Permutations(l.gens, n) && l.fixedpt < n && |lab| == n && 0 < |queue| && 0 < |cr|
    requires cr[0] == Coset(l.fixedpt, Identity) && queue[0] == l.fixedpt
    requires forall x :: 0 <= x < n ==> lab[x] == if x == l.fixedpt then 0 else -1
    ensures Reached(n, l, queue, lab, cr, 1) && Explored(n, l.gens, queue, lab, 0, 0)
  {
    IdInGroup(l.gens, n);
    assert ReachedAt(n, l, queue, lab, cr, 0);
  }

  // The set of reached points.
  ghost function Points(queue: seq<nat>, tail: nat): set<nat>
    requires tail <= |queue|
  {
    Elems(queue[..tail])
  }

  lemma PointsInOrbit(n: nat, l: Level, queue: seq<nat>, lab: seq<int>, cr: seq<Coset>, tail: nat)
    requires Reached(n, l, queue, lab, cr, tail)
    ensures Points(queue, tail) <= OrbitOf(l.gens, n, l.fixedpt) && |Points(queue, tail)| == tail
    ensures tail <= |OrbitOf(l.gens, n, l.fixedpt)|
  {
    var q := queue[..tail];
    forall i, j | 0 <= i < j < tail ensures q[i] != q[j] {
      assert ReachedAt(n, l, queue, lab, cr, i) && ReachedAt(n, l, queue, lab, cr, j);
    }
    DistinctCard(q);
    forall x | x in Points(queue, tail) ensures x in OrbitOf(l.gens, n, l.fixedpt) {
      var i: nat :| i < tail && queue[i] == x;
      assert ReachedAt(n, l, queue, lab, cr, i);
      RepInOrbit(n, l, cr[i]);
    }
    SubsetCard(Points(queue, tail), OrbitOf(l.gens, n, l.fixedpt));
  }

  lemma RepInOrbit(n: nat, l: Level, c: Coset)
    requires Permutations(l.gens, n) && l.fixedpt < n && RepOk(n, l, c)
    ensures c.image < n && SameOrbit(l.gens, n, l.fixedpt, c.image)
  {
    var w: Word :| Spells(l.gens, n, w, RepPerm(n, c));
    assert Act(l.gens, n, w, l.fixedpt) == c.image;
  }

  // Taking a generator after a representative gives a representative of the image.
  lemma NextRep(n: nat, l: Level, c: Coset, t: nat, d: Coset)
    requires Permutations(l.gens, n) && l.fixedpt < n && RepOk(n, l, c) && t < |l.gens|
    requires c.image < n
    requires d == Coset(l.gens[t][c.image], Stored(Then(RepPerm(n, c), l.gens[t])))
    ensures RepOk(n, l, d)
  {
    GeneratorInGroup(l.gens, n, t);
    ThenInGroup(l.gens, n, RepPerm(n, c), l.gens[t]);
  }

  // A new point needs room that the orbit size has set aside.
  lemma RoomForNew(n: nat, l: Level, queue: seq<nat>, lab: seq<int>, cr: seq<Coset>, tail: nat, d: Coset)
    requires Reached(n, l, queue, lab, cr, tail) && RepOk(n, l, d) && d.image < n && lab[d.image] < 0
    requires l.orbitsize == |OrbitOf(l.gens, n, l.fixedpt)|
    ensures tail < l.orbitsize <= n
  {
    PointsInOrbit(n, l, queue, lab, cr, tail);
    RepInOrbit(n, l, d);
    var orbit := OrbitOf(l.gens, n, l.fixedpt);
    forall x | x in Points(queue, tail) ensures x != d.image {
      var i: nat :| i < tail && queue[i] == x;
      assert ReachedAt(n, l, queue, lab, cr, i);
    }
    SubsetCard(Points(queue, tail) + {d.image}, orbit);
    assert |Points(queue, tail) + {d.image}| == tail + 1;
    OrbitSize(n, l);
  }

  lemma OrbitSize(n: nat, l: Level)
    requires Permutations(l.gens, n)
    ensures |OrbitOf(l.gens, n, l.fixedpt)| <= n
  {
    var orbit := OrbitOf(l.gens, n, l.fixedpt);
    assert orbit <= Range(n);
    SubsetCard(orbit, Range(n));
    RangeCard(n);
  }

  lemma ReachedNext(n: nat, l: Level, queue: seq<nat>, lab: seq<int>, cr: seq<Coset>, tail: nat, d: Coset)
    requires Reached(n, l, queue, lab, cr, tail) && tail < |queue| && tail < |cr|
    requires RepOk(n, l, d) && d.image < n && lab[d.image] < 0
    ensures Reached(n, l, queue[tail := d.image], lab[d.image := tail], cr[tail := d], tail + 1)
  {
    var q, b, c := queue[tail := d.image], lab[d.image := tail], cr[tail := d];
    forall i | 0 <= i < tail + 1 ensures ReachedAt(n, l, q, b, c, i) {
      if i < tail { assert ReachedAt(n, l, queue, lab, cr, i); }
    }
  }

  lemma ExploredNext(n: nat, gens: seq<Perm>, queue: seq<nat>, lab: seq<int>, head: nat, gi: nat,
                     queue1: seq<nat>, lab1: seq<int>)
    requires Explored(n, gens, queue, lab, head, gi) && head < |queue| && gi < |gens|
    requires |queue1| == |queue| && |lab1| == |lab|
    requires forall i :: 0 <= i <= head ==> queue1[i] == queue[i]
    requires forall x :: 0 <= x < |lab| && lab[x] >= 0 ==> lab1[x] >= 0
    requires ImageSeen(n, gens[gi], lab1, queue[head])
    ensures Explored(n, gens, queue1, lab1, head, gi + 1)
  {
    forall i, t | 0 <= i < |queue1| && 0 <= t < |gens| && (i < head || (i == head && t < gi + 1))
      ensures ImageSeen(n, gens[t], lab1, queue1[i])
    {
      if i < head || t < gi { assert ImageSeen(n, gens[t], lab, queue[i]); }
    }
  }

  lemma HeadDone(n: nat, gens: seq<Perm>, queue: seq<nat>, lab: seq<int>, head: nat)
    requires Explored(n, gens, queue, lab, head, |gens|)
    ensures Explored(n, gens, queue, lab, head + 1, 0)
  {
  }

  lemma LabelledClosed(n: nat, l: Level, queue: seq<nat>, lab: seq<int>, cr: seq<Coset>, tail: nat, t: nat)
    requires Reached(n, l, queue, lab, cr, tail) && Explored(n, l.gens, queue, lab, tail, 0) && t < |l.gens|
    ensures ClosedUnder(l.gens[t], Points(queue, tail))
  {
    var s := Points(queue, tail);
    assert Permutation(n, l.gens[t]);
    forall y | y in s ensures y < n && l.gens[t][y] in s {
      var i: nat :| i < tail && queue[i] == y;
      assert ReachedAt(n, l, queue, lab, cr, i);
      assert ImageSeen(n, l.gens[t], lab, queue[i]);
      var z := l.gens[t][y];
      assert queue[lab[z]] == z;
      assert queue[..tail][lab[z]] == z;
    }
  }

  // A set closed under the generators is closed under the whole group.
  lemma {:induction false} ClosedUnderWords(n: nat, gens: seq<Perm>, s: set<nat>, w: Word, x: nat)
    requires Permutations(gens, n) && WordOk(w, |gens|) && x < n && x in s
    requires forall t :: 0 <= t < |gens| ==> ClosedUnder(gens[t], s)
    ensures Act(gens, n, w, x) in s
    decreases |w|
  {
    if w != [] {
      var l := w[|w| - 1];
      ClosedUnderWords(n, gens, s, w[..|w| - 1], x);
      var mid := Act(gens, n, w[..|w| - 1], x);
      var p := gens[l.0];
      assert ClosedUnder(p, s) && Permutation(n, p);
      if l.1 {
        var y := PreimageInside(n, p, s, mid);
        assert p[Preimage(n, p, mid)] == p[y];
      }
    }
  }

  lemma SearchComplete(n: nat, l: Level, queue: seq<nat>, lab: seq<int>, cr: seq<Coset>, tail: nat)
    requires Reached(n, l, queue, lab, cr, tail) && Explored(n, l.gens, queue, lab, tail, 0)
    requires l.orbitsize == |OrbitOf(l.gens, n, l.fixedpt)| == |cr|
    ensures Transversal(n, l.(replist := cr))
  {
    var s, orbit := Points(queue, tail), OrbitOf(l.gens, n, l.fixedpt);
    PointsInOrbit(n, l, queue, lab, cr, tail);
    forall t | 0 <= t < |l.gens| ensures ClosedUnder(l.gens[t], s) {
      LabelledClosed(n, l, queue, lab, cr, tail, t);
    }
    assert ReachedAt(n, l, queue, lab, cr, 0);
    assert l.fixedpt == queue[..tail][0];
    forall x | x in orbit ensures x in s {
      var w: Word :| WordOk(w, |l.gens|) && Act(l.gens, n, w, l.fixedpt) == x;
      ClosedUnderWords(n, l.gens, s, w, l.fixedpt);
    }
    assert s == orbit && tail == |cr|;
    var l1 := l.(replist := cr);
    forall j | 0 <= j < |cr| ensures RepOk(n, l1, cr[j]) && cr[j].image == queue[j] && lab[queue[j]] == j {
      assert ReachedAt(n, l, queue, lab, cr, j);
    }
    forall x: nat | x < n && SameOrbit(l1.gens, n, l1.fixedpt, x) ensures Represented(l1, x) {
      assert x in orbit;
      var i: nat :| i < tail && queue[i] == x;
      assert cr[i].image == x;
    }
  }

  // ----- the scratch buffer -----

  // What a permutation pointer of the enumeration can point at.
  datatype Ptr = Null | InCoset(p: Perm) | Scratch(off: nat)

  ghost predicate PtrOk(n: nat, q: Ptr, buf: seq<nat>, after: nat) {
    match q
    case Null => true
    case InCoset(p) => Permutation(n, p)
    case Scratch(off) => off + n <= after <= |buf| && Permutation(n, buf[off..off + n])
  }

  // The permutation pointed at.
  ghost function Value(n: nat, q: Ptr, buf: seq<nat>, after: nat): (p: Perm)
    requires PtrOk(n, q, buf, after)
    ensures Permutation(n, p)
  {
    IdPermutes(n);
    match q
    case Null => Id(n)
    case InCoset(p) => p
    case Scratch(off) => buf[off..off + n]
  }

  // Writing at or beyond after does not disturb the permutation.
  lemma ValueKept(n: nat, q: Ptr, buf: seq<nat>, buf1: seq<nat>, after: nat)
    requires PtrOk(n, q, buf, after) && |buf1| == |buf| && after <= |buf| && buf1[..after] == buf[..after]
    ensures PtrOk(n, q, buf1, after) && Value(n, q, buf1, after) == Value(n, q, buf, after)
  {
    if q.Scratch? {
      assert buf1[q.off..q.off + n] == buf1[..after][q.off..q.off + n];
      assert buf[q.off..q.off + n] == buf[..after][q.off..q.off + n];
    }
  }

  lemma FixedInOrbit(n: nat, l: Level)
    requires Permutations(l.gens, n) && l.fixedpt < n
    ensures 0 < |OrbitOf(l.gens, n, l.fixedpt)|
  {
    assert Act(l.gens, n, [], l.fixedpt) == l.fixedpt;
    assert l.fixedpt in OrbitOf(l.gens, n, l.fixedpt);
  }

  // The permutation p after a stored representative, as p itself if the representative is absent.
  function Product(r: Rep, g: Perm): (q: Perm)
    requires r.Stored? ==> |r.p| == |g| && forall i :: 0 <= i < |g| ==> r.p[i] < |g|
  {
    match r
    case Identity => g
    case Stored(p) => seq(|g|, i requires 0 <= i < |g| => g[p[i]])
  }

  lemma ProductIsThen(n: nat, l: Level, c: Coset, g: Perm)
    requires Permutations(l.gens, n) && l.fixedpt < n && RepOk(n, l, c) && Permutation(n, g)
    ensures c.rep.Stored? ==> |c.rep.p| == |g| && forall i :: 0 <= i < |g| ==> c.rep.p[i] < |g|
    ensures Product(c.rep, g) == Then(RepPerm(n, c), g)
  {
    ThenId(n, g);
  }

  // A longer buffer does not matter.
  lemma LongerOk(n: nat, q: Ptr, buf: seq<nat>, after: nat)
    requires PtrOk(n, q, buf, after) && after + n <= |buf|
    ensures PtrOk(n, q, buf, after + n) && Value(n, q, buf, after + n) == Value(n, q, buf, after)
  {
  }

  lemma CosetValue(n: nat, p: Perm, buf: seq<nat>, after: nat)
    requires Permutation(n, p)
    ensures PtrOk(n, InCoset(p), buf, after) && Value(n, InCoset(p), buf, after) == p
  {
  }

  lemma StepValue(n: nat, levels: seq<Level>, k: nat, b: Perm, j: nat)
    requires Transversals(n, levels) && k < |levels| && j < |levels[k].replist| && Permutation(n, b)
    ensures var rep := levels[k].replist[j].rep;
      && (rep.Stored? ==> Permutation(n, rep.p) && Extend(n, levels, k + 1, b, j) == Then(b, rep.p))
      && (rep.Stored? && b == Id(n) ==> Extend(n, levels, k + 1, b, j) == rep.p)
      && (rep.Identity? ==> Extend(n, levels, k + 1, b, j) == b)
  {
    LevelFacts(n, levels, k, j);
    var r := RepPerm(n, levels[k].replist[j]);
    AllPermute(levels[k].gens, n, r);
    ThenId(n, b);
    ThenId(n, r);
  }

  class Group {
    const n: nat
    var levelinfo: seq<Level>
    var allp: array<nat>
    // The permutations that the action was called with, in order.
    var calls: seq<Perm>

    constructor (n: nat, levelinfo: seq<Level>)
      ensures this.n == n && this.levelinfo == levelinfo && calls == [] && fresh(allp)
    {
      this.n, this.levelinfo, calls := n, levelinfo, [];
      allp := new nat[0];
    }

    // The representatives of one level, by breadth-first search from the fixed point.
    static method LevelReps(n: nat, l: Level) returns (replist: seq<Coset>)
      requires Permutations(l.gens, n) && l.fixedpt < n && l.orbitsize == |OrbitOf(l.gens, n, l.fixedpt)|
      ensures Transversal(n, l.(replist := replist))
    {
      FixedInOrbit(n, l);
      var queue := new nat[n];
      var lab := new int[n](_ => -1);
      var cr := new Coset[l.orbitsize](_ => Coset(0, Identity));
      queue[0] := l.fixedpt;
      lab[queue[0]] := 0;
      cr[0] := Coset(queue[0], Identity);
      var head, tail, index := 0, 1, 0;
      ReachedStart(n, l, queue[..], lab[..], cr[..]);
      hide Reached, Explored, Permutations, RepOk, OrbitOf;
      while head < tail
        invariant head <= tail <= n && tail == index + 1
        invariant Reached(n, l, queue[..], lab[..], cr[..], tail) && Explored(n, l.gens, queue[..], lab[..], head, 0)
        decreases n - head
      {
        var j := queue[head];
        head := head + 1;
        for gi := 0 to |l.gens|
          invariant head <= tail <= n && tail == index + 1 && queue[head - 1] == j
          invariant Reached(n, l, queue[..], lab[..], cr[..], tail)
          invariant Explored(n, l.gens, queue[..], lab[..], head - 1, gi)
        {
          tail, index := VisitImage(n, l, queue, lab, cr, head - 1, tail, index, gi);
        }
        HeadDone(n, l.gens, queue[..], lab[..], head - 1);
      }
      SearchComplete(n, l, queue[..], lab[..], cr[..], tail);
      replist := cr[..];
    }

    // Number a new point and store its representative.
    static method AddPoint(n: nat, l: Level, queue: array<nat>, lab: array<int>, cr: array<Coset>, tail: nat, d: Coset)
      requires queue.Length == lab.Length == n && tail < n && tail < cr.Length
      requires Reached(n, l, queue[..], lab[..], cr[..], tail) && RepOk(n, l, d) && d.image < n && lab[d.image] < 0
      modifies queue, lab, cr
      ensures Reached(n, l, queue[..], lab[..], cr[..], tail + 1)
      ensures queue[..] == old(queue[..])[tail := d.image] && lab[..] == old(lab[..])[d.image := tail]
    {
      ghost var q0, b0, c0 := queue[..], lab[..], cr[..];
      ReachedNext(n, l, q0, b0, c0, tail, d);
      hide Reached, RepOk;
      lab[d.image] := tail;
      queue[tail] := d.image;
      cr[tail] := d;
      assert queue[..] == q0[tail := d.image] && lab[..] == b0[d.image := tail] && cr[..] == c0[tail := d];
    }

    // Label the image of point number h under generator gi, if it is new.
    static method VisitImage(n: nat, l: Level, queue: array<nat>, lab: array<int>, cr: array<Coset>,
                             h: nat, tail0: nat, index0: nat, gi: nat)
      returns (tail: nat, index: nat)
      requires Permutations(l.gens, n) && l.fixedpt < n && gi < |l.gens|
      requires queue.Length == lab.Length == n && cr.Length == l.orbitsize == |OrbitOf(l.gens, n, l.fixedpt)|
      requires h < tail0 <= n && tail0 == index0 + 1
      requires Reached(n, l, queue[..], lab[..], cr[..], tail0) && Explored(n, l.gens, queue[..], lab[..], h, gi)
      modifies queue, lab, cr
      ensures tail0 <= tail <= n && tail == index + 1 && queue[h] == old(queue[h])
      ensures Reached(n, l, queue[..], lab[..], cr[..], tail) && Explored(n, l.gens, queue[..], lab[..], h, gi + 1)
    {
      tail, index := tail0, index0;
      ghost var q0, b0, c0 := queue[..], lab[..], cr[..];
      assert ReachedAt(n, l, q0, b0, c0, h) && Permutation(n, l.gens[gi]);
      assert forall x :: 0 <= x < n ==> l.gens[gi][x] < n;
      hide Reached, Explored, Permutations, Permutation, RepOk, OrbitOf;
      var j, g := queue[h], l.gens[gi];
      var k := g[j];
      if lab[k] < 0 {
        ProductIsThen(n, l, c0[h], g);
        var d := Coset(k, Stored(Product(cr[lab[j]].rep, g)));
        NextRep(n, l, c0[h], gi, d);
        RoomForNew(n, l, q0, b0, c0, tail, d);
        index := index + 1;
        AddPoint(n, l, queue, lab, cr, tail, d);
        tail := tail + 1;
      }
      ExploredNext(n, l.gens, q0, b0, h, gi, queue[..], lab[..]);
    }

    // Find the coset representatives of every level.
    method MakeCosetReps()
      requires StabiliserChain(n, levelinfo)
      modifies this`levelinfo
      ensures StabiliserChain(n, levelinfo) && Transversals(n, levelinfo)
      ensures |levelinfo| == |old(levelinfo)|
      ensures forall i :: 0 <= i < |levelinfo| ==> levelinfo[i] == old(levelinfo)[i].(replist := levelinfo[i].replist)
    {
      ghost var l0 := levelinfo;
      for i := 0 to |levelinfo|
        invariant |levelinfo| == |l0|
        invariant forall k :: i <= k < |l0| ==> levelinfo[k] == l0[k]
        invariant forall k :: 0 <= k < i ==> SameButReps(l0[k], levelinfo[k]) && Transversal(n, levelinfo[k])
      {
        ChainAt(n, l0, i);
        var replist := LevelReps(n, levelinfo[i]);
        levelinfo := levelinfo[i := levelinfo[i].(replist := replist)];
      }
      forall k | 0 <= k < |levelinfo| ensures Stabilises(n, levelinfo[k], GensFrom(levelinfo, k + 1)) {
        ChainAt(n, l0, k);
        assert k + 1 < |l0| ==> SameButReps(l0[k + 1], levelinfo[k + 1]);
        SameStabilises(n, l0[k], levelinfo[k], GensFrom(l0, k + 1));
      }
    }

    method Action(p: Ptr, after: nat)
      requires PtrOk(n, p, allp[..], after)
      modifies this`calls
      ensures calls == old(calls) + [Value(n, p, allp[..], after)]
    {
      match p
      case Null => calls := calls + [Id(n)];
      case InCoset(q) => calls := calls + [q];
      case Scratch(off) => calls := calls + [allp[off..off + n]];
    }

    // Write the permutation at before, followed by r, to the scratch buffer at after.
    method WriteProduct(before: Ptr, r: Perm, after: nat)
      requires PtrOk(n, before, allp[..], after) && !before.Null? && Permutation(n, r) && after + n <= allp.Length
      modifies allp
      ensures allp[..after] == old(allp[..after])
      ensures PtrOk(n, Scratch(after), allp[..], after + n)
      ensures Value(n, Scratch(after), allp[..], after + n) == Then(Value(n, before, old(allp[..]), after), r)
    {
      ghost var buf := allp[..];
      ghost var b := Value(n, before, buf, after);
      for i := 0 to n
        invariant allp[..after] == buf[..after]
        invariant forall x :: 0 <= x < i ==> allp[after + x] == r[b[x]]
      {
        ValueKept(n, before, buf, allp[..], after);
        var x: nat;
        if before.Scratch? {
          x := allp[before.off + i];
        } else {
          x := before.p[i];
        }
        assert x == b[i];
        allp[after + i] := r[x];
      }
      ThenPermutes(n, b, r);
      assert allp[after..after + n] == Then(b, r);
    }

    // The permutation at before, followed by representative j of the level.
    method NextPtr(level: nat, j: nat, before: Ptr, after: nat, ghost b: Perm) returns (p: Ptr)
      requires Transversals(n, levelinfo) && level < |levelinfo| && j < |levelinfo[level].replist|
      requires PtrOk(n, before, allp[..], after) && b == Value(n, before, allp[..], after)
      requires after + n <= allp.Length
      modifies allp
      ensures allp[..after] == old(allp[..after])
      ensures PtrOk(n, p, allp[..], after + n)
      ensures Value(n, p, allp[..], after + n) == Extend(n, levelinfo, level + 1, b, j)
    {
      hide *;
      var cr := levelinfo[level].replist[j].rep;
      StepValue(n, levelinfo, level, b, j);
      LongerOk(n, before, allp[..], after);
      p := before;
      if before.Null? {
        NullOk(n, allp[..], after);
        if cr.Stored? {
          p := InCoset(cr.p);
          CosetValue(n, cr.p, allp[..], after + n);
        }
      } else if cr.Stored? {
        WriteProduct(before, cr.p, after);
        p := Scratch(after);
      }
    }

    // Go on with representative j of the level.
    method Block(level: nat, j: nat, before: Ptr, after: nat, ghost b: Perm)
      requires Transversals(n, levelinfo) && level < |levelinfo| && j < |levelinfo[level].replist|
      requires PtrOk(n, before, allp[..], after) && b == Value(n, before, allp[..], after)
      requires after + Room(n, level + 1) <= allp.Length
      modifies this`calls, allp
      ensures allp[..after] == old(allp[..after])
      ensures calls == old(calls) + Elements(n, levelinfo, level, Extend(n, levelinfo, level + 1, b, j))
      decreases level, 0
    {
      hide *;
      RoomNext(n, level);
      var p := NextPtr(level, j, before, after, b);
      ghost var mid := allp[..];
      if level == 0 {
        Action(p, after + n);
        NoLevels(n, levelinfo, Extend(n, levelinfo, level + 1, b, j));
      } else {
        GroupElts(level - 1, p, after + n);
      }
      ShorterPrefix(allp[..], mid, after, after + n);
    }

    // Call the action for every product of representatives of levels level, ..., 0 that
    // starts from the permutation at before.
    method GroupElts(level: nat, before: Ptr, after: nat)
      requires Transversals(n, levelinfo) && level < |levelinfo|
      requires PtrOk(n, before, allp[..], after) && after + Room(n, level + 1) <= allp.Length
      modifies this`calls, allp
      ensures allp[..after] == old(allp[..after])
      ensures calls == old(calls) + Elements(n, levelinfo, level + 1, Value(n, before, old(allp[..]), after))
      decreases level, 1
    {
      hide *;
      ghost var buf, b := allp[..], Value(n, before, allp[..], after);
      var orbsize := |levelinfo[level].replist|;
      NoBlocks(n, levelinfo, level + 1, b);
      for j := 0 to orbsize
        invariant allp[..after] == buf[..after] && PtrOk(n, before, allp[..], after)
        invariant Value(n, before, allp[..], after) == b
        invariant calls == old(calls) + ElementsUpTo(n, levelinfo, level + 1, b, j)
      {
        UpToUnfold(n, levelinfo, level + 1, b, j + 1);
        Block(level, j, before, after, b);
        ValueKept(n, before, buf, allp[..], after);
      }
      AllBlocks(n, levelinfo, level + 1, b);
    }

    // Call the action once for every element of the group, the identity first.
    method AllGroup()
      requires StabiliserChain(n, levelinfo) && Transversals(n, levelinfo)
      modifies this`calls, this`allp
      ensures old(calls) <= calls && ListsGroup(n, levelinfo, calls[|old(calls)|..])
      ensures calls[|old(calls)|..] == Elements(n, levelinfo, |levelinfo|, Id(n))
    {
      hide *;
      var depth := |levelinfo|;
      IdPermutes(n);
      ghost var calls0 := calls;
      if depth == 0 {
        NullOk(n, allp[..], 0);
        Action(Null, 0);
        NoLevels(n, levelinfo, Id(n));
      } else {
        allp := new nat[n * depth];
        RoomIs(n, depth);
        NullOk(n, allp[..], 0);
        GroupElts(depth - 1, Null, 0);
      }
      assert calls[|calls0|..] == Elements(n, levelinfo, depth, Id(n));
      ListIsGroup(n, levelinfo);
    }
  }

  lemma NullOk(n: nat, buf: seq<nat>, after: nat)
    ensures PtrOk(n, Null, buf, after) && Value(n, Null, buf, after) == Id(n)
  {
  }

  // The scratch space for k levels.
  ghost function Room(n: nat, k: nat): nat {
    if k == 0 then 0 else n + Room(n, k - 1)
  }

  lemma RoomNext(n: nat, k: nat)
    ensures Room(n, k + 1) == n + Room(n, k)
  {
  }

  lemma ShorterPrefix(a: seq<nat>, b: seq<nat>, i: nat, j: nat)
    requires i <= j <= |a| == |b| && a[..j] == b[..j]
    ensures a[..i] == b[..i]
  {
    assert a[..i] == a[..j][..i] && b[..i] == b[..j][..i];
  }

  lemma {:induction false} RoomIs(n: nat, k: nat)
    ensures Room(n, k) == n * k
  {
    if k > 0 {
      RoomIs(n, k - 1);
      assert n * k == n + n * (k - 1);
    }
  }

  lemma NoLevels(n: nat, levels: seq<Level>, b: Perm)
    requires Transversals(n, levels) && Permutation(n, b)
    ensures Elements(n, levels, 0, b) == [b]
  {
  }

  ghost predicate SameButReps(l: Level, m: Level) {
    m == l.(replist := m.replist)
  }

  lemma SameStabilises(n: nat, l: Level, m: Level, next: seq<Perm>)
    requires Stabilises(n, l, next) && SameButReps(l, m)
    ensures Stabilises(n, m, next)
  {
  }
}
