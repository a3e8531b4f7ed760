// Exact chromatic number by branch and bound over saturation tables that are changed and undone in place.
module Chromatic {
  import opened Sums
  import opened Graphs
  import opened Colouring

  ghost function Uncoloured(c: seq<int>): set<nat> {
    set v: nat | v < |c| && c[v] == -1
  }

  ghost function TwoColoured(n: nat, x: nat, y: nat): seq<int>
    requires x < n && y < n
  {
    seq(n, _ => -1)[x := 0][y := 1]
  }

  lemma TwoColouredFacts(g: Graph, x: nat, y: nat)
    requires Simple(g) && x < |g| && y < |g| && y in g[x]
    ensures Partial(g, TwoColoured(|g|, x, y), 2)
    ensures Uncoloured(TwoColoured(|g|, x, y)) == Range(|g|) - {x} - {y}
    ensures |Range(|g|) - {x} - {y}| + 2 == |g|
  {
    TwoUsed(g, x, y);
    TwoUncoloured(|g|, x, y);
  }

  lemma TwoUsed(g: Graph, x: nat, y: nat)
    requires Simple(g) && x < |g| && y < |g| && y in g[x]
    ensures Partial(g, TwoColoured(|g|, x, y), 2)
  {
    var c := TwoColoured(|g|, x, y);
    assert c[x] == 0 && c[y] == 1;
    assert Used(c, 0) && Used(c, 1);
  }

  lemma UncolouredAre(n: nat, x: nat, y: nat)
    requires x < n && y < n && x != y
    ensures Uncoloured(TwoColoured(n, x, y)) == Range(n) - {x} - {y}
  {
  }

  lemma RemoveOne(s: set<nat>, x: nat)
    requires x in s
    ensures |s - {x}| == |s| - 1
  {
  }

  lemma TwoUncoloured(n: nat, x: nat, y: nat)
    requires x < n && y < n && x != y
    ensures Uncoloured(TwoColoured(n, x, y)) == Range(n) - {x} - {y}
    ensures |Range(n) - {x} - {y}| + 2 == n
  {
    UncolouredAre(n, x, y);
    RangeCard(n);
    RemoveOne(Range(n), x);
    RemoveOne(Range(n) - {x}, y);
  }

  lemma EmptyRow(g: Graph, c: seq<int>, j: nat)
    requires j < |g| && forall v :: 0 <= v < |c| ==> c[v] == -1
    ensures Seen(g, c, j) == {} && forall i: nat :: With(g, c, j, i) == {}
  {
    forall i: nat ensures With(g, c, j, i) == {} {
    }
  }

  class Search {
    const g: Graph
    const wordsize: nat
    const a: array2<nat>             // a[j, i]: neighbours of j with colour i
    const colours1: array<set<nat>>  // colours1[k]: uncoloured vertices that see k colours
    const colourset1: array<set<nat>>
    const numcols1: array<nat>
    const color1: array<int>
    var uncoloured: set<nat>
    var minsofar: int

    ghost predicate Shape() {
      && Simple(g) && |g| <= wordsize
      && a.Length0 == |g| && a.Length1 == wordsize
      && colours1.Length == wordsize && colourset1.Length == numcols1.Length == color1.Length == |g|
      && colours1 != colourset1
    }

    // The tables of vertex j agree with the partial colouring c.
    ghost predicate RowOk(j: nat, c: seq<int>)
      requires Shape() && j < |g|
      reads a, colourset1, numcols1
    {
      && (forall i: nat :: i < wordsize ==> a[j, i] == |With(g, c, j, i)|)
      && colourset1[j] == Seen(g, c, j)
      && numcols1[j] == |Seen(g, c, j)|
    }

    ghost predicate RowsOk(c: seq<int>)
      requires Shape()
      reads this, a, colourset1, numcols1
    {
      forall j: nat :: j in uncoloured ==> j < |g| && RowOk(j, c)
    }

    ghost predicate BucketsOk()
      requires Shape()
      reads this, colours1, numcols1
    {
      forall k: nat :: k < wordsize ==> colours1[k] == Bucket(k)
    }

    ghost function Bucket(k: nat): set<nat>
      requires Shape()
      reads this, numcols1
    {
      set j | j in uncoloured && j < |g| && numcols1[j] == k
    }

    ghost predicate Valid(numcolors: nat)
      reads this, a, colours1, colourset1, numcols1, color1
    {
      && Shape()
      && Partial(g, color1[..], numcolors)
      && uncoloured == Uncoloured(color1[..])
      && RowsOk(color1[..]) && BucketsOk()
    }

    constructor (g: Graph, wordsize: nat, minsofar: int)
      requires Simple(g) && |g| <= wordsize
      ensures this.g == g && this.wordsize == wordsize && this.minsofar == minsofar
      ensures Shape() && fresh(a) && fresh(colours1) && fresh(colourset1) && fresh(numcols1) && fresh(color1)
      ensures forall j, i :: 0 <= j < |g| && 0 <= i < wordsize ==> a[j, i] == 0
      ensures forall k :: 0 <= k < wordsize ==> colours1[k] == {}
      ensures forall j :: 0 <= j < |g| ==> colourset1[j] == {} && numcols1[j] == 0 && color1[j] == -1
    {
      this.g, this.wordsize, this.minsofar := g, wordsize, minsofar;
      uncoloured := {};
      a := new nat[|g|, wordsize]((j, i) => 0);
      colours1 := new set<nat>[wordsize](k => {});
      colourset1 := new set<nat>[|g|](j => {});
      numcols1 := new nat[|g|](j => 0);
      color1 := new int[|g|](j => -1);
    }

    // Colour two adjacent vertices 0 and 1, with tables still blank for the others.
    method SetUp(maxvert: nat, maxvert2: nat, ghost none: seq<int>)
      requires Shape() && maxvert < |g| && maxvert2 < |g| && maxvert2 in g[maxvert] && 2 < wordsize
      requires none == seq(|g|, _ => -1)
      requires forall j, i :: 0 <= j < |g| && 0 <= i < wordsize ==> a[j, i] == 0
      requires forall k :: 0 <= k < wordsize ==> colours1[k] == {}
      requires forall j :: 0 <= j < |g| ==> colourset1[j] == {} && numcols1[j] == 0 && color1[j] == -1
      modifies this`uncoloured, colours1, colourset1, numcols1, color1
      ensures color1[..] == none[maxvert := 0][maxvert2 := 1]
      ensures uncoloured == Range(|g|) - {maxvert} - {maxvert2}
      ensures BucketsOk() && RowsOk(none)
    {
      color1[maxvert] := 0;
      color1[maxvert2] := 1;
      uncoloured := Range(|g|) - {maxvert} - {maxvert2};
      colours1[0] := uncoloured;
      colourset1[maxvert] := {1};
      colourset1[maxvert2] := {0};
      numcols1[maxvert] := 1;
      numcols1[maxvert2] := 1;
      forall j: nat | j in uncoloured ensures j < |g| && RowOk(j, none) {
        EmptyRow(g, none, j);
      }
    }

    method Begin(maxvert: nat, maxvert2: nat)
      requires Shape() && maxvert < |g| && maxvert2 < |g| && maxvert2 in g[maxvert] && 2 < wordsize
      requires forall j, i :: 0 <= j < |g| && 0 <= i < wordsize ==> a[j, i] == 0
      requires forall k :: 0 <= k < wordsize ==> colours1[k] == {}
      requires forall j :: 0 <= j < |g| ==> colourset1[j] == {} && numcols1[j] == 0 && color1[j] == -1
      modifies this`uncoloured, a, colours1, colourset1, numcols1, color1
      ensures Valid(2) && color1[..] == TwoColoured(|g|, maxvert, maxvert2)
      ensures |uncoloured| + 2 == |g|
    {
      ghost var none: seq<int> := seq(|g|, _ => -1);
      ghost var c1 := none[maxvert := 0];
      ghost var c2 := c1[maxvert2 := 1];
      SetUp(maxvert, maxvert2, none);
      TwoColouredFacts(g, maxvert, maxvert2);
      assert c2 == TwoColoured(|g|, maxvert, maxvert2);
      SeenFew(c1, c2);
      hide RowOk, BucketsOk, TwoColoured, Seen;
      UpdateA1(g[maxvert] * uncoloured, 0, none, maxvert);
      UpdateA1(g[maxvert2] * uncoloured, 1, c1, maxvert2);
    }

    lemma SeenFew(c1: seq<int>, c2: seq<int>)
      requires Shape() && |c1| == |c2| == |g| && 2 < wordsize
      requires forall v :: 0 <= v < |g| ==> c1[v] < 1 && c2[v] < 2
      ensures forall j: nat :: j < |g| ==> |Seen(g, c1, j)| < wordsize && |Seen(g, c2, j)| < wordsize
    {
      forall j: nat | j < |g| ensures |Seen(g, c1, j)| < wordsize && |Seen(g, c2, j)| < wordsize {
        SeenBelow(c1, 1, j);
        SeenBelow(c2, 2, j);
      }
    }

    // Move vertex j from the bucket of k colours to the next one up or down.
    method MoveBucket(j: nat, up: bool)
      requires Shape() && BucketsOk() && j in uncoloured && j < |g|
      requires if up then numcols1[j] + 1 < wordsize else 0 < numcols1[j] < wordsize
      modifies colours1, numcols1
      ensures BucketsOk()
      ensures numcols1[j] == if up then old(numcols1[j]) + 1 else old(numcols1[j]) - 1
      ensures forall h :: 0 <= h < |g| && h != j ==> numcols1[h] == old(numcols1[h])
    {
      var k := numcols1[j];
      var k2 := if up then k + 1 else k - 1;
      colours1[k] := colours1[k] - {j};
      numcols1[j] := k2;
      colours1[k2] := colours1[k2] + {j};
    }

    // The neighbour j of a vertex that takes the colour.
    method Gain(j: nat, colour: nat, ghost c: seq<int>, ghost v: nat)
      requires Shape() && BucketsOk() && j in uncoloured && j < |g| && colour < wordsize
      requires |c| == |g| && v < |g| && c[v] == -1 && v in g[j] && RowOk(j, c)
      requires |Seen(g, c[v := colour], j)| < wordsize
      modifies a, colours1, colourset1, numcols1
      ensures BucketsOk() && RowOk(j, c[v := colour])
      ensures forall h: nat :: h < |g| && h != j ==>
        colourset1[h] == old(colourset1[h]) && numcols1[h] == old(numcols1[h])
      ensures forall h: nat, i: nat :: h < |g| && i < wordsize && h != j ==> a[h, i] == old(a[h, i])
    {
      RowStep(g, c, v, colour, j);
      a[j, colour] := a[j, colour] + 1;
      if a[j, colour] == 1 {
        MoveBucket(j, true);
        colourset1[j] := colourset1[j] + {colour};
      }
    }

    // The neighbour j of a vertex that gives the colour up again.
    method Lose(j: nat, colour: nat, ghost c: seq<int>, ghost v: nat)
      requires Shape() && BucketsOk() && j in uncoloured && j < |g| && colour < wordsize
      requires |c| == |g| && v < |g| && c[v] == -1 && v in g[j] && RowOk(j, c[v := colour])
      requires |Seen(g, c[v := colour], j)| < wordsize
      modifies a, colours1, colourset1, numcols1
      ensures BucketsOk() && RowOk(j, c)
      ensures forall h: nat :: h < |g| && h != j ==>
        colourset1[h] == old(colourset1[h]) && numcols1[h] == old(numcols1[h])
      ensures forall h: nat, i: nat :: h < |g| && i < wordsize && h != j ==> a[h, i] == old(a[h, i])
    {
      RowStep(g, c, v, colour, j);
      a[j, colour] := a[j, colour] - 1;
      if a[j, colour] == 0 {
        MoveBucket(j, false);
        colourset1[j] := colourset1[j] - {colour};
      }
    }

    // Rows of the vertices outside the set are as they were.
    twostate predicate RowsKept(inside: set<nat>)
      requires Shape()
      reads a, colourset1, numcols1
    {
      forall h: nat :: h < |g| && h !in inside ==> RowKept(h)
    }

    twostate predicate RowKept(h: nat)
      requires Shape() && h < |g|
      reads a, colourset1, numcols1
    {
      && colourset1[h] == old(colourset1[h]) && numcols1[h] == old(numcols1[h])
      && forall i: nat :: i < wordsize ==> a[h, i] == old(a[h, i])
    }

    // The uncoloured neighbours of a vertex v that takes the colour: c is the colouring before.
    method UpdateA1(uncolnbr: set<nat>, colour: nat, ghost c: seq<int>, ghost v: nat)
      requires Shape() && BucketsOk() && RowsOk(c)
      requires |c| == |g| && v < |g| && c[v] == -1 && v !in uncoloured && colour < wordsize
      requires uncolnbr == g[v] * uncoloured
      requires forall j :: j in uncoloured ==> j < |g| && |Seen(g, c[v := colour], j)| < wordsize
      modifies a, colours1, colourset1, numcols1
      ensures BucketsOk() && RowsOk(c[v := colour]) && RowsKept(uncoloured)
    {
      var w := uncolnbr;
      ghost var c2 := c[v := colour];
      forall j | j in uncoloured && j !in w ensures RowOk(j, c2) {
        RowStep(g, c, v, colour, j);
      }
      while w != {}
        invariant w <= uncolnbr && BucketsOk() && RowsKept(uncoloured)
        invariant forall j :: j in w ==> RowOk(j, c)
        invariant forall j :: j in uncoloured && j !in w ==> RowOk(j, c2)
        decreases |w|
      {
        var j :| j in w;
        w := w - {j};
        label before:
        Gain(j, colour, c, v);
        forall h | h in uncoloured && h != j ensures h in w ==> RowOk(h, c)
          ensures h !in w ==> RowOk(h, c2)
        {
          assert h in w ==> old@before(RowOk(h, c));
          assert h !in w ==> old@before(RowOk(h, c2));
        }
      }
    }

    // The same neighbours when v gives the colour up.
    method DowndateA1(uncolnbr: set<nat>, colour: nat, ghost c: seq<int>, ghost v: nat)
      requires Shape() && BucketsOk() && |c| == |g| && v < |g| && c[v] == -1 && colour < wordsize
      requires uncolnbr == g[v] * uncoloured
      requires forall j :: j in uncoloured ==> j < |g| && |Seen(g, c[v := colour], j)| < wordsize
      requires forall j :: j in uncoloured && j != v ==> RowOk(j, c[v := colour])
      requires RowOk(v, c)
      modifies a, colours1, colourset1, numcols1
      ensures BucketsOk() && RowsOk(c) && RowsKept(uncoloured - {v})
    {
      var w := uncolnbr;
      ghost var c2 := c[v := colour];
      forall j | j in uncoloured && j !in w ensures RowOk(j, c) {
        RowStep(g, c, v, colour, j);
      }
      while w != {}
        invariant w <= uncolnbr && BucketsOk() && RowsKept(uncoloured - {v})
        invariant forall j :: j in w ==> RowOk(j, c2)
        invariant forall j :: j in uncoloured && j !in w ==> RowOk(j, c)
        decreases |w|
      {
        var j :| j in w;
        w := w - {j};
        label before:
        Lose(j, colour, c, v);
        forall h | h in uncoloured && h != j ensures h in w ==> RowOk(h, c2)
          ensures h !in w ==> RowOk(h, c)
        {
          assert h in w ==> old@before(RowOk(h, c2));
          assert h !in w ==> old@before(RowOk(h, c));
        }
      }
    }

    // Seen colours are used colours.
    lemma SeenBelow(c: seq<int>, k: nat, j: nat)
      requires Shape() && |c| == |g| && j < |g| && forall v :: 0 <= v < |g| ==> c[v] < k
      ensures forall x :: x in Seen(g, c, j) ==> x < k
      ensures |Seen(g, c, j)| <= k
    {
      SubsetCard(Seen(g, c, j), Range(k));
      RangeCard(k);
    }

    method Assign(v: nat, i: nat, ghost k: nat)
      requires Valid(k) && v in uncoloured && v < |g| && i <= k && i !in colourset1[v]
      requires (if i == k then k + 1 else k) < wordsize
      modifies this`uncoloured, a, colours1, colourset1, numcols1, color1
      ensures Valid(if i == k then k + 1 else k)
      ensures color1[..] == old(color1[..])[v := i] && uncoloured == old(uncoloured) - {v}
      ensures RowsKept(uncoloured)
    {
      ghost var c := color1[..];
      ghost var k2 := if i == k then k + 1 else k;
      PartialExtend(g, c, k, v, i);
      SeenBelow(c, k, v);
      color1[v] := i;
      uncoloured := uncoloured - {v};
      colours1[numcols1[v]] := colours1[numcols1[v]] - {v};
      assert color1[..] == c[v := i];
      assert uncoloured == Uncoloured(c[v := i]);
      forall j | j in uncoloured ensures j < |g| && |Seen(g, c[v := i], j)| < wordsize && RowOk(j, c) {
        SeenBelow(c[v := i], k2, j);
        assert old(RowOk(j, c));
      }
      UpdateA1(g[v] * uncoloured, i, c, v);
    }

    method Unassign(v: nat, i: nat, ghost k: nat, ghost c: seq<int>)
      requires Shape() && |c| == |g| && v < |g| && c[v] == -1 && i <= k && i !in Seen(g, c, v)
      requires Partial(g, c, k) && (if i == k then k + 1 else k) < wordsize
      requires color1[..] == c[v := i] && uncoloured == Uncoloured(c[v := i])
      requires RowsOk(c[v := i]) && BucketsOk() && RowOk(v, c)
      modifies this`uncoloured, a, colours1, colourset1, numcols1, color1
      ensures Valid(k) && color1[..] == c && uncoloured == old(uncoloured) + {v}
      ensures RowsKept(uncoloured - {v})
    {
      ghost var k2 := if i == k then k + 1 else k;
      SeenBelow(c, k, v);
      color1[v] := -1;
      uncoloured := uncoloured + {v};
      colours1[numcols1[v]] := colours1[numcols1[v]] + {v};
      assert color1[..] == c;
      assert uncoloured == Uncoloured(c);
      PartialExtend(g, c, k, v, i);
      forall j | j in uncoloured
        ensures j < |g| && |Seen(g, c[v := i], j)| < wordsize && (j != v ==> RowOk(j, c[v := i]))
      {
        SeenBelow(c[v := i], k2, j);
        assert j != v ==> old(RowOk(j, c[v := i]));
      }
      assert RowOk(v, c) by { assert old(RowOk(v, c)); }
      DowndateA1(g[v] * uncoloured, i, c, v);
    }

    // Every proper colouring that extends c has at least m colours.
    ghost predicate Complete(c: seq<int>, m: int) {
      forall f: seq<int>, j: int :: Extends(f, c) && Colours(g, f, j) ==> m <= j
    }

    // The same for the colourings that give v a colour below i.
    ghost predicate BranchesDone(c: seq<int>, v: nat, i: int, m: int)
      requires v < |c|
    {
      forall f: seq<int>, j: int :: Extends(f, c) && Colours(g, f, j) && f[v] < i ==> m <= j
    }

    lemma BranchSkipped(c: seq<int>, v: nat, i: nat, m: int)
      requires v < |c| == |g| && Simple(g) && i in Seen(g, c, v) && BranchesDone(c, v, i, m)
      ensures BranchesDone(c, v, i + 1, m)
    {
      var w :| w in g[v] && w < |c| && c[w] >= 0 && c[w] == i;
      forall f: seq<int>, j: int | Extends(f, c) && Colours(g, f, j) && f[v] < i + 1 ensures m <= j {
        assert f[w] == i && f[v] != f[w];
      }
    }

    lemma BranchTaken(c: seq<int>, v: nat, i: nat, m: int, m2: int)
      requires v < |c| == |g| && c[v] == -1 && m2 <= m
      requires BranchesDone(c, v, i, m) && Complete(c[v := i], m2)
      ensures BranchesDone(c, v, i + 1, m2)
    {
      forall f: seq<int>, j: int | Extends(f, c) && Colours(g, f, j) && f[v] < i + 1 ensures m2 <= j {
        if f[v] == i { assert Extends(f, c[v := i]); }
      }
    }

    // Branches 0..k cover everything, because the colours from k on are interchangeable.
    lemma AllBranchesDone(c: seq<int>, k: nat, v: nat, m: int)
      requires Simple(g) && Partial(g, c, k) && v < |g| && c[v] == -1
      requires BranchesDone(c, v, k + 1, m)
      ensures Complete(c, m)
    {
      forall f: seq<int>, j: int | Extends(f, c) && Colours(g, f, j) ensures m <= j {
        var f2 := BranchComplete(g, f, c, k, v, j);
      }
    }

    // The cut-off: no branch from i on can beat m.
    lemma CutOff(c: seq<int>, k: nat, v: nat, i: nat, m: int)
      requires Simple(g) && Partial(g, c, k) && v < |g| && c[v] == -1 && 0 < k && i <= k
      requires BranchesDone(c, v, i, m)
      requires m <= if i == k then k + 1 else k
      ensures Complete(c, m)
    {
      forall f: seq<int>, j: int | Extends(f, c) && Colours(g, f, j) ensures m <= j {
        ExtensionNeeds(g, f, c, k, j);
        if f[v] >= i && i == k { assert f[v] < j; }
      }
    }

    // The greatest number of colours that an uncoloured vertex sees.
    method MostColoursSeen(numcolors: nat) returns (maxnumcols: nat)
      requires Valid(numcolors) && numcolors < wordsize && uncoloured != {}
      ensures maxnumcols < wordsize && colours1[maxnumcols] != {}
      ensures forall j :: j in uncoloured ==> j < |g| && numcols1[j] <= maxnumcols
    {
      forall j | j in uncoloured ensures j < |g| && numcols1[j] <= numcolors {
        assert RowOk(j, color1[..]);
        SeenBelow(color1[..], numcolors, j);
      }
      maxnumcols := numcolors;
      ghost var some := Pick(uncoloured);
      while colours1[maxnumcols] == {}
        invariant 0 <= maxnumcols <= numcolors
        invariant forall j :: j in uncoloured ==> j < |g| && numcols1[j] <= maxnumcols
        decreases maxnumcols
      {
        assert Bucket(maxnumcols) == {};
        assert forall j :: j in uncoloured && numcols1[j] == maxnumcols ==> j in Bucket(maxnumcols);
        assert numcols1[some] < maxnumcols;
        maxnumcols := maxnumcols - 1;
      }
    }

    // A vertex with the most colours around it, and among those with the most uncoloured neighbours.
    method ChooseVertex(numcolors: nat) returns (vtocolour: nat)
      requires Valid(numcolors) && numcolors < wordsize && uncoloured != {}
      ensures vtocolour in uncoloured && vtocolour < |g|
      ensures forall j :: j in uncoloured ==> j < |g| && numcols1[j] <= numcols1[vtocolour]
      ensures forall j :: j in uncoloured && j < |g| && numcols1[j] == numcols1[vtocolour] ==>
        |g[j] * uncoloured| <= |g[vtocolour] * uncoloured|
    {
      var maxnumcols := MostColoursSeen(numcolors);
      ghost var bucket := Bucket(maxnumcols);
      assert colours1[maxnumcols] == bucket;
      vtocolour := MostUncoloured(colours1[maxnumcols]);
      assert forall j :: j in uncoloured && j < |g| && numcols1[j] == maxnumcols ==> j in bucket;
    }

    method MostUncoloured(candidates: set<nat>) returns (best: nat)
      requires candidates != {} && forall j :: j in candidates ==> j < |g|
      ensures best in candidates
      ensures forall j :: j in candidates ==> |g[j] * uncoloured| <= |g[best] * uncoloured|
    {
      best := 0;
      var maxnay, w := -1, candidates;
      while w != {}
        invariant w <= candidates && maxnay >= -1
        invariant maxnay == -1 ==> w == candidates
        invariant maxnay >= 0 ==> best in candidates && maxnay == |g[best] * uncoloured|
        invariant forall j :: j in candidates && j !in w ==> |g[j] * uncoloured| <= maxnay
        decreases |w|
      {
        var j :| j in w;
        w := w - {j};
        var numnay := |g[j] * uncoloured|;
        if numnay > maxnay {
          best, maxnay := j, numnay;
        }
      }
    }

    method ColorNext1(numsofar: nat, numcolors: nat, minchi: int)
      requires Valid(numcolors) && 0 < numcolors < wordsize && minsofar <= wordsize
      requires |uncoloured| + numsofar == |g|
      modifies this`uncoloured, this`minsofar, a, colours1, colourset1, numcols1, color1
      ensures minsofar <= old(minsofar)
      ensures minsofar < old(minsofar) ==> Colourable(g, minsofar)
      ensures minsofar > minchi ==>
        && Valid(numcolors) && color1[..] == old(color1[..]) && uncoloured == old(uncoloured)
        && RowsKept(uncoloured) && Complete(color1[..], minsofar)
      decreases |uncoloured|, 1
    {
      ghost var c := color1[..];
      if numsofar == |g| {
        assert uncoloured == {};
        FullyColoured(c, numcolors);
        if numcolors < minsofar { minsofar := numcolors; }
        return;
      }
      var vtocolour := ChooseVertex(numcolors);
      assert RowOk(vtocolour, c) && c[vtocolour] == -1;
      ghost var u0 := uncoloured;
      hide Complete, BranchesDone, Simple, Partial;
      BranchesStart(c, vtocolour, minsofar);
      for i := 0 to numcolors + 1
        invariant Valid(numcolors) && color1[..] == c && uncoloured == u0 && RowsKept(u0)
        invariant colourset1[vtocolour] == Seen(g, c, vtocolour)
        invariant minsofar <= old(minsofar) && (minsofar < old(minsofar) ==> Colourable(g, minsofar))
        invariant BranchesDone(c, vtocolour, i, minsofar)
      {
        if i in colourset1[vtocolour] {
          BranchSkipped(c, vtocolour, i, minsofar);
        } else {
          var newnumcols := if i == numcolors then numcolors + 1 else numcolors;
          if newnumcols >= minsofar {
            CutOff(c, numcolors, vtocolour, i, minsofar);
            return;
          }
          ghost var m := minsofar;
          TryColour(vtocolour, i, numsofar, numcolors, newnumcols, minchi);
          if minsofar <= minchi { return; }
          BranchTaken(c, vtocolour, i, m, minsofar);
          assert RowOk(vtocolour, c);
        }
      }
      AllBranchesDone(c, numcolors, vtocolour, minsofar);
    }

    // One branch: colour v with i, search on, and restore everything unless the search is over.
    method TryColour(v: nat, i: nat, numsofar: nat, numcolors: nat, newnumcols: nat, minchi: int)
      requires Valid(numcolors) && 0 < numcolors && v in uncoloured && v < |g| && color1[v] == -1
      requires colourset1[v] == Seen(g, color1[..], v)
      requires i <= numcolors && i !in colourset1[v]
      requires newnumcols == (if i == numcolors then numcolors + 1 else numcolors)
      requires newnumcols < minsofar <= wordsize && |uncoloured| + numsofar == |g|
      modifies this`uncoloured, this`minsofar, a, colours1, colourset1, numcols1, color1
      ensures minsofar <= old(minsofar)
      ensures minsofar < old(minsofar) ==> Colourable(g, minsofar)
      ensures minsofar > minchi ==>
        && Valid(numcolors) && color1[..] == old(color1[..]) && uncoloured == old(uncoloured)
        && RowsKept(uncoloured) && Complete(color1[..][v := i], minsofar)
      decreases |uncoloured|, 0
    {
      ghost var c := color1[..];
      assert RowOk(v, c);
      Assign(v, i, numcolors);
      assert RowKept(v) && RowOk(v, c);
      hide Complete, Simple;
      label searching:
      ColorNext1(numsofar + 1, newnumcols, minchi);
      if minsofar <= minchi { return; }
      assert RowKept@searching(v) && RowOk(v, c);
      Unassign(v, i, numcolors, c);
    }

    lemma BranchesStart(c: seq<int>, v: nat, m: int)
      requires v < |c| == |g|
      ensures BranchesDone(c, v, 0, m)
    {
    }

    lemma FullyColoured(c: seq<int>, k: nat)
      requires Partial(g, c, k) && Uncoloured(c) == {} && 0 < k
      ensures Colours(g, c, k) && forall f: seq<int>, j: int :: Extends(f, c) && Colours(g, f, j) ==> k <= j
    {
      forall v: nat | v < |c| ensures c[v] >= 0 {
        assert v !in Uncoloured(c);
      }
      forall f: seq<int>, j: int | Extends(f, c) && Colours(g, f, j) ensures k <= j {
        ExtensionNeeds(g, f, c, k, j);
      }
    }
  }

  // ----- the driver -----

  method MaxDegreeVertex(g: Graph) returns (maxvert: nat, maxdeg: int)
    ensures -1 <= maxdeg && (maxdeg == -1 <==> |g| == 0)
    ensures |g| > 0 ==> maxvert < |g| && maxdeg == |g[maxvert]|
    ensures forall v :: 0 <= v < |g| ==> |g[v]| <= maxdeg
  {
    maxvert, maxdeg := 0, -1;
    for i := 0 to |g|
      invariant -1 <= maxdeg && (maxdeg == -1 <==> i == 0)
      invariant i > 0 ==> maxvert < i && maxdeg == |g[maxvert]|
      invariant forall v :: 0 <= v < i ==> |g[v]| <= maxdeg
    {
      var d := |g[i]|;
      if d > maxdeg { maxvert, maxdeg := i, d; }
    }
  }

  // The neighbour of greatest degree.
  method MaxDegreeNeighbour(g: Graph, v: nat) returns (best: nat)
    requires Simple(g) && v < |g| && g[v] != {}
    ensures best in g[v] && forall j :: j in g[v] ==> j < |g| && best < |g| && |g[j]| <= |g[best]|
  {
    best := 0;
    var maxdeg2, w := 0, g[v];
    while w != {}
      invariant w <= g[v] && maxdeg2 >= 0
      invariant maxdeg2 == 0 ==> w == g[v]
      invariant maxdeg2 > 0 ==> best in g[v] && best < |g| && maxdeg2 == |g[best]|
      invariant forall j :: j in g[v] && j !in w ==> j < |g| && |g[j]| <= maxdeg2
      decreases |w|
    {
      var i :| i in w;
      w := w - {i};
      assert v in g[i];
      assert |g[i]| > 0;
      if |g[i]| > maxdeg2 { best, maxdeg2 := i, |g[i]|; }
    }
  }

  lemma SmallDegree(g: Graph, maxvert: nat, maxdeg: int)
    requires Simple(g) && -1 <= maxdeg <= 1 && (maxdeg == -1 <==> |g| == 0)
    requires |g| > 0 ==> maxvert < |g| && maxdeg == |g[maxvert]|
    requires forall v :: 0 <= v < |g| ==> |g[v]| <= maxdeg
    ensures ChromaticNumber(g, maxdeg + 1)
  {
    if maxdeg == -1 {
      assert Colours(g, [], 0);
      forall j: int | Colourable(g, j) ensures 0 <= j {
      }
    } else {
      GreedyBound(g, maxdeg);
      forall j: int | Colourable(g, j) ensures maxdeg + 1 <= j {
        var f :| Colours(g, f, j);
        assert 0 <= f[maxvert] < j;
        if maxdeg == 1 {
          var w: nat := Pick(g[maxvert]);
          assert f[w] != f[maxvert];
        }
      }
    }
  }

  // ColourSearch was complete from two coloured neighbours on, so it was complete.
  lemma RootComplete(g: Graph, x: nat, y: nat, m: int)
    requires Simple(g) && x < |g| && y < |g| && y in g[x]
    requires forall f: seq<int>, j: int :: Extends(f, TwoColoured(|g|, x, y)) && Colours(g, f, j) ==> m <= j
    ensures forall j: int :: Colourable(g, j) ==> m <= j
  {
    forall j: int | Colourable(g, j) ensures m <= j {
      var f :| Colours(g, f, j);
      var f2 := NormaliseEdge(g, f, j, x, y);
      assert Extends(f2, TwoColoured(|g|, x, y));
    }
  }

  lemma MoreColours(g: Graph, k: int, j: int)
    requires Colourable(g, k) && k <= j
    ensures Colourable(g, j)
  {
    var f :| Colours(g, f, k);
    assert Colours(g, f, j);
  }

  // What the returned value r means for the interval minchi..maxchi + 1.
  ghost predicate IntervalContract(g: Graph, minchi: int, maxchi: int, r: int) {
    && minchi <= r <= maxchi + 1
    && (r == minchi ==> Colourable(g, minchi))
    && (minchi < r <= maxchi ==> ChromaticNumber(g, r))
    && (r == maxchi + 1 ==> forall j: int :: Colourable(g, j) ==> maxchi + 1 <= j)
  }

  method ChromaticNumber2(g: Graph, minchi: int, maxchi: int, wordsize: nat) returns (r: int)
    requires Simple(g) && |g| <= wordsize && minchi <= maxchi
    ensures IntervalContract(g, minchi, maxchi, r)
  {
    var maxvert, maxdeg := MaxDegreeVertex(g);
    if maxdeg <= 1 {
      var chi := maxdeg + 1;
      SmallDegree(g, maxvert, maxdeg);
      if chi <= minchi {
        MoreColours(g, chi, minchi);
        return minchi;
      } else if chi > maxchi {
        return maxchi + 1;
      }
      return chi;
    }
    DegreeBelowOrder(g, maxvert);
    GreedyBound(g, maxdeg);
    var minsofar := if wordsize < maxdeg + 1 then wordsize else maxdeg + 1;
    if minsofar > maxchi + 1 { minsofar := maxchi + 1; }
    var search := new Search(g, wordsize, minsofar);
    var maxvert2 := MaxDegreeNeighbour(g, maxvert);
    search.Begin(maxvert, maxvert2);
    search.ColorNext1(2, 2, minchi);
    var found := search.minsofar;
    if found > minchi { RootComplete(g, maxvert, maxvert2, found); }
    if found <= maxchi && found <= minchi {
      MoreColours(g, found, minchi);
    }
    if found < minchi {
      return minchi;
    } else if found > maxchi {
      return maxchi + 1;
    }
    return found;
  }

  lemma DegreeBelowOrder(g: Graph, v: nat)
    requires Simple(g) && v < |g|
    ensures |g[v]| < |g|
  {
    RangeCard(|g|);
    assert forall w: nat :: w in g[v] ==> w in Range(|g|) - {v};
    SubsetCard<nat>(g[v], Range(|g|) - {v});
  }
}
