// Proper colourings, partial colourings and the renaming of unused colours.
module Colouring {
  import opened Sums
  import opened Graphs

  // Undirected and without loops.
  ghost predicate Simple(g: Graph) {
    && (forall u: nat, v: nat :: u < |g| && v in g[u] ==> v < |g| && v != u)
    && (forall u: nat, v: nat :: u < |g| && v < |g| && v in g[u] ==> u in g[v])
  }

  // f is a proper colouring with colours 0..k-1.
  ghost predicate Colours(g: Graph, f: seq<int>, k: int) {
    && |f| == |g| && 0 <= k
    && (forall v :: 0 <= v < |g| ==> 0 <= f[v] < k)
    && (forall u: nat, v: nat :: u < |g| && v < |g| && v in g[u] ==> f[u] != f[v])
  }

  ghost predicate Colourable(g: Graph, k: int) {
    exists f: seq<int> :: Colours(g, f, k)
  }

  ghost predicate ChromaticNumber(g: Graph, k: int) {
    Colourable(g, k) && forall j: int :: Colourable(g, j) ==> k <= j
  }

  // A partial colouring: -1 is "uncoloured"; exactly the colours 0..k-1 are used, properly.
  ghost predicate Partial(g: Graph, c: seq<int>, k: nat) {
    && |c| == |g|
    && (forall v :: 0 <= v < |g| ==> -1 <= c[v] < k)
    && (forall i: nat :: i < k ==> Used(c, i))
    && (forall u: nat, v: nat :: u < |g| && v < |g| && v in g[u] && c[u] >= 0 ==> c[u] != c[v])
  }

  ghost predicate Used(c: seq<int>, i: nat) {
    exists v :: 0 <= v < |c| && c[v] == i
  }

  ghost predicate Extends(f: seq<int>, c: seq<int>) {
    |f| == |c| && forall v :: 0 <= v < |c| && c[v] >= 0 ==> f[v] == c[v]
  }

  // The colours on the neighbours of v.
  ghost function Seen(g: Graph, c: seq<int>, v: nat): set<nat>
    requires v < |g|
  {
    ColoursOf(c, g[v])
  }

  ghost function ColoursOf(c: seq<int>, s: set<nat>): set<nat> {
    set w | w in s && w < |c| && c[w] >= 0 :: c[w]
  }

  // The neighbours of v with colour i.
  ghost function With(g: Graph, c: seq<int>, v: nat, i: int): set<nat>
    requires v < |g|
  {
    set w | w in g[v] && w < |c| && c[w] == i
  }

  lemma SeenGrows(g: Graph, c: seq<int>, v: nat, i: nat, j: nat)
    requires v < |c| && c[v] == -1 && j < |g| && v in g[j]
    ensures Seen(g, c[v := i], j) == Seen(g, c, j) + {i}
  {
    var c2 := c[v := i];
    forall x | x in Seen(g, c, j) ensures x in Seen(g, c2, j) {
      var w :| w in g[j] && w < |c| && c[w] >= 0 && c[w] == x;
      assert c2[w] == x;
    }
    assert c2[v] in Seen(g, c2, j);
  }

  // What colouring v with i changes for another vertex j.
  lemma RowStep(g: Graph, c: seq<int>, v: nat, i: nat, j: nat)
    requires v < |c| && c[v] == -1 && j < |g|
    ensures var c2 := c[v := i];
            && (forall i2: nat :: i2 != i || v !in g[j] ==> With(g, c2, j, i2) == With(g, c, j, i2))
            && (v !in g[j] ==> Seen(g, c2, j) == Seen(g, c, j))
            && (v in g[j] ==> |With(g, c2, j, i)| == |With(g, c, j, i)| + 1)
            && (v in g[j] && |With(g, c, j, i)| == 0 ==>
                  i !in Seen(g, c, j) && Seen(g, c2, j) == Seen(g, c, j) + {i}
                    && |Seen(g, c2, j)| == |Seen(g, c, j)| + 1)
            && (v in g[j] && |With(g, c, j, i)| > 0 ==> Seen(g, c2, j) == Seen(g, c, j))
  {
    var c2 := c[v := i];
    forall i2: nat | i2 != i || v !in g[j] ensures With(g, c2, j, i2) == With(g, c, j, i2) {
    }
    if v in g[j] {
      assert With(g, c2, j, i) == With(g, c, j, i) + {v};
      SeenGrows(g, c, v, i, j);
      if |With(g, c, j, i)| > 0 {
        var w := Pick(With(g, c, j, i));
        assert c[w] in Seen(g, c, j);
        assert Seen(g, c, j) + {i} == Seen(g, c, j);
      } else {
        assert forall w :: w in g[j] && w < |c| ==> w !in With(g, c, j, i);
      }
    }
  }

  // ----- exchanging two colours -----

  ghost function Swap(f: seq<int>, x: int, y: int): seq<int> {
    seq(|f|, v requires 0 <= v < |f| => if f[v] == x then y else if f[v] == y then x else f[v])
  }

  lemma SwapColours(g: Graph, f: seq<int>, k: int, x: int, y: int)
    requires Colours(g, f, k) && 0 <= x < k && 0 <= y < k
    ensures Colours(g, Swap(f, x, y), k)
  {
  }

  // Colours not used by c can be exchanged without losing the extension.
  lemma SwapExtends(g: Graph, f: seq<int>, c: seq<int>, k: nat, x: int, y: int)
    requires Partial(g, c, k) && Extends(f, c) && k <= x && k <= y
    ensures Extends(Swap(f, x, y), c)
  {
  }

  // A colouring that extends c has at least as many colours.
  lemma ExtensionNeeds(g: Graph, f: seq<int>, c: seq<int>, k: nat, j: int)
    requires Partial(g, c, k) && Extends(f, c) && Colours(g, f, j)
    ensures k > 0 ==> k <= j
  {
    if k > 0 {
      assert Used(c, k - 1);
    }
  }

  // A vertex can be given any colour not seen, up to the first unused one.
  lemma PartialExtend(g: Graph, c: seq<int>, k: nat, v: nat, i: nat)
    requires Simple(g) && Partial(g, c, k) && v < |g| && c[v] == -1
    requires i <= k && i !in Seen(g, c, v)
    ensures Partial(g, c[v := i], if i == k then k + 1 else k)
  {
    var c2 := c[v := i];
    forall j: nat | j < (if i == k then k + 1 else k) ensures Used(c2, j) {
      if j == k {
        assert c2[v] == j;
      } else {
        assert Used(c, j);
        var w :| 0 <= w < |c| && c[w] == j;
        assert c2[w] == j;
      }
    }
    forall u: nat, w: nat | u < |g| && w < |g| && w in g[u] && c2[u] >= 0 ensures c2[u] != c2[w] {
      if u == v {
        assert c[w] >= 0 ==> c[w] in Seen(g, c, v);
      } else if w == v {
        assert u in g[v];
        assert c[u] in Seen(g, c, v);
      }
    }
  }

  // Every extension colours v with a seen-free colour; renaming makes it at most the first unused one.
  lemma BranchComplete(g: Graph, f: seq<int>, c: seq<int>, k: nat, v: nat, j: int) returns (f2: seq<int>)
    requires Simple(g) && Partial(g, c, k) && v < |g| && c[v] == -1
    requires Extends(f, c) && Colours(g, f, j)
    ensures Extends(f2, c) && Colours(g, f2, j)
    ensures 0 <= f2[v] <= k && f2[v] !in Seen(g, c, v)
    ensures f[v] < k ==> f2 == f
    ensures Extends(f2, c[v := f2[v]])
  {
    if f[v] <= k {
      f2 := f;
    } else {
      SwapColours(g, f, j, f[v], k);
      SwapExtends(g, f, c, k, f[v], k);
      f2 := Swap(f, f[v], k);
    }
  }

  // A colouring can be renamed so that two adjacent vertices get colours 0 and 1.
  lemma NormaliseEdge(g: Graph, f: seq<int>, k: int, x: nat, y: nat) returns (f2: seq<int>)
    requires Simple(g) && Colours(g, f, k) && x < |g| && y < |g| && y in g[x]
    ensures Colours(g, f2, k) && f2[x] == 0 && f2[y] == 1
  {
    SwapColours(g, f, k, f[x], 0);
    var f1 := Swap(f, f[x], 0);
    assert f1[x] != f1[y];
    SwapColours(g, f1, k, f1[y], 1);
    f2 := Swap(f1, f1[y], 1);
  }

  // ----- greedy bound -----

  ghost predicate PrefixColours(g: Graph, f: seq<int>, k: nat) {
    && |f| <= |g|
    && (forall v :: 0 <= v < |f| ==> 0 <= f[v] < k)
    && (forall u: nat, v: nat :: u < |f| && v < |f| && v in g[u] ==> f[u] != f[v])
  }

  lemma {:induction false} ColoursOfCard(c: seq<int>, s: set<nat>)
    ensures |ColoursOf(c, s)| <= |s|
    decreases |s|
  {
    if s == {} {
      assert ColoursOf(c, s) == {};
    } else {
      var x := Pick(s);
      var rest := s - {x};
      ColoursOfCard(c, rest);
      if x < |c| && c[x] >= 0 {
        assert ColoursOf(c, s) == ColoursOf(c, rest) + {c[x]};
      } else {
        assert ColoursOf(c, s) == ColoursOf(c, rest);
      }
    }
  }

  // With fewer than k forbidden colours, one of 0..k-1 is free.
  lemma FreeColour(used: set<nat>, k: nat) returns (i: nat)
    requires |used| < k
    ensures i < k && i !in used
  {
    var all := Range(k);
    var rest := all - used;
    RangeCard(k);
    SubsetCard(all - rest, used);
    assert rest == {} ==> all - rest == all;
    i := Pick(rest);
  }

  // Colouring the first m vertices one after the other needs only maxdeg + 1 colours.
  lemma {:induction false} GreedyPrefix(g: Graph, maxdeg: nat, m: nat) returns (f: seq<int>)
    requires Simple(g) && m <= |g| && forall v :: 0 <= v < |g| ==> |g[v]| <= maxdeg
    ensures |f| == m && PrefixColours(g, f, maxdeg + 1)
  {
    if m == 0 {
      f := [];
    } else {
      var rest := GreedyPrefix(g, maxdeg, m - 1);
      ColoursOfCard(rest, g[m - 1]);
      var i := FreeColour(ColoursOf(rest, g[m - 1]), maxdeg + 1);
      f := rest + [i];
      forall u: nat, v: nat | u < m && v < m && v in g[u] ensures f[u] != f[v] {
        if u == m - 1 {
          assert f[v] in ColoursOf(rest, g[m - 1]);
        } else if v == m - 1 {
          assert u in g[m - 1];
          assert f[u] in ColoursOf(rest, g[m - 1]);
        }
      }
    }
  }

  lemma GreedyBound(g: Graph, maxdeg: nat)
    requires Simple(g) && forall v :: 0 <= v < |g| ==> |g[v]| <= maxdeg
    ensures Colourable(g, maxdeg + 1)
  {
    var f := GreedyPrefix(g, maxdeg, |g|);
    assert Colours(g, f, maxdeg + 1);
  }
}
