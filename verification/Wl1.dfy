// The work-queue loop of run1WL over its class lists, degree tables and queue flags.
module Wl1 {
  import opened Sums
  import opened Refinement
  import opened Wl1Spec
  import opened Wl1Theory
  import opened Wl1Cost
  import opened Wl1Moves
  import Wl1Order
  import Bits

  // ----- the tables -----

  // cc[c] lists class c, without repetition.
  ghost predicate ClassLists(cc: seq<seq<nat>>, col: seq<nat>) {
    forall c :: 0 <= c < |cc| ==> Lists(cc[c], Class(col, c))
  }

  ghost predicate Lists(xs: seq<nat>, s: set<nat>) {
    Distinct(xs) && Elems(xs) == s
  }

  ghost predicate Attained(col: seq<nat>, cd: seq<nat>, c: nat, m: nat)
    requires |cd| == |col|
  {
    exists v :: 0 <= v < |col| && col[v] == c && cd[v] == m
  }

  ghost function Touched(col: seq<nat>, cd: seq<nat>, c: nat): set<nat>
    requires |cd| == |col|
  {
    set v | v in Class(col, c) && cd[v] > 0
  }

  // pdcc[c] lists the vertices of class c with a positive degree, maxCD[c] is their greatest degree,
  // and adj holds the classes that have such vertices.
  ghost predicate DegreeTables(col: seq<nat>, cd: seq<nat>, pdcc: seq<seq<nat>>, maxCD: seq<nat>, adj: set<nat>) {
    && |cd| == |col| && |pdcc| == |maxCD|
    && (forall v :: 0 <= v < |col| ==> col[v] < |pdcc| && cd[v] <= maxCD[col[v]])
    && (forall c :: 0 <= c < |pdcc| ==> maxCD[c] == 0 || Attained(col, cd, c, maxCD[c]))
    && (forall c :: 0 <= c < |pdcc| ==> Lists(pdcc[c], Touched(col, cd, c)))
    && (forall c: nat :: c in adj <==> c < |pdcc| && pdcc[c] != [])
  }

  ghost predicate QueueFlags(stk: seq<nat>, inStack: seq<bool>) {
    && (forall c :: 0 <= c < |inStack| ==> (inStack[c] <==> c in stk))
    && (forall c :: c in stk ==> c < |inStack|)
  }

  lemma ListsCard(xs: seq<nat>, s: set<nat>)
    requires Lists(xs, s)
    ensures |xs| == |s|
  {
    DistinctCard(xs);
  }

  // ----- small steps on the lists -----

  ghost predicate Increasing(xs: seq<nat>) {
    forall i, j :: 0 <= i < j < |xs| ==> xs[i] < xs[j]
  }

  // The ascending order in which an ordered set is traversed.
  method Ascending(s: set<nat>) returns (xs: seq<nat>)
    ensures Elems(xs) == s && Increasing(xs)
  {
    xs := [];
    var rest := s;
    while rest != {}
      invariant rest <= s
      invariant forall x :: x in s ==> (x in xs <==> x !in rest)
      invariant forall x :: x in xs ==> x in s
      invariant Increasing(xs)
      invariant forall x, y :: x in xs && y in rest ==> x < y
      decreases |rest|
    {
      var x := Least(rest);
      assert forall i :: 0 <= i < |xs| ==> xs[i] in xs;
      xs, rest := xs + [x], rest - {x};
    }
  }

  method Least(s: set<nat>) returns (x: nat)
    requires s != {}
    ensures x in s
    ensures forall y :: y in s ==> x <= y
  {
    ghost var least := Smallest(s);
    x :| x in s && forall y :: y in s ==> x <= y;
  }

  lemma {:induction false} Smallest(s: set<nat>) returns (x: nat)
    requires s != {}
    ensures x in s
    ensures forall y :: y in s ==> x <= y
    decreases |s|
  {
    x := Pick(s);
    var y, rest := x, s - {x};
    if rest != {} {
      var t := Smallest(rest);
      if t < x { x := t; }
    }
    forall z | z in s ensures x <= z {
      if z != y { assert z in rest; }
    }
  }

  // Remove v from a list by moving the last entry into its place; found counts the entries compared.
  method RemoveSwap(xs: seq<nat>, v: nat) returns (ys: seq<nat>, ghost found: nat)
    requires Distinct(xs) && v in xs
    ensures Lists(ys, Elems(xs) - {v}) && found <= |xs|
  {
    var i := 0;
    while xs[i] != v
      invariant 0 <= i < |xs| && v !in xs[..i]
      decreases |xs| - i
    {
      i := i + 1;
    }
    found := i + 1;
    var last := |xs| - 1;
    ys := xs[i := xs[last]][..last];
    forall x | x in xs && x != v ensures x in ys {
      var j :| 0 <= j < |xs| && xs[j] == x;
      assert if j == last then ys[i] == x else ys[j] == x;
    }
  }

  // Count one more arc into w.
  method CountArc(col: seq<nat>, cd0: seq<nat>, pdcc0: seq<seq<nat>>, maxCD0: seq<nat>, adj0: set<nat>, w: nat)
    returns (cd: seq<nat>, pdcc: seq<seq<nat>>, maxCD: seq<nat>, adj: set<nat>)
    requires DegreeTables(col, cd0, pdcc0, maxCD0, adj0) && w < |col|
    ensures DegreeTables(col, cd, pdcc, maxCD, adj)
    ensures cd == cd0[w := cd0[w] + 1] && |pdcc| == |pdcc0|
  {
    var c := col[w];
    cd := cd0[w := cd0[w] + 1];
    pdcc := pdcc0;
    if cd[w] == 1 {
      assert w !in Elems(pdcc[c]);
      DistinctAppend(pdcc[c], w);
      pdcc := pdcc[c := pdcc[c] + [w]];
    }
    assert Touched(col, cd, c) == Touched(col, cd0, c) + {w};
    assert w in Elems(pdcc[c]);
    adj := adj0 + {c};
    forall d: nat ensures d in adj <==> d < |pdcc| && pdcc[d] != [] {
      if d == c { assert pdcc[c] != []; }
    }
    maxCD := maxCD0;
    if cd[w] > maxCD[c] {
      maxCD := maxCD[c := cd[w]];
    }
    forall d: nat | d < |pdcc|
      ensures maxCD[d] == 0 || Attained(col, cd, d, maxCD[d])
      ensures Lists(pdcc[d], Touched(col, cd, d))
    {
      if d != c {
        assert Touched(col, cd, d) == Touched(col, cd0, d);
        if maxCD[d] > 0 {
          var v :| 0 <= v < |col| && col[v] == d && cd0[v] == maxCD0[d];
          assert cd[v] == maxCD[d];
        }
      } else if cd[w] > maxCD0[c] {
        assert cd[w] == maxCD[c];
      } else {
        var v :| 0 <= v < |col| && col[v] == c && cd0[v] == maxCD0[c];
        assert v != w;
        assert cd[v] == maxCD[c];
      }
    }
  }

  // ----- calculateColorDegrees -----

  lemma ElemsPrefix(xs: seq<nat>, i: nat)
    requires Distinct(xs) && i < |xs|
    ensures Elems(xs[..i + 1]) == Elems(xs[..i]) + {xs[i]} && xs[i] !in Elems(xs[..i])
  {
    assert xs[..i + 1] == xs[..i] + [xs[i]];
  }

  lemma CountAdd(wt: Weights, s: set<nat>, v: nat, w: nat)
    requires v !in s
    ensures Count(wt, s + {v}, w) == Count(wt, s, w) + wt(v, w)
  {
    SumAdd(s, (x: nat) => wt(x, w), v);
    SumCongruence(s + {v}, (x: nat) => wt(x, w), (v: nat) => wt(v, w));
    SumCongruence(s, (x: nat) => wt(x, w), (v: nat) => wt(v, w));
  }

  lemma RowsAdd(g: Csr, s: set<nat>, v: nat)
    requires v !in s
    ensures Rows(g, s + {v}) == Rows(g, s) + RowLength(g, v)
  {
    SumAdd(s, (x: nat) => RowLength(g, x), v);
    SumCongruence(s + {v}, (x: nat) => RowLength(g, x), (v: nat) => RowLength(g, v));
    SumCongruence(s, (x: nat) => RowLength(g, x), (v: nat) => RowLength(g, v));
  }

  // The tables before a pass: every degree zero, every list empty.
  ghost predicate CleanTables(n: nat, cd: seq<nat>, pdcc: seq<seq<nat>>, maxCD: seq<nat>) {
    && |cd| == n && |pdcc| == |maxCD|
    && (forall v :: 0 <= v < n ==> cd[v] == 0)
    && (forall c :: 0 <= c < |pdcc| ==> pdcc[c] == [] && maxCD[c] == 0)
  }

  lemma CleanIsDegreeTables(col: seq<nat>, cd: seq<nat>, pdcc: seq<seq<nat>>, maxCD: seq<nat>)
    requires CleanTables(|col|, cd, pdcc, maxCD)
    requires forall v :: 0 <= v < |col| ==> col[v] < |pdcc|
    ensures DegreeTables(col, cd, pdcc, maxCD, {})
  {
    forall c | 0 <= c < |pdcc| ensures Lists(pdcc[c], Touched(col, cd, c)) {
      assert Touched(col, cd, c) == {};
    }
  }

  // Count the arcs of one row.
  method CountRow(g: Csr, v: nat, col: seq<nat>, cd0: seq<nat>, pdcc0: seq<seq<nat>>, maxCD0: seq<nat>, adj0: set<nat>)
    returns (cd: seq<nat>, pdcc: seq<seq<nat>>, maxCD: seq<nat>, adj: set<nat>, ghost scanned: nat)
    requires g.Valid() && v < g.n && |col| == g.n
    requires DegreeTables(col, cd0, pdcc0, maxCD0, adj0)
    ensures DegreeTables(col, cd, pdcc, maxCD, adj) && |pdcc| == |pdcc0|
    ensures forall w: nat :: w < g.n ==> cd[w] == cd0[w] + Arcs(g, v, w)
    ensures scanned == RowLength(g, v)
  {
    cd, pdcc, maxCD, adj, scanned := cd0, pdcc0, maxCD0, adj0, 0;
    assert g.HasRow(v);
    var i := g.offsets[v];
    while i < g.offsets[v + 1]
      invariant g.offsets[v] <= i <= g.offsets[v + 1]
      invariant DegreeTables(col, cd, pdcc, maxCD, adj) && |pdcc| == |pdcc0|
      invariant forall w: nat :: w < g.n ==> cd[w] == cd0[w] + Occurrences(g.neighbours, g.offsets[v], i, w)
      invariant scanned == i - g.offsets[v]
    {
      cd, pdcc, maxCD, adj := CountArc(col, cd, pdcc, maxCD, adj, g.neighbours[i]);
      i, scanned := i + 1, scanned + 1;
    }
  }

  // Count the arcs from the listed splitter into every vertex.
  method CalculateColourDegrees(g: Csr, splitter: seq<nat>, col: seq<nat>,
                                cd0: seq<nat>, pdcc0: seq<seq<nat>>, maxCD0: seq<nat>, ghost cur: nat)
    returns (cd: seq<nat>, pdcc: seq<seq<nat>>, maxCD: seq<nat>, adj: set<nat>, ghost scanned: nat)
    requires g.Valid() && |col| == g.n && Lists(splitter, Class(col, cur))
    requires CleanTables(g.n, cd0, pdcc0, maxCD0)
    requires forall v :: 0 <= v < g.n ==> col[v] < |pdcc0|
    ensures DegreeTables(col, cd, pdcc, maxCD, adj) && |pdcc| == |pdcc0|
    ensures cd == Degrees(g, col, cur)
    ensures scanned == Rows(g, Class(col, cur))
  {
    CleanIsDegreeTables(col, cd0, pdcc0, maxCD0);
    cd, pdcc, maxCD, adj, scanned := cd0, pdcc0, maxCD0, {}, 0;
    ghost var wt := Wt(g);
    assert Elems([]) == {};
    for a := 0 to |splitter|
      invariant DegreeTables(col, cd, pdcc, maxCD, adj) && |pdcc| == |pdcc0|
      invariant forall w: nat :: w < g.n ==> cd[w] == Count(wt, Elems(splitter[..a]), w)
      invariant scanned == Rows(g, Elems(splitter[..a]))
    {
      var v := splitter[a];
      ghost var row;
      assert v in Elems(splitter);
      cd, pdcc, maxCD, adj, row := CountRow(g, v, col, cd, pdcc, maxCD, adj);
      scanned := scanned + row;
      ElemsPrefix(splitter, a);
      RowsAdd(g, Elems(splitter[..a]), v);
      forall w: nat | w < g.n
        ensures cd[w] == Count(wt, Elems(splitter[..a + 1]), w)
      {
        CountAdd(wt, Elems(splitter[..a]), v, w);
      }
    }
    assert splitter[..|splitter|] == splitter;
  }

  // ----- which classes to split -----

  lemma LeastDegreeIs(s: State, deg: seq<nat>, c: nat, m: nat)
    requires ValidState(s) && |deg| == |s.col| && c < s.k
    requires forall v :: 0 <= v < |s.col| && s.col[v] == c ==> m <= deg[v]
    requires Attained(s.col, deg, c, m)
    ensures PlanFor(s, deg, c).lo == m
  {
    PlanSound(s, deg, c);
    var p := PlanFor(s, deg, c);
    var v :| v in Class(s.col, c) && deg[v] == p.lo;
    var u :| 0 <= u < |s.col| && s.col[u] == c && deg[u] == m;
  }

  lemma TopDegreeIs(s: State, deg: seq<nat>, c: nat, m: nat)
    requires ValidState(s) && |deg| == |s.col| && c < s.k
    requires forall v :: 0 <= v < |s.col| && s.col[v] == c ==> deg[v] <= m
    requires m == 0 || Attained(s.col, deg, c, m)
    ensures |PlanFor(s, deg, c).num| == m + 1
  {
    TopIs(s.col, deg, c, |s.col|);
  }

  // The least degree in a class: 0 if some vertex was not touched.
  method LeastDegree(cls: seq<nat>, touched: seq<nat>, cd: seq<nat>, top: nat,
                     ghost s: State, ghost c: nat) returns (m: nat)
    requires ValidState(s) && |cd| == |s.col| && c < s.k
    requires Lists(cls, Class(s.col, c)) && Lists(touched, Touched(s.col, cd, c)) && touched != []
    requires forall v :: 0 <= v < |cd| && s.col[v] == c ==> cd[v] <= top
    requires Attained(s.col, cd, c, top)
    ensures m == PlanFor(s, cd, c).lo
  {
    ListsCard(cls, Class(s.col, c));
    ListsCard(touched, Touched(s.col, cd, c));
    if |cls| != |touched| {
      m := 0;
      UntouchedExists(s.col, cd, c);
    } else {
      SubsetCard(Touched(s.col, cd, c), Class(s.col, c));
      m := top;
      for i := 0 to |touched|
        invariant forall j :: 0 <= j < i ==> touched[j] < |cd| && m <= cd[touched[j]]
        invariant m <= top && Attained(s.col, cd, c, m)
      {
        var v := touched[i];
        assert v in Elems(touched);
        if cd[v] < m { m := cd[v]; }
      }
      forall v | 0 <= v < |cd| && s.col[v] == c ensures m <= cd[v] {
        assert v in Class(s.col, c);
        assert v in Elems(touched);
      }
    }
    LeastDegreeIs(s, cd, c, m);
  }

  lemma UntouchedExists(col: seq<nat>, cd: seq<nat>, c: nat)
    requires |cd| == |col|
    requires |Class(col, c)| != |Touched(col, cd, c)|
    ensures Attained(col, cd, c, 0)
  {
    SubsetCard(Touched(col, cd, c), Class(col, c));
    assert exists v :: v in Class(col, c) && v !in Touched(col, cd, c) by {
      if Class(col, c) <= Touched(col, cd, c) {
        SubsetCard(Class(col, c), Touched(col, cd, c));
      }
    }
  }

  // ----- splitUpColor -----

  lemma TouchedPositive(touched: seq<nat>, col: seq<nat>, cd: seq<nat>, c: nat, maxDeg: nat)
    requires |cd| == |col| && maxDeg == TopUpTo(col, cd, c, |col|) && Lists(touched, Touched(col, cd, c))
    ensures forall j :: 0 <= j < |touched| ==> touched[j] < |cd| && 1 <= cd[touched[j]] <= maxDeg
  {
    TopIs(col, cd, c, |col|);
    forall j | 0 <= j < |touched| ensures touched[j] < |cd| && 1 <= cd[touched[j]] <= maxDeg {
      assert touched[j] in Elems(touched);
    }
  }

  // How many of the touched vertices have each degree; the others of the class have degree 0.
  method TallyDegrees(size: nat, touched: seq<nat>, cd: seq<nat>, maxDeg: nat) returns (num: seq<nat>)
    requires |touched| <= size && Distinct(touched)
    requires forall j :: 0 <= j < |touched| ==> touched[j] < |cd| && 1 <= cd[touched[j]] <= maxDeg
    ensures |num| == maxDeg + 1 && num[0] == size - |touched|
    ensures forall d :: 1 <= d <= maxDeg ==> num[d] == |WithDegree(touched, cd, d)|
  {
    num := seq(maxDeg + 1, _ => 0);
    num := num[0 := size - |touched|];
    for j := 0 to |touched|
      invariant |num| == maxDeg + 1 && num[0] == size - |touched|
      invariant forall d :: 1 <= d <= maxDeg ==> num[d] == |WithDegree(touched[..j], cd, d)|
    {
      var v := touched[j];
      forall d | 1 <= d <= maxDeg
        ensures |WithDegree(touched[..j + 1], cd, d)| == |WithDegree(touched[..j], cd, d)| + (if cd[v] == d then 1
          else 0)
      {
        WithDegreeNext(touched, j, cd, d);
      }
      num := num[cd[v] := num[cd[v]] + 1];
    }
    assert touched[..|touched|] == touched;
  }

  lemma DegreeMembers(size: nat, touched: seq<nat>, col: seq<nat>, cd: seq<nat>, c: nat, d: nat)
    requires |cd| == |col| && size == |Class(col, c)| && Lists(touched, Touched(col, cd, c))
    ensures |Members(col, cd, c, d)| == if d == 0 then size - |touched| else |WithDegree(touched, cd, d)|
  {
    ListsCard(touched, Touched(col, cd, c));
    if d == 0 {
      SubsetDifferenceCard(Touched(col, cd, c), Class(col, c));
      assert Members(col, cd, c, 0) == Class(col, c) - Touched(col, cd, c);
    } else {
      assert forall v :: v in touched <==> v in Elems(touched);
      assert Members(col, cd, c, d) == WithDegree(touched, cd, d);
    }
  }

  // How many vertices of the class have each degree; touched lists those of positive degree.
  method CountDegrees(size: nat, touched: seq<nat>, cd: seq<nat>, maxDeg: nat, ghost col: seq<nat>, ghost c: nat)
    returns (num: seq<nat>)
    requires |cd| == |col| && maxDeg == TopUpTo(col, cd, c, |col|)
    requires size == |Class(col, c)| && Lists(touched, Touched(col, cd, c))
    ensures num == Histogram(col, cd, c)
  {
    ListsCard(touched, Touched(col, cd, c));
    SubsetCard(Touched(col, cd, c), Class(col, c));
    TopIs(col, cd, c, |col|);
    TouchedPositive(touched, col, cd, c, maxDeg);
    num := TallyDegrees(size, touched, cd, maxDeg);
    forall d: nat | d <= maxDeg ensures num[d] == |Members(col, cd, c, d)| {
      DegreeMembers(size, touched, col, cd, c, d);
    }
    assert num == Histogram(col, cd, c);
  }

  ghost function WithDegree(xs: seq<nat>, cd: seq<nat>, d: nat): set<nat> {
    set v | v in xs && v < |cd| && cd[v] == d
  }

  lemma WithDegreeNext(xs: seq<nat>, j: nat, cd: seq<nat>, d: nat)
    requires Distinct(xs) && j < |xs| && xs[j] < |cd|
    ensures |WithDegree(xs[..j + 1], cd, d)| == |WithDegree(xs[..j], cd, d)| + (if cd[xs[j]] == d then 1 else 0)
  {
    var v := xs[j];
    assert xs[..j + 1] == xs[..j] + [v];
    assert v !in xs[..j];
    if cd[v] == d {
      assert WithDegree(xs[..j + 1], cd, d) == WithDegree(xs[..j], cd, d) + {v};
    } else {
      assert WithDegree(xs[..j + 1], cd, d) == WithDegree(xs[..j], cd, d);
    }
  }

  lemma SubsetDifferenceCard(s: set<nat>, t: set<nat>)
    requires s <= t
    ensures |t - s| == |t| - |s|
  {
    assert t == s + (t - s);
  }

  method IndexOfLargest(num: seq<nat>) returns (maxIdx: nat)
    requires |num| > 0
    ensures maxIdx == LargestUpTo(num, |num|)
  {
    maxIdx := 0;
    for i := 1 to |num|
      invariant maxIdx == LargestUpTo(num, i)
    {
      if num[i] > num[maxIdx] { maxIdx := i; }
    }
  }

  lemma {:induction false} NamesGrow(s: State, p: Plan, i: nat, j: nat)
    requires i <= j <= |p.num|
    ensures NameUpTo(s, p, i).k <= NameUpTo(s, p, j).k
    decreases j - i
  {
    if i < j { NamesGrow(s, p, i, j - 1); }
  }

  // Give every degree that occurs a colour, and queue the new classes by the "all but the largest" rule.
  method NameDegrees(num: seq<nat>, maxIdx: nat, minDeg: nat, colour: nat, curInStk: bool,
                     stk0: seq<nat>, inStack0: seq<bool>, lastColor0: nat, ghost s: State)
    returns (nm: seq<int>, stk: seq<nat>, inStack: seq<bool>, lastColor: nat)
    requires ValidState(s) && stk0 == s.queue && lastColor0 + 1 == s.k
    requires SoundPlan(s, Plan(num, minDeg, maxIdx, colour, curInStk))
    requires NameUpTo(s, Plan(num, minDeg, maxIdx, colour, curInStk), |num|).k <= |inStack0|
    requires QueueFlags(stk0, inStack0)
    ensures Naming(nm, stk, lastColor + 1) == NameUpTo(s, Plan(num, minDeg, maxIdx, colour, curInStk), |num|)
    ensures QueueFlags(stk, inStack) && |inStack| == |inStack0|
  {
    ghost var p := Plan(num, minDeg, maxIdx, colour, curInStk);
    nm := seq(|num|, _ => -1);
    stk, inStack, lastColor := stk0, inStack0, lastColor0;
    NamesGrow(s, p, 0, |num|);
    for i := 0 to |num|
      invariant |nm| == |num| && |inStack| == |inStack0|
      invariant Naming(nm, stk, lastColor + 1) == NameUpTo(s, p, i)
      invariant QueueFlags(stk, inStack)
    {
      if num[i] != 0 {
        if i == minDeg {
          nm := nm[i := colour];
          if !curInStk && maxIdx != i {
            stk, inStack := stk + [colour], inStack[colour := true];
          }
        } else {
          NamesGrow(s, p, i + 1, |num|);
          lastColor := lastColor + 1;
          nm := nm[i := lastColor];
          if curInStk || i != maxIdx {
            stk, inStack := stk + [lastColor], inStack[lastColor := true];
          }
        }
      }
    }
  }

  // Where a vertex of the class stands after the first j touched vertices were moved.
  ghost predicate MovedUpTo(col0: seq<nat>, col: seq<nat>, cd: seq<nat>, nm: seq<int>, touched: seq<nat>, j: nat)
    requires |cd| == |col0| && j <= |touched|
  {
    && |col| == |col0|
    && forall v: nat :: v < |col| ==>
         col[v] == if v in touched[..j] && cd[v] < |nm| && nm[cd[v]] >= 0 then nm[cd[v]] else col0[v]
  }

  method MoveVertex(cc0: seq<seq<nat>>, col0: seq<nat>, v: nat, nc: nat)
    returns (cc: seq<seq<nat>>, col: seq<nat>, ghost found: nat)
    requires v < |col0| && nc < |cc0| && col0[v] < |cc0| && nc != col0[v]
    requires ClassLists(cc0, col0)
    ensures col == col0[v := nc] && |cc| == |cc0| && ClassLists(cc, col) && found <= |col0|
  {
    var c := col0[v];
    assert v in Elems(cc0[c]);
    ListWithin(cc0[c], col0, c);
    var cls;
    cls, found := RemoveSwap(cc0[c], v);
    cc := cc0[c := cls];
    cc := cc[nc := cc[nc] + [v]];
    col := col0[v := nc];
    assert v !in Elems(cc0[nc]);
    DistinctAppend(cc0[nc], v);
    assert Class(col, c) == Class(col0, c) - {v};
    assert Class(col, nc) == Class(col0, nc) + {v};
    forall d | 0 <= d < |cc| ensures Lists(cc[d], Class(col, d)) {
      if d != c && d != nc { assert Class(col, d) == Class(col0, d); }
    }
  }

  lemma ListWithin(xs: seq<nat>, col: seq<nat>, c: nat)
    requires Lists(xs, Class(col, c))
    ensures |xs| <= |col|
  {
    DistinctCard(xs);
    SubsetCard(Class(col, c), Range(|col|));
    RangeCard(|col|);
  }

  // The steps of finding vertices in lists of at most n entries, for a number of vertices that move.
  ghost predicate FoundFor(found: nat, n: nat, moves: nat) {
    found <= n * moves
  }

  lemma FoundMore(found: nat, more: nat, n: nat, a: nat, b: nat)
    requires FoundFor(found, n, a) && FoundFor(more, n, b)
    ensures FoundFor(found + more, n, a + b)
  {
    assert n * (a + b) == n * a + n * b;
  }

  lemma NothingFound(n: nat)
    ensures FoundFor(0, n, 0)
  {
  }

  // One more vertex, whose list takes at most n steps to search.
  lemma OneMoreFound(n: nat, col0: seq<nat>, col: seq<nat>, v: nat, nc: nat, found: nat, more: nat)
    requires |col| == |col0| && v < |col| && col[v] == col0[v] != nc
    requires FoundFor(found, n, |Moved(col0, col)|) && more <= n
    ensures FoundFor(found + more, n, |Moved(col0, col[v := nc])|)
  {
    assert Moved(col0, col[v := nc]) == Moved(col0, col) + {v};
    FoundMore(found, more, n, |Moved(col0, col)|, 1);
  }

  method MoveVertices(touched: seq<nat>, cd: seq<nat>, nm: seq<int>, colour: nat, cc0: seq<seq<nat>>, col0: seq<nat>)
    returns (cc: seq<seq<nat>>, col: seq<nat>, ghost found: nat)
    requires |cd| == |col0| && Lists(touched, Touched(col0, cd, colour))
    requires ClassLists(cc0, col0) && colour < |cc0|
    requires forall v :: v in touched ==> v < |cd| && cd[v] < |nm| && 0 <= nm[cd[v]] < |cc0|
    ensures MovedUpTo(col0, col, cd, nm, touched, |touched|)
    ensures ClassLists(cc, col) && |cc| == |cc0|
    ensures FoundFor(found, |col0|, |Moved(col0, col)|)
    ensures forall v :: v in Moved(col0, col) ==> col0[v] == colour
  {
    cc, col, found := cc0, col0, 0;
    for j := 0 to |touched|
      invariant MovedUpTo(col0, col, cd, nm, touched, j)
      invariant ClassLists(cc, col) && |cc| == |cc0|
      invariant FoundFor(found, |col0|, |Moved(col0, col)|)
      invariant forall v :: v in Moved(col0, col) ==> col0[v] == colour
    {
      var v := touched[j];
      assert v in Elems(touched);
      var nc := nm[cd[v]];
      assert touched[..j + 1] == touched[..j] + [v];
      assert v !in touched[..j];
      if nc != colour {
        ghost var steps, was := 0, col;
        cc, col, steps := MoveVertex(cc, col, v, nc);
        OneMoreFound(|col0|, col0, was, v, nc, found, steps);
        found := found + steps;
      }
    }
  }

  method SplitUpColour(colour: nat, touched: seq<nat>, cd: seq<nat>, minDeg: nat, maxDeg: nat,
                       cc0: seq<seq<nat>>, col0: seq<nat>, stk0: seq<nat>, inStack0: seq<bool>, lastColor0: nat)
    returns (cc: seq<seq<nat>>, col: seq<nat>, stk: seq<nat>, inStack: seq<bool>, lastColor: nat, ghost found: nat)
    requires ValidState(State(col0, stk0, lastColor0 + 1)) && |cd| == |col0| && colour <= lastColor0
    requires Divided(State(col0, stk0, lastColor0 + 1), cd, colour)
    requires Lists(touched, Touched(col0, cd, colour)) && ClassLists(cc0, col0)
    requires minDeg == PlanFor(State(col0, stk0, lastColor0 + 1), cd, colour).lo
    requires maxDeg == TopUpTo(col0, cd, colour, |col0|)
    requires |cc0| == |inStack0| > |col0| && QueueFlags(stk0, inStack0)
    ensures State(col, stk, lastColor + 1) == SplitOne(State(col0, stk0, lastColor0 + 1), cd, colour)
    ensures ClassLists(cc, col) && QueueFlags(stk, inStack) && |cc| == |cc0| && |inStack| == |inStack0|
    ensures |col| == |col0| && FoundFor(found, |col0|, |Moved(col0, col)|)
    ensures forall v :: v in Moved(col0, col) ==> col0[v] == colour
  {
    ghost var s := State(col0, stk0, lastColor0 + 1);
    ghost var p := PlanFor(s, cd, colour);
    NamingReady(s, cd, colour, touched);
    hide SplitOne, PlanFor, NameUpTo, ValidState, Divided;
    ListsCard(cc0[colour], Class(col0, colour));
    var num := CountDegrees(|cc0[colour]|, touched, cd, maxDeg, col0, colour);
    var maxIdx := IndexOfLargest(num);
    var curInStk := inStack0[colour];
    assert p == Plan(num, minDeg, maxIdx, colour, curInStk) by { PlanIs(s, cd, colour); }
    var nm;
    nm, stk, inStack, lastColor := NameDegrees(num, maxIdx, minDeg, colour, curInStk, stk0, inStack0, lastColor0, s);
    cc, col, found := MoveVertices(touched, cd, nm, colour, cc0, col0);
    MovedIsRecoloured(s, cd, colour, touched, col);
    SplitOneParts(s, cd, colour);
  }

  lemma PlanIs(s: State, cd: seq<nat>, c: nat)
    requires |cd| == |s.col|
    ensures var num := Histogram(s.col, cd, c);
            PlanFor(s, cd, c) == Plan(num, PlanFor(s, cd, c).lo, LargestUpTo(num, |num|), c, c in s.queue)
  {
  }

  lemma SplitOneParts(s: State, cd: seq<nat>, c: nat)
    requires |cd| == |s.col| && Divided(s, cd, c)
    ensures var p, t := PlanFor(s, cd, c), SplitOne(s, cd, c);
            var a := NameUpTo(s, p, |p.num|);
            t == State(t.col, a.queue, a.k)
  {
  }

  lemma NamingReady(s: State, cd: seq<nat>, c: nat, touched: seq<nat>)
    requires ValidState(s) && |cd| == |s.col| && c < s.k && Divided(s, cd, c)
    requires Lists(touched, Touched(s.col, cd, c))
    ensures var p := PlanFor(s, cd, c);
            var a := NameUpTo(s, p, |p.num|);
            && SoundPlan(s, p) && s.k <= |s.col| && a.k <= |s.col|
            && forall v :: v in touched ==> v < |cd| && cd[v] < |a.nm| && 0 <= a.nm[cd[v]] < a.k
  {
    var t := SplitOne(s, cd, c);
    PlanSound(s, cd, c);
    SplitOneValid(s, cd, c);
    SplitOneParts(s, cd, c);
    DenseBound(s.col, s.k);
    DenseBound(t.col, t.k);
    hide SplitOne, PlanFor, NameUpTo;
    forall v | v in touched
      ensures v < |cd| && cd[v] < |PlanFor(s, cd, c).num|
      ensures 0 <= NameUpTo(s, PlanFor(s, cd, c), |PlanFor(s, cd, c).num|).nm[cd[v]] < t.k
    {
      assert v in Elems(touched);
      SplitOneColour(s, cd, c, v);
      assert t.col[v] < t.k;
    }
  }

  // Untouched vertices are the residue at degree 0, whose name is the old colour.
  lemma MovedLength(col0: seq<nat>, col: seq<nat>, cd: seq<nat>, nm: seq<int>, touched: seq<nat>)
    requires |cd| == |col0| && MovedUpTo(col0, col, cd, nm, touched, |touched|)
    ensures |col| == |col0|
  {
  }

  lemma MovedOne(s: State, cd: seq<nat>, c: nat, touched: seq<nat>, col: seq<nat>, v: nat)
    requires ValidState(s) && |cd| == |s.col| && c < s.k && Divided(s, cd, c)
    requires Lists(touched, Touched(s.col, cd, c)) && v < |s.col|
    requires MovedUpTo(s.col, col, cd, NameUpTo(s, PlanFor(s, cd, c), |PlanFor(s, cd, c).num|).nm, touched, |touched|)
    ensures v < |col| && col[v] == SplitOne(s, cd, c).col[v]
  {
    hide SplitOne, PlanFor, NameUpTo, Divided, ValidState;
    var p := PlanFor(s, cd, c);
    assert touched[..|touched|] == touched;
    PlanSound(s, cd, c);
    NameUpToNamed(s, p, |p.num|);
    SplitOneColour(s, cd, c, v);
    assert v in touched <==> v in Elems(touched);
  }

  lemma MovedIsRecoloured(s: State, cd: seq<nat>, c: nat, touched: seq<nat>, col: seq<nat>)
    requires ValidState(s) && |cd| == |s.col| && c < s.k && Divided(s, cd, c)
    requires Lists(touched, Touched(s.col, cd, c))
    requires MovedUpTo(s.col, col, cd, NameUpTo(s, PlanFor(s, cd, c), |PlanFor(s, cd, c).num|).nm, touched, |touched|)
    ensures col == SplitOne(s, cd, c).col
  {
    forall v: nat | v < |s.col| ensures v < |col| && col[v] == SplitOne(s, cd, c).col[v] {
      MovedOne(s, cd, c, touched, col, v);
    }
    MovedLength(s.col, col, cd, NameUpTo(s, PlanFor(s, cd, c), |PlanFor(s, cd, c).num|).nm, touched);
    hide *;
    assert forall v :: 0 <= v < |s.col| ==> col[v] == SplitOne(s, cd, c).col[v];
  }

  // ----- one pass -----

  ghost predicate SameClass(col: seq<nat>, col2: seq<nat>, c: nat) {
    |col| == |col2| && forall v :: 0 <= v < |col| ==> (col[v] == c <==> col2[v] == c)
  }

  // A colour that has not had its turn is as it was at the start of the pass.
  lemma {:induction false} LaterClassUntouched(s: State, deg: seq<nat>, c: nat, d: nat)
    requires ValidState(s) && |deg| == |s.col| && c <= d < s.k
    ensures SameClass(s.col, SplitUpTo(s, deg, c).col, d)
  {
    hide SplitOne;
    if c > 0 {
      LaterClassUntouched(s, deg, c - 1, d);
      SplitUpToProgress(s, deg, c - 1);
      OtherClassUntouched(SplitUpTo(s, deg, c - 1), deg, c - 1, d);
    }
  }

  lemma OtherClassUntouched(s: State, deg: seq<nat>, c: nat, d: nat)
    requires ValidState(s) && |deg| == |s.col| && c < s.k && d < s.k && d != c
    ensures SameClass(s.col, SplitOne(s, deg, c).col, d)
  {
    hide SplitOne;
    if !Divided(s, deg, c) {
      UndividedSame(s, deg, c);
    } else {
      forall v: nat | v < |s.col| ensures s.col[v] == d <==> SplitOne(s, deg, c).col[v] == d {
        SplitOneColour(s, deg, c, v);
      }
    }
  }

  lemma {:induction false} SameTop(col: seq<nat>, col2: seq<nat>, deg: seq<nat>, c: nat, i: nat)
    requires SameClass(col, col2, c) && |deg| == |col| && i <= |col|
    ensures TopUpTo(col2, deg, c, i) == TopUpTo(col, deg, c, i)
  {
    if i > 0 { SameTop(col, col2, deg, c, i - 1); }
  }

  lemma SameHistogram(s: State, t: State, deg: seq<nat>, c: nat)
    requires SameClass(s.col, t.col, c) && |deg| == |s.col|
    ensures Histogram(t.col, deg, c) == Histogram(s.col, deg, c)
    ensures TopUpTo(t.col, deg, c, |t.col|) == TopUpTo(s.col, deg, c, |s.col|)
    ensures Divided(t, deg, c) == Divided(s, deg, c)
    ensures PlanFor(t, deg, c).lo == PlanFor(s, deg, c).lo
    ensures Touched(t.col, deg, c) == Touched(s.col, deg, c)
  {
    SameTop(s.col, t.col, deg, c, |s.col|);
    assert Class(t.col, c) == Class(s.col, c);
    forall d: nat ensures Members(t.col, deg, c, d) == Members(s.col, deg, c, d) {
    }
    assert Histogram(t.col, deg, c) == Histogram(s.col, deg, c);
  }

  // Colours that are not divided can be skipped.
  lemma {:induction false} SkipUndivided(s: State, deg: seq<nat>, a: nat, b: nat)
    requires ValidState(s) && |deg| == |s.col| && a <= b <= s.k
    requires forall c :: a <= c < b ==> !Divided(s, deg, c)
    ensures SplitUpTo(s, deg, b) == SplitUpTo(s, deg, a)
    decreases b
  {
    hide SplitOne, Divided;
    if a < b {
      SkipUndivided(s, deg, a, b - 1);
      var t := SplitUpTo(s, deg, b - 1);
      LaterClassUntouched(s, deg, b - 1, b - 1);
      SameHistogram(s, t, deg, b - 1);
      UndividedSame(t, deg, b - 1);
    }
  }

  lemma UntouchedIsZero(col: seq<nat>, cd: seq<nat>, pdcc: seq<seq<nat>>, maxCD: seq<nat>, adj: set<nat>, c: nat)
    requires DegreeTables(col, cd, pdcc, maxCD, adj) && c < |pdcc| && c !in adj
    ensures pdcc[c] == [] && maxCD[c] == 0
  {
    var touched := Touched(col, cd, c);
    assert touched == {};
    forall v: nat | v < |col| && col[v] == c ensures cd[v] == 0 {
      assert v in touched <==> cd[v] > 0;
    }
  }

  // The tables tell which classes the splitter divides.
  lemma TablesTellDivided(s: State, cd: seq<nat>, pdcc: seq<seq<nat>>, maxCD: seq<nat>, adj: set<nat>, c: nat)
    requires ValidState(s) && s.k <= |pdcc| && c < s.k
    requires DegreeTables(s.col, cd, pdcc, maxCD, adj)
    ensures maxCD[c] == TopUpTo(s.col, cd, c, |s.col|)
    ensures Divided(s, cd, c) <==> c in adj && PlanFor(s, cd, c).lo < maxCD[c]
  {
    TopDegreeIs(s, cd, c, maxCD[c]);
    if c !in adj {
      UntouchedIsZero(s.col, cd, pdcc, maxCD, adj, c);
    }
  }

  method ColoursToSplit(cc: seq<seq<nat>>, col: seq<nat>, cd: seq<nat>, pdcc: seq<seq<nat>>, maxCD: seq<nat>,
                        adj: set<nat>, minCD0: seq<nat>, ghost s: State)
    returns (toSplit: seq<nat>, minCD: seq<nat>)
    requires ValidState(s) && s.col == col && s.k <= |pdcc| == |cc| == |minCD0|
    requires DegreeTables(col, cd, pdcc, maxCD, adj) && ClassLists(cc, col)
    ensures Increasing(toSplit) && |minCD| == |minCD0|
    ensures forall c: nat :: c in toSplit <==> c < s.k && Divided(s, cd, c)
    ensures forall c: nat :: c in toSplit ==> minCD[c] == PlanFor(s, cd, c).lo
  {
    hide PlanFor, Divided;
    var order := Ascending(adj);
    minCD := minCD0;
    assert forall c :: c in adj <==> c in Elems(order);
    forall c | c in order ensures c < s.k {
      AdjacentColour(s, cd, pdcc, maxCD, adj, c);
    }
    for i := 0 to |order|
      invariant |minCD| == |minCD0|
      invariant forall j :: 0 <= j < i ==> order[j] < s.k && minCD[order[j]] == PlanFor(s, cd, order[j]).lo
    {
      var c := order[i];
      assert c in order;
      AdjacentColour(s, cd, pdcc, maxCD, adj, c);
      var m := LeastDegree(cc[c], pdcc[c], cd, maxCD[c], s, c);
      minCD := minCD[c := m];
    }
    toSplit := [];
    for i := 0 to |order|
      invariant Increasing(toSplit)
      invariant forall c: nat :: c in toSplit <==> c in order[..i] && Divided(s, cd, c)
      invariant i < |order| ==> forall c :: c in toSplit ==> c < order[i]
      invariant forall c :: c in toSplit ==> c < s.k && minCD[c] == PlanFor(s, cd, c).lo
    {
      var c := order[i];
      assert c in order;
      TablesTellDivided(s, cd, pdcc, maxCD, adj, c);
      assert order[..i + 1] == order[..i] + [c];
      assert forall j :: 0 <= j < |toSplit| ==> toSplit[j] in toSplit;
      if minCD[c] < maxCD[c] { toSplit := toSplit + [c]; }
    }
    assert order[..|order|] == order;
    forall c: nat | c < s.k && Divided(s, cd, c) ensures c in toSplit {
      TablesTellDivided(s, cd, pdcc, maxCD, adj, c);
    }
  }

  lemma AdjacentColour(s: State, cd: seq<nat>, pdcc: seq<seq<nat>>, maxCD: seq<nat>, adj: set<nat>, c: nat)
    requires ValidState(s) && s.k <= |pdcc| && c in adj
    requires DegreeTables(s.col, cd, pdcc, maxCD, adj)
    ensures c < s.k && pdcc[c] != [] && Attained(s.col, cd, c, maxCD[c])
  {
    var v := pdcc[c][0];
    assert v in Elems(pdcc[c]);
    assert v in Touched(s.col, cd, c);
  }

  method SplitAdjacent(cd: seq<nat>, pdcc: seq<seq<nat>>, maxCD: seq<nat>, minCD: seq<nat>, toSplit: seq<nat>,
                       adj: set<nat>,
                       cc0: seq<seq<nat>>, col0: seq<nat>, stk0: seq<nat>, inStack0: seq<bool>, lastColor0: nat)
    returns (cc: seq<seq<nat>>, col: seq<nat>, stk: seq<nat>, inStack: seq<bool>, lastColor: nat, ghost found: nat)
    requires ValidState(State(col0, stk0, lastColor0 + 1))
    requires DegreeTables(col0, cd, pdcc, maxCD, adj) && ClassLists(cc0, col0)
    requires |pdcc| == |maxCD| == |minCD| == |cc0| == |inStack0| > |col0| && lastColor0 < |pdcc|
    requires QueueFlags(stk0, inStack0)
    requires Increasing(toSplit)
    requires forall c: nat :: c in toSplit <==> c < lastColor0 + 1 && Divided(State(col0, stk0, lastColor0 + 1), cd, c)
    requires forall c: nat :: c in toSplit ==> minCD[c] == PlanFor(State(col0, stk0, lastColor0 + 1), cd, c).lo
    ensures State(col, stk, lastColor + 1) == SplitUpTo(State(col0, stk0, lastColor0 + 1), cd, lastColor0 + 1)
    ensures ClassLists(cc, col) && QueueFlags(stk, inStack) && |cc| == |cc0| && |inStack| == |inStack0|
    ensures |col| == |col0| && FoundFor(found, |col0|, |Moved(col0, col)|)
  {
    ghost var s := State(col0, stk0, lastColor0 + 1);
    TurnOrder(s, cd);
    hide SplitOne, PlanFor, Divided, DegreeTables, SplitUpTo, ValidState, ClassLists, Lists;
    cc, col, stk, inStack, lastColor, found := cc0, col0, stk0, inStack0, lastColor0, 0;
    ghost var next := 0;
    for i := 0 to |toSplit|
      invariant next <= s.k
      invariant StillToSplit(s, cd, toSplit[i..], next)
      invariant State(col, stk, lastColor + 1) == SplitUpTo(s, cd, next)
      invariant |col| == |col0| && FoundFor(found, |col0|, |Moved(col0, col)|)
      invariant ClassLists(cc, col) && QueueFlags(stk, inStack) && |cc| == |cc0| && |inStack| == |inStack0|
    {
      var colour := toSplit[i];
      assert colour in toSplit && colour in toSplit[i..];
      NextTurn(s, cd, toSplit, i, next);
      SkipUndivided(s, cd, next, colour);
      ghost var t := State(col, stk, lastColor + 1);
      TurnReady(s, t, cd, pdcc, maxCD, adj, colour);
      ghost var steps := 0;
      cc, col, stk, inStack, lastColor, steps :=
        SplitUpColour(colour, pdcc[colour], cd, minCD[colour], maxCD[colour], cc, col, stk, inStack, lastColor);
      TurnFound(s, cd, t.col, col, colour, found, steps);
      found := found + steps;
      next := colour + 1;
    }
    SkipUndivided(s, cd, next, s.k);
  }

  // The vertices of a later colour have not moved yet, so what moves now has moved once.
  lemma TurnFound(s: State, cd: seq<nat>, col: seq<nat>, col2: seq<nat>, c: nat, found: nat, more: nat)
    requires ValidState(s) && |cd| == |s.col| && c < s.k && col == SplitUpTo(s, cd, c).col && |col| == |s.col| == |col2|
    requires forall v :: v in Moved(col, col2) ==> col[v] == c
    requires FoundFor(found, |s.col|, |Moved(s.col, col)|) && FoundFor(more, |col|, |Moved(col, col2)|)
    ensures FoundFor(found + more, |s.col|, |Moved(s.col, col2)|)
  {
    hide *;
    LaterClassUntouched(s, cd, c, c);
    SameMembers(s.col, col, c);
    MovedTwice(s.col, col, col2, c);
    FoundMore(found, more, |s.col|, |Moved(s.col, col)|, |Moved(col, col2)|);
  }

  lemma SameMembers(col: seq<nat>, col2: seq<nat>, c: nat)
    requires SameClass(col, col2, c)
    ensures Class(col2, c) == Class(col, c)
  {
  }

  lemma MovedTwice(col0: seq<nat>, col: seq<nat>, col2: seq<nat>, c: nat)
    requires |col0| == |col| == |col2| && Class(col, c) == Class(col0, c)
    requires forall v :: v in Moved(col, col2) ==> col[v] == c
    ensures |Moved(col0, col2)| == |Moved(col0, col)| + |Moved(col, col2)|
  {
    var a, b := Moved(col0, col), Moved(col, col2);
    forall v | v in b ensures col0[v] == col[v] {
      assert v in Class(col, c);
    }
    assert Moved(col0, col2) == a + b && a !! b;
  }

  lemma TurnOrder(s: State, cd: seq<nat>)
    requires |cd| == |s.col|
    ensures SplitUpTo(s, cd, 0) == s
    ensures forall c: nat :: SplitUpTo(s, cd, c + 1) == SplitOne(SplitUpTo(s, cd, c), cd, c)
  {
  }

  ghost predicate StillToSplit(s: State, cd: seq<nat>, xs: seq<nat>, next: nat)
    requires |cd| == |s.col|
  {
    forall c: nat :: c in xs <==> next <= c < s.k && Divided(s, cd, c)
  }

  lemma NextTurn(s: State, cd: seq<nat>, xs: seq<nat>, i: nat, next: nat)
    requires |cd| == |s.col| && Increasing(xs) && i < |xs|
    requires StillToSplit(s, cd, xs[i..], next)
    ensures next <= xs[i] < s.k && Divided(s, cd, xs[i])
    ensures forall c :: next <= c < xs[i] ==> !Divided(s, cd, c)
    ensures StillToSplit(s, cd, xs[i + 1..], xs[i] + 1)
  {
    hide Divided;
    var here, rest := xs[i..], xs[i + 1..];
    assert here == [xs[i]] + rest;
    assert xs[i] in here;
    assert forall c :: c in rest ==> xs[i] < c;
    forall c: nat ensures c in rest <==> xs[i] + 1 <= c < s.k && Divided(s, cd, c) {
      assert c in here <==> c == xs[i] || c in rest;
    }
  }

  lemma TurnReady(s: State, t: State, cd: seq<nat>, pdcc: seq<seq<nat>>, maxCD: seq<nat>, adj: set<nat>, c: nat)
    requires ValidState(s) && |cd| == |s.col| && c < s.k <= |pdcc|
    requires DegreeTables(s.col, cd, pdcc, maxCD, adj)
    requires t == SplitUpTo(s, cd, c) && Divided(s, cd, c)
    ensures ValidState(t) && c < t.k && |t.col| == |cd|
    ensures Divided(t, cd, c) && PlanFor(t, cd, c).lo == PlanFor(s, cd, c).lo
    ensures Lists(pdcc[c], Touched(t.col, cd, c)) && maxCD[c] == TopUpTo(t.col, cd, c, |t.col|)
  {
    hide SplitOne, PlanFor, Divided;
    SplitUpToProgress(s, cd, c);
    LaterClassUntouched(s, cd, c, c);
    SameHistogram(s, t, cd, c);
    TablesTellDivided(s, cd, pdcc, maxCD, adj, c);
  }

  method CleanUp(col: seq<nat>, cd0: seq<nat>, pdcc0: seq<seq<nat>>, maxCD0: seq<nat>, adj: set<nat>)
    returns (cd: seq<nat>, pdcc: seq<seq<nat>>, maxCD: seq<nat>)
    requires DegreeTables(col, cd0, pdcc0, maxCD0, adj)
    ensures CleanTables(|col|, cd, pdcc, maxCD) && |pdcc| == |pdcc0|
  {
    var order := Ascending(adj);
    assert forall c :: c in adj <==> c in Elems(order);
    cd, pdcc, maxCD := cd0, pdcc0, maxCD0;
    for i := 0 to |order|
      invariant |cd| == |cd0| && |pdcc| == |pdcc0| && |maxCD| == |maxCD0|
      invariant forall v :: 0 <= v < |col| ==> cd[v] == if col[v] in order[..i] then 0 else cd0[v]
      invariant forall c: nat :: c < |pdcc| ==>
        if c in order[..i] then pdcc[c] == [] && maxCD[c] == 0 else pdcc[c] == pdcc0[c] && maxCD[c] == maxCD0[c]
    {
      var c := order[i];
      assert c in order;
      assert c !in order[..i];
      assert order[..i + 1] == order[..i] + [c];
      assert c in Elems(order);
      assert Touched(col, cd, c) == Touched(col, cd0, c);
      cd := ClearDegrees(cd, pdcc[c], col, c);
      pdcc, maxCD := pdcc[c := []], maxCD[c := 0];
    }
    assert order[..|order|] == order;
    forall c | 0 <= c < |pdcc| ensures pdcc[c] == [] && maxCD[c] == 0 {
      if c !in adj { UntouchedIsZero(col, cd0, pdcc0, maxCD0, adj, c); }
    }
    forall v | 0 <= v < |col| ensures cd[v] == 0 {
      if cd0[v] > 0 { assert v in Touched(col, cd0, col[v]); }
    }
  }

  method ClearDegrees(cd0: seq<nat>, touched: seq<nat>, ghost col: seq<nat>, ghost c: nat) returns (cd: seq<nat>)
    requires |cd0| == |col| && Lists(touched, Touched(col, cd0, c))
    ensures |cd| == |cd0|
    ensures forall v :: 0 <= v < |cd| ==> cd[v] == if col[v] == c then 0 else cd0[v]
  {
    cd := cd0;
    for j := 0 to |touched|
      invariant |cd| == |cd0|
      invariant forall v :: 0 <= v < |cd| ==> cd[v] == if v in touched[..j] then 0 else cd0[v]
    {
      assert touched[j] in Elems(touched);
      assert touched[..j + 1] == touched[..j] + [touched[j]];
      cd := cd[touched[j] := 0];
    }
    assert touched[..|touched|] == touched;
    forall v | 0 <= v < |cd| ensures cd[v] == if col[v] == c then 0 else cd0[v] {
      assert v in touched <==> v in Elems(touched);
      assert v in Touched(col, cd0, c) <==> col[v] == c && cd0[v] > 0;
    }
  }

  // ----- normalising the given colours (std::sort, std::unique, std::lower_bound) -----

  ghost predicate Ascends(xs: seq<int>) {
    forall i, j :: 0 <= i < j < |xs| ==> xs[i] < xs[j]
  }

  method LowerBound(xs: seq<int>, x: int) returns (r: nat)
    requires Ascends(xs)
    ensures r <= |xs|
    ensures forall i :: 0 <= i < r ==> xs[i] < x
    ensures forall i :: r <= i < |xs| ==> x <= xs[i]
  {
    r := 0;
    while r < |xs| && xs[r] < x
      invariant r <= |xs|
      invariant forall i :: 0 <= i < r ==> xs[i] < x
    {
      r := r + 1;
    }
  }

  method SortedDistinct(xs: seq<int>) returns (ys: seq<int>)
    ensures Ascends(ys)
    ensures forall x :: x in ys <==> x in xs
  {
    ys := [];
    for i := 0 to |xs|
      invariant Ascends(ys)
      invariant forall x :: x in ys <==> x in xs[..i]
    {
      assert xs[..i + 1] == xs[..i] + [xs[i]];
      var r := LowerBound(ys, xs[i]);
      if r == |ys| || ys[r] != xs[i] {
        ys := ys[..r] + [xs[i]] + ys[r..];
      }
    }
    assert xs[..|xs|] == xs;
  }

  lemma {:induction false} AscendsCard(ys: seq<int>, r: nat, x: int)
    requires Ascends(ys) && r <= |ys|
    requires forall i :: 0 <= i < r ==> ys[i] < x
    requires forall i :: r <= i < |ys| ==> x <= ys[i]
    ensures |Below(IntElems(ys), x)| == r
    decreases r
  {
    if r == 0 {
      assert Below(IntElems(ys), x) == {};
    } else {
      AscendsCard(ys, r - 1, ys[r - 1]);
      assert Below(IntElems(ys), x) == Below(IntElems(ys), ys[r - 1]) + {ys[r - 1]};
    }
  }

  lemma AscendsAll(ys: seq<int>)
    requires Ascends(ys)
    ensures |IntElems(ys)| == |ys|
  {
    if ys == [] {
      assert IntElems(ys) == {};
    } else {
      var x := ys[|ys| - 1] + 1;
      AscendsCard(ys, |ys|, x);
      assert Below(IntElems(ys), x) == IntElems(ys);
    }
  }

  method Normalise(n: nat, vertexColors: seq<int>) returns (initColor: seq<nat>, numInit: nat)
    requires n > 0 && (|vertexColors| == n || vertexColors == [])
    ensures initColor == Start(Wl1Theory.Given(n, vertexColors)).col
    ensures numInit == Start(Wl1Theory.Given(n, vertexColors)).k
    ensures Wl1Order.RanksOf(Wl1Theory.Given(n, vertexColors), initColor, numInit)
  {
    initColor, numInit := seq(n, _ => 0), 1;
    ghost var given := Wl1Theory.Given(n, vertexColors);
    if vertexColors != [] {
      var distinct := SortedDistinct(vertexColors);
      forall x: int ensures x in IntElems(distinct) <==> x in IntElems(vertexColors) {
        assert x in distinct <==> x in vertexColors;
      }
      assert IntElems(distinct) == IntElems(vertexColors);
      AscendsAll(distinct);
      numInit := |distinct|;
      for v := 0 to n
        invariant |initColor| == n
        invariant forall u :: 0 <= u < v ==> initColor[u] == Ranks(given)[u]
      {
        var r := LowerBound(distinct, vertexColors[v]);
        AscendsCard(distinct, r, vertexColors[v]);
        initColor := initColor[v := r];
      }
    } else {
      assert given[0] in IntElems(given);
      assert IntElems(given) == {0};
      assert Below({0}, 0) == {};
    }
    assert initColor == Ranks(given);
    Wl1Order.SmallerIs(given);
  }

  method FillClasses(initColor: seq<nat>, max: nat) returns (cc: seq<seq<nat>>)
    requires forall v :: 0 <= v < |initColor| ==> initColor[v] < max
    ensures |cc| == max && ClassLists(cc, initColor)
  {
    cc := seq(max, _ => []);
    for v := 0 to |initColor|
      invariant |cc| == max && ClassLists(cc, initColor[..v])
    {
      var c := initColor[v];
      assert Class(initColor[..v + 1], c) == Class(initColor[..v], c) + {v};
      forall d: nat | d < max && d != c ensures Class(initColor[..v + 1], d) == Class(initColor[..v], d) {
      }
      assert v !in Elems(cc[c]);
      DistinctAppend(cc[c], v);
      cc := cc[c := cc[c] + [v]];
    }
    assert initColor[..|initColor|] == initColor;
  }

  // ----- the whole run -----

  // One round of the work queue: pop, count, split, clean up.
  method OneRound(g: Csr, coloring0: seq<nat>, cc0: seq<seq<nat>>, stk0: seq<nat>, inStack0: seq<bool>, lastColor0: nat,
                  cd0: seq<nat>, pdcc0: seq<seq<nat>>, maxCD0: seq<nat>, minCD0: seq<nat>)
    returns (coloring: seq<nat>, cc: seq<seq<nat>>, stk: seq<nat>, inStack: seq<bool>, lastColor: nat,
             cd: seq<nat>, pdcc: seq<seq<nat>>, maxCD: seq<nat>, minCD: seq<nat>, ghost scanned: nat, ghost found: nat)
    requires g.Valid() && |coloring0| == g.n && stk0 != []
    requires ValidState(State(coloring0, stk0, lastColor0 + 1))
    requires ClassLists(cc0, coloring0) && QueueFlags(stk0, inStack0) && CleanTables(g.n, cd0, pdcc0, maxCD0)
    requires |cc0| == |pdcc0| == |minCD0| == |inStack0| > g.n
    ensures State(coloring, stk, lastColor + 1) == Round(g, State(coloring0, stk0, lastColor0 + 1))
    ensures ClassLists(cc, coloring) && QueueFlags(stk, inStack) && CleanTables(g.n, cd, pdcc, maxCD)
    ensures |cc| == |pdcc| == |minCD| == |inStack| == |cc0|
    ensures scanned == Rows(g, Class(coloring0, stk0[0]))
    ensures stk0[1..] <= stk
    ensures Wl1Order.InOrder(coloring0, Degrees(g, coloring0, stk0[0]), coloring, lastColor0 + 1, lastColor0 + 1)
    ensures |coloring| == |coloring0| && FoundFor(found, g.n, |Moved(coloring0, coloring)|)
  {
    hide Wl1Order.InOrder;
    ghost var s := State(coloring0, stk0, lastColor0 + 1);
    Wl1Order.RoundIds(g, s);
    Wl1Order.RoundQueue(g, s);
    PoppedValid(s);
    DenseBound(s.col, s.k);
    var cur;
    cur, stk := stk0[0], stk0[1..];
    assert stk0 == [cur] + stk;
    assert cur in Elems(stk0) && cur !in Elems(stk);
    inStack := inStack0[cur := false];
    ghost var p := Popped(s);
    assert QueueFlags(stk, inStack);
    var adj;
    cd, pdcc, maxCD, adj, scanned := CalculateColourDegrees(g, cc0[cur], coloring0, cd0, pdcc0, maxCD0, cur);
    hide SplitUpTo, Degrees, CleanTables, ClassLists, DegreeTables, QueueFlags;
    var toSplit;
    toSplit, minCD := ColoursToSplit(cc0, coloring0, cd, pdcc, maxCD, adj, minCD0, p);
    cc, coloring, stk, inStack, lastColor, found :=
      SplitAdjacent(cd, pdcc, maxCD, minCD, toSplit, adj, cc0, coloring0, stk, inStack, lastColor0);
    cd, pdcc, maxCD := CleanUp(coloring0, cd, pdcc, maxCD, adj);
  }

  // The working storage at the start: every class is queued.
  method SetUp(g: Csr, vertexColors: seq<int>)
    returns (coloring: seq<nat>, cc: seq<seq<nat>>, stk: seq<nat>, inStack: seq<bool>, lastColor: nat,
             cd: seq<nat>, pdcc: seq<seq<nat>>, maxCD: seq<nat>, minCD: seq<nat>)
    requires g.Valid() && g.n > 1 && (|vertexColors| == g.n || vertexColors == [])
    ensures Start(Wl1Theory.Given(g.n, vertexColors)) == State(coloring, stk, lastColor + 1)
    ensures Wl1Order.RanksOf(Wl1Theory.Given(g.n, vertexColors), coloring, lastColor + 1)
    ensures |stk| == lastColor + 1 && forall c :: 0 <= c <= lastColor ==> stk[c] == c
    ensures ClassLists(cc, coloring) && QueueFlags(stk, inStack) && CleanTables(g.n, cd, pdcc, maxCD)
    ensures |cc| == |pdcc| == |minCD| == |inStack| == g.n + 2
  {
    var n := g.n;
    var initColor, numInit := Normalise(n, vertexColors);
    ghost var s := Start(Wl1Theory.Given(n, vertexColors));
    StartValid(Wl1Theory.Given(n, vertexColors));
    DenseBound(s.col, s.k);
    var max := n + 2;
    coloring, cd := initColor, seq(n, _ => 0);
    cc := FillClasses(initColor, max);
    pdcc := seq(max, _ => []);
    maxCD, minCD := seq(max, _ => 0), seq(max, _ => 0);
    assert 0 in Range(n) && coloring[0] < numInit;
    lastColor := numInit - 1;
    stk := seq(numInit, c => c);
    inStack := seq(max, c => c < numInit);
    forall c: nat ensures c in stk <==> c < numInit {
      if c < numInit { assert stk[c] == c; }
    }
    assert QueueFlags(stk, inStack);
  }

  lemma StartFacts(g: Csr, vertexColors: seq<int>)
    requires g.n > 1 && (|vertexColors| == g.n || vertexColors == [])
    ensures var s := Start(Wl1Theory.Given(g.n, vertexColors));
      && ValidState(s) && |s.col| == g.n && s.k <= g.n && Run(g, s).col == Colours(g, vertexColors)
      && Trace(g, s) == RunTrace(g, vertexColors)
  {
    StartValid(Wl1Theory.Given(g.n, vertexColors));
    DenseBound(Start(Wl1Theory.Given(g.n, vertexColors)).col, Start(Wl1Theory.Given(g.n, vertexColors)).k);
  }

  // What one round leaves, and what is left to scan.
  lemma RoundFacts(g: Csr, s: State)
    requires ValidState(s) && s.queue != []
    ensures ValidState(Round(g, s)) && |Round(g, s).col| == |s.col| && Round(g, s).k <= |s.col|
    ensures Run(g, Round(g, s)) == Run(g, s)
    ensures Trace(g, s) == [Class(s.col, s.queue[0])] + Trace(g, Round(g, s))
    ensures s.k < Round(g, s).k || (s.k == Round(g, s).k && |Round(g, s).queue| < |s.queue|)
  {
    RoundProgress(g, s);
    DenseBound(Round(g, s).col, Round(g, s).k);
  }

  lemma RunEnds(g: Csr, s: State)
    requires ValidState(s) && s.queue == []
    ensures Run(g, s) == s && Scans(g, Trace(g, s)) == 0 && Moves(g, s) == 0
  {
  }

  lemma MovesNext(g: Csr, s: State)
    requires ValidState(s) && s.queue != []
    ensures ValidState(Round(g, s)) && |Round(g, s).col| == |s.col|
    ensures Moves(g, s) == |Moved(s.col, Round(g, s).col)| + Moves(g, Round(g, s))
  {
    RoundProgress(g, s);
  }

  lemma ScansNext(g: Csr, popped: set<nat>, later: seq<set<nat>>)
    ensures Scans(g, [popped] + later) == Rows(g, popped) + Scans(g, later)
  {
    assert ([popped] + later)[1..] == later;
  }

  method Run1WL(g: Csr, vertexColors: seq<int>) returns (result: seq<nat>, ghost scanned: nat, ghost found: nat)
    requires g.Valid()
    requires |vertexColors| == g.n || vertexColors == []
    ensures result == Colours(g, vertexColors)
    ensures Wl1Order.GivenIds(Wl1Theory.Given(g.n, vertexColors), result)
    ensures scanned == Scans(g, RunTrace(g, vertexColors))
    ensures g.n <= 1 ==> found == 0
    ensures g.n > 1 ==> ValidState(Start(Wl1Theory.Given(g.n, vertexColors)))
    ensures g.n > 1 ==> FoundFor(found, g.n, Moves(g, Start(Wl1Theory.Given(g.n, vertexColors))))
  {
    Wl1Order.ColoursFollowGiven(g, vertexColors);
    var n := g.n;
    if n == 0 { return [], 0, 0; }
    if n == 1 { return [0], 0, 0; }
    result, scanned, found := RunRounds(g, vertexColors);
  }

  // Rounds until the queue is empty.
  method RunRounds(g: Csr, vertexColors: seq<int>) returns (result: seq<nat>, ghost scanned: nat, ghost found: nat)
    requires g.Valid() && g.n > 1
    requires |vertexColors| == g.n || vertexColors == []
    ensures result == Colours(g, vertexColors)
    ensures scanned == Scans(g, RunTrace(g, vertexColors))
    ensures ValidState(Start(Wl1Theory.Given(g.n, vertexColors)))
    ensures FoundFor(found, g.n, Moves(g, Start(Wl1Theory.Given(g.n, vertexColors))))
  {
    hide *;
    var n := g.n;
    var coloring, cc, stk, inStack, lastColor, cd, pdcc, maxCD, minCD := SetUp(g, vertexColors);
    ghost var s := Start(Wl1Theory.Given(n, vertexColors));
    StartFacts(g, vertexColors);
    scanned, found := 0, 0;
    ghost var moves: nat, all: nat := 0, Moves(g, s);
    NothingFound(n);
    while stk != []
      invariant s == State(coloring, stk, lastColor + 1) && ValidState(s) && |s.col| == n && s.k <= n
      invariant ClassLists(cc, coloring) && QueueFlags(stk, inStack) && CleanTables(n, cd, pdcc, maxCD)
      invariant |cc| == |pdcc| == |minCD| == |inStack| == n + 2
      invariant Run(g, s).col == Colours(g, vertexColors)
      invariant scanned + Scans(g, Trace(g, s)) == Scans(g, RunTrace(g, vertexColors))
      invariant FoundFor(found, n, moves) && moves + Moves(g, s) == all
      decreases n - s.k, |stk|
    {
      ghost var rows, steps;
      coloring, cc, stk, inStack, lastColor, cd, pdcc, maxCD, minCD, rows, steps :=
        OneRound(g, coloring, cc, stk, inStack, lastColor, cd, pdcc, maxCD, minCD);
      RoundFacts(g, s);
      MovesNext(g, s);
      FoundMore(found, steps, n, moves, |Moved(s.col, Round(g, s).col)|);
      moves := moves + |Moved(s.col, Round(g, s).col)|;
      scanned, found := scanned + rows, found + steps;
      ScansNext(g, Class(s.col, s.queue[0]), Trace(g, Round(g, s)));
      s := Round(g, s);
    }
    RunEnds(g, s);
    result := coloring;
  }

  // The stable colouring reached from given colours ([] for none).
  method Compute1WLColorsFrom(g: Csr, colors: seq<int>)
    returns (result: seq<nat>, ghost scanned: nat, ghost found: nat)
    requires g.Valid()
    requires |colors| == g.n || colors == []
    ensures result == Colours(g, colors)
    ensures CoarsestEquitable(Wt(g), Wl1Theory.Given(g.n, colors), result) && DenseColours(result)
    ensures Wl1Order.GivenIds(Wl1Theory.Given(g.n, colors), result)
    ensures g.n > 0 ==> scanned <= (Bits.Log2(g.n) + 1) * ArcCount(g)
    ensures g.n > 0 ==> found <= g.n * ((Bits.Log2(g.n) + 1) * ArcCount(g))
  {
    result, scanned, found := Run1WL(g, colors);
    ColoursCoarsestEquitable(g, colors);
    Wl1Order.ColoursFollowGiven(g, colors);
    if g.n > 0 { ScansBounded(g, colors); }
    if g.n > 1 {
      MovesBounded(g, colors);
      ScaledLeq(g.n, Moves(g, Start(Wl1Theory.Given(g.n, colors))), (Bits.Log2(g.n) + 1) * ArcCount(g));
    }
  }
}
