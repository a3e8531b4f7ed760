// Menger's theorem for the computed flow: its value is the greatest number of arc-disjoint paths.
module EdgePaths {
  import opened Sums
  import opened Graphs
  import opened EdgeFlow
  import opened EdgeConnectivity

  ghost predicate Path(g: Graph, p: seq<nat>, s: nat, t: nat) {
    && 0 < |p| && p[0] == s && p[|p| - 1] == t
    && (forall i :: 0 <= i < |p| ==> p[i] < |g|)
    && (forall i, j :: 0 <= i < j < |p| && j == i + 1 ==> p[j] in g[p[i]])
  }

  ghost function ArcsOf(p: seq<nat>): set<(nat, nat)> {
    set i, j | 0 <= i < |p| && 0 <= j < |p| && j == i + 1 :: (p[i], p[j])
  }

  // Paths from s to t, no two of which share an arc.
  ghost predicate DisjointPaths(g: Graph, fam: seq<seq<nat>>, s: nat, t: nat) {
    && (forall i :: 0 <= i < |fam| ==> Path(g, fam[i], s, t))
    && (forall i, j :: 0 <= i < j < |fam| ==> ArcsOf(fam[i]) !! ArcsOf(fam[j]))
  }

  // ----- at most as many paths as arcs in a cut -----

  lemma {:induction false} PathLeaves(g: Graph, p: seq<nat>, s: nat, t: nat, cut: set<nat>) returns (a: (nat, nat))
    requires Path(g, p, s, t) && s in cut && t !in cut
    ensures a in ArcsOf(p) && a in CutArcs(g, cut)
    decreases |p|
  {
    assert |p| > 1;
    assert p[1] in g[p[0]];
    if p[1] !in cut {
      a := (p[0], p[1]);
    } else {
      var rest := p[1..];
      assert forall i :: 0 <= i < |rest| ==> rest[i] == p[i + 1];
      assert Path(g, rest, p[1], t);
      a := PathLeaves(g, rest, p[1], t, cut);
      ArcsOfTail(p);
    }
  }

  lemma ArcsOfTail(p: seq<nat>)
    requires |p| > 1
    ensures ArcsOf(p) == {(p[0], p[1])} + ArcsOf(p[1..])
  {
    var rest := p[1..];
    assert forall i :: 0 <= i < |rest| ==> rest[i] == p[i + 1];
    forall a | a in ArcsOf(p) ensures a in {(p[0], p[1])} + ArcsOf(rest) {
      var i, j :| 0 <= i < j < |p| && j == i + 1 && a == (p[i], p[j]);
      if i > 0 { assert a == (rest[i - 1], rest[j - 1]); }
    }
    forall a | a in ArcsOf(rest) ensures a in ArcsOf(p) {
      var i, j :| 0 <= i < j < |rest| && j == i + 1 && a == (rest[i], rest[j]);
      assert a == (p[i + 1], p[j + 1]);
    }
  }

  lemma {:induction false} OneArcEach(fam: seq<seq<nat>>, arcs: set<(nat, nat)>)
    requires forall i, j :: 0 <= i < j < |fam| ==> ArcsOf(fam[i]) !! ArcsOf(fam[j])
    requires forall i :: 0 <= i < |fam| ==> ArcsOf(fam[i]) * arcs != {}
    ensures |fam| <= |arcs|
    decreases |fam|
  {
    if fam != [] {
      var last, rest := ArcsOf(fam[|fam| - 1]), fam[..|fam| - 1];
      forall i | 0 <= i < |rest| ensures ArcsOf(rest[i]) * (arcs - last) != {} {
        var a := Pick(ArcsOf(rest[i]) * arcs);
        assert a !in last;
        assert a in ArcsOf(rest[i]) * (arcs - last);
      }
      OneArcEach(rest, arcs - last);
      var b := Pick(last * arcs);
      SubsetCard(arcs - last, arcs - {b});
    }
  }

  lemma PathsAtMostCut(g: Graph, fam: seq<seq<nat>>, s: nat, t: nat, cut: set<nat>)
    requires DisjointPaths(g, fam, s, t) && Separates(g, cut, s, t)
    ensures |fam| <= Leaving(g, cut)
  {
    forall i | 0 <= i < |fam| ensures ArcsOf(fam[i]) * CutArcs(g, cut) != {} {
      var a := PathLeaves(g, fam[i], s, t, cut);
      assert a in ArcsOf(fam[i]) * CutArcs(g, cut);
    }
    OneArcEach(fam, CutArcs(g, cut));
  }

  // ----- a flow of value k contains k paths -----

  ghost function FlowGraph(paths: Graph): Graph {
    seq(|paths|, u requires 0 <= u => set v: nat | v in Range(|paths|) && u in paths[v])
  }

  ghost predicate Reaches(g: Graph, s: nat, x: nat) {
    exists p :: Path(g, p, s, x)
  }

  lemma ReachesNext(g: Graph, s: nat, x: nat, y: nat)
    requires Reaches(g, s, x) && x < |g| && y in g[x] && y < |g|
    ensures Reaches(g, s, y)
  {
    var p :| Path(g, p, s, x);
    var q := p + [y];
    assert Path(g, q, s, y);
  }

  // Positive flow leaves every cut, so it connects s to t.
  lemma FlowConnects(g: Graph, paths: Graph, s: nat, t: nat, k: int)
    requires Flow(g, paths, s, t, k) && k > 0
    ensures Reaches(FlowGraph(paths), s, t)
  {
    var f := FlowGraph(paths);
    var reach := set x | x in Range(|g|) && Reaches(f, s, x);
    if t !in reach {
      assert Path(f, [s], s, s);
      FlowAcrossCut(g, paths, s, t, k, reach);
      var far := Range(|g|) - reach;
      forall v | v in reach ensures Sum(far, (w: nat) => D(paths, v, w)) <= 0 {
        forall w | w in far ensures D(paths, v, w) <= 0 {
          if Carries(paths, v, w) { ReachesNext(f, s, v, w); }
        }
        SumMonotone(far, (w: nat) => D(paths, v, w), (w: nat) => 0);
        SumZero(far, (w: nat) => 0);
      }
      SumMonotone(reach, (v: nat) => Sum(far, (w: nat) => D(paths, v, w)), (v: nat) => 0);
      SumZero(reach, (v: nat) => 0);
    }
  }

  lemma {:induction false} SimplePath(g: Graph, p: seq<nat>, s: nat, t: nat) returns (q: seq<nat>)
    requires Path(g, p, s, t)
    ensures Path(g, q, s, t) && Distinct(q)
    decreases |p|
  {
    if Distinct(p) {
      q := p;
    } else {
      var i, j :| 0 <= i < j < |p| && p[i] == p[j];
      var short := p[..i] + p[j..];
      forall h, l | 0 <= h < l < |short| && l == h + 1 ensures short[l] in g[short[h]] {
        if l <= i {
          assert p[l] in g[p[h]];
        } else {
          assert p[l - i + j] in g[p[h - i + j]];
        }
      }
      q := SimplePath(g, short, s, t);
    }
  }

  // Take one unit of flow off every arc of the path.
  lemma {:induction false} CancelPath(g: Graph, paths: Graph, p: seq<nat>, s: nat, t: nat) returns (after: Graph)
    requires FlowArcs(g, paths) && Path(FlowGraph(paths), p, s, t) && Distinct(p)
    ensures FlowArcs(g, after)
    ensures forall x: nat :: x < |g| ==>
      Net(after, x) == Net(paths, x) - (if x == s then 1 else 0) + (if x == t then 1 else 0)
    ensures forall x: nat, y: nat :: Carries(after, x, y) ==> Carries(paths, x, y) && (x, y) !in ArcsOf(p)
    ensures forall x: nat, y: nat :: Carries(paths, x, y) && x !in p ==> Carries(after, x, y)
    decreases |p|
  {
    if |p| == 1 {
      after := paths;
    } else {
      var u, rest := p[1], p[1..];
      assert p[1] in FlowGraph(paths)[p[0]];
      PushedNet(g, paths, u, s);
      var next := Pushed(paths, u, s);
      forall i, j | 0 <= i < j < |rest| && j == i + 1 ensures rest[j] in FlowGraph(next)[rest[i]] {
        assert p[j + 1] in FlowGraph(paths)[p[i + 1]];
      }
      assert Path(FlowGraph(next), rest, u, t);
      after := CancelPath(g, next, rest, u, t);
      ArcsOfTail(p);
      assert !Carries(next, s, u);
    }
  }

  lemma PathInFlow(g: Graph, paths: Graph, p: seq<nat>, s: nat, t: nat)
    requires FlowArcs(g, paths) && Path(FlowGraph(paths), p, s, t)
    ensures Path(g, p, s, t)
    ensures forall a :: a in ArcsOf(p) ==> Carries(paths, a.0, a.1)
  {
    forall i, j | 0 <= i < j < |p| && j == i + 1 ensures p[j] in g[p[i]] && Carries(paths, p[i], p[j]) {
      assert p[j] in FlowGraph(paths)[p[i]];
    }
  }

  lemma {:induction false} FlowToPaths(g: Graph, paths: Graph, s: nat, t: nat, k: nat) returns (fam: seq<seq<nat>>)
    requires Flow(g, paths, s, t, k)
    ensures |fam| == k && DisjointPaths(g, fam, s, t)
    ensures forall i, a :: 0 <= i < |fam| && a in ArcsOf(fam[i]) ==> Carries(paths, a.0, a.1)
    decreases k
  {
    if k == 0 {
      fam := [];
    } else {
      FlowConnects(g, paths, s, t, k);
      var p :| Path(FlowGraph(paths), p, s, t);
      var q := SimplePath(FlowGraph(paths), p, s, t);
      var after := CancelPath(g, paths, q, s, t);
      var rest := FlowToPaths(g, after, s, t, k - 1);
      PathInFlow(g, paths, q, s, t);
      fam := [q] + rest;
      forall j | 1 <= j < |fam| ensures ArcsOf(fam[0]) !! ArcsOf(fam[j]) {
        forall a | a in ArcsOf(rest[j - 1]) ensures a !in ArcsOf(q) {
          assert Carries(after, a.0, a.1);
        }
      }
    }
  }

  // ----- what the capped flow computes -----

  // value is the smaller of maxneeded and the greatest number of arc-disjoint paths from s to t.
  ghost predicate CappedMaxPaths(g: Graph, s: nat, t: nat, maxneeded: int, value: int) {
    && value <= maxneeded
    && (value >= 0 ==> exists fam :: |fam| == value && DisjointPaths(g, fam, s, t))
    && (value == maxneeded || forall fam :: DisjointPaths(g, fam, s, t) ==> |fam| <= value)
  }

  // Main theorem: whatever MaxEdgeFlow1 returns is a capped maximum of arc-disjoint paths.
  lemma FlowCountsPaths(g: Graph, s: nat, t: nat, maxneeded: int, value: int)
    requires CappedMinCut(g, s, t, maxneeded, value) && (value >= 0 ==> HasFlow(g, s, t, value))
    ensures CappedMaxPaths(g, s, t, maxneeded, value)
  {
    if value >= 0 {
      var paths: Graph :| Flow(g, paths, s, t, value);
      var fam := FlowToPaths(g, paths, s, t, value);
    }
    if value != maxneeded {
      var cut :| TightCut(g, s, t, cut, value);
      forall fam | DisjointPaths(g, fam, s, t) ensures |fam| <= value {
        PathsAtMostCut(g, fam, s, t, cut);
      }
    }
  }
}
