// What the labels of a coloured AHU encoding mean: registry keys and subtrees of a rooted tree.
module AhuSpec {
  import opened Sums
  import opened Sorting
  import opened AhuTrees
  import Wl1Spec

  type Csr = Wl1Spec.Csr

  // ----- registry keys -----

  datatype Key = Key(colored: bool, color: string, children: seq<nat>)

  function ColourOf(colored: bool, color: string): Colour {
    if colored then Coloured(color) else Uncoloured
  }

  // A key may stand under label l: its children are sorted labels below l.
  ghost predicate KeyOk(k: Key, l: nat) {
    && SortedBy(AtMost, k.children)
    && (forall i :: 0 <= i < |k.children| ==> k.children[i] < l)
    && (!k.colored ==> k.color == "")
  }

  ghost predicate Keys(keys: seq<Key>) {
    && Distinct(keys)
    && forall l :: 0 <= l < |keys| ==> KeyOk(keys[l], l)
  }

  // The tree that a label stands for.
  ghost function TreeOf(keys: seq<Key>, l: nat): Tree
    requires Keys(keys) && l < |keys|
    decreases l
  {
    assert KeyOk(keys[l], l);
    Node(ColourOf(keys[l].colored, keys[l].color),
         seq(|keys[l].children|, i requires 0 <= i < |keys[l].children| => TreeOf(keys, keys[l].children[i])))
  }

  lemma SameKey(keys: seq<Key>, l: nat, m: nat)
    requires Keys(keys) && l < |keys| && m < |keys| && keys[l].children == keys[m].children
    requires TreeOf(keys, l).colour == TreeOf(keys, m).colour
    ensures l == m
  {
    assert KeyOk(keys[l], l) && KeyOk(keys[m], m);
    assert keys[l] == keys[m];
  }

  // Two labels are the same number exactly when their trees are isomorphic.
  lemma {:induction false} LabelsDecide(keys: seq<Key>, l: nat, m: nat)
    requires Keys(keys) && l < |keys| && m < |keys|
    ensures Isomorphic(TreeOf(keys, l), TreeOf(keys, m)) <==> l == m
    decreases l
  {
    var a, b := TreeOf(keys, l), TreeOf(keys, m);
    if l == m {
      IsoReflexive(a);
    } else if Isomorphic(a, b) {
      var xs, ys := keys[l].children, keys[m].children;
      assert KeyOk(keys[l], l) && KeyOk(keys[m], m);
      var p := Pairing(a, b);
      forall i | 0 <= i < |xs| ensures xs[i] == ys[p[i]] {
        assert Isomorphic(a.kids[i], b.kids[p[i]]);
        LabelsDecide(keys, xs[i], ys[p[i]]);
      }
      MatchedMultisets(xs, ys, p);
      AtMostOrder();
      SortedUnique(AtMost, xs, ys);
      SameKey(keys, l, m);
    }
  }

  // Later labels do not disturb earlier ones.
  lemma {:induction false} TreeStays(keys: seq<Key>, more: seq<Key>, l: nat)
    requires Keys(keys) && Keys(more) && keys <= more && l < |keys|
    ensures TreeOf(more, l) == TreeOf(keys, l)
    decreases l
  {
    assert KeyOk(keys[l], l);
    forall i | 0 <= i < |keys[l].children|
      ensures TreeOf(more, keys[l].children[i]) == TreeOf(keys, keys[l].children[i])
    {
      TreeStays(keys, more, keys[l].children[i]);
    }
    assert TreeOf(more, l).kids == TreeOf(keys, l).kids;
  }

  // ----- a rooted tree inside a graph -----

  // verts are the vertices of the tree, up their parents (-1 at the root), depth their depths.
  datatype Rooted = Rooted(g: Csr, colored: seq<bool>, colors: seq<string>, root: nat,
                           verts: set<nat>, up: seq<int>, depth: seq<nat>)
  {
    ghost predicate Valid() {
      && g.Valid() && |colored| == |colors| == |up| == |depth| == g.n
      && root in verts && root < g.n && up[root] == -1
      && (forall v :: v in verts ==> v < g.n)
      && (forall v {:trigger Placed(v)} :: v in verts ==> Placed(v))
      && (forall v {:trigger RowPlaced(v)} :: v in verts ==> RowPlaced(v))
    }

    ghost predicate Placed(v: nat)
      requires |up| == |depth| && v < |up|
    {
      && depth[v] < |depth|
      && (v != root ==> 0 <= up[v] < |up| && up[v] in verts && depth[v] == depth[up[v]] + 1 && IsKid(up[v], v))
    }

    // v occurs in the row of u, and not as its parent.
    ghost predicate IsKid(u: nat, v: nat)
      requires u < |up|
    {
      v as int != up[u] && exists i :: InRow(u, i) && g.neighbours[i] == v
    }

    ghost predicate InRow(u: nat, i: int) {
      u + 1 < |g.offsets| && g.offsets[u] <= i < g.offsets[u + 1] <= |g.neighbours|
    }

    ghost predicate RowPlaced(v: nat)
      requires |up| == |depth| && v < |up|
    {
      forall i {:trigger InRow(v, i)} :: InRow(v, i) && g.neighbours[i] as int != up[v] ==>
        KidPlaced(v, g.neighbours[i])
    }

    ghost predicate KidPlaced(v: nat, w: nat)
      requires |up| == |depth| && v < |up|
    {
      w in verts && w < |up| && up[w] == v && w != root && depth[w] == depth[v] + 1
    }
  }

  // The children in the row of v before position hi.
  ghost function KidsUpTo(t: Rooted, v: nat, hi: nat): (r: seq<nat>)
    requires t.Valid() && v in t.verts && t.g.offsets[v] <= hi <= t.g.offsets[v + 1]
    ensures forall i :: 0 <= i < |r| ==> t.KidPlaced(v, r[i])
    decreases hi
  {
    assert t.g.HasRow(v) && t.RowPlaced(v);
    if hi == t.g.offsets[v] then []
    else
      assert t.InRow(v, hi - 1);
      KidsUpTo(t, v, hi - 1) + (if t.g.neighbours[hi - 1] == t.up[v] then [] else [t.g.neighbours[hi - 1]])
  }

  ghost function Kids(t: Rooted, v: nat): (r: seq<nat>)
    requires t.Valid() && v in t.verts
    ensures forall i :: 0 <= i < |r| ==> t.KidPlaced(v, r[i])
  {
    assert t.g.HasRow(v);
    KidsUpTo(t, v, t.g.offsets[v + 1])
  }

  ghost function SubTree(t: Rooted, v: nat): Tree
    requires t.Valid() && v in t.verts
    decreases |t.depth| - t.depth[v]
  {
    assert t.Placed(v);
    Node(ColourOf(t.colored[v], t.colors[v]),
         seq(|Kids(t, v)|, i requires 0 <= i < |Kids(t, v)| =>
           assert t.KidPlaced(v, Kids(t, v)[i]); SubTree(t, Kids(t, v)[i])))
  }

  // ----- labels on the vertices of the tree -----

  ghost function LabelsAt(labels: seq<int>, vs: seq<nat>): (r: seq<nat>)
    requires forall i :: 0 <= i < |vs| ==> vs[i] < |labels| && labels[vs[i]] >= 0
    ensures |r| == |vs|
  {
    seq(|vs|, i requires 0 <= i < |vs| => labels[vs[i]])
  }

  ghost function KeyAt(t: Rooted, v: nat, ch: seq<nat>): Key
    requires t.Valid() && v in t.verts
  {
    Key(t.colored[v], if t.colored[v] then t.colors[v] else "", Sort(AtMost, ch))
  }

  ghost predicate LabelledIn(labels: seq<int>, bound: nat, done: set<nat>) {
    forall v :: v in done ==> v < |labels| && 0 <= labels[v] < bound
  }

  ghost predicate KidsIn(t: Rooted, v: nat, done: set<nat>)
    requires t.Valid() && v in t.verts
  {
    forall i :: 0 <= i < |Kids(t, v)| ==> Kids(t, v)[i] in done
  }

  ghost predicate EncodedAt(t: Rooted, keys: seq<Key>, labels: seq<int>, done: set<nat>, v: nat)
    requires t.Valid() && LabelledIn(labels, |keys|, done) && v in done && v in t.verts
  {
    && KidsIn(t, v, done)
    && keys[labels[v]] == KeyAt(t, v, LabelsAt(labels, Kids(t, v)))
  }

  // The vertices in done, and with each its children, carry the labels of their keys.
  ghost predicate Encoded(t: Rooted, keys: seq<Key>, labels: seq<int>, done: set<nat>) {
    && t.Valid() && Keys(keys) && done <= t.verts && LabelledIn(labels, |keys|, done)
    && forall v :: v in done ==> EncodedAt(t, keys, labels, done, v)
  }

  // The label of a vertex stands for its subtree.
  lemma {:induction false} LabelMeansSubTree(t: Rooted, keys: seq<Key>, labels: seq<int>, done: set<nat>, v: nat)
    requires Encoded(t, keys, labels, done) && v in done
    ensures Isomorphic(TreeOf(keys, labels[v]), SubTree(t, v))
    decreases |t.depth| - t.depth[v]
  {
    var kids := Kids(t, v);
    assert t.Placed(v) && EncodedAt(t, keys, labels, done, v);
    var ls := LabelsAt(labels, kids);
    var l: nat := labels[v];
    var xs := keys[l].children;
    assert KeyOk(keys[l], l);
    var p := Matching(xs, ls);
    var a, b := TreeOf(keys, l), SubTree(t, v);
    forall i | 0 <= i < |xs| ensures Isomorphic(a.kids[i], b.kids[p[i]]) {
      var w := kids[p[i]];
      assert t.KidPlaced(v, w);
      assert xs[i] == ls[p[i]] == labels[w];
      LabelMeansSubTree(t, keys, labels, done, w);
    }
    assert Pairs(a, b, p);
  }

  // A child's label is below its parent's.
  lemma ChildBelow(t: Rooted, keys: seq<Key>, labels: seq<int>, done: set<nat>, v: nat, i: nat)
    requires Encoded(t, keys, labels, done) && v in done && i < |Kids(t, v)|
    ensures Kids(t, v)[i] in done && labels[Kids(t, v)[i]] < labels[v]
  {
    assert EncodedAt(t, keys, labels, done, v);
    var ls, l := LabelsAt(labels, Kids(t, v)), labels[v];
    assert KeyOk(keys[l], l);
    assert ls[i] in multiset(ls);
    assert ls[i] in multiset(keys[l].children);
  }

  lemma IsListed(t: Rooted, u: nat, v: nat)
    requires t.Valid() && u in t.verts && t.IsKid(u, v)
    ensures v in Kids(t, u)
  {
    var i: nat :| t.InRow(u, i) && t.g.neighbours[i] == v;
    KidListed(t, u, i, t.g.offsets[u + 1]);
  }

  // Once the root is encoded, so is the whole tree.
  lemma {:induction false} AllEncoded(t: Rooted, keys: seq<Key>, labels: seq<int>, done: set<nat>, v: nat)
    requires Encoded(t, keys, labels, done) && t.root in done && v in t.verts
    ensures v in done
    decreases t.depth[v]
  {
    if v != t.root {
      assert t.Placed(v);
      var u: nat := t.up[v];
      AllEncoded(t, keys, labels, done, u);
      assert EncodedAt(t, keys, labels, done, u);
      IsListed(t, u, v);
    }
  }

  lemma {:induction false} KidListed(t: Rooted, v: nat, i: nat, hi: nat)
    requires t.Valid() && v in t.verts && t.InRow(v, i) && i < hi <= t.g.offsets[v + 1]
    requires t.g.neighbours[i] != t.up[v]
    ensures t.g.neighbours[i] in KidsUpTo(t, v, hi)
    decreases hi
  {
    if i < hi - 1 { KidListed(t, v, i, hi - 1); }
  }

  // Main theorem: in any two trees labelled through one registry, at any two moments, two
  // vertices have one label exactly when their coloured subtrees are isomorphic.
  lemma SameLabelIffIsomorphic(t1: Rooted, keys1: seq<Key>, labels1: seq<int>, done1: set<nat>, v1: nat,
                               t2: Rooted, keys2: seq<Key>, labels2: seq<int>, done2: set<nat>, v2: nat)
    requires Encoded(t1, keys1, labels1, done1) && v1 in done1
    requires Encoded(t2, keys2, labels2, done2) && v2 in done2
    requires keys1 <= keys2
    ensures labels1[v1] == labels2[v2] <==> Isomorphic(SubTree(t1, v1), SubTree(t2, v2))
  {
    var l1: nat, l2: nat := labels1[v1], labels2[v2];
    LabelMeansSubTree(t1, keys1, labels1, done1, v1);
    LabelMeansSubTree(t2, keys2, labels2, done2, v2);
    TreeStays(keys1, keys2, l1);
    LabelsDecide(keys2, l1, l2);
    var a, b, s1, s2 := TreeOf(keys2, l1), TreeOf(keys2, l2), SubTree(t1, v1), SubTree(t2, v2);
    IsoSymmetric(a, s1);
    IsoSymmetric(b, s2);
    hide *;
    if Isomorphic(a, b) {
      IsoTransitive(s1, a, b);
      IsoTransitive(s1, b, s2);
    }
    if Isomorphic(s1, s2) {
      IsoTransitive(a, s1, s2);
      IsoTransitive(a, s2, b);
    }
  }
}
