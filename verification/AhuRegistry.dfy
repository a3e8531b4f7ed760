// The registry of AHU keys and the encoder that fills it, tree by tree.
module AhuRegistry {
  import opened Sorting
  import opened AhuTrees
  import opened AhuSpec

  datatype Frame = Frame(node: nat, parent: int, pos: nat)

  // ----- the search stack -----

  ghost predicate FrameOk(t: Rooted, f: Frame) {
    && t.Valid() && f.node in t.verts && f.parent == t.up[f.node]
    && t.g.HasRow(f.node) && t.g.offsets[f.node] <= f.pos <= t.g.offsets[f.node + 1]
  }

  // f has just gone down into the child c.
  ghost predicate Entered(t: Rooted, f: Frame, c: Frame)
    requires FrameOk(t, f)
  {
    && t.g.offsets[f.node] < f.pos && t.g.neighbours[f.pos - 1] == c.node
    && c.node as int != f.parent
  }

  // The children of f before position hi are encoded.
  ghost predicate KidsDone(t: Rooted, f: Frame, hi: int, done: set<nat>)
    requires FrameOk(t, f)
  {
    forall i {:trigger t.g.neighbours[i]} ::
      (t.g.offsets[f.node] <= i < hi && i < t.g.offsets[f.node + 1] && t.g.neighbours[i] as int != f.parent)
      ==> t.g.neighbours[i] in done
  }

  ghost predicate InnerFrame(t: Rooted, stk: seq<Frame>, j: nat, done: set<nat>)
    requires j + 1 < |stk|
  {
    FrameOk(t, stk[j]) && Entered(t, stk[j], stk[j + 1]) && KidsDone(t, stk[j], stk[j].pos - 1, done)
  }

  ghost predicate Stack(t: Rooted, stk: seq<Frame>, done: set<nat>) {
    && 0 < |stk| && stk[0].node == t.root
    && FrameOk(t, stk[|stk| - 1]) && KidsDone(t, stk[|stk| - 1], stk[|stk| - 1].pos, done)
    && forall j {:trigger InnerFrame(t, stk, j, done)} :: 0 <= j < |stk| - 1 ==> InnerFrame(t, stk, j, done)
  }

  ghost predicate StackOrEnd(t: Rooted, stk: seq<Frame>, done: set<nat>) {
    if stk == [] then t.root in done else Stack(t, stk, done)
  }

  // The number of steps that a frame has ahead of it.
  ghost function Ahead(t: Rooted, v: nat, pos: nat): (r: nat)
    requires v < |t.up| && FrameOk(t, Frame(v, t.up[v], pos))
    ensures r > 0
    decreases |t.depth| - t.depth[v], t.g.offsets[v + 1] - pos
  {
    assert t.Placed(v) && t.RowPlaced(v);
    if pos == t.g.offsets[v + 1] then 1
    else
      assert t.InRow(v, pos);
      var w := t.g.neighbours[pos];
      if w as int == t.up[v] then 1 + Ahead(t, v, pos + 1)
      else
        assert t.KidPlaced(v, w) && t.Placed(w) && t.g.HasRow(w);
        1 + Ahead(t, w, t.g.offsets[w]) + Ahead(t, v, pos + 1)
  }

  ghost predicate FramesOk(t: Rooted, stk: seq<Frame>) {
    forall j :: 0 <= j < |stk| ==> FrameOk(t, stk[j])
  }

  ghost function TotalAhead(t: Rooted, stk: seq<Frame>): nat
    requires FramesOk(t, stk)
  {
    if stk == [] then 0
    else
      var f := stk[|stk| - 1];
      assert FrameOk(t, f);
      TotalAhead(t, stk[..|stk| - 1]) + Ahead(t, f.node, f.pos)
  }

  lemma StackFrames(t: Rooted, stk: seq<Frame>, done: set<nat>)
    requires Stack(t, stk, done)
    ensures FramesOk(t, stk)
  {
    forall j | 0 <= j < |stk| ensures FrameOk(t, stk[j]) {
      if j < |stk| - 1 { assert InnerFrame(t, stk, j, done); }
    }
  }

  lemma TopAhead(t: Rooted, stk: seq<Frame>, f: Frame)
    requires FramesOk(t, stk) && FrameOk(t, f)
    ensures FramesOk(t, stk + [f]) && TotalAhead(t, stk + [f]) == TotalAhead(t, stk) + Ahead(t, f.node, f.pos)
  {
    var all := stk + [f];
    assert all[..|all| - 1] == stk;
    forall j | 0 <= j < |all| ensures FrameOk(t, all[j]) {
      if j < |stk| { assert FrameOk(t, stk[j]); }
    }
  }

  lemma FirstFrame(t: Rooted)
    requires t.Valid()
    ensures Stack(t, [Frame(t.root, -1, t.g.offsets[t.root])], {})
  {
    assert t.g.HasRow(t.root);
  }

  // Step over the entry of the parent.
  lemma SkipParent(t: Rooted, stk: seq<Frame>, f: Frame, done: set<nat>)
    requires Stack(t, stk + [f], done) && f.pos < t.g.offsets[f.node + 1] && t.g.neighbours[f.pos] as int == f.parent
    ensures Stack(t, stk + [f.(pos := f.pos + 1)], done)
    ensures FramesOk(t, stk + [f]) && FramesOk(t, stk + [f.(pos := f.pos + 1)])
    ensures TotalAhead(t, stk + [f.(pos := f.pos + 1)]) < TotalAhead(t, stk + [f])
  {
    var f1 := f.(pos := f.pos + 1);
    var all, all1 := stk + [f], stk + [f1];
    assert all[|all| - 1] == f && all1[|all1| - 1] == f1;
    forall j | 0 <= j < |all1| - 1 ensures InnerFrame(t, all1, j, done) {
      assert InnerFrame(t, all, j, done);
    }
    StackFrames(t, all, done);
    StackFrames(t, all1, done);
    FramesBelow(t, stk, f);
    TopAhead(t, stk, f);
    TopAhead(t, stk, f1);
    assert Ahead(t, f.node, f.pos) == 1 + Ahead(t, f.node, f.pos + 1);
  }

  // The frame that is opened for the next child.
  function ChildFrame(g: Csr, f: Frame): (c: Frame)
    requires f.pos < |g.neighbours| && g.neighbours[f.pos] < |g.offsets|
  {
    Frame(g.neighbours[f.pos], f.node, g.offsets[g.neighbours[f.pos]])
  }

  ghost predicate AtChild(t: Rooted, f: Frame) {
    FrameOk(t, f) && f.pos < t.g.offsets[f.node + 1] && t.g.neighbours[f.pos] as int != f.parent
  }

  lemma ChildOk(t: Rooted, f: Frame)
    requires AtChild(t, f)
    ensures f.pos < |t.g.neighbours| && t.g.neighbours[f.pos] < |t.g.offsets|
    ensures FrameOk(t, ChildFrame(t.g, f)) && FrameOk(t, f.(pos := f.pos + 1))
    ensures Entered(t, f.(pos := f.pos + 1), ChildFrame(t.g, f))
    ensures Ahead(t, f.node, f.pos)
         == 1 + Ahead(t, ChildFrame(t.g, f).node, ChildFrame(t.g, f).pos) + Ahead(t, f.node, f.pos + 1)
  {
    var w := t.g.neighbours[f.pos];
    assert t.RowPlaced(f.node) && t.InRow(f.node, f.pos) && t.KidPlaced(f.node, w) && t.g.HasRow(w);
  }

  // Go down into the next child.
  lemma Descend(t: Rooted, stk: seq<Frame>, f: Frame, done: set<nat>)
    requires Stack(t, stk + [f], done) && AtChild(t, f)
    ensures f.pos < |t.g.neighbours| && t.g.neighbours[f.pos] < |t.g.offsets|
    ensures Stack(t, stk + [f.(pos := f.pos + 1)] + [ChildFrame(t.g, f)], done)
  {
    ChildOk(t, f);
    var f1, c := f.(pos := f.pos + 1), ChildFrame(t.g, f);
    var all, all1 := stk + [f], stk + [f1] + [c];
    assert all[|all| - 1] == f && all1[|all1| - 1] == c && all1[|all1| - 2] == f1;
    assert KidsDone(t, f, f.pos, done) && KidsDone(t, f1, f1.pos - 1, done) && KidsDone(t, c, c.pos, done);
    hide Ahead, KidsDone, Entered, FrameOk, AtChild;
    forall j | 0 <= j < |all1| - 1 ensures InnerFrame(t, all1, j, done) {
      if j < |stk| {
        assert InnerFrame(t, all, j, done);
      }
    }
    assert all1[0].node == all[0].node;
  }

  lemma DescendAhead(t: Rooted, stk: seq<Frame>, f: Frame, done: set<nat>)
    requires Stack(t, stk + [f], done) && AtChild(t, f)
    requires f.pos < |t.g.neighbours| && t.g.neighbours[f.pos] < |t.g.offsets|
    requires Stack(t, stk + [f.(pos := f.pos + 1)] + [ChildFrame(t.g, f)], done)
    ensures FramesOk(t, stk + [f]) && FramesOk(t, stk + [f.(pos := f.pos + 1)] + [ChildFrame(t.g, f)])
    ensures TotalAhead(t, stk + [f.(pos := f.pos + 1)] + [ChildFrame(t.g, f)]) < TotalAhead(t, stk + [f])
  {
    var f1, c := f.(pos := f.pos + 1), ChildFrame(t.g, f);
    ChildOk(t, f);
    StackFrames(t, stk + [f], done);
    StackFrames(t, stk + [f1] + [c], done);
    FramesBelow(t, stk, f);
    hide Stack, AtChild, Entered, FrameOk, FramesOk, Ahead, TotalAhead;
    TopAhead(t, stk, f);
    TopAhead(t, stk, f1);
    TopAhead(t, stk + [f1], c);
  }

  lemma FramesBelow(t: Rooted, stk: seq<Frame>, f: Frame)
    requires FramesOk(t, stk + [f])
    ensures FramesOk(t, stk) && FrameOk(t, f)
  {
    var all := stk + [f];
    assert all[|stk|] == f;
    assert forall j :: 0 <= j < |stk| ==> stk[j] == all[j];
  }

  // Leave a vertex once it is encoded.
  lemma Leave(t: Rooted, stk: seq<Frame>, f: Frame, done: set<nat>)
    requires Stack(t, stk + [f], done)
    ensures StackOrEnd(t, stk, done + {f.node})
    ensures FramesOk(t, stk + [f]) && FramesOk(t, stk) && TotalAhead(t, stk) < TotalAhead(t, stk + [f])
  {
    var all, done1 := stk + [f], done + {f.node};
    assert all[|all| - 1] == f;
    StackFrames(t, all, done);
    FramesBelow(t, stk, f);
    TopAhead(t, stk, f);
    if stk != [] {
      forall j | 0 <= j < |stk| - 1 ensures InnerFrame(t, stk, j, done1) {
        assert InnerFrame(t, all, j, done);
      }
      assert InnerFrame(t, all, |stk| - 1, done);
      assert stk[0] == all[0];
    } else {
      assert all[0] == f;
    }
  }

  predicate PosOk(g: Csr, f: Frame) {
    f.node < g.n && f.node + 1 < |g.offsets| && f.pos <= g.offsets[f.node + 1] <= |g.neighbours|
  }

  lemma TopFrame(t: Rooted, stk: seq<Frame>, rest: seq<Frame>, f: Frame, done: set<nat>)
    requires stk != [] && StackOrEnd(t, stk, done) && rest == stk[..|stk| - 1] && f == stk[|stk| - 1]
    ensures stk == rest + [f] && Stack(t, rest + [f], done) && FrameOk(t, f) && PosOk(t.g, f)
    ensures FramesOk(t, stk)
  {
    StackFrames(t, stk, done);
  }

  lemma StackStarts(t: Rooted, stk: seq<Frame>, done: set<nat>)
    requires Stack(t, stk, done)
    ensures stk != [] && StackOrEnd(t, stk, done)
  {
  }

  lemma WholeTree(t: Rooted, keys: seq<Key>, labels: seq<int>, done: set<nat>)
    requires Encoded(t, keys, labels, done) && StackOrEnd(t, [], done)
    ensures done == t.verts
  {
    forall v | v in t.verts ensures v in done {
      AllEncoded(t, keys, labels, done, v);
    }
  }

  lemma NoneEncoded(t: Rooted, keys: seq<Key>, labels: seq<int>)
    requires t.Valid() && Keys(keys)
    ensures Encoded(t, keys, labels, {})
  {
  }

  lemma AtAChild(t: Rooted, f: Frame)
    requires FrameOk(t, f) && PosOk(t.g, f)
    requires f.pos < t.g.offsets[f.node + 1] && t.g.neighbours[f.pos] as int != f.parent
    ensures AtChild(t, f)
  {
  }

  lemma RowEnds(t: Rooted, rest: seq<Frame>, f: Frame, done: set<nat>)
    requires Stack(t, rest + [f], done) && PosOk(t.g, f) && f.pos == t.g.offsets[f.node + 1]
    ensures FrameOk(t, f) && f.node in t.verts && f.parent == t.up[f.node] && KidsIn(t, f.node, done)
  {
    var all := rest + [f];
    assert all[|all| - 1] == f;
    KidsEncoded(t, f, done);
  }

  lemma {:induction false} RowDone(t: Rooted, f: Frame, done: set<nat>, hi: nat)
    requires FrameOk(t, f) && t.g.offsets[f.node] <= hi <= t.g.offsets[f.node + 1]
    requires KidsDone(t, f, t.g.offsets[f.node + 1], done)
    ensures forall x :: x in KidsUpTo(t, f.node, hi) ==> x in done
    decreases hi
  {
    if hi > t.g.offsets[f.node] { RowDone(t, f, done, hi - 1); }
  }

  lemma KidsEncoded(t: Rooted, f: Frame, done: set<nat>)
    requires FrameOk(t, f) && KidsDone(t, f, t.g.offsets[f.node + 1], done)
    ensures KidsIn(t, f.node, done)
  {
    RowDone(t, f, done, t.g.offsets[f.node + 1]);
  }

  // ----- labelling one more vertex -----

  // A vertex whose children are encoded gets the label of its key.
  lemma OneMore(t: Rooted, keys: seq<Key>, labels: seq<int>, done: set<nat>, v: nat,
                more: seq<Key>, l: nat)
    requires Encoded(t, keys, labels, done) && v in t.verts && v < |labels| == t.g.n
    requires KidsIn(t, v, done) && LabelledIn(labels, |keys|, done)
    requires keys <= more && Keys(more) && l < |more| && more[l] == KeyAt(t, v, LabelsAt(labels, Kids(t, v)))
    ensures Encoded(t, more, labels[v := l], done + {v})
  {
    hide Rooted.Valid, Keys, EncodedAt, KeyAt, Kids, KidsIn, LabelsAt;
    var labels1, done1 := labels[v := l], done + {v};
    SameLabelAgain(t, keys, labels, done, v, more, l);
    StillLabelled(labels, |keys|, done, v, |more|, l);
    forall u | u in done1 ensures EncodedAt(t, more, labels1, done1, u) {
      OneMoreAt(t, keys, labels, done, v, more, labels1, u);
    }
  }

  lemma StillLabelled(labels: seq<int>, bound: nat, done: set<nat>, v: nat, bound1: nat, l: nat)
    requires LabelledIn(labels, bound, done) && bound <= bound1 && l < bound1 && v < |labels|
    ensures LabelledIn(labels[v := l], bound1, done + {v})
  {
  }

  lemma SameLabelAgain(t: Rooted, keys: seq<Key>, labels: seq<int>, done: set<nat>, v: nat, more: seq<Key>, l: nat)
    requires Encoded(t, keys, labels, done) && v in t.verts
    requires keys <= more && Keys(more) && l < |more|
    requires KidsIn(t, v, done) && more[l] == KeyAt(t, v, LabelsAt(labels, Kids(t, v)))
    ensures v in done ==> labels[v] == l
  {
    if v in done {
      assert EncodedAt(t, keys, labels, done, v);
      hide KeyAt, Kids, LabelsAt, KidsIn, Rooted.Valid, KeyOk;
      assert more[labels[v]] == more[l];
    }
  }

  lemma OneMoreAt(t: Rooted, keys: seq<Key>, labels: seq<int>, done: set<nat>, v: nat,
                  more: seq<Key>, labels1: seq<int>, u: nat)
    requires Encoded(t, keys, labels, done) && v in t.verts && u in t.verts && v < |labels| == |labels1| == t.g.n
    requires labels1 == labels[v := labels1[v]] && LabelledIn(labels1, |more|, done + {v}) && keys <= more
    requires v in done ==> labels1[v] == labels[v]
    requires KidsIn(t, v, done) && more[labels1[v]] == KeyAt(t, v, LabelsAt(labels, Kids(t, v)))
    requires u in done || u == v
    ensures EncodedAt(t, more, labels1, done + {v}, u)
  {
    hide Rooted.Valid, KeyAt, Keys, LabelsAt, Kids;
    SameChildLabels(t, labels, labels1, |keys|, done, v, u);
  }

  lemma SameChildLabels(t: Rooted, labels: seq<int>, labels1: seq<int>, bound: nat, done: set<nat>, v: nat, u: nat)
    requires t.Valid() && u in t.verts && KidsIn(t, u, done) && LabelledIn(labels, bound, done)
    requires v < |labels| && |labels1| == |labels|
    requires forall x :: 0 <= x < |labels| && (x != v || v in done) ==> labels1[x] == labels[x]
    ensures KidsIn(t, u, done + {v})
    ensures forall i :: 0 <= i < |Kids(t, u)| ==> Kids(t, u)[i] < |labels1| && labels1[Kids(t, u)[i]] >= 0
    ensures LabelsAt(labels1, Kids(t, u)) == LabelsAt(labels, Kids(t, u))
  {
    var kids := Kids(t, u);
    forall i | 0 <= i < |kids| ensures kids[i] in done && labels1[kids[i]] == labels[kids[i]] {
    }
  }

  lemma ChildLabelsOk(t: Rooted, labels: seq<int>, bound: nat, done: set<nat>, v: nat, ch: seq<nat>)
    requires t.Valid() && v in t.verts && KidsIn(t, v, done) && LabelledIn(labels, bound, done)
    requires ch == LabelsAt(labels, Kids(t, v))
    ensures SortedBy(AtMost, Sort(AtMost, ch))
    ensures AllBelow(Sort(AtMost, ch), bound)
  {
    AtMostOrder();
    SortSorts(AtMost, ch);
    forall j | 0 <= j < |ch| ensures ch[j] < bound {
      assert Kids(t, v)[j] in done;
    }
    SortBelow(ch, bound);
  }

  ghost predicate AllBelow(xs: seq<nat>, bound: nat) {
    forall i :: 0 <= i < |xs| ==> xs[i] < bound
  }

  lemma SortBelow(ch: seq<nat>, bound: nat)
    requires AllBelow(ch, bound)
    ensures AllBelow(Sort(AtMost, ch), bound)
  {
    var s: seq<nat> := Sort(AtMost, ch);
    forall i | 0 <= i < |s| ensures s[i] < bound {
      assert s[i] in multiset(s);
      assert s[i] in multiset(ch);
    }
  }

  lemma KeyAdded(keys: seq<Key>, k: Key)
    requires Keys(keys) && k !in keys && KeyOk(k, |keys|)
    ensures Keys(keys + [k])
  {
  }

  // Every stored string is the canonical string of its label's tree.
  ghost predicate StringsOk(keys: seq<Key>, strings: map<nat, string>) {
    Keys(keys) && forall l :: l in strings ==> l < |keys| && strings[l] == Canonical(TreeOf(keys, l))
  }

  // s is the string of label l: its colour, then the strings of its children in dictionary order.
  ghost predicate ShapedAt(keys: seq<Key>, l: nat, s: string) {
    Keys(keys) && l < |keys| && exists xs :: Shaped(TreeOf(keys, l), xs, s)
  }

  ghost predicate AllShaped(keys: seq<Key>, strings: map<nat, string>) {
    forall l: nat :: l in strings ==> ShapedAt(keys, l, strings[l])
  }

  lemma CanonicalShaped(keys: seq<Key>, l: nat)
    requires Keys(keys) && l < |keys|
    ensures ShapedAt(keys, l, Canonical(TreeOf(keys, l)))
  {
    hide Shaped, Canonical, KidStrings, Keys, TreeOf;
    CanonicalShape(TreeOf(keys, l));
  }

  lemma StringsShaped(keys: seq<Key>, strings: map<nat, string>)
    requires StringsOk(keys, strings)
    ensures AllShaped(keys, strings)
  {
    hide ShapedAt, Canonical, TreeOf, Keys;
    forall l: nat | l in strings ensures ShapedAt(keys, l, strings[l]) {
      CanonicalShaped(keys, l);
    }
  }

  lemma StringsStay(keys: seq<Key>, more: seq<Key>, strings: map<nat, string>)
    requires StringsOk(keys, strings) && Keys(more) && keys <= more
    ensures StringsOk(more, strings)
  {
    forall l | l in strings ensures l < |more| && strings[l] == Canonical(TreeOf(more, l)) {
      TreeStays(keys, more, l);
    }
  }

  lemma StoredKey(keys: seq<Key>, l: nat)
    requires Keys(keys) && l < |keys|
    ensures KeyOk(keys[l], l)
  {
  }

  lemma BuiltString(keys: seq<Key>, l: nat, cs: seq<string>)
    requires Keys(keys) && l < |keys| && KeyOk(keys[l], l) && |cs| == |keys[l].children|
    requires forall j :: 0 <= j < |cs| ==> cs[j] == Canonical(TreeOf(keys, keys[l].children[j]))
    ensures Canonical(TreeOf(keys, l))
         == (if keys[l].colored then "(" + keys[l].color else "(*") + Concat(Sort(LexLe, cs)) + ")"
  {
    var t := TreeOf(keys, l);
    assert cs == Strings(t);
    assert "(" + "*" == "(*";
    hide Concat, Sort;
  }

  lemma StringAdded(keys: seq<Key>, strings: map<nat, string>, l: nat, s: string)
    requires StringsOk(keys, strings) && l < |keys| && s == Canonical(TreeOf(keys, l))
    ensures StringsOk(keys, strings[l := s])
  {
  }

  class Registry {
    var keyToLabel: map<Key, nat>
    var labelToKey: seq<Key>
    var labelToStr: map<nat, string>
    var counter: nat

    ghost predicate Valid() reads this {
      && Keys(labelToKey) && counter == |labelToKey|
      && (forall k :: k in keyToLabel ==> keyToLabel[k] < counter && labelToKey[keyToLabel[k]] == k)
      && (forall l :: 0 <= l < counter ==> labelToKey[l] in keyToLabel)
      && StringsOk(labelToKey, labelToStr)
    }

    constructor ()
      ensures Valid() && labelToKey == []
    {
      keyToLabel, labelToKey, labelToStr, counter := map[], [], map[], 0;
    }

    method Reset()
      modifies this
      ensures Valid() && labelToKey == []
    {
      keyToLabel, labelToKey, labelToStr, counter := map[], [], map[], 0;
    }

    // The label of a key: the one it has, or the next one.
    method Intern(colored: bool, color: string, sortedChildren: seq<nat>) returns (lab: nat)
      requires Valid() && SortedBy(AtMost, sortedChildren)
      requires AllBelow(sortedChildren, counter)
      modifies this
      ensures Valid() && old(labelToKey) <= labelToKey && lab < counter
      ensures labelToKey[lab] == Key(colored, if colored then color else "", sortedChildren)
      ensures labelToKey[lab] in old(labelToKey) ==> labelToKey == old(labelToKey)
      ensures labelToStr == old(labelToStr)
    {
      var k := Key(colored, if colored then color else "", sortedChildren);
      if k in keyToLabel {
        return keyToLabel[k];
      }
      lab := counter;
      counter := counter + 1;
      keyToLabel := keyToLabel[k := lab];
      labelToKey := labelToKey + [k];
      assert k !in old(labelToKey);
      assert KeyOk(k, lab);
      KeyAdded(old(labelToKey), k);
      StringsStay(old(labelToKey), labelToKey, labelToStr);
    }

    // Put the string of a label together from those of its children.
    method BuildString(l: nat) returns (s: string)
      requires Keys(labelToKey) && StringsOk(labelToKey, labelToStr) && l < |labelToKey|
      requires forall i: nat :: i < l ==> i in labelToStr
      ensures s == Canonical(TreeOf(labelToKey, l))
    {
      hide TreeOf, Canonical, Keys;
      var k := labelToKey[l];
      StoredKey(labelToKey, l);
      var cs := [];
      for i := 0 to |k.children|
        invariant |cs| == i
        invariant forall j :: 0 <= j < i ==> cs[j] == Canonical(TreeOf(labelToKey, k.children[j]))
      {
        cs := cs + [labelToStr[k.children[i]]];
      }
      BuiltString(labelToKey, l, cs);
      s := (if k.colored then "(" + k.color else "(*") + Concat(Sort(LexLe, cs)) + ")";
    }

    // Build the canonical string of every label up to maxLabel.
    method EnsureStringsUpTo(maxLabel: int)
      requires Valid()
      modifies this`labelToStr
      ensures Valid() && old(labelToStr).Keys <= labelToStr.Keys
      ensures forall l: nat :: l <= maxLabel && l < counter ==> l in labelToStr
      ensures AllShaped(labelToKey, labelToStr)
    {
      hide StringsOk, Keys, Canonical, TreeOf, AllShaped;
      var l: nat := 0;
      while l <= maxLabel && l < |labelToKey|
        invariant l <= |labelToKey| && Valid() && old(labelToStr).Keys <= labelToStr.Keys
        invariant forall i: nat :: i < l ==> i in labelToStr
        decreases |labelToKey| - l
      {
        if l !in labelToStr {
          var s := BuildString(l);
          StringAdded(labelToKey, labelToStr, l, s);
          labelToStr := labelToStr[l := s];
        }
        l := l + 1;
      }
      StringsShaped(labelToKey, labelToStr);
    }

    // The string of a label, or the empty string for a number that is not a label.
    method CanonicalString(lab: int) returns (s: string)
      requires Valid()
      modifies this`labelToStr
      ensures Valid()
      ensures s == if 0 <= lab < counter then Canonical(TreeOf(labelToKey, lab)) else ""
      ensures 0 <= lab < counter ==> ShapedAt(labelToKey, lab, s)
    {
      if lab < 0 || lab >= counter {
        return "";
      }
      EnsureStringsUpTo(lab);
      assert StringsOk(labelToKey, labelToStr);
      s := labelToStr[lab];
      CanonicalShaped(labelToKey, lab);
    }

    // The labels of the children of a vertex, in row order.
    method ChildLabels(g: Csr, node: nat, par: int, labels: array<int>, ghost t: Rooted, ghost done: set<nat>)
      returns (ch: seq<nat>)
      requires t.Valid() && t.g == g && node in t.verts && par == t.up[node]
      requires KidsIn(t, node, done) && LabelledIn(labels[..], counter, done)
      ensures ch == LabelsAt(labels[..], Kids(t, node))
    {
      ch := [];
      assert g.HasRow(node) && t.RowPlaced(node);
      for i := g.offsets[node] to g.offsets[node + 1]
        invariant |ch| == |KidsUpTo(t, node, i)|
        invariant forall j :: 0 <= j < |ch| ==>
          KidsUpTo(t, node, i)[j] < labels.Length && ch[j] == labels[KidsUpTo(t, node, i)[j]]
      {
        var nb := g.neighbours[i];
        if nb != par {
          assert t.InRow(node, i);
          KidListed(t, node, i, g.offsets[node + 1]);
          ghost var j :| 0 <= j < |Kids(t, node)| && Kids(t, node)[j] == nb;
          ch := ch + [labels[nb]];
        }
      }
    }

    // Label a vertex whose children are labelled.
    method LabelNode(g: Csr, colored: seq<bool>, colors: seq<string>, node: nat, par: int, labels: array<int>,
                     ghost t: Rooted, ghost done: set<nat>)
      requires Valid() && t.g == g && t.colored == colored && t.colors == colors && labels.Length == g.n
      requires Encoded(t, labelToKey, labels[..], done) && node in t.verts && par == t.up[node]
      requires KidsIn(t, node, done)
      modifies this, labels
      ensures Valid() && old(labelToKey) <= labelToKey && labelToStr == old(labelToStr)
      ensures Encoded(t, labelToKey, labels[..], done + {node})
      ensures forall v :: 0 <= v < labels.Length && v != node ==> labels[v] == old(labels[v])
    {
      var ch := ChildLabels(g, node, par, labels, t, done);
      ghost var keys, ls := labelToKey, labels[..];
      ChildLabelsOk(t, ls, counter, done, node, ch);
      var lab := Intern(colored[node], colors[node], Sort(AtMost, ch));
      OneMore(t, keys, ls, done, node, labelToKey, lab);
      labels[node] := lab;
      assert labels[..] == ls[node := lab];
    }

    // Move past entries of the parent.
    static method SkipParents(g: Csr, f0: Frame, ghost t: Rooted, ghost rest: seq<Frame>, ghost done: set<nat>)
      returns (f: Frame)
      requires t.g == g && FrameOk(t, f0) && PosOk(g, f0) && Stack(t, rest + [f0], done)
      ensures FrameOk(t, f) && PosOk(g, f) && Stack(t, rest + [f], done) && FramesOk(t, rest + [f0])
      ensures FramesOk(t, rest + [f]) && TotalAhead(t, rest + [f]) <= TotalAhead(t, rest + [f0])
      ensures f.pos < g.offsets[f.node + 1] ==> g.neighbours[f.pos] as int != f.parent
    {
      StackFrames(t, rest + [f0], done);
      hide FrameOk, FramesOk, Stack, Rooted.Valid, TotalAhead;
      f := f0;
      while f.pos < g.offsets[f.node + 1] && g.neighbours[f.pos] == f.parent
        invariant FrameOk(t, f) && Stack(t, rest + [f], done) && PosOk(g, f)
        invariant FramesOk(t, rest + [f]) && TotalAhead(t, rest + [f]) <= TotalAhead(t, rest + [f0])
        decreases g.offsets[f.node + 1] - f.pos
      {
        SkipParent(t, rest, f, done);
        f := f.(pos := f.pos + 1);
        TopFrame(t, rest + [f], rest, f, done);
      }
    }

    // Label every vertex of the tree hanging from root.
    method EncodeTree(g: Csr, colored: seq<bool>, colors: seq<string>, root: nat, labels: array<int>, ghost t: Rooted)
      returns (ghost done: set<nat>)
      requires Valid() && t.Valid() && labels.Length == g.n
      requires t.g == g && t.colored == colored && t.colors == colors && t.root == root
      modifies this, labels
      ensures Valid() && old(labelToKey) <= labelToKey && labelToStr == old(labelToStr)
      ensures done == t.verts && Encoded(t, labelToKey, labels[..], done)
      ensures forall v :: 0 <= v < labels.Length && v !in t.verts ==> labels[v] == old(labels[v])
    {
      done := {};
      assert g.HasRow(root);
      var stk := [Frame(root, -1, g.offsets[root])];
      FirstFrame(t);
      StackFrames(t, stk, done);
      hide FrameOk, FramesOk, Stack, StackOrEnd, Rooted.Valid, Encoded, TotalAhead, KidsIn, Keys, StringsOk;
      NoneEncoded(t, labelToKey, labels[..]);
      StackStarts(t, stk, done);
      while stk != []
        invariant Valid() && old(labelToKey) <= labelToKey && labelToStr == old(labelToStr)
        invariant StackOrEnd(t, stk, done) && FramesOk(t, stk) && Encoded(t, labelToKey, labels[..], done)
        invariant forall v :: 0 <= v < labels.Length && v !in t.verts ==> labels[v] == old(labels[v])
        decreases TotalAhead(t, stk)
      {
        var rest, f := stk[..|stk| - 1], stk[|stk| - 1];
        TopFrame(t, stk, rest, f, done);
        ghost var ls := labels[..];
        f := SkipParents(g, f, t, rest, done);
        assert labels[..] == ls;
        if f.pos < g.offsets[f.node + 1] {
          AtAChild(t, f);
          Descend(t, rest, f, done);
          DescendAhead(t, rest, f, done);
          stk := rest + [f.(pos := f.pos + 1)] + [ChildFrame(g, f)];
          StackStarts(t, stk, done);
        } else {
          Leave(t, rest, f, done);
          RowEnds(t, rest, f, done);
          LabelNode(g, colored, colors, f.node, f.parent, labels, t, done);
          stk := rest;
          done := done + {f.node};
        }
      }
      WholeTree(t, labelToKey, labels[..], done);
    }
  }

  // Main theorem on strings: for colours without parentheses, and none of them "*", two labels
  // have one string exactly when they are one label.
  lemma StringsDecide(keys: seq<Key>, l: nat, m: nat)
    requires Keys(keys) && l < |keys| && m < |keys|
    requires PlainTree(TreeOf(keys, l)) && PlainTree(TreeOf(keys, m))
    requires NoStar(TreeOf(keys, l)) && NoStar(TreeOf(keys, m))
    ensures Canonical(TreeOf(keys, l)) == Canonical(TreeOf(keys, m)) <==> l == m
  {
    var a, b := TreeOf(keys, l), TreeOf(keys, m);
    LabelsDecide(keys, l, m);
    SameStringIff(a, b);
    StarlessSame(a);
    StarlessSame(b);
  }

  // The string of a vertex's label is the canonical string of its subtree, whatever the
  // registry held before.
  lemma StringOfVertex(t: Rooted, keys: seq<Key>, labels: seq<int>, done: set<nat>, v: nat)
    requires Encoded(t, keys, labels, done) && v in done
    ensures Canonical(TreeOf(keys, labels[v])) == Canonical(SubTree(t, v))
  {
    LabelMeansSubTree(t, keys, labels, done, v);
    IsoSameString(TreeOf(keys, labels[v]), SubTree(t, v));
  }
}
