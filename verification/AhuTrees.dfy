// Coloured rooted trees up to isomorphism, and their canonical strings.
module AhuTrees {
  import opened Sums
  import opened Sorting
  import opened GroupOrbits

  datatype Colour = Uncoloured | Coloured(name: string)

  datatype Tree = Node(colour: Colour, kids: seq<Tree>)

  // A bijection between the children of the roots under which the subtrees are isomorphic.
  ghost predicate Isomorphic(a: Tree, b: Tree)
    decreases a, 1
  {
    a.colour == b.colour && |a.kids| == |b.kids| && exists p: seq<nat> :: Pairs(a, b, p)
  }

  ghost predicate Pairs(a: Tree, b: Tree, p: seq<nat>)
    decreases a, 0
  {
    && |a.kids| == |b.kids| && Permutation(|a.kids|, p)
    && forall i :: 0 <= i < |a.kids| ==> Isomorphic(a.kids[i], b.kids[p[i]])
  }

  lemma Pairing(a: Tree, b: Tree) returns (p: seq<nat>)
    requires Isomorphic(a, b)
    ensures Pairs(a, b, p)
  {
    p :| Pairs(a, b, p);
  }

  lemma {:induction false} IsoReflexive(a: Tree)
    ensures Isomorphic(a, a)
  {
    var p: seq<nat> := seq(|a.kids|, i requires 0 <= i < |a.kids| => i);
    forall i | 0 <= i < |a.kids| ensures Isomorphic(a.kids[i], a.kids[p[i]]) {
      IsoReflexive(a.kids[i]);
    }
    assert Pairs(a, a, p);
  }

  lemma {:induction false} IsoSymmetric(a: Tree, b: Tree)
    requires Isomorphic(a, b)
    ensures Isomorphic(b, a)
  {
    var n := |a.kids|;
    var p := Pairing(a, b);
    var q: seq<nat> := seq(n, i requires 0 <= i < n => Preimage(n, p, i));
    forall i | 0 <= i < n ensures Isomorphic(b.kids[i], a.kids[q[i]]) {
      assert p[q[i]] == i && Isomorphic(a.kids[q[i]], b.kids[p[q[i]]]);
      IsoSymmetric(a.kids[q[i]], b.kids[i]);
    }
    assert Permutation(n, q) by {
      assert forall i :: 0 <= i < n ==> p[q[i]] == i;
    }
    assert Pairs(b, a, q);
  }

  lemma {:induction false} IsoTransitive(a: Tree, b: Tree, c: Tree)
    requires Isomorphic(a, b) && Isomorphic(b, c)
    ensures Isomorphic(a, c)
  {
    var n := |a.kids|;
    var p := Pairing(a, b);
    var q := Pairing(b, c);
    var r: seq<nat> := seq(n, i requires 0 <= i < n => q[p[i]]);
    forall i | 0 <= i < n ensures Isomorphic(a.kids[i], c.kids[r[i]]) {
      assert Isomorphic(a.kids[i], b.kids[p[i]]) && Isomorphic(b.kids[p[i]], c.kids[q[p[i]]]);
      IsoTransitive(a.kids[i], b.kids[p[i]], c.kids[r[i]]);
    }
    assert Pairs(a, c, r);
  }

  // ----- canonical strings -----

  predicate LexLe(a: string, b: string) {
    a == "" || (b != "" && (a[0] < b[0] || (a[0] == b[0] && LexLe(a[1..], b[1..]))))
  }

  lemma {:induction false} LexPair(a: string, b: string)
    ensures LexLe(a, b) || LexLe(b, a)
    ensures LexLe(a, b) && LexLe(b, a) ==> a == b
  {
    if a != "" && b != "" {
      LexPair(a[1..], b[1..]);
      assert a == [a[0]] + a[1..] && b == [b[0]] + b[1..];
    }
  }

  lemma {:induction false} LexChain(a: string, b: string, c: string)
    requires LexLe(a, b) && LexLe(b, c)
    ensures LexLe(a, c)
  {
    if a != "" && a[0] == b[0] && b[0] == c[0] { LexChain(a[1..], b[1..], c[1..]); }
  }

  lemma LexOrder()
    ensures TotalOrder(LexLe)
  {
    forall a, b ensures (LexLe(a, b) || LexLe(b, a)) && (LexLe(a, b) && LexLe(b, a) ==> a == b) {
      LexPair(a, b);
    }
    forall a, b, c | LexLe(a, b) && LexLe(b, c) ensures LexLe(a, c) {
      LexChain(a, b, c);
    }
  }

  // a is a prefix of b, or at the first place where they differ a has the smaller character.
  ghost predicate InDictionary(a: string, b: string) {
    a <= b || exists k: nat :: k < |a| && k < |b| && a[..k] == b[..k] && a[k] < b[k]
  }

  lemma {:induction false} LexIs(a: string, b: string)
    ensures LexLe(a, b) ==> InDictionary(a, b)
  {
    if LexLe(a, b) && a != "" {
      if a[0] < b[0] {
        assert a[..0] == b[..0];
      } else {
        LexIs(a[1..], b[1..]);
        if !(a[1..] <= b[1..]) {
          var k: nat :| k < |a[1..]| && k < |b[1..]| && a[1..][..k] == b[1..][..k] && a[1..][k] < b[1..][k];
          assert a[..k + 1] == [a[0]] + a[1..][..k] && b[..k + 1] == [b[0]] + b[1..][..k];
          assert a[k + 1] < b[k + 1];
        } else {
          assert a == [a[0]] + a[1..] && b == [b[0]] + b[1..];
        }
      }
    }
  }

  ghost predicate Ascending(xs: seq<string>) {
    forall i, j :: 0 <= i < j < |xs| ==> InDictionary(xs[i], xs[j])
  }

  function Concat(xs: seq<string>): string {
    if xs == [] then "" else xs[0] + Concat(xs[1..])
  }

  function Name(c: Colour): string {
    if c.Coloured? then c.name else "*"
  }

  ghost function Strings(t: Tree): (r: seq<string>)
    ensures |r| == |t.kids|
    decreases t, 0
  {
    seq(|t.kids|, i requires 0 <= i < |t.kids| => Canonical(t.kids[i]))
  }

  ghost function KidStrings(t: Tree): seq<string>
    decreases t, 1
  {
    Sort(LexLe, Strings(t))
  }

  ghost function Canonical(t: Tree): string
    decreases t, 2
  {
    "(" + Name(t.colour) + Concat(KidStrings(t)) + ")"
  }

  // The strings stand one after the other.
  lemma {:induction false} ConcatAt(xs: seq<string>, i: nat)
    requires i < |xs|
    ensures Concat(xs) == Concat(xs[..i]) + xs[i] + Concat(xs[i + 1..])
  {
    if i == 0 {
      assert xs[..0] == [];
    } else {
      ConcatAt(xs[1..], i - 1);
      assert xs[1..][..i - 1] == xs[..i][1..] && xs[1..][i..] == xs[i + 1..];
      assert Concat(xs[..i]) == xs[0] + Concat(xs[..i][1..]);
    }
  }

  // Main theorem: the string of a tree is its colour, or * if it has none, followed by the strings of its
  // subtrees in dictionary order, all in parentheses.
  lemma CanonicalShape(t: Tree)
    ensures Shaped(t, KidStrings(t), Canonical(t))
  {
    LexOrder();
    SortSorts(LexLe, Strings(t));
    var xs := KidStrings(t);
    hide Sort;
    forall i, j | 0 <= i < j < |xs| ensures InDictionary(xs[i], xs[j]) {
      assert LexLe(xs[i], xs[j]);
      LexIs(xs[i], xs[j]);
    }
  }

  ghost predicate Shaped(t: Tree, xs: seq<string>, s: string) {
    && Ascending(xs) && multiset(xs) == multiset(seq(|t.kids|, i requires 0 <= i < |t.kids| => Canonical(t.kids[i])))
    && s == "(" + (if t.colour.Coloured? then t.colour.name else "*") + Concat(xs) + ")"
  }

  // A root with an uncoloured leaf and a leaf of colour a, in either order.
  lemma TwoLeaves(swapped: bool)
    ensures var x, y := Node(Uncoloured, []), Node(Coloured("a"), []);
      Canonical(Node(Uncoloured, if swapped then [y, x] else [x, y])) == "(*(*)(a))"
  {
    hide *;
    var x, y := Node(Uncoloured, []), Node(Coloured("a"), []);
    LeafString(Uncoloured);
    LeafString(Coloured("a"));
    NamesAre();
    assert "(" + "*" + ")" == "(*)" && "(" + "a" + ")" == "(a)";
    PairString(Uncoloured, if swapped then y else x, if swapped then x else y);
    LeafOrder();
    TwoJoined("(*)", "(a)");
    assert "(" + "*" + ("(*)" + "(a)") + ")" == "(*(*)(a))";
  }

  lemma NamesAre()
    ensures Name(Uncoloured) == "*" && Name(Coloured("a")) == "a"
  {
  }

  lemma LeafString(c: Colour)
    ensures Canonical(Node(c, [])) == "(" + Name(c) + ")"
  {
    assert KidStrings(Node(c, [])) == [];
    assert "(" + Name(c) + "" + ")" == "(" + Name(c) + ")";
  }

  lemma PairString(c: Colour, x: Tree, y: Tree)
    ensures Canonical(Node(c, [x, y])) == "(" + Name(c) + Concat(Sort(LexLe, [Canonical(x), Canonical(y)])) + ")"
  {
    assert Strings(Node(c, [x, y])) == [Canonical(x), Canonical(y)];
  }

  lemma TwoJoined(a: string, b: string)
    ensures Concat([a, b]) == a + b
  {
    var none: seq<string> := [];
    assert [a, b][1..] == [b] && [b][1..] == none;
    assert Concat([b]) == b + "" == b;
  }

  lemma LeafOrder()
    ensures Sort(LexLe, ["(a)", "(*)"]) == ["(*)", "(a)"] && Sort(LexLe, ["(*)", "(a)"]) == ["(*)", "(a)"]
  {
    var a, b := "(a)", "(*)";
    assert a[1..] == "a)" && b[1..] == "*)";
    assert LexLe(b, a) && !LexLe(a, b);
    var none: seq<string> := [];
    assert [a, b][1..] == [b] && [b, a][1..] == [a] && [b][1..] == none && [a][1..] == none;
    assert Sort(LexLe, [b]) == [b] && Sort(LexLe, [a]) == [a];
    assert Insert(LexLe, a, [b]) == [b] + Insert(LexLe, a, []);
  }

  // Isomorphic trees have one canonical string.
  lemma {:induction false} IsoSameString(a: Tree, b: Tree)
    requires Isomorphic(a, b)
    ensures Canonical(a) == Canonical(b)
  {
    var p := Pairing(a, b);
    var xs, ys := Strings(a), Strings(b);
    forall i | 0 <= i < |xs| ensures xs[i] == ys[p[i]] {
      IsoSameString(a.kids[i], b.kids[p[i]]);
    }
    MatchedMultisets(xs, ys, p);
    LexOrder();
    SortCanonical(LexLe, xs, ys);
  }

  // ----- reading a canonical string back -----

  // No parentheses.
  predicate Plain(s: string) {
    '(' !in s && ')' !in s
  }

  ghost predicate PlainTree(t: Tree) {
    Plain(Name(t.colour)) && forall i :: 0 <= i < |t.kids| ==> PlainTree(t.kids[i])
  }

  ghost predicate StartsParen(s: string) {
    s != "" && (s[0] == '(' || s[0] == ')')
  }

  lemma {:induction false} NameEnds(m: string, x: string, n: string, y: string)
    requires Plain(m) && Plain(n) && StartsParen(x) && StartsParen(y) && m + x == n + y
    ensures m == n && x == y
  {
    NameStart(m, x);
    NameStart(n, y);
    if m != "" && n != "" {
      assert (m + x)[1..] == m[1..] + x && (n + y)[1..] == n[1..] + y;
      NameEnds(m[1..], x, n[1..], y);
      assert m == [m[0]] + m[1..] && n == [n[0]] + n[1..];
    }
  }

  lemma NameStart(m: string, x: string)
    requires StartsParen(x)
    ensures m == "" ==> m + x == x
    ensures m != "" ==> (m + x)[0] == m[0] && m[0] in m
  {
  }

  ghost predicate TreeString(x: string) {
    exists t: Tree :: PlainTree(t) && Canonical(t) == x
  }

  ghost predicate TreeStrings(xs: seq<string>) {
    forall i :: 0 <= i < |xs| ==> TreeString(xs[i])
  }

  lemma KidStringsAreTrees(t: Tree)
    requires PlainTree(t)
    ensures TreeStrings(KidStrings(t))
  {
    var xs, ys := Strings(t), KidStrings(t);
    forall i | 0 <= i < |ys| ensures TreeString(ys[i]) {
      assert ys[i] in multiset(ys);
      assert ys[i] in multiset(xs);
      var j :| 0 <= j < |xs| && xs[j] == ys[i];
      assert PlainTree(t.kids[j]);
    }
  }

  // What follows the name at a root.
  ghost function Rest(xs: seq<string>, s: string): string {
    Concat(xs) + ")" + s
  }

  lemma Opened(t: Tree, s: string)
    ensures (Canonical(t) + s)[1..] == Name(t.colour) + Rest(KidStrings(t), s)
    ensures |Concat(KidStrings(t))| < |Canonical(t)|
  {
    hide Concat, KidStrings;
    OpenedString(Name(t.colour), Concat(KidStrings(t)), s);
  }

  lemma OpenedString(m: string, c: string, s: string)
    ensures ("(" + m + c + ")" + s)[1..] == m + (c + ")" + s)
  {
  }

  lemma RestStarts(xs: seq<string>, s: string)
    requires TreeStrings(xs)
    ensures StartsParen(Rest(xs, s))
    ensures Rest(xs, s)[0] == if xs == [] then ')' else '('
  {
    if xs != [] {
      assert TreeString(xs[0]);
    }
  }

  lemma RestUnfold(xs: seq<string>, s: string)
    ensures xs == [] ==> Rest(xs, s)[1..] == s
    ensures xs != [] ==> Rest(xs, s) == xs[0] + Rest(xs[1..], s)
  {
  }

  lemma HeadTree(xs: seq<string>) returns (t: Tree)
    requires TreeStrings(xs) && xs != []
    ensures PlainTree(t) && Canonical(t) == xs[0] && TreeStrings(xs[1..])
    ensures |Concat(xs)| == |xs[0]| + |Concat(xs[1..])| && |xs[0]| > 0
  {
    assert TreeString(xs[0]);
    hide KidStrings, PlainTree;
    t :| PlainTree(t) && Canonical(t) == xs[0];
  }

  // A canonical string is never a proper prefix of another one.
  lemma {:induction false} TreePrefix(a: Tree, s: string, b: Tree, t: string)
    requires PlainTree(a) && PlainTree(b) && Canonical(a) + s == Canonical(b) + t
    ensures Name(a.colour) == Name(b.colour) && KidStrings(a) == KidStrings(b) && s == t
    decreases |Canonical(a)|, 0
  {
    var xs, ys := KidStrings(a), KidStrings(b);
    KidStringsAreTrees(a);
    KidStringsAreTrees(b);
    RestStarts(xs, s);
    RestStarts(ys, t);
    Opened(a, s);
    Opened(b, t);
    hide Canonical, KidStrings, Rest, TreeStrings, StartsParen, Plain;
    NameEnds(Name(a.colour), Rest(xs, s), Name(b.colour), Rest(ys, t));
    ListPrefix(xs, s, ys, t);
  }

  lemma {:induction false} ListPrefix(xs: seq<string>, s: string, ys: seq<string>, t: string)
    requires TreeStrings(xs) && TreeStrings(ys) && Rest(xs, s) == Rest(ys, t)
    ensures xs == ys && s == t
    decreases |Concat(xs)|, 1
  {
    RestStarts(xs, s);
    RestStarts(ys, t);
    RestUnfold(xs, s);
    RestUnfold(ys, t);
    if xs != [] {
      var a := HeadTree(xs);
      var b := HeadTree(ys);
      hide *;
      TreePrefix(a, Rest(xs[1..], s), b, Rest(ys[1..], t));
      SameStrings(a, b);
      ListPrefix(xs[1..], s, ys[1..], t);
      assert xs == [xs[0]] + xs[1..] && ys == [ys[0]] + ys[1..];
    }
  }

  lemma SameStrings(a: Tree, b: Tree)
    requires Name(a.colour) == Name(b.colour) && KidStrings(a) == KidStrings(b)
    ensures Canonical(a) == Canonical(b)
  {
  }

  // The colour "*" is written like no colour at all.
  ghost function Starless(t: Tree): Tree {
    Node(if t.colour == Coloured("*") then Uncoloured else t.colour,
         seq(|t.kids|, i requires 0 <= i < |t.kids| => Starless(t.kids[i])))
  }

  lemma {:induction false} StarlessString(t: Tree)
    ensures Canonical(Starless(t)) == Canonical(t)
  {
    forall i | 0 <= i < |t.kids| ensures Canonical(Starless(t.kids[i])) == Canonical(t.kids[i]) {
      StarlessString(t.kids[i]);
    }
    assert Strings(Starless(t)) == Strings(t);
  }

  lemma {:induction false} SameStringIso(a: Tree, b: Tree)
    requires PlainTree(a) && PlainTree(b) && Canonical(a) == Canonical(b)
    ensures Isomorphic(Starless(a), Starless(b))
  {
    assert Canonical(a) + "" == Canonical(b) + "";
    TreePrefix(a, "", b, "");
    var xs, ys := Strings(a), Strings(b);
    LexOrder();
    SortCanonical(LexLe, xs, ys);
    var p := Matching(xs, ys);
    forall i | 0 <= i < |xs| ensures Isomorphic(Starless(a.kids[i]), Starless(b.kids[p[i]])) {
      assert xs[i] == ys[p[i]];
      SameStringIso(a.kids[i], b.kids[p[i]]);
    }
    assert Pairs(Starless(a), Starless(b), p);
  }

  // For colours without parentheses, two trees share their string exactly when they are
  // isomorphic once the colour "*" is read as no colour.
  lemma SameStringIff(a: Tree, b: Tree)
    requires PlainTree(a) && PlainTree(b)
    ensures Canonical(a) == Canonical(b) <==> Isomorphic(Starless(a), Starless(b))
  {
    if Canonical(a) == Canonical(b) {
      SameStringIso(a, b);
    }
    if Isomorphic(Starless(a), Starless(b)) {
      IsoSameString(Starless(a), Starless(b));
      StarlessString(a);
      StarlessString(b);
    }
  }

  ghost predicate NoStar(t: Tree) {
    t.colour != Coloured("*") && forall i :: 0 <= i < |t.kids| ==> NoStar(t.kids[i])
  }

  lemma {:induction false} StarlessSame(t: Tree)
    requires NoStar(t)
    ensures Starless(t) == t
  {
    forall i | 0 <= i < |t.kids| ensures Starless(t.kids[i]) == t.kids[i] {
      StarlessSame(t.kids[i]);
    }
    assert Starless(t).kids == t.kids;
  }

  // A colour with parentheses can spell out a child, and "*" can pose as no colour.
  lemma Collisions() returns (a: Tree, b: Tree, c: Tree, d: Tree)
    ensures NoStar(a) && NoStar(b) && !Isomorphic(a, b) && Canonical(a) == Canonical(b)
    ensures PlainTree(c) && PlainTree(d) && !Isomorphic(c, d) && Canonical(c) == Canonical(d)
  {
    c, d := Node(Coloured("*"), []), Node(Uncoloured, []);
    a, b := Node(Coloured("a(b)"), []), Node(Coloured("a"), [Node(Coloured("b"), [])]);
    var kid := Node(Coloured("b"), []);
    assert KidStrings(a) == [] && KidStrings(kid) == [] && KidStrings(c) == [] && KidStrings(d) == [];
    assert Canonical(kid) == "(b)";
    assert Strings(b) == ["(b)"];
    assert KidStrings(b) == ["(b)"] by { assert Sort(LexLe, ["(b)"][1..]) == []; }
    assert Concat(["(b)"]) == "(b)" by { assert ["(b)"][1..] == []; }
    assert Canonical(b) == "(" + "a" + "(b)" + ")" == "(a(b))";
    assert Canonical(a) == "(" + "a(b)" + "" + ")" == "(a(b))";
    assert Canonical(c) == "(" + "*" + "" + ")" == Canonical(d);
  }
}
