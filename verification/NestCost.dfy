// The "all but a largest piece" rule for partitions refined in place: while the active set grows by
// it, no vertex is in more than log2(n) + 1 splitting cells.
module NestCost {
  import opened Sums
  import opened Bits
  import opened GroupOrbits
  import opened Refinement
  import opened Nests
  import opened NestRefinement

  // ----- sizes of pieces -----

  // Cells that begin at lo or later and end before c have at most size positions.
  ghost predicate NoLonger(ptn: seq<int>, level: int, lo: nat, c: nat, size: nat) {
    forall d: nat, e: nat :: lo <= d && e < c && CellAt(ptn, level, d, e) ==> e + 1 - d <= size
  }

  // The cell at pos has the given size, and no cell between lo and c is larger.
  ghost predicate Biggest(ptn: seq<int>, level: int, lo: nat, c: nat, pos: nat, size: nat) {
    && 0 < size && lo <= pos && pos + size <= c && CellAt(ptn, level, pos, pos + size - 1)
    && NoLonger(ptn, level, lo, c, size)
  }

  // It is also the first such cell.
  ghost predicate FirstBiggest(ptn: seq<int>, level: int, lo: nat, c: nat, pos: nat, size: nat) {
    Biggest(ptn, level, lo, c, pos, size) && NoLonger(ptn, level, lo, pos, size - 1)
  }

  ghost predicate FirstLargest(ptn: seq<int>, level: int, lo: nat, hi: nat, pos: nat) {
    exists size: nat :: FirstBiggest(ptn, level, lo, hi, pos, size)
  }

  // It is the last such cell before hi.
  ghost predicate LastBiggest(ptn: seq<int>, level: int, lo: nat, hi: nat, pos: nat, size: nat) {
    Biggest(ptn, level, lo, hi, pos, size) && NoLonger(ptn, level, pos + 1, hi, size - 1)
  }

  ghost predicate Halves(ptn: seq<int>, level: int, lo: nat, mid: nat, hi: nat) {
    lo < mid < hi && CellAt(ptn, level, lo, mid - 1) && CellAt(ptn, level, mid, hi - 1)
  }

  ghost predicate InHalves(ptn: seq<int>, level: int, lo: nat, hi: nat) {
    exists mid: nat :: Halves(ptn, level, lo, mid, hi)
  }

  lemma HalvesCut(ptn: seq<int>, level: int, lo: nat, hi: nat) returns (mid: nat)
    requires InHalves(ptn, level, lo, hi)
    ensures lo < mid < hi <= |ptn| && ptn[mid - 1] <= level
    ensures forall k :: lo <= k < hi - 1 && ptn[k] <= level ==> k == mid - 1
  {
    mid :| Halves(ptn, level, lo, mid, hi);
  }

  // Which of several largest pieces is meant: any one, the first, or the first but of two pieces the last.
  datatype Tie = Any | Earliest | LastOfTwo

  // The piece to be spared has this position and size.
  ghost predicate SparePiece(tie: Tie, ptn: seq<int>, level: int, lo: nat, hi: nat, pos: nat, size: nat) {
    && Biggest(ptn, level, lo, hi, pos, size)
    && (tie == Earliest || (tie == LastOfTwo && !InHalves(ptn, level, lo, hi)) ==>
          FirstBiggest(ptn, level, lo, hi, pos, size))
    && (tie == LastOfTwo && InHalves(ptn, level, lo, hi) ==> LastBiggest(ptn, level, lo, hi, pos, size))
  }

  ghost predicate LargestPiece(tie: Tie, ptn: seq<int>, level: int, lo: nat, hi: nat, pos: nat) {
    exists size: nat :: SparePiece(tie, ptn, level, lo, hi, pos, size)
  }

  lemma FirstIsSpare(ptn: seq<int>, level: int, lo: nat, hi: nat, pos: nat)
    requires FirstLargest(ptn, level, lo, hi, pos)
    ensures LargestPiece(Earliest, ptn, level, lo, hi, pos)
    ensures !InHalves(ptn, level, lo, hi) ==> LargestPiece(LastOfTwo, ptn, level, lo, hi, pos)
  {
    var size: nat :| FirstBiggest(ptn, level, lo, hi, pos, size);
    assert SparePiece(Earliest, ptn, level, lo, hi, pos, size);
    if !InHalves(ptn, level, lo, hi) { assert SparePiece(LastOfTwo, ptn, level, lo, hi, pos, size); }
  }

  // Positions c..c2-1 become one more cell.
  ghost predicate NextBlock(ptn: seq<int>, ptn2: seq<int>, level: int, c: nat, c2: nat) {
    && c < c2 <= |ptn| == |ptn2| && IsStart(ptn, level, c)
    && (forall k :: 0 <= k < |ptn| && k != c2 - 1 ==> ptn2[k] == ptn[k])
    && (forall k :: c <= k < c2 - 1 ==> ptn[k] > level) && ptn2[c2 - 1] <= level
  }

  lemma NextBlockCell(ptn: seq<int>, ptn2: seq<int>, level: int, c: nat, c2: nat)
    requires NextBlock(ptn, ptn2, level, c, c2)
    ensures CellAt(ptn2, level, c, c2 - 1)
    ensures forall d: nat, e: nat :: e < c && (CellAt(ptn, level, d, e) || CellAt(ptn2, level, d, e)) ==>
      CellAt(ptn, level, d, e) && CellAt(ptn2, level, d, e)
  {
  }

  // The last cell before c2 is the new one.
  lemma OnlyOneMore(ptn: seq<int>, ptn2: seq<int>, level: int, lo: nat, c: nat, c2: nat, d: nat, e: nat)
    requires NextBlock(ptn, ptn2, level, c, c2) && lo <= c
    requires lo <= d && e < c2 && CellAt(ptn2, level, d, e) && c <= e
    ensures d == c && e == c2 - 1
  {
  }

  lemma LongerBlock(ptn: seq<int>, ptn2: seq<int>, level: int, lo: nat, c: nat, c2: nat, size: nat)
    requires NextBlock(ptn, ptn2, level, c, c2) && lo <= c && NoLonger(ptn, level, lo, c, size)
    ensures NoLonger(ptn2, level, lo, c2, if c2 - c > size then c2 - c else size)
    ensures NoLonger(ptn2, level, lo, c, size)
  {
    NextBlockCell(ptn, ptn2, level, c, c2);
    forall d: nat, e: nat | lo <= d && e < c2 && CellAt(ptn2, level, d, e)
      ensures e + 1 - d <= if c2 - c > size then c2 - c else size
    {
      if c <= e { OnlyOneMore(ptn, ptn2, level, lo, c, c2, d, e); }
    }
  }

  // Keeping the first largest block while blocks are added.
  lemma FirstBiggestNext(ptn: seq<int>, ptn2: seq<int>, level: int, lo: nat, c: nat, c2: nat, pos: nat, size: nat)
    requires NextBlock(ptn, ptn2, level, c, c2) && FirstBiggest(ptn, level, lo, c, pos, size)
    ensures 0 < size
    ensures c2 - c > size ==> FirstBiggest(ptn2, level, lo, c2, c, c2 - c)
    ensures c2 - c <= size ==> FirstBiggest(ptn2, level, lo, c2, pos, size)
  {
    LongerBlock(ptn, ptn2, level, lo, c, c2, size);
    NextBlockCell(ptn, ptn2, level, c, c2);
    assert NoLonger(ptn2, level, lo, pos, size - 1);
  }

  lemma FirstBlock(ptn: seq<int>, ptn2: seq<int>, level: int, lo: nat, c2: nat)
    requires NextBlock(ptn, ptn2, level, lo, c2)
    ensures FirstBiggest(ptn2, level, lo, c2, lo, c2 - lo)
  {
    LongerBlock(ptn, ptn2, level, lo, lo, c2, 0);
    NextBlockCell(ptn, ptn2, level, lo, c2);
  }

  // A cell that was cut in two at mid.
  lemma LargerHalf(ptn: seq<int>, level: int, c1: nat, mid: nat, c2: nat)
    requires CellAt(ptn, level, c1, c2) && c1 < mid <= c2
    ensures mid - c1 >= c2 + 1 - mid ==> FirstLargest(ptn[mid - 1 := level], level, c1, c2 + 1, c1)
    ensures mid - c1 < c2 + 1 - mid ==> FirstLargest(ptn[mid - 1 := level], level, c1, c2 + 1, mid)
  {
    var ptn1 := ptn[mid - 1 := level];
    assert NextBlock(ptn, ptn1, level, c1, mid) && NextBlock(ptn1, ptn1, level, mid, c2 + 1);
    FirstBlock(ptn, ptn1, level, c1, mid);
    FirstBiggestNext(ptn1, ptn1, level, c1, mid, c2 + 1, c1, mid - c1);
    NextBlockCell(ptn1, ptn1, level, mid, c2 + 1);
  }

  // The same, the second of two equal parts being meant.
  lemma LaterHalf(ptn: seq<int>, level: int, c1: nat, mid: nat, c2: nat)
    requires CellAt(ptn, level, c1, c2) && c1 < mid <= c2
    ensures mid - c1 > c2 + 1 - mid ==> LargestPiece(LastOfTwo, ptn[mid - 1 := level], level, c1, c2 + 1, c1)
    ensures mid - c1 <= c2 + 1 - mid ==> LargestPiece(LastOfTwo, ptn[mid - 1 := level], level, c1, c2 + 1, mid)
  {
    var ptn1 := ptn[mid - 1 := level];
    assert Halves(ptn1, level, c1, mid, c2 + 1);
    forall d: nat, e: nat | c1 <= d && e < c2 + 1 && CellAt(ptn1, level, d, e)
      ensures (d == c1 && e == mid - 1) || (d == mid && e == c2)
    {
      TwoCells(ptn1, level, c1, mid, c2 + 1, d, e);
    }
    if mid - c1 > c2 + 1 - mid {
      assert SparePiece(LastOfTwo, ptn1, level, c1, c2 + 1, c1, mid - c1);
    } else {
      assert SparePiece(LastOfTwo, ptn1, level, c1, c2 + 1, mid, c2 + 1 - mid);
    }
  }

  lemma TwoCells(ptn: seq<int>, level: int, lo: nat, mid: nat, hi: nat, d: nat, e: nat)
    requires Halves(ptn, level, lo, mid, hi) && lo <= d && e < hi && CellAt(ptn, level, d, e)
    ensures (d == lo && e == mid - 1) || (d == mid && e == hi - 1)
  {
  }

  // ----- what is made active -----

  // Outside the cell nothing becomes active; of a cell that was not active, a largest piece does not.
  ghost predicate Frugal(tie: Tie, ptn2: seq<int>, level: int, c1: nat, c2: nat, active: set<nat>,
                         active2: set<nat>, spared: nat) {
    && (forall d: nat :: d in active2 && (d < c1 || c2 < d) ==> d in active)
    && (c1 !in active ==> spared !in active2 && LargestPiece(tie, ptn2, level, c1, c2 + 1, spared))
  }

  lemma FrugalUncut(tie: Tie, ptn: seq<int>, level: int, c1: nat, c2: nat, active: set<nat>)
    requires CellAt(ptn, level, c1, c2)
    ensures Frugal(tie, ptn, level, c1, c2, active, active, c1)
  {
    assert NextBlock(ptn, ptn, level, c1, c2 + 1);
    FirstBlock(ptn, ptn, level, c1, c2 + 1);
    if InHalves(ptn, level, c1, c2 + 1) {
      var mid := HalvesCut(ptn, level, c1, c2 + 1);
      assert false;
    }
    assert SparePiece(tie, ptn, level, c1, c2 + 1, c1, c2 + 1 - c1);
  }

  lemma NoCut(tie: Tie, ptn: seq<int>, level: int, c1: nat, c2: nat, active: set<nat>, key: seq<int>)
    requires CellAt(ptn, level, c1, c2) && ActiveOk(ptn, level, active) && |key| == |ptn|
    requires forall k :: c1 <= k <= c2 ==> key[k] == key[c1]
    ensures CutAt(ptn, level, c1, c2, key) && Activated(ptn, level, c1, c2, active, active, c1)
    ensures Frugal(tie, ptn, level, c1, c2, active, active, c1)
  {
    FrugalUncut(tie, ptn, level, c1, c2, active);
  }

  lemma FrugalNews(tie: Tie, ptn: seq<int>, level: int, c1: nat, c2: nat, active: set<nat>, news: set<nat>, spared: nat)
    requires (forall d :: d in news ==> c1 <= d <= c2) && c1 <= c2
    requires c1 !in active ==> LargestPiece(tie, ptn, level, c1, c2 + 1, spared)
    ensures Frugal(tie, ptn, level, c1, c2, active, if c1 in active then active + news
      else active + news + {c1} - {spared}, spared)
  {
  }

  // Cells are only cut, and the active set changes only when some cell is cut.
  ghost predicate Grown(level: int, s: Part, t: Part) {
    && Finer(s.ptn, t.ptn, level)
    && s.numcells <= t.numcells && (t.numcells == s.numcells ==> t.active == s.active)
  }

  lemma GrownSelf(level: int, s: Part)
    ensures Grown(level, s, s)
  {
  }

  lemma GrownChain(level: int, s: Part, t: Part, r: Part)
    requires Grown(level, s, t) && Grown(level, t, r)
    ensures Grown(level, s, r)
  {
    FinerChain(s.ptn, t.ptn, r.ptn, level);
  }

  lemma GrownParts(level: int, s: Part, t: Part)
    requires Grown(level, s, t)
    ensures Finer(s.ptn, t.ptn, level)
    ensures s.numcells <= t.numcells && (t.numcells == s.numcells ==> t.active == s.active)
  {
  }

  lemma CellCard(n: nat, level: int, s: Part, c1: nat, c2: nat)
    requires PartOk(n, level, s) && CellAt(s.ptn, level, c1, c2)
    ensures |Class(ColOf(n, level, s), c1)| == c2 + 1 - c1
  {
    MembersAreClass(n, level, s, c1, c2);
    var cell := s.lab[c1..c2 + 1];
    assert Distinct(cell);
    DistinctCard(cell);
  }

  lemma PieceWithin(n: nat, level: int, s: Part, t: Part, c1: nat, c2: nat, v: nat)
    requires PartOk(n, level, s) && PartOk(n, level, t) && CellAt(s.ptn, level, c1, c2)
    requires Within(s.lab, s.ptn, t.lab, t.ptn, c1, c2) && v < n
    ensures var col, col2 := ColOf(n, level, s), ColOf(n, level, t);
      && Class(col2, col2[v]) <= Class(col, col[v])
      && (col[v] != c1 ==> col2[v] == col[v] && (col2[v] < c1 || c2 < col2[v]))
      && (col[v] == c1 ==> c1 <= col2[v] <= c2)
      && col2[v] < n && IsStart(t.ptn, level, col2[v])
  {
    var col, col2 := ColOf(n, level, s), ColOf(n, level, t);
    var i := Position(n, s.lab, s.ptn, t.lab, t.ptn, level, c1, c2, v);
    forall u | u in Class(col2, col2[v]) ensures u in Class(col, col[v]) {
      var j := Position(n, s.lab, s.ptn, t.lab, t.ptn, level, c1, c2, u);
    }
  }

  // A cell is in halves exactly if it has two pieces.
  lemma HalvesArePieces(n: nat, level: int, s: Part, t: Part, c1: nat, c2: nat)
    requires PartOk(n, level, s) && PartOk(n, level, t) && CellAt(s.ptn, level, c1, c2)
    requires Within(s.lab, s.ptn, t.lab, t.ptn, c1, c2)
    ensures InHalves(t.ptn, level, c1, c2 + 1) <==> |Pieces(ColOf(n, level, s), ColOf(n, level, t), c1)| == 2
  {
    var pieces := Pieces(ColOf(n, level, s), ColOf(n, level, t), c1);
    forall d: nat ensures d in pieces <==> c1 <= d <= c2 && IsStart(t.ptn, level, d) {
      PiecesAreStarts(n, s.lab, s.ptn, t.lab, t.ptn, level, c1, c2, d);
    }
    assert |t.ptn| == |s.ptn| && t.ptn[c2] <= level && IsStart(t.ptn, level, c1);
    hide PartOk, ColOf, Pieces, Within;
    if InHalves(t.ptn, level, c1, c2 + 1) {
      var mid: nat :| Halves(t.ptn, level, c1, mid, c2 + 1);
      forall d: nat ensures d in pieces <==> d in {c1, mid} {
      }
      assert pieces == {c1, mid};
    }
    if |pieces| == 2 {
      assert c1 in pieces && |pieces - {c1}| == 1;
      var mid := Pick(pieces - {c1});
      TwoMembers(pieces, c1, mid);
      PiecesHalve(t.ptn, level, c1, mid, c2);
    }
  }

  lemma TwoMembers(s: set<nat>, x: nat, y: nat)
    requires |s| == 2 && x in s && y in s && x != y
    ensures s == {x, y}
  {
    assert |s - {x, y}| == 0;
    assert s == {x, y} + (s - {x, y});
  }

  lemma PiecesHalve(ptn: seq<int>, level: int, c1: nat, mid: nat, c2: nat)
    requires c1 < mid <= c2 < |ptn| && IsStart(ptn, level, c1) && IsStart(ptn, level, mid) && ptn[c2] <= level
    requires forall d: nat :: c1 <= d <= c2 && IsStart(ptn, level, d) ==> d == c1 || d == mid
    ensures Halves(ptn, level, c1, mid, c2 + 1)
  {
    forall k | c1 <= k < c2 && k != mid - 1 ensures ptn[k] > level {
      assert IsStart(ptn, level, k + 1) ==> k + 1 == c1 || k + 1 == mid;
    }
  }

  // The spared piece of a cell is the largest one that is meant.
  lemma SparedLargest(tie: Tie, n: nat, level: int, s: Part, t: Part, c1: nat, c2: nat, spared: nat)
    requires PartOk(n, level, s) && PartOk(n, level, t) && CellAt(s.ptn, level, c1, c2)
    requires Within(s.lab, s.ptn, t.lab, t.ptn, c1, c2)
    requires LargestPiece(tie, t.ptn, level, c1, c2 + 1, spared)
    ensures IsSpared(tie, Pieces(ColOf(n, level, s), ColOf(n, level, t), c1), ColOf(n, level, t), spared)
    ensures spared in Pieces(ColOf(n, level, s), ColOf(n, level, t), c1)
  {
    hide *;
    var col, col2 := ColOf(n, level, s), ColOf(n, level, t);
    var size := SpareSize(tie, t.ptn, level, c1, c2 + 1, spared);
    HalvesArePieces(n, level, s, t, c1, c2);
    BiggestPiece(n, level, s, t, c1, c2, spared, size);
    forall d | d in Pieces(col, col2, c1)
      ensures |Class(col2, d)| <= size
      ensures FirstBiggest(t.ptn, level, c1, c2 + 1, spared, size) && d < spared ==> |Class(col2, d)| < size
      ensures LastBiggest(t.ptn, level, c1, c2 + 1, spared, size) && d > spared ==> |Class(col2, d)| < size
    {
      PieceSmaller(n, level, s, t, c1, c2, spared, size, d);
    }
    SparedMade(tie, Pieces(col, col2, c1), col2, spared);
  }

  lemma SpareSize(tie: Tie, ptn: seq<int>, level: int, lo: nat, hi: nat, pos: nat) returns (size: nat)
    requires LargestPiece(tie, ptn, level, lo, hi, pos)
    ensures Biggest(ptn, level, lo, hi, pos, size)
    ensures tie == Earliest || (tie == LastOfTwo && !InHalves(ptn, level, lo, hi)) ==>
      FirstBiggest(ptn, level, lo, hi, pos, size)
    ensures tie == LastOfTwo && InHalves(ptn, level, lo, hi) ==> LastBiggest(ptn, level, lo, hi, pos, size)
  {
    hide InHalves, Biggest, FirstBiggest, LastBiggest;
    size :| SparePiece(tie, ptn, level, lo, hi, pos, size);
  }

  lemma BiggestPiece(n: nat, level: int, s: Part, t: Part, c1: nat, c2: nat, pos: nat, size: nat)
    requires PartOk(n, level, s) && PartOk(n, level, t) && CellAt(s.ptn, level, c1, c2)
    requires Within(s.lab, s.ptn, t.lab, t.ptn, c1, c2) && Biggest(t.ptn, level, c1, c2 + 1, pos, size)
    ensures pos in Pieces(ColOf(n, level, s), ColOf(n, level, t), c1)
    ensures |Class(ColOf(n, level, t), pos)| == size
  {
    PiecesAreStarts(n, s.lab, s.ptn, t.lab, t.ptn, level, c1, c2, pos);
    CellCard(n, level, t, pos, pos + size - 1);
  }

  lemma PieceSmaller(n: nat, level: int, s: Part, t: Part, c1: nat, c2: nat, pos: nat, size: nat, d: nat)
    requires PartOk(n, level, s) && PartOk(n, level, t) && CellAt(s.ptn, level, c1, c2)
    requires Within(s.lab, s.ptn, t.lab, t.ptn, c1, c2) && Biggest(t.ptn, level, c1, c2 + 1, pos, size)
    requires d in Pieces(ColOf(n, level, s), ColOf(n, level, t), c1)
    ensures |Class(ColOf(n, level, t), d)| <= size
    ensures FirstBiggest(t.ptn, level, c1, c2 + 1, pos, size) && d < pos ==> |Class(ColOf(n, level, t), d)| < size
    ensures LastBiggest(t.ptn, level, c1, c2 + 1, pos, size) && d > pos ==> |Class(ColOf(n, level, t), d)| < size
  {
    PieceSize(n, level, s, t, c1, c2, d);
    hide PartOk, ColOf, Within, Pieces, Class;
    var e: nat :| c1 <= d <= e <= c2 && CellAt(t.ptn, level, d, e) && |Class(ColOf(n, level, t), d)| == e + 1 - d;
  }

  lemma SparedMade(tie: Tie, pieces: set<nat>, col2: seq<nat>, x: nat)
    requires x in pieces && forall e :: e in pieces ==> |Class(col2, e)| <= |Class(col2, x)|
    requires tie == Earliest || (tie == LastOfTwo && |pieces| != 2) ==>
      forall e :: e in pieces && e < x ==> |Class(col2, e)| < |Class(col2, x)|
    requires tie == LastOfTwo && |pieces| == 2 ==>
      forall e :: e in pieces && e > x ==> |Class(col2, e)| < |Class(col2, x)|
    ensures IsSpared(tie, pieces, col2, x)
  {
  }

  lemma PieceSize(n: nat, level: int, s: Part, t: Part, c1: nat, c2: nat, d: nat)
    requires PartOk(n, level, s) && PartOk(n, level, t) && CellAt(s.ptn, level, c1, c2)
    requires Within(s.lab, s.ptn, t.lab, t.ptn, c1, c2)
    requires d in Pieces(ColOf(n, level, s), ColOf(n, level, t), c1)
    ensures exists e: nat ::
      c1 <= d <= e <= c2 && CellAt(t.ptn, level, d, e) && |Class(ColOf(n, level, t), d)| == e + 1 - d
  {
    PiecesAreStarts(n, s.lab, s.ptn, t.lab, t.ptn, level, c1, c2, d);
    var e := CellExists(t.ptn, level, d);
    EndInside(s.ptn, t.ptn, level, c1, c2, d, e);
    CellCard(n, level, t, d, e);
  }

  lemma EndInside(ptn: seq<int>, ptn2: seq<int>, level: int, c1: nat, c2: nat, d: nat, e: nat)
    requires CellAt(ptn, level, c1, c2) && CellAt(ptn2, level, d, e) && c1 <= d <= c2 && |ptn2| == |ptn|
    requires forall k :: 0 <= k < |ptn| && (k < c1 || c2 <= k) ==> ptn2[k] == ptn[k]
    ensures e <= c2
  {
  }

  // ----- what is made active, class by class -----

  // Among the pieces of a class x is a largest one, namely the one that is meant.
  ghost predicate IsSpared(tie: Tie, pieces: set<nat>, col2: seq<nat>, x: nat) {
    && (pieces != {} ==> x in pieces)
    && (forall e :: e in pieces ==> |Class(col2, e)| <= |Class(col2, x)|)
    && (tie == Earliest || (tie == LastOfTwo && |pieces| != 2) ==>
          forall e :: e in pieces && e < x ==> |Class(col2, e)| < |Class(col2, x)|)
    && (tie == LastOfTwo && |pieces| == 2 ==>
          forall e :: e in pieces && e > x ==> |Class(col2, e)| < |Class(col2, x)|)
  }

  // Of the pieces of class d all are active but x.
  ghost predicate Spares(tie: Tie, col: seq<nat>, col2: seq<nat>, d: nat, x: nat, active2: set<nat>)
    requires |col2| == |col|
  {
    IsSpared(tie, Pieces(col, col2, d), col2, x) && Pieces(col, col2, d) * active2 == Pieces(col, col2, d) - {x}
  }

  // All pieces of an active class are active, and of one that was not all but a largest.
  ghost predicate Respread(tie: Tie, col: seq<nat>, col2: seq<nat>, active: set<nat>, active2: set<nat>, d: nat)
    requires |col2| == |col|
  {
    if d in active then Pieces(col, col2, d) <= active2 else exists x: nat :: Spares(tie, col, col2, d, x, active2)
  }

  lemma RespreadAnyway(tie: Tie, col: seq<nat>, col2: seq<nat>, active: set<nat>, active2: set<nat>, d: nat)
    requires |col2| == |col| && Respread(tie, col, col2, active, active2, d)
    ensures Respread(Any, col, col2, active, active2, d)
  {
    if d !in active {
      var x: nat :| Spares(tie, col, col2, d, x, active2);
      assert Spares(Any, col, col2, d, x, active2);
    }
  }

  // A piece that becomes active is at most half of a class that was not.
  lemma NewPieceHalved(col: seq<nat>, col2: seq<nat>, active: set<nat>, active2: set<nat>, v: nat)
    requires Refines(col2, col) && v < |col| && Respread(Any, col, col2, active, active2, col[v])
    requires col[v] !in active && col2[v] in active2
    ensures 2 * |Class(col2, col2[v])| <= |Class(col, col[v])|
  {
    var d, e := col[v], col2[v];
    var x: nat :| Spares(Any, col, col2, d, x, active2);
    assert v in Class(col, d);
    assert e in Pieces(col, col2, d) && x in Pieces(col, col2, d);
    DisjointHalves(Class(col2, e), Class(col2, x), Class(col, d));
  }

  // ----- how often a vertex is in a splitting cell -----

  // After h times: the cell of v has at most n / 2^h vertices if it is active, 2n / 2^h if not.
  ghost predicate Affordable(n: nat, level: int, s: Part, v: nat, h: nat)
    requires PartOk(n, level, s) && v < n
  {
    var col := ColOf(n, level, s);
    Pow2(h) * |Class(col, col[v])| <= (if col[v] in s.active then 1 else 2) * n
  }

  lemma AffordNext(p: nat, before: nat, after: nat, n: nat, active: bool, active2: bool)
    requires after <= before && (active2 && !active ==> 2 * after <= before)
    requires p * before <= (if active then 1 else 2) * n
    ensures p * after <= (if active2 then 1 else 2) * n
  {
    ScaledLeq(p, after, before);
    if active2 && !active {
      ScaledLeq(p, 2 * after, before);
      assert p * (2 * after) == 2 * (p * after);
    }
  }

  // Sparing the largest pieces, every vertex can still afford what it could.
  lemma StillAffordable(n: nat, level: int, s: Part, t: Part, v: nat, h: nat)
    requires PartOk(n, level, s) && PartOk(n, level, t) && v < n && Affordable(n, level, s, v, h)
    requires Refines(ColOf(n, level, t), ColOf(n, level, s))
    requires Respread(Any, ColOf(n, level, s), ColOf(n, level, t), s.active, t.active, ColOf(n, level, s)[v])
    ensures Affordable(n, level, t, v, h)
  {
    var col, col2 := ColOf(n, level, s), ColOf(n, level, t);
    SubsetCard(Class(col2, col2[v]), Class(col, col[v]));
    if col[v] !in s.active && col2[v] in t.active { NewPieceHalved(col, col2, s.active, t.active, v); }
    hide PartOk, ColOf, Respread, Refines, Class, Pow2;
    AffordNext(Pow2(h), |Class(col, col[v])|, |Class(col2, col2[v])|, n, col[v] in s.active, col2[v] in t.active);
  }

  // ----- runs -----

  // A cell is taken from the active ones; the classes are cut, and largest pieces spared.
  ghost predicate Used(n: nat, level: int, s: Part, cell: nat, t: Part) {
    && PartOk(n, level, s) && PartOk(n, level, t) && cell in s.active
    && Grown(level, s.(active := s.active - {cell}), t)
    && Refines(ColOf(n, level, t), ColOf(n, level, s))
    && forall d: nat :: d < n ==>
        Respread(Any, ColOf(n, level, s), ColOf(n, level, t), s.active - {cell}, t.active, d)
  }

  // The states that a refinement goes through, and the splitting cell used between each two.
  datatype Run = At(state: Part) | Next(before: Run, cell: nat, state: Part)

  ghost function First(run: Run): Part {
    if run.At? then run.state else First(run.before)
  }

  ghost predicate IsRun(n: nat, level: int, run: Run) {
    && PartOk(n, level, run.state)
    && (run.Next? ==> IsRun(n, level, run.before) && Used(n, level, run.before.state, run.cell, run.state))
  }

  // How many of the splitting cells v was in.
  ghost function Uses(n: nat, level: int, run: Run, v: nat): nat
    requires IsRun(n, level, run) && v < n
  {
    if run.At? then 0
    else Uses(n, level, run.before, v) + if ColOf(n, level, run.before.state)[v] == run.cell then 1 else 0
  }

  lemma StartAffordable(n: nat, level: int, s: Part, v: nat)
    requires PartOk(n, level, s) && v < n
    ensures Affordable(n, level, s, v, 0)
  {
    var col := ColOf(n, level, s);
    SubsetCard(Class(col, col[v]), Range(n));
    RangeCard(n);
    assert Pow2(0) == 1;
  }

  // Taking a cell charges its vertices, which could be charged at most log2(n) times before.
  lemma TakenAffordable(n: nat, level: int, s: Part, cell: nat, v: nat, h: nat)
    requires PartOk(n, level, s) && cell in s.active && v < n && Affordable(n, level, s, v, h)
    ensures var t, used := s.(active := s.active - {cell}), ColOf(n, level, s)[v] == cell;
      && PartOk(n, level, t) && Affordable(n, level, t, v, if used then h + 1 else h)
      && (used ==> h <= Log2(n))
  {
    var t, col := s.(active := s.active - {cell}), ColOf(n, level, s);
    assert ColOf(n, level, t) == col;
    if col[v] == cell { PopOne(n, |Class(col, cell)|, h, Class(col, cell), v); }
  }

  lemma {:induction false} RunAffordable(n: nat, level: int, run: Run, v: nat)
    requires IsRun(n, level, run) && v < n
    ensures Affordable(n, level, run.state, v, Uses(n, level, run, v)) && Uses(n, level, run, v) <= Log2(n) + 1
    decreases run
  {
    if run.At? {
      StartAffordable(n, level, run.state, v);
    } else {
      RunAffordable(n, level, run.before, v);
      TakenAffordable(n, level, run.before.state, run.cell, v, Uses(n, level, run.before, v));
      UsedAffordable(n, level, run.before.state, run.cell, run.state, v, Uses(n, level, run, v));
    }
  }

  lemma UsedAffordable(n: nat, level: int, s: Part, cell: nat, t: Part, v: nat, h: nat)
    requires Used(n, level, s, cell, t) && v < n && PartOk(n, level, s.(active := s.active - {cell}))
    requires Affordable(n, level, s.(active := s.active - {cell}), v, h)
    ensures Affordable(n, level, t, v, h)
  {
    var r := s.(active := s.active - {cell});
    assert ColOf(n, level, r) == ColOf(n, level, s);
    ColourBelow(n, level, s, v);
    StillAffordable(n, level, r, t, v, h);
  }

  lemma ColourBelow(n: nat, level: int, s: Part, v: nat)
    requires PartOk(n, level, s) && v < n
    ensures ColOf(n, level, s)[v] < n
  {
  }

  // Main theorem: over a whole run no vertex is in more than log2(n) + 1 splitting cells.
  lemma UsesLogarithmic(n: nat, level: int, run: Run, v: nat)
    requires IsRun(n, level, run) && v < n
    ensures Uses(n, level, run, v) <= Log2(n) + 1
  {
    RunAffordable(n, level, run, v);
  }

  lemma {:induction false} RunFiner(n: nat, level: int, run: Run)
    requires IsRun(n, level, run)
    ensures PartOk(n, level, First(run)) && Finer(First(run).ptn, run.state.ptn, level)
  {
    if run.At? {
      FinerItself(run.state.ptn, level);
    } else {
      RunFiner(n, level, run.before);
      FinerChain(First(run).ptn, run.before.state.ptn, run.state.ptn, level);
    }
  }

  lemma PopOne(n: nat, size: nat, h: nat, cell: set<nat>, v: nat)
    requires v in cell && |cell| == size && n > 0 && Pow2(h) * size <= n
    ensures Pow2(h + 1) * size <= 2 * n && h <= Log2(n)
  {
    assert size >= 1;
    ScaledLeq(Pow2(h), 1, size);
    assert Pow2(h + 1) * size == 2 * (Pow2(h) * size);
    Log2Bound(n, h);
  }
}
