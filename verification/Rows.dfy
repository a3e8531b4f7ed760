// Walking through the elements of a row of a graph in ascending order.
module Rows {
  // The next element of a row after position pos is w.
  ghost predicate NextIs(row: set<nat>, pos: int, w: nat) {
    w in row && pos < w && forall x :: x in row && pos < x ==> w <= x
  }

  ghost predicate Exhausted(row: set<nat>, pos: int) {
    forall x :: x in row ==> x <= pos
  }

  // The least element of a row after position pos, or -1.
  method NextElement(row: set<nat>, pos: int, n: nat) returns (w: int)
    requires -1 <= pos < n && forall x :: x in row ==> x < n
    ensures w == -1 ==> Exhausted(row, pos)
    ensures w != -1 ==> 0 <= w < n && NextIs(row, pos, w)
  {
    w := pos + 1;
    while w < n && w !in row
      invariant pos < w <= n
      invariant forall x :: x in row && pos < x ==> w <= x
    {
      w := w + 1;
    }
    if w == n { w := -1; }
  }
}
