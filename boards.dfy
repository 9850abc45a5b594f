/**
 * The value-level view of a puzzle grid and the specification of the puzzle's
 * mutation rule. `GridModel.Game` is proved against these functions.
 */
module Boards {
  /** Cell states row by row: `b[y][x]` is the state of the cell in column x of row y. */
  type Board = seq<seq<nat>>

  /** The number of rows, and of cells per row, that counting from 0 up to below `size` builds. */
  function Dim(size: int): nat {
    if size < 0 then 0 else size
  }

  predicate IsSquare(b: Board, n: nat) {
    |b| == n && forall y :: 0 <= y < n ==> |b[y]| == n
  }

  /** Every state lies in [0, base). */
  predicate InRange(b: Board, base: int) {
    forall y, x :: 0 <= y < |b| && 0 <= x < |b[y]| ==> b[y][x] < base
  }

  /** The grid of a freshly built game: every cell in state 0. */
  function Zeros(n: nat): (b: Board)
    ensures IsSquare(b, n)
    ensures forall y, x :: 0 <= y < n && 0 <= x < n ==> b[y][x] == 0
  {
    seq(n, _ => seq(n, _ => 0))
  }

  /**
   * One increment of a cell: `(state + 1) % base`. For a non-negative
   * dividend Dafny's `%` and JavaScript's `%` agree, whatever the sign of base.
   */
  function Inc(s: nat, base: int): (r: nat)
    requires base != 0
    ensures base > 0 ==> r < base
    ensures s + 1 < base ==> r == s + 1
    ensures s + 1 == base ==> r == 0
  {
    (s + 1) % base
  }

  /** `k` consecutive increments of one cell. */
  function IncN(s: nat, base: int, k: nat): nat
    requires base != 0
  {
    if k == 0 then s else Inc(IncN(s, base, k - 1), base)
  }

  /** Below the modulus, k increments simply add k. */
  lemma {:induction false} IncNBelow(s: nat, base: int, k: nat)
    requires s + k < base
    ensures IncN(s, base, k) == s + k
  {
    if k > 0 {
      IncNBelow(s, base, k - 1);
    }
  }

  /** k1 + k2 increments are k1 increments followed by k2 more. */
  lemma {:induction false} IncNSplit(s: nat, base: int, k1: nat, k2: nat)
    requires base != 0
    ensures IncN(s, base, k1 + k2) == IncN(IncN(s, base, k1), base, k2)
  {
    if k2 > 0 {
      IncNSplit(s, base, k1, k2 - 1);
    }
  }

  /** `base` consecutive increments of a state in [0, base) give that state back. */
  lemma IncCycle(s: nat, base: nat)
    requires s < base
    ensures IncN(s, base, base) == s
  {
    IncNSplit(s, base, base - s, s);
    IncNBelow(s, base, base - s - 1);
    assert IncN(s, base, base - s) == 0;
    IncNBelow(0, base, s);
  }

  /** The offsets, in the order the source visits them, of a cell and its four orthogonal neighbours. */
  const Offsets: seq<(int, int)> := [(0, 0), (-1, 0), (1, 0), (0, -1), (0, 1)]

  function Abs(n: int): nat {
    if n < 0 then -n else n
  }

  /** Cell (i, j) is the clicked cell (x, y) or one of its orthogonal neighbours. */
  predicate InPlus(i: int, j: int, x: int, y: int) {
    Abs(i - x) + Abs(j - y) <= 1
  }

  /** The offset list names exactly the plus shape, each offset once. */
  lemma OffsetsArePlus(i: int, j: int, x: int, y: int)
    ensures InPlus(i, j, x, y) <==> (i - x, j - y) in Offsets
    ensures forall k, l :: 0 <= k < l < |Offsets| ==> Offsets[k] != Offsets[l]
  {
  }

  /** The grid after a click on (x, y): every in-grid cell of the plus shape is incremented. */
  function ClickBoard(b: Board, x: int, y: int, base: int): (c: Board)
    requires base != 0
    ensures |c| == |b| && forall j :: 0 <= j < |b| ==> |c[j]| == |b[j]|
  {
    seq(|b|, j requires 0 <= j < |b| =>
      seq(|b[j]|, i requires 0 <= i < |b[j]| =>
        if InPlus(i, j, x, y) then Inc(b[j][i], base) else b[j][i]))
  }

  /**
   * With base >= 2 and every state in [0, base), a click changes exactly the
   * in-grid cells of the plus shape, and every state stays in [0, base).
   */
  lemma ClickChangesExactlyPlus(b: Board, n: nat, base: int, x: int, y: int)
    requires IsSquare(b, n) && 2 <= base && InRange(b, base)
    ensures IsSquare(ClickBoard(b, x, y, base), n)
    ensures InRange(ClickBoard(b, x, y, base), base)
    ensures forall j, i :: 0 <= j < n && 0 <= i < n ==>
      (ClickBoard(b, x, y, base)[j][i] != b[j][i] <==> InPlus(i, j, x, y))
  {
  }

  /** Two clicks give the same grid in either order. */
  lemma ClickCommutes(b: Board, base: int, x1: int, y1: int, x2: int, y2: int)
    requires base != 0
    ensures ClickBoard(ClickBoard(b, x1, y1, base), x2, y2, base)
         == ClickBoard(ClickBoard(b, x2, y2, base), x1, y1, base)
  {
    var l := ClickBoard(ClickBoard(b, x1, y1, base), x2, y2, base);
    var r := ClickBoard(ClickBoard(b, x2, y2, base), x1, y1, base);
    forall j | 0 <= j < |b| ensures l[j] == r[j] {
    }
  }

  /** `k` consecutive clicks on the same cell. */
  function ClickIter(b: Board, x: int, y: int, base: int, k: nat): Board
    requires base != 0
  {
    if k == 0 then b else ClickBoard(ClickIter(b, x, y, base, k - 1), x, y, base)
  }

  lemma {:induction false} ClickIterAt(b: Board, x: int, y: int, base: int, k: nat)
    requires base != 0
    ensures |ClickIter(b, x, y, base, k)| == |b|
    ensures forall j :: 0 <= j < |b| ==> |ClickIter(b, x, y, base, k)[j]| == |b[j]|
    ensures forall j, i :: 0 <= j < |b| && 0 <= i < |b[j]| ==>
      ClickIter(b, x, y, base, k)[j][i] == if InPlus(i, j, x, y) then IncN(b[j][i], base, k) else b[j][i]
  {
    if k > 0 {
      ClickIterAt(b, x, y, base, k - 1);
    }
  }

  /** Clicking the same cell `base` times restores a grid whose states lie in [0, base). */
  lemma ClickCycle(b: Board, x: int, y: int, base: nat)
    requires 0 < base && InRange(b, base)
    ensures ClickIter(b, x, y, base, base) == b
  {
    var c := ClickIter(b, x, y, base, base);
    ClickIterAt(b, x, y, base, base);
    forall j | 0 <= j < |b| ensures c[j] == b[j] {
      forall i | 0 <= i < |b[j]| ensures c[j][i] == b[j][i] {
        IncCycle(b[j][i], base);
      }
    }
  }
}
