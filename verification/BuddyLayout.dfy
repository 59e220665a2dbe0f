/**
  Where the status of every tree node lies in the bitset. Nodes are numbered as in a binary
  heap (root 1, children 2i and 2i+1); the depth of node i is the number of its binary digits.
  A node of a tree of order n at depth d holds a unary number of width n - d + 1.
*/
module BuddyLayout {
  import opened Arith

  /** `struct buddy_tree_pos` */
  datatype Pos = Pos(index: nat, depth: nat)

  const INVALID_POS: Pos := Pos(0, 0)
  const ROOT: Pos := Pos(1, 1)

  predicate Node(n: nat, i: nat) {
    1 <= i < Pow2(n)
  }

  /** The depth of a node: the number of binary digits of its index. */
  ghost function Depth(i: nat): (d: nat)
    ensures i >= 1 ==> d >= 1 && Pow2(d - 1) <= i < Pow2(d)
  {
    BitLengthBounds(i);
    if i == 0 then 0 else var d: nat :| d >= 1 && Pow2(d - 1) <= i < Pow2(d); d
  }

  lemma {:induction false} DepthUnique(i: nat, k: nat)
    requires k >= 1 && Pow2(k - 1) <= i < Pow2(k)
    ensures Depth(i) == k
  {
    var d := Depth(i);
    if d < k {
      Pow2Mono(d, k - 1);
    } else if k < d {
      Pow2Mono(k, d - 1);
    }
  }

  lemma {:induction false} DepthHalf(v: nat, h: nat)
    requires v >= 2 && h == v / 2
    ensures Depth(v) == 1 + Depth(h)
  {
    DepthUnique(v, Depth(h) + 1);
  }

  /** A position of the tree whose depth field agrees with its index. */
  ghost predicate ValidPos(n: nat, p: Pos) {
    Node(n, p.index) && p.depth == Depth(p.index)
  }

  /** The depth of a node lies between 1 and the order. */
  lemma {:induction false} DepthRange(n: nat, i: nat)
    requires Node(n, i)
    ensures 1 <= Depth(i) <= n
  {
    if Depth(i) > n {
      Pow2Mono(n, Depth(i) - 1);
    }
  }

  /** A depth of at most `n` makes a node of the tree. */
  lemma {:induction false} DepthNode(n: nat, i: nat)
    requires i >= 1 && Depth(i) <= n
    ensures Node(n, i)
  {
    Pow2Mono(Depth(i), n);
  }

  /** Children are one level deeper; a node has children exactly when it is not at the last level. */
  lemma {:induction false} ChildNodes(n: nat, i: nat)
    requires Node(n, i)
    ensures Depth(2 * i) == Depth(2 * i + 1) == Depth(i) + 1
    ensures Node(n, 2 * i) <==> Depth(i) < n
    ensures Node(n, 2 * i + 1) <==> Depth(i) < n
  {
    DepthHalf(2 * i, i);
    DepthHalf(2 * i + 1, i);
    if Depth(i) < n {
      DepthNode(n, 2 * i);
      DepthNode(n, 2 * i + 1);
    } else {
      DepthRange(n, i);
    }
  }

  lemma {:induction false} ParentNode(n: nat, i: nat)
    requires Node(n, i) && i > 1
    ensures Node(n, i / 2) && Depth(i / 2) == Depth(i) - 1 && Depth(i / 2) < n
  {
    DepthRange(n, i);
    DepthHalf(i, i / 2);
  }

  /** The width of the unary number stored at a node (`local_offset`). */
  ghost function Width(n: nat, i: nat): (w: int) {
    n + 1 - Depth(i)
  }

  ghost predicate NextLoc(n: nat, t: seq<nat>, i: nat)
    requires i + 1 < |t|
  {
    t[i + 1] == t[i] + Width(n, i)
  }

  /** Prefix sums of the widths of the nodes, in heap order. */
  ghost predicate LocTable(n: nat, t: seq<nat>) {
    && |t| == Pow2(n) + 1
    && t[1] == 0
    && forall i: nat {:trigger NextLoc(n, t, i)} :: Node(n, i) ==> NextLoc(n, t, i)
  }

  lemma {:induction false} LocTableUpTo(n: nat, len: nat) returns (t: seq<nat>)
    requires 1 <= len <= Pow2(n)
    ensures |t| == len + 1 && t[1] == 0
    ensures forall i: nat {:trigger NextLoc(n, t, i)} :: 1 <= i < len ==> NextLoc(n, t, i)
    decreases len
  {
    if len == 1 {
      t := [0, 0];
    } else {
      var u := LocTableUpTo(n, len - 1);
      DepthRange(n, len - 1);
      t := u + [u[len - 1] + Width(n, len - 1)];
      forall i: nat | 1 <= i < len ensures NextLoc(n, t, i) {
        assert i < len - 1 ==> NextLoc(n, u, i);
      }
    }
  }

  ghost function Locs(n: nat): (t: seq<nat>)
    ensures |t| == Pow2(n) + 1
  {
    LocTableExists(n);
    var t :| LocTable(n, t);
    t
  }

  lemma {:induction false} LocTableExists(n: nat)
    ensures exists t :: LocTable(n, t)
  {
    var t := LocTableUpTo(n, Pow2(n));
    assert LocTable(n, t);
  }

  /** The bit position of node `i`: the widths of all nodes before it, in heap order. */
  ghost function Loc(n: nat, i: nat): (l: nat)
    requires 1 <= i <= Pow2(n)
  {
    Locs(n)[i]
  }

  lemma {:induction false} LocFirst(n: nat)
    ensures Loc(n, 1) == 0
  {
  }

  lemma {:induction false} LocNext(n: nat, i: nat)
    requires Node(n, i)
    ensures Loc(n, i + 1) == Loc(n, i) + Width(n, i)
  {
    assert NextLoc(n, Locs(n), i);
  }

  /** The number of bits of the whole tree. */
  ghost function TotalBits(n: nat): nat {
    Loc(n, Pow2(n))
  }

  /** Distinct nodes occupy disjoint bit ranges, in heap order. */
  lemma {:induction false} LocOrdered(n: nat, i: nat, j: nat)
    requires 1 <= i < j <= Pow2(n)
    ensures Loc(n, i) + Width(n, i) <= Loc(n, j)
    ensures Width(n, i) >= 1
    decreases j
  {
    DepthRange(n, i);
    DepthRange(n, j - 1);
    LocNext(n, j - 1);
    if i < j - 1 {
      LocOrdered(n, i, j - 1);
    }
  }

  lemma {:induction false} LocMono(n: nat, i: nat, j: nat)
    requires 1 <= i <= j <= Pow2(n)
    ensures Loc(n, i) <= Loc(n, j)
  {
    if i < j {
      LocOrdered(n, i, j);
    }
  }

  lemma {:induction false} LocInBounds(n: nat, i: nat)
    requires Node(n, i)
    ensures 1 <= Width(n, i) <= n
    ensures Loc(n, i) + Width(n, i) <= TotalBits(n)
  {
    DepthRange(n, i);
    LocOrdered(n, i, Pow2(n));
  }

  /** The next node lies in the same row or starts the next one. */
  lemma {:induction false} NextNode(i: nat)
    requires i >= 1
    ensures Depth(i + 1) == Depth(i)
      || (Depth(i + 1) == Depth(i) + 1 && i + 1 == 2 * Pow2(Depth(i) - 1) == Pow2(Depth(i)))
  {
    var d := Depth(i);
    if i + 1 < Pow2(d) {
      DepthUnique(i + 1, d);
    } else {
      DepthUnique(i + 1, d + 1);
    }
  }

  function LocFormula(n: nat, w: int, i: nat, p: nat): int {
    w * i + 2 * p - n - 2
  }

  /** Closed form of the prefix sum. */
  lemma {:induction false} LocClosed(n: nat, i: nat)
    requires 1 <= i <= Pow2(n)
    ensures Loc(n, i) == LocFormula(n, Width(n, i), i, Pow2(Depth(i) - 1))
  {
    LocFirst(n);
    if i == 1 {
      DepthUnique(1, 1);
    } else {
      var j: nat := i - 1;
      LocNext(n, j);
      var d := Depth(j);
      assert Loc(n, j) == LocFormula(n, Width(n, j), j, Pow2(d - 1)) by { LocClosed(n, j); }
      DepthRange(n, j);
      NextNode(j);
      LocStep(n, Width(n, j), j, Pow2(d - 1));
    }
  }

  lemma {:induction false} LocStep(n: nat, w: int, j: nat, p: nat)
    ensures LocFormula(n, w, j, p) + w == LocFormula(n, w, j + 1, p)
    ensures j + 1 == 2 * p ==> LocFormula(n, w, j, p) + w == LocFormula(n, w - 1, j + 1, 2 * p)
  {
  }

  function RowFormula(n: nat, to: nat, p: nat): int {
    (to + 2) * p - (n + 2)
  }

  lemma {:induction false} LocRowOffset(n: nat, w: nat, i: nat, p: nat)
    ensures RowFormula(n, w, p) + w * (i - p) == LocFormula(n, w, i, p)
  {
  }

  /** `size_for_order(order, to)`: the bits of all rows wider than `to`. */
  function RowStart(order: nat, to: nat): (s: nat) {
    if order <= to then 0 else order + 2 * RowStart(order - 1, to)
  }

  /** The summing loop of `size_for_order`. */
  method SizeForOrder(order: nat, to: nat) returns (result: nat)
    requires to <= order
    ensures result == RowStart(order, to)
  {
    var o, multi: nat := order, 1;
    result := 0;
    while o != to
      invariant to <= o <= order
      invariant RowStart(order, to) == result + multi * RowStart(o, to)
      decreases o
    {
      RowAdded(multi, o, RowStart(o - 1, to));
      result := result + o * multi;
      o := o - 1;
      multi := multi * 2;
    }
    assert multi * 0 == 0;
  }

  lemma {:induction false} RowAdded(multi: nat, o: nat, rest: nat)
    ensures multi * (o + 2 * rest) == o * multi + (multi * 2) * rest
  {
  }

  lemma {:induction false} RowStartClosed(order: nat, to: nat)
    requires to <= order
    ensures RowStart(order, to) == RowFormula(order, to, Pow2(order - to))
  {
    if to < order {
      RowStartClosed(order - 1, to);
      assert (to + 2) * (2 * Pow2(order - 1 - to)) == 2 * ((to + 2) * Pow2(order - 1 - to));
    } else {
      assert (to + 2) * 1 == to + 2;
    }
  }

  /** Row start plus in-row offset is the prefix-sum location of the node. */
  lemma {:induction false} PositionIsLoc(n: nat, i: nat, w: nat, p: nat)
    requires Node(n, i) && w == Width(n, i) && p == Pow2(Depth(i) - 1)
    ensures 1 <= w <= n && p <= i
    ensures RowStart(n, w) + w * (i - p) == Loc(n, i)
  {
    DepthRange(n, i);
    var row, loc := RowStart(n, w), Loc(n, i);
    assert row == RowFormula(n, w, p) by { RowStartClosed(n, w); }
    assert loc == LocFormula(n, w, i, p) by { LocClosed(n, i); }
    LocRowOffset(n, w, i, p);
  }

  /** The first node of the row of width `to`. */
  lemma {:induction false} RowStartIsLoc(n: nat, to: nat)
    requires to <= n
    ensures Depth(Pow2(n - to)) == n - to + 1
    ensures 1 <= Pow2(n - to) <= Pow2(n)
    ensures RowStart(n, to) == Loc(n, Pow2(n - to))
  {
    var i := Pow2(n - to);
    DepthUnique(i, n - to + 1);
    Pow2Mono(n - to, n);
    assert RowStart(n, to) == RowFormula(n, to, i) by { RowStartClosed(n, to); }
    assert Loc(n, i) == LocFormula(n, to, i, i) by { LocClosed(n, i); }
    LocRowOffset(n, to, i, i);
  }

  /** `struct internal_position` */
  datatype Internal = Internal(localOffset: nat, location: nat)

  /** The place of a node from the start of its row. */
  function PlaceInRow(rowStart: nat, w: nat, localIndex: nat): Internal {
    Internal(w, rowStart + w * localIndex)
  }

  lemma {:induction false} PlaceInRowIsLoc(n: nat, pos: Pos)
    requires ValidPos(n, pos)
    ensures 1 <= pos.depth <= n && Pow2(pos.depth - 1) <= pos.index
    ensures PlaceInRow(RowStart(n, n - pos.depth + 1), n - pos.depth + 1, pos.index - Pow2(pos.depth - 1))
         == Internal(n - pos.depth + 1, Loc(n, pos.index))
    ensures n - pos.depth + 1 == Width(n, pos.index) >= 1
  {
    DepthRange(n, pos.index);
    PositionIsLoc(n, pos.index, n - pos.depth + 1, Pow2(pos.depth - 1));
  }

  /** `buddy_tree_internal_position_order`: location computed afresh from the order. */
  method InternalPositionOrder(order: nat, p: Pos) returns (r: Internal)
    requires ValidPos(order, p)
    ensures r.localOffset == Width(order, p.index) && r.location == Loc(order, p.index)
  {
    PlaceInRowIsLoc(order, p);
    var w := order - p.depth + 1;
    var total := SizeForOrder(order, w);
    r := PlaceInRow(total, w, p.index - Pow2(p.depth - 1));
  }

  // ----- the allocation holding bitset and memo table

  const SIZEOF_SIZE_T: nat := 8

  /** `bitset_sizeof` */
  function BitsetSizeof(elements: nat): (bytes: nat) {
    (elements + 7) / 8
  }

  /** The padding both size computations share; it adds the remainder rather than rounding up. */
  function PaddedBitset(order: nat): (bytes: nat) {
    var b := BitsetSizeof(RowStart(order, 0));
    b + b % SIZEOF_SIZE_T
  }

  /** `buddy_tree_sizeof` without the header structure. */
  function TreeSizeofBody(order: nat): (bytes: nat) {
    PaddedBitset(order) + (order + 2) * SIZEOF_SIZE_T
  }

  /** Byte offset, after the header, of entry `i` of the memo table. */
  function MemoOffset(order: nat, i: nat): (bytes: nat) {
    (PaddedBitset(order) / SIZEOF_SIZE_T + 1 + i) * SIZEOF_SIZE_T
  }

  /**
    The memo table starts behind the last byte of the bitset (with one spare byte, which the
    growing shift touches) and ends within the allocation, for every order.
  */
  lemma {:induction false} MemoTableFits(order: nat, i: nat)
    requires i <= order
    ensures TotalBits(order) <= 8 * BitsetSizeof(TotalBits(order))
    ensures BitsetSizeof(TotalBits(order)) < MemoOffset(order, i)
    ensures MemoOffset(order, i) + SIZEOF_SIZE_T <= TreeSizeofBody(order)
  {
    RowStartIsLoc(order, 0);
    var padded := PaddedBitset(order);
    assert 8 * (padded / 8) <= padded < 8 * (padded / 8) + 8;
  }
}
