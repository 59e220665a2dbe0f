/**
  Growing and shrinking the tree in place. Rows are moved bit by bit inside one bitset; on the
  level of statuses, growing hangs the old tree under the left child of a new root and shrinking
  keeps the left subtree.
*/
module BuddyResize {
  import opened Arith
  import opened Bitset
  import opened BuddyLayout
  import opened BuddyStatus
  import opened BuddyTree

  // ----- the left subtree

  /** The node that plays the part of node `i` in the left subtree of a larger tree. */
  ghost function Lift(i: nat): (j: nat)
    requires i >= 1
  {
    var d: nat :| d == Depth(i) - 1;
    i + Pow2(d)
  }

  /** Inverse of `Lift` on the left subtree. */
  ghost function Lower(j: nat): (i: int)
    requires j >= 2
  {
    DepthHalf(j, j / 2);
    var d: nat :| d == Depth(j) - 2;
    j - Pow2(d)
  }

  lemma {:induction false} LiftDepth(i: nat)
    requires i >= 1
    ensures Depth(Lift(i)) == Depth(i) + 1
    ensures Lift(i) >= 2 && Lower(Lift(i)) == i
  {
    DepthUnique(Lift(i), Depth(i) + 1);
  }

  lemma {:induction false} LiftChildren(i: nat)
    requires i >= 1
    ensures Lift(2 * i) == 2 * Lift(i) && Lift(2 * i + 1) == 2 * Lift(i) + 1
  {
    DepthHalf(2 * i, i);
    DepthHalf(2 * i + 1, i);
  }

  lemma {:induction false} LiftHalf(i: nat)
    requires i > 1
    ensures Lift(i) / 2 == Lift(i / 2)
  {
    LiftChildren(i / 2);
  }

  lemma {:induction false} LiftUnder(a: nat, d: nat)
    requires a >= 1 && d >= 1
    ensures Under(Lift(a), Lift(d)) <==> Under(a, d)
    decreases d
  {
    LiftMono(a, d);
    if d > a {
      LiftHalf(d);
      LiftUnder(a, d / 2);
    }
  }

  lemma {:induction false} LiftMono(a: nat, d: nat)
    requires a >= 1 && d >= 1
    ensures Lift(a) < Lift(d) <==> a < d
    ensures Lift(a) == Lift(d) <==> a == d
  {
    if a < d {
      LiftMonoStrict(a, d);
    } else if d < a {
      LiftMonoStrict(d, a);
    }
  }

  lemma {:induction false} LiftMonoStrict(a: nat, d: nat)
    requires 1 <= a < d
    ensures Lift(a) < Lift(d)
  {
    var p, q := Depth(a), Depth(d);
    if q < p {
      Pow2Mono(q, p - 1);
    } else {
      Pow2Mono(p - 1, q - 1);
    }
  }

  /** The lifted nodes are exactly the nodes of the left subtree. */
  lemma {:induction false} LiftIsLeft(j: nat)
    requires j >= 2
    ensures Under(2, j) <==> (Lower(j) >= 1 && Lift(Lower(j)) == j && Depth(Lower(j)) == Depth(j) - 1)
    ensures Under(2, j) <==> j < Pow2(Depth(j) - 1) + Pow2(Depth(j) - 2)
    ensures Under(2, j) || Under(3, j)
    decreases j
  {
    DepthHalf(j, j / 2);
    if j >= 4 {
      var p := j / 2;
      LiftIsLeft(p);
      DepthHalf(p, j / 4);
      LowerBit(j);
      assert Pow2(Depth(j) - 1) == 2 * Pow2(Depth(p) - 1) && Pow2(Depth(j) - 2) == 2 * Pow2(Depth(p) - 2);
      LiftLowerBit(j, p);
    } else {
      assert Depth(2) == 2 && Depth(3) == 2 && Depth(1) == 1;
    }
  }

  lemma {:induction false} LiftLowerBit(j: nat, p: nat)
    requires p >= 2 && p == j / 2 && Lower(j) == 2 * Lower(p) + j % 2 && Depth(p) == Depth(j) - 1
    requires Lower(p) >= 1 ==> Depth(Lower(j)) == Depth(Lower(p)) + 1
    ensures Lower(p) >= 1 ==> (Lift(Lower(j)) == j <==> Lift(Lower(p)) == p)
  {
  }

  lemma {:induction false} LowerBit(j: nat)
    requires j >= 4 && Depth(j / 2) == Depth(j) - 1 >= 2
    ensures Lower(j) == 2 * Lower(j / 2) + j % 2
    ensures Lower(j / 2) >= 1 ==> Lower(j) >= 1 && Depth(Lower(j)) == Depth(Lower(j / 2)) + 1
  {
    var i := Lower(j / 2);
    assert Lower(j) == 2 * i + j % 2;
    if i >= 1 {
      DepthHalf(Lower(j), i);
    }
  }

  // ----- statuses of the resized tree

  /** The old statuses in the left subtree, a free right subtree, and a root computed from both. */
  ghost function GrownStatus(n: nat, st: seq<nat>): (r: seq<nat>)
    requires n >= 1 && |st| == Pow2(n)
    ensures |r| == Pow2(n + 1)
  {
    seq(Pow2(n + 1), j requires 0 <= j < Pow2(n + 1) => GrownAt(n, st, j))
  }

  ghost function GrownAt(n: nat, st: seq<nat>, j: nat): nat
    requires n >= 1 && |st| == Pow2(n) && j < Pow2(n + 1)
  {
    if j == 0 then 0
    else if j == 1 then Combine(st[1], 0)
    else if Under(2, j) then LowerNode(n, j); st[Lower(j)]
    else 0
  }

  lemma {:induction false} LowerNode(n: nat, j: nat)
    requires Node(n + 1, j) && j >= 2 && Under(2, j)
    ensures Lower(j) >= 1 && Node(n, Lower(j)) && Lift(Lower(j)) == j
  {
    LiftIsLeft(j);
    DepthRange(n + 1, j);
    DepthNode(n, Lower(j));
  }

  lemma {:induction false} LiftNode(n: nat, i: nat)
    requires Node(n, i)
    ensures Node(n + 1, Lift(i)) && Under(2, Lift(i)) && Width(n + 1, Lift(i)) == Width(n, i)
  {
    DepthRange(n, i);
    LiftDepth(i);
    DepthNode(n + 1, Lift(i));
    LiftIsLeft(Lift(i));
  }

  ghost function GrownAlloc(alloc: set<nat>): (r: set<nat>)
    requires forall a :: a in alloc ==> a >= 1
    ensures forall a :: a in alloc ==> Lift(a) in r
    ensures forall b :: b in r ==> exists a :: a in alloc && b == Lift(a)
  {
    set a | a in alloc :: Lift(a)
  }

  lemma {:induction false} GrownAllocIff(alloc: set<nat>, i: nat)
    requires i >= 1 && forall a :: a in alloc ==> a >= 1
    ensures Lift(i) in GrownAlloc(alloc) <==> i in alloc
  {
    if Lift(i) in GrownAlloc(alloc) {
      var a :| a in alloc && Lift(i) == Lift(a);
      LiftMono(a, i);
    }
  }

  /** Growing re-embeds the old tree exactly as the left subtree with the right half free. */
  lemma {:induction false} GrowExact(n: nat, st: seq<nat>, alloc: set<nat>)
    requires n >= 1 && Exact(n, st, alloc)
    ensures Exact(n + 1, GrownStatus(n, st), GrownAlloc(alloc))
  {
    var big, st' := GrownAlloc(alloc), GrownStatus(n, st);
    forall b | b in big ensures Node(n + 1, b) && b >= 2 && Under(2, b) {
      var a :| a in alloc && b == Lift(a);
      LiftNode(n, a);
    }
    forall b, c | b in big && c in big && b != c ensures !Under(b, c) {
      var a :| a in alloc && b == Lift(a);
      var d :| d in alloc && c == Lift(d);
      LiftUnder(a, d);
    }
    var m := n + 1;
    forall j: nat | Node(m, j) ensures LocalOk(m, st', big, j) {
      GrowLocalOk(n, st, alloc, j);
    }
  }

  lemma {:induction false} GrowLocalOk(n: nat, st: seq<nat>, alloc: set<nat>, j: nat)
    requires n >= 1 && Exact(n, st, alloc) && Node(n + 1, j)
    requires forall b :: b in GrownAlloc(alloc) ==> b >= 2 && Under(2, b)
    ensures LocalOk(n + 1, GrownStatus(n, st), GrownAlloc(alloc), j)
  {
    if j == 1 {
      GrowRootOk(n, st, alloc);
    } else if Under(2, j) {
      LowerNode(n, j);
      GrowLeftOk(n, st, alloc, Lower(j), j);
    } else {
      GrowRightOk(n, st, alloc, j);
    }
  }

  lemma {:induction false} GrowRootOk(n: nat, st: seq<nat>, alloc: set<nat>)
    requires n >= 1 && Exact(n, st, alloc)
    requires 1 !in GrownAlloc(alloc)
    ensures Node(n + 1, 1) && LocalOk(n + 1, GrownStatus(n, st), GrownAlloc(alloc), 1)
  {
    Pow2Mono(2, n + 1);
    assert Depth(1) == 1 && Depth(2) == 2;
    assert !Under(2, 3) && Under(2, 2) && Lower(2) == 1;
  }

  lemma {:induction false} GrowLeftOk(n: nat, st: seq<nat>, alloc: set<nat>, i: nat, j: nat)
    requires n >= 1 && Exact(n, st, alloc) && Node(n, i) && j == Lift(i)
    ensures Node(n + 1, j) && LocalOk(n + 1, GrownStatus(n, st), GrownAlloc(alloc), j)
  {
    hide GrownAlloc, GrownStatus, Lift, Under, Pow2;
    var big, st' := GrownAlloc(alloc), GrownStatus(n, st);
    LiftNode(n, i);
    GrownLifted(n, st, i);
    GrownAllocIff(alloc, i);
    LiftDepth(i);
    assert LocalOk(n, st, alloc, i);
    if i !in alloc && Depth(i) < n {
      LiftChildren(i);
      LocalOkInner(n, st, alloc, i, 2 * i, 2 * i + 1);
      GrownLifted(n, st, 2 * i);
      GrownLifted(n, st, 2 * i + 1);
      assert st'[2 * j] == st[2 * i] && st'[2 * j + 1] == st[2 * i + 1];
      LocalOkInner(n + 1, st', big, j, 2 * j, 2 * j + 1);
    } else {
      DepthRange(n, i);
      assert LocalOk(n + 1, st', big, j);
    }
  }

  lemma {:induction false} GrowRightOk(n: nat, st: seq<nat>, alloc: set<nat>, j: nat)
    requires n >= 1 && Exact(n, st, alloc) && Node(n + 1, j) && j >= 2 && !Under(2, j)
    requires j !in GrownAlloc(alloc)
    ensures LocalOk(n + 1, GrownStatus(n, st), GrownAlloc(alloc), j)
  {
    RightSubtree(n, st, j);
    DepthRange(n + 1, j);
    if Depth(j) < n + 1 {
      RightSubtree(n, st, 2 * j);
      RightSubtree(n, st, 2 * j + 1);
      LocalOkInner(n + 1, GrownStatus(n, st), GrownAlloc(alloc), j, 2 * j, 2 * j + 1);
    }
  }

  lemma {:induction false} GrownLifted(n: nat, st: seq<nat>, i: nat)
    requires n >= 1 && |st| == Pow2(n) && Node(n, i)
    ensures Node(n + 1, Lift(i)) && GrownStatus(n, st)[Lift(i)] == st[i]
  {
    LiftNode(n, i);
    LiftDepth(i);
  }

  lemma {:induction false} RightSubtree(n: nat, st: seq<nat>, c: nat)
    requires n >= 1 && |st| == Pow2(n) && c >= 2 && !Under(2, c)
    ensures c < Pow2(n + 1) ==> GrownStatus(n, st)[c] == 0
  {
  }

  /** The statuses of the left subtree. */
  ghost function ShrunkStatus(n: nat, st: seq<nat>): (r: seq<nat>)
    requires |st| == Pow2(n + 1)
    ensures |r| == Pow2(n)
  {
    seq(Pow2(n), i requires 0 <= i < Pow2(n) => ShrunkAt(n, st, i))
  }

  ghost function ShrunkAt(n: nat, st: seq<nat>, i: nat): nat
    requires |st| == Pow2(n + 1) && i < Pow2(n)
  {
    if i == 0 then 0 else LiftNode(n, i); st[Lift(i)]
  }

  lemma {:induction false} ShrunkLifted(n: nat, st: seq<nat>, i: nat)
    requires |st| == Pow2(n + 1) && Node(n, i)
    ensures Node(n + 1, Lift(i)) && ShrunkStatus(n, st)[i] == st[Lift(i)]
  {
    LiftNode(n, i);
    assert ShrunkStatus(n, st)[i] == ShrunkAt(n, st, i);
  }

  ghost function ShrunkAlloc(n: nat, alloc: set<nat>): (r: set<nat>) {
    set i: nat | 1 <= i < Pow2(n) && Lift(i) in alloc
  }

  /** Shrinking after growing restores statuses and blocks. */
  lemma {:induction false} ShrinkUndoesGrow(n: nat, st: seq<nat>, alloc: set<nat>)
    requires n >= 1 && Exact(n, st, alloc)
    ensures ShrunkStatus(n, GrownStatus(n, st)) == st
    ensures ShrunkAlloc(n, GrownAlloc(alloc)) == alloc
  {
    var back := ShrunkStatus(n, GrownStatus(n, st));
    forall i | 0 <= i < |st| ensures back[i] == st[i] {
      if i > 0 {
        GrownLifted(n, st, i);
        ShrunkLifted(n, GrownStatus(n, st), i);
      }
    }
    forall i: nat | i >= 1 ensures Lift(i) in GrownAlloc(alloc) <==> i in alloc {
      GrownAllocIff(alloc, i);
    }
  }

  /** Everything allocated lies in the left half. */
  ghost predicate LeftOnly(alloc: set<nat>) {
    forall a :: a in alloc ==> a >= 2 && Under(2, a)
  }

  /** The test of `buddy_tree_can_shrink`: right half empty, root not full. */
  lemma {:induction false} CanShrinkIff(n: nat, st: seq<nat>, alloc: set<nat>)
    requires n >= 1 && Exact(n + 1, st, alloc)
    ensures Node(n + 1, 1) && Node(n + 1, 3)
    ensures st[3] == 0 && st[1] != Width(n + 1, 1) <==> LeftOnly(alloc)
  {
    Pow2Mono(2, n + 1);
    assert Depth(1) == 1 && Depth(3) == 2;
    ZeroIff(n + 1, st, alloc, 3);
    assert LocalOk(n + 1, st, alloc, 1);
    forall a | a in alloc ensures a >= 2 && Under(2, a) <==> a != 1 && !Under(3, a) {
      UnderRoot(a);
      UnderChild(1, a);
    }
    if LeftOnly(alloc) {
      assert 1 !in alloc;
      assert st[1] <= 1;
    }
  }

  /** Shrinking keeps exactly the left subtree. */
  lemma {:induction false} ShrinkExact(n: nat, st: seq<nat>, alloc: set<nat>)
    requires n >= 1 && Exact(n + 1, st, alloc) && LeftOnly(alloc)
    ensures Exact(n, ShrunkStatus(n, st), ShrunkAlloc(n, alloc))
    ensures GrownAlloc(ShrunkAlloc(n, alloc)) == alloc
  {
    var small, st' := ShrunkAlloc(n, alloc), ShrunkStatus(n, st);
    forall b, c | b in small && c in small && b != c ensures !Under(b, c) {
      LiftUnder(b, c);
      LiftMono(b, c);
    }
    forall i: nat | Node(n, i) ensures LocalOk(n, st', small, i) {
      ShrinkLocalOk(n, st, alloc, i);
    }
    forall a | a in alloc ensures a in GrownAlloc(small) {
      LowerNode(n, a);
    }
  }

  lemma {:induction false} ShrinkLocalOk(n: nat, st: seq<nat>, alloc: set<nat>, i: nat)
    requires Exact(n + 1, st, alloc) && Node(n, i)
    ensures LocalOk(n, ShrunkStatus(n, st), ShrunkAlloc(n, alloc), i)
  {
    var small, st', j := ShrunkAlloc(n, alloc), ShrunkStatus(n, st), Lift(i);
    LiftNode(n, i);
    ShrunkLifted(n, st, i);
    DepthRange(n, i);
    assert i in small <==> j in alloc;
    assert LocalOk(n + 1, st, alloc, j);
    if i !in small && Depth(i) < n {
      var l, r := 2 * i, 2 * i + 1;
      LocalOkInner(n, st', small, i, l, r);
      LiftChildren(i);
      ShrunkLifted(n, st, l);
      ShrunkLifted(n, st, r);
      LocalOkInner(n + 1, st, alloc, j, 2 * j, 2 * j + 1);
    }
  }

  // ----- rows of bits

  /** A row of the bitset: its bounds, and the location of each of its nodes. */
  lemma {:induction false} RowBounds(n: nat, k: nat, i: nat, w: nat, off: nat)
    requires 1 <= k <= n && Depth(i) == k && i >= 1 && w == n + 1 - k && i == Pow2(k - 1) + off
    ensures Node(n, i) && 1 <= Pow2(k - 1) <= Pow2(k) <= Pow2(n)
    ensures Width(n, i) == w && Loc(n, i) == Loc(n, Pow2(k - 1)) + w * off
    ensures Loc(n, Pow2(k - 1)) <= Loc(n, i) && Loc(n, i) + Width(n, i) <= Loc(n, Pow2(k))
  {
    DepthNode(n, i);
    Pow2Mono(k, n);
    PositionIsLoc(n, i, w, Pow2(k - 1));
    RowStartIsLoc(n, w);
    LocOrdered(n, i, Pow2(k));
    if i > Pow2(k - 1) {
      LocOrdered(n, Pow2(k - 1), i);
    }
  }

  lemma {:induction false} RowLength(n: nat, k: nat, w: nat, p: nat, length: nat)
    requires 1 <= k <= n && w == n + 1 - k && p == Pow2(k - 1) && length == w * p
    ensures 1 <= p < Pow2(k) <= Pow2(n)
    ensures Loc(n, Pow2(k)) == Loc(n, p) + length
  {
    Pow2Mono(k, n);
    DepthUnique(p, k);
    DepthUnique(Pow2(k), k + 1);
    LocClosed(n, p);
    LocClosed(n, Pow2(k));
    RowLengthArith(n, w, p, length);
  }

  lemma {:induction false} RowLengthArith(n: nat, w: nat, p: nat, length: nat)
    requires w >= 1 && length == w * p
    ensures LocFormula(n, w - 1, 2 * p, 2 * p) == LocFormula(n, w, p, p) + length
  {
  }

  lemma {:induction false} DoubleProduct(w: nat, p: nat, q: nat, length: nat)
    requires length == w * p && q == 2 * p
    ensures 2 * length == w * q
  {
  }

  /** In the larger tree, the row one deeper starts strictly behind the end of the old row. */
  lemma {:induction false} RowGap(n: nat, k: nat, q: nat)
    requires 1 <= k <= n && q == Pow2(k)
    ensures q <= Pow2(n) <= Pow2(n + 1)
    ensures Loc(n + 1, q) == Loc(n, q) + q - 1 && q >= 2
  {
    Pow2Mono(k, n);
    DepthUnique(q, k + 1);
    LocClosed(n, q);
    LocClosed(n + 1, q);
    RowGapArith(n, n - k, q);
  }

  lemma {:induction false} RowGapArith(n: nat, w: nat, q: nat)
    ensures LocFormula(n + 1, w + 1, q, q) == LocFormula(n, w, q, q) + q - 1
  {
  }

  /** A lifted node keeps its offset within the row. */
  lemma {:induction false} LiftLoc(n: nat, k: nat, i: nat, dist: int)
    requires 1 <= k <= n && Depth(i) == k && i >= 1
    requires 1 <= Pow2(k - 1) <= Pow2(k) <= Pow2(n) <= Pow2(n + 1)
    requires dist == Loc(n + 1, Pow2(k)) - Loc(n, Pow2(k - 1))
    ensures Node(n, i) && Node(n + 1, Lift(i)) && Loc(n + 1, Lift(i)) == Loc(n, i) + dist
    ensures Width(n + 1, Lift(i)) == Width(n, i)
  {
    LiftDepth(i);
    var w, off := n + 1 - k, i - Pow2(k - 1);
    RowBounds(n, k, i, w, off);
    RowBounds(n + 1, k + 1, Lift(i), w, off);
  }

  /** The nodes down to depth `k` are in place. */
  ghost predicate RowsUpTo(n: nat, s: seq<bool>, st: seq<nat>, k: int)
    requires |st| == Pow2(n)
  {
    forall i: nat {:trigger NodeBits(n, s, st, i)} :: Node(n, i) && Depth(i) <= k ==> NodeBits(n, s, st, i)
  }

  /** The nodes below depth `k` are in place. */
  ghost predicate RowsBelow(n: nat, s: seq<bool>, st: seq<nat>, k: int)
    requires |st| == Pow2(n)
  {
    forall i: nat {:trigger NodeBits(n, s, st, i)} :: Node(n, i) && Depth(i) > k ==> NodeBits(n, s, st, i)
  }

  // ----- growing by one order

  /** Bounds of old row `k` and of row `k + 1` of the larger tree: start, end, and middle of the latter. */
  datatype RowMove = RowMove(from: nat, to: nat, next: nat, mid: nat, end: nat)

  ghost predicate GrowBounds(n: nat, k: nat, m: RowMove) {
    && 1 <= k <= n
    && 1 <= Pow2(k - 1) <= Pow2(k) <= Pow2(n)
    && Pow2(k) + Pow2(k - 1) < Pow2(k + 1) <= Pow2(n + 1)
    && m.from == Loc(n, Pow2(k - 1)) && m.to == Loc(n, Pow2(k))
    && m.next == Loc(n + 1, Pow2(k)) && m.end == Loc(n + 1, Pow2(k + 1))
    && m.mid == m.next + (m.to - m.from) == Loc(n + 1, Pow2(k) + Pow2(k - 1))
    && m.from < m.to < m.next < m.mid < m.end <= TotalBits(n + 1)
    && m.end - m.mid == m.to - m.from
  }

  lemma {:induction false} GrowBoundsHold(n: nat, k: nat) returns (m: RowMove)
    requires 1 <= k <= n
    ensures GrowBounds(n, k, m)
    ensures m.to - m.from == (n + 1 - k) * Pow2(k - 1)
  {
    var length := OldRowLength(n, k);
    NewRowLength(n, k, length);
    RowGap(n, k, Pow2(k));
    Pow2Mono(k + 1, n + 1);
    MiddleLoc(n, k, length);
    LocMono(n + 1, Pow2(k + 1), Pow2(n + 1));
    m := RowMove(Loc(n, Pow2(k - 1)), Loc(n, Pow2(k)), Loc(n + 1, Pow2(k)),
                 Loc(n + 1, Pow2(k)) + length, Loc(n + 1, Pow2(k + 1)));
  }

  /** The right half of the new row starts one old row behind its start. */
  lemma {:induction false} MiddleLoc(n: nat, k: nat, length: nat)
    requires 1 <= k <= n && length == (n + 1 - k) * Pow2(k - 1)
    ensures 1 <= Pow2(k) < Pow2(k) + Pow2(k - 1) < Pow2(k + 1) <= Pow2(n + 1)
    ensures Loc(n + 1, Pow2(k) + Pow2(k - 1)) == Loc(n + 1, Pow2(k)) + length
  {
    var c := Pow2(k) + Pow2(k - 1);
    DepthUnique(c, k + 1);
    RowBounds(n + 1, k + 1, c, n + 1 - k, Pow2(k - 1));
  }

  lemma {:induction false} OldRowLength(n: nat, k: nat) returns (length: nat)
    requires 1 <= k <= n
    ensures length == (n + 1 - k) * Pow2(k - 1) && length > 0
    ensures 1 <= Pow2(k - 1) < Pow2(k) <= Pow2(n)
    ensures Loc(n, Pow2(k)) == Loc(n, Pow2(k - 1)) + length
  {
    var w, p := n + 1 - k, Pow2(k - 1);
    MulPositive(w, p);
    length := w * p;
    RowLength(n, k, w, p, length);
  }

  lemma {:induction false} NewRowLength(n: nat, k: nat, length: nat)
    requires 1 <= k <= n && length == (n + 1 - k) * Pow2(k - 1)
    ensures Pow2(k) < Pow2(k + 1) <= Pow2(n + 1)
    ensures Loc(n + 1, Pow2(k + 1)) == Loc(n + 1, Pow2(k)) + 2 * length
  {
    var w := n + 1 - k;
    DoubleProduct(w, Pow2(k - 1), Pow2(k), length);
    RowLength(n + 1, k + 1, w, Pow2(k), 2 * length);
  }

  /** The effect of shifting a row up and clearing the right half of its new place. */
  ghost predicate GrowMoved(s: seq<bool>, u: seq<bool>, m: RowMove) {
    && |s| == |u|
    && m.from <= m.to <= m.next <= m.mid <= m.end <= |s|
    && m.mid - m.next == m.to - m.from
    && forall b {:trigger u[b]} :: 0 <= b < |u| ==>
      u[b] == if m.next <= b < m.mid then s[b - (m.next - m.from)]
              else if m.mid <= b < m.end || m.from <= b <= m.to then false else s[b]
  }

  lemma {:induction false} GrowMoveEffect(n: nat, k: nat, m: RowMove, s: seq<bool>, t: seq<bool>, u: seq<bool>)
    requires GrowBounds(n, k, m) && TotalBits(n + 1) <= |s|
    requires ShiftedRight(s, t, m.from, m.to, m.next - m.from)
    requires Filled(t, u, m.mid, m.end - 1, false)
    ensures GrowMoved(s, u, m)
  {
  }

  lemma {:induction false} GrowOldRow(n: nat, st: seq<nat>, k: nat, m: RowMove, s: seq<bool>, u: seq<bool>, i: nat)
    requires |st| == Pow2(n) && GrowBounds(n, k, m) && GrowMoved(s, u, m)
    requires Node(n, i) && Depth(i) <= k - 1 && NodeBits(n, s, st, i)
    ensures NodeBits(n, u, st, i)
  {
    Pow2Mono(Depth(i), k - 1);
    LocOrdered(n, i, Pow2(k - 1));
  }

  lemma {:induction false} GrowDeepRow(n: nat, g: seq<nat>, k: nat, m: RowMove, s: seq<bool>, u: seq<bool>, j: nat)
    requires |g| == Pow2(n + 1) && GrowBounds(n, k, m) && GrowMoved(s, u, m)
    requires Node(n + 1, j) && Depth(j) > k + 1 && NodeBits(n + 1, s, g, j)
    ensures NodeBits(n + 1, u, g, j)
  {
    Pow2Mono(k + 1, Depth(j) - 1);
    if j > Pow2(k + 1) {
      LocOrdered(n + 1, Pow2(k + 1), j);
    }
    var loc, w, v := Loc(n + 1, j), Width(n + 1, j), g[j];
    assert m.end <= loc;
    assert Unary(u, loc, w, v);
  }

  lemma {:induction false} GrowLeftRow(n: nat, st: seq<nat>, k: nat, m: RowMove, s: seq<bool>, u: seq<bool>, i: nat)
    requires n >= 1 && |st| == Pow2(n) && GrowBounds(n, k, m) && GrowMoved(s, u, m)
    requires Node(n, i) && Depth(i) == k && NodeBits(n, s, st, i)
    ensures Node(n + 1, Lift(i)) && NodeBits(n + 1, u, GrownStatus(n, st), Lift(i))
  {
    GrownLifted(n, st, i);
    var dist := m.next - m.from;
    LiftLoc(n, k, i, dist);
    RowBounds(n, k, i, n + 1 - k, i - Pow2(k - 1));
    var loc, w, v := Loc(n, i), Width(n, i), st[i];
    assert m.from <= loc && loc + w <= m.to;
    forall b | loc + dist <= b < loc + dist + w ensures u[b] == (b < loc + dist + v) {
      assert u[b] == s[b - dist];
    }
  }

  lemma {:induction false} GrowRightRow(n: nat, st: seq<nat>, k: nat, m: RowMove, s: seq<bool>, u: seq<bool>, j: nat)
    requires n >= 1 && |st| == Pow2(n) && GrowBounds(n, k, m) && GrowMoved(s, u, m)
    requires Node(n + 1, j) && Depth(j) == k + 1 && !Under(2, j)
    ensures NodeBits(n + 1, u, GrownStatus(n, st), j)
  {
    LiftIsLeft(j);
    LocMono(n + 1, Pow2(k) + Pow2(k - 1), j);
    LocOrdered(n + 1, j, Pow2(k + 1));
    RightSubtree(n, st, j);
    assert Unary(u, Loc(n + 1, j), Width(n + 1, j), 0);
  }

  /** One iteration of the inner loop of `buddy_tree_grow`. */
  lemma {:induction false} GrowRow(n: nat, st: seq<nat>, k: nat, m: RowMove, s: seq<bool>, u: seq<bool>)
    requires n >= 1 && |st| == Pow2(n) && GrowBounds(n, k, m) && GrowMoved(s, u, m)
    requires RowsUpTo(n, s, st, k) && RowsBelow(n + 1, s, GrownStatus(n, st), k + 1)
    ensures RowsUpTo(n, u, st, k - 1) && RowsBelow(n + 1, u, GrownStatus(n, st), k)
    ensures SameTail(n + 1, s, u)
  {
    forall i: nat | Node(n, i) && Depth(i) <= k - 1 ensures NodeBits(n, u, st, i) {
      assert NodeBits(n, s, st, i);
      GrowOldRow(n, st, k, m, s, u, i);
    }
    var n', g := n + 1, GrownStatus(n, st);
    forall j: nat | Node(n', j) && Depth(j) > k ensures NodeBits(n', u, g, j) {
      if Depth(j) > k + 1 {
        assert NodeBits(n', s, g, j);
        GrowDeepRow(n, g, k, m, s, u, j);
      } else if Under(2, j) {
        LiftIsLeft(j);
        LowerNode(n, j);
        assert NodeBits(n, s, st, Lower(j));
        GrowLeftRow(n, st, k, m, s, u, Lower(j));
      } else {
        GrowRightRow(n, st, k, m, s, u, j);
      }
    }
  }

  /** The last move, one bit longer than the old root row, leaves the new root cleared. */
  lemma {:induction false} GrowClearsRoot(n: nat, m: RowMove, s: seq<bool>, u: seq<bool>)
    requires GrowBounds(n, 1, m) && GrowMoved(s, u, m)
    ensures Unary(u, 0, n + 1, 0)
  {
    LocFirst(n);
    LocNext(n, 1);
    DepthUnique(1, 1);
  }

  /** Handles into old row `currentPos.depth` and the row one deeper in the larger tree. */
  method GrowHandles(order: nat, currentPos: Pos, nextPos: Pos, nodeCount: nat, ghost m: RowMove)
    returns (from: nat, length: nat, next: nat)
    requires 1 <= currentPos.depth <= order && nodeCount == Pow2(currentPos.depth - 1)
    requires currentPos.index == nodeCount && nextPos == Pos(2 * nodeCount, currentPos.depth + 1)
    requires GrowBounds(order, currentPos.depth, m)
    requires m.to - m.from == (order + 1 - currentPos.depth) * nodeCount
    ensures from == m.from && from + length == m.to && next == m.next
  {
    ghost var k := currentPos.depth;
    DepthUnique(currentPos.index, k);
    DepthUnique(nextPos.index, k + 1);
    DepthNode(order, currentPos.index);
    DepthNode(order + 1, nextPos.index);
    var current := InternalPositionOrder(order, currentPos);
    var larger := InternalPositionOrder(order + 1, nextPos);
    from, length, next := current.location, current.localOffset * nodeCount, larger.location;
  }

  /** The body of the inner loop of `buddy_tree_grow`: shift one row, clear the right half of its new place. */
  method MoveRowUp(bits: array<bv8>, order: nat, currentPos: Pos, nextPos: Pos, nodeCount: nat, ghost m: RowMove)
    requires 1 <= currentPos.depth <= order && nodeCount == Pow2(currentPos.depth - 1)
    requires currentPos.index == nodeCount && nextPos == Pos(2 * nodeCount, currentPos.depth + 1)
    requires GrowBounds(order, currentPos.depth, m) && TotalBits(order + 1) <= 8 * bits.Length
    requires m.to - m.from == (order + 1 - currentPos.depth) * nodeCount
    modifies bits
    ensures GrowMoved(old(Bits(bits[..])), Bits(bits[..]), m)
  {
    var from, length, next := GrowHandles(order, currentPos, nextPos, nodeCount, m);
    ShiftAndClear(bits, from, length, next, order, currentPos.depth, m);
  }

  method ShiftAndClear(bits: array<bv8>, from: nat, length: nat, next: nat, ghost n: nat, ghost k: nat,
                       ghost m: RowMove)
    requires GrowBounds(n, k, m) && TotalBits(n + 1) <= 8 * bits.Length
    requires from == m.from && from + length == m.to && next == m.next
    modifies bits
    ensures GrowMoved(old(Bits(bits[..])), Bits(bits[..]), m)
  {
    ghost var s := Bits(bits[..]);
    ShiftRight(bits, from, from + length, next - from);
    ghost var t := Bits(bits[..]);
    FillRange(bits, next + length, next + length * 2 - 1, false);
    GrowMoveEffect(n, k, m, s, t, Bits(bits[..]));
  }

  lemma {:induction false} GrowStart(n: nat, s: seq<bool>, st: seq<nat>)
    requires n >= 1 && |st| == Pow2(n) && Encodes(n, s, st)
    ensures RowsUpTo(n, s, st, n) && RowsBelow(n + 1, s, GrownStatus(n, st), n + 1)
  {
    var n', g := n + 1, GrownStatus(n, st);
    forall j: nat | Node(n', j) ensures Depth(j) <= n' {
      DepthRange(n', j);
    }
  }

  lemma {:induction false} GrowFinish(n: nat, s: seq<bool>, st: seq<nat>)
    requires n >= 1 && |st| == Pow2(n)
    requires RowsBelow(n + 1, s, GrownStatus(n, st), 1) && Unary(s, 0, n + 1, 0)
    ensures Encodes(n + 1, s, GrownStatus(n, st)[1 := 0])
  {
    var n', g := n + 1, GrownStatus(n, st);
    forall j: nat | Node(n', j) ensures NodeBits(n', s, g[1 := 0], j) {
      if j == 1 {
        LocFirst(n');
        DepthUnique(1, 1);
      } else {
        DepthHalf(j, j / 2);
        assert NodeBits(n', s, g, j);
      }
    }
  }

  /** Moves all rows of a tree of the given order, deepest first. */
  method MoveRowsUp(bits: array<bv8>, order: nat, ghost st: seq<nat>)
    requires order >= 1 && |st| == Pow2(order) && TotalBits(order + 1) <= 8 * bits.Length
    requires Encodes(order, Bits(bits[..]), st)
    modifies bits
    ensures Encodes(order + 1, Bits(bits[..]), GrownStatus(order, st)[1 := 0])
    ensures SameTail(order + 1, old(Bits(bits[..])), Bits(bits[..]))
  {
    ghost var s0 := Bits(bits[..]);
    GrowStart(order, s0, st);
    var currentOrder: nat := order;
    var currentPos := Pos(Pow2(order - 1), order);
    var nextPos := Pos(Pow2(order), order + 1);
    while currentOrder != 0
      invariant 0 <= currentOrder <= order
      invariant currentOrder != 0 ==> currentPos == Pos(Pow2(currentOrder - 1), currentOrder)
      invariant nextPos == Pos(Pow2(currentOrder), currentOrder + 1)
      invariant RowsUpTo(order, Bits(bits[..]), st, currentOrder)
      invariant RowsBelow(order + 1, Bits(bits[..]), GrownStatus(order, st), currentOrder + 1)
      invariant SameTail(order + 1, s0, Bits(bits[..]))
      invariant currentOrder == 0 ==> Unary(Bits(bits[..]), 0, order + 1, 0)
      decreases currentOrder
    {
      ghost var m := GrowBoundsHold(order, currentOrder);
      ghost var s := Bits(bits[..]);
      var nodeCount := Pow2(currentOrder - 1);
      MoveRowUp(bits, order, currentPos, nextPos, nodeCount, m);
      GrowRow(order, st, currentOrder, m, s, Bits(bits[..]));
      if currentOrder == 1 {
        GrowClearsRoot(order, m, s, Bits(bits[..]));
      }
      currentOrder := currentOrder - 1;
      currentPos := Pos(currentPos.index / 2, currentPos.depth - 1);
      nextPos := Pos(nextPos.index / 2, nextPos.depth - 1);
    }
    GrowFinish(order, Bits(bits[..]), st);
  }

  /** Refreshing the root from its free right child completes the grown statuses. */
  lemma {:induction false} GrowRoot(n: nat, st: seq<nat>)
    requires n >= 1 && |st| == Pow2(n)
    ensures Node(n + 1, 3) && GrownStatus(n, st)[1 := 0][3] == 0
    ensures Chain(n + 1, GrownStatus(n, st)[1 := 0], 3, 0) == GrownStatus(n, st)
  {
    var g := GrownStatus(n, st);
    Pow2Mono(2, n + 1);
    assert !Under(2, 3) && Under(2, 2);
    DepthUnique(2, 2);
    assert g[3] == 0 && g[2] == st[1] && g[1] == Combine(st[1], 0);
    var g0 := g[1 := 0];
    assert g0[1 := g[1]] == g;
    ChainUnfold(n + 1, g0, 3, 0, Combine(0, st[1]));
  }

  /** One round of `buddy_tree_grow`: the old tree becomes the left subtree, the right half is free. */
  method GrowOnce(t: Tree)
    requires t.Valid() && TotalBits(t.order + 1) <= 8 * t.bits.Length
    modifies t, t.bits
    ensures t.Valid() && t.order == old(t.order) + 1
    ensures t.st == GrownStatus(old(t.order), old(t.st))
    ensures t.alloc == GrownAlloc(old(t.alloc))
    ensures SameTail(t.order, old(Bits(t.bits[..])), Bits(t.bits[..]))
  {
    ghost var n, st, alloc := t.order, t.st, t.alloc;
    GrowExact(n, st, alloc);
    MoveRowsUp(t.bits, t.order, t.st);
    t.order := t.order + 1;
    t.upperPosBound := Pow2(t.order);
    t.st := GrownStatus(n, st)[1 := 0];
    t.PopulateSizes();
    GrowRoot(n, st);
    DepthUnique(3, 2);
    var pos := Pos(3, 2);
    var internal := t.InternalPositionTree(pos);
    t.UpdateParentChain(pos, internal, 0);
    t.alloc := GrownAlloc(alloc);
  }

  ghost function GrownBy(k: nat, alloc: set<nat>): (r: set<nat>)
    requires forall a :: a in alloc ==> a >= 1
  {
    if k == 0 then alloc else GrownBy(k - 1, GrownAlloc(alloc))
  }

  lemma {:induction false} GrownByLast(k: nat, alloc: set<nat>)
    requires forall a :: a in alloc ==> a >= 1
    ensures forall b :: b in GrownBy(k, alloc) ==> b >= 1
    ensures GrownBy(k + 1, alloc) == GrownAlloc(GrownBy(k, alloc))
    decreases k
  {
    if k > 0 {
      GrownByLast(k - 1, GrownAlloc(alloc));
    }
  }

  /** `buddy_tree_grow`: lifts every block once per added order. */
  method Grow(t: Tree, desiredOrder: nat)
    requires t.Valid() && t.order <= desiredOrder && TotalBits(desiredOrder) <= 8 * t.bits.Length
    modifies t, t.bits
    ensures t.Valid() && t.order == desiredOrder
    ensures t.alloc == GrownBy(desiredOrder - old(t.order), old(t.alloc))
  {
    ghost var n0, alloc0 := t.order, t.alloc;
    while desiredOrder > t.order
      invariant t.Valid() && n0 <= t.order <= desiredOrder
      invariant t.alloc == GrownBy(t.order - n0, alloc0)
      decreases desiredOrder - t.order
    {
      TotalBitsMono(t.order + 1, desiredOrder);
      GrownByLast(t.order - n0, alloc0);
      GrowOnce(t);
    }
  }

  lemma {:induction false} TotalBitsMono(a: nat, b: nat)
    requires a <= b
    ensures TotalBits(a) <= TotalBits(b)
    decreases b
  {
    if a < b {
      TotalBitsMono(a, b - 1);
      RowStartIsLoc(b - 1, 0);
      RowStartIsLoc(b, 0);
    }
  }

  // ----- shrinking by one order

  lemma {:induction false} ShrinkKeptRow(n: nat, z: seq<nat>, k: nat, m: RowMove, s: seq<bool>, u: seq<bool>, i: nat)
    requires |z| == Pow2(n) && GrowBounds(n, k, m) && ShiftedLeft(s, u, m.next, m.mid, m.next - m.from)
    requires Node(n, i) && Depth(i) < k && NodeBits(n, s, z, i)
    ensures NodeBits(n, u, z, i)
  {
    Pow2Mono(Depth(i), k - 1);
    LocOrdered(n, i, Pow2(k - 1));
    assert Unary(u, Loc(n, i), Width(n, i), z[i]);
  }

  lemma {:induction false} ShrinkMovedRow(n: nat, st: seq<nat>, k: nat, m: RowMove, s: seq<bool>, u: seq<bool>, i: nat)
    requires |st| == Pow2(n + 1) && GrowBounds(n, k, m) && ShiftedLeft(s, u, m.next, m.mid, m.next - m.from)
    requires Node(n, i) && Depth(i) == k && Node(n + 1, Lift(i)) && NodeBits(n + 1, s, st, Lift(i))
    ensures NodeBits(n, u, ShrunkStatus(n, st), i)
  {
    ShrunkLifted(n, st, i);
    var dist := m.next - m.from;
    LiftLoc(n, k, i, dist);
    RowBounds(n, k, i, n + 1 - k, i - Pow2(k - 1));
    var loc, w, v := Loc(n, i), Width(n, i), st[Lift(i)];
    forall b | loc <= b < loc + w ensures u[b] == (b < loc + v) {
      assert u[b] == s[b + dist];
    }
  }

  lemma {:induction false} ShrinkDeepRow(n: nat, st: seq<nat>, k: nat, m: RowMove, s: seq<bool>, u: seq<bool>, j: nat)
    requires |st| == Pow2(n + 1) && GrowBounds(n, k, m) && ShiftedLeft(s, u, m.next, m.mid, m.next - m.from)
    requires Node(n + 1, j) && Depth(j) > k + 1 && NodeBits(n + 1, s, st, j)
    ensures NodeBits(n + 1, u, st, j)
  {
    Pow2Mono(k + 1, Depth(j) - 1);
    LocMono(n + 1, Pow2(k + 1), j);
    assert Unary(u, Loc(n + 1, j), Width(n + 1, j), st[j]);
  }

  /** One iteration of the inner loop of `buddy_tree_shrink`. */
  lemma {:induction false} ShrinkRow(n: nat, st: seq<nat>, k: nat, m: RowMove, s: seq<bool>, u: seq<bool>)
    requires n >= 1 && |st| == Pow2(n + 1) && GrowBounds(n, k, m)
    requires ShiftedLeft(s, u, m.next, m.mid, m.next - m.from)
    requires RowsUpTo(n, s, ShrunkStatus(n, st), k - 1) && RowsBelow(n + 1, s, st, k)
    ensures RowsUpTo(n, u, ShrunkStatus(n, st), k) && RowsBelow(n + 1, u, st, k + 1)
    ensures SameTail(n + 1, s, u)
  {
    var n', z := n + 1, ShrunkStatus(n, st);
    forall i: nat | Node(n, i) && Depth(i) <= k ensures NodeBits(n, u, z, i) {
      if Depth(i) < k {
        assert NodeBits(n, s, z, i);
        ShrinkKeptRow(n, z, k, m, s, u, i);
      } else {
        LiftNode(n, i);
        LiftDepth(i);
        assert NodeBits(n', s, st, Lift(i));
        ShrinkMovedRow(n, st, k, m, s, u, i);
      }
    }
    forall j: nat | Node(n', j) && Depth(j) > k + 1 ensures NodeBits(n', u, st, j) {
      assert NodeBits(n', s, st, j);
      ShrinkDeepRow(n, st, k, m, s, u, j);
    }
  }

  lemma {:induction false} ShrinkStart(n: nat, s: seq<bool>, st: seq<nat>)
    requires |st| == Pow2(n + 1) && Encodes(n + 1, s, st)
    ensures RowsUpTo(n, s, ShrunkStatus(n, st), 0) && RowsBelow(n + 1, s, st, 1)
  {
  }

  lemma {:induction false} ShrinkFinish(n: nat, s: seq<bool>, z: seq<nat>)
    requires |z| == Pow2(n) && RowsUpTo(n, s, z, n)
    ensures Encodes(n, s, z)
  {
    forall i: nat | Node(n, i) ensures NodeBits(n, s, z, i) {
      DepthRange(n, i);
    }
  }

  /** Handles into the left half of a row and its place in the smaller tree. */
  method ShrinkHandles(currentOrder: nat, leftStart: Pos, ghost m: RowMove)
    returns (from: nat, length: nat, next: nat)
    requires currentOrder >= 2 && 2 <= leftStart.depth <= currentOrder
    requires leftStart.index == Pow2(leftStart.depth - 1)
    requires GrowBounds(currentOrder - 1, leftStart.depth - 1, m)
    requires m.to - m.from == (currentOrder + 1 - leftStart.depth) * Pow2(leftStart.depth - 2)
    ensures from == m.next && from + length == m.mid && next == m.from
  {
    var parent := Pos(leftStart.index / 2, leftStart.depth - 1);
    DepthUnique(leftStart.index, leftStart.depth);
    DepthUnique(parent.index, parent.depth);
    DepthNode(currentOrder, leftStart.index);
    DepthNode(currentOrder - 1, parent.index);
    var current := InternalPositionOrder(currentOrder, leftStart);
    var smaller := InternalPositionOrder(currentOrder - 1, parent);
    var nodeCount := Pow2(leftStart.depth - 1);
    DoubleProduct(current.localOffset, Pow2(leftStart.depth - 2), nodeCount, m.to - m.from);
    from, length, next := current.location, current.localOffset * nodeCount / 2, smaller.location;
  }

  /** The body of the inner loop of `buddy_tree_shrink`: shift the left half of one row. */
  method MoveRowDown(bits: array<bv8>, currentOrder: nat, leftStart: Pos, ghost m: RowMove)
    requires currentOrder >= 2 && 2 <= leftStart.depth <= currentOrder
    requires leftStart.index == Pow2(leftStart.depth - 1)
    requires GrowBounds(currentOrder - 1, leftStart.depth - 1, m) && TotalBits(currentOrder) <= 8 * bits.Length
    requires m.to - m.from == (currentOrder + 1 - leftStart.depth) * Pow2(leftStart.depth - 2)
    modifies bits
    ensures ShiftedLeft(old(Bits(bits[..])), Bits(bits[..]), m.next, m.mid, m.next - m.from)
  {
    var from, length, next := ShrinkHandles(currentOrder, leftStart, m);
    ShiftLeft(bits, from, from + length, from - next);
  }

  /** Moves the left half of every row of a tree of the given order, shallowest first. */
  method MoveRowsDown(bits: array<bv8>, currentOrder: nat, upperPosBound: nat, ghost st: seq<nat>)
    requires currentOrder >= 2 && upperPosBound == Pow2(currentOrder) == |st|
    requires TotalBits(currentOrder) <= 8 * bits.Length && Encodes(currentOrder, Bits(bits[..]), st)
    modifies bits
    ensures Encodes(currentOrder - 1, Bits(bits[..]), ShrunkStatus(currentOrder - 1, st))
    ensures SameTail(currentOrder, old(Bits(bits[..])), Bits(bits[..]))
  {
    ghost var n, s0 := currentOrder - 1, Bits(bits[..]);
    ghost var z := ShrunkStatus(n, st);
    ShrinkStart(n, s0, st);
    var leftStart := Pos(2, 2);
    while leftStart.index != 0 && leftStart.index < upperPosBound
      invariant 2 <= leftStart.depth <= currentOrder + 1 && leftStart.index == Pow2(leftStart.depth - 1)
      invariant RowsUpTo(n, Bits(bits[..]), z, leftStart.depth - 2)
      invariant RowsBelow(currentOrder, Bits(bits[..]), st, leftStart.depth - 1)
      invariant SameTail(currentOrder, s0, Bits(bits[..]))
      decreases currentOrder + 1 - leftStart.depth
    {
      ghost var k: nat := leftStart.depth - 1;
      ghost var m := GrowBoundsHold(n, k);
      ghost var s := Bits(bits[..]);
      MoveRowDown(bits, currentOrder, leftStart, m);
      ShrinkRow(n, st, k, m, s, Bits(bits[..]));
      leftStart := Pos(2 * leftStart.index, leftStart.depth + 1);
    }
    assert leftStart.depth == currentOrder + 1 by {
      if leftStart.depth <= currentOrder {
        Pow2Mono(leftStart.depth - 1, currentOrder - 1);
      }
    }
    ShrinkFinish(n, Bits(bits[..]), z);
  }

  /** `buddy_tree_can_shrink` */
  method CanShrink(t: Tree) returns (r: bool)
    requires t.Valid() && t.order >= 2
    ensures r <==> LeftOnly(t.alloc)
  {
    CanShrinkIff(t.order - 1, t.st, t.alloc);
    DepthUnique(1, 1);
    DepthUnique(3, 2);
    var right := t.Status(Pos(3, 2));
    if right != 0 {
      return false;
    }
    var rootInternal := t.InternalPositionTree(ROOT);
    var root := t.Read(rootInternal, 1);
    return root != rootInternal.localOffset;
  }

  /** One round of `buddy_tree_shrink`: keeps exactly the left subtree, if nothing else is in use. */
  method ShrinkOnce(t: Tree) returns (done: bool)
    requires t.Valid() && t.order >= 2
    modifies t, t.bits
    ensures t.Valid() && (done <==> LeftOnly(old(t.alloc)))
    ensures !done ==> t.order == old(t.order) && t.st == old(t.st) && t.alloc == old(t.alloc)
                      && t.bits[..] == old(t.bits[..])
    ensures done ==> t.order == old(t.order) - 1 && GrownAlloc(t.alloc) == old(t.alloc)
    ensures done ==> t.st == ShrunkStatus(t.order, old(t.st))
  {
    done := CanShrink(t);
    if done {
      KeepLeft(t);
    }
  }

  /** Drops the root and the right half, neither of which is in use. */
  method KeepLeft(t: Tree)
    requires t.Valid() && t.order >= 2 && LeftOnly(t.alloc)
    modifies t, t.bits
    ensures t.Valid() && t.order == old(t.order) - 1 && GrownAlloc(t.alloc) == old(t.alloc)
    ensures t.st == ShrunkStatus(t.order, old(t.st))
  {
    hide Exact, Encodes, LeftOnly, GrownAlloc, Blocks, Loc;
    ghost var n, st, alloc := t.order - 1, t.st, t.alloc;
    ShrinkExact(n, st, alloc);
    TotalBitsMono(n, n + 1);
    MoveRowsDown(t.bits, t.order, t.upperPosBound, t.st);
    t.order := t.order - 1;
    t.upperPosBound := Pow2(t.order);
    t.st := ShrunkStatus(n, st);
    t.alloc := ShrunkAlloc(n, alloc);
    t.PopulateSizes();
  }

  /** `buddy_tree_shrink`: halves the tree until the order is reached or the right half is in use. */
  method Shrink(t: Tree, desiredOrder: nat)
    requires t.Valid() && 1 <= desiredOrder <= t.order
    modifies t, t.bits
    ensures t.Valid() && desiredOrder <= t.order <= old(t.order)
    ensures old(t.alloc) == GrownBy(old(t.order) - t.order, t.alloc)
    ensures t.order > desiredOrder ==> !LeftOnly(t.alloc)
  {
    ghost var n0, alloc0 := t.order, t.alloc;
    while desiredOrder < t.order
      invariant t.Valid() && desiredOrder <= t.order <= n0
      invariant alloc0 == GrownBy(n0 - t.order, t.alloc)
      decreases t.order
    {
      var done := ShrinkOnce(t);
      if !done {
        return;
      }
    }
  }
}
