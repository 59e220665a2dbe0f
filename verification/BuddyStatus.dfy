/**
  What the status numbers of the buddy tree mean. The abstract state is the set of directly
  allocated nodes, none inside another; the status of every node is a function of that set.
*/
module BuddyStatus {
  import opened Arith
  import opened BuddyLayout

  // ----- subtrees

  /** Node `d` lies in the subtree of node `a` (or is `a`). */
  predicate Under(a: nat, d: nat)
    decreases d
  {
    d == a || (d > a && Under(a, d / 2))
  }

  lemma {:induction false} UnderTrans(a: nat, b: nat, c: nat)
    requires Under(a, b) && Under(b, c)
    ensures Under(a, c)
    decreases c
  {
    if b != c {
      UnderTrans(a, b, c / 2);
    }
  }

  /** Subtrees are at least as deep as their root; only the root is at the root's depth. */
  lemma {:induction false} UnderDepth(a: nat, d: nat)
    requires 1 <= a && Under(a, d)
    ensures a <= d && Depth(a) <= Depth(d)
    ensures Depth(a) == Depth(d) ==> a == d
    decreases d
  {
    if a != d {
      UnderDepth(a, d / 2);
      DepthHalf(d, d / 2);
    }
  }

  /** A proper descendant is under exactly one child. */
  lemma {:induction false} UnderChild(i: nat, d: nat)
    requires 1 <= i && 1 <= d
    ensures Under(i, d) <==> d == i || Under(2 * i, d) || Under(2 * i + 1, d)
    ensures !(Under(2 * i, d) && Under(2 * i + 1, d))
    ensures !Under(2 * i, i) && !Under(2 * i + 1, i)
    decreases d
  {
    if d > i {
      if d / 2 >= 1 {
        UnderChild(i, d / 2);
      }
    }
  }

  /** Two ancestors of one node lie on one path. */
  lemma {:induction false} UnderLinear(a: nat, b: nat, d: nat)
    requires Under(a, d) && Under(b, d)
    ensures Under(a, b) || Under(b, a)
    decreases d
  {
    if a != d && b != d {
      UnderLinear(a, b, d / 2);
    }
  }

  lemma {:induction false} UnderRoot(d: nat)
    requires d >= 1
    ensures Under(1, d)
    decreases d
  {
    if d > 1 {
      UnderRoot(d / 2);
    }
  }

  // ----- exact status

  /** The parent status `update_parent_chain` computes from two children. */
  function Combine(l: nat, r: nat): (c: nat) {
    if l == 0 && r == 0 then 0 else (if l <= r then l else r) + 1
  }

  /** Directly allocated nodes: nodes of the tree, none inside another. */
  ghost predicate Blocks(n: nat, alloc: set<nat>) {
    && (forall a :: a in alloc ==> Node(n, a))
    && (forall a, b {:trigger Under(a, b)} :: a in alloc && b in alloc && a != b ==> !Under(a, b))
  }

  /** The status of one node in terms of its children. */
  ghost predicate LocalOk(n: nat, st: seq<nat>, alloc: set<nat>, i: nat)
    requires |st| == Pow2(n) && Node(n, i)
  {
    if i in alloc then st[i] == Width(n, i)
    else if Depth(i) < n then 2 * i + 1 < |st| && st[i] == Combine(st[2 * i], st[2 * i + 1])
    else st[i] == 0
  }

  /** The rule at an inner unallocated node, with its children named. */
  lemma {:induction false} LocalOkInner(n: nat, st: seq<nat>, alloc: set<nat>, i: nat, l: nat, r: nat)
    requires |st| == Pow2(n) && Node(n, i) && i !in alloc && Depth(i) < n && l == 2 * i && r == 2 * i + 1
    ensures Node(n, l) && Node(n, r)
    ensures LocalOk(n, st, alloc, i) <==> st[i] == Combine(st[l], st[r])
  {
    ChildNodes(n, i);
  }

  ghost predicate LocalOkBut(n: nat, st: seq<nat>, alloc: set<nat>, hole: nat) {
    && |st| == Pow2(n)
    && st[0] == 0
    && forall i :: Node(n, i) && i != hole ==> LocalOk(n, st, alloc, i)
  }

  /** The status array is the one determined by the allocated nodes. */
  ghost predicate Exact(n: nat, st: seq<nat>, alloc: set<nat>) {
    Blocks(n, alloc) && LocalOkBut(n, st, alloc, 0)
  }

  ghost predicate NoneUnder(alloc: set<nat>, i: nat) {
    forall a :: a in alloc ==> !Under(i, a)
  }

  /** Status zero means that nothing below is allocated. */
  lemma {:induction false} ZeroIff(n: nat, st: seq<nat>, alloc: set<nat>, i: nat)
    requires Exact(n, st, alloc) && Node(n, i)
    ensures st[i] == 0 <==> NoneUnder(alloc, i)
    decreases n + 1 - Depth(i)
  {
    DepthRange(n, i);
    assert LocalOk(n, st, alloc, i);
    if i in alloc {
      assert Under(i, i);
    } else if Depth(i) == n {
      forall a | a in alloc ensures !Under(i, a) {
        if Under(i, a) {
          DepthRange(n, a);
          UnderDepth(i, a);
        }
      }
    } else {
      ChildNodes(n, i);
      ZeroIff(n, st, alloc, 2 * i);
      ZeroIff(n, st, alloc, 2 * i + 1);
      forall a | a in alloc ensures Under(i, a) <==> Under(2 * i, a) || Under(2 * i + 1, a) {
        UnderChild(i, a);
      }
    }
  }

  lemma {:induction false} StatusBound(n: nat, st: seq<nat>, alloc: set<nat>, i: nat)
    requires Exact(n, st, alloc) && Node(n, i)
    ensures st[i] <= Width(n, i)
    decreases n + 1 - Depth(i)
  {
    DepthRange(n, i);
    assert LocalOk(n, st, alloc, i);
    if i !in alloc && Depth(i) < n {
      ChildNodes(n, i);
      StatusBound(n, st, alloc, 2 * i);
      StatusBound(n, st, alloc, 2 * i + 1);
    }
  }

  /** The status array is determined by the allocated nodes. */
  lemma {:induction false} ExactUnique(n: nat, s: seq<nat>, t: seq<nat>, alloc: set<nat>)
    requires Exact(n, s, alloc) && Exact(n, t, alloc)
    ensures s == t
  {
    forall i | 0 <= i < |s| ensures s[i] == t[i] {
      if i > 0 {
        ExactUniqueAt(n, s, t, alloc, i);
      }
    }
  }

  lemma {:induction false} ExactUniqueAt(n: nat, s: seq<nat>, t: seq<nat>, alloc: set<nat>, i: nat)
    requires Exact(n, s, alloc) && Exact(n, t, alloc) && Node(n, i)
    ensures s[i] == t[i]
    decreases n + 1 - Depth(i)
  {
    DepthRange(n, i);
    assert LocalOk(n, s, alloc, i) && LocalOk(n, t, alloc, i);
    if i !in alloc && Depth(i) < n {
      ChildNodes(n, i);
      ExactUniqueAt(n, s, t, alloc, 2 * i);
      ExactUniqueAt(n, s, t, alloc, 2 * i + 1);
    }
  }

  // ----- what a status says about free positions

  /** Nothing allocated inside the subtree of `i` meets `d`. */
  ghost predicate FreeWithin(alloc: set<nat>, i: nat, d: nat) {
    forall a :: a in alloc && Under(i, a) ==> !Under(a, d) && !Under(d, a)
  }

  /** Nothing allocated contains `d` or lies in it. */
  ghost predicate Available(alloc: set<nat>, d: nat) {
    forall a :: a in alloc ==> !Under(a, d) && !Under(d, a)
  }

  /** `d` is a free position `k` levels below `i`. */
  ghost predicate FreeBelow(n: nat, alloc: set<nat>, i: nat, k: nat, d: nat) {
    Node(n, d) && Under(i, d) && Depth(d) == Depth(i) + k && FreeWithin(alloc, i, d)
  }

  ghost predicate SomeFreeBelow(n: nat, alloc: set<nat>, i: nat, k: nat) {
    exists d :: FreeBelow(n, alloc, i, k, d)
  }

  /**
    The status of a node is the number of levels down to its shallowest free position, and its
    full width if there is none: it is at most `k` exactly when a free position exists `k` levels down.
  */
  lemma {:induction false} StatusMeaning(n: nat, st: seq<nat>, alloc: set<nat>, i: nat, k: nat)
    requires Exact(n, st, alloc) && Node(n, i) && k < Width(n, i)
    ensures st[i] <= k <==> SomeFreeBelow(n, alloc, i, k)
    decreases k
  {
    DepthRange(n, i);
    assert LocalOk(n, st, alloc, i);
    if k == 0 {
      ZeroIff(n, st, alloc, i);
      if st[i] == 0 {
        assert FreeBelow(n, alloc, i, 0, i);
      } else if SomeFreeBelow(n, alloc, i, 0) {
        var d :| FreeBelow(n, alloc, i, 0, d);
        UnderDepth(i, d);
        assert false;
      }
    } else if i in alloc {
      assert Under(i, i);
    } else {
      ChildNodes(n, i);
      StatusMeaning(n, st, alloc, 2 * i, k - 1);
      StatusMeaning(n, st, alloc, 2 * i + 1, k - 1);
      FreeBelowChildren(n, alloc, i, k);
    }
  }

  /** A free position below an unallocated node lies below one of its children. */
  lemma {:induction false} FreeBelowChildren(n: nat, alloc: set<nat>, i: nat, k: nat)
    requires Blocks(n, alloc) && Node(n, i) && i !in alloc && k >= 1
    ensures SomeFreeBelow(n, alloc, i, k)
       <==> SomeFreeBelow(n, alloc, 2 * i, k - 1) || SomeFreeBelow(n, alloc, 2 * i + 1, k - 1)
  {
    ChildNodes(n, i);
    forall d ensures FreeBelow(n, alloc, i, k, d)
                <==> FreeBelow(n, alloc, 2 * i, k - 1, d) || FreeBelow(n, alloc, 2 * i + 1, k - 1, d)
    {
      FreeBelowChild(n, alloc, i, k, d);
    }
    if SomeFreeBelow(n, alloc, i, k) {
      var d :| FreeBelow(n, alloc, i, k, d);
      assert FreeBelow(n, alloc, 2 * i, k - 1, d) || FreeBelow(n, alloc, 2 * i + 1, k - 1, d);
    }
    if SomeFreeBelow(n, alloc, 2 * i, k - 1) {
      var d :| FreeBelow(n, alloc, 2 * i, k - 1, d);
      assert FreeBelow(n, alloc, i, k, d);
    }
    if SomeFreeBelow(n, alloc, 2 * i + 1, k - 1) {
      var d :| FreeBelow(n, alloc, 2 * i + 1, k - 1, d);
      assert FreeBelow(n, alloc, i, k, d);
    }
  }

  lemma {:induction false} FreeBelowChild(n: nat, alloc: set<nat>, i: nat, k: nat, d: nat)
    requires Blocks(n, alloc) && Node(n, i) && i !in alloc && k >= 1
    ensures FreeBelow(n, alloc, i, k, d)
       <==> FreeBelow(n, alloc, 2 * i, k - 1, d) || FreeBelow(n, alloc, 2 * i + 1, k - 1, d)
  {
    ChildNodes(n, i);
    if Node(n, d) {
      UnderChild(i, d);
      if Under(2 * i, d) {
        FreeWithinChild(n, alloc, i, 2 * i, 2 * i + 1, d);
      }
      if Under(2 * i + 1, d) {
        FreeWithinChild(n, alloc, i, 2 * i + 1, 2 * i, d);
      }
    }
  }

  lemma {:induction false} FreeWithinChild(n: nat, alloc: set<nat>, i: nat, c: nat, other: nat, d: nat)
    requires Blocks(n, alloc) && Node(n, i) && i !in alloc && Node(n, d)
    requires (c == 2 * i && other == 2 * i + 1) || (c == 2 * i + 1 && other == 2 * i)
    requires Under(c, d)
    ensures FreeWithin(alloc, i, d) <==> FreeWithin(alloc, c, d)
  {
    forall a | a in alloc
      ensures Under(c, a) ==> Under(i, a)
      ensures Under(i, a) && !Under(c, a) ==> !Under(a, d) && !Under(d, a)
    {
      UnderChild(i, a);
      if Under(other, a) {
        if Under(a, d) {
          UnderTrans(other, a, d);
          UnderChild(i, d);
        }
        if Under(d, a) {
          UnderTrans(c, d, a);
        }
      }
    }
  }

  /** From the root: a position at depth `k + 1` is available exactly when the root status is at most `k`. */
  lemma {:induction false} RootStatus(n: nat, st: seq<nat>, alloc: set<nat>, k: nat)
    requires Exact(n, st, alloc) && k < n
    ensures Node(n, 1)
    ensures st[1] <= k <==> exists d :: Node(n, d) && Depth(d) == k + 1 && Available(alloc, d)
  {
    Pow2Mono(1, n);
    StatusMeaning(n, st, alloc, 1, k);
    forall d | Node(n, d) ensures FreeWithin(alloc, 1, d) <==> Available(alloc, d) {
      forall a | a in alloc ensures Under(1, a) {
        UnderRoot(a);
      }
    }
    if SomeFreeBelow(n, alloc, 1, k) {
      var d :| FreeBelow(n, alloc, 1, k, d);
      assert Available(alloc, d);
    }
    if d :| Node(n, d) && Depth(d) == k + 1 && Available(alloc, d) {
      UnderRoot(d);
      assert FreeBelow(n, alloc, 1, k, d);
    }
  }

  // ----- marking and releasing

  function Sibling(i: nat): (s: nat)
    requires i >= 1
  {
    if i % 2 == 1 then i - 1 else i + 1
  }

  /** `update_parent_chain` with its early return, from node `i` holding status `cur`. */
  function Chain(n: nat, st: seq<nat>, i: nat, cur: nat): (r: seq<nat>)
    requires |st| == Pow2(n) && Node(n, i)
    ensures |r| == |st|
    decreases i
  {
    if i == 1 then st else
      SiblingNode(n, i);
      var p := i / 2;
      var target := Combine(cur, st[Sibling(i)]);
      if target == st[p] then st else Chain(n, st[p := target], p, target)
  }

  lemma {:induction false} SiblingNode(n: nat, i: nat)
    requires Node(n, i) && i > 1
    ensures Node(n, Sibling(i)) && Node(n, i / 2) && Sibling(i) / 2 == i / 2
    ensures i == 2 * (i / 2) || i == 2 * (i / 2) + 1
    ensures Sibling(i) == 2 * (i / 2) || Sibling(i) == 2 * (i / 2) + 1
    ensures Sibling(i) != i
  {
    ParentNode(n, i);
    ChildNodes(n, i / 2);
  }

  /** The parent status computed from a node and its sibling is that of the parent's children. */
  lemma {:induction false} ChainTarget(n: nat, st: seq<nat>, i: nat, p: nat)
    requires |st| == Pow2(n) && Node(n, i) && i > 1 && p == i / 2
    ensures Node(n, Sibling(i)) && Node(n, p) && Node(n, 2 * p) && Node(n, 2 * p + 1) && Depth(p) < n
    ensures Combine(st[i], st[Sibling(i)]) == Combine(st[2 * p], st[2 * p + 1])
  {
    SiblingNode(n, i);
    ParentNode(n, i);
    ChildNodes(n, p);
  }

  lemma {:induction false} NoneAboveParent(alloc: set<nat>, i: nat)
    requires i > 1 && forall a :: a in alloc && Under(a, i) ==> a == i
    ensures forall a :: a in alloc ==> !Under(a, i / 2)
  {
    var p := i / 2;
    forall a | a in alloc ensures !Under(a, p) {
      assert a == i || !Under(a, i);
    }
  }

  /** Repairing the ancestors of one node, with the early return, loses nothing. */
  lemma {:induction false} ChainExact(n: nat, st: seq<nat>, alloc: set<nat>, i: nat)
    requires Blocks(n, alloc) && Node(n, i)
    requires LocalOkBut(n, st, alloc, i / 2)
    requires forall a :: a in alloc && Under(a, i) ==> a == i
    ensures Exact(n, Chain(n, st, i, st[i]), alloc)
    decreases i
  {
    if i > 1 {
      var p := i / 2;
      ChainTarget(n, st, i, p);
      NoneAboveParent(alloc, i);
      assert p !in alloc by { assert Under(p, p); }
      var target := Combine(st[i], st[Sibling(i)]);
      if target == st[p] {
        assert LocalOk(n, st, alloc, p);
      } else {
        ChainStep(n, st, alloc, p, target);
        ChainExact(n, st[p := target], alloc, p);
      }
    }
  }

  /** Writing the combined status of a node moves the only doubtful node to its parent. */
  lemma {:induction false} ChainStep(n: nat, st: seq<nat>, alloc: set<nat>, p: nat, target: nat)
    requires Node(n, p) && p !in alloc && Depth(p) < n
    requires LocalOkBut(n, st, alloc, p)
    requires Node(n, 2 * p) && Node(n, 2 * p + 1) && target == Combine(st[2 * p], st[2 * p + 1])
    ensures LocalOkBut(n, st[p := target], alloc, p / 2)
  {
    var s' := st[p := target];
    forall j: nat | Node(n, j) && j != p / 2 ensures LocalOk(n, s', alloc, j) {
      ChildNodes(n, j);
      DepthRange(n, j);
      assert j != p ==> LocalOk(n, st, alloc, j);
      assert 2 * j != p && 2 * j + 1 != p;
    }
  }

  /** `buddy_tree_mark` */
  ghost function MarkStatus(n: nat, st: seq<nat>, p: nat): (r: seq<nat>)
    requires |st| == Pow2(n) && Node(n, p)
    ensures |r| == |st|
  {
    DepthRange(n, p);
    var w: nat := Width(n, p);
    Chain(n, st[p := w], p, w)
  }

  /** `buddy_tree_release` of a node whose status is its full width. */
  ghost function ReleaseStatus(n: nat, st: seq<nat>, p: nat): (r: seq<nat>)
    requires |st| == Pow2(n) && Node(n, p)
    ensures |r| == |st|
  {
    Chain(n, st[p := 0], p, 0)
  }

  lemma {:induction false} LocalOkElsewhere(n: nat, st: seq<nat>, alloc: set<nat>, alloc': set<nat>, p: nat, v: nat)
    requires Exact(n, st, alloc) && Node(n, p)
    requires forall j :: j != p ==> (j in alloc <==> j in alloc')
    requires LocalOk(n, st[p := v], alloc', p)
    ensures LocalOkBut(n, st[p := v], alloc', p / 2)
  {
    var s' := st[p := v];
    forall j: nat | Node(n, j) && j != p / 2 ensures LocalOk(n, s', alloc', j) {
      if j != p {
        ChildNodes(n, j);
        DepthRange(n, j);
        assert LocalOk(n, st, alloc, j);
        assert 2 * j != p && 2 * j + 1 != p;
      }
    }
  }

  /** Marking an available position keeps every status exact. */
  lemma {:induction false} MarkExact(n: nat, st: seq<nat>, alloc: set<nat>, p: nat)
    requires Exact(n, st, alloc) && Node(n, p) && Available(alloc, p)
    ensures Exact(n, MarkStatus(n, st, p), alloc + {p})
  {
    DepthRange(n, p);
    var w: nat := Width(n, p);
    LocalOkElsewhere(n, st, alloc, alloc + {p}, p, w);
    ChainExact(n, st[p := w], alloc + {p}, p);
  }

  /** Releasing a directly allocated position keeps every status exact. */
  lemma {:induction false} ReleaseExact(n: nat, st: seq<nat>, alloc: set<nat>, p: nat)
    requires Exact(n, st, alloc) && p in alloc
    ensures Node(n, p) && st[p] == Width(n, p)
    ensures Exact(n, ReleaseStatus(n, st, p), alloc - {p})
    ensures Available(alloc - {p}, p)
  {
    assert LocalOk(n, st, alloc, p);
    DepthRange(n, p);
    if Depth(p) < n {
      ChildNodes(n, p);
      ChildrenOfBlockZero(n, st, alloc, p);
    }
    LocalOkElsewhere(n, st, alloc, alloc - {p}, p, 0);
    ChainExact(n, st[p := 0], alloc - {p}, p);
  }

  lemma {:induction false} ChildrenOfBlockZero(n: nat, st: seq<nat>, alloc: set<nat>, p: nat)
    requires Exact(n, st, alloc) && p in alloc && Node(n, 2 * p) && Node(n, 2 * p + 1)
    ensures st[2 * p] == 0 && st[2 * p + 1] == 0
  {
    forall a | a in alloc ensures !Under(2 * p, a) && !Under(2 * p + 1, a) {
      UnderChild(p, a);
    }
    ZeroIff(n, st, alloc, 2 * p);
    ZeroIff(n, st, alloc, 2 * p + 1);
  }

  /** Releasing what was just marked restores the whole status array. */
  lemma {:induction false} ReleaseUndoesMark(n: nat, st: seq<nat>, alloc: set<nat>, p: nat)
    requires Exact(n, st, alloc) && Node(n, p) && Available(alloc, p)
    ensures ReleaseStatus(n, MarkStatus(n, st, p), p) == st
  {
    MarkExact(n, st, alloc, p);
    ReleaseExact(n, MarkStatus(n, st, p), alloc + {p}, p);
    assert p !in alloc by { assert Under(p, p); }
    assert alloc + {p} - {p} == alloc;
    ExactUnique(n, ReleaseStatus(n, MarkStatus(n, st, p), p), st, alloc);
  }

  // ----- positions that are not allocated blocks

  lemma {:induction false} ChainKeeps(n: nat, st: seq<nat>, i: nat, cur: nat, j: nat)
    requires |st| == Pow2(n) && Node(n, i) && i <= j < |st|
    ensures Chain(n, st, i, cur)[j] == st[j]
    decreases i
  {
    if i > 1 {
      SiblingNode(n, i);
      var p := i / 2;
      var target := Combine(cur, st[Sibling(i)]);
      if target != st[p] {
        ChainKeeps(n, st[p := target], p, target, j);
      }
    }
  }

  /** Some set of blocks has exactly these statuses. */
  ghost predicate Describable(n: nat, st: seq<nat>) {
    exists alloc :: Exact(n, st, alloc)
  }

  /** No set of blocks explains a used inner node whose status is not that of its children. */
  lemma {:induction false} WrongStatus(n: nat, st: seq<nat>, p: nat, v: nat)
    requires |st| == Pow2(n) && Node(n, p) && Depth(p) < n && Node(n, 2 * p) && Node(n, 2 * p + 1)
    requires st[2 * p] != 0 || st[2 * p + 1] != 0
    requires v != Combine(st[2 * p], st[2 * p + 1])
    ensures !Describable(n, Chain(n, st[p := v], p, v))
  {
    var st' := Chain(n, st[p := v], p, v);
    ChainKeeps(n, st[p := v], p, v, p);
    ChainKeeps(n, st[p := v], p, v, 2 * p);
    ChainKeeps(n, st[p := v], p, v, 2 * p + 1);
    forall alloc: set<nat> ensures !Exact(n, st', alloc) {
      if Exact(n, st', alloc) {
        assert LocalOk(n, st', alloc, p);
        if p in alloc {
          ChildrenOfBlockZero(n, st', alloc, p);
        }
      }
    }
  }

  /** A used position that is no block lies above a block. */
  lemma {:induction false} UsedInner(n: nat, st: seq<nat>, alloc: set<nat>, p: nat)
    requires Exact(n, st, alloc) && Node(n, p) && p !in alloc && st[p] != 0
    ensures Depth(p) < n && Node(n, 2 * p) && Node(n, 2 * p + 1)
    ensures st[p] == Combine(st[2 * p], st[2 * p + 1]) && (st[2 * p] != 0 || st[2 * p + 1] != 0)
  {
    assert LocalOk(n, st, alloc, p);
    DepthRange(n, p);
    ChildNodes(n, p);
  }

  /** Releasing a fully used position leaves statuses of some set of blocks exactly if it was a block itself. */
  lemma {:induction false} ReleaseIff(n: nat, st: seq<nat>, alloc: set<nat>, p: nat)
    requires Exact(n, st, alloc) && Node(n, p) && st[p] == Width(n, p)
    ensures Describable(n, ReleaseStatus(n, st, p)) <==> p in alloc
  {
    DepthRange(n, p);
    if p in alloc {
      ReleaseExact(n, st, alloc, p);
    } else {
      UsedInner(n, st, alloc, p);
      WrongStatus(n, st, p, 0);
    }
  }

  /** Release as far as the position allows, then mark: what `buddy_realloc` does when nothing fits. */
  ghost function RestoredStatus(n: nat, st: seq<nat>, p: nat): (r: seq<nat>)
    requires |st| == Pow2(n) && Node(n, p)
  {
    MarkStatus(n, if st[p] == Width(n, p) then ReleaseStatus(n, st, p) else st, p)
  }

  /** A failing realloc leaves the tree describable exactly if the address was that of a block. */
  lemma {:induction false} RestoreIff(n: nat, st: seq<nat>, alloc: set<nat>, p: nat)
    requires Exact(n, st, alloc) && Node(n, p) && st[p] != 0 && (p in alloc || st[p] != Width(n, p))
    ensures Describable(n, RestoredStatus(n, st, p)) <==> p in alloc
    ensures p in alloc ==> RestoredStatus(n, st, p) == st
  {
    DepthRange(n, p);
    if p in alloc {
      ReleaseExact(n, st, alloc, p);
      MarkExact(n, ReleaseStatus(n, st, p), alloc - {p}, p);
      assert alloc - {p} + {p} == alloc;
      ExactUnique(n, RestoredStatus(n, st, p), st, alloc);
    } else {
      UsedInner(n, st, alloc, p);
      WrongStatus(n, st, p, Width(n, p));
    }
  }

  lemma {:induction false} AboveSlotOne(st: seq<nat>)
    requires Exact(3, st, {5})
    ensures Node(3, 2) && Node(3, 4) && st[4] == 0 && st[2] != 0 && !Describable(3, RestoredStatus(3, st, 2))
  {
    assert Pow2(3) == 8 && Depth(2) == 2 && Depth(4) == 3 && Depth(5) == 3;
    assert LocalOk(3, st, {5}, 2) && LocalOk(3, st, {5}, 4) && LocalOk(3, st, {5}, 5);
    RestoreIff(3, st, {5}, 2);
  }

  // ----- whole runs

  datatype TreeOp = MarkOp(pos: nat) | ReleaseOp(pos: nat)

  /** Marks hit available positions, releases hit directly allocated ones. */
  ghost predicate Legal(n: nat, alloc: set<nat>, op: TreeOp) {
    match op
    case MarkOp(p) => Node(n, p) && Available(alloc, p)
    case ReleaseOp(p) => p in alloc && Node(n, p)
  }

  ghost function AllocAfter(alloc: set<nat>, op: TreeOp): (r: set<nat>) {
    match op
    case MarkOp(p) => alloc + {p}
    case ReleaseOp(p) => alloc - {p}
  }

  ghost function StatusAfter(n: nat, st: seq<nat>, op: TreeOp): (r: seq<nat>)
    requires |st| == Pow2(n) && Node(n, op.pos)
    ensures |r| == |st|
  {
    match op
    case MarkOp(p) => MarkStatus(n, st, p)
    case ReleaseOp(p) => ReleaseStatus(n, st, p)
  }

  ghost predicate LegalRun(n: nat, alloc: set<nat>, ops: seq<TreeOp>)
    decreases |ops|
  {
    ops == [] || (Legal(n, alloc, ops[0]) && LegalRun(n, AllocAfter(alloc, ops[0]), ops[1..]))
  }

  ghost function RunAlloc(alloc: set<nat>, ops: seq<TreeOp>): (r: set<nat>)
    decreases |ops|
  {
    if ops == [] then alloc else RunAlloc(AllocAfter(alloc, ops[0]), ops[1..])
  }

  ghost function RunStatus(n: nat, st: seq<nat>, alloc: set<nat>, ops: seq<TreeOp>): (r: seq<nat>)
    requires |st| == Pow2(n) && LegalRun(n, alloc, ops)
    decreases |ops|
  {
    if ops == [] then st else RunStatus(n, StatusAfter(n, st, ops[0]), AllocAfter(alloc, ops[0]), ops[1..])
  }

  /** The statuses of a freshly cleared tree. */
  ghost function Zeros(n: nat): (z: seq<nat>)
    ensures |z| == Pow2(n) && forall i :: 0 <= i < |z| ==> z[i] == 0
  {
    seq(Pow2(n), _ => 0)
  }

  /** A freshly cleared tree is exact with nothing allocated. */
  lemma {:induction false} EmptyExact(n: nat)
    ensures Exact(n, Zeros(n), {})
  {
    var st := Zeros(n);
    forall i | Node(n, i) ensures LocalOk(n, st, {}, i) {
      ChildNodes(n, i);
      DepthRange(n, i);
    }
  }

  /** Over every legal run from the empty tree, every status stays exact. */
  lemma {:induction false} RunExact(n: nat, st: seq<nat>, alloc: set<nat>, ops: seq<TreeOp>)
    requires Exact(n, st, alloc) && LegalRun(n, alloc, ops)
    ensures Exact(n, RunStatus(n, st, alloc, ops), RunAlloc(alloc, ops))
    decreases |ops|
  {
    if ops != [] {
      match ops[0] {
        case MarkOp(p) => MarkExact(n, st, alloc, p);
        case ReleaseOp(p) => ReleaseExact(n, st, alloc, p);
      }
      RunExact(n, StatusAfter(n, st, ops[0]), AllocAfter(alloc, ops[0]), ops[1..]);
    }
  }

  /** Four slots, slot 1 allocated: the climb from slot 0 ends at node 2, and a failing realloc there corrupts the tree. */
  lemma {:induction false} RestoreBreaks() returns (st: seq<nat>)
    ensures Exact(3, st, {5}) && Node(3, 2) && Node(3, 4) && st[4] == 0 && st[2] != 0
    ensures !Describable(3, RestoredStatus(3, st, 2))
  {
    var slot: nat :| slot == 5;
    assert Node(3, slot) by { assert Pow2(3) == 8; }
    EmptyExact(3);
    MarkExact(3, Zeros(3), {}, slot);
    assert {} + {slot} == {5};
    st := MarkStatus(3, Zeros(3), slot);
    AboveSlotOne(st);
  }
}
