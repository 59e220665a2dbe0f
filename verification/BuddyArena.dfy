/**
  The allocator on top of the tree: an arena of any size that is a multiple of the alignment,
  with the slots behind its end masked, and malloc, free and realloc on addresses.
*/
module BuddyArena {
  import opened Arith
  import opened Bitset
  import opened BuddyLayout
  import opened BuddyStatus
  import opened BuddyTree
  import opened BuddySpan

  // ----- blocks as slot ranges

  /** Slot `x` belongs to one of the masked nodes. */
  ghost predicate Masked(n: nat, virt: set<nat>, x: nat) {
    exists v :: v in virt && Node(n, v) && Lo(n, v) <= x < Hi(n, v)
  }

  /** Live blocks end within the first `slots` slots; the masked nodes cover exactly the rest. */
  ghost predicate Partition(n: nat, slots: nat, live: set<nat>, virt: set<nat>) {
    && n >= 1 && slots <= Pow2(n - 1)
    && live !! virt
    && Blocks(n, live + virt)
    && (forall b :: b in live ==> Hi(n, b) <= slots)
    && (forall v :: v in virt ==> slots <= Lo(n, v))
    && (forall x: nat :: slots <= x < Pow2(n - 1) ==> Masked(n, virt, x))
  }

  /** What is available in the tree lies inside the arena. */
  lemma {:induction false} AvailableInside(n: nat, slots: nat, live: set<nat>, virt: set<nat>, d: nat)
    requires Partition(n, slots, live, virt) && Node(n, d) && Available(live + virt, d)
    ensures Hi(n, d) <= slots
  {
    RootSpan(n);
    UnderRoot(d);
    UnderSpan(n, 1, d);
    if Hi(n, d) > slots {
      var x := if Lo(n, d) >= slots then Lo(n, d) else slots;
      assert Masked(n, virt, x);
      var v :| v in virt && Node(n, v) && Lo(n, v) <= x < Hi(n, v);
      assert v in live + virt;
      SharedSlot(n, v, d, x);
      assert false;
    }
  }

  lemma {:induction false} PartitionAdd(n: nat, slots: nat, live: set<nat>, virt: set<nat>, d: nat)
    requires Partition(n, slots, live, virt) && Node(n, d) && Available(live + virt, d)
    ensures Partition(n, slots, live + {d}, virt) && d !in live + virt
  {
    AvailableInside(n, slots, live, virt, d);
    assert d !in live + virt by { assert Under(d, d); }
    assert live + {d} + virt == live + virt + {d};
  }

  lemma {:induction false} RemovedAvailable(n: nat, alloc: set<nat>, p: nat)
    requires Blocks(n, alloc) && p in alloc
    ensures Available(alloc - {p}, p)
  {
  }

  lemma {:induction false} PartitionRemove(n: nat, slots: nat, live: set<nat>, virt: set<nat>, d: nat)
    requires Partition(n, slots, live, virt) && d in live
    ensures Partition(n, slots, live - {d}, virt) && live + virt - {d} == live - {d} + virt
  {
  }

  // ----- allocator safety

  ghost function BlockSize(unit: nat, n: nat, b: nat): (s: nat)
    requires Node(n, b)
  {
    var s: nat :| s == Span(n, b);
    Times(unit, s)
  }

  ghost function BlockOffset(unit: nat, n: nat, b: nat): (o: nat)
    requires Node(n, b)
  {
    var l: nat :| l == Lo(n, b);
    Times(unit, l)
  }

  /** Live blocks are pairwise disjoint byte ranges. */
  lemma {:induction false} LiveDisjoint(unit: nat, n: nat, slots: nat, live: set<nat>, virt: set<nat>, a: nat, b: nat)
    requires Partition(n, slots, live, virt) && a in live && b in live && a != b
    ensures BlockOffset(unit, n, a) + BlockSize(unit, n, a) <= BlockOffset(unit, n, b)
         || BlockOffset(unit, n, b) + BlockSize(unit, n, b) <= BlockOffset(unit, n, a)
  {
    assert a in live + virt && b in live + virt;
    ApartSpan(n, a, b);
    if Hi(n, a) <= Lo(n, b) {
      TimesMono(unit, Hi(n, a), Lo(n, b));
      TimesAdd(unit, Lo(n, a), Span(n, a));
    } else {
      TimesMono(unit, Hi(n, b), Lo(n, a));
      TimesAdd(unit, Lo(n, b), Span(n, b));
    }
  }

  /** A live block lies inside the arena and is aligned to its own size. */
  lemma {:induction false} LiveInside(unit: nat, n: nat, slots: nat, live: set<nat>, virt: set<nat>, b: nat)
    requires Partition(n, slots, live, virt) && b in live && unit >= 1
    ensures Node(n, b) && BlockSize(unit, n, b) >= unit
    ensures BlockOffset(unit, n, b) + BlockSize(unit, n, b) <= Times(unit, slots)
    ensures BlockOffset(unit, n, b) % BlockSize(unit, n, b) == 0
  {
    assert b in live + virt;
    BlockEnd(unit, n, slots, b);
    TimesMono(unit, 1, Span(n, b));
    OffsetAligned(unit, n, b);
  }

  lemma {:induction false} BlockEnd(unit: nat, n: nat, slots: nat, b: nat)
    requires Node(n, b) && Hi(n, b) <= slots
    ensures BlockOffset(unit, n, b) + BlockSize(unit, n, b) <= Times(unit, slots)
  {
    TimesMono(unit, Hi(n, b), slots);
    TimesAdd(unit, Lo(n, b), Span(n, b));
  }

  lemma {:induction false} OffsetAligned(unit: nat, n: nat, b: nat)
    requires Node(n, b) && unit >= 1
    ensures BlockSize(unit, n, b) >= 1 && BlockOffset(unit, n, b) % BlockSize(unit, n, b) == 0
  {
    var q, s := b - Pow2(Depth(b) - 1), Span(n, b);
    TimesMono(unit, 1, s);
    TimesAssoc(unit, s, q);
    TimesIsProduct(Times(unit, s), q);
    DivUnique(Times(Times(unit, s), q), Times(unit, s), q, 0);
  }

  /** The block at an address is unique. */
  lemma {:induction false} OffsetUnique(unit: nat, n: nat, slots: nat, live: set<nat>, virt: set<nat>, a: nat, b: nat)
    requires Partition(n, slots, live, virt) && a in live && b in live && unit >= 1
    requires BlockOffset(unit, n, a) == BlockOffset(unit, n, b)
    ensures a == b
  {
    if a != b {
      LiveDisjoint(unit, n, slots, live, virt, a, b);
      LiveInside(unit, n, slots, live, virt, a);
      LiveInside(unit, n, slots, live, virt, b);
    }
  }

  // ----- sizes of arena and tree

  /** Alignment a power of two, arena a multiple of it, tree just large enough. */
  ghost predicate Geometry(memorySize: nat, alignment: nat, slots: nat, k: nat, n: nat) {
    && alignment == Pow2(k)
    && alignment <= memorySize <= SIZE_T / 2
    && memorySize == Times(alignment, slots)
    && n >= 1
    && slots <= Pow2(n - 1) < 2 * slots
    && CeilingPow2(memorySize) == Times(alignment, Pow2(n - 1)) == Pow2(k + n - 1)
  }

  /** `buddy_tree_order_for_memory` on a trimmed arena. */
  lemma {:induction false} OrderForMemory(memorySize: nat, alignment: nat, k: nat)
    requires alignment == Pow2(k) && alignment <= memorySize <= SIZE_T / 2 && memorySize % alignment == 0
    ensures memorySize / alignment < SIZE_T
    ensures Geometry(memorySize, alignment, memorySize / alignment, k, BitLength(CeilingPow2(memorySize / alignment)))
  {
    var slots := memorySize / alignment;
    ExactDivision(memorySize, alignment, slots);
    assert slots >= 1;
    QuotientBelow(memorySize, alignment);
    CeilingPow2Exact(slots);
    var p := CeilingPow2(slots);
    var m: nat :| p == Pow2(m);
    BitLengthUnique(p, m + 1);
    CeilingPow2Exact(memorySize);
    TimesPow2(k, m);
    ScaledLeastPow2(alignment, slots, p, k, m);
    LeastPow2Unique(memorySize, CeilingPow2(memorySize), Times(alignment, p));
  }

  lemma {:induction false} TimesPow2(k: nat, m: nat)
    ensures Times(Pow2(k), Pow2(m)) == Pow2(k + m)
  {
    TimesIsProduct(Pow2(k), Pow2(m));
    Pow2Add(k, m);
  }

  lemma {:induction false} ScaledLeastPow2(unit: nat, v: nat, p: nat, k: nat, m: nat)
    requires unit >= 1 && p == Pow2(m) && Times(unit, p) == Pow2(k + m) && v >= 1
    requires LeastPow2AtLeast(v, p)
    ensures LeastPow2AtLeast(Times(unit, v), Times(unit, p))
    ensures p < 2 * v
  {
    TimesMono(unit, v, p);
    TimesMono(unit, p, 2 * v);
    TimesAdd(unit, v, v);
  }

  /** `size_for_depth` */
  function SizeForDepth(memorySize: nat, depth: nat): (s: nat)
    requires memorySize < SIZE_T && depth >= 1
  {
    var effective: nat :| effective == CeilingPow2(memorySize);
    Shr(effective, depth - 1)
  }

  lemma {:induction false} SizeForDepthIs(memorySize: nat, alignment: nat, slots: nat, k: nat, n: nat, depth: nat)
    requires Geometry(memorySize, alignment, slots, k, n) && 1 <= depth <= n
    ensures SizeForDepth(memorySize, depth) == Pow2(k + n - depth) == Times(alignment, Pow2(n - depth))
  {
    ShrPow2(k + n - 1, depth - 1);
    TimesPow2(k, n - depth);
  }

  lemma {:induction false} ShrPow2(e: nat, c: nat)
    requires c <= e
    ensures Shr(Pow2(e), c) == Pow2(e - c)
    decreases c
  {
    if c > 0 {
      ShrPow2(e - 1, c - 1);
    }
  }

  /** `depth_for_size`; trailing zeros of a power of two are its digits minus one. */
  function DepthForSize(memorySize: nat, alignment: nat, requestedSize: nat): (depth: int)
    requires memorySize < SIZE_T && alignment < SIZE_T && requestedSize < SIZE_T
  {
    var size := if requestedSize < alignment then alignment else requestedSize;
    var effective: nat :| effective == CeilingPow2(memorySize);
    var rounded: nat :| rounded == CeilingPow2(size);
    (BitLength(effective) - 1) + 1 - (BitLength(rounded) - 1)
  }

  /** The chosen depth exists in the tree, and its blocks are the smallest that hold the request. */
  lemma {:induction false} DepthForSizeFits(memorySize: nat, alignment: nat, slots: nat, k: nat, n: nat,
                                            requestedSize: nat)
    requires Geometry(memorySize, alignment, slots, k, n) && 1 <= requestedSize <= memorySize
    ensures 1 <= DepthForSize(memorySize, alignment, requestedSize) <= n
    ensures var size := Times(alignment, Pow2(n - DepthForSize(memorySize, alignment, requestedSize)));
      requestedSize <= size && (size == alignment || size < 2 * requestedSize)
  {
    hide Times, Pow2, BitLength, CeilingPow2;
    var size := if requestedSize < alignment then alignment else requestedSize;
    var j := RequestLog(memorySize, alignment, slots, k, n, size);
    var depth := DepthForSize(memorySize, alignment, requestedSize);
    assert depth == n - (j - k);
    TimesPow2(k, j - k);
    if size == alignment {
      Pow2Order(k, j);
    }
  }

  /** A request between the alignment and the arena size rounds up to a block size of the tree. */
  lemma {:induction false} RequestLog(memorySize: nat, alignment: nat, slots: nat, k: nat, n: nat,
                                      size: nat) returns (j: nat)
    requires Geometry(memorySize, alignment, slots, k, n) && alignment <= size <= memorySize
    ensures k <= j <= k + n - 1 && size <= Pow2(j) < 2 * size
    ensures BitLength(CeilingPow2(size)) == j + 1 && BitLength(CeilingPow2(memorySize)) == k + n
  {
    CeilingPow2Exact(size);
    CeilingPow2Exact(memorySize);
    j :| CeilingPow2(size) == Pow2(j);
    BitLengthUnique(Pow2(j), j + 1);
    BitLengthUnique(Pow2(k + n - 1), k + n);
    Pow2Order(k, j);
    Pow2Order(k + n - 1, j);
  }

  /** Powers of two are ordered like their exponents, and no power lies between `p` and `2 * p`. */
  lemma {:induction false} Pow2Order(a: nat, b: nat)
    ensures Pow2(a) <= Pow2(b) <==> a <= b
    ensures Pow2(b) < 2 * Pow2(a) ==> b <= a
  {
    if a <= b {
      Pow2Mono(a, b);
    } else {
      Pow2Mono(b, a);
    }
  }

  // ----- the block at an address

  /** Below an allocated node every status is zero. */
  lemma {:induction false} BelowBlockZero(n: nat, st: seq<nat>, alloc: set<nat>, b: nat, d: nat)
    requires Exact(n, st, alloc) && b in alloc && Node(n, d) && Under(b, d) && d != b
    ensures st[d] == 0
  {
    ZeroIff(n, st, alloc, d);
    forall a | a in alloc ensures !Under(d, a) {
      if Under(d, a) {
        UnderTrans(b, d, a);
        UnderDepth(d, a);
        UnderDepth(b, d);
      }
    }
  }

  /** A used node whose child towards a leaf is free is allocated, or not fully used. */
  lemma {:induction false} UsedAboveFree(n: nat, st: seq<nat>, alloc: set<nat>, child: nat)
    requires Exact(n, st, alloc) && Node(n, child) && child > 1 && st[child] == 0
    ensures Node(n, child / 2)
    ensures child / 2 in alloc || st[child / 2] != Width(n, child / 2)
  {
    SiblingNode(n, child);
    ParentNode(n, child);
    var q := child / 2;
    ChildNodes(n, q);
    if q !in alloc {
      LocalOkBoth(n, st, alloc, q);
    }
  }

  lemma {:induction false} LocalOkBoth(n: nat, st: seq<nat>, alloc: set<nat>, q: nat)
    requires Exact(n, st, alloc) && Node(n, q) && Depth(q) < n && q !in alloc
    requires Node(n, 2 * q) && Node(n, 2 * q + 1)
    requires st[2 * q] == 0 || st[2 * q + 1] == 0
    ensures st[q] < Width(n, q)
  {
    assert LocalOk(n, st, alloc, q);
  }

  /** A block that starts at the slot of a leaf contains that leaf. */
  lemma {:induction false} BlockAtSlot(unit: nat, n: nat, b: nat, x: nat, leaf: nat)
    requires n >= 1 && Node(n, b) && x < Pow2(n - 1) && leaf == Pow2(n - 1) + x && unit >= 1
    requires BlockOffset(unit, n, b) == Times(unit, x)
    ensures Node(n, leaf) && Under(b, leaf)
  {
    LeafSpan(n, x);
    TimesCompare(unit, Lo(n, b), x);
    SharedSlot(n, b, leaf, x);
    if Under(leaf, b) {
      DepthRange(n, b);
      UnderDepth(leaf, b);
    }
  }

  // ----- masking the slots behind the arena

  /** The masked nodes cover exactly the slots from `from` on. */
  ghost predicate MaskedFrom(n: nat, virt: set<nat>, from: nat) {
    && n >= 1
    && Blocks(n, virt)
    && (forall v :: v in virt ==> from <= Lo(n, v))
    && (forall x: nat :: from <= x < Pow2(n - 1) ==> Masked(n, virt, x))
  }

  lemma {:induction false} LeftOfMaskAvailable(n: nat, virt: set<nat>, from: nat, d: nat)
    requires MaskedFrom(n, virt, from) && Node(n, d) && Hi(n, d) <= from
    ensures Available(virt, d)
  {
    forall v | v in virt ensures !Under(v, d) && !Under(d, v) {
      if Under(v, d) {
        UnderSpan(n, v, d);
      }
      if Under(d, v) {
        UnderSpan(n, d, v);
      }
    }
  }

  /** Marking the node just left of the mask extends the mask to its start. */
  lemma {:induction false} ExtendMask(n: nat, virt: set<nat>, d: nat)
    requires Node(n, d) && MaskedFrom(n, virt, Hi(n, d))
    ensures Available(virt, d) && MaskedFrom(n, virt + {d}, Lo(n, d))
  {
    LeftOfMaskAvailable(n, virt, Hi(n, d), d);
    forall x: nat | Lo(n, d) <= x < Pow2(n - 1) ensures Masked(n, virt + {d}, x) {
      if x >= Hi(n, d) {
        assert Masked(n, virt, x);
        var v :| v in virt && Node(n, v) && Lo(n, v) <= x < Hi(n, v);
        assert v in virt + {d};
      } else {
        assert d in virt + {d};
      }
    }
  }

  /** Comparing the bytes still to mask with a node's size compares slots. */
  lemma {:induction false} MaskStep(memorySize: nat, alignment: nat, slots: nat, k: nat, n: nat, pos: Pos, ds: nat,
                                    delta: nat)
    requires Geometry(memorySize, alignment, slots, k, n) && ValidPos(n, pos) && pos.depth >= 1
    requires 0 < ds <= Span(n, pos.index) && delta == Times(alignment, ds)
    ensures delta == SizeForDepth(memorySize, pos.depth) <==> ds == Span(n, pos.index)
    ensures ds != Span(n, pos.index) ==>
      && pos.depth < n && Span(n, pos.index) % 2 == 0
      && (delta <= SizeForDepth(memorySize, pos.depth) / 2 <==> ds <= Span(n, pos.index) / 2)
      && (ds > Span(n, pos.index) / 2 ==>
        delta - SizeForDepth(memorySize, pos.depth) / 2 == Times(alignment, ds - Span(n, pos.index) / 2))
  {
    var span := Span(n, pos.index);
    DepthRange(n, pos.index);
    SizeForDepthIs(memorySize, alignment, slots, k, n, pos.depth);
    TimesCompare(alignment, ds, span);
    if ds != span {
      InnerSpan(n, pos.index);
      TimesAdd(alignment, span / 2, span / 2);
      TimesCompare(alignment, ds, span / 2);
      if ds > span / 2 {
        TimesAdd(alignment, span / 2, ds - span / 2);
      }
    }
  }

  /** What is left to mask: the last `ds` slots of the node at `pos`. */
  ghost predicate ToMask(t: Tree, n: nat, slots: nat, pos: Pos, ds: nat)
    reads t, t.bits
  {
    && t.Valid() && t.order == n && ValidPos(n, pos)
    && 0 < ds <= Span(n, pos.index) && Hi(n, pos.index) == slots + ds
    && MaskedFrom(n, t.alloc, Hi(n, pos.index))
  }

  /** One round of the masking loop: mark and stop, or descend right, or mark right and descend left. */
  method MaskOnce(t: Tree, memorySize: nat, alignment: nat, pos: Pos, delta: nat,
                  ghost slots: nat, ghost k: nat, ghost ds: nat)
    returns (done: bool, pos': Pos, delta': nat, ghost ds': nat)
    requires Geometry(memorySize, alignment, slots, k, t.order) && delta == Times(alignment, ds)
    requires ToMask(t, t.order, slots, pos, ds)
    modifies t, t.bits
    ensures t.order == old(t.order)
    ensures done ==> t.Valid() && MaskedFrom(t.order, t.alloc, slots)
    ensures !done ==> delta' == Times(alignment, ds') && pos'.depth == pos.depth + 1 <= t.order
    ensures !done ==> ToMask(t, t.order, slots, pos', ds')
  {
    hide MaskedFrom, Times, SizeForDepth, Available, Exact, Blocks;
    ghost var n, span := t.order, Span(t.order, pos.index);
    done, pos', delta', ds' := false, pos, delta, ds;
    MaskStep(memorySize, alignment, slots, k, n, pos, ds, delta);
    var currentPosSize := SizeForDepth(memorySize, pos.depth);
    if delta == currentPosSize {
      ExtendMask(n, t.alloc, pos.index);
      t.Mark(pos);
      done := true;
      return;
    }
    var left, right := Pos(2 * pos.index, pos.depth + 1), Pos(2 * pos.index + 1, pos.depth + 1);
    ChildNodes(n, pos.index);
    ChildSpans(n, pos.index, left.index, right.index);
    if delta <= currentPosSize / 2 {
      pos' := right;
    } else {
      ExtendMask(n, t.alloc, right.index);
      t.Mark(right);
      pos', delta', ds' := left, delta - currentPosSize / 2, ds - span / 2;
    }
  }

  /** `buddy_toggle_virtual_slots` on a fresh tree: masks exactly the slots behind the arena. */
  method MaskVirtualSlots(t: Tree, memorySize: nat, alignment: nat, ghost slots: nat, ghost k: nat)
    requires t.Valid() && t.alloc == {} && Geometry(memorySize, alignment, slots, k, t.order)
    modifies t, t.bits
    ensures t.Valid() && t.order == old(t.order)
    ensures MaskedFrom(t.order, t.alloc, slots)
  {
    ghost var n := t.order;
    MaskSize(memorySize, alignment, slots, k, n);
    var effective := CeilingPow2(memorySize);
    if effective == memorySize {
      return;
    }
    ghost var ds: nat := Pow2(n - 1) - slots;
    var delta: nat := effective - memorySize;
    FirstMaskPosition(n, slots);
    var pos, done := Pos(3, 2), false;
    while delta != 0
      invariant t.order == n && ToMask(t, n, slots, pos, ds) && delta == Times(alignment, ds)
      decreases n - pos.depth
    {
      done, pos, delta, ds := MaskOnce(t, memorySize, alignment, pos, delta, slots, k, ds);
      if done {
        return;
      }
    }
    TimesMono(alignment, 0, ds);
    assert false;
  }

  /** The surplus of the rounded arena size, in bytes and in slots. */
  lemma {:induction false} MaskSize(memorySize: nat, alignment: nat, slots: nat, k: nat, n: nat)
    requires Geometry(memorySize, alignment, slots, k, n)
    ensures CeilingPow2(memorySize) == memorySize <==> slots == Pow2(n - 1)
    ensures CeilingPow2(memorySize) - memorySize == Times(alignment, Pow2(n - 1) - slots)
  {
    var all := Pow2(n - 1);
    TimesAdd(alignment, slots, all - slots);
    TimesCompare(alignment, slots, all);
  }

  lemma {:induction false} ExactDivision(v: nat, d: nat, q: nat)
    requires d >= 1 && v % d == 0 && q == v / d
    ensures v == Times(d, q)
  {
    TimesIsProduct(d, q);
  }

  lemma {:induction false} InnerSpan(n: nat, i: nat)
    requires Node(n, i) && Span(n, i) >= 2
    ensures Depth(i) < n && Span(n, i) % 2 == 0
  {
    DepthRange(n, i);
  }

  lemma {:induction false} FirstMaskPosition(n: nat, slots: nat)
    requires n >= 1 && slots < Pow2(n - 1) < 2 * slots
    ensures ValidPos(n, Pos(3, 2)) && Pow2(n - 1) - slots <= Span(n, 3) && Hi(n, 3) == Pow2(n - 1)
  {
    assert n >= 2;
    Pow2Mono(2, n);
    DepthUnique(3, 2);
    DepthUnique(1, 1);
    RootSpan(n);
    ChildSpans(n, 1, 2, 3);
  }

  class Buddy {
    const main: nat
    const memorySize: nat
    const alignment: nat
    const tree: Tree
    const arena: array<bv8>
    ghost const alignmentLog: nat
    ghost const slots: nat
    ghost var live: set<nat>
    ghost var virt: set<nat>

    ghost predicate Valid()
      reads this, tree, tree.bits
    {
      && arena != tree.bits
      && arena.Length >= memorySize
      && tree.Valid()
      && Geometry(memorySize, alignment, slots, alignmentLog, tree.order)
      && tree.alloc == live + virt
      && Partition(tree.order, slots, live, virt)
    }

    /** The allocator over a tree whose slots behind the arena are masked. */
    constructor (main: nat, memorySize: nat, alignment: nat, tree: Tree, arena: array<bv8>,
                 ghost slots: nat, ghost k: nat)
      requires tree.Valid() && Geometry(memorySize, alignment, slots, k, tree.order)
      requires MaskedFrom(tree.order, tree.alloc, slots)
      requires arena != tree.bits && arena.Length >= memorySize
      ensures Valid() && live == {} && virt == tree.alloc
      ensures this.main == main && this.memorySize == memorySize && this.alignment == alignment
      ensures this.tree == tree && this.arena == arena && this.slots == slots
    {
      this.main := main;
      this.memorySize := memorySize;
      this.alignment := alignment;
      this.tree := tree;
      this.arena := arena;
      alignmentLog := k;
      this.slots := slots;
      live := {};
      virt := tree.alloc;
      new;
      assert live + virt == tree.alloc;
    }

    /** The address at which block `b` starts. */
    ghost function Address(b: nat): (a: nat)
      requires Node(tree.order, b)
      reads this, tree
    {
      main + BlockOffset(alignment, tree.order, b)
    }

    ghost function Size(b: nat): (s: nat)
      requires Node(tree.order, b)
      reads this, tree
    {
      BlockSize(alignment, tree.order, b)
    }

    /** `address_for_position` */
    function AddressForPosition(pos: Pos): (addr: nat)
      requires memorySize < SIZE_T && pos.depth >= 1 && pos.index >= Pow2(pos.depth - 1)
    {
      main + PositionOffset(memorySize, pos)
    }

    /** `deepest_position_for_offset`: the leaf every block starting at the offset contains. */
    method DeepestPositionForOffset(offset: nat) returns (leaf: Pos)
      requires Valid() && offset < memorySize && offset % alignment == 0
      ensures ValidPos(tree.order, leaf) && leaf.depth == tree.order && Lo(tree.order, leaf.index) < slots
      ensures forall b ::
        Node(tree.order, b) && BlockOffset(alignment, tree.order, b) == offset ==> Under(b, leaf.index)
    {
      hide Exact, Times, BlockOffset, Under, Available, Lo;
      var x := offset / alignment;
      LeafForOffset(memorySize, alignment, slots, tree.order, offset, x);
      leaf := Pos(Pow2(tree.order - 1) + x, tree.order);
    }

    /** `position_for_address` */
    method PositionForAddress(addr: nat) returns (pos: Pos)
      requires Valid() && main <= addr < main + memorySize
      ensures pos == INVALID_POS || (ValidPos(tree.order, pos) && Address(pos.index) == addr)
      ensures forall b :: b in live && Node(tree.order, b) && Address(b) == addr ==> pos.index == b
      ensures pos != INVALID_POS ==> pos.index in live || tree.st[pos.index] != Width(tree.order, pos.index)
      ensures pos != INVALID_POS ==> pos.index !in virt
    {
      hide Exact, Times, SizeForDepth, PositionOffset, BlockOffset, Available;
      var offset := addr - main;
      if offset % alignment != 0 {
        UnalignedOffset(alignment, tree.order, offset);
        return INVALID_POS;
      }
      var leaf := DeepestPositionForOffset(offset);
      pos := FirstUsedAbove(tree, leaf);
      if !tree.InTree(pos) {
        return INVALID_POS;
      }
      PositionOffsetIs(memorySize, alignment, slots, alignmentLog, tree.order, pos);
      if AddressForPosition(pos) != addr {
        return INVALID_POS;
      }
      UnderSpan(tree.order, pos.index, leaf.index);
      assert pos.index in tree.alloc ==> pos.index in live;
    }

    /** The depth at which a request is served. */
    ghost function RequestDepth(requestedSize: nat): (d: int)
      requires memorySize < SIZE_T && alignment < SIZE_T && requestedSize < SIZE_T
    {
      DepthForSize(memorySize, alignment, requestedSize)
    }

    /** Block `b` holds the request and is the smallest kind of block that does. */
    ghost predicate Fits(b: nat, requestedSize: nat)
      requires Node(tree.order, b)
      reads this, tree
    {
      requestedSize <= Size(b) && (Size(b) == alignment || Size(b) < 2 * requestedSize)
    }

    /** Some position that would serve the request is available next to the blocks `used`. */
    ghost predicate Served(used: set<nat>, requestedSize: nat)
      requires memorySize < SIZE_T && alignment < SIZE_T && requestedSize < SIZE_T
      reads this, tree
    {
      && requestedSize <= memorySize
      && exists d :: Node(tree.order, d) && Depth(d) == RequestDepth(requestedSize) && Available(used + virt, d)
    }

    /** A search at the depth computed for the request. */
    method Search(requested: nat) returns (pos: Pos)
      requires Valid() && 1 <= requested <= memorySize
      ensures pos == INVALID_POS <==> !Served(live, requested)
      ensures pos != INVALID_POS ==>
        ValidPos(tree.order, pos) && Available(live + virt, pos.index) && Fits(pos.index, requested)
    {
      hide Partition, Available, Times, DepthForSize, Blocks, Exact;
      DepthForSizeFits(memorySize, alignment, slots, alignmentLog, tree.order, requested);
      var targetDepth := DepthForSize(memorySize, alignment, requested);
      pos := tree.FindFree(targetDepth);
    }

    /** Marks an available position; it becomes a live block. */
    method Take(pos: Pos)
      requires Valid() && ValidPos(tree.order, pos) && Available(live + virt, pos.index)
      modifies this`live, tree, tree.bits
      ensures Valid() && tree.order == old(tree.order)
      ensures pos.index !in old(live) && live == old(live) + {pos.index}
      ensures SameTail(tree.order, old(Bits(tree.bits[..])), Bits(tree.bits[..]))
    {
      PartitionAdd(tree.order, slots, live, virt, pos.index);
      ghost var live' := live + {pos.index};
      assert live + virt + {pos.index} == live' + virt;
      live := live';
      tree.Mark(pos);
    }

    /** The address of a position, as computed by `address_for_position`. */
    method AddressOf(pos: Pos) returns (addr: nat)
      requires Valid() && ValidPos(tree.order, pos)
      ensures addr == Address(pos.index)
    {
      PositionOffsetIs(memorySize, alignment, slots, alignmentLog, tree.order, pos);
      addr := AddressForPosition(pos);
    }

    /** `buddy_malloc`: a fresh block, unless no block of the right size is available. */
    method Malloc(requestedSize: nat) returns (r: Option<nat>, ghost b: nat)
      requires Valid() && requestedSize < SIZE_T
      modifies this`live, tree, tree.bits
      ensures Valid() && tree.order == old(tree.order)
      ensures r.None? ==> live == old(live) && tree.st == old(tree.st) && tree.bits[..] == old(tree.bits[..])
      ensures r.Some? <==> Served(old(live), if requestedSize == 0 then 1 else requestedSize)
      ensures r.Some? ==> b !in old(live) && live == old(live) + {b} && Node(tree.order, b)
      ensures r.Some? ==> r.value == Address(b) && Fits(b, if requestedSize == 0 then 1 else requestedSize)
    {
      var requested := if requestedSize == 0 then 1 else requestedSize;
      if requested > memorySize {
        return None, 0;
      }
      var pos := Search(requested);
      if !tree.InTree(pos) {
        return None, 0;
      }
      Take(pos);
      var addr := AddressOf(pos);
      return Some(addr), pos.index;
    }

    /** `buddy_free`: releases exactly the live block that starts at the address, or changes nothing. */
    method Free(ptr: Option<nat>)
      requires Valid()
      modifies this`live, tree, tree.bits
      ensures Valid() && tree.order == old(tree.order)
      ensures forall b :: b in old(live) && Node(tree.order, b) && ptr == Some(Address(b)) ==> live == old(live) - {b}
      ensures (forall b :: b in old(live) && Node(tree.order, b) ==> ptr != Some(Address(b))) ==>
        live == old(live) && tree.st == old(tree.st) && tree.bits[..] == old(tree.bits[..])
    {
      hide Partition, Available, Exact, BlockOffset, BlockSize, Encodes;
      if ptr.None? {
        return;
      }
      var dst := ptr.value;
      if dst < main || dst >= main + memorySize {
        LiveInRange();
        return;
      }
      var pos := PositionForAddress(dst);
      if !tree.InTree(pos) {
        return;
      }
      ghost var live' := live - {pos.index};
      if pos.index in live {
        PartitionRemove(tree.order, slots, live, virt, pos.index);
      } else {
        assert live' == live;
      }
      assert live' + virt == live + virt - {pos.index};
      live := live';
      var _ := tree.Release(pos);
    }

    /** Releases the live block at a position. */
    method GiveBack(pos: Pos)
      requires Valid() && ValidPos(tree.order, pos) && pos.index in live
      modifies this`live, tree, tree.bits
      ensures Valid() && tree.order == old(tree.order) && live == old(live) - {pos.index}
      ensures Available(live + virt, pos.index)
      ensures SameTail(tree.order, old(Bits(tree.bits[..])), Bits(tree.bits[..]))
    {
      PartitionRemove(tree.order, slots, live, virt, pos.index);
      RemovedAvailable(tree.order, live + virt, pos.index);
      live := live - {pos.index};
      var _ := tree.Release(pos);
    }

    /** Copies the common prefix of two blocks inside the arena. */
    method CopyBlock(from: Pos, to: Pos)
      requires Valid() && ValidPos(tree.order, from) && ValidPos(tree.order, to)
      requires Hi(tree.order, from.index) <= slots && Hi(tree.order, to.index) <= slots
      modifies arena
      ensures Copied(alignment, tree.order, old(arena[..]), arena[..], from.index, to.index)
    {
      PositionOffsetIs(memorySize, alignment, slots, alignmentLog, tree.order, from);
      PositionOffsetIs(memorySize, alignment, slots, alignmentLog, tree.order, to);
      var size := SizeForDepth(memorySize, if from.depth > to.depth then from.depth else to.depth);
      SizeOrder(alignment, tree.order, from.index, to.index);
      BlockEnd(alignment, tree.order, slots, from.index);
      BlockEnd(alignment, tree.order, slots, to.index);
      MemMove(arena, PositionOffset(memorySize, to), PositionOffset(memorySize, from), size);
    }

    /** The second half of `buddy_realloc`, after the old block was released and `to` was found. */
    method Settle(origin: Pos, to: Pos, ignoreData: bool)
      requires Valid() && ValidPos(tree.order, origin) && ValidPos(tree.order, to)
      requires Hi(tree.order, origin.index) <= slots && Available(live + virt, to.index)
      modifies this`live, tree, tree.bits, arena
      ensures Valid() && tree.order == old(tree.order)
      ensures to.index !in old(live) && live == old(live) + {to.index}
      ensures if ignoreData || to.index == origin.index then arena[..] == old(arena[..])
              else Copied(alignment, tree.order, old(arena[..]), arena[..], origin.index, to.index)
    {
      if origin.index == to.index {
        Take(origin);
        return;
      }
      AvailableInside(tree.order, slots, live, virt, to.index);
      if !ignoreData {
        CopyBlock(origin, to);
      }
      Take(to);
    }

    /** `buddy_realloc` of a live block to a nonzero size. */
    method Resize(origin: Pos, requested: nat, ignoreData: bool) returns (to: Pos)
      requires Valid() && ValidPos(tree.order, origin) && origin.index in live && 1 <= requested <= memorySize
      modifies this`live, tree, tree.bits, arena
      ensures Valid() && tree.order == old(tree.order)
      ensures to == INVALID_POS <==> !Served(old(live) - {origin.index}, requested)
      ensures to == INVALID_POS ==>
        live == old(live) && arena[..] == old(arena[..]) && Bits(tree.bits[..]) == old(Bits(tree.bits[..]))
      ensures to != INVALID_POS ==> ValidPos(tree.order, to) && Fits(to.index, requested)
      ensures to != INVALID_POS ==>
        to.index !in old(live) - {origin.index} && live == old(live) - {origin.index} + {to.index}
      ensures to != INVALID_POS ==>
        if ignoreData || to.index == origin.index then arena[..] == old(arena[..])
        else Copied(alignment, tree.order, old(arena[..]), arena[..], origin.index, to.index)
    {
      hide Partition, Available, Exact, Copied, Geometry, Encodes;
      ghost var s0, u, alloc := Bits(tree.bits[..]), tree.st, tree.alloc;
      LiveEnd(tree.order, slots, live, virt, origin.index);
      GiveBack(origin);
      to := Search(requested);
      if tree.InTree(to) {
        Settle(origin, to, ignoreData);
      } else {
        Take(origin);
        assert tree.alloc == alloc;
        SameBlocksSameBits(tree.order, s0, Bits(tree.bits[..]), u, tree.st, alloc);
      }
    }

    /** `buddy_realloc` on null or a live pointer. */
    method Realloc(ptr: Option<nat>, requestedSize: nat, ignoreData: bool, ghost origin: nat)
      returns (r: Option<nat>, ghost b: nat)
      requires Valid() && requestedSize < SIZE_T
      requires ptr.Some? ==> origin in live && Node(tree.order, origin) && ptr.value == Address(origin)
      modifies this`live, tree, tree.bits, arena
      ensures Valid() && tree.order == old(tree.order)
      ensures var kept := if ptr.Some? then old(live) - {origin} else old(live);
        var requested := if requestedSize == 0 then 1 else requestedSize;
        && (r.Some? <==> (ptr.None? || requestedSize != 0) && Served(kept, requested))
        && (r.Some? ==> b !in kept && live == kept + {b} && Node(tree.order, b))
        && (r.Some? ==> r.value == Address(b) && Fits(b, requested))
        && (r.None? ==> live == if ptr.Some? && requestedSize == 0 then kept else old(live))
      ensures r.None? || ptr.None? || ignoreData || b == origin ==> arena[..] == old(arena[..])
      ensures r.Some? && ptr.Some? && !ignoreData && b != origin ==>
        Copied(alignment, tree.order, old(arena[..]), arena[..], origin, b)
    {
      hide Partition, Available, Exact, Copied, BlockOffset, BlockSize;
      r, b := None, 0;
      if ptr.None? {
        r, b := Malloc(requestedSize);
        return;
      }
      LiveInRange();
      if requestedSize == 0 {
        Free(ptr);
        return;
      }
      if requestedSize > memorySize {
        return;
      }
      var pos := PositionForAddress(ptr.value);
      if !tree.InTree(pos) {
        return;
      }
      var to := Resize(pos, requestedSize, ignoreData);
      if !tree.InTree(to) {
        return;
      }
      var addr := AddressOf(to);
      return Some(addr), to.index;
    }

    /** Live blocks start inside the arena. */
    lemma {:induction false} LiveInRange()
      requires Valid()
      ensures forall b :: b in live && Node(tree.order, b) ==> main <= Address(b) < main + memorySize
    {
      forall b | b in live && Node(tree.order, b) ensures main <= Address(b) < main + memorySize {
        LiveInside(alignment, tree.order, slots, live, virt, b);
      }
    }
  }

  /** `address_for_position` relative to the start of the arena. */
  function PositionOffset(memorySize: nat, pos: Pos): (o: nat)
    requires memorySize < SIZE_T && pos.depth >= 1 && pos.index >= Pow2(pos.depth - 1)
  {
    Times(SizeForDepth(memorySize, pos.depth), pos.index - Pow2(pos.depth - 1))
  }

  lemma {:induction false} PositionOffsetIs(memorySize: nat, alignment: nat, slots: nat, k: nat, n: nat, pos: Pos)
    requires Geometry(memorySize, alignment, slots, k, n) && ValidPos(n, pos)
    ensures 1 <= pos.depth && Pow2(pos.depth - 1) <= pos.index
    ensures PositionOffset(memorySize, pos) == BlockOffset(alignment, n, pos.index)
    ensures SizeForDepth(memorySize, pos.depth) == BlockSize(alignment, n, pos.index)
  {
    DepthRange(n, pos.index);
    SizeForDepthIs(memorySize, alignment, slots, k, n, pos.depth);
    TimesAssoc(alignment, Pow2(n - pos.depth), pos.index - Pow2(pos.depth - 1));
  }

  /** The loop of `position_for_address`: climbs from a leaf to the first node in use. */
  method FirstUsedAbove(t: Tree, leaf: Pos) returns (pos: Pos)
    requires t.Valid() && ValidPos(t.order, leaf) && leaf.depth == t.order
    ensures pos == INVALID_POS || (ValidPos(t.order, pos) && Under(pos.index, leaf.index))
    ensures pos != INVALID_POS ==> pos.index in t.alloc || t.st[pos.index] != Width(t.order, pos.index)
    ensures forall a :: a in t.alloc && Under(a, leaf.index) ==> a == pos.index
  {
    pos := leaf;
    ghost var child: nat := 0;
    var status := t.Status(pos);
    while status == 0
      invariant ValidPos(t.order, pos) && Under(pos.index, leaf.index) && status == t.st[pos.index]
      invariant pos.index == leaf.index
             || (Node(t.order, child) && child > 1 && child / 2 == pos.index && t.st[child] == 0)
      invariant forall a :: a in t.alloc && Under(a, leaf.index) ==> Under(a, pos.index)
      decreases pos.index
    {
      child := pos.index;
      NotAllocatedIfZero(t.order, t.st, t.alloc, child);
      pos := Pos(pos.index / 2, pos.depth - 1);
      if !t.InTree(pos) {
        return INVALID_POS;
      }
      ParentNode(t.order, child);
      assert Under(pos.index, child);
      UnderTrans(pos.index, child, leaf.index);
      status := t.Status(pos);
    }
    FirstUsed(t.order, t.st, t.alloc, leaf.index, pos.index, child);
    forall a | a in t.alloc && Under(a, leaf.index) ensures a == pos.index {
      if a != pos.index {
        BelowBlockZero(t.order, t.st, t.alloc, a, pos.index);
      }
    }
  }

  lemma {:induction false} UnalignedOffset(unit: nat, n: nat, offset: nat)
    requires unit >= 1 && offset % unit != 0
    ensures forall b :: Node(n, b) ==> BlockOffset(unit, n, b) != offset
  {
    forall b: nat | Node(n, b) ensures BlockOffset(unit, n, b) != offset {
      TimesIsProduct(unit, Lo(n, b));
      DivUnique(Times(unit, Lo(n, b)), unit, Lo(n, b), 0);
    }
  }

  lemma {:induction false} SlotInArena(memorySize: nat, unit: nat, slots: nat, offset: nat)
    requires unit >= 1 && offset < memorySize == Times(unit, slots) && offset % unit == 0
    ensures offset / unit < slots
    ensures Times(unit, offset / unit) == offset
  {
    ExactDivision(offset, unit, offset / unit);
    TimesCompare(unit, slots, offset / unit);
  }

  lemma {:induction false} NotAllocatedIfZero(n: nat, st: seq<nat>, alloc: set<nat>, i: nat)
    requires Exact(n, st, alloc) && Node(n, i) && st[i] == 0
    ensures i !in alloc
  {
    assert LocalOk(n, st, alloc, i);
    DepthRange(n, i);
  }

  /** The leaf of the slot at an aligned offset. */
  lemma {:induction false} LeafForOffset(memorySize: nat, unit: nat, slots: nat, n: nat, offset: nat, x: nat)
    requires unit >= 1 && n >= 1 && memorySize == Times(unit, slots) && slots <= Pow2(n - 1)
    requires offset < memorySize && offset % unit == 0 && x == offset / unit
    ensures var leaf := Pow2(n - 1) + x;
      && Node(n, leaf) && Depth(leaf) == n && Lo(n, leaf) < slots
      && forall b :: Node(n, b) && BlockOffset(unit, n, b) == offset ==> Under(b, leaf)
  {
    SlotInArena(memorySize, unit, slots, offset);
    LeafSpan(n, x);
    BlocksAtSlot(unit, n, x, Pow2(n - 1) + x);
  }

  /** Blocks that start at the slot of a leaf contain that leaf. */
  lemma {:induction false} BlocksAtSlot(unit: nat, n: nat, x: nat, leaf: nat)
    requires unit >= 1 && n >= 1 && x < Pow2(n - 1) && leaf == Pow2(n - 1) + x
    ensures forall b :: Node(n, b) && BlockOffset(unit, n, b) == Times(unit, x) ==> Under(b, leaf)
  {
    forall b: nat | Node(n, b) && BlockOffset(unit, n, b) == Times(unit, x) ensures Under(b, leaf) {
      BlockAtSlot(unit, n, b, x, leaf);
    }
  }

  /** The first node in use above a leaf is allocated or not fully used. */
  lemma {:induction false} FirstUsed(n: nat, st: seq<nat>, alloc: set<nat>, leaf: nat, i: nat, child: nat)
    requires Exact(n, st, alloc) && Node(n, leaf) && Depth(leaf) == n && Node(n, i) && st[i] != 0
    requires i == leaf || (Node(n, child) && child > 1 && child / 2 == i && st[child] == 0)
    ensures i in alloc || st[i] != Width(n, i)
  {
    if i == leaf {
      assert LocalOk(n, st, alloc, i);
    } else {
      UsedAboveFree(n, st, alloc, child);
    }
  }

  /** The common prefix of two blocks is copied; all bytes outside the copy are kept. */
  ghost predicate Copied(unit: nat, n: nat, was: seq<bv8>, now: seq<bv8>, from: nat, to: nat)
    requires Node(n, from) && Node(n, to)
  {
    Moved(was, now, BlockOffset(unit, n, from), BlockOffset(unit, n, to),
          if BlockSize(unit, n, from) <= BlockSize(unit, n, to) then BlockSize(unit, n, from) else BlockSize(unit, n, to))
  }

  ghost predicate Moved(was: seq<bv8>, now: seq<bv8>, src: nat, dst: nat, len: nat) {
    && |was| == |now| && src + len <= |was| && dst + len <= |was|
    && now[dst..dst + len] == was[src..src + len]
    && now[..dst] == was[..dst] && now[dst + len..] == was[dst + len..]
  }

  lemma {:induction false} LiveEnd(n: nat, slots: nat, live: set<nat>, virt: set<nat>, b: nat)
    requires Partition(n, slots, live, virt) && b in live
    ensures Node(n, b) && Hi(n, b) <= slots
  {
    assert b in live + virt;
  }

  lemma {:induction false} PartitionBlocks(n: nat, slots: nat, live: set<nat>, virt: set<nat>)
    requires Partition(n, slots, live, virt)
    ensures n >= 1 && live !! virt && Blocks(n, live + virt)
  {
  }

  /** The deeper of two nodes is the smaller block. */
  lemma {:induction false} SizeOrder(unit: nat, n: nat, a: nat, b: nat)
    requires Node(n, a) && Node(n, b)
    ensures Depth(a) >= Depth(b) ==> BlockSize(unit, n, a) <= BlockSize(unit, n, b)
    ensures Depth(b) >= Depth(a) ==> BlockSize(unit, n, b) <= BlockSize(unit, n, a)
  {
    DepthRange(n, a);
    DepthRange(n, b);
    if Depth(a) >= Depth(b) {
      Pow2Mono(n - Depth(a), n - Depth(b));
      TimesMono(unit, Span(n, a), Span(n, b));
    }
    if Depth(b) >= Depth(a) {
      Pow2Mono(n - Depth(b), n - Depth(a));
      TimesMono(unit, Span(n, b), Span(n, a));
    }
  }

  /** C `memmove` inside one array. */
  method MemMove(a: array<bv8>, dst: nat, src: nat, len: nat)
    requires dst + len <= a.Length && src + len <= a.Length
    modifies a
    ensures Moved(old(a[..]), a[..], src, dst, len)
  {
    var copy := a[src..src + len];
    forall i | 0 <= i < len {
      a[dst + i] := copy[i];
    }
  }

  // ----- initialisation

  /** `is_valid_alignment` */
  predicate IsValidAlignment(alignment: nat)
    requires alignment < SIZE_T
  {
    CeilingPow2(alignment) == alignment
  }

  lemma {:induction false} ValidAlignmentIff(alignment: nat)
    requires alignment < SIZE_T
    ensures IsValidAlignment(alignment) <==> exists k: nat :: alignment == Pow2(k)
  {
    CeilingPow2Exact(alignment);
    if k: nat :| alignment == Pow2(k) {
      Pow2Below64(k);
      assert LeastPow2AtLeast(alignment, alignment);
      LeastPow2Unique(alignment, CeilingPow2(alignment), alignment);
    }
  }

  /** The arena size after trimming to the alignment. */
  function Trimmed(memorySize: nat, alignment: nat): (m: nat)
    requires alignment >= 1
  {
    memorySize - memorySize % alignment
  }

  lemma {:induction false} TrimmedIsMultiple(memorySize: nat, alignment: nat)
    requires alignment >= 1
    ensures Trimmed(memorySize, alignment) <= memorySize
    ensures Trimmed(memorySize, alignment) % alignment == 0
  {
    var q := memorySize / alignment;
    assert Trimmed(memorySize, alignment) == alignment * q;
    DivUnique(alignment * q, alignment, q, 0);
  }

  /** The arguments `buddy_init_alignment` accepts. */
  predicate Acceptable(at: nat, main: nat, memorySize: nat, alignment: nat)
    requires alignment < SIZE_T
  {
    && at != 0 && main != 0 && at != main
    && IsValidAlignment(alignment)
    && at % 8 == 0 && main % 8 == 0
    && alignment >= 1 && Trimmed(memorySize, alignment) >= alignment
  }

  /** `buddy_tree_order_for_memory` */
  ghost function TreeOrder(memorySize: nat, alignment: nat): (n: nat)
    requires 1 <= alignment && memorySize < SIZE_T
  {
    QuotientBelow(memorySize, alignment);
    var rounded: nat :| rounded == CeilingPow2(memorySize / alignment);
    BitLength(rounded)
  }

  method Clear(memory: array<bv8>)
    modifies memory
    ensures forall k :: 0 <= k < memory.Length ==> memory[k] == 0
  {
    forall k | 0 <= k < memory.Length {
      memory[k] := 0;
    }
  }

  lemma {:induction false} QuotientBelow(v: nat, d: nat)
    requires d >= 1
    ensures v / d <= v
  {
    if v / d > v {
      MulMono(v / d, 1, d);
    }
  }

  /** `buddy_init_alignment`: rejects bad arguments, else an empty allocator with exactly the surplus slots masked. */
  method Init(at: nat, main: nat, memorySize: nat, alignment: nat, metadata: array<bv8>, arena: array<bv8>)
    returns (b: Buddy?)
    requires memorySize <= SIZE_T / 2 && alignment < SIZE_T
    requires arena != metadata && arena.Length >= memorySize
    requires Acceptable(at, main, memorySize, alignment) ==>
      TotalBits(TreeOrder(Trimmed(memorySize, alignment), alignment)) <= 8 * metadata.Length
    modifies metadata
    ensures b == null <==> !Acceptable(at, main, memorySize, alignment)
    ensures b != null ==> fresh(b) && fresh(b.tree) && b.tree.bits == metadata && b.arena == arena
    ensures b != null ==> b.Valid() && b.live == {} && b.main == main && b.alignment == alignment
    ensures b != null ==> b.memorySize == Trimmed(memorySize, alignment)
  {
    if at == 0 || main == 0 || at == main || !IsValidAlignment(alignment) || at % 8 != 0 || main % 8 != 0 {
      return null;
    }
    ValidAlignmentIff(alignment);
    ghost var k: nat :| alignment == Pow2(k);
    TrimmedIsMultiple(memorySize, alignment);
    var trimmed := Trimmed(memorySize, alignment);
    if trimmed < alignment {
      return null;
    }
    QuotientBelow(trimmed, alignment);
    OrderForMemory(trimmed, alignment, k);
    ghost var slots := trimmed / alignment;
    var rounded := CeilingPow2(trimmed / alignment);
    RoundedFits(trimmed / alignment);
    var order := HighestBitPosition(rounded);
    Clear(metadata);
    var tree := new Tree(order, metadata);
    MaskVirtualSlots(tree, trimmed, alignment, slots, k);
    b := new Buddy(main, trimmed, alignment, tree, arena, slots, k);
  }

  lemma {:induction false} RoundedFits(v: nat)
    requires v <= SIZE_T / 2
    ensures CeilingPow2(v) < SIZE_T
  {
    CeilingPow2Exact(v);
  }
}
