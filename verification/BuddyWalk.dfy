/**
  The tree walk of the buddy allocator, and the two operations built on it: the free size of
  the arena and the report of allocated blocks.
*/
module BuddyWalk {
  import opened Arith
  import opened BuddyLayout
  import opened BuddyStatus
  import opened BuddyTree
  import opened BuddySpan
  import opened BuddyArena

  // ----- preorder

  /** The node visited after the whole subtree of `i` is done. */
  ghost function AfterSubtree(i: nat): (j: Option<nat>)
    requires i >= 1
    decreases i
  {
    if i == 1 then None else if i % 2 == 1 then AfterSubtree(i / 2) else Some(i + 1)
  }

  /** The node after a subtree starts at the slot where the subtree ends. */
  lemma {:induction false} AfterSubtreeSpan(n: nat, i: nat)
    requires Node(n, i)
    ensures AfterSubtree(i).Some? ==>
      Node(n, AfterSubtree(i).value) && Lo(n, AfterSubtree(i).value) == Hi(n, i)
    decreases i
  {
    if i > 1 {
      ParentNode(n, i);
      var p := i / 2;
      ChildSpans(n, p, 2 * p, 2 * p + 1);
      if i % 2 == 1 {
        AfterSubtreeSpan(n, p);
      }
    }
  }

  /** `struct buddy_tree_walk_state`, started at the root. */
  class WalkState {
    var current: Pos
    var goingUp: bool
    var walkDone: bool

    constructor ()
      ensures current == ROOT && !goingUp && !walkDone
    {
      current, goingUp, walkDone := ROOT, false, false;
    }
  }

  /** The node the walk moves to from `i`, skipping its subtree or not. */
  ghost function NextNode(n: nat, i: nat, skip: bool): (j: Option<nat>)
    requires i >= 1
  {
    if !skip && Depth(i) < n then Some(2 * i) else AfterSubtree(i)
  }

  /** `buddy_tree_walk` */
  method Walk(t: Tree, state: WalkState) returns (more: bool)
    requires t.upperPosBound == Pow2(t.order) && ValidPos(t.order, state.current) && !state.walkDone
    modifies state
    ensures more <==> NextNode(t.order, old(state.current.index), old(state.goingUp)).Some?
    ensures more ==> ValidPos(t.order, state.current) && !state.goingUp && !state.walkDone
    ensures more ==> NextNode(t.order, old(state.current.index), old(state.goingUp)) == Some(state.current.index)
  {
    hide AfterSubtree, NextNode, Depth, Pow2;
    ghost var target := NextNode(t.order, state.current.index, state.goingUp);
    SkipsSubtree(t.order, state.current.index);
    var first := true;
    while first || state.goingUp
      invariant !state.walkDone || !first
      invariant state.walkDone ==> !state.goingUp && target.None?
      invariant !state.walkDone ==> ValidPos(t.order, state.current)
      invariant !state.walkDone && state.goingUp ==> target == AfterSubtree(state.current.index)
      invariant !state.walkDone && !state.goingUp ==>
        target == if first then NextNode(t.order, state.current.index, false) else Some(state.current.index)
      decreases first && !state.goingUp, state.goingUp, state.current.index
    {
      ghost var at := state.current;
      if state.goingUp {
        StepUp(t.order, at);
        if state.current.index == 1 {
          state.walkDone := true;
          state.goingUp := false;
        } else if state.current.index % 2 == 1 {
          state.current := Pos(state.current.index / 2, state.current.depth - 1);
        } else {
          state.current := Pos(state.current.index + 1, state.current.depth);
          state.goingUp := false;
        }
      } else {
        StepDown(t.order, at);
        var left := Pos(2 * state.current.index, state.current.depth + 1);
        if t.InTree(left) {
          state.current := left;
        } else {
          state.goingUp := true;
        }
      }
      first := false;
    }
    more := !state.walkDone;
  }

  lemma {:induction false} SkipsSubtree(n: nat, i: nat)
    requires i >= 1
    ensures NextNode(n, i, true) == AfterSubtree(i)
  {
  }

  lemma {:induction false} StepUp(n: nat, pos: Pos)
    requires ValidPos(n, pos)
    ensures pos.index == 1 ==> AfterSubtree(1).None?
    ensures pos.index > 1 && pos.index % 2 == 1 ==>
      && pos.depth >= 1 && ValidPos(n, Pos(pos.index / 2, pos.depth - 1))
      && AfterSubtree(pos.index) == AfterSubtree(pos.index / 2)
    ensures pos.index % 2 == 0 ==>
      ValidPos(n, Pos(pos.index + 1, pos.depth)) && AfterSubtree(pos.index) == Some(pos.index + 1)
  {
    var i := pos.index;
    if i > 1 {
      ParentNode(n, i);
      if i % 2 == 0 {
        SiblingNode(n, i);
        DepthHalf(i, i / 2);
        DepthHalf(i + 1, i / 2);
      }
    }
  }

  lemma {:induction false} StepDown(n: nat, pos: Pos)
    requires ValidPos(n, pos)
    ensures 2 * pos.index < Pow2(n) ==>
      ValidPos(n, Pos(2 * pos.index, pos.depth + 1)) && NextNode(n, pos.index, false) == Some(2 * pos.index)
    ensures 2 * pos.index >= Pow2(n) ==> NextNode(n, pos.index, false) == AfterSubtree(pos.index)
  {
    ChildNodes(n, pos.index);
  }

  /** The free slots in the subtree of `i`, read off the statuses the way the walk does. */
  ghost function FreeSlots(n: nat, st: seq<nat>, i: nat): (f: nat)
    requires |st| == Pow2(n) && Node(n, i)
    decreases n + 1 - Depth(i)
  {
    if st[i] == Width(n, i) then 0
    else if st[i] == 0 then Span(n, i)
    else if Depth(i) < n then
      ChildNodes(n, i);
      FreeSlots(n, st, 2 * i) + FreeSlots(n, st, 2 * i + 1)
    else 0
  }

  /** The free slots still to be counted when the subtree of `i` is done. */
  ghost function FreeAfter(n: nat, st: seq<nat>, i: nat): (f: nat)
    requires |st| == Pow2(n) && Node(n, i)
    decreases i
  {
    if i == 1 then 0 else
      ParentNode(n, i);
      ChildNodes(n, i / 2);
      (if i % 2 == 1 then 0 else FreeSlots(n, st, i + 1)) + FreeAfter(n, st, i / 2)
  }

  lemma {:induction false} FreeAfterNext(n: nat, st: seq<nat>, i: nat)
    requires |st| == Pow2(n) && Node(n, i)
    ensures match AfterSubtree(i)
      case None => FreeAfter(n, st, i) == 0
      case Some(j) => Node(n, j) && FreeAfter(n, st, i) == FreeSlots(n, st, j) + FreeAfter(n, st, j)
    decreases i
  {
    if i > 1 {
      ParentNode(n, i);
      ChildNodes(n, i / 2);
      if i % 2 == 1 {
        FreeAfterNext(n, st, i / 2);
      } else {
        assert (i + 1) / 2 == i / 2;
      }
    }
  }

  /** Counting a node, or moving into its left child, keeps the total. */
  lemma {:induction false} FreeStep(n: nat, st: seq<nat>, i: nat)
    requires |st| == Pow2(n) && Node(n, i) && Depth(i) < n && st[i] != 0 && st[i] != Width(n, i)
    ensures Node(n, 2 * i)
    ensures FreeSlots(n, st, i) + FreeAfter(n, st, i) == FreeSlots(n, st, 2 * i) + FreeAfter(n, st, 2 * i)
  {
    ChildNodes(n, i);
    FreeAfterLeft(n, st, i, 2 * i, 2 * i + 1);
    FreeSlotsInner(n, st, i);
  }

  lemma {:induction false} FreeSlotsInner(n: nat, st: seq<nat>, i: nat)
    requires |st| == Pow2(n) && Node(n, i) && Depth(i) < n && st[i] != 0 && st[i] != Width(n, i)
    requires Node(n, 2 * i) && Node(n, 2 * i + 1)
    ensures FreeSlots(n, st, i) == FreeSlots(n, st, 2 * i) + FreeSlots(n, st, 2 * i + 1)
  {
  }

  lemma {:induction false} FreeAfterLeft(n: nat, st: seq<nat>, i: nat, l: nat, r: nat)
    requires |st| == Pow2(n) && Node(n, i) && l == 2 * i && r == 2 * i + 1 && Node(n, l) && Node(n, r)
    ensures FreeAfter(n, st, l) == FreeSlots(n, st, r) + FreeAfter(n, st, i)
  {
    assert l / 2 == i && l % 2 == 0;
  }

  /** The slots used by the allocated nodes in the subtree of `i`. */
  ghost function UsedSlots(n: nat, alloc: set<nat>, i: nat): (u: nat)
    requires Node(n, i)
    decreases n + 1 - Depth(i)
  {
    if i in alloc then Span(n, i)
    else if Depth(i) < n then
      ChildNodes(n, i);
      UsedSlots(n, alloc, 2 * i) + UsedSlots(n, alloc, 2 * i + 1)
    else 0
  }

  lemma {:induction false} UsedNone(n: nat, alloc: set<nat>, i: nat)
    requires Node(n, i) && NoneUnder(alloc, i)
    ensures UsedSlots(n, alloc, i) == 0
    decreases n + 1 - Depth(i)
  {
    assert i !in alloc by { assert Under(i, i); }
    if Depth(i) < n {
      ChildNodes(n, i);
      forall a | a in alloc ensures !Under(2 * i, a) && !Under(2 * i + 1, a) {
        if a >= 1 {
          UnderChild(i, a);
        }
      }
      UsedNone(n, alloc, 2 * i);
      UsedNone(n, alloc, 2 * i + 1);
    }
  }

  /** Free and used slots make up the span of a node. */
  lemma {:induction false} FreePlusUsed(n: nat, st: seq<nat>, alloc: set<nat>, i: nat)
    requires Exact(n, st, alloc) && Node(n, i)
    ensures FreeSlots(n, st, i) + UsedSlots(n, alloc, i) == Span(n, i)
    ensures st[i] == Width(n, i) ==> UsedSlots(n, alloc, i) == Span(n, i)
    decreases n + 1 - Depth(i)
  {
    DepthRange(n, i);
    assert LocalOk(n, st, alloc, i);
    if i !in alloc {
      if st[i] == 0 {
        ZeroIff(n, st, alloc, i);
        UsedNone(n, alloc, i);
      } else {
        var l, r := 2 * i, 2 * i + 1;
        LocalOkInner(n, st, alloc, i, l, r);
        ChildSpans(n, i, l, r);
        ChildNodes(n, i);
        FreePlusUsed(n, st, alloc, l);
        FreePlusUsed(n, st, alloc, r);
        StatusBound(n, st, alloc, l);
        StatusBound(n, st, alloc, r);
      }
    }
  }

  // ----- conservation

  /** The total span of a set of nodes. */
  ghost function SumSpans(n: nat, s: set<nat>): (total: nat)
    requires forall b :: b in s ==> Node(n, b)
    decreases s
  {
    if s == {} then 0 else var b :| b in s; Span(n, b) + SumSpans(n, s - {b})
  }

  lemma {:induction false} SumRemove(n: nat, s: set<nat>, x: nat)
    requires (forall b :: b in s ==> Node(n, b)) && x in s
    ensures SumSpans(n, s) == Span(n, x) + SumSpans(n, s - {x})
    decreases s
  {
    var b :| b in s && SumSpans(n, s) == Span(n, b) + SumSpans(n, s - {b});
    if b != x {
      SumRemove(n, s - {b}, x);
      SumRemove(n, s - {x}, b);
      assert s - {b} - {x} == s - {x} - {b};
    }
  }

  lemma {:induction false} SumUnion(n: nat, s: set<nat>, t: set<nat>)
    requires (forall b :: b in s + t ==> Node(n, b)) && s !! t
    ensures SumSpans(n, s + t) == SumSpans(n, s) + SumSpans(n, t)
    decreases s
  {
    if s == {} {
      assert s + t == t;
    } else {
      var x :| x in s;
      SumRemove(n, s, x);
      SumRemove(n, s + t, x);
      assert s + t - {x} == (s - {x}) + t;
      SumUnion(n, s - {x}, t);
    }
  }

  ghost function Below(alloc: set<nat>, i: nat): (r: set<nat>) {
    set a | a in alloc && Under(i, a)
  }

  /** The recursive count of used slots is the total span of the allocated nodes. */
  lemma {:induction false} UsedIsSum(n: nat, alloc: set<nat>, i: nat)
    requires Blocks(n, alloc) && Node(n, i)
    ensures UsedSlots(n, alloc, i) == SumSpans(n, Below(alloc, i))
    decreases n + 1 - Depth(i)
  {
    if i in alloc {
      assert Under(i, i);
      assert Below(alloc, i) == {i};
      SumRemove(n, {i}, i);
      assert {i} - {i} == {};
    } else if Depth(i) < n {
      ChildNodes(n, i);
      UsedIsSum(n, alloc, 2 * i);
      UsedIsSum(n, alloc, 2 * i + 1);
      forall a | a in alloc
        ensures Under(i, a) <==> Under(2 * i, a) || Under(2 * i + 1, a)
        ensures !(Under(2 * i, a) && Under(2 * i + 1, a))
      {
        UnderChild(i, a);
      }
      assert Below(alloc, i) == Below(alloc, 2 * i) + Below(alloc, 2 * i + 1);
      SumUnion(n, Below(alloc, 2 * i), Below(alloc, 2 * i + 1));
    } else {
      forall a | a in alloc ensures !Under(i, a) {
        if Under(i, a) {
          DepthRange(n, a);
          UnderDepth(i, a);
        }
      }
      assert Below(alloc, i) == {};
    }
  }

  /** The slots of `lo..hi - 1` at or behind `from`. */
  ghost function Beyond(from: nat, lo: nat, hi: nat): (c: nat)
    requires lo <= hi
  {
    if hi <= from then 0 else if lo >= from then hi - lo else hi - from
  }

  lemma {:induction false} BeyondSplit(from: nat, lo: nat, mid: nat, hi: nat)
    requires lo <= mid <= hi
    ensures Beyond(from, lo, hi) == Beyond(from, lo, mid) + Beyond(from, mid, hi)
  {
  }

  /** The masked nodes use exactly the slots from `from` on. */
  lemma {:induction false} MaskedUsed(n: nat, virt: set<nat>, from: nat, i: nat)
    requires MaskedFrom(n, virt, from) && Node(n, i) && NoneAbove(virt, i)
    ensures UsedSlots(n, virt, i) == Beyond(from, Lo(n, i), Hi(n, i))
    decreases n + 1 - Depth(i)
  {
    hide Lo, Span, MaskedFrom, NoneAbove, Pow2;
    if i in virt {
      MaskedBlock(n, virt, from, i);
    } else {
      DepthRange(n, i);
      if Depth(i) < n {
        var l, r := 2 * i, 2 * i + 1;
        ChildNodes(n, i);
        ChildSpans(n, i, l, r);
        NoneAboveChild(virt, i, l);
        NoneAboveChild(virt, i, r);
        MaskedUsed(n, virt, from, l);
        MaskedUsed(n, virt, from, r);
        BeyondSplit(from, Lo(n, i), Lo(n, r), Hi(n, i));
      } else {
        LastSlotMasked(n, virt, from, i);
      }
    }
  }

  lemma {:induction false} MaskedBlock(n: nat, virt: set<nat>, from: nat, i: nat)
    requires MaskedFrom(n, virt, from) && i in virt
    ensures Node(n, i) && Lo(n, i) >= from && Hi(n, i) == Lo(n, i) + Span(n, i)
  {
  }

  lemma {:induction false} NoneAboveChild(virt: set<nat>, i: nat, c: nat)
    requires NoneAbove(virt, i) && i !in virt && c / 2 == i && i >= 1
    ensures NoneAbove(virt, c)
  {
    forall a | a in virt && Under(a, c) ensures a == c {
      assert a != c ==> Under(a, i);
    }
  }

  lemma {:induction false} LastSlotMasked(n: nat, virt: set<nat>, from: nat, i: nat)
    requires MaskedFrom(n, virt, from) && Node(n, i) && NoneAbove(virt, i) && i !in virt && Depth(i) == n
    ensures Lo(n, i) < from && Hi(n, i) == Lo(n, i) + 1
  {
    RootSpan(n);
    UnderRoot(i);
    UnderSpan(n, 1, i);
    var x := Lo(n, i);
    if x >= from {
      assert Masked(n, virt, x);
      var v :| v in virt && Node(n, v) && Lo(n, v) <= x < Hi(n, v);
      SharedSlot(n, v, i, x);
      if Under(i, v) {
        DepthRange(n, v);
        UnderDepth(i, v);
      }
      assert false;
    }
  }

  /** Free slots, plus the spans of the live blocks, make up the arena. */
  lemma {:induction false} Conservation(n: nat, slots: nat, st: seq<nat>, live: set<nat>, virt: set<nat>)
    requires Exact(n, st, live + virt) && Partition(n, slots, live, virt)
    ensures Node(n, 1) && (forall b :: b in live ==> Node(n, b))
    ensures FreeSlots(n, st, 1) + SumSpans(n, live) == slots
  {
    hide FreeSlots, UsedSlots, SumSpans, Exact, Under, Lo, Span;
    RootSpan(n);
    FreePlusUsed(n, st, live + virt, 1);
    UsedAll(n, live + virt);
    UsedAll(n, virt);
    SumUnion(n, live, virt);
    NothingAboveRoot(virt);
    MaskedUsed(n, virt, slots, 1);
  }

  lemma {:induction false} NothingAboveRoot(alloc: set<nat>)
    requires 0 !in alloc
    ensures NoneAbove(alloc, 1)
  {
  }

  lemma {:induction false} UsedAll(n: nat, alloc: set<nat>)
    requires n >= 1 && Blocks(n, alloc)
    ensures Node(n, 1) && UsedSlots(n, alloc, 1) == SumSpans(n, alloc)
  {
    RootSpan(n);
    UsedIsSum(n, alloc, 1);
    forall a | a in alloc ensures Under(1, a) {
      UnderRoot(a);
    }
    assert Below(alloc, 1) == alloc;
  }

  /** The total size of a set of blocks. */
  ghost function SumSizes(unit: nat, n: nat, s: set<nat>): (total: nat)
    requires forall b :: b in s ==> Node(n, b)
    decreases s
  {
    if s == {} then 0 else var b :| b in s; BlockSize(unit, n, b) + SumSizes(unit, n, s - {b})
  }

  lemma {:induction false} SumSizesIsBytes(unit: nat, n: nat, s: set<nat>)
    requires forall b :: b in s ==> Node(n, b)
    ensures SumSizes(unit, n, s) == Times(unit, SumSpans(n, s))
    decreases s
  {
    if s != {} {
      var b :| b in s && SumSizes(unit, n, s) == BlockSize(unit, n, b) + SumSizes(unit, n, s - {b});
      var rest := s - {b};
      SumSizesIsBytes(unit, n, rest);
      SumRemove(n, s, b);
      assert BlockSize(unit, n, b) == Times(unit, Span(n, b));
      TimesAdd(unit, Span(n, b), SumSpans(n, rest));
    }
  }

  /** Bytes counted free plus the sizes of the live blocks make up the arena. */
  lemma {:induction false} ByteConservation(unit: nat, n: nat, slots: nat, free: nat, live: set<nat>, memorySize: nat)
    requires forall b :: b in live ==> Node(n, b)
    requires free + SumSpans(n, live) == slots && memorySize == Times(unit, slots)
    ensures Times(unit, free) + SumSizes(unit, n, live) == memorySize
  {
    SumSizesIsBytes(unit, n, live);
    TimesAdd(unit, free, SumSpans(n, live));
  }

  /** Looks at one node: skip it if it is full or free, and count it if it is free. */
  method VisitFree(buddy: Buddy, state: WalkState) returns (size: nat, ghost c: nat)
    requires buddy.Valid() && ValidPos(buddy.tree.order, state.current) && !state.goingUp
    modifies state`goingUp
    ensures var st, i := buddy.tree.st, state.current.index;
      && (state.goingUp <==> st[i] == Width(buddy.tree.order, i) || st[i] == 0)
      && c == (if state.goingUp && st[i] != Width(buddy.tree.order, i) then Span(buddy.tree.order, i) else 0)
    ensures size == Times(buddy.alignment, c)
  {
    size, c := 0, 0;
    var pos := state.current;
    var status := buddy.tree.Status(pos);
    if status == buddy.tree.order - pos.depth + 1 {
      state.goingUp := true;
    } else if status == 0 {
      state.goingUp := true;
      PositionOffsetIs(buddy.memorySize, buddy.alignment, buddy.slots, buddy.alignmentLog, buddy.tree.order, pos);
      size := SizeForDepth(buddy.memorySize, pos.depth);
      c := Span(buddy.tree.order, pos.index);
    }
  }

  /** `buddy_arena_free_size` is the arena size minus the sizes of the live blocks. */
  method ArenaFreeSize(buddy: Buddy) returns (result: nat)
    requires buddy.Valid()
    ensures forall b :: b in buddy.live ==> Node(buddy.tree.order, b)
    ensures result == buddy.memorySize - SumSizes(buddy.alignment, buddy.tree.order, buddy.live)
  {
    hide Partition, Exact, Lo, FreeSlots, SumSizes, SumSpans, Encodes;
    ghost var n, st, alloc := buddy.tree.order, buddy.tree.st, buddy.tree.alloc;
    Conservation(n, buddy.slots, st, buddy.live, buddy.virt);
    DepthUnique(1, 1);
    assert buddy.memorySize == Times(buddy.alignment, buddy.slots);
    hide Geometry, Depth, Pow2;
    result := 0;
    ghost var counted: nat := 0;
    var state := new WalkState();
    var more := true;
    while more
      invariant result == Times(buddy.alignment, counted)
      invariant more ==> ValidPos(n, state.current) && !state.goingUp && !state.walkDone
      invariant counted + (if more then FreeSlots(n, st, state.current.index) + FreeAfter(n, st, state.current.index) else 0)
             == FreeSlots(n, st, 1)
      decreases more, if more then Pow2(n - 1) - Lo(n, state.current.index) else 0, n - state.current.depth
    {
      var size, c := VisitFree(buddy, state);
      TimesAdd(buddy.alignment, counted, c);
      result := result + size;
      counted := counted + c;
      FreeMove(n, st, alloc, state.current.index, state.goingUp);
      WalkProgress(n, state.current.index, state.goingUp);
      more := Walk(buddy.tree, state);
    }
    ByteConservation(buddy.alignment, n, buddy.slots, counted, buddy.live, buddy.memorySize);
  }

  /** Where the walk goes next, and what is left to count there. */
  lemma {:induction false} FreeMove(n: nat, st: seq<nat>, alloc: set<nat>, i: nat, skip: bool)
    requires n >= 1 && Exact(n, st, alloc) && Node(n, i)
    requires skip <==> st[i] == Width(n, i) || st[i] == 0
    ensures skip ==> FreeSlots(n, st, i) == if st[i] == Width(n, i) then 0 else Span(n, i)
    ensures match NextNode(n, i, skip)
      case None => FreeAfter(n, st, i) == 0 && skip
      case Some(j) =>
        && Node(n, j)
        && FreeSlots(n, st, j) + FreeAfter(n, st, j)
           == (if skip then 0 else FreeSlots(n, st, i)) + FreeAfter(n, st, i)
  {
    DepthRange(n, i);
    assert LocalOk(n, st, alloc, i);
    if skip {
      FreeAfterNext(n, st, i);
    } else {
      FreeStep(n, st, i);
    }
  }

  // ----- reporting the allocated blocks

  /** The allocated nodes in the subtree of `i`, left to right. */
  ghost function InOrder(n: nat, alloc: set<nat>, i: nat): (r: seq<nat>)
    requires Node(n, i)
    decreases n + 1 - Depth(i)
  {
    if i in alloc then [i]
    else if Depth(i) < n then
      ChildNodes(n, i);
      InOrder(n, alloc, 2 * i) + InOrder(n, alloc, 2 * i + 1)
    else []
  }

  /** The allocated nodes to the right of the subtree of `i`, left to right. */
  ghost function InOrderAfter(n: nat, alloc: set<nat>, i: nat): (r: seq<nat>)
    requires Node(n, i)
    decreases i
  {
    if i == 1 then [] else
      ParentNode(n, i);
      ChildNodes(n, i / 2);
      (if i % 2 == 1 then [] else InOrder(n, alloc, i + 1)) + InOrderAfter(n, alloc, i / 2)
  }

  /** Sequence of nodes from left to right, within the slots `lo..hi - 1`. */
  ghost predicate Ordered(n: nat, s: seq<nat>, lo: nat, hi: nat) {
    && (forall k :: 0 <= k < |s| ==> Node(n, s[k]) && lo <= Lo(n, s[k]) && Hi(n, s[k]) <= hi)
    && (forall p, q :: 0 <= p < q < |s| ==> Node(n, s[p]) && Node(n, s[q]) && Hi(n, s[p]) <= Lo(n, s[q]))
  }

  lemma {:induction false} OrderedConcat(n: nat, s: seq<nat>, t: seq<nat>, lo: nat, mid: nat, hi: nat)
    requires Ordered(n, s, lo, mid) && Ordered(n, t, mid, hi) && lo <= mid <= hi
    ensures Ordered(n, s + t, lo, hi)
  {
    var u := s + t;
    forall k | 0 <= k < |u| ensures Node(n, u[k]) && lo <= Lo(n, u[k]) && Hi(n, u[k]) <= hi {
      assert u[k] == if k < |s| then s[k] else t[k - |s|];
    }
    forall p, q | 0 <= p < q < |u| ensures Node(n, u[p]) && Node(n, u[q]) && Hi(n, u[p]) <= Lo(n, u[q]) {
      assert u[p] == if p < |s| then s[p] else t[p - |s|];
      assert u[q] == if q < |s| then s[q] else t[q - |s|];
    }
  }

  /** In-order listing is exactly the allocated nodes, from left to right. */
  lemma {:induction false} InOrderListing(n: nat, alloc: set<nat>, i: nat)
    requires Blocks(n, alloc) && Node(n, i)
    ensures forall b :: b in InOrder(n, alloc, i) <==> b in alloc && Under(i, b)
    ensures Ordered(n, InOrder(n, alloc, i), Lo(n, i), Hi(n, i))
    decreases n + 1 - Depth(i)
  {
    if i in alloc {
      assert Under(i, i);
    } else if Depth(i) < n {
      ChildNodes(n, i);
      ChildSpans(n, i, 2 * i, 2 * i + 1);
      InOrderListing(n, alloc, 2 * i);
      InOrderListing(n, alloc, 2 * i + 1);
      OrderedConcat(n, InOrder(n, alloc, 2 * i), InOrder(n, alloc, 2 * i + 1), Lo(n, i), Lo(n, 2 * i + 1), Hi(n, i));
      forall a | a in alloc ensures Under(i, a) <==> Under(2 * i, a) || Under(2 * i + 1, a) {
        UnderChild(i, a);
      }
    } else {
      forall a | a in alloc ensures !Under(i, a) {
        if Under(i, a) {
          DepthRange(n, a);
          UnderDepth(i, a);
        }
      }
    }
  }

  lemma {:induction false} InOrderAfterNext(n: nat, alloc: set<nat>, i: nat)
    requires Node(n, i)
    ensures match AfterSubtree(i)
      case None => InOrderAfter(n, alloc, i) == []
      case Some(j) => Node(n, j) && InOrderAfter(n, alloc, i) == InOrder(n, alloc, j) + InOrderAfter(n, alloc, j)
    decreases i
  {
    if i > 1 {
      ParentNode(n, i);
      ChildNodes(n, i / 2);
      if i % 2 == 1 {
        InOrderAfterNext(n, alloc, i / 2);
        assert InOrderAfter(n, alloc, i) == InOrderAfter(n, alloc, i / 2);
      } else {
        assert (i + 1) / 2 == i / 2;
        assert InOrderAfter(n, alloc, i + 1) == InOrderAfter(n, alloc, i / 2);
      }
    }
  }

  /** With `nodes` reported and the walk at `i`, the nodes still to come complete the listing. */
  ghost predicate Pending(n: nat, alloc: set<nat>, nodes: seq<nat>, i: nat, listing: seq<nat>) {
    Node(n, i) && nodes + (InOrder(n, alloc, i) + InOrderAfter(n, alloc, i)) == listing
  }

  /** What is left of node `i` and behind it, seen from the node the walk moves to. */
  lemma {:induction false} ReportNext(n: nat, alloc: set<nat>, i: nat, skip: bool)
    requires n >= 1 && Node(n, i) && (skip <==> i in alloc)
    ensures skip ==> InOrder(n, alloc, i) == [i]
    ensures match NextNode(n, i, skip)
      case None => InOrderAfter(n, alloc, i) == [] && (!skip ==> InOrder(n, alloc, i) == [])
      case Some(j) =>
        && Node(n, j)
        && (if skip then [] else InOrder(n, alloc, i)) + InOrderAfter(n, alloc, i)
           == InOrder(n, alloc, j) + InOrderAfter(n, alloc, j)
  {
    DepthRange(n, i);
    if skip || Depth(i) == n {
      InOrderAfterNext(n, alloc, i);
    } else {
      ChildNodes(n, i);
      InOrderLeft(n, alloc, i, 2 * i, 2 * i + 1);
    }
  }

  lemma {:induction false} InOrderLeft(n: nat, alloc: set<nat>, i: nat, l: nat, r: nat)
    requires Node(n, i) && Depth(i) < n && i !in alloc && l == 2 * i && r == 2 * i + 1 && Node(n, l) && Node(n, r)
    ensures InOrder(n, alloc, i) + InOrderAfter(n, alloc, i) == InOrder(n, alloc, l) + InOrderAfter(n, alloc, l)
  {
    assert l / 2 == i && l % 2 == 0;
    var a, b, c := InOrder(n, alloc, l), InOrder(n, alloc, r), InOrderAfter(n, alloc, i);
    assert InOrderAfter(n, alloc, l) == b + c;
    assert (a + b) + c == a + (b + c);
  }

  /** The walk moves to the right or one level down. */
  lemma {:induction false} WalkProgress(n: nat, i: nat, skip: bool)
    requires n >= 1 && Node(n, i)
    ensures Depth(i) <= n
    ensures match NextNode(n, i, skip)
      case None => true
      case Some(j) => Node(n, j) && Lo(n, i) <= Lo(n, j) < Pow2(n - 1) && (Lo(n, i) < Lo(n, j) || Depth(j) == Depth(i) + 1)
  {
    DepthRange(n, i);
    RootSpan(n);
    if skip || Depth(i) == n {
      AfterSubtreeSpan(n, i);
      if AfterSubtree(i).Some? {
        UnderRoot(AfterSubtree(i).value);
        UnderSpan(n, 1, AfterSubtree(i).value);
      }
    } else {
      ChildNodes(n, i);
      ChildSpans(n, i, 2 * i, 2 * i + 1);
      UnderRoot(i);
      UnderSpan(n, 1, i);
    }
  }

  /** Reporting an allocated node, or passing over another one, keeps the listing complete. */
  lemma {:induction false} ReportMove(n: nat, alloc: set<nat>, nodes: seq<nat>, i: nat, skip: bool, listing: seq<nat>)
    requires n >= 1 && Pending(n, alloc, nodes, i, listing) && (skip <==> i in alloc)
    ensures skip ==> listing == nodes + ([i] + InOrderAfter(n, alloc, i))
    ensures var nodes' := if skip then nodes + [i] else nodes;
      match NextNode(n, i, skip)
      case None => nodes' == listing
      case Some(j) => Pending(n, alloc, nodes', j, listing)
  {
    hide InOrder, InOrderAfter, NextNode;
    ReportNext(n, alloc, i, skip);
    assert nodes + ([i] + InOrderAfter(n, alloc, i)) == nodes + [i] + InOrderAfter(n, alloc, i);
    assert nodes + [i] + [] == nodes + [i] && [] + InOrderAfter(n, alloc, i) == InOrderAfter(n, alloc, i);
  }

  /** A fully used node is directly allocated exactly when it has no used left child. */
  lemma {:induction false} BlockTest(n: nat, st: seq<nat>, alloc: set<nat>, i: nat)
    requires Exact(n, st, alloc) && Node(n, i)
    ensures i in alloc <==> st[i] == Width(n, i) && (Node(n, 2 * i) ==> st[2 * i] == 0)
  {
    DepthRange(n, i);
    ChildNodes(n, i);
    assert LocalOk(n, st, alloc, i);
    if i in alloc && Depth(i) < n {
      ChildrenOfBlockZero(n, st, alloc, i);
    }
  }

  lemma {:induction false} OrderedSuffix(n: nat, s: seq<nat>, hi: nat, d: nat, k: nat)
    requires Ordered(n, s, 0, hi) && d <= k < |s|
    ensures Node(n, s[d]) && Node(n, s[k]) && Lo(n, s[d]) <= Lo(n, s[k])
  {
    if d < k {
      assert Hi(n, s[d]) <= Lo(n, s[k]);
    }
  }

  /** Nodes reported before the first masked one are exactly the live blocks. */
  lemma {:induction false} ReportComplete(n: nat, slots: nat, live: set<nat>, virt: set<nat>, done: seq<nat>,
                                          rest: seq<nat>)
    requires Partition(n, slots, live, virt) && Node(n, 1)
    requires InOrder(n, live + virt, 1) == done + rest
    requires forall b :: b in done ==> b in live
    requires rest == [] || rest[0] in virt
    ensures forall b :: b in live <==> b in done
    ensures Ordered(n, done, 0, slots)
  {
    var all := done + rest;
    InOrderListing(n, live + virt, 1);
    RootSpan(n);
    forall b | b in live ensures b in done {
      assert b in live + virt;
      UnderRoot(b);
      assert b in all;
      var k :| 0 <= k < |all| && all[k] == b;
      if k >= |done| {
        assert all[|done|] == rest[0];
        OrderedSuffix(n, all, Pow2(n - 1), |done|, k);
        assert false;
      }
    }
    forall k | 0 <= k < |done| ensures Node(n, done[k]) && Hi(n, done[k]) <= slots {
      assert done[k] in live && done[k] == all[k];
    }
    forall p, q | 0 <= p < q < |done| ensures Node(n, done[p]) && Node(n, done[q]) && Hi(n, done[p]) <= Lo(n, done[q]) {
      assert done[p] == all[p] && done[q] == all[q];
    }
  }

  /** One reported block: address and size, as the callback of `buddy_walk` receives them. */
  datatype Block = Block(addr: nat, size: nat)

  ghost function BlockOf(main: nat, unit: nat, n: nat, b: nat): (r: Block)
    requires Node(n, b)
  {
    Block(main + BlockOffset(unit, n, b), BlockSize(unit, n, b))
  }

  /** The report describes the nodes, one for one. */
  ghost predicate Describes(main: nat, unit: nat, n: nat, nodes: seq<nat>, report: seq<Block>) {
    && |report| == |nodes|
    && forall k :: 0 <= k < |nodes| ==> Node(n, nodes[k]) && report[k] == BlockOf(main, unit, n, nodes[k])
  }

  /** The tests of `buddy_walk` at one node: is it a directly allocated block? */
  method IsBlock(buddy: Buddy, pos: Pos) returns (r: bool)
    requires buddy.Valid() && ValidPos(buddy.tree.order, pos)
    ensures r <==> pos.index in buddy.tree.alloc
  {
    var t := buddy.tree;
    BlockTest(t.order, t.st, t.alloc, pos.index);
    DepthRange(t.order, pos.index);
    var status := t.Status(pos);
    if status != t.order - pos.depth + 1 {
      return false;
    }
    ChildNodes(t.order, pos.index);
    var testPos := Pos(2 * pos.index, pos.depth + 1);
    if t.InTree(testPos) {
      var left := t.Status(testPos);
      if left != 0 {
        return false;
      }
    }
    return true;
  }

  /** Address and size of an allocated node, and whether it reaches behind the arena. */
  method BlockAt(buddy: Buddy, pos: Pos) returns (block: Block, beyond: bool)
    requires buddy.Valid() && ValidPos(buddy.tree.order, pos) && pos.index in buddy.live + buddy.virt
    ensures block == BlockOf(buddy.main, buddy.alignment, buddy.tree.order, pos.index)
    ensures beyond <==> pos.index in buddy.virt
  {
    ghost var n, i := buddy.tree.order, pos.index;
    PositionOffsetIs(buddy.memorySize, buddy.alignment, buddy.slots, buddy.alignmentLog, n, pos);
    var size := SizeForDepth(buddy.memorySize, pos.depth);
    var addr := buddy.AddressForPosition(pos);
    block := Block(addr, size);
    beyond := addr - buddy.main + size > buddy.memorySize;
    if i in buddy.live {
      LiveInside(buddy.alignment, n, buddy.slots, buddy.live, buddy.virt, i);
    } else {
      TimesMono(buddy.alignment, buddy.slots, Lo(n, i));
      TimesMono(buddy.alignment, 0, Span(n, i));
    }
  }

  /**
    The callback: what it answers after the blocks it was called with so far, since it may keep
    notes in its context. It ends the walk with its first answer.
  */
  ghost predicate Answered(fp: seq<Block> -> Option<nat>, report: seq<Block>, result: Option<nat>) {
    && (forall k :: 1 <= k < |report| ==> fp(report[..k]).None?)
    && (result.Some? ==> report != [])
    && (report != [] ==> fp(report) == result)
  }

  /** The loop of `buddy_walk`: it ends at an answer, at the first masked node or at the end of the listing. */
  method ReportFrom(buddy: Buddy, state: WalkState, fp: seq<Block> -> Option<nat>, ghost listing: seq<nat>)
    returns (report: seq<Block>, result: Option<nat>, ghost nodes: seq<nat>, ghost rest: seq<nat>)
    requires buddy.Valid() && ValidPos(buddy.tree.order, state.current) && !state.goingUp && !state.walkDone
    requires Pending(buddy.tree.order, buddy.tree.alloc, [], state.current.index, listing)
    modifies state
    ensures listing == nodes + rest && Answered(fp, report, result)
    ensures result.None? ==> rest == [] || rest[0] in buddy.virt
    ensures forall b :: b in nodes ==> b in buddy.live
    ensures Describes(buddy.main, buddy.alignment, buddy.tree.order, nodes, report)
  {
    hide Partition, Exact, Lo, Span, InOrder, InOrderAfter, Encodes, Blocks, Pending, Describes, NextNode, Answered, Geometry,
      Depth, Pow2;
    ghost var n, alloc := buddy.tree.order, buddy.tree.alloc;
    PartitionBlocks(n, buddy.slots, buddy.live, buddy.virt);
    NoAnswerYet(fp);
    report, result, nodes, rest := [], None, [], [];
    DescribesNone(buddy.main, buddy.alignment, n);
    var more := true;
    while more
      invariant more ==> ValidPos(n, state.current) && !state.goingUp && !state.walkDone
      invariant forall b :: b in nodes ==> b in buddy.live
      invariant Describes(buddy.main, buddy.alignment, n, nodes, report) && Answered(fp, report, None) && result.None?
      invariant if more then Pending(n, alloc, nodes, state.current.index, listing) else nodes == listing
      decreases more, if more then Pow2(n - 1) - Lo(n, state.current.index) else 0, n - state.current.depth
    {
      var pos := state.current;
      var isBlock := IsBlock(buddy, pos);
      WalkProgress(n, pos.index, isBlock);
      ReportMove(n, alloc, nodes, pos.index, isBlock, listing);
      if isBlock {
        var block, beyond := BlockAt(buddy, pos);
        if beyond {
          rest := [pos.index] + InOrderAfter(n, alloc, pos.index);
          return;
        }
        DescribesAppend(buddy.main, buddy.alignment, n, nodes, report, pos.index);
        AnswerNext(fp, report, block);
        report := report + [block];
        ghost var before := nodes;
        nodes := nodes + [pos.index];
        result := fp(report);
        if result.Some? {
          rest := InOrderAfter(n, alloc, pos.index);
          assert before + ([pos.index] + rest) == nodes + rest;
          return;
        }
        state.goingUp := true;
      }
      more := Walk(buddy.tree, state);
    }
    assert nodes + [] == nodes;
  }

  /** The report holds exactly the live blocks, and each block ends before the next one starts. */
  ghost predicate Reports(main: nat, unit: nat, n: nat, live: set<nat>, report: seq<Block>) {
    && (forall b :: b in live ==> Node(n, b) && BlockOf(main, unit, n, b) in report)
    && (forall k :: 0 <= k < |report| ==> OfLive(main, unit, n, live, report[k]))
    && (forall p, q :: 0 <= p < q < |report| ==> report[p].addr + report[p].size <= report[q].addr)
  }

  ghost predicate OfLive(main: nat, unit: nat, n: nat, live: set<nat>, x: Block) {
    exists b :: b in live && Node(n, b) && x == BlockOf(main, unit, n, b)
  }

  /** Listing the live nodes from left to right describes the live blocks in address order. */
  lemma {:induction false} ReportMeaning(main: nat, unit: nat, n: nat, live: set<nat>,
                                         nodes: seq<nat>, slots: nat, report: seq<Block>)
    requires forall b :: b in live <==> b in nodes
    requires Ordered(n, nodes, 0, slots) && Describes(main, unit, n, nodes, report)
    ensures Reports(main, unit, n, live, report)
  {
    forall b | b in live ensures Node(n, b) && BlockOf(main, unit, n, b) in report {
      var k :| 0 <= k < |nodes| && nodes[k] == b;
      assert report[k] == BlockOf(main, unit, n, b);
    }
    forall k | 0 <= k < |report| ensures OfLive(main, unit, n, live, report[k]) {
      assert nodes[k] in nodes && Node(n, nodes[k]) && report[k] == BlockOf(main, unit, n, nodes[k]);
    }
    forall p, q | 0 <= p < q < |report| ensures report[p].addr + report[p].size <= report[q].addr {
      OffsetsOrdered(unit, n, nodes[p], nodes[q]);
    }
  }

  lemma {:induction false} OffsetsOrdered(unit: nat, n: nat, a: nat, b: nat)
    requires Node(n, a) && Node(n, b) && Hi(n, a) <= Lo(n, b)
    ensures BlockOffset(unit, n, a) + BlockSize(unit, n, a) <= BlockOffset(unit, n, b)
  {
    TimesMono(unit, Hi(n, a), Lo(n, b));
    TimesAdd(unit, Lo(n, a), Span(n, a));
  }

  lemma {:induction false} NoAnswerYet(fp: seq<Block> -> Option<nat>)
    ensures Answered(fp, [], None)
  {
  }

  lemma {:induction false} AnswerNext(fp: seq<Block> -> Option<nat>, report: seq<Block>, block: Block)
    requires Answered(fp, report, None)
    ensures Answered(fp, report + [block], fp(report + [block]))
  {
    var next := report + [block];
    forall k | 1 <= k < |next| ensures fp(next[..k]).None? {
      assert next[..k] == if k == |report| then report else report[..k];
    }
  }

  /**
    `buddy_walk`: there is one report of all live blocks, each exactly once and in address order; the
    callback is called along it up to its first answer, or to the end.
  */
  method ReportBlocks(buddy: Buddy, fp: seq<Block> -> Option<nat>)
    returns (report: seq<Block>, result: Option<nat>, ghost full: seq<Block>)
    requires buddy.Valid()
    ensures Reports(buddy.main, buddy.alignment, buddy.tree.order, buddy.live, full)
    ensures report <= full && Answered(fp, report, result) && (result.None? ==> report == full)
  {
    hide Partition, Exact, InOrder, InOrderAfter, Encodes, Blocks, Pending, Describes, Ordered, Lo, Answered, Reports;
    ghost var n, alloc := buddy.tree.order, buddy.tree.alloc;
    DepthUnique(1, 1);
    var state := new WalkState();
    PendingStart(n, alloc);
    ghost var nodes, rest;
    report, result, nodes, rest := ReportFrom(buddy, state, fp, InOrder(n, alloc, 1));
    full := FullReport(buddy.main, buddy.alignment, n, buddy.slots, buddy.live, buddy.virt, nodes, rest, report);
  }

  /** The blocks reported so far begin the report of all live blocks. */
  lemma {:induction false} FullReport(main: nat, unit: nat, n: nat, slots: nat, live: set<nat>, virt: set<nat>,
                                      done: seq<nat>, rest: seq<nat>, report: seq<Block>) returns (full: seq<Block>)
    requires Partition(n, slots, live, virt) && Node(n, 1) && InOrder(n, live + virt, 1) == done + rest
    requires (forall b :: b in done ==> b in live) && Describes(main, unit, n, done, report)
    ensures Reports(main, unit, n, live, full) && report <= full
    ensures rest == [] || rest[0] in virt ==> report == full
  {
    hide InOrder, Reports, Ordered, Blocks, Describes, Partition;
    Listed(n, slots, live, virt, done, rest);
    var more, beyond := UpToMasked(rest, live, virt);
    full := DescribedMore(main, unit, n, done, report, more);
    assert done + rest == (done + more) + beyond;
    ReportComplete(n, slots, live, virt, done + more, beyond);
    ReportMeaning(main, unit, n, live, done + more, slots, full);
  }

  lemma {:induction false} Listed(n: nat, slots: nat, live: set<nat>, virt: set<nat>, done: seq<nat>, rest: seq<nat>)
    requires Partition(n, slots, live, virt) && Node(n, 1) && InOrder(n, live + virt, 1) == done + rest
    ensures forall b :: b in rest ==> b in live + virt && Node(n, b)
  {
    hide InOrder;
    InOrderListing(n, live + virt, 1);
    forall b | b in rest ensures b in live + virt && Node(n, b) {
      assert b in done + rest;
    }
  }

  lemma {:induction false} DescribedMore(main: nat, unit: nat, n: nat, nodes: seq<nat>, report: seq<Block>,
                                         more: seq<nat>) returns (full: seq<Block>)
    requires Describes(main, unit, n, nodes, report) && forall b :: b in more ==> Node(n, b)
    ensures Describes(main, unit, n, nodes + more, full) && report <= full && (more == [] ==> full == report)
  {
    hide BlockOf;
    full := report + seq(|more|, k requires 0 <= k < |more| => BlockOf(main, unit, n, more[k]));
  }

  lemma {:induction false} UpToMasked(rest: seq<nat>, live: set<nat>, virt: set<nat>)
    returns (more: seq<nat>, beyond: seq<nat>)
    requires forall b :: b in rest ==> b in live + virt
    ensures rest == more + beyond && (beyond == [] || beyond[0] in virt)
    ensures forall b :: b in more ==> b in live && b in rest
    ensures rest == [] || rest[0] in virt ==> more == []
    decreases |rest|
  {
    if rest == [] || rest[0] in virt {
      more, beyond := [], rest;
    } else {
      assert rest[0] in rest && rest == [rest[0]] + rest[1..];
      more, beyond := UpToMasked(rest[1..], live, virt);
      more := [rest[0]] + more;
    }
  }

  lemma {:induction false} PendingStart(n: nat, alloc: set<nat>)
    requires n >= 1
    ensures Node(n, 1) && Pending(n, alloc, [], 1, InOrder(n, alloc, 1))
  {
    RootSpan(n);
    var all := InOrder(n, alloc, 1);
    assert InOrderAfter(n, alloc, 1) == [];
    assert [] + (all + []) == all;
  }

  lemma {:induction false} DescribesNone(main: nat, unit: nat, n: nat)
    ensures Describes(main, unit, n, [], [])
  {
  }

  lemma {:induction false} DescribesAppend(main: nat, unit: nat, n: nat, nodes: seq<nat>, report: seq<Block>, b: nat)
    requires Describes(main, unit, n, nodes, report) && Node(n, b)
    ensures Describes(main, unit, n, nodes + [b], report + [BlockOf(main, unit, n, b)])
  {
  }
}
