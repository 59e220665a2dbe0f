/**
  The buddy tree itself: unary statuses packed into a byte array, read and written bit by bit.
  The ghost fields `st` and `alloc` are the two abstractions it refines: the status of every
  node, and the set of directly allocated nodes.
*/
module BuddyTree {
  import opened Arith
  import opened Bitset
  import opened BuddyLayout
  import opened BuddyStatus

  // ----- unary numbers in a bit sequence

  /** The bits `loc..loc + w - 1` hold `v` in unary: `v` ones, then zeros. */
  ghost predicate Unary(s: seq<bool>, loc: int, w: int, v: int) {
    && 0 <= loc && 0 <= v <= w && loc + w <= |s|
    && forall b :: loc <= b < loc + w ==> s[b] == (b < loc + v)
  }

  /** The bit sequence holds the status of every node at its own place. */
  ghost predicate Encodes(n: nat, s: seq<bool>, st: seq<nat>)
    requires |st| == Pow2(n)
  {
    forall i: nat {:trigger NodeBits(n, s, st, i)} :: Node(n, i) ==> NodeBits(n, s, st, i)
  }

  /** The bits of node `i` hold its status. */
  ghost predicate NodeBits(n: nat, s: seq<bool>, st: seq<nat>, i: nat)
    requires |st| == Pow2(n) && Node(n, i)
  {
    Unary(s, Loc(n, i), Width(n, i), st[i])
  }

  lemma {:induction false} UnaryCount(s: seq<bool>, loc: nat, w: nat, v: nat, hi: nat)
    requires Unary(s, loc, w, v) && loc <= hi <= loc + w
    ensures CountTrue(s, loc, hi) == if hi <= loc + v then hi - loc else v
    decreases hi
  {
    if hi > loc {
      UnaryCount(s, loc, w, v, hi - 1);
    }
  }

  /** Rewriting the bits of one node changes the status of that node only. */
  lemma {:induction false} WriteEncodes(n: nat, s: seq<bool>, t: seq<bool>, st: seq<nat>, i: nat, v: nat)
    requires |st| == Pow2(n) && Node(n, i) && Encodes(n, s, st) && |s| == |t|
    requires Unary(t, Loc(n, i), Width(n, i), v)
    requires forall b :: 0 <= b < |s| && !(Loc(n, i) <= b < Loc(n, i) + Width(n, i)) ==> t[b] == s[b]
    ensures Encodes(n, t, st[i := v])
  {
    forall j: nat | Node(n, j) ensures NodeBits(n, t, st[i := v], j) {
      assert NodeBits(n, s, st, j);
      if j < i {
        LocOrdered(n, j, i);
      } else if i < j {
        LocOrdered(n, i, j);
      }
    }
  }

  /** Bit sequences that encode the same statuses agree on every bit of the tree. */
  lemma {:induction false} EncodesDetermines(n: nat, s: seq<bool>, t: seq<bool>, st: seq<nat>, b: nat)
    requires |st| == Pow2(n) && Encodes(n, s, st) && Encodes(n, t, st) && b < TotalBits(n)
    requires TotalBits(n) <= |s| && TotalBits(n) <= |t|
    ensures s[b] == t[b]
  {
    var i := OwnerOf(n, b, Pow2(n));
    assert NodeBits(n, s, st, i) && NodeBits(n, t, st, i);
  }

  /** The bits are a function of the allocated nodes: release after mark restores them bit for bit. */
  lemma {:induction false} SameBlocksSameBits(n: nat, s: seq<bool>, t: seq<bool>, u: seq<nat>, v: seq<nat>,
                                              alloc: set<nat>)
    requires Exact(n, u, alloc) && Exact(n, v, alloc) && Encodes(n, s, u) && Encodes(n, t, v)
    requires TotalBits(n) <= |s| && SameTail(n, s, t)
    ensures s == t
  {
    ExactUnique(n, u, v, alloc);
    forall b | 0 <= b < |s| ensures s[b] == t[b] {
      if b < TotalBits(n) {
        EncodesDetermines(n, s, t, u, b);
      }
    }
  }

  /** Every bit before the location of node `hi` belongs to an earlier node. */
  lemma {:induction false} OwnerOf(n: nat, b: nat, hi: nat) returns (i: nat)
    requires 1 <= hi <= Pow2(n) && b < Loc(n, hi)
    ensures Node(n, i) && i < hi && Loc(n, i) <= b < Loc(n, i) + Width(n, i)
    decreases hi
  {
    LocFirst(n);
    LocNext(n, hi - 1);
    if b < Loc(n, hi - 1) {
      i := OwnerOf(n, b, hi - 1);
    } else {
      i := hi - 1;
    }
  }

  lemma {:induction false} SiblingLoc(n: nat, i: nat)
    requires Node(n, i) && i > 1
    ensures Node(n, Sibling(i)) && Width(n, Sibling(i)) == Width(n, i) >= 1
    ensures Loc(n, Sibling(i)) == if i % 2 == 1 then Loc(n, i) - Width(n, i) else Loc(n, i) + Width(n, i)
  {
    SiblingNode(n, i);
    DepthRange(n, i);
    DepthRange(n, Sibling(i));
    DepthHalf(i, i / 2);
    DepthHalf(Sibling(i), i / 2);
    LocNext(n, if i % 2 == 1 then i - 1 else i);
  }

  lemma {:induction false} ChildPlaces(n: nat, i: nat, left: nat, right: nat)
    requires Node(n, i) && Depth(i) < n && left == 2 * i && right == 2 * i + 1
    ensures Node(n, left) && Node(n, right)
    ensures Depth(left) == Depth(right) == Depth(i) + 1
    ensures Loc(n, right) == Loc(n, left) + Width(n, left)
  {
    ChildNodes(n, i);
    LocNext(n, left);
  }

  lemma {:induction false} ChainUnfold(n: nat, st: seq<nat>, i: nat, cur: nat, target: nat)
    requires |st| == Pow2(n) && Node(n, i) && i > 1 && Node(n, Sibling(i)) && Node(n, i / 2)
    requires target == Combine(cur, st[Sibling(i)])
    ensures Chain(n, st, i, cur) == if target == st[i / 2] then st else Chain(n, st[i / 2 := target], i / 2, target)
  {
  }

  /** Reads a unary number: a fast test of the first bit, then a count of the range. */
  method ReadUnary(bits: array<bv8>, internal: Internal, ghost v: nat) returns (r: nat)
    requires internal.localOffset >= 1
    requires Unary(Bits(bits[..]), internal.location, internal.localOffset, v)
    ensures r == v
  {
    var first := Test(bits, internal.location);
    if !first {
      return 0;
    }
    r := CountRange(bits, internal.location, internal.location + internal.localOffset - 1);
    UnaryCount(Bits(bits[..]), internal.location, internal.localOffset, v, internal.location + internal.localOffset);
  }

  /** Clears the range, then sets its first `value` bits. */
  method WriteUnary(bits: array<bv8>, internal: Internal, value: nat)
    requires internal.localOffset >= 1 && value <= internal.localOffset
    requires internal.location + internal.localOffset <= 8 * bits.Length
    modifies bits
    ensures Unary(Bits(bits[..]), internal.location, internal.localOffset, value)
    ensures forall b :: 0 <= b < 8 * bits.Length ==>
      (internal.location <= b < internal.location + internal.localOffset)
      || Bits(bits[..])[b] == old(Bits(bits[..]))[b]
  {
    FillRange(bits, internal.location, internal.location + internal.localOffset - 1, false);
    if value != 0 {
      FillRange(bits, internal.location, internal.location + value - 1, true);
    }
  }

  /** The location of the sibling, computed from the parity of the index. */
  function SiblingLocation(internal: Internal, index: nat): int {
    internal.location + internal.localOffset - 2 * internal.localOffset * (index % 2)
  }

  lemma {:induction false} SiblingLocationIsLoc(n: nat, internal: Internal, i: nat)
    requires Node(n, i) && i > 1 && internal.localOffset == Width(n, i) && internal.location == Loc(n, i)
    ensures Node(n, Sibling(i)) && SiblingLocation(internal, i) == Loc(n, Sibling(i))
    ensures Width(n, Sibling(i)) == internal.localOffset >= 1
  {
    SiblingLoc(n, i);
    if i % 2 == 1 {
      assert 2 * internal.localOffset * 1 == 2 * internal.localOffset;
    } else {
      assert 2 * internal.localOffset * 0 == 0;
    }
  }

  datatype ReleaseResult = Released | PartiallyUsed

  class Tree {
    var order: nat
    var upperPosBound: nat
    var sizes: seq<nat>
    const bits: array<bv8>
    ghost var st: seq<nat>
    ghost var alloc: set<nat>

    /** The memo table, the bound and the bits agree with the order and the statuses. */
    ghost predicate Layout()
      reads this, bits
    {
      && order >= 1
      && upperPosBound == Pow2(order)
      && Memo()
      && TotalBits(order) <= 8 * bits.Length
      && |st| == Pow2(order)
      && Encodes(order, Bits(bits[..]), st)
    }

    /** The memo table holds the row starts of this order. */
    ghost predicate Memo()
      reads this
    {
      |sizes| == order + 1 && forall k :: 0 <= k <= order ==> sizes[k] == RowStart(order, k)
    }

    ghost predicate Valid()
      reads this, bits
    {
      Layout() && Exact(order, st, alloc)
    }

    /** `buddy_tree_populate_size_for_order` */
    method PopulateSizes()
      modifies `sizes
      ensures Memo()
    {
      var table := [];
      for i: nat := 0 to order + 1
        invariant |table| == i
        invariant forall k :: 0 <= k < i ==> table[k] == RowStart(order, k)
      {
        var size := SizeForOrder(order, i);
        table := table + [size];
      }
      sizes := table;
    }

    /** `buddy_tree_init` on zeroed memory of sufficient size. */
    constructor (order: nat, memory: array<bv8>)
      requires order >= 1 && TotalBits(order) <= 8 * memory.Length
      requires forall k :: 0 <= k < memory.Length ==> memory[k] == 0
      ensures Valid() && this.order == order && bits == memory
      ensures alloc == {} && st == Zeros(order)
    {
      this.order := order;
      upperPosBound := Pow2(order);
      bits := memory;
      sizes := [];
      st := Zeros(order);
      alloc := {};
      new;
      EmptyExact(order);
      ZeroEncodes(order, memory[..]);
      PopulateSizes();
    }

    /** `buddy_tree_valid` */
    predicate InTree(pos: Pos)
      reads this
    {
      pos.index != 0 && pos.index < upperPosBound
    }

    /** `buddy_tree_internal_position_tree`: location from the memo table. */
    method InternalPositionTree(pos: Pos) returns (r: Internal)
      requires Memo() && ValidPos(order, pos)
      ensures PlaceOf(r, pos.index) && r.localOffset >= 1
    {
      PlaceInRowIsLoc(order, pos);
      var w := order - pos.depth + 1;
      r := PlaceInRow(sizes[w], w, pos.index - Pow2(pos.depth - 1));
    }

    /** `internal` is the place of node `i`. */
    ghost predicate PlaceOf(internal: Internal, i: nat)
      reads this
    {
      Node(order, i) && internal.localOffset == Width(order, i) && internal.location == Loc(order, i)
    }

    /** `read_from_internal_position` yields the status of the node. */
    method Read(internal: Internal, ghost i: nat) returns (v: nat)
      requires Layout() && PlaceOf(internal, i)
      ensures v == st[i] && v <= internal.localOffset
    {
      LocInBounds(order, i);
      assert NodeBits(order, Bits(bits[..]), st, i);
      v := ReadUnary(bits, internal, st[i]);
    }

    /** `compare_with_internal_position`: the single bit says "status at least `value`". */
    method Compare(internal: Internal, value: nat, ghost i: nat) returns (r: bool)
      requires Layout() && PlaceOf(internal, i) && 1 <= value <= internal.localOffset
      ensures r == (st[i] >= value)
    {
      LocInBounds(order, i);
      assert NodeBits(order, Bits(bits[..]), st, i);
      r := Test(bits, internal.location + value - 1);
    }

    /** `write_to_internal_position` changes the status of this node and nothing else. */
    method Write(internal: Internal, value: nat, ghost i: nat)
      requires Layout() && PlaceOf(internal, i) && value <= internal.localOffset
      modifies bits, `st
      ensures Layout() && st == old(st)[i := value]
      ensures SameTail(order, old(Bits(bits[..])), Bits(bits[..]))
    {
      LocInBounds(order, i);
      ghost var s := Bits(bits[..]);
      WriteUnary(bits, internal, value);
      WriteEncodes(order, s, Bits(bits[..]), st, i, value);
      st := st[i := value];
    }

    /** `buddy_tree_status` */
    method Status(pos: Pos) returns (v: nat)
      requires Layout() && ValidPos(order, pos)
      ensures v == st[pos.index] && v <= Width(order, pos.index)
    {
      var internal := InternalPositionTree(pos);
      v := Read(internal, pos.index);
    }

    /** Reads the sibling of a node and then its parent. */
    method ReadSiblingAndParent(pos: Pos, internal: Internal)
      returns (sizeSibling: nat, parent: Pos, parentInternal: Internal, sizeParent: nat)
      requires Layout() && ValidPos(order, pos) && pos.index > 1 && PlaceOf(internal, pos.index)
      ensures Node(order, Sibling(pos.index)) && sizeSibling == st[Sibling(pos.index)]
      ensures sizeSibling <= internal.localOffset
      ensures parent == Pos(pos.index / 2, pos.depth - 1) && ValidPos(order, parent)
      ensures PlaceOf(parentInternal, parent.index) && parentInternal.localOffset == internal.localOffset + 1
      ensures sizeParent == st[parent.index]
    {
      ParentNode(order, pos.index);
      SiblingLocationIsLoc(order, internal, pos.index);
      var sibling := Internal(internal.localOffset, SiblingLocation(internal, pos.index));
      assert PlaceOf(sibling, Sibling(pos.index));
      sizeSibling := Read(sibling, Sibling(pos.index));
      parent := Pos(pos.index / 2, pos.depth - 1);
      parentInternal := InternalPositionTree(parent);
      sizeParent := Read(parentInternal, parent.index);
    }

    /** `update_parent_chain` */
    method UpdateParentChain(pos0: Pos, internal0: Internal, size0: nat)
      requires Layout() && ValidPos(order, pos0) && PlaceOf(internal0, pos0.index)
      requires size0 == st[pos0.index] && size0 <= internal0.localOffset
      modifies bits, `st
      ensures Layout() && st == Chain(order, old(st), pos0.index, size0)
      ensures SameTail(order, old(Bits(bits[..])), Bits(bits[..]))
    {
      var pos, internal := pos0, internal0;
      var sizeCurrent: nat := size0;
      ghost var s0 := Bits(bits[..]);
      while pos.index != 1
        invariant Layout() && ValidPos(order, pos) && PlaceOf(internal, pos.index)
        invariant sizeCurrent <= internal.localOffset
        invariant Chain(order, old(st), pos0.index, size0) == Chain(order, st, pos.index, sizeCurrent)
        invariant SameTail(order, s0, Bits(bits[..]))
        decreases pos.index
      {
        var sizeSibling, parent, parentInternal, sizeParent := ReadSiblingAndParent(pos, internal);
        var target: nat := if sizeCurrent != 0 || sizeSibling != 0
                      then (if sizeCurrent <= sizeSibling then sizeCurrent else sizeSibling) + 1 else 0;
        ChainUnfold(order, st, pos.index, sizeCurrent, target);
        if target == sizeParent {
          return;
        }
        pos := parent;
        internal := parentInternal;
        Write(internal, target, pos.index);
        sizeCurrent := target;
      }
    }

    /** `buddy_tree_mark`: what it does to the statuses, at any position. */
    method MarkStatuses(pos: Pos)
      requires Layout() && ValidPos(order, pos)
      modifies bits, `st
      ensures Layout() && st == MarkStatus(order, old(st), pos.index)
      ensures SameTail(order, old(Bits(bits[..])), Bits(bits[..]))
    {
      var internal := InternalPositionTree(pos);
      Write(internal, internal.localOffset, pos.index);
      UpdateParentChain(pos, internal, internal.localOffset);
    }

    /** `buddy_tree_mark` of an available position. */
    method Mark(pos: Pos)
      requires Valid() && ValidPos(order, pos) && Available(alloc, pos.index)
      modifies bits, `st, `alloc
      ensures Valid() && alloc == old(alloc) + {pos.index}
      ensures SameTail(order, old(Bits(bits[..])), Bits(bits[..]))
    {
      MarkExact(order, st, alloc, pos.index);
      alloc := alloc + {pos.index};
      MarkStatuses(pos);
    }

    /** `buddy_tree_release`: what it does to the statuses, at any position. */
    method ReleaseStatuses(pos: Pos) returns (result: ReleaseResult)
      requires Layout() && ValidPos(order, pos)
      modifies bits, `st
      ensures Layout()
      ensures result == (if old(st)[pos.index] == Width(order, pos.index) then Released else PartiallyUsed)
      ensures result.Released? ==> st == ReleaseStatus(order, old(st), pos.index)
      ensures result.PartiallyUsed? ==> st == old(st) && bits[..] == old(bits[..])
      ensures SameTail(order, old(Bits(bits[..])), Bits(bits[..]))
    {
      var internal := InternalPositionTree(pos);
      var status := Read(internal, pos.index);
      if status != internal.localOffset {
        return PartiallyUsed;
      }
      Write(internal, 0, pos.index);
      UpdateParentChain(pos, internal, 0);
      return Released;
    }

    /** `buddy_tree_release`: the tree stays valid exactly if the position was allocated or not fully used. */
    method Release(pos: Pos) returns (result: ReleaseResult)
      requires Valid() && ValidPos(order, pos)
      modifies bits, `st, `alloc
      ensures Layout() && alloc == old(alloc) - {pos.index}
      ensures Valid() <==> pos.index in old(alloc) || old(st)[pos.index] != Width(order, pos.index)
      ensures !Valid() ==> !Describable(order, st)
      ensures result == (if old(st)[pos.index] == Width(order, pos.index) then Released else PartiallyUsed)
      ensures pos.index in old(alloc) ==> result.Released?
      ensures result.PartiallyUsed? ==> st == old(st) && bits[..] == old(bits[..])
      ensures SameTail(order, old(Bits(bits[..])), Bits(bits[..]))
    {
      hide Exact, MarkStatus, ReleaseStatus, Blocks;
      if pos.index in alloc {
        ReleaseExact(order, st, alloc, pos.index);
      } else {
        assert alloc - {pos.index} == alloc;
        if st[pos.index] == Width(order, pos.index) {
          ReleaseIff(order, st, alloc, pos.index);
        }
      }
      alloc := alloc - {pos.index};
      result := ReleaseStatuses(pos);
    }

    /** One step of the search: a child with something free `targetStatus` levels below it. */
    method PickChild(pos: Pos, targetStatus: nat) returns (next: Pos)
      requires Layout() && ValidPos(order, pos) && pos.depth < order && targetStatus < order - pos.depth
      requires Node(order, 2 * pos.index) && Node(order, 2 * pos.index + 1)
      requires st[2 * pos.index] <= targetStatus || st[2 * pos.index + 1] <= targetStatus
      ensures ValidPos(order, next) && next.depth == pos.depth + 1 && next.index / 2 == pos.index
      ensures st[next.index] <= targetStatus
    {
      var leftPos := Pos(2 * pos.index, pos.depth + 1);
      var rightPos := Pos(2 * pos.index + 1, pos.depth + 1);
      ChildPlaces(order, pos.index, leftPos.index, rightPos.index);
      var left := InternalPositionTree(leftPos);
      var right := Internal(left.localOffset, left.location + left.localOffset);
      assert PlaceOf(right, rightPos.index);
      var leftBusy := Compare(left, targetStatus + 1, leftPos.index);
      if leftBusy {
        return rightPos;
      }
      var rightBusy := Compare(right, targetStatus + 1, rightPos.index);
      if rightBusy {
        return leftPos;
      }
      var rightStatus := Read(right, rightPos.index);
      if rightStatus != 0 {
        var leftFuller := Compare(left, rightStatus, leftPos.index);
        return if leftFuller then leftPos else rightPos;
      }
      return leftPos;
    }

    /** `buddy_tree_find_free` finds an available position of the depth whenever there is one. */
    method FindFree(targetDepth: nat) returns (pos: Pos)
      requires Valid() && 1 <= targetDepth <= order
      ensures pos == INVALID_POS || (ValidPos(order, pos) && pos.depth == targetDepth && Available(alloc, pos.index))
      ensures pos == INVALID_POS <==>
        !exists d :: Node(order, d) && Depth(d) == targetDepth && Available(alloc, d)
    {
      RootStatus(order, st, alloc, targetDepth - 1);
      pos := ROOT;
      var targetStatus := targetDepth - 1;
      var currentDepth := 1;
      var rootStatus := Status(pos);
      if rootStatus > targetStatus {
        return INVALID_POS;
      }
      assert NoneAbove(alloc, 1);
      while currentDepth != targetDepth
        invariant ValidPos(order, pos) && pos.depth == currentDepth <= targetDepth
        invariant targetStatus == targetDepth - currentDepth
        invariant st[pos.index] <= targetStatus
        invariant NoneAbove(alloc, pos.index)
        decreases targetDepth - currentDepth
      {
        ghost var i := pos.index;
        NotAllocated(order, st, alloc, i, targetStatus);
        targetStatus := targetStatus - 1;
        currentDepth := currentDepth + 1;
        pos := PickChild(pos, targetStatus);
        assert NoneAbove(alloc, pos.index);
      }
      ZeroMeansAvailable(order, st, alloc, pos.index);
    }

    /** `buddy_tree_is_free` */
    method IsFree(pos0: Pos) returns (r: bool)
      requires Valid() && ValidPos(order, pos0)
      ensures r <==> Available(alloc, pos0.index)
    {
      ZeroIff(order, st, alloc, pos0.index);
      var status := Status(pos0);
      if status != 0 {
        return false;
      }
      ghost var child := pos0.index;
      var pos := Pos(pos0.index / 2, pos0.depth - 1);
      while InTree(pos)
        invariant pos.index == child / 2 && pos.depth == Depth(child) - 1
        invariant Node(order, child) && Under(child, pos0.index) && st[child] == 0
        decreases pos.index
      {
        ParentNode(order, child);
        assert Under(pos.index, child);
        UnderTrans(pos.index, child, pos0.index);
        var internal := InternalPositionTree(pos);
        var value := Read(internal, pos.index);
        if value != 0 {
          FirstUsedAncestor(order, st, alloc, pos0.index, child);
          return value != internal.localOffset;
        }
        child := pos.index;
        pos := Pos(pos.index / 2, pos.depth - 1);
      }
      assert child == 1;
      ZeroIff(order, st, alloc, 1);
      forall a | a in alloc ensures false { UnderRoot(a); }
      return true;
    }
  }

  /** The bits behind the tree are the same in both sequences. */
  ghost predicate SameTail(n: nat, s: seq<bool>, t: seq<bool>) {
    |s| == |t| && forall b :: TotalBits(n) <= b < |s| ==> t[b] == s[b]
  }

  lemma {:induction false} ZeroEncodes(n: nat, bytes: seq<bv8>)
    requires TotalBits(n) <= 8 * |bytes| && forall k :: 0 <= k < |bytes| ==> bytes[k] == 0
    ensures Encodes(n, Bits(bytes), Zeros(n))
  {
    forall b | 0 <= b < 8 * |bytes| ensures !Bits(bytes)[b] {
      BitsAt(bytes, b / 8, b % 8);
      UniformByte(b % 8);
    }
    var st := Zeros(n);
    forall i: nat | Node(n, i) ensures NodeBits(n, Bits(bytes), st, i) {
      LocInBounds(n, i);
    }
  }

  /** No proper ancestor of `i` is allocated. */
  ghost predicate NoneAbove(alloc: set<nat>, i: nat) {
    forall a :: a in alloc && Under(a, i) ==> a == i
  }

  lemma {:induction false} ZeroMeansAvailable(n: nat, st: seq<nat>, alloc: set<nat>, i: nat)
    requires Exact(n, st, alloc) && Node(n, i) && st[i] == 0 && NoneAbove(alloc, i)
    ensures Available(alloc, i)
  {
    ZeroIff(n, st, alloc, i);
    assert i !in alloc by { assert Under(i, i); }
  }

  /** A node with something free `k >= 1` levels below it is unallocated, and so is the path on. */
  lemma {:induction false} NotAllocated(n: nat, st: seq<nat>, alloc: set<nat>, i: nat, k: nat)
    requires Exact(n, st, alloc) && Node(n, i) && st[i] <= k < Width(n, i) && k >= 1
    requires NoneAbove(alloc, i)
    ensures Depth(i) < n && Node(n, 2 * i) && Node(n, 2 * i + 1)
    ensures st[2 * i] <= k - 1 || st[2 * i + 1] <= k - 1
    ensures NoneAbove(alloc, 2 * i) && NoneAbove(alloc, 2 * i + 1)
  {
    assert LocalOk(n, st, alloc, i);
    ChildNodes(n, i);
  }

  /** An ancestor in use above a free child is allocated exactly when its status is full. */
  lemma {:induction false} FirstUsedAncestor(n: nat, st: seq<nat>, alloc: set<nat>, d: nat, child: nat)
    requires Exact(n, st, alloc) && Node(n, d) && Node(n, child) && child > 1
    requires Under(child, d) && st[child] == 0 && st[child / 2] != 0
    ensures Node(n, child / 2)
    ensures st[child / 2] != Width(n, child / 2) <==> Available(alloc, d)
  {
    ParentNode(n, child);
    var q := child / 2;
    assert Under(q, child);
    UnderTrans(q, child, d);
    assert LocalOk(n, st, alloc, q);
    ZeroIff(n, st, alloc, child);
    ZeroIff(n, st, alloc, q);
    if q in alloc {
      assert !Available(alloc, d);
    } else {
      SiblingNode(n, child);
      StatusBound(n, st, alloc, Sibling(child));
      DepthRange(n, child);
      assert st[q] == 1;
      assert Width(n, q) >= 2;
      var b :| b in alloc && Under(q, b);
      forall a | a in alloc ensures !Under(a, d) && !Under(d, a) {
        if Under(d, a) {
          UnderTrans(child, d, a);
        }
        if Under(a, d) {
          UnderLinear(a, child, d);
          if Under(a, child) && a != child {
            UnderTrans(a, q, b);
          }
        }
      }
    }
  }
}
