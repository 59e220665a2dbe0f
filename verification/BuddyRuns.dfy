/**
  Whole runs of the allocator: allocations, releases, reallocations and stores by the owners of
  the blocks, in any order. Blocks never overlap, and a block's bytes change only through its owner.
*/
module BuddyRuns {
  import opened Arith
  import opened BuddyLayout
  import opened BuddyStatus
  import opened BuddyArena

  /** The live blocks, the size each was last requested with, and the bytes of the arena. */
  datatype State = State(live: set<nat>, asked: map<nat, nat>, mem: seq<bv8>)

  /** One completed call of malloc, free or realloc, or a store into a live block. */
  datatype Op =
    | Allocate(b: nat, size: nat)
    | Release(b: nat)
    | Move(from: nat, to: nat, size: nat, copied: bool)
    | Store(b: nat, at: nat, value: bv8)

  /** The part of the allocator that never changes. */
  datatype Arena = Arena(unit: nat, n: nat, slots: nat, virt: set<nat>)

  ghost predicate WellFormed(a: Arena, s: State) {
    && a.unit >= 1
    && Partition(a.n, a.slots, s.live, a.virt)
    && |s.mem| >= Times(a.unit, a.slots)
    && forall b :: b in s.live ==> HoldsRequest(a, s.asked, b)
  }

  /** The block is at least as large as what was asked for. */
  ghost predicate HoldsRequest(a: Arena, asked: map<nat, nat>, b: nat) {
    Node(a.n, b) && b in asked && asked[b] <= BlockSize(a.unit, a.n, b)
  }

  /** What each operation does; the choice of the block is the allocator's. */
  ghost predicate Step(a: Arena, s: State, op: Op, s': State)
    requires WellFormed(a, s)
  {
    match op
    case Allocate(b, size) =>
      && Node(a.n, b) && Available(s.live + a.virt, b) && size <= BlockSize(a.unit, a.n, b)
      && s' == State(s.live + {b}, s.asked[b := size], s.mem)
    case Release(b) =>
      b in s.live && s' == s.(live := s.live - {b})
    case Move(from, to, size, copied) =>
      && from in s.live && Node(a.n, from) && Node(a.n, to) && Available(s.live - {from} + a.virt, to)
      && size <= BlockSize(a.unit, a.n, to)
      && s'.live == s.live - {from} + {to} && s'.asked == s.asked[to := size]
      && (if from == to || !copied then s'.mem == s.mem else Copied(a.unit, a.n, s.mem, s'.mem, from, to))
    case Store(b, at, value) =>
      && b in s.live && Node(a.n, b) && at < BlockSize(a.unit, a.n, b)
      && BlockOffset(a.unit, a.n, b) + at < |s.mem|
      && s' == s.(mem := s.mem[BlockOffset(a.unit, a.n, b) + at := value])
  }

  /** A malloc that keeps the partition valid has handed out an available block. */
  lemma {:induction false} FreshBlockWasAvailable(n: nat, slots: nat, live: set<nat>, virt: set<nat>, b: nat)
    requires b !in live && Partition(n, slots, live + {b}, virt)
    ensures Node(n, b) && Available(live + virt, b)
  {
    var alloc := live + {b} + virt;
    assert b in alloc && alloc - {b} == live + virt;
    RemovedAvailable(n, alloc, b);
  }

  lemma {:induction false} StepKeeps(a: Arena, s: State, op: Op, s': State)
    requires WellFormed(a, s) && Step(a, s, op, s')
    ensures WellFormed(a, s')
  {
    hide Partition, BlockOffset, BlockSize, Available, HoldsRequest;
    forall b | b in s'.live ensures HoldsRequest(a, s'.asked, b) {
      KeepsRequest(a, s, op, s', b);
    }
    match op
    case Allocate(b, _) =>
      PartitionAdd(a.n, a.slots, s.live, a.virt, b);
    case Release(b) =>
      PartitionRemove(a.n, a.slots, s.live, a.virt, b);
    case Move(from, to, _, _) =>
      PartitionRemove(a.n, a.slots, s.live, a.virt, from);
      PartitionAdd(a.n, a.slots, s.live - {from}, a.virt, to);
    case Store(b, at, value) =>
  }

  lemma {:induction false} KeepsRequest(a: Arena, s: State, op: Op, s': State, b: nat)
    requires WellFormed(a, s) && Step(a, s, op, s') && b in s'.live
    ensures HoldsRequest(a, s'.asked, b)
  {
    hide Partition, BlockOffset, BlockSize, Copied, Available;
    assert b in s.live ==> HoldsRequest(a, s.asked, b);
  }

  // ----- the calls are steps

  ghost function ArenaOf(b: Buddy): (a: Arena)
    reads b, b.tree
  {
    Arena(b.alignment, b.tree.order, b.slots, b.virt)
  }

  ghost function StateOf(b: Buddy, asked: map<nat, nat>): (s: State)
    reads b, b.arena
  {
    State(b.live, asked, b.arena[..])
  }

  /** The allocator is valid and each live block holds what it was asked for. */
  ghost predicate Ready(b: Buddy, asked: map<nat, nat>)
    reads b, b.tree, b.tree.bits, b.arena
  {
    b.Valid() && WellFormed(ArenaOf(b), StateOf(b, asked))
  }

  /** A call leaves everything as it was, or is the step `op`. */
  ghost predicate StepOf(a: Arena, s: State, op: Option<Op>, s': State)
    requires WellFormed(a, s)
  {
    match op
    case None => s' == s
    case Some(o) => Step(a, s, o, s')
  }

  /** Each successful `buddy_malloc` is an allocation step; each failing one changes nothing. */
  method MallocIsStep(b: Buddy, size: nat, ghost asked: map<nat, nat>)
    returns (r: Option<nat>, ghost op: Option<Op>, ghost asked': map<nat, nat>)
    requires Ready(b, asked) && size < SIZE_T
    modifies b`live, b.tree, b.tree.bits
    ensures Ready(b, asked') && ArenaOf(b) == old(ArenaOf(b))
    ensures StepOf(ArenaOf(b), old(StateOf(b, asked)), op, StateOf(b, asked'))
    ensures r.Some? <==> op.Some?
    ensures op.Some? ==>
      && op.value.Allocate? && op.value.size == size && Node(b.tree.order, op.value.b)
      && r.value == b.Address(op.value.b)
  {
    hide Available, Partition, BlockOffset, BlockSize, Geometry, Times, Exact;
    ghost var x;
    op, asked' := None, asked;
    r, x := b.Malloc(size);
    if r.Some? {
      op, asked' := Some(Allocate(x, size)), asked[x := size];
      FreshBlockWasAvailable(b.tree.order, b.slots, old(b.live), b.virt, x);
      StepKeeps(ArenaOf(b), old(StateOf(b, asked)), op.value, StateOf(b, asked'));
    }
  }

  /** The pointer is the address of block `x`. */
  ghost predicate PointsTo(b: Buddy, ptr: Option<nat>, x: nat)
    reads b, b.tree
  {
    Node(b.tree.order, x) && ptr == Some(b.Address(x))
  }

  /** Each `buddy_free` of a live block is its release; any other changes nothing. */
  method FreeIsStep(b: Buddy, ptr: Option<nat>, ghost asked: map<nat, nat>) returns (ghost op: Option<Op>)
    requires Ready(b, asked)
    modifies b`live, b.tree, b.tree.bits
    ensures Ready(b, asked) && ArenaOf(b) == old(ArenaOf(b))
    ensures StepOf(ArenaOf(b), old(StateOf(b, asked)), op, StateOf(b, asked))
    ensures forall x :: x in old(b.live) && old(PointsTo(b, ptr, x)) ==> op == Some(Release(x))
    ensures (forall x :: x in old(b.live) ==> !old(PointsTo(b, ptr, x))) ==> op == None
  {
    hide Available, Partition, BlockOffset, BlockSize, Geometry, Times, Exact;
    ghost var target := LiveAt(b, ptr);
    op := match target case None => None case Some(x) => Some(Release(x));
    b.Free(ptr);
    if target.Some? {
      assert b.live == old(b.live) - {target.value};
      StepKeeps(ArenaOf(b), old(StateOf(b, asked)), op.value, StateOf(b, asked));
    }
  }

  /** The live block that a pointer is the address of. */
  lemma {:induction false} LiveAt(b: Buddy, ptr: Option<nat>) returns (target: Option<nat>)
    requires b.Valid()
    ensures target.Some? ==> target.value in b.live && PointsTo(b, ptr, target.value)
    ensures forall x :: x in b.live && PointsTo(b, ptr, x) ==> target == Some(x)
  {
    target := None;
    if x :| x in b.live && PointsTo(b, ptr, x) {
      target := Some(x);
      forall y | y in b.live && PointsTo(b, ptr, y) ensures y == x {
        if y != x {
          OffsetUnique(b.alignment, b.tree.order, b.slots, b.live, b.virt, x, y);
        }
      }
    }
  }

  /**
    Each `buddy_realloc` of a live block is a move that copies unless told not to, a release for size
    zero, or changes nothing; on null it is an allocation.
  */
  method ReallocIsStep(b: Buddy, ptr: Option<nat>, size: nat, ignoreData: bool, ghost origin: nat,
                       ghost asked: map<nat, nat>)
    returns (r: Option<nat>, ghost op: Option<Op>, ghost asked': map<nat, nat>)
    requires Ready(b, asked) && size < SIZE_T
    requires ptr.Some? ==> origin in b.live && Node(b.tree.order, origin) && ptr.value == b.Address(origin)
    modifies b`live, b.tree, b.tree.bits, b.arena
    ensures Ready(b, asked') && ArenaOf(b) == old(ArenaOf(b))
    ensures StepOf(ArenaOf(b), old(StateOf(b, asked)), op, StateOf(b, asked'))
    ensures r.None? ==> op == if ptr.Some? && size == 0 then Some(Release(origin)) else None
    ensures r.Some? ==>
      exists to :: Node(b.tree.order, to) && r.value == b.Address(to) &&
        op == Some(if ptr.Some? then Move(origin, to, size, !ignoreData) else Allocate(to, size))
  {
    hide Available, Partition, BlockOffset, BlockSize, Copied, Geometry, Times, Exact;
    ghost var to;
    op, asked' := None, asked;
    r, to := b.Realloc(ptr, size, ignoreData, origin);
    if r.Some? {
      ghost var kept := if ptr.Some? then old(b.live) - {origin} else old(b.live);
      op := Some(if ptr.Some? then Move(origin, to, size, !ignoreData) else Allocate(to, size));
      asked' := asked[to := size];
      FreshBlockWasAvailable(b.tree.order, b.slots, kept, b.virt, to);
    } else if ptr.Some? && size == 0 {
      op := Some(Release(origin));
    }
    if op.Some? {
      StepKeeps(ArenaOf(b), old(StateOf(b, asked)), op.value, StateOf(b, asked'));
    }
  }

  // ----- what steps keep

  /** The bytes of a live block. */
  ghost function Contents(a: Arena, s: State, b: nat): (c: seq<bv8>)
    requires WellFormed(a, s) && b in s.live
  {
    LiveInside(a.unit, a.n, a.slots, s.live, a.virt, b);
    s.mem[BlockOffset(a.unit, a.n, b)..BlockOffset(a.unit, a.n, b) + BlockSize(a.unit, a.n, b)]
  }

  /** The operation is performed on behalf of the owner of `b`. */
  predicate ByOwner(op: Op, b: nat) {
    match op
    case Allocate(_, _) => false
    case Release(x) => x == b
    case Move(from, _, _, _) => from == b
    case Store(x, _, _) => x == b
  }

  /** Bytes apart from the target of a move are kept. */
  lemma {:induction false} MovedElsewhere(was: seq<bv8>, now: seq<bv8>, src: nat, dst: nat, len: nat, lo: nat, hi: nat)
    requires Moved(was, now, src, dst, len) && lo <= hi <= |was| && (hi <= dst || dst + len <= lo)
    ensures now[lo..hi] == was[lo..hi]
  {
    if hi <= dst {
      SlicePrefix(now, dst, lo, hi);
      SlicePrefix(was, dst, lo, hi);
    } else {
      SliceSuffix(now, dst + len, lo, hi);
      SliceSuffix(was, dst + len, lo, hi);
    }
  }

  lemma {:induction false} SlicePrefix(s: seq<bv8>, e: nat, lo: nat, hi: nat)
    requires lo <= hi <= e <= |s|
    ensures s[lo..hi] == s[..e][lo..hi]
  {
  }

  lemma {:induction false} SliceSuffix(s: seq<bv8>, e: nat, lo: nat, hi: nat)
    requires e <= lo <= hi <= |s|
    ensures s[lo..hi] == s[e..][lo - e..hi - e]
  {
  }

  lemma {:induction false} CopiedElsewhere(unit: nat, n: nat, was: seq<bv8>, now: seq<bv8>, from: nat, to: nat, b: nat)
    requires Node(n, from) && Node(n, to) && Node(n, b) && Copied(unit, n, was, now, from, to)
    requires BlockOffset(unit, n, b) + BlockSize(unit, n, b) <= |was|
    requires BlockOffset(unit, n, b) + BlockSize(unit, n, b) <= BlockOffset(unit, n, to)
          || BlockOffset(unit, n, to) + BlockSize(unit, n, to) <= BlockOffset(unit, n, b)
    ensures now[BlockOffset(unit, n, b)..BlockOffset(unit, n, b) + BlockSize(unit, n, b)]
         == was[BlockOffset(unit, n, b)..BlockOffset(unit, n, b) + BlockSize(unit, n, b)]
  {
    hide BlockOffset, BlockSize, Moved;
    var f, t, o, e := BlockSize(unit, n, from), BlockSize(unit, n, to), BlockOffset(unit, n, b), BlockSize(unit, n, b);
    MovedElsewhere(was, now, BlockOffset(unit, n, from), BlockOffset(unit, n, to), if f <= t then f else t, o, o + e);
  }

  /** Steps of others leave a block live and its bytes unchanged. */
  lemma {:induction false} StepIsolated(a: Arena, s: State, op: Op, s': State, b: nat)
    requires WellFormed(a, s) && Step(a, s, op, s') && b in s.live && !ByOwner(op, b)
    ensures WellFormed(a, s') && b in s'.live && Contents(a, s', b) == Contents(a, s, b)
  {
    hide Partition, BlockOffset, BlockSize, Copied, Available;
    StepKeeps(a, s, op, s');
    LiveInside(a.unit, a.n, a.slots, s.live, a.virt, b);
    match op
    case Allocate(_, _) =>
    case Release(_) =>
    case Move(from, to, _, copied) =>
      if from != to && copied {
        MoveTarget(a, s, from, to, b);
        LiveDisjoint(a.unit, a.n, a.slots, s'.live, a.virt, b, to);
        CopiedElsewhere(a.unit, a.n, s.mem, s'.mem, from, to, b);
      }
    case Store(x, at, value) =>
      LiveInside(a.unit, a.n, a.slots, s.live, a.virt, x);
      LiveDisjoint(a.unit, a.n, a.slots, s.live, a.virt, b, x);
  }

  /** The target of a move is not another live block. */
  lemma {:induction false} MoveTarget(a: Arena, s: State, from: nat, to: nat, b: nat)
    requires from in s.live && b in s.live && b != from && Available(s.live - {from} + a.virt, to)
    ensures b != to
  {
    assert b in s.live - {from} + a.virt && Under(b, b);
  }

  /** Realloc keeps the common prefix of the old and the new block. */
  lemma {:induction false} MoveKeepsPrefix(a: Arena, s: State, from: nat, to: nat, size: nat, s': State, k: nat)
    requires WellFormed(a, s) && Step(a, s, Move(from, to, size, true), s')
    requires k <= BlockSize(a.unit, a.n, from) && k <= BlockSize(a.unit, a.n, to)
    ensures WellFormed(a, s') && to in s'.live
    ensures k <= |Contents(a, s, from)| && k <= |Contents(a, s', to)|
    ensures Contents(a, s', to)[..k] == Contents(a, s, from)[..k]
  {
    hide Partition, BlockOffset, BlockSize, Copied, Available;
    StepKeeps(a, s, Move(from, to, size, true), s');
    ContentsPrefix(a, s, from, k);
    ContentsPrefix(a, s', to, k);
    if from != to {
      CopiedPrefix(a.unit, a.n, s.mem, s'.mem, from, to, k);
    }
  }

  lemma {:induction false} ContentsPrefix(a: Arena, s: State, b: nat, k: nat)
    requires WellFormed(a, s) && b in s.live && Node(a.n, b) && k <= BlockSize(a.unit, a.n, b)
    ensures BlockOffset(a.unit, a.n, b) + k <= |s.mem| && k <= |Contents(a, s, b)|
    ensures Contents(a, s, b)[..k] == s.mem[BlockOffset(a.unit, a.n, b)..BlockOffset(a.unit, a.n, b) + k]
  {
    hide Partition, BlockOffset, BlockSize;
    LiveInside(a.unit, a.n, a.slots, s.live, a.virt, b);
  }

  lemma {:induction false} CopiedPrefix(unit: nat, n: nat, was: seq<bv8>, now: seq<bv8>, from: nat, to: nat, k: nat)
    requires Node(n, from) && Node(n, to) && Copied(unit, n, was, now, from, to)
    requires k <= BlockSize(unit, n, from) && k <= BlockSize(unit, n, to)
    ensures BlockOffset(unit, n, from) + k <= |was| && BlockOffset(unit, n, to) + k <= |now|
    ensures now[BlockOffset(unit, n, to)..BlockOffset(unit, n, to) + k]
         == was[BlockOffset(unit, n, from)..BlockOffset(unit, n, from) + k]
  {
    hide BlockOffset, BlockSize;
    var f, t := BlockSize(unit, n, from), BlockSize(unit, n, to);
    var src, dst, len := BlockOffset(unit, n, from), BlockOffset(unit, n, to), if f <= t then f else t;
    assert now[dst..dst + k] == now[dst..dst + len][..k];
    assert was[src..src + k] == was[src..src + len][..k];
  }

  /** A run: states with the operations between them. */
  ghost predicate Run(a: Arena, ss: seq<State>, ops: seq<Op>) {
    && |ss| == |ops| + 1
    && WellFormed(a, ss[0])
    && forall i :: 0 <= i < |ops| ==> RunStep(a, ss, ops, i)
  }

  ghost predicate RunStep(a: Arena, ss: seq<State>, ops: seq<Op>, i: nat)
    requires i < |ops| < |ss|
  {
    WellFormed(a, ss[i]) ==> Step(a, ss[i], ops[i], ss[i + 1])
  }

  lemma {:induction false} RunKeeps(a: Arena, ss: seq<State>, ops: seq<Op>, k: nat)
    requires Run(a, ss, ops) && k < |ss|
    ensures WellFormed(a, ss[k])
  {
    if k > 0 {
      RunKeeps(a, ss, ops, k - 1);
      assert RunStep(a, ss, ops, k - 1);
      StepKeeps(a, ss[k - 1], ops[k - 1], ss[k]);
    }
  }

  /** At every point of every run, live blocks are disjoint, inside the arena, aligned and as large as asked for. */
  lemma {:induction false} RunSafe(a: Arena, ss: seq<State>, ops: seq<Op>, k: nat, x: nat, y: nat)
    requires Run(a, ss, ops) && k < |ss| && x in ss[k].live && y in ss[k].live
    ensures Node(a.n, x) && Node(a.n, y) && BlockSize(a.unit, a.n, x) >= a.unit
    ensures x in ss[k].asked && BlockSize(a.unit, a.n, x) >= ss[k].asked[x]
    ensures BlockOffset(a.unit, a.n, x) + BlockSize(a.unit, a.n, x) <= Times(a.unit, a.slots)
    ensures BlockOffset(a.unit, a.n, x) % BlockSize(a.unit, a.n, x) == 0
    ensures x != y ==>
      || BlockOffset(a.unit, a.n, x) + BlockSize(a.unit, a.n, x) <= BlockOffset(a.unit, a.n, y)
      || BlockOffset(a.unit, a.n, y) + BlockSize(a.unit, a.n, y) <= BlockOffset(a.unit, a.n, x)
  {
    RunKeeps(a, ss, ops, k);
    assert HoldsRequest(a, ss[k].asked, x);
    LiveInside(a.unit, a.n, a.slots, ss[k].live, a.virt, x);
    LiveInside(a.unit, a.n, a.slots, ss[k].live, a.virt, y);
    if x != y {
      LiveDisjoint(a.unit, a.n, a.slots, ss[k].live, a.virt, x, y);
    }
  }

  /** Over any run without operations by its owner, a block stays live and keeps its bytes. */
  lemma {:induction false} RunIsolated(a: Arena, ss: seq<State>, ops: seq<Op>, b: nat, k: nat)
    requires Run(a, ss, ops) && k < |ss| && b in ss[0].live
    requires forall i :: 0 <= i < k ==> !ByOwner(ops[i], b)
    ensures WellFormed(a, ss[k]) && b in ss[k].live
    ensures Contents(a, ss[k], b) == Contents(a, ss[0], b)
  {
    hide Contents, Step, WellFormed, ByOwner;
    if k > 0 {
      RunIsolated(a, ss, ops, b, k - 1);
      assert RunStep(a, ss, ops, k - 1);
      StepIsolated(a, ss[k - 1], ops[k - 1], ss[k], b);
    }
  }
}
