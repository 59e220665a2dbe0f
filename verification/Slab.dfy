/** The slab allocator of mm/slab.c for requests that fit a bucket; free lists run through the free slots. */
module Slab {
  import opened Arith

  const BASE: nat := 0xffff_9000_0000_0000
  const ADDRESSES: nat := 0x1_0000_0000_0000_0000
  const PAGE: nat := 4096
  const HEADER: nat := 32
  const BUCKETS: seq<nat> := [16, 32, 64, 128, 256, 512, 1024, 2048]

  // ----- words in memory

  function Bytes(v: nat, n: nat): (r: seq<byte>)
    ensures |r| == n
  {
    if n == 0 then [] else [(v % 256) as byte] + Bytes(v / 256, n - 1)
  }

  function Value(s: seq<byte>): (v: nat) {
    if s == [] then 0 else s[0] as int + 256 * Value(s[1..])
  }

  lemma {:induction false} ValueOfBytes(v: nat, n: nat)
    requires v < Pow2(8 * n)
    ensures Value(Bytes(v, n)) == v
    decreases n
  {
    if n > 0 {
      var s := Bytes(v, n);
      assert s[1..] == Bytes(v / 256, n - 1);
      assert Pow2(8 * n) == 256 * Pow2(8 * (n - 1)) by {
        Pow2Add(8, 8 * (n - 1));
        assert Pow2(8) == 256;
      }
      ValueOfBytes(v / 256, n - 1);
    }
  }

  lemma {:induction false} PointerRoundTrip(v: nat)
    requires v < ADDRESSES
    ensures Value(Bytes(v, 8)) == v
  {
    assert Pow2(8) == 256;
    Pow2Add(8, 8);
    Pow2Add(16, 16);
    Pow2Add(32, 32);
    ValueOfBytes(v, 8);
  }

  function Overwrite(heap: seq<byte>, at: nat, data: seq<byte>): (r: seq<byte>)
    requires at + |data| <= |heap|
    ensures |r| == |heap|
  {
    heap[..at] + data + heap[at + |data|..]
  }

  lemma {:induction false} OverwriteSame(heap: seq<byte>, at: nat, data: seq<byte>)
    requires at + |data| <= |heap|
    ensures Overwrite(heap, at, data)[at..at + |data|] == data
  {
  }

  lemma {:induction false} OverwriteElsewhere(heap: seq<byte>, at: nat, data: seq<byte>, lo: nat, hi: nat)
    requires at + |data| <= |heap| && lo <= hi <= |heap| && (hi <= at || at + |data| <= lo)
    ensures Overwrite(heap, at, data)[lo..hi] == heap[lo..hi]
  {
    var r, e := Overwrite(heap, at, data), at + |data|;
    forall i | lo <= i < hi ensures r[i] == heap[i] {
      if i >= e {
        assert r[i] == heap[e..][i - e];
      }
    }
  }

  function Word(heap: seq<byte>, at: nat): (v: nat)
    requires at + 8 <= |heap|
  {
    Value(heap[at..at + 8])
  }

  // ----- slots

  predicate BucketSize(size: nat) {
    size == 16 || size == 32 || size == 64 || size == 128 || size == 256 || size == 512 || size == 1024 || size == 2048
  }

  function FirstSlot(page: nat): (a: nat) {
    BASE + page * PAGE + HEADER
  }

  function Capacity(size: nat): (n: nat)
    requires size > 0
  {
    (PAGE - HEADER) / size
  }

  /** `a` is the address of a slot in the page. */
  predicate IsSlot(page: nat, size: nat, a: nat)
    requires size > 0
  {
    FirstSlot(page) <= a && a + size <= BASE + page * PAGE + PAGE && (a - FirstSlot(page)) % size == 0
  }

  /** The page an address lies in: `ptr & ~0xFFF`. */
  function PageOf(ptr: nat): (page: nat)
    requires ptr >= BASE
  {
    (ptr - BASE) / PAGE
  }

  lemma {:induction false} SlotPage(page: nat, size: nat, a: nat)
    requires size > 0 && IsSlot(page, size, a)
    ensures a >= BASE && PageOf(a) == page && a >= BASE + page * PAGE + HEADER
  {
    DivUnique(a - BASE, PAGE, page, a - BASE - page * PAGE);
  }

  /** Slots are 16-byte aligned. */
  lemma {:induction false} SlotAligned(page: nat, size: nat, a: nat)
    requires BucketSize(size) && IsSlot(page, size, a)
    ensures a % 16 == 0
  {
    var d := a - FirstSlot(page);
    assert d % 16 == 0 by { MultipleOf16(d, size); }
    assert FirstSlot(page) == 16 * (BASE / 16 + page * 256 + 2);
    DivUnique(a, 16, BASE / 16 + page * 256 + 2 + d / 16, 0);
  }

  lemma {:induction false} MultipleOf16(d: nat, size: nat)
    requires BucketSize(size) && d % size == 0
    ensures d % 16 == 0
  {
    var q, m := d / size, size / 16;
    assert size == 16 * m && d == size * q;
    assert d == 16 * (m * q);
    DivUnique(d, 16, m * q, 0);
  }

  /** Different slots do not overlap. */
  lemma {:induction false} SlotsApart(page: nat, size: nat, a: nat, page': nat, size': nat, b: nat)
    requires size > 0 && size' > 0 && IsSlot(page, size, a) && IsSlot(page', size', b)
    requires a != b && (page == page' ==> size == size')
    ensures a + size <= b || b + size' <= a
  {
    if page == page' {
      var x, y := a - FirstSlot(page), b - FirstSlot(page);
      if x < y {
        Congruent(x, y, size);
      } else {
        Congruent(y, x, size);
      }
    } else {
      assert page < page' ==> page * PAGE + PAGE <= page' * PAGE;
      assert page' < page ==> page' * PAGE + PAGE <= page * PAGE;
    }
  }

  lemma {:induction false} Congruent(x: nat, y: nat, size: nat)
    requires size > 0 && x < y && x % size == 0 && y % size == 0
    ensures x + size <= y
  {
    var p, q := x / size, y / size;
    assert x == size * p && y == size * q;
    if q <= p {
      MulMono(size, q, p);
    } else {
      MulMono(size, p + 1, q);
      assert size * (p + 1) == size * p + size;
    }
  }

  /** All slots of a page in address order. */
  function SlotList(start: nat, size: nat, n: nat): (r: seq<nat>)
    ensures |r| == n
    decreases n
  {
    if n == 0 then [] else [start] + SlotList(start + size, size, n - 1)
  }

  lemma {:induction false} SlotListAt(start: nat, size: nat, n: nat, i: nat)
    requires i < n
    ensures SlotList(start, size, n)[i] == start + i * size
    decreases n
  {
    if i > 0 {
      SlotListAt(start + size, size, n - 1, i - 1);
      assert start + size + (i - 1) * size == start + i * size;
    }
  }

  /** The list of a fresh slab holds exactly the slots of the page, each once. */
  lemma {:induction false} FreshSlots(page: nat, size: nat)
    requires BucketSize(size)
    ensures var l := SlotList(FirstSlot(page), size, Capacity(size));
      && (forall i :: 0 <= i < |l| ==> IsSlot(page, size, l[i]))
      && (forall i, j :: 0 <= i < j < |l| ==> l[i] != l[j])
      && (forall a: nat :: IsSlot(page, size, a) ==> a in l)
  {
    var first, n := FirstSlot(page), Capacity(size);
    var l := SlotList(first, size, n);
    forall i | 0 <= i < n ensures l[i] == first + i * size && IsSlot(page, size, l[i]) {
      SlotListAt(first, size, n, i);
      InPage(size, n, i);
      DivUnique(i * size, size, i, 0);
    }
    forall i, j | 0 <= i < j < n ensures l[i] != l[j] {
      MulMono(size, i + 1, j);
      assert size * (i + 1) == i * size + size && size * j == j * size;
    }
    forall a: nat | IsSlot(page, size, a) ensures a in l {
      var d := a - first;
      var i := d / size;
      assert d == i * size;
      IndexBelow(size, n, d, i);
      assert l[i] == a;
    }
  }

  lemma {:induction false} InPage(size: nat, n: nat, i: nat)
    requires size > 0 && n == Capacity(size) && i < n
    ensures HEADER + i * size + size <= PAGE
  {
    MulMono(size, i + 1, n);
    assert size * (i + 1) == i * size + size && size * n <= PAGE - HEADER;
  }

  lemma {:induction false} IndexBelow(size: nat, n: nat, d: nat, i: nat)
    requires size > 0 && n == Capacity(size) && d == i * size && HEADER + d + size <= PAGE
    ensures i < n
  {
    assert size * n > PAGE - HEADER - size;
    if i >= n {
      MulMono(size, n, i);
    }
  }

  // ----- pages with their free lists

  datatype Header = Header(next: Option<nat>, freeList: nat, slotSize: nat, slotsFree: nat)

  /** Following the links from `head` visits exactly the slots of `l`; 0 ends the list. */
  ghost predicate Chain(heap: seq<byte>, head: nat, l: seq<nat>)
    decreases |l|
  {
    if l == [] then head == 0
    else head == l[0] && InHeap(heap, l[0]) && Chain(heap, Word(heap, l[0] - BASE), l[1..])
  }

  predicate InHeap(heap: seq<byte>, a: nat) {
    BASE <= a && a - BASE + 8 <= |heap|
  }

  lemma {:induction false} ChainKept(heap: seq<byte>, heap': seq<byte>, head: nat, l: seq<nat>)
    requires Chain(heap, head, l) && |heap| <= |heap'|
    requires forall a :: a in l && InHeap(heap, a) ==> heap'[a - BASE..a - BASE + 8] == heap[a - BASE..a - BASE + 8]
    ensures Chain(heap', head, l)
    decreases |l|
  {
    if l != [] {
      assert l[0] in l;
      ChainKept(heap, heap', Word(heap, l[0] - BASE), l[1..]);
    }
  }

  /** The free list of page `k` is a proper list of slots; every slot is live or on it. */
  ghost predicate PageOk(heap: seq<byte>, h: Header, l: seq<nat>, live: set<nat>, k: nat) {
    && BucketSize(h.slotSize) && h.slotsFree == |l| && Chain(heap, h.freeList, l) && NoDup(l)
    && (forall a :: a in l ==> IsSlot(k, h.slotSize, a) && a !in live)
    && (forall a: nat :: IsSlot(k, h.slotSize, a) ==> a in live || a in l)
  }

  ghost predicate PagesOk(heap: seq<byte>, headers: seq<Header>, lists: seq<seq<nat>>, live: set<nat>) {
    && |heap| == PAGE * |headers| && |lists| == |headers|
    && forall k :: 0 <= k < |headers| ==> PageOk(heap, headers[k], lists[k], live, k)
  }

  ghost predicate AllLive(headers: seq<Header>, live: set<nat>) {
    forall a :: a in live ==> LiveOk(headers, a)
  }

  /** A live slot lies in a slab page. */
  ghost predicate LiveOk(headers: seq<Header>, a: nat) {
    && a >= BASE && PageOf(a) < |headers| && headers[PageOf(a)].slotSize > 0
    && IsSlot(PageOf(a), headers[PageOf(a)].slotSize, a)
  }

  /** The bytes of the slot at `a`. */
  function Contents(heap: seq<byte>, a: nat, size: nat): (r: seq<byte>)
    requires a >= BASE && a - BASE + size <= |heap|
  {
    heap[a - BASE..a - BASE + size]
  }

  lemma {:induction false} SlotInHeap(heap: seq<byte>, pages: nat, k: nat, size: nat, a: nat)
    requires |heap| == PAGE * pages && k < pages && size > 0 && IsSlot(k, size, a)
    ensures a >= BASE && a - BASE + size <= |heap|
  {
    assert k * PAGE + PAGE <= pages * PAGE;
  }

  /** Taking the first free slot. */
  lemma {:induction false} PageTake(heap: seq<byte>, h: Header, l: seq<nat>, live: set<nat>, k: nat)
    requires PageOk(heap, h, l, live, k) && l != []
    ensures InHeap(heap, h.freeList) && h.freeList == l[0] && h.slotsFree >= 1
    ensures PageOk(heap, h.(freeList := Word(heap, h.freeList - BASE), slotsFree := h.slotsFree - 1), l[1..], live + {l[0]}, k)
  {
    var l' := l[1..];
    forall i, j | 0 <= i < j < |l'| ensures l'[i] != l'[j] {
      assert l'[i] == l[i + 1] && l'[j] == l[j + 1];
    }
    forall a | a in l' ensures a in l && a != l[0] {
      var i :| 0 <= i < |l'| && l'[i] == a;
      assert a == l[i + 1];
    }
    forall a: nat | IsSlot(k, h.slotSize, a) ensures a in live + {l[0]} || a in l' {
      if a in l && a != l[0] {
        var i :| 0 <= i < |l| && l[i] == a;
        assert l'[i - 1] == a;
      }
    }
  }

  /** Pages keep their lists when slots of other pages come and go and the free slots are not written. */
  lemma {:induction false} PageKept(heap: seq<byte>, heap': seq<byte>, h: Header, l: seq<nat>, live: set<nat>,
                                    live': set<nat>, k: nat)
    requires PageOk(heap, h, l, live, k) && |heap| <= |heap'|
    requires forall a :: a in l && InHeap(heap, a) ==> heap'[a - BASE..a - BASE + 8] == heap[a - BASE..a - BASE + 8]
    requires forall a: nat :: IsSlot(k, h.slotSize, a) ==> (a in live' <==> a in live)
    ensures PageOk(heap', h, l, live', k)
  {
    ChainKept(heap, heap', h.freeList, l);
  }

  /** Giving a live slot back in front of the list. */
  lemma {:induction false} PagePut(heap: seq<byte>, heap': seq<byte>, h: Header, l: seq<nat>, live: set<nat>, k: nat,
                                   a: nat)
    requires PageOk(heap, h, l, live, k) && a in live && IsSlot(k, h.slotSize, a) && |heap'| == |heap|
    requires InHeap(heap, a) && Word(heap', a - BASE) == h.freeList
    requires forall x :: x in l && InHeap(heap, x) ==> heap'[x - BASE..x - BASE + 8] == heap[x - BASE..x - BASE + 8]
    ensures PageOk(heap', h.(freeList := a, slotsFree := h.slotsFree + 1), [a] + l, live - {a}, k)
  {
    var l' := [a] + l;
    ChainKept(heap, heap', h.freeList, l);
    assert l'[1..] == l;
    forall i, j | 0 <= i < j < |l'| ensures l'[i] != l'[j] {
      assert l'[j] == l[j - 1] && (i > 0 ==> l'[i] == l[i - 1]);
      assert l[j - 1] in l;
    }
  }

  /** The word in slot `i` of the list is the address of the next slot, or 0 in the last one. */
  ghost predicate LinkOk(heap: seq<byte>, l: seq<nat>, i: nat)
    requires i < |l|
  {
    InHeap(heap, l[i]) && Word(heap, l[i] - BASE) == if i + 1 < |l| then l[i + 1] else 0
  }

  /** Such links make the list. */
  lemma {:induction false} ChainOfLinks(heap: seq<byte>, l: seq<nat>, j: nat)
    requires j < |l| && forall i :: 0 <= i < |l| ==> LinkOk(heap, l, i)
    ensures Chain(heap, l[j], l[j..])
    decreases |l| - j
  {
    assert LinkOk(heap, l, j);
    assert l[j..][1..] == l[j + 1..];
    if j + 1 < |l| {
      ChainOfLinks(heap, l, j + 1);
    }
  }

  // ----- the allocator

  class Heap {
    var heap: seq<byte>
    var headers: seq<Header>
    var buckets: seq<Option<nat>>
    ghost var live: set<nat>
    ghost var lists: seq<seq<nat>>

    ghost predicate Pages()
      reads this
    {
      PagesOk(heap, headers, lists, live) && BASE + |heap| <= ADDRESSES
    }

    ghost predicate Valid()
      reads this
    {
      && Pages()
      && AllLive(headers, live)
      && |buckets| == 8
      && (forall i :: 0 <= i < 8 && buckets[i].Some? ==> buckets[i].value < |headers| && headers[buckets[i].value].slotSize == BUCKETS[i])
    }

    /** `init_slab` */
    constructor ()
      ensures Valid() && live == {} && heap == []
    {
      heap, headers, live, lists := [], [], {}, [];
      buckets := [None, None, None, None, None, None, None, None];
    }

    /** The size of the slot at a live address. */
    ghost function SlotSize(a: nat): (size: nat)
      requires LiveOk(headers, a)
      reads this
    {
      headers[PageOf(a)].slotSize
    }

    /** `heap_extend(1)` and the links of a fresh slab; the new page becomes the last one. */
    method NewSlab(size: nat, next: Option<nat>) returns (page: nat)
      requires Valid() && BucketSize(size) && BASE + |heap| + PAGE <= ADDRESSES
      modifies this`heap, this`headers, this`lists
      ensures Valid() && page == |old(headers)| && |headers| == page + 1 && old(headers) <= headers
      ensures headers[page].slotSize == size && lists[page] != []
      ensures old(heap) <= heap
    {
      hide PageOk, LiveOk, IsSlot, SlotList, Capacity, Chain, BucketSize, LinkOk;
      page := |headers|;
      ghost var was := heap;
      CapacityPositive(size);
      var first, n := FirstSlot(page), Capacity(size);
      ghost var all := SlotList(first, size, n);
      FreshSlots(page, size);
      SlotListAt(first, size, n, 0);
      heap := heap + Zeros(PAGE);
      WriteLinks(first, size, n, page, all);
      assert was == heap[..|was|];
      ChainOfLinks(heap, all, 0);
      assert all[0..] == all && all[0] == first;
      var h := Header(next, first, size, n);
      FreshPage(heap, h, all, live, headers, page);
      OldPages(was, heap, headers, lists, live, h, all);
      LiveKept(headers, headers + [h], live);
      headers := headers + [h];
      lists := lists + [all];
    }

    /** The loop that threads the free list through a fresh page. */
    method WriteLinks(first: nat, size: nat, n: nat, ghost page: nat, ghost l: seq<nat>)
      requires first == FirstSlot(page) && BucketSize(size) && l == SlotList(first, size, n)
      requires (forall i :: 0 <= i < n ==> IsSlot(page, size, l[i])) && NoDup(l)
      requires |heap| == PAGE * (page + 1) && BASE + |heap| <= ADDRESSES
      modifies this`heap
      ensures |heap| == |old(heap)| && heap[..PAGE * page] == old(heap)[..PAGE * page]
      ensures forall i :: 0 <= i < n ==> LinkOk(heap, l, i)
    {
      hide LinkOk, SlotList;
      ghost var m := PAGE * page;
      for i := 0 to n
        invariant |heap| == |old(heap)| && heap[..m] == old(heap)[..m]
        invariant forall j :: 0 <= j < i ==> LinkOk(heap, l, j)
      {
        SlotListAt(first, size, n, i);
        var current := first + i * size;
        var link := 0;
        if i + 1 < n {
          SlotListAt(first, size, n, i + 1);
          link := first + (i + 1) * size;
        }
        assert IsSlot(page, size, l[i]) && (i + 1 < n ==> IsSlot(page, size, l[i + 1]));
        ghost var before := heap;
        heap := Overwrite(heap, current - BASE, Bytes(link, 8));
        LinkWritten(before, heap, l, i, page, size, link);
        assert heap[..m] == before[..m];
      }
    }

    /** Takes the first slot off the free list of page `k`. */
    method Take(k: nat) returns (addr: nat)
      requires Valid() && k < |headers| && lists[k] != []
      modifies this`headers, this`live, this`lists
      ensures Valid() && addr !in old(live) && live == old(live) + {addr}
      ensures |headers| == |old(headers)| && LiveOk(headers, addr) && PageOf(addr) == k
      ensures forall j :: 0 <= j < |headers| ==> headers[j].slotSize == old(headers)[j].slotSize
    {
      hide PageOk, Chain, IsSlot, Word, BucketSize;
      ghost var headers0, lists0, live0 := headers, lists, live;
      assert PageOk(heap, headers[k], lists[k], live, k);
      PageTake(heap, headers[k], lists[k], live, k);
      FreeSlotFacts(heap, headers[k], lists[k], live, k);
      var h := headers[k];
      addr := h.freeList;
      headers := headers[k := h.(freeList := Word(heap, addr - BASE), slotsFree := h.slotsFree - 1)];
      lists := lists[k := lists[k][1..]];
      live := live + {addr};
      OtherPages(heap, heap, headers0, headers, lists0, lists, live0, live, k, addr);
      LiveSizes(headers0, headers, live0);
    }

    /** `get_bucket_idx` */
    method BucketIndex(size: nat) returns (idx: int)
      ensures idx == -1 <==> size > 2048
      ensures idx != -1 ==> 0 <= idx < 8 && size <= BUCKETS[idx] && (idx == 0 || BUCKETS[idx - 1] < size)
    {
      for i := 0 to 8
        invariant i > 0 ==> size > BUCKETS[i - 1]
      {
        if size <= BUCKETS[i] {
          BucketTop(i);
          return i;
        }
      }
      return -1;
    }

    /** `kmalloc` for a request that fits a bucket; `memory` says whether a page can be had. */
    method Kmalloc(size: nat, memory: bool) returns (r: Option<nat>)
      requires Valid() && size <= 2048 && (memory ==> BASE + |heap| + PAGE <= ADDRESSES)
      modifies this
      ensures Valid() && Kept(old(heap), old(headers), heap, headers, old(live))
      ensures r.None? ==> live == old(live) && heap == old(heap) && (size == 0 || !memory)
      ensures r.Some? ==> size > 0 && r.value !in old(live) && live == old(live) + {r.value}
      ensures r.Some? ==> LiveOk(headers, r.value) && r.value % 16 == 0
      ensures r.Some? ==> size <= SlotSize(r.value) && (SlotSize(r.value) == 16 || SlotSize(r.value) < 2 * size)
    {
      hide PagesOk, LiveOk, AllLive, Kept;
      KeptSelf(heap, headers, lists, live);
      if size == 0 {
        return None;
      }
      var idx := BucketIndex(size);
      BucketFacts(idx, size);
      var page;
      if buckets[idx].None? || headers[buckets[idx].value].slotsFree == 0 {
        if !memory {
          return None;
        }
        ghost var heap0, headers0, lists0 := heap, headers, lists;
        page := NewSlab(BUCKETS[idx], buckets[idx]);
        KeptLonger(heap0, headers0, heap, headers, lists0, live);
        buckets := buckets[idx := Some(page)];
      } else {
        page := buckets[idx].value;
        FreeListNotEmpty(heap, headers, lists, live, page);
      }
      ghost var headers1, live1 := headers, live;
      var addr := Take(page);
      KeptSizes(old(heap), old(headers), heap, headers1, headers, old(live));
      LiveSlot(heap, headers, lists, live, addr);
      return Some(addr);
    }

    /** `kfree` of null or a live address. */
    method Kfree(ptr: Option<nat>)
      requires Valid() && (ptr.Some? ==> ptr.value in live)
      modifies this
      ensures Valid() && live == if ptr.Some? then old(live) - {ptr.value} else old(live)
      ensures Kept(old(heap), old(headers), heap, headers, live) && |heap| == |old(heap)|
    {
      hide PagesOk, Kept, Overwrite, Bytes, BucketSize, IsSlot;
      if ptr.None? {
        KeptSelf(heap, headers, lists, live);
        return;
      }
      var a := ptr.value;
      assert LiveOk(headers, a);
      var k := PageOf(a);
      LiveSlot(heap, headers, lists, live, a);
      if headers[k].slotSize == 0 {
        return;
      }
      ghost var heap0, headers0, lists0, live0 := heap, headers, lists, live;
      var h := headers[k];
      PageCount(heap, headers, lists, live);
      LinksKept(heap, headers, lists, live, a, Bytes(h.freeList, 8));
      OthersKept(heap, headers, lists, live, a, Bytes(h.freeList, 8));
      heap := Overwrite(heap, a - BASE, Bytes(h.freeList, 8));
      PushedPage(heap0, headers, lists, live, k, a, heap);
      headers := headers[k := h.(freeList := a, slotsFree := h.slotsFree + 1)];
      lists := lists[k := [a] + lists[k]];
      live := live - {a};
      OtherPages(heap0, heap, headers0, headers, lists0, lists, live0, live, k, a);
      KeptSizes(heap0, headers0, heap, headers0, headers, live);
      LiveSizes(headers0, headers, live);
    }

    /** `krealloc` to a size that fits a bucket. */
    method Krealloc(ptr: Option<nat>, newSize: nat, memory: bool) returns (r: Option<nat>)
      requires Valid() && newSize <= 2048 && (memory ==> BASE + |heap| + PAGE <= ADDRESSES)
      requires ptr.Some? ==> ptr.value in live
      modifies this
      ensures Valid()
      ensures r.Some? ==> newSize > 0 && r.value !in old(live) && LiveOk(headers, r.value) && newSize <= SlotSize(r.value)
      ensures r.None? ==> newSize == 0 || !memory
      ensures live == (if ptr.Some? && (r.Some? || newSize == 0) then old(live) - {ptr.value} else old(live)) + (if r.Some? then {r.value} else {})
      ensures Kept(old(heap), old(headers), heap, headers, old(live) * live)
      ensures r.Some? && ptr.Some? ==>
        PrefixKept(old(heap), old(headers), heap, headers, ptr.value, r.value, newSize)
    {
      hide PagesOk, Kept, Contents, LiveOk, AllLive;
      if ptr.None? {
        r := Kmalloc(newSize, memory);
        KeptFewer(old(heap), old(headers), heap, headers, old(live), old(live) * live);
        return;
      }
      if newSize == 0 {
        Kfree(ptr);
        KeptFewer(old(heap), old(headers), heap, headers, live, old(live) * live);
        return None;
      }
      r := Kmalloc(newSize, memory);
      if r.None? {
        KeptFewer(old(heap), old(headers), heap, headers, old(live), old(live) * live);
        return;
      }
      CopyAndFree(ptr.value, r.value, newSize, old(heap), old(headers), old(live));
      assert old(live) * live == old(live) - {ptr.value};
    }

    /** The second half of `krealloc`: copy the common prefix and free the old slot. */
    method CopyAndFree(from: nat, to: nat, newSize: nat, ghost heap0: seq<byte>, ghost headers0: seq<Header>,
                       ghost live0: set<nat>)
      requires Valid() && Kept(heap0, headers0, heap, headers, live0) && from in live0 && to !in live0
      requires live == live0 + {to} && LiveOk(headers, to) && newSize <= SlotSize(to)
      modifies this
      ensures Valid() && live == live0 - {from} + {to} && LiveOk(headers, to) && newSize <= SlotSize(to)
      ensures Kept(heap0, headers0, heap, headers, live0 - {from})
      ensures PrefixKept(heap0, headers0, heap, headers, from, to, newSize)
    {
      hide PagesOk, IsSlot, BucketSize;
      ghost var heap1, headers1 := heap, headers;
      assert KeptAt(heap0, headers0, heap1, headers1, from);
      LiveSlot(heap, headers, lists, live, from);
      LiveSlot(heap, headers, lists, live, to);
      var oldSize := headers[PageOf(from)].slotSize;
      var copySize := if oldSize < newSize then oldSize else newSize;
      var data := heap[from - BASE..from - BASE + copySize];
      ContentsPrefix(heap0, heap1, from, oldSize, copySize);
      Store(to, data);
      ghost var heap2 := heap;
      KeptFewer(heap0, headers0, heap1, headers1, live0, live0 - {from});
      KeptFewer(heap1, headers1, heap2, headers1, live - {to}, live0 - {from});
      KeptTrans(heap0, headers0, heap1, headers1, heap2, headers1, live0 - {from});
      Kfree(Some(from));
      assert live == live0 - {from} + {to};
      assert KeptAt(heap2, headers1, heap, headers, to);
      ContentsPrefix(heap2, heap, to, headers1[PageOf(to)].slotSize, copySize);
      KeptFewer(heap2, headers1, heap, headers, live, live0 - {from});
      KeptTrans(heap0, headers0, heap2, headers1, heap, headers, live0 - {from});
    }

    /** Bytes written into a live slot by its owner. */
    method Store(a: nat, data: seq<byte>)
      requires Valid() && a in live && LiveOk(headers, a) && |data| <= SlotSize(a)
      modifies this`heap
      ensures Valid() && |heap| == |old(heap)|
      ensures a >= BASE && a - BASE + |data| <= |heap| && heap[a - BASE..a - BASE + |data|] == data
      ensures Kept(old(heap), headers, heap, headers, live - {a})
    {
      hide PagesOk, Kept, Overwrite;
      ghost var heap0 := heap;
      LiveSlot(heap, headers, lists, live, a);
      LinksKept(heap, headers, lists, live, a, data);
      OthersKept(heap, headers, lists, live, a, data);
      heap := Overwrite(heap, a - BASE, data);
      OverwriteSame(heap0, a - BASE, data);
      StoredPages(heap0, heap, headers, lists, live);
    }
  }

  /** Writing link `i` completes it and keeps the links before it. */
  lemma {:induction false} LinkWritten(before: seq<byte>, after: seq<byte>, l: seq<nat>, i: nat, page: nat,
                                       size: nat, link: nat)
    requires BucketSize(size) && i < |l| && (forall k :: 0 <= k < |l| ==> IsSlot(page, size, l[k])) && NoDup(l)
    requires InHeap(before, l[i]) && link < ADDRESSES && link == if i + 1 < |l| then l[i + 1] else 0
    requires after == Overwrite(before, l[i] - BASE, Bytes(link, 8))
    requires forall j :: 0 <= j < i ==> LinkOk(before, l, j)
    ensures forall j :: 0 <= j <= i ==> LinkOk(after, l, j)
  {
    hide Bytes, Value, Overwrite, IsSlot;
    var at := l[i] - BASE;
    PointerRoundTrip(link);
    OverwriteSame(before, at, Bytes(link, 8));
    forall j | 0 <= j < i ensures LinkOk(after, l, j) {
      assert LinkOk(before, l, j);
      SlotsApart(page, size, l[j], page, size, l[i]);
      OverwriteElsewhere(before, at, Bytes(link, 8), l[j] - BASE, l[j] - BASE + 8);
    }
  }

  lemma {:induction false} LiveKept(headers: seq<Header>, headers': seq<Header>, live: set<nat>)
    requires headers <= headers' && AllLive(headers, live)
    ensures AllLive(headers', live)
  {
  }

  function Zeros(n: nat): (z: seq<byte>)
    ensures |z| == n
  {
    seq(n, i => 0)
  }

  lemma {:induction false} CapacityPositive(size: nat)
    requires BucketSize(size)
    ensures size > 0 && Capacity(size) >= 1
  {
  }

  lemma {:induction false} FreshPage(heap: seq<byte>, h: Header, l: seq<nat>, live: set<nat>, headers: seq<Header>,
                                     k: nat)
    requires BucketSize(h.slotSize) && h.slotsFree == |l| && Chain(heap, h.freeList, l) && NoDup(l) && k == |headers|
    requires forall i :: 0 <= i < |l| ==> IsSlot(k, h.slotSize, l[i])
    requires forall a: nat :: IsSlot(k, h.slotSize, a) ==> a in l
    requires AllLive(headers, live)
    ensures PageOk(heap, h, l, live, k)
  {
    forall a | a in l ensures IsSlot(k, h.slotSize, a) && a !in live {
      SlotPage(k, h.slotSize, a);
    }
  }

  /** A longer heap keeps the old pages. */
  lemma {:induction false} OldPages(heap: seq<byte>, heap': seq<byte>, headers: seq<Header>, lists: seq<seq<nat>>,
                                    live: set<nat>, h: Header, l: seq<nat>)
    requires PagesOk(heap, headers, lists, live) && heap <= heap' && |heap'| == |heap| + PAGE
    requires PageOk(heap', h, l, live, |headers|)
    ensures PagesOk(heap', headers + [h], lists + [l], live)
  {
    hide PageOk;
    var headers', lists' := headers + [h], lists + [l];
    forall k | 0 <= k < |headers'| ensures PageOk(heap', headers'[k], lists'[k], live, k) {
      if k < |headers| {
        assert PageOk(heap, headers[k], lists[k], live, k);
        PageKept(heap, heap', headers[k], lists[k], live, live, k);
      }
    }
  }

  // ----- one slot changes hands

  lemma {:induction false} FreeSlotFacts(heap: seq<byte>, h: Header, l: seq<nat>, live: set<nat>, k: nat)
    requires PageOk(heap, h, l, live, k) && l != []
    ensures h.slotSize > 0 && l[0] !in live && IsSlot(k, h.slotSize, l[0]) && l[0] >= BASE && PageOf(l[0]) == k
  {
    assert l[0] in l;
    SlotPage(k, h.slotSize, l[0]);
  }

  lemma {:induction false} FreeListNotEmpty(heap: seq<byte>, headers: seq<Header>, lists: seq<seq<nat>>,
                                            live: set<nat>, k: nat)
    requires PagesOk(heap, headers, lists, live) && k < |headers| && headers[k].slotsFree != 0
    ensures lists[k] != []
  {
    assert PageOk(heap, headers[k], lists[k], live, k);
  }

  /** Page `k` is as it should be; the others do not notice that slot `a` of page `k` changed hands. */
  lemma {:induction false} OtherPages(heap: seq<byte>, heap': seq<byte>, headers: seq<Header>, headers': seq<Header>,
                                      lists: seq<seq<nat>>, lists': seq<seq<nat>>, live: set<nat>, live': set<nat>, k: nat, a: nat)
    requires PagesOk(heap, headers, lists, live) && |heap'| == |heap| && |headers'| == |headers| && |lists'| == |lists| && k < |headers|
    requires forall j :: 0 <= j < |headers| && j != k ==> headers'[j] == headers[j] && lists'[j] == lists[j]
    requires PageOk(heap', headers'[k], lists'[k], live', k)
    requires a >= BASE && PageOf(a) == k && (forall x :: x != a ==> (x in live' <==> x in live))
    requires FreeWordsKept(heap, heap', lists)
    ensures PagesOk(heap', headers', lists', live')
  {
    forall j | 0 <= j < |headers'| ensures PageOk(heap', headers'[j], lists'[j], live', j) {
      if j != k {
        assert PageOk(heap, headers[j], lists[j], live, j);
        forall x: nat | IsSlot(j, headers[j].slotSize, x) ensures x in live' <==> x in live {
          SlotPage(j, headers[j].slotSize, x);
        }
        PageKept(heap, heap', headers[j], lists[j], live, live', j);
      }
    }
  }

  /** The links in free slots are not overwritten. */
  ghost predicate FreeWordsKept(heap: seq<byte>, heap': seq<byte>, lists: seq<seq<nat>>) {
    && |heap| == |heap'|
    && forall k, x :: 0 <= k < |lists| && x in lists[k] && InHeap(heap, x) ==>
      heap'[x - BASE..x - BASE + 8] == heap[x - BASE..x - BASE + 8]
  }

  lemma {:induction false} LiveSizes(headers: seq<Header>, headers': seq<Header>, live: set<nat>)
    requires AllLive(headers, live) && |headers'| == |headers|
    requires forall j :: 0 <= j < |headers| ==> headers'[j].slotSize == headers[j].slotSize
    ensures AllLive(headers', live)
  {
    forall a | a in live ensures LiveOk(headers', a) {
      assert LiveOk(headers, a);
    }
  }

  /** A live slot lies inside the heap and is large enough for a link. */
  lemma {:induction false} LiveSlot(heap: seq<byte>, headers: seq<Header>, lists: seq<seq<nat>>, live: set<nat>, a: nat)
    requires PagesOk(heap, headers, lists, live) && LiveOk(headers, a)
    ensures var size := headers[PageOf(a)].slotSize;
      BucketSize(size) && size >= 16 && a - BASE + size <= |heap| && InHeap(heap, a) && a % 16 == 0
  {
    var k := PageOf(a);
    assert PageOk(heap, headers[k], lists[k], live, k);
    SlotInHeap(heap, |headers|, k, headers[k].slotSize, a);
    SlotAligned(k, headers[k].slotSize, a);
  }

  /** A write inside a live slot leaves the links in free slots alone. */
  lemma {:induction false} LinksKept(heap: seq<byte>, headers: seq<Header>, lists: seq<seq<nat>>, live: set<nat>,
                                     a: nat, data: seq<byte>)
    requires PagesOk(heap, headers, lists, live) && a in live && LiveOk(headers, a) && |data| <= headers[PageOf(a)].slotSize
    requires a - BASE + |data| <= |heap|
    ensures FreeWordsKept(heap, Overwrite(heap, a - BASE, data), lists)
  {
    hide Overwrite;
    var heap' := Overwrite(heap, a - BASE, data);
    forall k, x | 0 <= k < |lists| && x in lists[k] && InHeap(heap, x)
      ensures heap'[x - BASE..x - BASE + 8] == heap[x - BASE..x - BASE + 8]
    {
      assert PageOk(heap, headers[k], lists[k], live, k);
      SlotsApart(PageOf(a), headers[PageOf(a)].slotSize, a, k, headers[k].slotSize, x);
      OverwriteElsewhere(heap, a - BASE, data, x - BASE, x - BASE + 8);
    }
  }

  /** A write inside a live slot leaves the other live slots alone. */
  lemma {:induction false} OthersKept(heap: seq<byte>, headers: seq<Header>, lists: seq<seq<nat>>, live: set<nat>,
                                      a: nat, data: seq<byte>)
    requires PagesOk(heap, headers, lists, live) && AllLive(headers, live) && a in live && |data| <= headers[PageOf(a)].slotSize
    requires a - BASE + |data| <= |heap|
    ensures Kept(heap, headers, Overwrite(heap, a - BASE, data), headers, live - {a})
  {
    hide Overwrite, IsSlot;
    var heap' := Overwrite(heap, a - BASE, data);
    assert LiveOk(headers, a);
    forall b | b in live - {a} ensures KeptAt(heap, headers, heap', headers, b) {
      assert LiveOk(headers, b);
      LiveSlot(heap, headers, lists, live, b);
      var size := headers[PageOf(b)].slotSize;
      SlotsApart(PageOf(a), headers[PageOf(a)].slotSize, a, PageOf(b), size, b);
      OverwriteElsewhere(heap, a - BASE, data, b - BASE, b - BASE + size);
    }
  }

  /** Pages stay in order when the owner writes into a live slot. */
  lemma {:induction false} StoredPages(heap: seq<byte>, heap': seq<byte>, headers: seq<Header>, lists: seq<seq<nat>>,
                                       live: set<nat>)
    requires PagesOk(heap, headers, lists, live) && FreeWordsKept(heap, heap', lists)
    ensures PagesOk(heap', headers, lists, live)
  {
    forall k | 0 <= k < |headers| ensures PageOk(heap', headers[k], lists[k], live, k) {
      assert PageOk(heap, headers[k], lists[k], live, k);
      PageKept(heap, heap', headers[k], lists[k], live, live, k);
    }
  }

  /** The page of a freed slot, with the slot in front of its list. */
  lemma {:induction false} PushedPage(heap: seq<byte>, headers: seq<Header>, lists: seq<seq<nat>>, live: set<nat>,
                                      k: nat, a: nat, heap': seq<byte>)
    requires PagesOk(heap, headers, lists, live) && BASE + |heap| <= ADDRESSES && LiveOk(headers, a) && PageOf(a) == k && a in live
    requires a - BASE + 8 <= |heap| && heap' == Overwrite(heap, a - BASE, Bytes(headers[k].freeList, 8)) && FreeWordsKept(heap, heap', lists)
    ensures PageOk(heap', headers[k].(freeList := a, slotsFree := headers[k].slotsFree + 1), [a] + lists[k], live - {a}, k)
  {
    hide Overwrite, Bytes, Value;
    var h, l := headers[k], lists[k];
    assert PageOk(heap, h, l, live, k);
    assert h.freeList < ADDRESSES;
    PointerRoundTrip(h.freeList);
    OverwriteSame(heap, a - BASE, Bytes(h.freeList, 8));
    PagePut(heap, heap', h, l, live, k, a);
  }

  lemma {:induction false} BucketTop(i: nat)
    requires i < 8
    ensures BUCKETS[i] <= 2048
  {
  }

  lemma {:induction false} BucketFacts(idx: nat, size: nat)
    requires idx < 8 && size <= BUCKETS[idx] && (idx == 0 || BUCKETS[idx - 1] < size)
    ensures BucketSize(BUCKETS[idx]) && (BUCKETS[idx] == 16 || BUCKETS[idx] < 2 * size)
  {
  }

  // ----- what the operations keep

  /** The live slots keep their sizes and their bytes. */
  ghost predicate Kept(heap: seq<byte>, headers: seq<Header>, heap': seq<byte>, headers': seq<Header>, live: set<nat>) {
    forall a :: a in live ==> KeptAt(heap, headers, heap', headers', a)
  }

  ghost predicate KeptAt(heap: seq<byte>, headers: seq<Header>, heap': seq<byte>, headers': seq<Header>, a: nat) {
    && LiveOk(headers, a) && LiveOk(headers', a)
    && headers'[PageOf(a)].slotSize == headers[PageOf(a)].slotSize
    && a - BASE + headers[PageOf(a)].slotSize <= |heap| && a - BASE + headers[PageOf(a)].slotSize <= |heap'|
    && Contents(heap', a, headers[PageOf(a)].slotSize) == Contents(heap, a, headers[PageOf(a)].slotSize)
  }

  /** The new slot starts with the bytes of the old one, as far as both and the request go. */
  ghost predicate PrefixKept(heap: seq<byte>, headers: seq<Header>, heap': seq<byte>, headers': seq<Header>,
                             from: nat, to: nat, newSize: nat) {
    && LiveOk(headers, from) && LiveOk(headers', to)
    && var n := if headers[PageOf(from)].slotSize < newSize then headers[PageOf(from)].slotSize else newSize;
       && from - BASE + n <= |heap| && to - BASE + n <= |heap'|
       && Contents(heap', to, n) == Contents(heap, from, n)
  }

  lemma {:induction false} KeptSelf(heap: seq<byte>, headers: seq<Header>, lists: seq<seq<nat>>, live: set<nat>)
    requires PagesOk(heap, headers, lists, live) && AllLive(headers, live)
    ensures Kept(heap, headers, heap, headers, live)
  {
    hide PagesOk;
    forall a | a in live ensures KeptAt(heap, headers, heap, headers, a) {
      assert LiveOk(headers, a);
      LiveSlot(heap, headers, lists, live, a);
    }
  }

  lemma {:induction false} KeptLonger(heap: seq<byte>, headers: seq<Header>, heap': seq<byte>, headers': seq<Header>,
                                      lists: seq<seq<nat>>, live: set<nat>)
    requires PagesOk(heap, headers, lists, live) && AllLive(headers, live) && heap <= heap' && headers <= headers'
    ensures Kept(heap, headers, heap', headers', live)
  {
    hide PagesOk;
    forall a | a in live ensures KeptAt(heap, headers, heap', headers', a) {
      assert LiveOk(headers, a);
      LiveSlot(heap, headers, lists, live, a);
    }
  }

  lemma {:induction false} KeptSizes(heap: seq<byte>, headers: seq<Header>, heap': seq<byte>, headers1: seq<Header>,
                                     headers': seq<Header>, live: set<nat>)
    requires Kept(heap, headers, heap', headers1, live) && |headers'| == |headers1|
    requires forall j :: 0 <= j < |headers1| ==> headers'[j].slotSize == headers1[j].slotSize
    ensures Kept(heap, headers, heap', headers', live)
  {
    hide Contents;
    forall a | a in live ensures KeptAt(heap, headers, heap', headers', a) {
      assert KeptAt(heap, headers, heap', headers1, a);
    }
  }

  lemma {:induction false} KeptFewer(heap: seq<byte>, headers: seq<Header>, heap': seq<byte>, headers': seq<Header>,
                                     live: set<nat>, fewer: set<nat>)
    requires Kept(heap, headers, heap', headers', live) && fewer <= live
    ensures Kept(heap, headers, heap', headers', fewer)
  {
  }

  lemma {:induction false} KeptTrans(heap: seq<byte>, headers: seq<Header>, heap1: seq<byte>, headers1: seq<Header>,
                                     heap': seq<byte>, headers': seq<Header>, live: set<nat>)
    requires Kept(heap, headers, heap1, headers1, live) && Kept(heap1, headers1, heap', headers', live)
    ensures Kept(heap, headers, heap', headers', live)
  {
    hide Contents, LiveOk;
    forall a | a in live ensures KeptAt(heap, headers, heap', headers', a) {
      assert KeptAt(heap, headers, heap1, headers1, a) && KeptAt(heap1, headers1, heap', headers', a);
    }
  }

  lemma {:induction false} ContentsPrefix(heap: seq<byte>, heap': seq<byte>, a: nat, size: nat, n: nat)
    requires a >= BASE && n <= size && a - BASE + size <= |heap| && a - BASE + size <= |heap'|
    requires Contents(heap', a, size) == Contents(heap, a, size)
    ensures Contents(heap', a, n) == Contents(heap, a, n)
  {
    assert Contents(heap', a, n) == Contents(heap', a, size)[..n];
    assert Contents(heap, a, n) == Contents(heap, a, size)[..n];
  }

  lemma {:induction false} PageCount(heap: seq<byte>, headers: seq<Header>, lists: seq<seq<nat>>, live: set<nat>)
    requires PagesOk(heap, headers, lists, live)
    ensures |lists| == |headers|
  {
  }

  /** Live slots never overlap each other or a slab header, and are 16-byte aligned. */
  lemma {:induction false} LiveSlotsApart(heap: seq<byte>, headers: seq<Header>, lists: seq<seq<nat>>,
                                          live: set<nat>, a: nat, b: nat, page: nat)
    requires PagesOk(heap, headers, lists, live) && AllLive(headers, live) && a in live && b in live && a != b
    ensures LiveOk(headers, a) && LiveOk(headers, b) && a % 16 == 0
    ensures a + headers[PageOf(a)].slotSize <= b || b + headers[PageOf(b)].slotSize <= a
    ensures a + headers[PageOf(a)].slotSize <= BASE + page * PAGE || BASE + page * PAGE + HEADER <= a
  {
    hide PagesOk;
    assert LiveOk(headers, a) && LiveOk(headers, b);
    LiveSlot(heap, headers, lists, live, a);
    SlotsApart(PageOf(a), headers[PageOf(a)].slotSize, a, PageOf(b), headers[PageOf(b)].slotSize, b);
    var k := PageOf(a);
    assert page <= k ==> page * PAGE <= k * PAGE;
    assert k < page ==> k * PAGE + PAGE <= page * PAGE;
  }
}
