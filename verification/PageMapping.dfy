/** Mapping, unmapping and translating pages: mm/mappage.c, mm/unmappage.c and parts of mm/vmm.c. */
module PageMapping {
  import opened Arith
  import opened PageTables

  /** The frames in use with their contents, and the frames given back so far. */
  class Memory {
    var frames: map<nat, seq<nat>>
    ghost var freed: seq<nat>

    constructor ()
      ensures frames == map[] && freed == []
    {
      frames, freed := map[], [];
    }

    /** `palloc_zero`: a frame not in use before, filled with zeros. */
    method PallocZero() returns (f: nat)
      modifies this`frames
      ensures f !in old(frames) && frames == old(frames)[f := ZeroFrame()]
    {
      UnusedFrame(frames.Keys);
      f :| f !in frames.Keys;
      frames := frames[f := ZeroFrame()];
    }

    /** Writes one entry. */
    method Write(t: nat, i: nat, e: nat)
      requires t in frames && i < |frames[t]|
      modifies this`frames
      ensures frames == Written(old(frames), t, i, e)
    {
      frames := Written(frames, t, i, e);
    }

    /** `memcpy` of a whole page. */
    method CopyPage(dst: nat, src: nat)
      requires src in frames
      modifies this`frames
      ensures frames == old(frames)[dst := old(frames)[src]]
    {
      frames := frames[dst := frames[src]];
    }

    /** `pfree`: only a frame in use may be given back. */
    method Pfree(f: nat)
      requires f in frames
      modifies this
      ensures frames == old(frames) - {f} && freed == old(freed) + [f]
    {
      frames := frames - {f};
      freed := freed + [f];
    }
  }

  lemma {:induction false} UnusedFrame(s: set<nat>)
    ensures exists f: nat :: f !in s
  {
    var bound := Above(s);
    assert bound !in s;
  }

  lemma {:induction false} Above(s: set<nat>) returns (b: nat)
    ensures forall x :: x in s ==> x < b
    decreases s
  {
    b := 0;
    if s != {} {
      var x :| x in s;
      b := Above(s - {x});
      assert forall y :: y in s ==> y == x || y in s - {x};
      b := if b > x then b else x + 1;
    }
  }

  // ----- virtual addresses

  /** The number of the page of a virtual address, in the 48 bits the tables translate. */
  function PageNumber(virt: nat): (v: nat)
    ensures v < PAGES
  {
    (virt / PAGE_SIZE) % PAGES
  }

  function Pml4Index(virt: nat): (i: nat) {
    (virt / 0x80_0000_0000) % 512
  }

  function PdpIndex(virt: nat): (i: nat) {
    (virt / 0x4000_0000) % 512
  }

  function PdIndex(virt: nat): (i: nat) {
    (virt / 0x20_0000) % 512
  }

  function PtIndex(virt: nat): (i: nat) {
    (virt / 0x1000) % 512
  }

  /** The four index macros pick the entries on the path of the page. */
  lemma {:induction false} Indices(virt: nat)
    ensures Pml4Index(virt) == Index(PageNumber(virt), 4) && PdpIndex(virt) == Index(PageNumber(virt), 3)
    ensures PdIndex(virt) == Index(PageNumber(virt), 2) && PtIndex(virt) == Index(PageNumber(virt), 1)
    ensures Slot(PageNumber(virt), 5) == 0
  {
    IndexAt(virt, 1, 0x1000, 0x800_0000);
    IndexAt(virt, 512, 0x20_0000, 0x4_0000);
    IndexAt(virt, 0x4_0000, 0x4000_0000, 512);
    IndexAt(virt, 0x800_0000, 0x80_0000_0000, 1);
    SlotIs(PageNumber(virt));
  }

  /** Entries of `pages` pages each: the index bits of the address are those of its page number. */
  lemma {:induction false} IndexAt(virt: nat, pages: nat, size: nat, tables: nat)
    requires pages > 0 && size == pages * PAGE_SIZE && PAGES == tables * 512 * pages
    ensures (virt / size) % 512 == (PageNumber(virt) / pages) % 512
  {
    var p, v, o := virt / PAGE_SIZE, PageNumber(virt), virt % PAGE_SIZE;
    var q, c, d := p / PAGES, v / pages, v % pages;
    InGroup(tables * 512, pages, q, c);
    assert p == pages * (tables * 512 * q + c) + d;
    Scaled(virt, size, pages, tables * 512 * q + c, d, o);
    DivUnique(virt, size, tables * 512 * q + c, d * PAGE_SIZE + o);
    InGroup(tables, 512, q, c / 512);
    DivUnique(tables * 512 * q + c, 512, tables * q + c / 512, c % 512);
  }

  lemma {:induction false} SlotIs(v: nat)
    ensures Slot(v, 1) == v && Slot(v, 2) == v / 512 && Slot(v, 3) == v / 0x4_0000 && Slot(v, 4) == v / 0x800_0000
    ensures Slot(v, 5) == v / PAGES
  {
    assert Slot(v, 2) == v / 512;
    assert Slot(v, 3) == v / 512 / 512;
    assert Slot(v, 4) == v / 512 / 512 / 512;
    assert Slot(v, 5) == v / 512 / 512 / 512 / 512;
  }

  // ----- mapping

  ghost predicate Space(m: Memory, own: map<nat, Place>, root: nat)
    reads m
  {
    Tables(m.frames, own) && root in own && own[root] == Place(4, 0)
  }

  /** No frame disappears, and frames that are not tables keep their contents. */
  ghost predicate KeptExcept(mem: map<nat, seq<nat>>, mem': map<nat, seq<nat>>, own: map<nat, Place>) {
    mem.Keys <= mem'.Keys && forall f :: f in mem && f !in own ==> mem'[f] == mem[f]
  }

  /** One step down, as repeated in `map_page`: allocate the next table or add the user bit. */
  method EnsureTable(m: Memory, t: nat, i: nat, flags: nat, ghost own: map<nat, Place>)
    returns (child: nat, ghost own': map<nat, Place>)
    requires Tables(m.frames, own) && t in own && t in m.frames && |m.frames[t]| == ENTRIES && i < ENTRIES
    requires own[t].level >= 2 && (Present(m.frames[t][i]) ==> Leads(own[t].level, m.frames[t][i]))
    modifies m
    ensures Tables(m.frames, own') && (forall f :: f in own ==> f in own' && own'[f] == own[f])
    ensures forall f :: f in own' ==> f in own || f !in old(m.frames)
    ensures child in own' && own'[child] == Place(own[t].level - 1, own[t].slot * ENTRIES + i)
    ensures t in m.frames && |m.frames[t]| == ENTRIES
    ensures Leads(own[t].level, m.frames[t][i]) && Frame(m.frames[t][i]) == child
    ensures User(m.frames[t][i]) == (User(flags) || (Present(old(m.frames)[t][i]) && User(old(m.frames)[t][i])))
    ensures var e := old(m.frames)[t][i];
      m.frames[t] == old(m.frames)[t][i := if Present(e) then OrUser(e, flags) else TableEntry(child, flags)]
    ensures old(m.frames).Keys <= m.frames.Keys
    ensures forall f :: f in old(m.frames) && f != t ==> m.frames[f] == old(m.frames)[f]
    ensures SameLeaves(old(m.frames), m.frames, own)
  {
    hide Tables, SameLeaves, TableEntry, OrUser, User, Huge;
    ghost var mem := m.frames;
    var e := m.frames[t][i];
    OwnedTable(mem, own, t);
    OwnedFrames(mem, own);
    if !Present(e) {
      child := m.PallocZero();
      TableEntryIs(child, flags);
      TablesGrow(mem, own, t, i, TableEntry(child, flags), child);
      m.Write(t, i, TableEntry(child, flags));
      own' := own[child := Place(own[t].level - 1, own[t].slot * ENTRIES + i)];
      GrowSame(mem, m.frames, own, t, i, child);
    } else {
      OrUserKeeps(e, flags);
      TablesKeep(mem, own, t, i, OrUser(e, flags));
      m.Write(t, i, OrUser(e, flags));
      child, own' := Frame(e), own;
      assert EntryOk(own, own[t], i, e);
      KeepSame(mem, m.frames, own, t, i);
    }
  }

  lemma {:induction false} GrowSame(mem: map<nat, seq<nat>>, mem': map<nat, seq<nat>>, own: map<nat, Place>,
                                    t: nat, i: nat, c: nat)
    requires Tables(mem, own) && t in own && t in mem && |mem[t]| == ENTRIES && i < ENTRIES && own[t].level >= 2
    requires !Present(mem[t][i]) && c !in mem && c in mem' && mem'[c] == ZeroFrame()
    requires forall f :: f in own && f != t ==> f in mem && f in mem' && mem'[f] == mem[f]
    requires t in mem' && |mem'[t]| == ENTRIES && Leads(own[t].level, mem'[t][i]) && Frame(mem'[t][i]) == c
    requires forall j :: 0 <= j < ENTRIES && j != i ==> mem'[t][j] == mem[t][j]
    ensures SameLeaves(mem, mem', own)
  {
    hide Tables, Index, SameLeaves;
    var l := own[t].level;
    forall v | OnPath(own, t, l, v) ensures WalkKept(mem, mem', t, l, v) {
      if Index(v, l) == i {
        ZeroFrameEmpty(mem', c, l - 1, v);
      } else {
        SameEntry(mem, mem', own, t, l, v);
      }
    }
    AllSame(mem, mem', own, t);
  }

  /** A walk through an unchanged entry to a lower table finds the same leaf. */
  lemma {:induction false} SameEntry(mem: map<nat, seq<nat>>, mem': map<nat, seq<nat>>, own: map<nat, Place>, t: nat,
                                     l: nat, v: nat)
    requires Tables(mem, own) && OnPath(own, t, l, v) && t in mem && |mem[t]| == ENTRIES && t in mem' && |mem'[t]| == ENTRIES
    requires mem'[t][Index(v, l)] == mem[t][Index(v, l)]
    requires forall f :: f in own && f != t ==> f in mem && f in mem' && mem'[f] == mem[f]
    ensures WalkKept(mem, mem', t, l, v)
  {
    hide Tables, Index;
    var e := mem[t][Index(v, l)];
    if Leads(l, e) {
      NextOnPath(mem, own, t, l, v);
      SameBelow(mem, mem', own, t, Frame(e), l - 1, v);
    }
  }

  /** Tables below another do not include it. */
  lemma {:induction false} SameBelow(mem: map<nat, seq<nat>>, mem': map<nat, seq<nat>>, own: map<nat, Place>, t: nat,
                                     u: nat, l: nat, v: nat)
    requires Tables(mem, own) && t in own && own[t].level > l && OnPath(own, u, l, v)
    requires forall f :: f in own && f != t ==> f in mem && f in mem' && mem'[f] == mem[f]
    ensures WalkKept(mem, mem', u, l, v)
    decreases l
  {
    hide Tables, Index;
    OwnedTable(mem, own, u);
    var e := mem[u][Index(v, l)];
    if Leads(l, e) {
      NextOnPath(mem, own, u, l, v);
      SameBelow(mem, mem', own, t, Frame(e), l - 1, v);
    }
  }

  lemma {:induction false} AllSame(mem: map<nat, seq<nat>>, mem': map<nat, seq<nat>>, own: map<nat, Place>, t: nat)
    requires Tables(mem, own) && t in own
    requires forall f :: f in own && f != t ==> f in mem && f in mem' && mem'[f] == mem[f]
    requires own[t].level >= 1
    requires forall v :: OnPath(own, t, own[t].level, v) ==> WalkKept(mem, mem', t, own[t].level, v)
    ensures SameLeaves(mem, mem', own)
  {
    forall u, l, v | OnPath(own, u, l, v) ensures WalkKept(mem, mem', u, l, v) {
      SameWalk(mem, mem', own, t, u, l, v);
    }
  }

  lemma {:induction false} KeepSame(mem: map<nat, seq<nat>>, mem': map<nat, seq<nat>>, own: map<nat, Place>, t: nat,
                                    i: nat)
    requires Tables(mem, own) && t in own && t in mem && |mem[t]| == ENTRIES && i < ENTRIES && own[t].level >= 2
    requires Leads(own[t].level, mem[t][i]) && t in mem' && |mem'[t]| == ENTRIES
    requires Leads(own[t].level, mem'[t][i]) && Frame(mem'[t][i]) == Frame(mem[t][i])
    requires User(mem[t][i]) ==> User(mem'[t][i])
    requires forall f :: f in own && f != t ==> f in mem && f in mem' && mem'[f] == mem[f]
    requires forall j :: 0 <= j < ENTRIES && j != i ==> mem'[t][j] == mem[t][j]
    ensures SameLeaves(mem, mem', own)
  {
    hide Tables, Index, SameLeaves;
    var l := own[t].level;
    forall v | OnPath(own, t, l, v) ensures WalkKept(mem, mem', t, l, v) {
      if Index(v, l) == i {
        NextOnPath(mem, own, t, l, v);
        SameBelow(mem, mem', own, t, Frame(mem[t][i]), l - 1, v);
      } else {
        SameEntry(mem, mem', own, t, l, v);
      }
    }
    AllSame(mem, mem', own, t);
  }

  /** The walk of the page is not stopped by a huge leaf. */
  predicate NoHugeLeaf(mem: map<nat, seq<nat>>, t: nat, l: nat, v: nat)
    requires l >= 1
  {
    FindLeaf(mem, t, l, v).None? || FindLeaf(mem, t, l, v).value.level == 1
  }

  /** One step down the path of page `v`. */
  method Descend(m: Memory, t: nat, i: nat, flags: nat, ghost v: nat, ghost l: nat, ghost own: map<nat, Place>)
    returns (child: nat, ghost own': map<nat, Place>)
    requires Tables(m.frames, own) && OnPath(own, t, l, v) && 2 <= l && i == Index(v, l)
    requires FindLeaf(m.frames, t, l, v).Some? ==> FindLeaf(m.frames, t, l, v).value.level < l
    modifies m
    ensures Tables(m.frames, own') && (forall f :: f in own ==> f in own' && own'[f] == own[f])
    ensures forall f :: f in own' ==> f in own || f !in old(m.frames)
    ensures OnPath(own', child, l - 1, v) && t in m.frames && |m.frames[t]| == ENTRIES
    ensures Leads(l, m.frames[t][i]) && Frame(m.frames[t][i]) == child && (User(flags) ==> User(m.frames[t][i]))
    ensures FindLeaf(m.frames, child, l - 1, v) == FindLeaf(old(m.frames), t, l, v)
    ensures old(m.frames).Keys <= m.frames.Keys
    ensures forall f :: f in old(m.frames) && f != t ==> m.frames[f] == old(m.frames)[f]
    ensures SameLeaves(old(m.frames), m.frames, own)
  {
    hide Tables, Index;
    OwnedTable(m.frames, own, t);
    child, own' := EnsureTable(m, t, i, flags, own);
    SlotSplit(v, l);
    assert WalkKept(old(m.frames), m.frames, t, l, v);
  }

  /** The pages that pass the level-`l` entry of page `v` get the leaf, all other pages keep their walks. */
  ghost predicate LeafSet(mem: map<nat, seq<nat>>, mem': map<nat, seq<nat>>, root: nat, l: nat, v: nat,
                          leaf: Option<Leaf>)
    requires l >= 1
  {
    forall w: nat :: w < PAGES ==> PageSet(mem, mem', root, l, v, leaf, w)
  }

  ghost predicate PageSet(mem: map<nat, seq<nat>>, mem': map<nat, seq<nat>>, root: nat, l: nat, v: nat,
                          leaf: Option<Leaf>, w: nat)
    requires l >= 1
  {
    if Slot(w, l) == Slot(v, l) then FindLeaf(mem', root, 4, w) == leaf else WalkKept(mem, mem', root, 4, w)
  }

  function LeafOf(l: nat, e: nat): (r: Option<Leaf>) {
    if Present(e) then Some(Leaf(l, e)) else None
  }

  /** Writing an entry that ends the walk. */
  lemma {:induction false} LeafWritten(mem: map<nat, seq<nat>>, own: map<nat, Place>, own': map<nat, Place>,
                                       root: nat, t: nat, l: nat, v: nat, e: nat)
    requires Tables(mem, own) && root in own' && own'[root] == Place(4, 0) && OnPath(own', t, l, v) && Slot(v, 5) == 0
    requires forall f :: f in own' ==> f in own && own[f] == own'[f]
    requires t in mem && |mem[t]| == ENTRIES && Tables(Written(mem, t, Index(v, l), e), own')
    requires Present(e) ==> Ends(l, e)
    ensures LeafSet(mem, Written(mem, t, Index(v, l), e), root, l, v, LeafOf(l, e))
  {
    hide Tables, Index;
    var mem' := Written(mem, t, Index(v, l), e);
    OwnedFrames(mem, own);
    OwnedTable(mem, own, t);
    forall w: nat | w < PAGES ensures PageSet(mem, mem', root, l, v, LeafOf(l, e), w) {
      SlotIs(w);
      SlotSplit(v, l);
      SlotSplit(w, l);
      if Slot(w, l) == Slot(v, l) {
        SameSlot(v, w, l);
        Reached(mem', own', root, t, l, w);
      } else {
        if OnPath(own, t, l, w) {
          SameEntry(mem, mem', own, t, l, w);
        }
        SameWalk(mem, mem', own, t, root, 4, w);
      }
    }
  }

  lemma {:induction false} SameSlot(v: nat, w: nat, l: nat)
    requires l >= 1 && Slot(w, l) == Slot(v, l)
    ensures Slot(w, l + 1) == Slot(v, l + 1) && Index(w, l) == Index(v, l)
  {
  }

  /** If all leaves were kept first, the effect is that of the last write alone. */
  lemma {:induction false} LeafSetAfter(mem: map<nat, seq<nat>>, mid: map<nat, seq<nat>>, mem': map<nat, seq<nat>>,
                                        own: map<nat, Place>, root: nat, l: nat, v: nat, leaf: Option<Leaf>)
    requires l >= 1 && root in own && own[root] == Place(4, 0)
    requires SameLeaves(mem, mid, own) && LeafSet(mid, mem', root, l, v, leaf)
    ensures LeafSet(mem, mem', root, l, v, leaf)
  {
    forall w: nat | w < PAGES ensures PageSet(mem, mem', root, l, v, leaf, w) {
      SlotIs(w);
      assert OnPath(own, root, 4, w);
      assert PageSet(mid, mem', root, l, v, leaf, w);
    }
  }

  lemma {:induction false} SameLeavesTrans(mem: map<nat, seq<nat>>, mid: map<nat, seq<nat>>, mem': map<nat, seq<nat>>,
                                           own: map<nat, Place>, own': map<nat, Place>)
    requires forall f :: f in own ==> f in own' && own'[f] == own[f]
    requires SameLeaves(mem, mid, own) && SameLeaves(mid, mem', own')
    ensures SameLeaves(mem, mem', own)
  {
    forall u, l, v | OnPath(own, u, l, v) ensures WalkKept(mem, mem', u, l, v) {
      assert OnPath(own', u, l, v);
    }
  }

  /** The common start of `map_page` and `map_page_huge`: down to the page directory. */
  method WalkToDirectory(m: Memory, root: nat, virt: nat, flags: nat, ghost own: map<nat, Place>)
    returns (pd: nat, ghost own': map<nat, Place>)
    requires Space(m, own, root)
    requires FindLeaf(m.frames, root, 4, PageNumber(virt)).Some? ==> FindLeaf(m.frames, root, 4, PageNumber(virt)).value.level <= 2
    modifies m
    ensures Space(m, own', root) && OnPath(own', pd, 2, PageNumber(virt))
    ensures FindLeaf(m.frames, pd, 2, PageNumber(virt)) == FindLeaf(old(m.frames), root, 4, PageNumber(virt))
    ensures SameLeaves(old(m.frames), m.frames, own) && (forall f :: f in own ==> f in own' && own'[f] == own[f])
    ensures forall f :: f in own' ==> f in own || f !in old(m.frames)
    ensures KeptExcept(old(m.frames), m.frames, own)
    ensures User(flags) ==> UserTo(m.frames, own', root, pd, PageNumber(virt))
  {
    hide Tables, Index, SameLeaves, User;
    ghost var v, mem := PageNumber(virt), m.frames;
    Indices(virt);
    ghost var own1;
    var pdp;
    pdp, own1 := Descend(m, root, Pml4Index(virt), flags, v, 4, own);
    ghost var mid := m.frames;
    pd, own' := Descend(m, pdp, PdpIndex(virt), flags, v, 3, own1);
    SameLeavesTrans(mem, mid, m.frames, own, own1);
    assert pdp != root;
    assert User(flags) ==> UserTo(m.frames, own', root, pd, v);
  }

  /** The top two entries on the way to page `v` let user mode through, down to directory `pd`. */
  ghost predicate UserTo(mem: map<nat, seq<nat>>, own: map<nat, Place>, root: nat, pd: nat, v: nat) {
    && UserEntry(mem, root, 4, v)
    && UserEntry(mem, Frame(mem[root][Index(v, 4)]), 3, v)
    && Frame(mem[Frame(mem[root][Index(v, 4)])][Index(v, 3)]) == pd
    && root in own && own[root].level == 4
    && Frame(mem[root][Index(v, 4)]) in own && own[Frame(mem[root][Index(v, 4)])].level == 3
  }

  /** With the directory entry and the leaf open as well, the whole path is. */
  lemma {:induction false} UserPathFrom(mem: map<nat, seq<nat>>, mem': map<nat, seq<nat>>, own: map<nat, Place>,
                                        root: nat, pd: nat, pt: nat, v: nat)
    requires UserTo(mem, own, root, pd, v)
    requires forall f :: f in own && own[f].level >= 3 && f in mem ==> f in mem' && mem'[f] == mem[f]
    requires UserEntry(mem', pd, 2, v) && Frame(mem'[pd][Index(v, 2)]) == pt && UserPath(mem', pt, 1, v)
    ensures UserPath(mem', root, 4, v)
  {
    hide Index, User;
    assert UserPath(mem', pd, 2, v);
    assert UserPath(mem', Frame(mem[root][Index(v, 4)]), 3, v);
  }

  /** A huge leaf that is open opens all pages of its range. */
  lemma {:induction false} HugeUserPaths(mem: map<nat, seq<nat>>, mem': map<nat, seq<nat>>, own: map<nat, Place>,
                                         root: nat, pd: nat, v: nat)
    requires UserTo(mem, own, root, pd, v)
    requires forall f :: f in own && own[f].level >= 3 && f in mem ==> f in mem' && mem'[f] == mem[f]
    requires pd in mem' && |mem'[pd]| == ENTRIES
    requires var e := mem'[pd][Index(v, 2)]; Present(e) && Ends(2, e) && User(e)
    ensures forall w: nat :: Slot(w, 2) == Slot(v, 2) ==> UserPath(mem', root, 4, w)
  {
    hide Index, User;
    forall w: nat | Slot(w, 2) == Slot(v, 2) ensures UserPath(mem', root, 4, w) {
      SameSlot(v, w, 2);
      SameSlot(v, w, 3);
      SameSlot(v, w, 4);
      var pdp := Frame(mem[root][Index(v, 4)]);
      assert UserPath(mem', pd, 2, w);
      assert mem'[pdp][Index(w, 3)] == mem[pdp][Index(v, 3)];
      assert UserPath(mem', pdp, 3, w);
    }
  }

  ghost predicate UserEntry(mem: map<nat, seq<nat>>, t: nat, l: nat, v: nat)
    requires l >= 1
  {
    t in mem && |mem[t]| == ENTRIES && Leads(l, mem[t][Index(v, l)]) && User(mem[t][Index(v, l)])
  }

  /** `map_page`: the page gets its entry, every other page keeps its leaf. */
  method MapPage(m: Memory, root: nat, virt: nat, phys: nat, flags: nat, ghost own: map<nat, Place>)
    returns (ghost own': map<nat, Place>)
    requires Space(m, own, root) && flags < PAGE_SIZE
    requires NoHugeLeaf(m.frames, root, 4, PageNumber(virt))
    modifies m
    ensures Space(m, own', root) && (forall f :: f in own' ==> f in own || f !in old(m.frames))
    ensures LeafSet(old(m.frames), m.frames, root, 1, PageNumber(virt), Some(Leaf(1, PageEntry(phys, flags))))
    ensures User(flags) ==> UserPath(m.frames, root, 4, PageNumber(virt))
    ensures KeptExcept(old(m.frames), m.frames, own)
  {
    hide Tables, Index, PageEntry, SameLeaves, LeafSet, User, UserTo;
    ghost var v, mem := PageNumber(virt), m.frames;
    Indices(virt);
    ghost var own1, own2;
    var pd, pt;
    pd, own1 := WalkToDirectory(m, root, virt, flags, own);
    ghost var mid, directory := m.frames, m.frames;
    OwnedFrames(mid, own1);
    pt, own2 := Descend(m, pd, PdIndex(virt), flags, v, 2, own1);
    SameLeavesTrans(mem, mid, m.frames, own, own1);
    mid := m.frames;
    PageEntryIs(phys, flags);
    OwnedTable(m.frames, own2, pt);
    TablesKeep(m.frames, own2, pt, PtIndex(virt), PageEntry(phys, flags));
    LeafWritten(m.frames, own2, own2, root, pt, 1, v, PageEntry(phys, flags));
    m.Write(pt, PtIndex(virt), PageEntry(phys, flags));
    LeafSetAfter(mem, mid, m.frames, own, root, 1, v, Some(Leaf(1, PageEntry(phys, flags))));
    own' := own2;
    if User(flags) {
      UserPathFrom(directory, m.frames, own1, root, pd, pt, v);
    }
  }

  /** `map_page_huge`: all pages of the 2 MiB range get the huge leaf, every other page keeps its leaf. */
  method MapPageHuge(m: Memory, root: nat, virt: nat, phys: nat, flags: nat, ghost own: map<nat, Place>)
    returns (ghost own': map<nat, Place>)
    requires Space(m, own, root) && flags < PAGE_SIZE
    requires FindLeaf(m.frames, root, 4, PageNumber(virt)).Some? ==> FindLeaf(m.frames, root, 4, PageNumber(virt)).value.level <= 2
    modifies m
    ensures Space(m, own', root) && (forall f :: f in own' ==> f in own || f !in old(m.frames))
    ensures LeafSet(old(m.frames), m.frames, root, 2, PageNumber(virt), Some(Leaf(2, HugeEntry(phys, flags))))
    ensures User(flags) ==>
      forall w: nat :: Slot(w, 2) == Slot(PageNumber(virt), 2) ==> UserPath(m.frames, root, 4, w)
    ensures KeptExcept(old(m.frames), m.frames, own)
  {
    hide Tables, Index, HugeEntry, SameLeaves, LeafSet, User, UserTo;
    ghost var v, mem := PageNumber(virt), m.frames;
    Indices(virt);
    ghost var own1;
    var pd;
    pd, own1 := WalkToDirectory(m, root, virt, flags, own);
    ghost var mid := m.frames;
    HugeEntryIs(phys, flags);
    OwnedTable(m.frames, own1, pd);
    own' := DropTable(m.frames, own1, pd, PdIndex(virt), HugeEntry(phys, flags));
    LeafWritten(m.frames, own1, own', root, pd, 2, v, HugeEntry(phys, flags));
    m.Write(pd, PdIndex(virt), HugeEntry(phys, flags));
    LeafSetAfter(mem, mid, m.frames, own, root, 2, v, Some(Leaf(2, HugeEntry(phys, flags))));
    if User(flags) {
      HugeUserPaths(mid, m.frames, own1, root, pd, v);
    }
  }

  /** The tables left when a directory entry is overwritten by a huge leaf. */
  lemma {:induction false} DropTable(mem: map<nat, seq<nat>>, own: map<nat, Place>, t: nat, i: nat, e: nat)
    returns (own': map<nat, Place>)
    requires Tables(mem, own) && t in own && t in mem && |mem[t]| == ENTRIES && i < ENTRIES
    requires own[t].level == 2 && !Leads(2, e)
    ensures Tables(Written(mem, t, i, e), own')
    ensures forall f :: f in own' ==> f in own && own'[f] == own[f]
    ensures forall f :: f in own && own[f].level >= 2 ==> f in own'
  {
    if Leads(2, mem[t][i]) {
      var c := Frame(mem[t][i]);
      TablesCut(mem, own, t, i, e, c);
      own' := own - {c};
    } else {
      TablesKeep(mem, own, t, i, e);
      own' := own;
    }
  }

  /** `unmap_page`: the page loses its leaf, every other page keeps its own. */
  method UnmapPage(m: Memory, root: nat, virt: nat, ghost own: map<nat, Place>)
    requires Space(m, own, root)
    requires NoHugeLeaf(m.frames, root, 4, PageNumber(virt))
    modifies m
    ensures Space(m, own, root)
    ensures LeafSet(old(m.frames), m.frames, root, 1, PageNumber(virt), None)
    ensures KeptExcept(old(m.frames), m.frames, own)
  {
    hide Tables, Index;
    ghost var v := PageNumber(virt);
    Indices(virt);
    OwnedTable(m.frames, own, root);
    if !Present(m.frames[root][Pml4Index(virt)]) {
      AlreadyUnmapped(m.frames, root, v);
      return;
    }
    var pdp := Frame(m.frames[root][Pml4Index(virt)]);
    NextOnPath(m.frames, own, root, 4, v);
    OwnedTable(m.frames, own, pdp);
    if !Present(m.frames[pdp][PdpIndex(virt)]) {
      AlreadyUnmapped(m.frames, root, v);
      return;
    }
    var pd := Frame(m.frames[pdp][PdpIndex(virt)]);
    NextOnPath(m.frames, own, pdp, 3, v);
    OwnedTable(m.frames, own, pd);
    if !Present(m.frames[pd][PdIndex(virt)]) {
      AlreadyUnmapped(m.frames, root, v);
      return;
    }
    var pt := Frame(m.frames[pd][PdIndex(virt)]);
    NextOnPath(m.frames, own, pd, 2, v);
    OwnedTable(m.frames, own, pt);
    TablesKeep(m.frames, own, pt, PtIndex(virt), 0);
    LeafWritten(m.frames, own, own, root, pt, 1, v, 0);
    m.Write(pt, PtIndex(virt), 0);
  }

  lemma {:induction false} AlreadyUnmapped(mem: map<nat, seq<nat>>, root: nat, v: nat)
    requires FindLeaf(mem, root, 4, v).None?
    ensures LeafSet(mem, mem, root, 1, v, None)
  {
  }

  /** Mapping an unmapped page and unmapping it again restores the leaf of every page. */
  method MapThenUnmap(m: Memory, root: nat, virt: nat, phys: nat, flags: nat, ghost own: map<nat, Place>)
    returns (ghost own': map<nat, Place>)
    requires Space(m, own, root) && flags < PAGE_SIZE
    requires FindLeaf(m.frames, root, 4, PageNumber(virt)).None?
    modifies m
    ensures Space(m, own', root)
    ensures forall w: nat :: w < PAGES ==> FindLeaf(m.frames, root, 4, w) == FindLeaf(old(m.frames), root, 4, w)
  {
    hide Tables, LeafSet, FindLeaf, PageEntry;
    ghost var v, mem := PageNumber(virt), m.frames;
    own' := MapPage(m, root, virt, phys, flags, own);
    ghost var mid := m.frames;
    LeafSetAt(mem, mid, root, 1, v, Some(Leaf(1, PageEntry(phys, flags))));
    UnmapPage(m, root, virt, own');
    SetAndCleared(mem, mid, m.frames, root, v, Some(Leaf(1, PageEntry(phys, flags))));
  }

  lemma {:induction false} LeafSetAt(mem: map<nat, seq<nat>>, mem': map<nat, seq<nat>>, root: nat, l: nat, v: nat,
                                     leaf: Option<Leaf>)
    requires l >= 1 && v < PAGES && LeafSet(mem, mem', root, l, v, leaf)
    ensures FindLeaf(mem', root, 4, v) == leaf
  {
    assert PageSet(mem, mem', root, l, v, leaf, v);
  }

  lemma {:induction false} SetAndCleared(mem: map<nat, seq<nat>>, mid: map<nat, seq<nat>>, mem': map<nat, seq<nat>>,
                                         root: nat, v: nat, leaf: Option<Leaf>)
    requires v < PAGES && FindLeaf(mem, root, 4, v).None?
    requires LeafSet(mem, mid, root, 1, v, leaf) && LeafSet(mid, mem', root, 1, v, None)
    ensures forall w: nat :: w < PAGES ==> FindLeaf(mem', root, 4, w) == FindLeaf(mem, root, 4, w)
  {
    forall w: nat | w < PAGES ensures FindLeaf(mem', root, 4, w) == FindLeaf(mem, root, 4, w) {
      assert PageSet(mid, mem', root, 1, v, None, w);
      assert PageSet(mem, mid, root, 1, v, leaf, w);
    }
  }

  // ----- regions

  /** The low 12 bits of a leaf mapped with the flags. */
  function Attributes(level: nat, flags: nat): (r: nat) {
    if level == 1 then OrPresent(flags) else OrHuge(OrPresent(flags))
  }

  /** Page `w` is mapped to physical page `p` with the given flags, and open to user mode if they say so. */
  ghost predicate MappedTo(mem: map<nat, seq<nat>>, root: nat, w: nat, p: nat, flags: nat) {
    && PageAt(mem, root, w) == Some(p)
    && FindLeaf(mem, root, 4, w).value.entry % PAGE_SIZE == Attributes(FindLeaf(mem, root, 4, w).value.level, flags)
    && (User(flags) ==> UserPath(mem, root, 4, w))
  }

  /** Pages `v0 .. v0 + k - 1` are mapped to `p0 ..` one by one, every other page keeps its leaf. */
  ghost predicate RegionMapped(mem: map<nat, seq<nat>>, mem': map<nat, seq<nat>>, root: nat, v0: nat, p0: nat,
                               k: nat, flags: nat) {
    forall w: nat :: w < PAGES ==> RegionPage(mem, mem', root, v0, p0, k, flags, w)
  }

  ghost predicate RegionPage(mem: map<nat, seq<nat>>, mem': map<nat, seq<nat>>, root: nat, v0: nat, p0: nat, k: nat,
                             flags: nat, w: nat) {
    if v0 <= w < v0 + k then MappedTo(mem', root, w, p0 + w - v0, flags)
    else WalkKept(mem, mem', root, 4, w)
  }

  lemma {:induction false} RegionAddPage(mem: map<nat, seq<nat>>, mid: map<nat, seq<nat>>, mem': map<nat, seq<nat>>,
                                         root: nat, v0: nat, p0: nat, k: nat, flags: nat, phys: nat)
    requires RegionMapped(mem, mid, root, v0, p0, k, flags) && flags < PAGE_SIZE && phys / PAGE_SIZE == p0 + k
    requires LeafSet(mid, mem', root, 1, v0 + k, Some(Leaf(1, PageEntry(phys, flags))))
    requires User(flags) ==> UserPath(mem', root, 4, v0 + k)
    ensures RegionMapped(mem, mem', root, v0, p0, k + 1, flags)
  {
    hide PageEntry, FindLeaf, OrPresent;
    var v, leaf, k' := v0 + k, Leaf(1, PageEntry(phys, flags)), k + 1;
    PageEntryIs(phys, flags);
    forall w: nat | w < PAGES ensures RegionPage(mem, mem', root, v0, p0, k', flags, w) {
      assert RegionPage(mem, mid, root, v0, p0, k, flags, w);
      assert PageSet(mid, mem', root, 1, v, Some(leaf), w);
    }
  }

  lemma {:induction false} RegionAddHuge(mem: map<nat, seq<nat>>, mid: map<nat, seq<nat>>, mem': map<nat, seq<nat>>,
                                         root: nat, v0: nat, p0: nat, k: nat, flags: nat, phys: nat)
    requires RegionMapped(mem, mid, root, v0, p0, k, flags) && flags < PAGE_SIZE && phys / PAGE_SIZE == p0 + k
    requires (v0 + k) % 512 == 0 && (p0 + k) % 512 == 0
    requires LeafSet(mid, mem', root, 2, v0 + k, Some(Leaf(2, HugeEntry(phys, flags))))
    requires User(flags) ==> forall w: nat :: Slot(w, 2) == Slot(v0 + k, 2) ==> UserPath(mem', root, 4, w)
    ensures RegionMapped(mem, mem', root, v0, p0, k + 512, flags)
  {
    hide HugeEntry, FindLeaf, OrPresent;
    var v, leaf, k' := v0 + k, Leaf(2, HugeEntry(phys, flags)), k + 512;
    HugeEntryIs(phys, flags);
    assert phys / HUGE_SIZE * 512 == p0 + k;
    forall w: nat | w < PAGES ensures RegionPage(mem, mem', root, v0, p0, k', flags, w) {
      assert RegionPage(mem, mid, root, v0, p0, k, flags, w);
      assert PageSet(mid, mem', root, 2, v, Some(leaf), w);
      SlotIs(w);
      SlotIs(v);
      SameGroup(v, w);
    }
  }

  lemma {:induction false} SameGroup(v: nat, w: nat)
    requires v % 512 == 0
    ensures w / 512 == v / 512 <==> v <= w < v + 512
    ensures w / 512 == v / 512 ==> w % 512 == w - v
  {
  }

  /** The `k`-th page of a region that does not run over the end of the address space. */
  lemma {:induction false} RegionAddress(virt: nat, k: nat)
    requires PageNumber(virt) + k < PAGES
    ensures PageNumber(virt + k * PAGE_SIZE) == PageNumber(virt) + k
    ensures (virt + k * PAGE_SIZE) % HUGE_SIZE == 0 ==> (PageNumber(virt) + k) % 512 == 0
  {
    var p, w := virt / PAGE_SIZE, PageNumber(virt) + k;
    var q := p / PAGES;
    DivUnique(virt + k * PAGE_SIZE, PAGE_SIZE, p + k, virt % PAGE_SIZE);
    DivUnique(p + k, PAGES, q, w);
    HugeAligned(virt + k * PAGE_SIZE, p + k);
    DivUnique(p + k, 512, q * 0x800_0000 + w / 512, w % 512);
  }

  lemma {:induction false} HugeAligned(addr: nat, page: nat)
    requires page == addr / PAGE_SIZE
    ensures addr % HUGE_SIZE == 0 ==> page % 512 == 0
  {
    if addr % HUGE_SIZE == 0 {
      var m := addr / HUGE_SIZE;
      DivUnique(addr, PAGE_SIZE, 512 * m, 0);
      DivUnique(page, 512, m, 0);
    }
  }

  /**
    `vmm_map_region`: whatever mix of 2 MiB and 4 KiB entries is used, the result is that of mapping
    every page on its own. `map_page` is never called below a huge leaf.
  */
  method MapRegion(m: Memory, root: nat, virt: nat, phys: nat, size: nat, flags: nat, ghost own: map<nat, Place>)
    returns (ghost own': map<nat, Place>)
    requires Space(m, own, root) && flags < PAGE_SIZE
    requires PageNumber(virt) + (size + PAGE_SIZE - 1) / PAGE_SIZE <= PAGES
    requires forall w: nat :: PageNumber(virt) <= w < PageNumber(virt) + (size + PAGE_SIZE - 1) / PAGE_SIZE ==>
      FindLeaf(m.frames, root, 4, w).None?
    modifies m
    ensures Space(m, own', root) && KeptExcept(old(m.frames), m.frames, own)
    ensures RegionMapped(old(m.frames), m.frames, root, PageNumber(virt), phys / PAGE_SIZE, (size + PAGE_SIZE - 1) / PAGE_SIZE, flags)
  {
    hide Tables, LeafSet, RegionMapped, FindLeaf, PageEntry, HugeEntry, PageNumber;
    ghost var mem, v0, p0, n := m.frames, PageNumber(virt), phys / PAGE_SIZE, (size + PAGE_SIZE - 1) / PAGE_SIZE;
    ghost var k: nat := 0;
    own' := own;
    var offset := 0;
    RegionStart(mem, root, v0, p0, flags);
    while offset < size
      invariant offset == k * PAGE_SIZE && k <= n
      invariant Space(m, own', root) && KeptExcept(mem, m.frames, own)
      invariant forall f :: f in own' ==> f in own || f !in mem
      invariant RegionMapped(mem, m.frames, root, v0, p0, k, flags)
    {
      var currVirt, currPhys, remaining := virt + offset, phys + offset, size - offset;
      ghost var mid := m.frames;
      RegionAddress(virt, k);
      assert currPhys / PAGE_SIZE == p0 + k;
      RegionUnmapped(mem, mid, root, v0, p0, k, flags, v0 + k);
      if currVirt % HUGE_SIZE == 0 && currPhys % HUGE_SIZE == 0 && remaining >= HUGE_SIZE {
        HugeAligned(currPhys, p0 + k);
        own' := MapPageHuge(m, root, currVirt, currPhys, flags, own');
        RegionAddHuge(mem, mid, m.frames, root, v0, p0, k, flags, currPhys);
        offset, k := offset + HUGE_SIZE, k + 512;
      } else {
        own' := MapPage(m, root, currVirt, currPhys, flags, own');
        RegionAddPage(mem, mid, m.frames, root, v0, p0, k, flags, currPhys);
        offset, k := offset + PAGE_SIZE, k + 1;
      }
    }
    assert k == n;
  }

  lemma {:induction false} RegionStart(mem: map<nat, seq<nat>>, root: nat, v0: nat, p0: nat, flags: nat)
    ensures RegionMapped(mem, mem, root, v0, p0, 0, flags)
  {
    forall w: nat | w < PAGES ensures RegionPage(mem, mem, root, v0, p0, 0, flags, w) {
    }
  }

  lemma {:induction false} RegionUnmapped(mem: map<nat, seq<nat>>, mid: map<nat, seq<nat>>, root: nat, v0: nat,
                                          p0: nat, k: nat, flags: nat, w: nat)
    requires RegionMapped(mem, mid, root, v0, p0, k, flags) && w < PAGES && !(v0 <= w < v0 + k)
    ensures FindLeaf(mid, root, 4, w) == FindLeaf(mem, root, 4, w)
  {
    assert RegionPage(mem, mid, root, v0, p0, k, flags, w);
  }

  // ----- translation

  /** `vmm_virt_to_phys`: the physical address, or 0 if the page is not mapped. */
  method VirtToPhys(m: Memory, root: nat, virt: nat, ghost own: map<nat, Place>) returns (r: nat)
    requires Space(m, own, root)
    ensures r == match PageAt(m.frames, root, PageNumber(virt))
      case None => 0
      case Some(p) => p * PAGE_SIZE + virt % PAGE_SIZE
  {
    hide Tables, Index, PageNumber;
    ghost var v := PageNumber(virt);
    Indices(virt);
    OffsetInPage(virt);
    OwnedTable(m.frames, own, root);
    var e := m.frames[root][Pml4Index(virt)];
    if !Present(e) {
      return 0;
    }
    NextOnPath(m.frames, own, root, 4, v);
    var pdpt := Frame(e);
    OwnedTable(m.frames, own, pdpt);
    e := m.frames[pdpt][PdpIndex(virt)];
    if !Present(e) {
      return 0;
    }
    if Huge(e) {
      return e / GIANT_SIZE * GIANT_SIZE + virt % GIANT_SIZE;
    }
    NextOnPath(m.frames, own, pdpt, 3, v);
    var pd := Frame(e);
    OwnedTable(m.frames, own, pd);
    e := m.frames[pd][PdIndex(virt)];
    if !Present(e) {
      return 0;
    }
    if Huge(e) {
      return e / HUGE_SIZE * HUGE_SIZE + virt % HUGE_SIZE;
    }
    NextOnPath(m.frames, own, pd, 2, v);
    var pt := Frame(e);
    OwnedTable(m.frames, own, pt);
    e := m.frames[pt][PtIndex(virt)];
    if !Present(e) {
      return 0;
    }
    return Frame(e) * PAGE_SIZE + virt % PAGE_SIZE;
  }

  /** The part of an address below a huge page is the page in it and the offset in that. */
  lemma {:induction false} OffsetInPage(virt: nat)
    ensures virt % HUGE_SIZE == PageNumber(virt) % 512 * PAGE_SIZE + virt % PAGE_SIZE
    ensures virt % GIANT_SIZE == PageNumber(virt) % 0x4_0000 * PAGE_SIZE + virt % PAGE_SIZE
  {
    PageInGroup(virt, 512, HUGE_SIZE, 0x800_0000);
    PageInGroup(virt, 0x4_0000, GIANT_SIZE, 0x4_0000);
  }

  lemma {:induction false} PageInGroup(virt: nat, pages: nat, size: nat, groups: nat)
    requires pages > 0 && size == pages * PAGE_SIZE && PAGES == groups * pages
    ensures virt % size == PageNumber(virt) % pages * PAGE_SIZE + virt % PAGE_SIZE
  {
    var p, v, o := virt / PAGE_SIZE, PageNumber(virt), virt % PAGE_SIZE;
    var q, c, d := p / PAGES, v / pages, v % pages;
    InGroup(groups, pages, q, c);
    assert p == pages * (groups * q + c) + d;
    Scaled(virt, size, pages, groups * q + c, d, o);
    DivUnique(virt, size, groups * q + c, d * PAGE_SIZE + o);
  }

  lemma {:induction false} InGroup(groups: nat, pages: nat, q: nat, c: nat)
    ensures groups * pages * q + pages * c == pages * (groups * q + c)
  {
  }

  lemma {:induction false} Scaled(virt: nat, size: nat, pages: nat, a: nat, d: nat, o: nat)
    requires size == pages * PAGE_SIZE && virt == (pages * a + d) * PAGE_SIZE + o && d < pages && o < PAGE_SIZE
    ensures virt == size * a + (d * PAGE_SIZE + o) && d * PAGE_SIZE + o < size
  {
    assert pages * a * PAGE_SIZE == size * a;
  }
}
