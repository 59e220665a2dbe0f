/**
  Four-level page tables over physical frames. A frame holds 512 words; a table entry is a word
  whose low 12 bits are attributes and whose remaining bits are a frame number.
*/
module PageTables {
  import opened Arith

  const ENTRIES: nat := 512
  const PAGES: nat := 0x10_0000_0000
  const PAGE_SIZE: nat := 4096
  const HUGE_SIZE: nat := 0x20_0000
  const GIANT_SIZE: nat := 0x4000_0000

  // ----- entries

  predicate Present(e: nat) {
    e % 2 == 1
  }

  predicate User(e: nat) {
    (e / 4) % 2 == 1
  }

  predicate Huge(e: nat) {
    (e / 128) % 2 == 1
  }

  function Frame(e: nat): (f: nat) {
    e / PAGE_SIZE
  }

  function OrPresent(e: nat): (r: nat) {
    if Present(e) then e else e + 1
  }

  function OrHuge(e: nat): (r: nat) {
    if Huge(e) then e else e + 128
  }

  /** `entry |= flags & PTE_USER` */
  function OrUser(e: nat, flags: nat): (r: nat) {
    if User(flags) && !User(e) then e + 4 else e
  }

  /** A new table: frame, present, writable, and the user bit of the flags. */
  function TableEntry(f: nat, flags: nat): (e: nat) {
    f * PAGE_SIZE + 3 + if User(flags) then 4 else 0
  }

  /** A 4 KiB leaf. */
  function PageEntry(phys: nat, flags: nat): (e: nat) {
    phys / PAGE_SIZE * PAGE_SIZE + OrPresent(flags)
  }

  /** A 2 MiB leaf. */
  function HugeEntry(phys: nat, flags: nat): (e: nat) {
    phys / HUGE_SIZE * HUGE_SIZE + OrHuge(OrPresent(flags))
  }

  lemma {:induction false} OrUserKeeps(e: nat, flags: nat)
    ensures Frame(OrUser(e, flags)) == Frame(e)
    ensures Present(OrUser(e, flags)) == Present(e) && Huge(OrUser(e, flags)) == Huge(e)
    ensures User(OrUser(e, flags)) == (User(e) || User(flags))
  {
    if User(flags) && !User(e) {
      BitTwo(e);
      PlusFourHigh(e);
      PlusFourLow(e);
    }
  }

  lemma {:induction false} PlusFourHigh(e: nat)
    requires e % 8 < 4
    ensures Frame(e + 4) == Frame(e) && Huge(e + 4) == Huge(e)
  {
    DivUnique(e + 4, 8, e / 8, e % 8 + 4);
    GroupOf(e, e / 8);
    GroupOf(e + 4, e / 8);
  }

  lemma {:induction false} PlusFourLow(e: nat)
    requires !User(e)
    ensures Present(e + 4) == Present(e) && User(e + 4)
  {
    DivUnique(e + 4, 4, e / 4 + 1, e % 4);
  }

  lemma {:induction false} BitTwo(e: nat)
    ensures User(e) <==> e % 8 >= 4
  {
    DivUnique(e, 4, 2 * (e / 8) + e % 8 / 4, e % 4);
  }

  lemma {:induction false} GroupOf(e: nat, k: nat)
    requires e / 8 == k
    ensures e / 128 == k / 16 && e / PAGE_SIZE == k / 512
  {
    DivUnique(e, 128, k / 16, k % 16 * 8 + e % 8);
    DivUnique(e, PAGE_SIZE, k / 512, k % 512 * 8 + e % 8);
  }

  /** The low bits of an entry are its attributes. */
  lemma {:induction false} EntryBits(e: nat, q: nat, low: nat)
    requires low < PAGE_SIZE && e == PAGE_SIZE * q + low
    ensures e / PAGE_SIZE == q && e % PAGE_SIZE == low
    ensures e % 2 == low % 2 && (e / 4) % 2 == (low / 4) % 2 && (e / 128) % 2 == (low / 128) % 2
  {
    DivUnique(e, PAGE_SIZE, q, low);
    EvenMultiple(q);
    Grouped(e, 32 * q, low);
  }

  lemma {:induction false} EvenMultiple(q: nat)
    ensures (32 * q) % 2 == 0
  {
    DivUnique(32 * q, 2, 16 * q, 0);
  }

  lemma {:induction false} TableEntryIs(f: nat, flags: nat)
    ensures Frame(TableEntry(f, flags)) == f && Present(TableEntry(f, flags)) && !Huge(TableEntry(f, flags))
    ensures User(TableEntry(f, flags)) == User(flags)
  {
    var e, low := TableEntry(f, flags), 3 + if User(flags) then 4 else 0;
    EntryBits(e, f, low);
  }

  lemma {:induction false} OrFlags(flags: nat)
    requires flags < PAGE_SIZE
    ensures OrPresent(flags) < PAGE_SIZE && Present(OrPresent(flags)) && Huge(OrPresent(flags)) == Huge(flags)
    ensures OrHuge(OrPresent(flags)) < PAGE_SIZE && Present(OrHuge(OrPresent(flags))) && Huge(OrHuge(OrPresent(flags)))
  {
  }

  lemma {:induction false} OrFlagsUser(flags: nat)
    ensures User(OrPresent(flags)) == User(flags) && User(OrHuge(OrPresent(flags))) == User(flags)
  {
    OneMoreUser(flags);
    MoreUser(OrPresent(flags));
  }

  lemma {:induction false} OneMoreUser(e: nat)
    ensures !Present(e) ==> User(e + 1) == User(e)
  {
    if !Present(e) {
      DivUnique(e, 2, 2 * (e / 4) + e % 4 / 2, e % 4 % 2);
      DivUnique(e + 1, 4, e / 4, e % 4 + 1);
    }
  }

  lemma {:induction false} MoreUser(e: nat)
    ensures User(e + 128) == User(e)
  {
    DivUnique(e + 128, 4, e / 4 + 32, e % 4);
  }

  lemma {:induction false} PageEntryIs(phys: nat, flags: nat)
    requires flags < PAGE_SIZE
    ensures var e := PageEntry(phys, flags);
      Present(e) && Frame(e) == phys / PAGE_SIZE && e % PAGE_SIZE == OrPresent(flags) && User(e) == User(flags)
  {
    hide OrPresent, Huge;
    OrFlags(flags);
    OrFlagsUser(flags);
    EntryBits(PageEntry(phys, flags), phys / PAGE_SIZE, OrPresent(flags));
  }

  lemma {:induction false} HugeEntryIs(phys: nat, flags: nat)
    requires flags < PAGE_SIZE
    ensures var e := HugeEntry(phys, flags);
      && Present(e) && Huge(e) && e / HUGE_SIZE == phys / HUGE_SIZE
      && e % PAGE_SIZE == OrHuge(OrPresent(flags)) && User(e) == User(flags)
  {
    OrFlags(flags);
    OrFlagsUser(flags);
    LowBits(phys / HUGE_SIZE, OrHuge(OrPresent(flags)));
  }

  lemma {:induction false} LowBits(q: nat, low: nat)
    requires low < PAGE_SIZE
    ensures var e := q * HUGE_SIZE + low;
      && e / HUGE_SIZE == q && e % PAGE_SIZE == low
      && e % 2 == low % 2 && (e / 4) % 2 == (low / 4) % 2 && (e / 128) % 2 == (low / 128) % 2
  {
    var e := q * HUGE_SIZE + low;
    DivUnique(e, HUGE_SIZE, q, low);
    EntryBits(e, 512 * q, low);
  }

  lemma {:induction false} Grouped(e: nat, k: nat, low: nat)
    requires e == 128 * k + low && k % 2 == 0
    ensures e % 2 == low % 2 && (e / 128) % 2 == (low / 128) % 2
    ensures (e / 4) % 2 == (low / 4) % 2
  {
    DivUnique(e, 128, k + low / 128, low % 128);
    DivUnique(e, 2, 64 * k + low / 2, low % 2);
    GroupedUser(e, k, low);
  }

  lemma {:induction false} GroupedUser(e: nat, k: nat, low: nat)
    requires e == 128 * k + low
    ensures (e / 4) % 2 == (low / 4) % 2
  {
    var q := low / 4;
    DivUnique(e, 4, 32 * k + q, low % 4);
    DivUnique(32 * k + q, 2, 16 * k + q / 2, q % 2);
  }

  // ----- walking

  /** The number of the level-`l` entry that page `v` passes, counted over all tables of that level. */
  function Slot(v: nat, l: nat): (s: nat)
    requires l >= 1
    decreases l
  {
    if l == 1 then v else Slot(v, l - 1) / ENTRIES
  }

  function Index(v: nat, l: nat): (i: nat)
    requires l >= 1
    ensures i < ENTRIES
  {
    Slot(v, l) % ENTRIES
  }

  lemma {:induction false} SlotSplit(v: nat, l: nat)
    requires l >= 1
    ensures Slot(v, l) == Slot(v, l + 1) * ENTRIES + Index(v, l)
  {
  }

  /** A present entry ends the walk at level 1, and at levels 2 and 3 if it is huge. */
  predicate Ends(l: nat, e: nat) {
    l == 1 || (l <= 3 && Huge(e))
  }

  /** The entry leads to a table of the next level. */
  predicate Leads(l: nat, e: nat) {
    l >= 2 && Present(e) && !Ends(l, e)
  }

  datatype Leaf = Leaf(level: nat, entry: nat)

  /** The leaf entry for page `v` below the table in frame `t`. */
  function FindLeaf(mem: map<nat, seq<nat>>, t: nat, l: nat, v: nat): (r: Option<Leaf>)
    requires l >= 1
    decreases l
  {
    if t !in mem || |mem[t]| != ENTRIES then None
    else
      var e := mem[t][Index(v, l)];
      if !Present(e) then None
      else if Ends(l, e) then Some(Leaf(l, e))
      else if l == 1 then None
      else FindLeaf(mem, Frame(e), l - 1, v)
  }

  /** The physical page a leaf gives to page `v`. */
  function PageOf(leaf: Leaf, v: nat): (p: nat) {
    if leaf.level == 1 then Frame(leaf.entry)
    else if leaf.level == 2 then leaf.entry / HUGE_SIZE * 512 + v % 512
    else leaf.entry / GIANT_SIZE * 0x4_0000 + v % 0x4_0000
  }

  /** The physical page of page `v`, if it is mapped. */
  function PageAt(mem: map<nat, seq<nat>>, root: nat, v: nat): (p: Option<nat>) {
    match FindLeaf(mem, root, 4, v)
    case None => None
    case Some(leaf) => Some(PageOf(leaf, v))
  }

  // ----- tables form a tree

  /** Level of a table, and the number of the entry that leads to it. */
  datatype Place = Place(level: nat, slot: nat)

  ghost predicate Table(mem: map<nat, seq<nat>>, own: map<nat, Place>, t: nat)
    requires t in own
  {
    && t in mem && |mem[t]| == ENTRIES && 1 <= own[t].level <= 4
    && forall i :: 0 <= i < ENTRIES ==> EntryOk(own, own[t], i, mem[t][i])
  }

  /** An entry that leads on leads to an owned table, at the place the entry gives it. */
  ghost predicate EntryOk(own: map<nat, Place>, place: Place, i: nat, e: nat) {
    Leads(place.level, e) ==>
      Frame(e) in own && own[Frame(e)] == Place(place.level - 1, place.slot * ENTRIES + i)
  }

  /** Some table leads to `u`, through the entry that gives `u` its place. */
  ghost predicate Linked(mem: map<nat, seq<nat>>, own: map<nat, Place>, u: nat)
    requires u in own
  {
    own[u].level == 4 || exists t :: LinkedFrom(mem, own, u, t)
  }

  ghost predicate LinkedFrom(mem: map<nat, seq<nat>>, own: map<nat, Place>, u: nat, t: nat)
    requires u in own
  {
    && t in own && own[t] == Place(own[u].level + 1, own[u].slot / ENTRIES)
    && t in mem && |mem[t]| == ENTRIES
    && Leads(own[t].level, mem[t][own[u].slot % ENTRIES]) && Frame(mem[t][own[u].slot % ENTRIES]) == u
  }

  /** The owned tables are exactly those reached from the top, each through one entry. */
  ghost predicate Tables(mem: map<nat, seq<nat>>, own: map<nat, Place>) {
    && (forall t :: t in own ==> Table(mem, own, t))
    && (forall t, u :: t in own && u in own && own[t] == own[u] ==> t == u)
    && (forall u :: u in own ==> Linked(mem, own, u))
  }

  lemma {:induction false} OwnedTable(mem: map<nat, seq<nat>>, own: map<nat, Place>, t: nat)
    requires Tables(mem, own) && t in own
    ensures t in mem && |mem[t]| == ENTRIES && 1 <= own[t].level <= 4
    ensures forall i :: 0 <= i < ENTRIES ==> EntryOk(own, own[t], i, mem[t][i])
  {
    assert Table(mem, own, t);
  }

  lemma {:induction false} OwnedFrames(mem: map<nat, seq<nat>>, own: map<nat, Place>)
    requires Tables(mem, own)
    ensures forall f :: f in own ==> f in mem
  {
    forall f | f in own ensures f in mem {
      OwnedTable(mem, own, f);
    }
  }

  ghost predicate OnPath(own: map<nat, Place>, t: nat, l: nat, v: nat) {
    l >= 1 && t in own && own[t] == Place(l, Slot(v, l + 1))
  }

  /** Following an entry stays on the path of the page. */
  lemma {:induction false} NextOnPath(mem: map<nat, seq<nat>>, own: map<nat, Place>, t: nat, l: nat, v: nat)
    requires Tables(mem, own) && OnPath(own, t, l, v) && l >= 2 && t in mem && |mem[t]| == ENTRIES
    requires Leads(l, mem[t][Index(v, l)])
    ensures OnPath(own, Frame(mem[t][Index(v, l)]), l - 1, v)
    ensures FindLeaf(mem, t, l, v) == FindLeaf(mem, Frame(mem[t][Index(v, l)]), l - 1, v)
  {
    assert Table(mem, own, t);
    assert EntryOk(own, own[t], Index(v, l), mem[t][Index(v, l)]);
    SlotSplit(v, l);
  }

  /** The walk of a page passes every owned table on its path. */
  lemma {:induction false} Reached(mem: map<nat, seq<nat>>, own: map<nat, Place>, root: nat, t: nat, l: nat, v: nat)
    requires Tables(mem, own) && root in own && own[root] == Place(4, 0) && OnPath(own, t, l, v) && Slot(v, 5) == 0
    ensures l <= 4 && FindLeaf(mem, root, 4, v) == FindLeaf(mem, t, l, v)
    decreases 4 - l
  {
    hide FindLeaf, Slot, Index;
    OwnedTable(mem, own, t);
    if l < 4 {
      assert Linked(mem, own, t);
      var p :| LinkedFrom(mem, own, t, p);
      ReachedStep(mem, own, p, t, l, v);
      Reached(mem, own, root, p, l + 1, v);
    }
  }

  lemma {:induction false} ReachedStep(mem: map<nat, seq<nat>>, own: map<nat, Place>, p: nat, t: nat, l: nat, v: nat)
    requires OnPath(own, t, l, v) && LinkedFrom(mem, own, t, p)
    ensures OnPath(own, p, l + 1, v) && FindLeaf(mem, p, l + 1, v) == FindLeaf(mem, t, l, v)
  {
    assert Slot(v, l + 2) == Slot(v, l + 1) / ENTRIES;
  }

  /** All entries on the way to page `v` let user mode through. */
  predicate UserPath(mem: map<nat, seq<nat>>, t: nat, l: nat, v: nat)
    requires l >= 1
    decreases l
  {
    && t in mem && |mem[t]| == ENTRIES
    && Present(mem[t][Index(v, l)]) && User(mem[t][Index(v, l)])
    && (Leads(l, mem[t][Index(v, l)]) ==> UserPath(mem, Frame(mem[t][Index(v, l)]), l - 1, v))
  }

  /** The walk from a table finds the same leaf, and user mode loses no way to it. */
  ghost predicate WalkKept(mem: map<nat, seq<nat>>, mem': map<nat, seq<nat>>, t: nat, l: nat, v: nat)
    requires l >= 1
  {
    FindLeaf(mem', t, l, v) == FindLeaf(mem, t, l, v) && (UserPath(mem, t, l, v) ==> UserPath(mem', t, l, v))
  }

  /** A change to one table matters only to the pages whose walk through that table changes. */
  lemma {:induction false} SameWalk(mem: map<nat, seq<nat>>, mem': map<nat, seq<nat>>, own: map<nat, Place>,
                                    t: nat, u: nat, l: nat, v: nat)
    requires Tables(mem, own) && t in own && OnPath(own, u, l, v)
    requires forall f :: f in own && f != t ==> f in mem' && f in mem && mem'[f] == mem[f]
    requires OnPath(own, t, own[t].level, v) ==> WalkKept(mem, mem', t, own[t].level, v)
    ensures WalkKept(mem, mem', u, l, v)
    decreases l
  {
    hide Tables, Index;
    if u != t {
      OwnedTable(mem, own, u);
      var e := mem[u][Index(v, l)];
      if Leads(l, e) {
        NextOnPath(mem, own, u, l, v);
        SameWalk(mem, mem', own, t, Frame(e), l - 1, v);
      }
    }
  }

  function ZeroFrame(): (z: seq<nat>)
    ensures |z| == ENTRIES && forall i :: 0 <= i < ENTRIES ==> z[i] == 0
  {
    seq(ENTRIES, i => 0)
  }

  lemma {:induction false} ZeroFrameEmpty(mem: map<nat, seq<nat>>, t: nat, l: nat, v: nat)
    requires l >= 1 && t in mem && mem[t] == ZeroFrame()
    ensures FindLeaf(mem, t, l, v) == None
  {
  }

  // ----- writes to one entry

  function Written(mem: map<nat, seq<nat>>, t: nat, i: nat, e: nat): (r: map<nat, seq<nat>>)
    requires t in mem && i < |mem[t]|
  {
    var table: seq<nat> := mem[t][i := e];
    mem[t := table]
  }

  /** A write that leads where the old entry led keeps the tree. */
  lemma {:induction false} TablesKeep(mem: map<nat, seq<nat>>, own: map<nat, Place>, t: nat, i: nat, e: nat)
    requires Tables(mem, own) && t in own && t in mem && |mem[t]| == ENTRIES && i < ENTRIES
    requires Leads(own[t].level, e) == Leads(own[t].level, mem[t][i])
    requires Leads(own[t].level, e) ==> Frame(e) == Frame(mem[t][i])
    ensures Tables(Written(mem, t, i, e), own)
  {
    var mem' := Written(mem, t, i, e);
    forall u | u in own ensures Table(mem', own, u) && Linked(mem', own, u) {
      assert Table(mem, own, u) && Linked(mem, own, u);
      if own[u].level != 4 {
        var p :| LinkedFrom(mem, own, u, p);
        assert LinkedFrom(mem', own, u, p);
      }
    }
  }

  /** The place below an entry that leads nowhere is not taken. */
  lemma {:induction false} PlaceIsFree(mem: map<nat, seq<nat>>, own: map<nat, Place>, t: nat, i: nat, u: nat)
    requires Tables(mem, own) && t in own && u in own && t in mem && |mem[t]| == ENTRIES && i < ENTRIES
    requires 2 <= own[t].level <= 4 && own[u] == Place(own[t].level - 1, own[t].slot * ENTRIES + i)
    ensures Leads(own[t].level, mem[t][i]) && Frame(mem[t][i]) == u
  {
    assert Linked(mem, own, u);
    var p :| LinkedFrom(mem, own, u, p);
    assert own[p] == own[t];
  }

  /** An owned table stays one if its entries lead where they led and the owners are kept. */
  lemma {:induction false} TableKept(mem: map<nat, seq<nat>>, mem': map<nat, seq<nat>>,
                                     own: map<nat, Place>, own': map<nat, Place>, u: nat)
    requires u in own && Table(mem, own, u) && u in own' && own'[u] == own[u] && u in mem' && |mem'[u]| == ENTRIES
    requires forall j :: 0 <= j < ENTRIES ==> mem'[u][j] == mem[u][j] || EntryOk(own', own[u], j, mem'[u][j])
    requires forall j :: 0 <= j < ENTRIES && Leads(own[u].level, mem[u][j]) && mem'[u][j] == mem[u][j] ==>
      (Frame(mem[u][j]) in own ==> Frame(mem[u][j]) in own' && own'[Frame(mem[u][j])] == own[Frame(mem[u][j])])
    ensures Table(mem', own', u)
  {
    forall j | 0 <= j < ENTRIES ensures EntryOk(own', own'[u], j, mem'[u][j]) {
      assert EntryOk(own, own[u], j, mem[u][j]);
    }
  }

  /** A table stays linked if its parent entry leads to it still. */
  lemma {:induction false} LinkedKept(mem: map<nat, seq<nat>>, mem': map<nat, seq<nat>>,
                                      own: map<nat, Place>, own': map<nat, Place>, u: nat)
    requires u in own && Linked(mem, own, u) && u in own' && own'[u] == own[u]
    requires forall p :: LinkedFrom(mem, own, u, p) ==>
      && p in own' && own'[p] == own[p] && p in mem' && |mem'[p]| == ENTRIES
      && mem'[p][own[u].slot % ENTRIES] == mem[p][own[u].slot % ENTRIES]
    ensures Linked(mem', own', u)
  {
    if own[u].level != 4 {
      var p :| LinkedFrom(mem, own, u, p);
      assert LinkedFrom(mem', own', u, p);
    }
  }

  /** A new empty table below an entry that led nowhere. */
  lemma {:induction false} TablesGrow(mem: map<nat, seq<nat>>, own: map<nat, Place>, t: nat, i: nat, e: nat, c: nat)
    requires Tables(mem, own) && t in own && t in mem && |mem[t]| == ENTRIES && i < ENTRIES
    requires own[t].level >= 2 && !Leads(own[t].level, mem[t][i])
    requires Leads(own[t].level, e) && Frame(e) == c && c !in mem
    ensures Tables(Written(mem[c := ZeroFrame()], t, i, e), own[c := Place(own[t].level - 1, own[t].slot * ENTRIES + i)])
  {
    hide Linked, LinkedFrom, Leads, Frame;
    var place := Place(own[t].level - 1, own[t].slot * ENTRIES + i);
    var mem', own' := Written(mem[c := ZeroFrame()], t, i, e), own[c := place];
    OwnedTable(mem, own, t);
    forall u | u in own ensures own[u] != place && u != c && Table(mem', own', u) && Linked(mem', own', u) {
      OwnedTable(mem, own, u);
      if own[u] == place {
        PlaceIsFree(mem, own, t, i, u);
      }
      TableKept(mem, mem', own, own', u);
      forall p | LinkedFrom(mem, own, u, p)
        ensures p in own && p in mem && |mem[p]| == ENTRIES && (p == t ==> own[u].slot % ENTRIES != i)
      {
        LinkNotAt(mem, own, u, p, t, i);
      }
      LinkedKept(mem, mem', own, own', u);
    }
    NewTable(mem', own', t, i, c);
  }

  lemma {:induction false} LinkNotAt(mem: map<nat, seq<nat>>, own: map<nat, Place>, u: nat, p: nat, t: nat, i: nat)
    requires u in own && LinkedFrom(mem, own, u, p) && t in own && t in mem && |mem[t]| == ENTRIES && i < ENTRIES
    requires !Leads(own[t].level, mem[t][i]) || Frame(mem[t][i]) != u
    ensures p in own && p in mem && |mem[p]| == ENTRIES && own[p].level == own[u].level + 1
    ensures p == t ==> own[u].slot % ENTRIES != i
  {
  }

  lemma {:induction false} NewTable(mem: map<nat, seq<nat>>, own: map<nat, Place>, t: nat, i: nat, c: nat)
    requires t in own && t in mem && |mem[t]| == ENTRIES && i < ENTRIES && 2 <= own[t].level <= 4
    requires Leads(own[t].level, mem[t][i]) && Frame(mem[t][i]) == c
    requires c in own && own[c] == Place(own[t].level - 1, own[t].slot * ENTRIES + i) && c in mem && mem[c] == ZeroFrame()
    ensures Table(mem, own, c) && Linked(mem, own, c)
  {
    assert LinkedFrom(mem, own, c, t);
  }

  /** Overwriting the entry of a level-1 table by one that leads nowhere drops that table. */
  lemma {:induction false} TablesCut(mem: map<nat, seq<nat>>, own: map<nat, Place>, t: nat, i: nat, e: nat, c: nat)
    requires Tables(mem, own) && t in own && t in mem && |mem[t]| == ENTRIES && i < ENTRIES
    requires own[t].level == 2 && Leads(2, mem[t][i]) && Frame(mem[t][i]) == c && !Leads(2, e)
    ensures c in own && own[c] == Place(1, own[t].slot * ENTRIES + i) && Tables(Written(mem, t, i, e), own - {c})
  {
    hide Linked, LinkedFrom, Leads, Frame;
    OwnedTable(mem, own, t);
    assert EntryOk(own, own[t], i, mem[t][i]);
    var mem', own' := Written(mem, t, i, e), own - {c};
    forall u | u in own' ensures Table(mem', own', u) && Linked(mem', own', u) {
      OwnedTable(mem, own, u);
      forall j | 0 <= j < ENTRIES && Leads(own[u].level, mem[u][j]) && mem'[u][j] == mem[u][j]
        ensures Frame(mem[u][j]) != c
      {
        assert EntryOk(own, own[u], j, mem[u][j]);
      }
      TableKept(mem, mem', own, own', u);
      forall p | LinkedFrom(mem, own, u, p)
        ensures p in own' && p in mem && |mem[p]| == ENTRIES && (p == t ==> own[u].slot % ENTRIES != i)
      {
        LinkNotAt(mem, own, u, p, t, i);
      }
      LinkedKept(mem, mem', own, own', u);
    }
  }

  /** All walks that start at a table of `own` find the same leaf. */
  ghost predicate SameLeaves(mem: map<nat, seq<nat>>, mem': map<nat, seq<nat>>, own: map<nat, Place>) {
    forall u, l, v :: OnPath(own, u, l, v) ==> WalkKept(mem, mem', u, l, v)
  }
}
