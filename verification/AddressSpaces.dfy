/** Deep copy and teardown of the user half of an address space: `vmm_clone_pml4`, `vmm_free_user_pages`. */
module AddressSpaces {
  import opened Arith
  import opened PageTables
  import opened PageMapping

  type Frames = map<nat, seq<nat>>

  const USER_ENTRIES: nat := 256

  /** The entry is followed by clone and teardown: present, and not a huge page. */
  predicate Child(l: nat, e: nat) {
    Present(e) && !((l == 2 || l == 3) && Huge(e))
  }

  /** Attributes decide whether an entry is followed. */
  lemma {:induction false} ChildByFlags(l: nat, e: nat, e': nat)
    requires e % PAGE_SIZE == e' % PAGE_SIZE
    ensures Child(l, e) == Child(l, e') && Present(e) == Present(e') && Huge(e) == Huge(e')
  {
    Low(e);
    Low(e');
  }

  lemma {:induction false} Low(e: nat)
    ensures e % 2 == e % PAGE_SIZE % 2 && (e / 128) % 2 == (e % PAGE_SIZE) / 128 % 2
  {
    EntryBits(e, e / PAGE_SIZE, e % PAGE_SIZE);
  }

  /** The frames of the first `n` entries of a table are in memory, and so are all frames below them. */
  ghost predicate Shape(mem: Frames, t: nat, l: nat, n: nat)
    decreases l
  {
    && t in mem && |mem[t]| == ENTRIES && n <= ENTRIES
    && (l > 0 ==> forall i :: 0 <= i < n && Child(l, mem[t][i]) ==> Shape(mem, Frame(mem[t][i]), l - 1, ENTRIES))
  }

  // ----- the frames below a table, in the order of teardown

  ghost function Order(mem: Frames, t: nat, l: nat, n: nat): (o: seq<nat>)
    requires n <= ENTRIES && t in mem && |mem[t]| == ENTRIES
    decreases l, n
  {
    if n == 0 || l == 0 then [] else Order(mem, t, l, n - 1) + EntryOrder(mem, l, mem[t][n - 1])
  }

  ghost function EntryOrder(mem: Frames, l: nat, e: nat): (o: seq<nat>)
    requires l >= 1
    decreases l, 0
  {
    if !Child(l, e) then []
    else (if Frame(e) in mem && |mem[Frame(e)]| == ENTRIES then Order(mem, Frame(e), l - 1, ENTRIES) else []) + [Frame(e)]
  }

  ghost predicate Same(m1: Frames, m2: Frames, f: nat) {
    f in m1 && f in m2 && m1[f] == m2[f]
  }

  /** The order depends only on the entries of the table and the frames listed. */
  lemma {:induction false} OrderKept(m1: Frames, m2: Frames, t: nat, l: nat, n: nat)
    requires n <= ENTRIES && t in m1 && |m1[t]| == ENTRIES && t in m2 && |m2[t]| == ENTRIES
    requires forall i :: 0 <= i < n ==> m2[t][i] == m1[t][i]
    requires forall f :: f in Order(m1, t, l, n) ==> Same(m1, m2, f)
    ensures Order(m2, t, l, n) == Order(m1, t, l, n)
    decreases l, n
  {
    if n > 0 && l > 0 {
      OrderKept(m1, m2, t, l, n - 1);
      EntryOrderKept(m1, m2, l, m1[t][n - 1]);
    }
  }

  lemma {:induction false} EntryOrderKept(m1: Frames, m2: Frames, l: nat, e: nat)
    requires l >= 1 && forall f :: f in EntryOrder(m1, l, e) ==> Same(m1, m2, f)
    ensures EntryOrder(m2, l, e) == EntryOrder(m1, l, e)
    decreases l, 0
  {
    if Child(l, e) {
      var c := Frame(e);
      assert c in EntryOrder(m1, l, e);
      if |m1[c]| == ENTRIES {
        OrderKept(m1, m2, c, l - 1, ENTRIES);
      }
    }
  }

  // ----- what a clone is

  ghost predicate Cloned(m0: Frames, m1: Frames, s: nat, d: nat, l: nat, n: nat)
    decreases l, 1
  {
    && s in m0 && |m0[s]| == ENTRIES && d in m1 && |m1[d]| == ENTRIES && n <= ENTRIES
    && if l == 0 then m1[d] == m0[s] else forall i :: 0 <= i < n ==> ClonedEntry(m0, m1, l, m0[s][i], m1[d][i])
  }

  /** Same attributes and a cloned frame where the source is followed, nothing elsewhere. */
  ghost predicate ClonedEntry(m0: Frames, m1: Frames, l: nat, e: nat, e': nat)
    requires l >= 1
    decreases l, 0
  {
    if Child(l, e) then e' % PAGE_SIZE == e % PAGE_SIZE && Cloned(m0, m1, Frame(e), Frame(e'), l - 1, ENTRIES)
    else e' == 0
  }

  /** A clone stays a clone while the listed frames are kept. */
  lemma {:induction false} ClonedKept(m0: Frames, m1: Frames, m2: Frames, s: nat, d: nat, l: nat, n: nat)
    requires Cloned(m0, m1, s, d, l, n) && d in m2 && |m2[d]| == ENTRIES && (l == 0 ==> m2[d] == m1[d])
    requires forall i :: 0 <= i < n ==> m2[d][i] == m1[d][i]
    requires forall f :: f in Order(m1, d, l, n) ==> Same(m1, m2, f)
    ensures Cloned(m0, m2, s, d, l, n)
    decreases l, 1
  {
    if l > 0 {
      forall i | 0 <= i < n ensures ClonedEntry(m0, m2, l, m0[s][i], m2[d][i]) {
        assert ClonedEntry(m0, m1, l, m0[s][i], m1[d][i]);
        EntryInOrder(m1, d, l, n, i);
        ClonedEntryKept(m0, m1, m2, l, m0[s][i], m1[d][i]);
      }
    }
  }

  lemma {:induction false} ClonedEntryKept(m0: Frames, m1: Frames, m2: Frames, l: nat, e: nat, e': nat)
    requires l >= 1 && ClonedEntry(m0, m1, l, e, e')
    requires forall f :: f in EntryOrder(m1, l, e') ==> Same(m1, m2, f)
    ensures ClonedEntry(m0, m2, l, e, e')
    decreases l, 0
  {
    if Child(l, e) {
      ChildByFlags(l, e, e');
      assert Frame(e') in EntryOrder(m1, l, e');
      ClonedKept(m0, m1, m2, Frame(e), Frame(e'), l - 1, ENTRIES);
    }
  }

  lemma {:induction false} EntryInOrder(mem: Frames, t: nat, l: nat, n: nat, i: nat)
    requires i < n <= ENTRIES && t in mem && |mem[t]| == ENTRIES && l >= 1
    ensures forall f :: f in EntryOrder(mem, l, mem[t][i]) ==> f in Order(mem, t, l, n)
    decreases n
  {
    if i < n - 1 {
      EntryInOrder(mem, t, l, n - 1, i);
    }
  }

  // ----- cloning

  ghost predicate Extends(m0: Frames, m: Frames) {
    forall f :: f in m0 ==> Same(m0, m, f)
  }

  /** The frames below the table are distinct, and exactly those that were not in use before. */
  ghost predicate NewFrames(keys: set<nat>, mem: Frames, t: nat, l: nat, n: nat)
    requires n <= ENTRIES && t in mem && |mem[t]| == ENTRIES
  {
    NoDup(Order(mem, t, l, n)) && forall f :: f in Order(mem, t, l, n) <==> f in mem && f !in keys
  }

  lemma {:induction false} NoDupConcat(a: seq<nat>, b: seq<nat>, c: nat)
    requires NoDup(a) && NoDup(b) && c !in a && c !in b && (forall x :: x in a ==> x !in b)
    ensures NoDup(a + (b + [c]))
  {
    var s := a + (b + [c]);
    forall i, j | 0 <= i < j < |s| ensures s[i] != s[j] {
      assert s[i] == if i < |a| then a[i] else if i < |a| + |b| then b[i - |a|] else c;
      assert s[j] == if j < |a| then a[j] else if j < |a| + |b| then b[j - |a|] else c;
      if i < |a| {
        assert a[i] in a;
      } else if i < |a| + |b| {
        assert b[i - |a|] in b;
      }
      if |a| <= j < |a| + |b| {
        assert b[j - |a|] in b;
      }
    }
  }

  /** One followed entry: the frames found so far, those below the new frame, and the new frame. */
  lemma {:induction false} CloneStep(m0: Frames, m1: Frames, m2: Frames, keys: set<nat>, s: nat, d: nat, l: nat, i: nat)
    requires l >= 1 && i < ENTRIES && Cloned(m0, m1, s, d, l, i) && NewFrames(keys, m1, d, l, i)
    requires keys <= m1.Keys && d in keys && d in m2 && |m2[d]| == ENTRIES
    requires forall f :: f in m1 && f != d ==> Same(m1, m2, f)
    requires forall j :: 0 <= j < i ==> m2[d][j] == m1[d][j]
    requires Child(l, m0[s][i]) && m2[d][i] % PAGE_SIZE == m0[s][i] % PAGE_SIZE
    requires var c := Frame(m2[d][i]);
      && c !in m1 && Cloned(m0, m2, Frame(m0[s][i]), c, l - 1, ENTRIES)
      && NewFrames(m1.Keys + {c}, m2, c, l - 1, ENTRIES)
    ensures Cloned(m0, m2, s, d, l, i + 1) && NewFrames(keys, m2, d, l, i + 1)
  {
    var e', c := m2[d][i], Frame(m2[d][i]);
    OrderKept(m1, m2, d, l, i);
    ClonedKept(m0, m1, m2, s, d, l, i);
    ChildByFlags(l, m0[s][i], e');
    var a, b := Order(m1, d, l, i), Order(m2, c, l - 1, ENTRIES);
    NoDupConcat(a, b, c);
    assert Order(m2, d, l, i + 1) == a + (b + [c]);
  }

  lemma {:induction false} SkipStep(m0: Frames, m1: Frames, keys: set<nat>, s: nat, d: nat, l: nat, i: nat)
    requires l >= 1 && i < ENTRIES && Cloned(m0, m1, s, d, l, i) && NewFrames(keys, m1, d, l, i)
    requires !Child(l, m0[s][i]) && m1[d][i] == 0
    ensures Cloned(m0, m1, s, d, l, i + 1) && NewFrames(keys, m1, d, l, i + 1)
  {
    assert EntryOrder(m1, l, m1[d][i]) == [];
    assert Order(m1, d, l, i + 1) == Order(m1, d, l, i) + [];
  }

  /** The nested loops of `vmm_clone_pml4`, one level per call: fills the first `n` entries of `dst`. */
  method CloneEntries(m: Memory, src: nat, dst: nat, l: nat, n: nat, ghost m0: Frames)
    requires 1 <= l && Shape(m0, src, l, n) && Extends(m0, m.frames) && dst !in m0
    requires dst in m.frames && |m.frames[dst]| == ENTRIES && forall i :: 0 <= i < n ==> m.frames[dst][i] == 0
    modifies m`frames
    ensures Extends(m0, m.frames) && (forall f :: f in old(m.frames) && f != dst ==> Same(old(m.frames), m.frames, f))
    ensures dst in m.frames && |m.frames[dst]| == ENTRIES
    ensures forall i :: n <= i < ENTRIES ==> m.frames[dst][i] == old(m.frames)[dst][i]
    ensures Cloned(m0, m.frames, src, dst, l, n) && NewFrames(old(m.frames).Keys, m.frames, dst, l, n)
    decreases l
  {
    hide NewFrames, Cloned, Frame, Child;
    ghost var before := m.frames;
    CloneNothing(m0, before, src, dst, l);
    for i := 0 to n
      invariant Extends(m0, m.frames) && (forall f :: f in before && f != dst ==> Same(before, m.frames, f))
      invariant dst in m.frames && |m.frames[dst]| == ENTRIES
      invariant forall j :: i <= j < ENTRIES ==> m.frames[dst][j] == before[dst][j]
      invariant Cloned(m0, m.frames, src, dst, l, i) && NewFrames(before.Keys, m.frames, dst, l, i)
    {
      ghost var m1 := m.frames;
      assert Same(m0, m1, src);
      var e := m.frames[src][i];
      if Child(l, e) {
        assert Shape(m0, Frame(e), l - 1, ENTRIES);
        CloneChild(m, e, dst, l, i, m0);
        CloneStep(m0, m1, m.frames, before.Keys, src, dst, l, i);
      } else {
        SkipStep(m0, m1, before.Keys, src, dst, l, i);
      }
    }
  }

  /** One followed entry: a fresh frame with the same attributes, filled from the source frame. */
  method CloneChild(m: Memory, e: nat, dst: nat, l: nat, i: nat, ghost m0: Frames)
    requires 1 <= l && Shape(m0, Frame(e), l - 1, ENTRIES) && Extends(m0, m.frames) && dst !in m0
    requires dst in m.frames && |m.frames[dst]| == ENTRIES && i < ENTRIES
    modifies m`frames
    ensures Extends(m0, m.frames) && (forall f :: f in old(m.frames) && f != dst ==> Same(old(m.frames), m.frames, f))
    ensures dst in m.frames && |m.frames[dst]| == ENTRIES
    ensures forall j :: 0 <= j < ENTRIES && j != i ==> m.frames[dst][j] == old(m.frames)[dst][j]
    ensures m.frames[dst][i] % PAGE_SIZE == e % PAGE_SIZE
    ensures var c := Frame(m.frames[dst][i]);
      && c !in old(m.frames) && Cloned(m0, m.frames, Frame(e), c, l - 1, ENTRIES)
      && NewFrames(old(m.frames).Keys + {c}, m.frames, c, l - 1, ENTRIES)
    decreases l, 0
  {
    hide NewFrames, Cloned;
    ghost var m1 := m.frames;
    var c := m.PallocZero();
    var e' := c * PAGE_SIZE + e % PAGE_SIZE;
    DivUnique(e', PAGE_SIZE, c, e % PAGE_SIZE);
    if l == 1 {
      assert Same(m0, m.frames, Frame(e));
      m.CopyPage(c, Frame(e));
      m.Write(dst, i, e');
      PageCloned(m0, m.frames, m1.Keys, Frame(e), c);
    } else {
      m.Write(dst, i, e');
      ghost var m2 := m.frames;
      assert m2.Keys == m1.Keys + {c};
      CloneEntries(m, Frame(e), c, l - 1, ENTRIES, m0);
      assert Same(m2, m.frames, dst);
    }
  }

  lemma {:induction false} PageCloned(m0: Frames, m1: Frames, keys: set<nat>, s: nat, c: nat)
    requires s in m0 && |m0[s]| == ENTRIES && c in m1 && m1[c] == m0[s] && m1.Keys == keys + {c}
    ensures Cloned(m0, m1, s, c, 0, ENTRIES) && NewFrames(keys + {c}, m1, c, 0, ENTRIES)
  {
  }

  lemma {:induction false} CloneNothing(m0: Frames, m1: Frames, s: nat, d: nat, l: nat)
    requires 1 <= l && s in m0 && |m0[s]| == ENTRIES && d in m1 && |m1[d]| == ENTRIES
    ensures Cloned(m0, m1, s, d, l, 0) && NewFrames(m1.Keys, m1, d, l, 0)
  {
  }

  /** `vmm_clone_pml4` */
  method ClonePml4(m: Memory, src: nat) returns (dst: nat)
    requires Shape(m.frames, src, 4, USER_ENTRIES)
    modifies m`frames
    ensures dst !in old(m.frames) && Extends(old(m.frames), m.frames)
    ensures Cloned(old(m.frames), m.frames, src, dst, 4, USER_ENTRIES)
    ensures forall i :: USER_ENTRIES <= i < ENTRIES ==> m.frames[dst][i] == m.frames[src][i]
    ensures NewFrames(old(m.frames).Keys + {dst}, m.frames, dst, 4, USER_ENTRIES)
  {
    hide NewFrames, Cloned, Shape;
    ghost var m0 := m.frames;
    RootShape(m0, src);
    dst := m.PallocZero();
    for i := USER_ENTRIES to ENTRIES
      invariant dst in m.frames && |m.frames[dst]| == ENTRIES
      invariant m.frames.Keys == m0.Keys + {dst} && Extends(m0, m.frames)
      invariant forall j :: 0 <= j < USER_ENTRIES ==> m.frames[dst][j] == 0
      invariant forall j :: USER_ENTRIES <= j < i ==> m.frames[dst][j] == m0[src][j]
    {
      assert Same(m0, m.frames, src);
      m.Write(dst, i, m.frames[src][i]);
    }
    CloneEntries(m, src, dst, 4, USER_ENTRIES, m0);
    assert Same(m0, m.frames, src);
  }

  lemma {:induction false} RootShape(mem: Frames, t: nat)
    requires Shape(mem, t, 4, USER_ENTRIES)
    ensures t in mem && |mem[t]| == ENTRIES
  {
  }

  // ----- what the clone means for pages

  /** Page of a user address: the top index is in the lower half. */
  predicate UserPage(v: nat) {
    Index(v, 4) < USER_ENTRIES
  }

  /** What a page of the clone looks like, given the leaf of the source. */
  ghost predicate ClonedLeaf(m0: Frames, m1: Frames, leaf: Option<Leaf>, leaf': Option<Leaf>) {
    if leaf.Some? && leaf.value.level == 1 then
      && leaf'.Some? && leaf'.value.level == 1
      && leaf'.value.entry % PAGE_SIZE == leaf.value.entry % PAGE_SIZE
      && Frame(leaf.value.entry) in m0 && Frame(leaf'.value.entry) in m1
      && m1[Frame(leaf'.value.entry)] == m0[Frame(leaf.value.entry)]
    else leaf' == None
  }

  lemma {:induction false} CloneWalk(m0: Frames, m1: Frames, s: nat, d: nat, l: nat, n: nat, v: nat)
    requires 1 <= l <= 4 && Cloned(m0, m1, s, d, l, n) && Index(v, l) < n
    ensures ClonedLeaf(m0, m1, FindLeaf(m0, s, l, v), FindLeaf(m1, d, l, v))
    ensures FindLeaf(m1, d, l, v).Some? ==> Frame(FindLeaf(m1, d, l, v).value.entry) in Order(m1, d, l, n)
    decreases l
  {
    hide Index, Huge;
    var i := Index(v, l);
    var e, e' := m0[s][i], m1[d][i];
    assert ClonedEntry(m0, m1, l, e, e');
    EntryInOrder(m1, d, l, n, i);
    if Child(l, e) {
      ChildByFlags(l, e, e');
      assert Frame(e') in EntryOrder(m1, l, e');
      if l > 1 {
        CloneWalk(m0, m1, Frame(e), Frame(e'), l - 1, ENTRIES, v);
      }
    }
  }

  /** Every 4 KiB user page is copied into a frame of its own; huge pages are not copied. */
  lemma {:induction false} CloneUserPage(m0: Frames, m1: Frames, src: nat, dst: nat, v: nat)
    requires Cloned(m0, m1, src, dst, 4, USER_ENTRIES) && NewFrames(m0.Keys + {dst}, m1, dst, 4, USER_ENTRIES) && UserPage(v)
    ensures ClonedLeaf(m0, m1, FindLeaf(m0, src, 4, v), FindLeaf(m1, dst, 4, v))
    ensures FindLeaf(m1, dst, 4, v).Some? ==> Frame(FindLeaf(m1, dst, 4, v).value.entry) !in m0.Keys + {dst}
  {
    CloneWalk(m0, m1, src, dst, 4, USER_ENTRIES, v);
  }

  /** Below a table whose frames are all distinct, different pages have different frames. */
  lemma {:induction false} DistinctWalk(m0: Frames, m1: Frames, s: nat, d: nat, l: nat, n: nat, v: nat, w: nat)
    requires 1 <= l <= 4 && Cloned(m0, m1, s, d, l, n) && NoDup(Order(m1, d, l, n)) && Index(v, l) < n && Index(w, l) < n
    requires v != w && Slot(v, l + 1) == Slot(w, l + 1)
    requires FindLeaf(m1, d, l, v).Some? && FindLeaf(m1, d, l, w).Some?
    ensures Frame(FindLeaf(m1, d, l, v).value.entry) != Frame(FindLeaf(m1, d, l, w).value.entry)
    decreases l
  {
    var i, j := Index(v, l), Index(w, l);
    SlotSplit(v, l);
    SlotSplit(w, l);
    EntryWalk(m0, m1, s, d, l, n, v);
    EntryWalk(m0, m1, s, d, l, n, w);
    if i == j {
      var e, e' := m0[s][i], m1[d][i];
      EntryNoDup(m1, d, l, n, i);
      DistinctWalk(m0, m1, Frame(e), Frame(e'), l - 1, ENTRIES, v, w);
    } else if i < j {
      EntriesApart(m1, d, l, n, i, j);
    } else {
      EntriesApart(m1, d, l, n, j, i);
    }
  }

  /** A leaf found through entry `i` is listed with that entry. */
  lemma {:induction false} EntryWalk(m0: Frames, m1: Frames, s: nat, d: nat, l: nat, n: nat, v: nat)
    requires 1 <= l <= 4 && Cloned(m0, m1, s, d, l, n) && Index(v, l) < n && FindLeaf(m1, d, l, v).Some?
    ensures var i := Index(v, l);
      && Frame(FindLeaf(m1, d, l, v).value.entry) in EntryOrder(m1, l, m1[d][i])
      && Child(l, m0[s][i]) && Child(l, m1[d][i])
      && (l > 1 ==> FindLeaf(m1, d, l, v) == FindLeaf(m1, Frame(m1[d][i]), l - 1, v))
      && (l > 1 ==> Cloned(m0, m1, Frame(m0[s][i]), Frame(m1[d][i]), l - 1, ENTRIES))
  {
    hide Index, Huge;
    var e, e' := m0[s][Index(v, l)], m1[d][Index(v, l)];
    assert ClonedEntry(m0, m1, l, e, e');
    if Child(l, e) {
      ChildByFlags(l, e, e');
      if l > 1 {
        CloneWalk(m0, m1, Frame(e), Frame(e'), l - 1, ENTRIES, v);
      }
    }
  }

  lemma {:induction false} EntryNoDup(mem: Frames, t: nat, l: nat, n: nat, i: nat)
    requires i < n <= ENTRIES && t in mem && |mem[t]| == ENTRIES && l >= 2 && NoDup(Order(mem, t, l, n))
    requires Child(l, mem[t][i]) && Frame(mem[t][i]) in mem && |mem[Frame(mem[t][i])]| == ENTRIES
    ensures NoDup(Order(mem, Frame(mem[t][i]), l - 1, ENTRIES))
    decreases n
  {
    var a, b := Order(mem, t, l, n - 1), EntryOrder(mem, l, mem[t][n - 1]);
    if i == n - 1 {
      NoDupRight(a, b);
      var c := Order(mem, Frame(mem[t][i]), l - 1, ENTRIES);
      NoDupLeft(c, [Frame(mem[t][i])]);
    } else {
      NoDupLeft(a, b);
      EntryNoDup(mem, t, l, n - 1, i);
    }
  }

  lemma {:induction false} NoDupLeft(a: seq<nat>, b: seq<nat>)
    requires NoDup(a + b)
    ensures NoDup(a)
  {
    forall i, j | 0 <= i < j < |a| ensures a[i] != a[j] {
      assert a[i] == (a + b)[i] && a[j] == (a + b)[j];
    }
  }

  lemma {:induction false} NoDupRight(a: seq<nat>, b: seq<nat>)
    requires NoDup(a + b)
    ensures NoDup(b) && forall x :: x in a ==> x !in b
  {
    forall i, j | 0 <= i < j < |b| ensures b[i] != b[j] {
      assert b[i] == (a + b)[|a| + i] && b[j] == (a + b)[|a| + j];
    }
    forall i, j | 0 <= i < |a| && 0 <= j < |b| ensures a[i] != b[j] {
      assert a[i] == (a + b)[i] && b[j] == (a + b)[|a| + j];
    }
  }

  lemma {:induction false} EntriesApart(mem: Frames, t: nat, l: nat, n: nat, i: nat, j: nat)
    requires i < j < n <= ENTRIES && t in mem && |mem[t]| == ENTRIES && l >= 1 && NoDup(Order(mem, t, l, n))
    ensures forall f :: f in EntryOrder(mem, l, mem[t][i]) ==> f !in EntryOrder(mem, l, mem[t][j])
    decreases n
  {
    var a, b := Order(mem, t, l, n - 1), EntryOrder(mem, l, mem[t][n - 1]);
    NoDupLeft(a, b);
    NoDupRight(a, b);
    if j == n - 1 {
      EntryInOrder(mem, t, l, n - 1, i);
    } else {
      EntriesApart(mem, t, l, n - 1, i, j);
    }
  }

  /** No two pages of a clone share a frame. */
  lemma {:induction false} CloneFramesDistinct(m0: Frames, m1: Frames, src: nat, dst: nat, v: nat, w: nat)
    requires Cloned(m0, m1, src, dst, 4, USER_ENTRIES) && NewFrames(m0.Keys + {dst}, m1, dst, 4, USER_ENTRIES)
    requires v < PAGES && w < PAGES && v != w && UserPage(v) && UserPage(w)
    requires FindLeaf(m1, dst, 4, v).Some? && FindLeaf(m1, dst, 4, w).Some?
    ensures Frame(FindLeaf(m1, dst, 4, v).value.entry) != Frame(FindLeaf(m1, dst, 4, w).value.entry)
  {
    hide FindLeaf, Index;
    SlotIs(v);
    SlotIs(w);
    DistinctWalk(m0, m1, src, dst, 4, USER_ENTRIES, v, w);
  }

  /** The kernel half of the clone translates as in the source. */
  lemma {:induction false} CloneKernelPage(m0: Frames, m1: Frames, own: map<nat, Place>, src: nat, dst: nat, v: nat)
    requires Tables(m0, own) && src in own && own[src] == Place(4, 0) && v < PAGES && !UserPage(v)
    requires Extends(m0, m1) && dst in m1 && |m1[dst]| == ENTRIES && m1[dst][Index(v, 4)] == m1[src][Index(v, 4)]
    ensures FindLeaf(m1, dst, 4, v) == FindLeaf(m0, src, 4, v)
  {
    hide Tables, Index;
    SlotIs(v);
    OwnedTable(m0, own, src);
    assert Same(m0, m1, src);
    var e := m0[src][Index(v, 4)];
    if Present(e) {
      NextOnPath(m0, own, src, 4, v);
      ExtendsWalk(m0, m1, own, Frame(e), 3, v);
    }
  }

  lemma {:induction false} ExtendsWalk(m0: Frames, m1: Frames, own: map<nat, Place>, t: nat, l: nat, v: nat)
    requires Tables(m0, own) && OnPath(own, t, l, v) && Extends(m0, m1)
    ensures FindLeaf(m1, t, l, v) == FindLeaf(m0, t, l, v)
    decreases l
  {
    hide Tables, Index;
    OwnedTable(m0, own, t);
    assert Same(m0, m1, t);
    var e := m0[t][Index(v, l)];
    if Leads(l, e) {
      NextOnPath(m0, own, t, l, v);
      ExtendsWalk(m0, m1, own, Frame(e), l - 1, v);
    }
  }

  // ----- teardown

  lemma {:induction false} OrderUpTo(mem: Frames, t: nat, l: nat, i: nat, n: nat)
    requires i <= n <= ENTRIES && t in mem && |mem[t]| == ENTRIES && NoDup(Order(mem, t, l, n))
    ensures NoDup(Order(mem, t, l, i)) && forall f :: f in Order(mem, t, l, i) ==> f in Order(mem, t, l, n)
    decreases n
  {
    if i < n && l > 0 {
      NoDupLeft(Order(mem, t, l, n - 1), EntryOrder(mem, l, mem[t][n - 1]));
      OrderUpTo(mem, t, l, i, n - 1);
    }
  }

  lemma {:induction false} OrderInMemory(mem: Frames, t: nat, l: nat, n: nat)
    requires Shape(mem, t, l, n)
    ensures forall f :: f in Order(mem, t, l, n) ==> f in mem
    decreases l, n
  {
    if n > 0 && l > 0 {
      OrderInMemory(mem, t, l, n - 1);
      var e := mem[t][n - 1];
      if Child(l, e) {
        OrderInMemory(mem, Frame(e), l - 1, ENTRIES);
      }
    }
  }

  lemma {:induction false} ShapeKept(m1: Frames, m2: Frames, t: nat, l: nat, n: nat)
    requires Shape(m1, t, l, n) && t in m2 && |m2[t]| == ENTRIES
    requires forall i :: 0 <= i < n ==> m2[t][i] == m1[t][i]
    requires forall f :: f in Order(m1, t, l, n) ==> Same(m1, m2, f)
    ensures Shape(m2, t, l, n)
    decreases l
  {
    if l > 0 {
      forall i | 0 <= i < n && Child(l, m2[t][i]) ensures Shape(m2, Frame(m2[t][i]), l - 1, ENTRIES) {
        EntryInOrder(m1, t, l, n, i);
        assert Frame(m1[t][i]) in EntryOrder(m1, l, m1[t][i]);
        ShapeKept(m1, m2, Frame(m1[t][i]), l - 1, ENTRIES);
      }
    }
  }

  /** The table after teardown of its first `n` entries. */
  ghost predicate Cleared(was: seq<nat>, now: seq<nat>, l: nat, n: nat) {
    && |was| == ENTRIES && |now| == ENTRIES
    && forall i :: 0 <= i < ENTRIES ==> now[i] == if i < n && Child(l, was[i]) then 0 else was[i]
  }

  /** Memory after the frames `gone` were given back and table `t` was cleared up to entry `n`. */
  ghost predicate TornDown(m0: Frames, m1: Frames, gone: seq<nat>, t: nat, l: nat, n: nat) {
    && (forall f :: f in m1 <==> f in m0 && f !in gone)
    && (forall f :: f in m1 && f != t ==> m1[f] == m0[f])
    && t in m1 && t in m0 && Cleared(m0[t], m1[t], l, n)
  }

  /** The frames of entry `i` are still as they were when the entries before it are torn down. */
  lemma {:induction false} EntryUntouched(m0: Frames, m1: Frames, t: nat, l: nat, i: nat, n: nat)
    requires i < n && l >= 1 && Shape(m0, t, l, n) && NoDup(Order(m0, t, l, n)) && t !in Order(m0, t, l, n)
    requires TornDown(m0, m1, Order(m0, t, l, i), t, l, i) && Child(l, m0[t][i])
    ensures forall f :: f in EntryOrder(m0, l, m0[t][i]) ==> Same(m0, m1, f)
    ensures Frame(m0[t][i]) != t && Frame(m0[t][i]) in m0 && |m0[Frame(m0[t][i])]| == ENTRIES
    ensures t !in Order(m0, Frame(m0[t][i]), l - 1, ENTRIES)
  {
    hide NoDup;
    EntryInOrder(m0, t, l, n, i);
    OrderInMemory(m0, t, l, n);
    OrderUpTo(m0, t, l, i + 1, n);
    NoDupRight(Order(m0, t, l, i), EntryOrder(m0, l, m0[t][i]));
    var c := Frame(m0[t][i]);
    assert Shape(m0, c, l - 1, ENTRIES);
    assert EntryOrder(m0, l, m0[t][i]) == Order(m0, c, l - 1, ENTRIES) + [c];
  }

  /** Tearing down the frame of entry `i`, which is a page or a table whose own entries are torn down. */
  lemma {:induction false} TearEntry(m0: Frames, m1: Frames, m2: Frames, t: nat, l: nat, i: nat, n: nat)
    requires i < n && l >= 1 && Shape(m0, t, l, n) && NoDup(Order(m0, t, l, n)) && t !in Order(m0, t, l, n)
    requires TornDown(m0, m1, Order(m0, t, l, i), t, l, i) && Child(l, m0[t][i])
    requires var c := Frame(m0[t][i]);
      && c in m0 && |m0[c]| == ENTRIES
      && (forall f :: f in m2 <==> f in m1 && f !in Order(m0, c, l - 1, ENTRIES) && f != c)
      && (forall f :: f in m2 && f != t ==> f in m1 && m2[f] == m1[f])
      && t in m2 && t in m1 && |m1[t]| == ENTRIES && m2[t] == m1[t][i := 0]
    ensures TornDown(m0, m2, Order(m0, t, l, i + 1), t, l, i + 1)
  {
    hide NoDup;
    assert Order(m0, t, l, i + 1) == Order(m0, t, l, i) + EntryOrder(m0, l, m0[t][i]);
  }

  /** The nested loops of `vmm_free_user_pages`, one level per call. */
  method FreeEntries(m: Memory, t: nat, l: nat, n: nat)
    requires l >= 1 && Shape(m.frames, t, l, n)
    requires NoDup(Order(m.frames, t, l, n)) && t !in Order(m.frames, t, l, n)
    modifies m
    ensures m.freed == old(m.freed) + Order(old(m.frames), t, l, n)
    ensures TornDown(old(m.frames), m.frames, Order(old(m.frames), t, l, n), t, l, n)
    decreases l
  {
    hide Child, NoDup, Frame, Order, EntryOrder, TornDown, Shape, Same;
    ghost var m0, log := m.frames, m.freed;
    TornNothing(m0, t, l, n);
    for i := 0 to n
      invariant n <= ENTRIES && t in m0 && |m0[t]| == ENTRIES
      invariant TornDown(m0, m.frames, Order(m0, t, l, i), t, l, i)
      invariant m.freed == log + Order(m0, t, l, i)
    {
      ghost var m1 := m.frames;
      TornTable(m0, m1, Order(m0, t, l, i), t, l, i);
      OrderStep(m0, t, l, i, log);
      var e := m.frames[t][i];
      if Child(l, e) {
        EntryUntouched(m0, m1, t, l, i, n);
        FreeChild(m, e, l, t, m0, i, n);
        m.Write(t, i, 0);
        TearEntry(m0, m1, m.frames, t, l, i, n);
      } else {
        SkipEntry(m0, m1, t, l, i);
      }
    }
  }

  lemma {:induction false} TornNothing(m0: Frames, t: nat, l: nat, n: nat)
    requires Shape(m0, t, l, n)
    ensures n <= ENTRIES && t in m0 && |m0[t]| == ENTRIES && Order(m0, t, l, 0) == []
    ensures TornDown(m0, m0, Order(m0, t, l, 0), t, l, 0)
  {
  }

  lemma {:induction false} TornTable(m0: Frames, m1: Frames, gone: seq<nat>, t: nat, l: nat, i: nat)
    requires TornDown(m0, m1, gone, t, l, i) && i < ENTRIES
    ensures t in m1 && t in m0 && |m1[t]| == ENTRIES && |m0[t]| == ENTRIES && m1[t][i] == m0[t][i]
  {
  }

  lemma {:induction false} OrderStep(m0: Frames, t: nat, l: nat, i: nat, log: seq<nat>)
    requires l >= 1 && i < ENTRIES && t in m0 && |m0[t]| == ENTRIES
    ensures log + Order(m0, t, l, i) + EntryOrder(m0, l, m0[t][i]) == log + Order(m0, t, l, i + 1)
    ensures !Child(l, m0[t][i]) ==> Order(m0, t, l, i + 1) == Order(m0, t, l, i)
  {
    assert Order(m0, t, l, i + 1) == Order(m0, t, l, i) + EntryOrder(m0, l, m0[t][i]);
  }

  lemma {:induction false} SkipEntry(m0: Frames, m1: Frames, t: nat, l: nat, i: nat)
    requires l >= 1 && i < ENTRIES && t in m0 && |m0[t]| == ENTRIES && !Child(l, m0[t][i])
    requires TornDown(m0, m1, Order(m0, t, l, i), t, l, i)
    ensures TornDown(m0, m1, Order(m0, t, l, i + 1), t, l, i + 1)
  {
    OrderStep(m0, t, l, i, []);
  }

  /** Frees what an entry leads to: the frames below it, then the frame itself. */
  method FreeChild(m: Memory, e: nat, l: nat, ghost t: nat, ghost m0: Frames, ghost i: nat, ghost n: nat)
    requires l >= 1 && i < n && Shape(m0, t, l, n) && NoDup(Order(m0, t, l, n)) && e == m0[t][i] && Child(l, e)
    requires forall f :: f in EntryOrder(m0, l, e) ==> Same(m0, m.frames, f)
    modifies m
    ensures Frame(e) in m0 && |m0[Frame(e)]| == ENTRIES
    ensures m.freed == old(m.freed) + EntryOrder(m0, l, e)
    ensures forall f :: f in m.frames <==> f in old(m.frames) && f !in Order(m0, Frame(e), l - 1, ENTRIES) && f != Frame(e)
    ensures forall f :: f in m.frames ==> m.frames[f] == old(m.frames)[f]
    decreases l, 0
  {
    hide Child, NoDup;
    var c := Frame(e);
    assert Shape(m0, c, l - 1, ENTRIES);
    ghost var below := Order(m0, c, l - 1, ENTRIES);
    assert EntryOrder(m0, l, e) == below + [c];
    assert c in EntryOrder(m0, l, e);
    if l > 1 {
      OrderKept(m0, m.frames, c, l - 1, ENTRIES);
      ShapeKept(m0, m.frames, c, l - 1, ENTRIES);
      EntryNoDup(m0, t, l, n, i);
      ChildNotBelow(m0, t, l, n, i);
      FreeEntries(m, c, l - 1, ENTRIES);
    }
    ghost var log := m.freed;
    m.Pfree(c);
    assert old(m.freed) + (below + [c]) == old(m.freed) + below + [c];
  }

  lemma {:induction false} ChildNotBelow(mem: Frames, t: nat, l: nat, n: nat, i: nat)
    requires i < n <= ENTRIES && t in mem && |mem[t]| == ENTRIES && l >= 2 && NoDup(Order(mem, t, l, n))
    requires Child(l, mem[t][i]) && Frame(mem[t][i]) in mem && |mem[Frame(mem[t][i])]| == ENTRIES
    ensures Frame(mem[t][i]) !in Order(mem, Frame(mem[t][i]), l - 1, ENTRIES)
  {
    hide NoDup;
    var c := Frame(mem[t][i]);
    OrderUpTo(mem, t, l, i + 1, n);
    NoDupRight(Order(mem, t, l, i), EntryOrder(mem, l, mem[t][i]));
    NoDupRight(Order(mem, c, l - 1, ENTRIES), [c]);
    assert c in [c];
  }

  /** `vmm_free_user_pages`: gives back every frame of the user half once, and leaves the rest alone. */
  method FreeUserPages(m: Memory, root: nat)
    requires Shape(m.frames, root, 4, USER_ENTRIES)
    requires NoDup(Order(m.frames, root, 4, USER_ENTRIES)) && root !in Order(m.frames, root, 4, USER_ENTRIES)
    modifies m
    ensures m.freed == old(m.freed) + Order(old(m.frames), root, 4, USER_ENTRIES)
    ensures TornDown(old(m.frames), m.frames, Order(old(m.frames), root, 4, USER_ENTRIES), root, 4, USER_ENTRIES)
  {
    FreeEntries(m, root, 4, USER_ENTRIES);
  }

  lemma {:induction false} ClonedShape(m0: Frames, m1: Frames, s: nat, d: nat, l: nat, n: nat)
    requires Cloned(m0, m1, s, d, l, n)
    ensures Shape(m1, d, l, n)
    decreases l
  {
    if l > 0 {
      forall i | 0 <= i < n && Child(l, m1[d][i]) ensures Shape(m1, Frame(m1[d][i]), l - 1, ENTRIES) {
        assert ClonedEntry(m0, m1, l, m0[s][i], m1[d][i]);
        ClonedShape(m0, m1, Frame(m0[s][i]), Frame(m1[d][i]), l - 1, ENTRIES);
      }
    }
  }

  /** Cloning and tearing down the clone: every frame the clone took, except its root, is given back exactly once. */
  method CloneThenFree(m: Memory, src: nat) returns (dst: nat)
    requires Shape(m.frames, src, 4, USER_ENTRIES)
    modifies m
    ensures dst !in old(m.frames) && m.frames.Keys == old(m.frames).Keys + {dst} && Extends(old(m.frames), m.frames)
    ensures |m.frames[dst]| == ENTRIES && forall i :: 0 <= i < USER_ENTRIES ==> m.frames[dst][i] == 0
    ensures old(m.freed) <= m.freed && NoDup(m.freed[|old(m.freed)|..])
  {
    hide NoDup, Shape, Order, Cloned, TornDown, NewFrames, Extends;
    ghost var m0, log := m.frames, m.freed;
    dst := ClonePml4(m, src);
    ghost var m1 := m.frames;
    ClonedShape(m0, m1, src, dst, 4, USER_ENTRIES);
    ClonedFrames(m0, m1, src, dst);
    ghost var o := Order(m1, dst, 4, USER_ENTRIES);
    FreeUserPages(m, dst);
    assert m.freed[|log|..] == o;
    CloneTornDown(m0, m1, m.frames, src, dst);
  }

  lemma {:induction false} ClonedFrames(m0: Frames, m1: Frames, src: nat, dst: nat)
    requires Cloned(m0, m1, src, dst, 4, USER_ENTRIES) && NewFrames(m0.Keys + {dst}, m1, dst, 4, USER_ENTRIES)
    ensures dst in m1 && |m1[dst]| == ENTRIES
    ensures NoDup(Order(m1, dst, 4, USER_ENTRIES)) && dst !in Order(m1, dst, 4, USER_ENTRIES)
  {
  }

  lemma {:induction false} CloneTornDown(m0: Frames, m1: Frames, m2: Frames, src: nat, dst: nat)
    requires dst !in m0 && Extends(m0, m1) && Cloned(m0, m1, src, dst, 4, USER_ENTRIES)
    requires NewFrames(m0.Keys + {dst}, m1, dst, 4, USER_ENTRIES)
    requires TornDown(m1, m2, Order(m1, dst, 4, USER_ENTRIES), dst, 4, USER_ENTRIES)
    ensures m2.Keys == m0.Keys + {dst} && Extends(m0, m2)
    ensures |m2[dst]| == ENTRIES && forall i :: 0 <= i < USER_ENTRIES ==> m2[dst][i] == 0
  {
    hide Child, NoDup, Order, Present;
    forall f | f in m0 ensures Same(m0, m2, f) {
      assert Same(m0, m1, f);
    }
    forall i | 0 <= i < USER_ENTRIES ensures m2[dst][i] == 0 {
      assert ClonedEntry(m0, m1, 4, m0[src][i], m1[dst][i]);
      if Child(4, m0[src][i]) {
        ChildByFlags(4, m0[src][i], m1[dst][i]);
      }
    }
  }
}
