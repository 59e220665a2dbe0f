/**
  The char-backed bitset of the buddy allocator. Every operation works on bytes with the
  mask tables of the source and is specified on the sequence of bits the bytes stand for.
*/
module Bitset {

  const INDEX_MASK: seq<bv8> := [1, 2, 4, 8, 16, 32, 64, 128]

  const CHAR_MASK: seq<seq<bv8>> := [
    [1, 3, 7, 15, 31, 63, 127, 255],
    [0, 2, 6, 14, 30, 62, 126, 254],
    [0, 0, 4, 12, 28, 60, 124, 252],
    [0, 0, 0, 8, 24, 56, 120, 248],
    [0, 0, 0, 0, 16, 48, 112, 240],
    [0, 0, 0, 0, 0, 32, 96, 224],
    [0, 0, 0, 0, 0, 0, 64, 192],
    [0, 0, 0, 0, 0, 0, 0, 128]
  ]

  predicate Hit(b: bv8, x: bv8) {
    b & x != 0
  }

  /** Bit `k` of a byte. */
  predicate ByteBit(b: bv8, k: nat)
    requires k < 8
  {
    Hit(b, INDEX_MASK[k])
  }

  /** Bit `i` of a byte sequence, least significant bit of the first byte first. */
  ghost predicate BitAt(bytes: seq<bv8>, i: nat)
    requires i < 8 * |bytes|
  {
    ByteBit(bytes[i / 8], i % 8)
  }

  ghost function BitsUpTo(bytes: seq<bv8>, n: nat): (s: seq<bool>)
    requires n <= 8 * |bytes|
    ensures |s| == n
    ensures forall i {:trigger BitAt(bytes, i)} :: 0 <= i < n ==> s[i] == BitAt(bytes, i)
  {
    if n == 0 then [] else BitsUpTo(bytes, n - 1) + [BitAt(bytes, n - 1)]
  }

  /** The bits a byte sequence stands for. */
  ghost function Bits(bytes: seq<bv8>): (s: seq<bool>)
    ensures |s| == 8 * |bytes|
  {
    BitsUpTo(bytes, 8 * |bytes|)
  }

  lemma {:induction false} BitsAt(bytes: seq<bv8>, bucket: nat, k: nat)
    requires bucket < |bytes| && k < 8
    ensures Bits(bytes)[8 * bucket + k] == ByteBit(bytes[bucket], k)
  {
    var i := 8 * bucket + k;
    assert i / 8 == bucket && i % 8 == k;
    assert BitAt(bytes, i) == ByteBit(bytes[bucket], k);
  }

  // ----- facts about single bytes

  predicate SingleBit(x: bv8) {
    x != 0 && x & (x - 1) == 0
  }

  lemma {:induction false} HitOps(a: bv8, m: bv8, x: bv8)
    requires SingleBit(x)
    ensures Hit(a | m, x) == (Hit(a, x) || Hit(m, x))
    ensures Hit(a & m, x) == (Hit(a, x) && Hit(m, x))
    ensures Hit(a & !m, x) == (Hit(a, x) && !Hit(m, x))
  {
  }

  lemma {:induction false} ByteOps(a: bv8, m: bv8, k: nat)
    requires k < 8
    ensures ByteBit(a | m, k) == (ByteBit(a, k) || ByteBit(m, k))
    ensures ByteBit(a & m, k) == (ByteBit(a, k) && ByteBit(m, k))
    ensures ByteBit(a & !m, k) == (ByteBit(a, k) && !ByteBit(m, k))
  {
    HitOps(a, m, INDEX_MASK[k]);
  }

  lemma {:induction false} UniformByte(k: nat)
    requires k < 8
    ensures ByteBit(255, k) && !ByteBit(0, k)
  {
  }

  /** `m` has exactly the bits `from..to`. */
  ghost predicate MaskOf(m: bv8, from: nat, to: nat) {
    forall k: nat :: k < 8 ==> ByteBit(m, k) == (from <= k <= to)
  }

  lemma {:induction false} IndexMaskOf(j: nat)
    requires j < 8
    ensures MaskOf(INDEX_MASK[j], j, j)
  {
    match j
    case 0 => assert INDEX_MASK[j] == 1;
    case 1 => assert INDEX_MASK[j] == 2;
    case 2 => assert INDEX_MASK[j] == 4;
    case 3 => assert INDEX_MASK[j] == 8;
    case 4 => assert INDEX_MASK[j] == 16;
    case 5 => assert INDEX_MASK[j] == 32;
    case 6 => assert INDEX_MASK[j] == 64;
    case _ => assert INDEX_MASK[j] == 128;
  }

  /** Entry `[from][to]` of the mask table selects the bits `from..to`. */
  lemma {:induction false} CharMaskOf(from: nat, to: nat)
    requires from < 8 && to < 8
    ensures MaskOf(CHAR_MASK[from][to], from, to)
  {
    var low, high := CHAR_MASK[0][to], CHAR_MASK[from][7];
    CharMaskMeet(from, to);
    CharMaskFirstRow(to);
    CharMaskLastColumn(from);
    MaskMeet(low, high, from, to);
  }

  lemma {:induction false} MaskMeet(low: bv8, high: bv8, from: nat, to: nat)
    requires MaskOf(low, 0, to) && MaskOf(high, from, 7)
    ensures MaskOf(low & high, from, to)
  {
    var both := low & high;
    forall k: nat | k < 8 ensures ByteBit(both, k) == (from <= k <= to) {
      ByteOps(low, high, k);
    }
  }

  lemma {:induction false} CharMaskFirstRow(to: nat)
    requires to < 8
    ensures MaskOf(CHAR_MASK[0][to], 0, to)
  {
  }

  lemma {:induction false} CharMaskLastColumn(from: nat)
    requires from < 8
    ensures MaskOf(CHAR_MASK[from][7], from, 7)
  {
  }

  lemma {:induction false} CharMaskMeet(from: nat, to: nat)
    requires from < 8 && to < 8
    ensures CHAR_MASK[from][to] == CHAR_MASK[0][to] & CHAR_MASK[from][7]
  {
    var row, low := CHAR_MASK[from], CHAR_MASK[0];
    assert low == [1, 3, 7, 15, 31, 63, 127, 255];
    match from
    case 0 => assert row == [1, 3, 7, 15, 31, 63, 127, 255];
    case 1 => assert row == [0, 2, 6, 14, 30, 62, 126, 254];
    case 2 => assert row == [0, 0, 4, 12, 28, 60, 124, 252];
    case 3 => assert row == [0, 0, 0, 8, 24, 56, 120, 248];
    case 4 => assert row == [0, 0, 0, 0, 16, 48, 112, 240];
    case 5 => assert row == [0, 0, 0, 0, 0, 32, 96, 224];
    case 6 => assert row == [0, 0, 0, 0, 0, 0, 64, 192];
    case _ => assert row == [0, 0, 0, 0, 0, 0, 0, 128];
  }

  /** A byte with the bits of a mask switched on or off. */
  function Overlay(b: bv8, m: bv8, on: bool): (r: bv8) {
    if on then b | m else b & !m
  }

  /** Byte `now` is byte `was` with the bits `from..to` set to `on`. */
  ghost predicate Overlaid(was: bv8, now: bv8, from: nat, to: nat, on: bool) {
    forall k: nat :: k < 8 ==> ByteBit(now, k) == (if from <= k <= to then on else ByteBit(was, k))
  }

  lemma {:induction false} OverlayBits(b: bv8, m: bv8, from: nat, to: nat, on: bool)
    requires MaskOf(m, from, to)
    ensures Overlaid(b, Overlay(b, m, on), from, to, on)
  {
    forall k: nat | k < 8
      ensures ByteBit(Overlay(b, m, on), k) == (if from <= k <= to then on else ByteBit(b, k))
    {
      ByteOps(b, m, k);
    }
  }

  // ----- single positions

  /** `bitset_test` */
  method Test(bitset: array<bv8>, pos: nat) returns (r: bool)
    requires pos < 8 * bitset.Length
    ensures r == Bits(bitset[..])[pos]
  {
    BitsAt(bitset[..], pos / 8, pos % 8);
    r := bitset[pos / 8] & INDEX_MASK[pos % 8] != 0;
  }

  /** `s` with positions `from..to` replaced by `on` is `t`. */
  ghost predicate Filled(s: seq<bool>, t: seq<bool>, from: int, to: int, on: bool) {
    |s| == |t| && forall i :: 0 <= i < |s| ==> t[i] == (if from <= i <= to then on else s[i])
  }

  /** Overwriting one byte overwrites a range that lies within that byte. */
  lemma {:induction false} OverlaidByte(was: seq<bv8>, now: seq<bv8>, bucket: nat, from: nat, to: nat, on: bool)
    requires bucket < |was| == |now| && from < 8 && to < 8
    requires now == was[bucket := now[bucket]] && Overlaid(was[bucket], now[bucket], from, to, on)
    ensures Filled(Bits(was), Bits(now), 8 * bucket + from, 8 * bucket + to, on)
  {
    var s, t := Bits(was), Bits(now);
    forall i | 0 <= i < |s|
      ensures t[i] == (if 8 * bucket + from <= i <= 8 * bucket + to then on else s[i])
    {
      var b, k := i / 8, i % 8;
      BitsAt(was, b, k);
      BitsAt(now, b, k);
      if b == bucket {
        assert ByteBit(now[bucket], k) == (if from <= k <= to then on else ByteBit(was[bucket], k));
      }
    }
  }

  /** `bitset_set` and `bitset_clear` */
  method Put(bitset: array<bv8>, pos: nat, on: bool)
    requires pos < 8 * bitset.Length
    modifies bitset
    ensures Bits(bitset[..]) == old(Bits(bitset[..]))[pos := on]
  {
    var bucket, index := pos / 8, pos % 8;
    ghost var was := bitset[..];
    IndexMaskOf(index);
    OverlayBits(bitset[bucket], INDEX_MASK[index], index, index, on);
    bitset[bucket] := Overlay(bitset[bucket], INDEX_MASK[index], on);
    OverlaidByte(was, bitset[..], bucket, index, index, on);
  }

  // ----- ranges

  datatype Range = Range(fromBucket: nat, toBucket: nat, fromIndex: nat, toIndex: nat)

  /** `to_bitset_range`: bucket and in-bucket index of both ends. */
  function ToRange(fromPos: nat, toPos: nat): (r: Range)
    ensures r.fromIndex < 8 && r.toIndex < 8
    ensures 8 * r.fromBucket + r.fromIndex == fromPos && 8 * r.toBucket + r.toIndex == toPos
  {
    Range(fromPos / 8, toPos / 8, fromPos % 8, toPos % 8)
  }

  method OverlayBucket(bitset: array<bv8>, bucket: nat, from: nat, to: nat, on: bool)
    requires bucket < bitset.Length && from < 8 && to < 8
    modifies bitset
    ensures Filled(old(Bits(bitset[..])), Bits(bitset[..]), 8 * bucket + from, 8 * bucket + to, on)
  {
    ghost var was := bitset[..];
    CharMaskOf(from, to);
    OverlayBits(bitset[bucket], CHAR_MASK[from][to], from, to, on);
    bitset[bucket] := Overlay(bitset[bucket], CHAR_MASK[from][to], on);
    OverlaidByte(was, bitset[..], bucket, from, to, on);
  }

  method FillBuckets(bitset: array<bv8>, lo: nat, hi: nat, on: bool)
    requires lo <= hi <= bitset.Length
    modifies bitset
    ensures Filled(old(Bits(bitset[..])), Bits(bitset[..]), 8 * lo, 8 * hi - 1, on)
  {
    ghost var was := Bits(bitset[..]);
    for b: int := lo to hi
      invariant Filled(was, Bits(bitset[..]), 8 * lo, 8 * b - 1, on)
    {
      ghost var before := bitset[..];
      forall k: nat | k < 8 ensures ByteBit(255, k) && !ByteBit(0, k) { UniformByte(k); }
      bitset[b] := if on then 255 else 0;
      assert Overlaid(before[b], bitset[..][b], 0, 7, on);
      OverlaidByte(before, bitset[..], b, 0, 7, on);
      assert Filled(Bits(before), Bits(bitset[..]), 8 * b, 8 * b + 7, on);
    }
  }

  /** `bitset_set_range` (on) and `bitset_clear_range` (off) of the inclusive range. */
  method FillRange(bitset: array<bv8>, from: nat, to: nat, on: bool)
    requires from <= to < 8 * bitset.Length
    modifies bitset
    ensures Filled(old(Bits(bitset[..])), Bits(bitset[..]), from, to, on)
  {
    var range := ToRange(from, to);
    if range.fromBucket == range.toBucket {
      OverlayBucket(bitset, range.fromBucket, range.fromIndex, range.toIndex, on);
    } else {
      OverlayBucket(bitset, range.fromBucket, range.fromIndex, 7, on);
      OverlayBucket(bitset, range.toBucket, 0, range.toIndex, on);
      FillBuckets(bitset, range.fromBucket + 1, range.toBucket, on);
    }
  }

  // ----- counting

  /** The number of set bits in positions `lo` to `hi - 1`. */
  ghost function CountTrue(s: seq<bool>, lo: nat, hi: nat): (c: nat)
    requires hi <= |s|
    decreases hi
  {
    if lo >= hi then 0 else CountTrue(s, lo, hi - 1) + (if s[hi - 1] then 1 else 0)
  }

  lemma {:induction false} CountSplit(s: seq<bool>, lo: nat, mid: nat, hi: nat)
    requires lo <= mid <= hi <= |s|
    ensures CountTrue(s, lo, hi) == CountTrue(s, lo, mid) + CountTrue(s, mid, hi)
    decreases hi
  {
    if mid < hi {
      CountSplit(s, lo, mid, hi - 1);
    }
  }

  /** The number of set bits of a byte, as `popcount_byte` tabulates it. */
  function Popcount(b: bv8): (c: nat) {
    Unit(b, 0) + Unit(b, 1) + Unit(b, 2) + Unit(b, 3) + Unit(b, 4) + Unit(b, 5) + Unit(b, 6) + Unit(b, 7)
  }

  function Unit(b: bv8, k: nat): (u: nat)
    requires k < 8
  {
    if ByteBit(b, k) then 1 else 0
  }

  ghost function ByteBits(b: bv8): (u: seq<bool>)
    ensures |u| == 8
  {
    [ByteBit(b, 0), ByteBit(b, 1), ByteBit(b, 2), ByteBit(b, 3),
     ByteBit(b, 4), ByteBit(b, 5), ByteBit(b, 6), ByteBit(b, 7)]
  }

  lemma {:induction false} CountEight(u: seq<bool>)
    requires |u| == 8
    ensures CountTrue(u, 0, 8) == (if u[0] then 1 else 0) + (if u[1] then 1 else 0) + (if u[2] then 1 else 0)
      + (if u[3] then 1 else 0) + (if u[4] then 1 else 0) + (if u[5] then 1 else 0) + (if u[6] then 1 else 0)
      + (if u[7] then 1 else 0)
  {
    assert CountTrue(u, 0, 3) == (if u[0] then 1 else 0) + (if u[1] then 1 else 0) + (if u[2] then 1 else 0);
    assert CountTrue(u, 0, 6) == CountTrue(u, 0, 3)
      + (if u[3] then 1 else 0) + (if u[4] then 1 else 0) + (if u[5] then 1 else 0);
  }

  /** Counting a byte masked to `from..to` counts the bits of that range. */
  lemma {:induction false} MaskedCount(u: seq<bool>, s: seq<bool>, base: nat, from: nat, to: nat, k: nat)
    requires |u| == 8 && base + 8 <= |s| && from <= to < 8 && k <= 8
    requires forall j: nat :: j < 8 ==> u[j] == (from <= j <= to && s[base + j])
    ensures CountTrue(u, 0, k) == CountTrue(s, base + from, base + if k <= to then k else to + 1)
    decreases k
  {
    if k > 0 {
      MaskedCount(u, s, base, from, to, k - 1);
    }
  }

  method CountBucket(bitset: array<bv8>, bucket: nat, from: nat, to: nat) returns (c: nat)
    requires bucket < bitset.Length && from <= to < 8
    ensures c == CountTrue(Bits(bitset[..]), 8 * bucket + from, 8 * bucket + to + 1)
  {
    var x := bitset[bucket] & CHAR_MASK[from][to];
    forall j: nat | j < 8 ensures ByteBit(x, j) == (from <= j <= to && ByteBit(bitset[bucket], j)) {
      MaskedBit(bitset[bucket], from, to, j);
    }
    MaskedPopcount(bitset[..], bucket, from, to, x);
    c := Popcount(x);
  }

  lemma {:induction false} MaskedPopcount(bytes: seq<bv8>, bucket: nat, from: nat, to: nat, x: bv8)
    requires bucket < |bytes| && from <= to < 8
    requires forall j: nat :: j < 8 ==> ByteBit(x, j) == (from <= j <= to && ByteBit(bytes[bucket], j))
    ensures Popcount(x) == CountTrue(Bits(bytes), 8 * bucket + from, 8 * bucket + to + 1)
  {
    forall j: nat | j < 8 ensures ByteBits(x)[j] == (from <= j <= to && Bits(bytes)[8 * bucket + j]) {
      BitsAt(bytes, bucket, j);
      ByteBitsAt(x, j);
    }
    MaskedCount(ByteBits(x), Bits(bytes), 8 * bucket, from, to, 8);
    PopcountIsCount(x);
  }

  lemma {:induction false} MaskedBit(b: bv8, from: nat, to: nat, j: nat)
    requires from <= to < 8 && j < 8
    ensures ByteBit(b & CHAR_MASK[from][to], j) == (from <= j <= to && ByteBit(b, j))
  {
    var m := CHAR_MASK[from][to];
    CharMaskOf(from, to);
    ByteOps(b, m, j);
  }

  lemma {:induction false} ByteBitsAt(x: bv8, j: nat)
    requires j < 8
    ensures ByteBits(x)[j] == ByteBit(x, j)
  {
  }

  lemma {:induction false} PopcountIsCount(b: bv8)
    ensures Popcount(b) == CountTrue(ByteBits(b), 0, 8)
  {
    CountEight(ByteBits(b));
  }

  /** `bitset_count_range` of the inclusive range. */
  method CountRange(bitset: array<bv8>, from: nat, to: nat) returns (c: nat)
    requires from <= to < 8 * bitset.Length
    ensures c == CountTrue(Bits(bitset[..]), from, to + 1)
  {
    var range := ToRange(from, to);
    if range.fromBucket == range.toBucket {
      c := CountBucket(bitset, range.fromBucket, range.fromIndex, range.toIndex);
      return;
    }
    ghost var s := Bits(bitset[..]);
    var head := CountBucket(bitset, range.fromBucket, range.fromIndex, 7);
    var tail := CountBucket(bitset, range.toBucket, 0, range.toIndex);
    c := head + tail;
    var b := range.fromBucket + 1;
    while b != range.toBucket
      invariant range.fromBucket < b <= range.toBucket
      invariant c == CountTrue(s, from, 8 * b) + tail
      decreases range.toBucket - b
    {
      var whole := CountBucket(bitset, b, 0, 7);
      CountSplit(s, from, 8 * b, 8 * b + 8);
      c := c + whole;
      b := b + 1;
    }
    CountSplit(s, from, 8 * b, to + 1);
  }

  // ----- shifts

  /** Moving the bits `from..to - 1` of `s` down by `dist` and clearing their old places gives `t`. */
  ghost predicate ShiftedLeft(s: seq<bool>, t: seq<bool>, from: nat, to: nat, dist: nat) {
    && |s| == |t|
    && from <= to <= |s|
    && forall i {:trigger t[i]} :: 0 <= i < |s| ==>
      t[i] == if from <= i + dist < to then s[i + dist] else if from <= i < to then false else s[i]
  }

  lemma {:induction false} ShiftLeftStep(s: seq<bool>, t: seq<bool>, from: nat, at: nat, dist: nat)
    requires 0 < dist <= from <= at < |s| && ShiftedLeft(s, t, from, at, dist)
    ensures ShiftedLeft(s, t[at - dist := t[at]][at := false], from, at + 1, dist)
  {
    var u := t[at - dist := t[at]][at := false];
    forall i | 0 <= i < |s|
      ensures u[i] == if from <= i + dist < at + 1 then s[i + dist] else if from <= i < at + 1 then false else s[i]
    {
      assert t[at] == s[at];
    }
  }

  /** `bitset_shift_left`; source and destination may overlap. */
  method ShiftLeft(bitset: array<bv8>, from: nat, to: nat, dist: nat)
    requires 0 < dist <= from <= to <= 8 * bitset.Length
    modifies bitset
    ensures ShiftedLeft(old(Bits(bitset[..])), Bits(bitset[..]), from, to, dist)
  {
    ghost var s := Bits(bitset[..]);
    var length := to - from;
    for i := 0 to length
      invariant ShiftedLeft(s, Bits(bitset[..]), from, from + i, dist)
    {
      var at := from + i;
      ghost var t := Bits(bitset[..]);
      ShiftLeftStep(s, t, from, at, dist);
      var bit := Test(bitset, at);
      Put(bitset, at - dist, bit);
      Put(bitset, at, false);
    }
  }

  /** Moving the bits `from..to` of `s` up by `dist` and clearing their old places gives `t`. */
  ghost predicate ShiftedRight(s: seq<bool>, t: seq<bool>, from: nat, to: int, dist: nat) {
    && |s| == |t|
    && to + dist < |s|
    && forall i {:trigger t[i]} :: 0 <= i < |s| ==>
      t[i] == if from <= i - dist <= to then s[i - dist] else if from <= i <= to then false else s[i]
  }

  lemma {:induction false} ShiftRightStep(s: seq<bool>, t: seq<bool>, at: nat, to: nat, dist: nat)
    requires 0 < dist && at <= to && ShiftedRight(s, t, at + 1, to, dist)
    ensures ShiftedRight(s, t[at + dist := t[at]][at := false], at, to, dist)
  {
    var u := t[at + dist := t[at]][at := false];
    forall i | 0 <= i < |s|
      ensures u[i] == if at <= i - dist <= to then s[i - dist] else if at <= i <= to then false else s[i]
    {
      assert t[at] == s[at];
    }
  }

  /** `bitset_shift_right`: it moves the bit at `to` as well; source and destination may overlap. */
  method ShiftRight(bitset: array<bv8>, from: nat, to: nat, dist: nat)
    requires 0 < dist && from <= to && to + dist < 8 * bitset.Length
    modifies bitset
    ensures ShiftedRight(old(Bits(bitset[..])), Bits(bitset[..]), from, to, dist)
  {
    ghost var s := Bits(bitset[..]);
    var length := to - from;
    while length >= 0
      invariant -1 <= length <= to - from
      invariant ShiftedRight(s, Bits(bitset[..]), from + length + 1, to, dist)
    {
      var at := from + length;
      ghost var t := Bits(bitset[..]);
      ShiftRightStep(s, t, at, to, dist);
      var bit := Test(bitset, at);
      Put(bitset, at + dist, bit);
      Put(bitset, at, false);
      length := length - 1;
    }
  }
}
