/** Standard and legacy LZ4 frames: `lz4_unframe`. */
module Lz4Frame {
  import opened Arith
  import opened Lz4

  const STANDARD_MAGIC: nat := 0x184D2204
  const LEGACY_MAGIC: nat := 0x184C2102
  const STORED: nat := 0x8000_0000

  function Word32(a: byte, b: byte, c: byte, d: byte): (w: nat)
    ensures w < 0x1_0000_0000
  {
    a as int + 256 * (b as int + 256 * (c as int + 256 * d as int))
  }

  function WordAt(s: seq<byte>): (w: nat)
    requires |s| >= 4
    ensures w < 0x1_0000_0000
  {
    Word32(s[0], s[1], s[2], s[3])
  }

  predicate Bit(b: byte, weight: nat)
    requires weight > 0
  {
    (b as int / weight) % 2 == 1
  }

  function Drop(s: seq<byte>, n: nat): (r: seq<byte>) {
    if n <= |s| then s[n..] else []
  }

  // ----- the frame decoder on values

  /** OutOfBounds: a block that is no LZ4 block, or that does not fit the buffer of size `cap`. */
  datatype Result = Output(bytes: seq<byte>) | Error(code: int) | OutOfBounds

  /** A compressed block of the given size at the head of `s`. */
  function DecodePacked(s: seq<byte>, size: nat, out: seq<byte>, max: nat, cap: nat): (r: Result) {
    if size > |s| then Error(-3)
    else match DecodeBlock(s[..size], out)
      case None => OutOfBounds
      case Some(o) => if |o| > cap then OutOfBounds else if |o| > max then Error(-4) else Output(o)
  }

  function DecodeStored(s: seq<byte>, size: nat, out: seq<byte>, max: nat): (r: Result) {
    if size > |s| || |out| + size > max then Error(-2) else Output(out + s[..size])
  }

  function DecodePart(s: seq<byte>, word: nat, out: seq<byte>, max: nat, cap: nat): (r: Result) {
    if word >= STORED then DecodeStored(s, word - STORED, out, max) else DecodePacked(s, word, out, max, cap)
  }

  function PartSize(word: nat): (n: nat) {
    if word >= STORED then word - STORED else word
  }

  function DecodeStandard(s: seq<byte>, out: seq<byte>, checksums: bool, max: nat, cap: nat): (r: Result)
    decreases |s|
  {
    if |s| < 4 || WordAt(s) == 0 then Output(out)
    else match DecodePart(s[4..], WordAt(s), out, max, cap)
      case Output(o) => DecodeStandard(Drop(s[4..], PartSize(WordAt(s)) + if checksums then 4 else 0), o, checksums, max, cap)
      case other => other
  }

  function DecodeLegacy(s: seq<byte>, out: seq<byte>, max: nat, cap: nat): (r: Result)
    decreases |s|
  {
    if |s| < 4 || WordAt(s) == 0 then Output(out)
    else match DecodePacked(s[4..], WordAt(s), out, max, cap)
      case Output(o) => DecodeLegacy(Drop(s[4..], WordAt(s)), o, max, cap)
      case other => other
  }

  function HeaderSize(flg: byte): (n: nat) {
    7 + (if Bit(flg, 8) then 8 else 0) + if Bit(flg, 1) then 4 else 0
  }

  function Unframe(s: seq<byte>, max: nat, cap: nat): (r: Result) {
    if |s| < 7 then Error(-1)
    else if WordAt(s) == LEGACY_MAGIC then DecodeLegacy(s[4..], [], max, cap)
    else if WordAt(s) != STANDARD_MAGIC then Error(-1)
    else DecodeStandard(Drop(s, HeaderSize(s[4])), [], Bit(s[4], 16), max, cap)
  }

  // ----- the frame encoder

  function WordBytes(w: nat): (r: seq<byte>)
    requires w < 0x1_0000_0000
    ensures |r| == 4
  {
    [(w % 256) as byte, (w / 256 % 256) as byte, (w / 65536 % 256) as byte, (w / 0x100_0000) as byte]
  }

  lemma {:induction false} WordRoundTrip(w: nat, rest: seq<byte>)
    requires w < 0x1_0000_0000
    ensures WordAt(WordBytes(w) + rest) == w && (WordBytes(w) + rest)[4..] == rest
  {
    var b, c, d := w / 256, w / 65536, w / 0x100_0000;
    assert b / 256 == c && c / 256 == d;
    assert w == 256 * b + w % 256 && b == 256 * c + b % 256 && c == 256 * d + c % 256;
  }

  /** A part of a frame, with the block checksum, which the decoder skips. */
  datatype Part = StoredPart(data: seq<byte>, checksum: seq<byte>) | PackedPart(block: Block, checksum: seq<byte>)

  predicate ValidPart(p: Part, out: seq<byte>, checksums: bool) {
    && |p.checksum| == (if checksums then 4 else 0)
    && match p
       case StoredPart(data, _) => |data| < STORED
       case PackedPart(b, _) => ValidBlock(b, out) && Encodable(b.sequences) && 0 < |EncodeBlock(b)| < STORED
  }

  function ExpandPart(p: Part, out: seq<byte>, checksums: bool): (r: seq<byte>)
    requires ValidPart(p, out, checksums)
  {
    match p
    case StoredPart(data, _) => out + data
    case PackedPart(b, _) => ExpandBlock(b, out)
  }

  predicate ValidParts(ps: seq<Part>, out: seq<byte>, checksums: bool)
    decreases |ps|
  {
    ps == [] || (ValidPart(ps[0], out, checksums) && ValidParts(ps[1..], ExpandPart(ps[0], out, checksums), checksums))
  }

  function ExpandParts(ps: seq<Part>, out: seq<byte>, checksums: bool): (r: seq<byte>)
    requires ValidParts(ps, out, checksums)
    decreases |ps|
  {
    if ps == [] then out else ExpandParts(ps[1..], ExpandPart(ps[0], out, checksums), checksums)
  }

  /** The bytes of a part without its checksum, and the size word in front of them. */
  function PartBytes(p: Part, out: seq<byte>, checksums: bool): (r: seq<byte>)
    requires ValidPart(p, out, checksums)
  {
    match p
    case StoredPart(data, _) => data
    case PackedPart(b, _) => EncodeBlock(b)
  }

  function PartWord(p: Part, out: seq<byte>, checksums: bool): (w: nat)
    requires ValidPart(p, out, checksums)
    ensures 0 < w < 0x1_0000_0000
  {
    |PartBytes(p, out, checksums)| + if p.StoredPart? then STORED else 0
  }

  function EncodeParts(ps: seq<Part>, out: seq<byte>, checksums: bool, tail: seq<byte>): (r: seq<byte>)
    requires ValidParts(ps, out, checksums)
    decreases |ps|
  {
    if ps == [] then tail
    else
      var more := EncodeParts(ps[1..], ExpandPart(ps[0], out, checksums), checksums, tail);
      WordBytes(PartWord(ps[0], out, checksums)) + (PartBytes(ps[0], out, checksums) + (ps[0].checksum + more))
  }

  /** What may follow the last part: an end mark and anything, or less than a size word. */
  predicate Tail(t: seq<byte>) {
    |t| < 4 || WordAt(t) == 0
  }

  lemma {:induction false} ExpandGrows(ps: seq<Part>, out: seq<byte>, checksums: bool)
    requires ValidParts(ps, out, checksums)
    ensures out <= ExpandParts(ps, out, checksums)
    decreases |ps|
  {
    if ps != [] {
      ExpandGrows(ps[1..], ExpandPart(ps[0], out, checksums), checksums);
      PartGrows(ps[0], out, checksums);
    }
  }

  lemma {:induction false} PartGrows(p: Part, out: seq<byte>, checksums: bool)
    requires ValidPart(p, out, checksums)
    ensures out <= ExpandPart(p, out, checksums)
  {
    if p.PackedPart? {
      BlockRoundTrip(p.block, out);
      DecodeGrows(EncodeBlock(p.block), out);
    }
  }

  lemma {:induction false} PartRoundTrip(p: Part, out: seq<byte>, checksums: bool, rest: seq<byte>, max: nat, cap: nat)
    requires ValidPart(p, out, checksums) && |ExpandPart(p, out, checksums)| <= max <= cap
    ensures DecodePart(PartBytes(p, out, checksums) + rest, PartWord(p, out, checksums), out, max, cap)
         == Output(ExpandPart(p, out, checksums))
    ensures PartSize(PartWord(p, out, checksums)) == |PartBytes(p, out, checksums)|
  {
    var data := PartBytes(p, out, checksums);
    assert (data + rest)[..|data|] == data;
    if p.PackedPart? {
      BlockRoundTrip(p.block, out);
    }
  }

  lemma {:induction false} DropTwo(a: seq<byte>, b: seq<byte>, c: seq<byte>)
    ensures Drop(a + (b + c), |a| + |b|) == c
  {
  }

  lemma {:induction false} StandardParts(ps: seq<Part>, out: seq<byte>, checksums: bool, tail: seq<byte>, max: nat,
                                         cap: nat)
    requires ValidParts(ps, out, checksums) && Tail(tail) && |ExpandParts(ps, out, checksums)| <= max <= cap
    ensures DecodeStandard(EncodeParts(ps, out, checksums, tail), out, checksums, max, cap) == Output(ExpandParts(ps, out, checksums))
    decreases |ps|
  {
    if ps != [] {
      var p := ps[0];
      var o := ExpandPart(p, out, checksums);
      var data := PartBytes(p, out, checksums);
      var more := EncodeParts(ps[1..], o, checksums, tail);
      ExpandGrows(ps[1..], o, checksums);
      WordRoundTrip(PartWord(p, out, checksums), data + (p.checksum + more));
      PartRoundTrip(p, out, checksums, p.checksum + more, max, cap);
      DropTwo(data, p.checksum, more);
      StandardParts(ps[1..], o, checksums, tail, max, cap);
    }
  }

  /** A standard frame; `extra` holds content size and dictionary id where the flags announce them. */
  datatype Frame = Frame(flg: byte, bd: byte, extra: seq<byte>, headerChecksum: byte, parts: seq<Part>, tail: seq<byte>)

  predicate ValidFrame(f: Frame) {
    && |f.extra| == HeaderSize(f.flg) - 7
    && ValidParts(f.parts, [], Bit(f.flg, 16)) && Tail(f.tail)
  }

  function EncodeFrame(f: Frame): (r: seq<byte>)
    requires ValidFrame(f)
  {
    (WordBytes(STANDARD_MAGIC) + [f.flg, f.bd] + f.extra + [f.headerChecksum]) + EncodeParts(f.parts, [], Bit(f.flg, 16), f.tail)
  }

  /** Decoding a standard frame that fits the output gives the expansion of its parts. */
  lemma {:induction false} FrameRoundTrip(f: Frame, max: nat, cap: nat)
    requires ValidFrame(f) && |ExpandParts(f.parts, [], Bit(f.flg, 16))| <= max <= cap
    ensures Unframe(EncodeFrame(f), max, cap) == Output(ExpandParts(f.parts, [], Bit(f.flg, 16)))
  {
    var body := EncodeParts(f.parts, [], Bit(f.flg, 16), f.tail);
    var head := WordBytes(STANDARD_MAGIC) + [f.flg, f.bd] + f.extra + [f.headerChecksum];
    var s := head + body;
    HeaderParsed(f, head, body, s);
    StandardParts(f.parts, [], Bit(f.flg, 16), f.tail, max, cap);
  }

  lemma {:induction false} HeaderParsed(f: Frame, head: seq<byte>, body: seq<byte>, s: seq<byte>)
    requires |f.extra| == HeaderSize(f.flg) - 7 && s == head + body
    requires head == WordBytes(STANDARD_MAGIC) + [f.flg, f.bd] + f.extra + [f.headerChecksum]
    ensures |s| >= 7 && WordAt(s) == STANDARD_MAGIC && s[4] == f.flg && Drop(s, HeaderSize(s[4])) == body
  {
    WordRoundTrip(STANDARD_MAGIC, []);
    assert WordBytes(STANDARD_MAGIC) + [] == WordBytes(STANDARD_MAGIC);
    assert |head| == HeaderSize(f.flg);
    assert forall i :: 0 <= i < 4 ==> s[i] == WordBytes(STANDARD_MAGIC)[i];
    assert s[4] == f.flg;
  }

  // ----- legacy frames

  predicate AllPacked(ps: seq<Part>) {
    forall i :: 0 <= i < |ps| ==> ps[i].PackedPart?
  }

  lemma {:induction false} LegacyParts(ps: seq<Part>, out: seq<byte>, tail: seq<byte>, max: nat, cap: nat)
    requires ValidParts(ps, out, false) && AllPacked(ps) && Tail(tail) && |ExpandParts(ps, out, false)| <= max <= cap
    ensures DecodeLegacy(EncodeParts(ps, out, false, tail), out, max, cap) == Output(ExpandParts(ps, out, false))
    decreases |ps|
  {
    if ps != [] {
      var o := ExpandPart(ps[0], out, false);
      ExpandGrows(ps[1..], o, false);
      LegacyPart(ps[0], out, EncodeParts(ps[1..], o, false, tail), max, cap);
      LegacyParts(ps[1..], o, tail, max, cap);
    }
  }

  /** Decoding takes one packed part off the front. */
  lemma {:induction false} LegacyPart(p: Part, out: seq<byte>, more: seq<byte>, max: nat, cap: nat)
    requires ValidPart(p, out, false) && p.PackedPart? && |ExpandPart(p, out, false)| <= max <= cap
    ensures DecodeLegacy(WordBytes(PartWord(p, out, false)) + (PartBytes(p, out, false) + (p.checksum + more)), out, max, cap)
         == DecodeLegacy(more, ExpandPart(p, out, false), max, cap)
  {
    hide ExpandPart, WordBytes, EncodeBlock, ValidBlock;
    var data := PartBytes(p, out, false);
    assert p.checksum + more == more;
    WordRoundTrip(PartWord(p, out, false), data + more);
    PartRoundTrip(p, out, false, more, max, cap);
    DropTwo(data, [], more);
    assert [] + more == more;
  }

  function EncodeLegacy(ps: seq<Part>, tail: seq<byte>): (r: seq<byte>)
    requires ValidParts(ps, [], false)
  {
    WordBytes(LEGACY_MAGIC) + EncodeParts(ps, [], false, tail)
  }

  /**
    Decoding a legacy frame gives the expansion of its blocks, except that a frame without blocks
    and without an end mark is taken for truncated.
  */
  lemma {:induction false} LegacyRoundTrip(ps: seq<Part>, tail: seq<byte>, max: nat, cap: nat)
    requires ValidParts(ps, [], false) && AllPacked(ps) && Tail(tail) && |ExpandParts(ps, [], false)| <= max <= cap
    ensures Unframe(EncodeLegacy(ps, tail), max, cap) == Output(ExpandParts(ps, [], false)) <==> ps != [] || |tail| >= 3
    ensures ps == [] && |tail| < 3 ==> Unframe(EncodeLegacy(ps, tail), max, cap) == Error(-1)
  {
    var body := EncodeParts(ps, [], false, tail);
    WordRoundTrip(LEGACY_MAGIC, body);
    LegacyParts(ps, [], tail, max, cap);
    if ps != [] {
      assert |PartBytes(ps[0], [], false)| >= 1;
      assert |body| >= 5;
    }
  }

  /** An empty legacy frame is rejected. */
  lemma {:induction false} EmptyLegacyRejected()
    ensures ValidParts([], [], false) && Unframe(EncodeLegacy([], []), 0, 0) == Error(-1)
  {
    assert EncodeLegacy([], []) == WordBytes(LEGACY_MAGIC) + [];
  }

  // ----- the frame decoder in place

  /** What is left of the input from `ip` on; skipping may have moved `ip` behind the end. */
  ghost function Rest(src: array<byte>, ip: nat): (r: seq<byte>)
    reads src
  {
    Drop(src[..], ip)
  }

  /** The returned int for a result: the number of bytes written, or an error code. */
  ghost predicate Returned(result: Result, r: int, dest: array<byte>)
    reads dest
  {
    match result
    case Output(b) => r == |b| && r <= dest.Length && dest[..r] == b
    case Error(code) => r == code
    case OutOfBounds => false
  }

  method WordFrom(src: array<byte>, ip: nat) returns (w: nat)
    requires ip + 4 <= src.Length
    ensures |Rest(src, ip)| >= 4 && w == WordAt(Rest(src, ip)) && Rest(src, ip)[4..] == Rest(src, ip + 4)
  {
    w := Word32(src[ip], src[ip + 1], src[ip + 2], src[ip + 3]);
    assert src[..][ip..][4..] == src[..][ip + 4..];
  }

  /** A compressed block at `ip`. */
  method PackedInto(src: array<byte>, ip: nat, size: nat, dest: array<byte>, start: nat,
                    max: nat) returns (code: int, op: nat)
    requires src != dest && ip <= src.Length && start <= dest.Length && max <= dest.Length
    requires DecodePacked(Rest(src, ip), size, dest[..start], max, dest.Length) != OutOfBounds
    modifies dest
    ensures op <= dest.Length
    ensures code < 0 ==> DecodePacked(Rest(src, ip), size, old(dest[..start]), max, dest.Length) == Error(code)
    ensures code >= 0 ==> DecodePacked(Rest(src, ip), size, old(dest[..start]), max, dest.Length) == Output(dest[..op])
  {
    code, op := 0, start;
    if ip + size > src.Length {
      code := -3;
      return;
    }
    assert Rest(src, ip)[..size] == src[ip..ip + size];
    op := DecompressBlock(src, ip, size, dest, start);
    if op > max {
      code := -4;
    }
  }

  method StoredInto(src: array<byte>, ip: nat, size: nat, dest: array<byte>, start: nat,
                    max: nat) returns (code: int, op: nat)
    requires src != dest && ip <= src.Length && start <= dest.Length && max <= dest.Length
    modifies dest
    ensures op <= dest.Length
    ensures code < 0 ==> DecodeStored(Rest(src, ip), size, old(dest[..start]), max) == Error(code)
    ensures code >= 0 ==> DecodeStored(Rest(src, ip), size, old(dest[..start]), max) == Output(dest[..op])
  {
    code, op := 0, start;
    if ip + size > src.Length || start + size > max {
      code := -2;
      return;
    }
    assert Rest(src, ip)[..size] == src[ip..ip + size];
    CopyLiterals(src, ip, dest, start, size);
    op := start + size;
  }

  lemma {:induction false} RestShort(src: array<byte>, ip: nat)
    requires ip + 4 > src.Length
    ensures |Rest(src, ip)| < 4
  {
  }

  lemma {:induction false} DropRest(src: array<byte>, ip: nat, n: nat)
    ensures Drop(Rest(src, ip), n) == Rest(src, ip + n)
  {
  }

  lemma {:induction false} StandardStep(s: seq<byte>, out: seq<byte>, checksums: bool, max: nat, cap: nat)
    ensures |s| < 4 || WordAt(s) == 0 ==> DecodeStandard(s, out, checksums, max, cap) == Output(out)
    ensures |s| >= 4 && WordAt(s) != 0 ==>
      var part := DecodePart(s[4..], WordAt(s), out, max, cap);
      var rest := Drop(s[4..], PartSize(WordAt(s)) + if checksums then 4 else 0);
      DecodeStandard(s, out, checksums, max, cap) == if part.Output? then DecodeStandard(rest, part.bytes, checksums, max, cap) else part
  {
  }

  method StandardInto(src: array<byte>, from: nat, dest: array<byte>, checksums: bool, max: nat) returns (r: int)
    requires src != dest && max <= dest.Length
    requires DecodeStandard(Rest(src, from), [], checksums, max, dest.Length) != OutOfBounds
    modifies dest
    ensures Returned(DecodeStandard(Rest(src, from), [], checksums, max, dest.Length), r, dest)
  {
    hide DecodeStandard, DecodePacked, DecodeStored, Rest;
    ghost var cap := dest.Length;
    ghost var result := DecodeStandard(Rest(src, from), [], checksums, max, cap);
    var ip: nat, op: nat := from, 0;
    while ip < src.Length
      invariant op <= dest.Length && result == DecodeStandard(Rest(src, ip), dest[..op], checksums, max, cap)
      decreases src.Length - ip
    {
      StandardStep(Rest(src, ip), dest[..op], checksums, max, cap);
      if ip + 4 > src.Length {
        break;
      }
      var word := WordFrom(src, ip);
      ip := ip + 4;
      if word == 0 {
        return op;
      }
      DropRest(src, ip, PartSize(word) + if checksums then 4 else 0);
      var code;
      if word >= STORED {
        code, op := StoredInto(src, ip, word - STORED, dest, op, max);
        if code < 0 {
          return code;
        }
        ip := ip + (word - STORED);
      } else {
        code, op := PackedInto(src, ip, word, dest, op, max);
        if code < 0 {
          return code;
        }
        ip := ip + word;
      }
      if checksums {
        ip := ip + 4;
      }
    }
    RestShort(src, ip);
    StandardStep(Rest(src, ip), dest[..op], checksums, max, cap);
    return op;
  }

  lemma {:induction false} LegacyStep(s: seq<byte>, out: seq<byte>, max: nat, cap: nat)
    ensures |s| < 4 || WordAt(s) == 0 ==> DecodeLegacy(s, out, max, cap) == Output(out)
    ensures |s| >= 4 && WordAt(s) != 0 ==>
      var part := DecodePacked(s[4..], WordAt(s), out, max, cap);
      DecodeLegacy(s, out, max, cap) == if part.Output? then DecodeLegacy(Drop(s[4..], WordAt(s)), part.bytes, max, cap) else part
  {
  }

  method LegacyInto(src: array<byte>, from: nat, dest: array<byte>, max: nat) returns (r: int)
    requires src != dest && max <= dest.Length
    requires DecodeLegacy(Rest(src, from), [], max, dest.Length) != OutOfBounds
    modifies dest
    ensures Returned(DecodeLegacy(Rest(src, from), [], max, dest.Length), r, dest)
  {
    hide DecodeLegacy, DecodePacked, Rest;
    ghost var cap := dest.Length;
    ghost var result := DecodeLegacy(Rest(src, from), [], max, cap);
    var ip: nat, op: nat := from, 0;
    while ip < src.Length
      invariant op <= dest.Length && result == DecodeLegacy(Rest(src, ip), dest[..op], max, cap)
      decreases src.Length - ip
    {
      LegacyStep(Rest(src, ip), dest[..op], max, cap);
      if ip + 4 > src.Length {
        break;
      }
      var word := WordFrom(src, ip);
      ip := ip + 4;
      if word == 0 {
        return op;
      }
      DropRest(src, ip, word);
      var code;
      code, op := PackedInto(src, ip, word, dest, op, max);
      if code < 0 {
        return code;
      }
      ip := ip + word;
    }
    RestShort(src, ip);
    LegacyStep(Rest(src, ip), dest[..op], max, cap);
    return op;
  }

  /** `lz4_unframe` */
  method UnframeInto(src: array<byte>, dest: array<byte>, max: nat) returns (r: int)
    requires src != dest && max <= dest.Length
    requires Unframe(src[..], max, dest.Length) != OutOfBounds
    modifies dest
    ensures Returned(Unframe(src[..], max, dest.Length), r, dest)
  {
    if src.Length < 7 {
      return -1;
    }
    var magic := WordFrom(src, 0);
    assert Rest(src, 0) == src[..];
    if magic == LEGACY_MAGIC {
      r := LegacyInto(src, 4, dest, max);
      return;
    }
    if magic != STANDARD_MAGIC {
      return -1;
    }
    var flg := src[4];
    r := StandardInto(src, HeaderSize(flg), dest, Bit(flg, 16), max);
  }
}
