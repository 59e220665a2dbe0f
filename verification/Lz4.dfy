/** LZ4 block and frame decoding: kernel/lz4.c against the LZ4 Block Format. */
module Lz4 {
  import opened Arith

  function Word16(lo: byte, hi: byte): (w: nat)
    ensures w < 65536 && w % 256 == lo && w / 256 == hi
  {
    lo as int + 256 * hi as int
  }

  // ----- the block decoder on values

  /** A length continued by bytes of 255. */
  function ReadLength(s: seq<byte>, base: nat): (r: Option<(nat, seq<byte>)>)
  {
    if s == [] then None
    else if s[0] == 255 then ReadLength(s[1..], base + 255)
    else Some((base + s[0], s[1..]))
  }

  function Length(nibble: nat, s: seq<byte>): (r: Option<(nat, seq<byte>)>) {
    if nibble == 15 then ReadLength(s, 15) else Some((nibble, s))
  }

  /** Byte by byte, so that a match may run into the bytes it writes. */
  function CopyMatch(out: seq<byte>, offset: nat, len: nat): (r: seq<byte>)
    requires 1 <= offset <= |out|
    decreases len
  {
    if len == 0 then out else CopyMatch(out + [out[|out| - offset]], offset, len - 1)
  }

  /** A match repeats the bytes `offset` places back. */
  lemma {:induction false} CopyMatchRepeats(out: seq<byte>, offset: nat, len: nat)
    requires 1 <= offset <= |out|
    ensures var r := CopyMatch(out, offset, len);
      && |r| == |out| + len && r[..|out|] == out
      && forall i :: |out| <= i < |r| ==> r[i] == r[i - offset]
    decreases len
  {
    if len > 0 {
      var out' := out + [out[|out| - offset]];
      CopyMatchRepeats(out', offset, len - 1);
      var r := CopyMatch(out', offset, len - 1);
      assert r[..|out|] == r[..|out'|][..|out|] == out;
      assert r[|out|] == r[..|out'|][|out|] && r[|out| - offset] == r[..|out'|][|out| - offset];
    }
  }

  /** The lengths the two length decoders leave behind. */
  lemma {:induction false} ReadLengthShorter(s: seq<byte>, base: nat)
    requires ReadLength(s, base).Some?
    ensures |ReadLength(s, base).value.1| < |s| && ReadLength(s, base).value.0 >= base
  {
    if s[0] == 255 {
      ReadLengthShorter(s[1..], base + 255);
    }
  }

  lemma {:induction false} LengthShorter(nibble: nat, s: seq<byte>)
    requires Length(nibble, s).Some?
    ensures |Length(nibble, s).value.1| <= |s|
  {
    if nibble == 15 {
      ReadLengthShorter(s, 15);
    }
  }

  /** The output after the block, appended to `out`; None if the block reads or refers out of bounds. */
  function DecodeBlock(s: seq<byte>, out: seq<byte>): (r: Option<seq<byte>>)
    decreases |s|, 1
  {
    if s == [] then Some(out)
    else match Length(s[0] / 16, s[1..])
      case None => None
      case Some((n, s1)) =>
        if n > |s1| then None
        else if n == |s1| then Some(out + s1)
        else
          LengthShorter(s[0] / 16, s[1..]);
          DecodeMatch(s[0] % 16, s1[n..], out + s1[..n])
  }

  /** From the offset of a match on. */
  function DecodeMatch(nibble: nat, s: seq<byte>, out: seq<byte>): (r: Option<seq<byte>>)
    decreases |s|, 0
  {
    if |s| < 2 then None
    else
      var offset := Word16(s[0], s[1]);
      match Length(nibble, s[2..])
      case None => None
      case Some((m, s2)) =>
        if offset == 0 || offset > |out| then None
        else
          LengthShorter(nibble, s[2..]);
          DecodeBlock(s2, CopyMatch(out, offset, m + 4))
  }

  // ----- the block encoder

  /** Literals followed by a match. */
  datatype Sequence = Sequence(literals: seq<byte>, offset: nat, matchLength: nat)

  /** Sequences, and usually final literals; the low half of the last token carries no meaning. */
  datatype Block = Block(sequences: seq<Sequence>, last: Option<Last>)

  datatype Last = Last(literals: seq<byte>, low: nat)

  function Nibble(n: nat): (r: nat)
    ensures r <= 15
  {
    if n >= 15 then 15 else n
  }

  function ExtBytes(v: nat): (r: seq<byte>) {
    if v >= 255 then [255 as byte] + ExtBytes(v - 255) else [v as byte]
  }

  function LengthBytes(n: nat): (r: seq<byte>) {
    if n >= 15 then ExtBytes(n - 15) else []
  }

  function Token(high: nat, low: nat): (r: byte)
    requires high <= 15 && low <= 15
  {
    high * 16 + low
  }

  predicate ValidSequence(q: Sequence, out: seq<byte>) {
    1 <= q.offset <= |out| + |q.literals| && q.offset < 65536 && q.matchLength >= 4
  }

  function ExpandSequence(q: Sequence, out: seq<byte>): (r: seq<byte>)
    requires ValidSequence(q, out)
  {
    CopyMatch(out + q.literals, q.offset, q.matchLength)
  }

  predicate ValidSequences(qs: seq<Sequence>, out: seq<byte>)
    decreases |qs|
  {
    qs == [] || (ValidSequence(qs[0], out) && ValidSequences(qs[1..], ExpandSequence(qs[0], out)))
  }

  predicate ValidBlock(b: Block, out: seq<byte>) {
    ValidSequences(b.sequences, out) && (b.last.Some? ==> b.last.value.low <= 15)
  }

  function Expand(qs: seq<Sequence>, out: seq<byte>): (r: seq<byte>)
    requires ValidSequences(qs, out)
    decreases |qs|
  {
    if qs == [] then out else Expand(qs[1..], ExpandSequence(qs[0], out))
  }

  function ExpandBlock(b: Block, out: seq<byte>): (r: seq<byte>)
    requires ValidBlock(b, out)
  {
    Expand(b.sequences, out) + if b.last.Some? then b.last.value.literals else []
  }

  function Chain(a: seq<byte>, b: seq<byte>, c: seq<byte>, d: seq<byte>): (r: seq<byte>) {
    a + (b + (c + d))
  }

  lemma {:induction false} ChainAppend(a: seq<byte>, b: seq<byte>, c: seq<byte>, d: seq<byte>, e: seq<byte>)
    ensures Chain(a, b, c, d) + e == Chain(a, b, c, d + e)
  {
  }

  function EncodeSequence(q: Sequence): (r: seq<byte>)
    requires q.offset < 65536 && q.matchLength >= 4
  {
    Chain([Token(Nibble(|q.literals|), Nibble(q.matchLength - 4))], LengthBytes(|q.literals|), q.literals,
          [(q.offset % 256) as byte, (q.offset / 256) as byte] + LengthBytes(q.matchLength - 4))
  }

  function EncodeLast(last: Option<Last>): (r: seq<byte>)
    requires last.Some? ==> last.value.low <= 15
  {
    if last.None? then []
    else [Token(Nibble(|last.value.literals|), last.value.low)] + (LengthBytes(|last.value.literals|) + last.value.literals)
  }

  predicate Encodable(qs: seq<Sequence>) {
    forall i :: 0 <= i < |qs| ==> qs[i].offset < 65536 && qs[i].matchLength >= 4
  }

  function EncodeSequences(qs: seq<Sequence>, tail: seq<byte>): (r: seq<byte>)
    requires Encodable(qs)
  {
    if qs == [] then tail else EncodeSequence(qs[0]) + EncodeSequences(qs[1..], tail)
  }

  lemma {:induction false} ValidIsEncodable(qs: seq<Sequence>, out: seq<byte>)
    requires ValidSequences(qs, out)
    ensures Encodable(qs)
    decreases |qs|
  {
    if qs != [] {
      ValidIsEncodable(qs[1..], ExpandSequence(qs[0], out));
      forall i | 0 <= i < |qs| ensures qs[i].offset < 65536 && qs[i].matchLength >= 4 {
        assert i > 0 ==> qs[i] == qs[1..][i - 1];
      }
    }
  }

  function EncodeBlock(b: Block): (r: seq<byte>)
    requires Encodable(b.sequences) && (b.last.Some? ==> b.last.value.low <= 15)
  {
    EncodeSequences(b.sequences, EncodeLast(b.last))
  }

  // ----- decoding undoes encoding

  lemma {:induction false} ReadLengthOfExt(v: nat, base: nat, rest: seq<byte>)
    ensures ReadLength(ExtBytes(v) + rest, base) == Some((base + v, rest))
    decreases v
  {
    var s := ExtBytes(v) + rest;
    if v >= 255 {
      assert s[1..] == ExtBytes(v - 255) + rest;
      ReadLengthOfExt(v - 255, base + 255, rest);
    } else {
      assert s[1..] == rest;
    }
  }

  lemma {:induction false} LengthOfBytes(n: nat, rest: seq<byte>)
    ensures Length(Nibble(n), LengthBytes(n) + rest) == Some((n, rest))
  {
    if n >= 15 {
      ReadLengthOfExt(n - 15, 15, rest);
    } else {
      assert LengthBytes(n) + rest == rest;
    }
  }

  lemma {:induction false} DecodeSequence(q: Sequence, rest: seq<byte>, out: seq<byte>)
    requires ValidSequence(q, out)
    ensures DecodeBlock(EncodeSequence(q) + rest, out) == DecodeBlock(rest, ExpandSequence(q, out))
  {
    var n, m := |q.literals|, q.matchLength - 4;
    var head := [(q.offset % 256) as byte, (q.offset / 256) as byte];
    var tail := head + LengthBytes(m) + rest;
    var s := EncodeSequence(q) + rest;
    ChainAppend([Token(Nibble(n), Nibble(m))], LengthBytes(n), q.literals, head + LengthBytes(m), rest);
    assert tail == head + (LengthBytes(m) + rest);
    LengthOfBytes(m, rest);
    MatchHead(q, m, LengthBytes(m) + rest, rest, out + q.literals, tail);
    LiteralHead(Nibble(m), n, q.literals, tail, s, out);
  }

  /** A token with its literals, followed by more. */
  lemma {:induction false} LiteralHead(low: nat, n: nat, lits: seq<byte>, tail: seq<byte>, s: seq<byte>, out: seq<byte>)
    requires low <= 15 && n == |lits| && |tail| >= 1 && s == Chain([Token(Nibble(n), low)], LengthBytes(n), lits, tail)
    ensures DecodeBlock(s, out) == DecodeMatch(low, tail, out + lits)
  {
    var s1 := lits + tail;
    assert s[1..] == LengthBytes(n) + s1;
    LengthOfBytes(n, s1);
    assert s1[n..] == tail && s1[..n] == lits;
  }

  /** An offset with its match length, followed by more. */
  lemma {:induction false} MatchHead(q: Sequence, m: nat, more: seq<byte>, rest: seq<byte>, out: seq<byte>,
                                     tail: seq<byte>)
    requires 1 <= q.offset <= |out| && q.offset < 65536 && q.matchLength == m + 4
    requires Length(Nibble(m), more) == Some((m, rest))
    requires tail == [(q.offset % 256) as byte, (q.offset / 256) as byte] + more
    ensures DecodeMatch(Nibble(m), tail, out) == DecodeBlock(rest, CopyMatch(out, q.offset, q.matchLength))
  {
    assert tail[2..] == more;
    assert Word16(tail[0], tail[1]) == q.offset;
  }

  lemma {:induction false} DecodeLast(last: Last, out: seq<byte>)
    requires last.low <= 15
    ensures DecodeBlock(EncodeLast(Some(last)), out) == Some(out + last.literals)
  {
    var n := |last.literals|;
    var s := EncodeLast(Some(last));
    assert s[1..] == LengthBytes(n) + last.literals;
    LengthOfBytes(n, last.literals);
  }

  lemma {:induction false} DecodeSequences(qs: seq<Sequence>, last: Option<Last>, out: seq<byte>)
    requires ValidSequences(qs, out) && (last.Some? ==> last.value.low <= 15)
    ensures Encodable(qs)
    ensures DecodeBlock(EncodeSequences(qs, EncodeLast(last)), out)
         == Some(Expand(qs, out) + if last.Some? then last.value.literals else [])
    decreases |qs|
  {
    ValidIsEncodable(qs, out);
    if qs == [] {
      if last.Some? {
        DecodeLast(last.value, out);
      } else {
        assert out + [] == out;
      }
    } else {
      DecodeSequences(qs[1..], last, ExpandSequence(qs[0], out));
      DecodeSequence(qs[0], EncodeSequences(qs[1..], EncodeLast(last)), out);
    }
  }

  /** Decoding the encoding of a block gives its expansion. */
  lemma {:induction false} BlockRoundTrip(b: Block, out: seq<byte>)
    requires ValidBlock(b, out)
    ensures Encodable(b.sequences) && DecodeBlock(EncodeBlock(b), out) == Some(ExpandBlock(b, out))
  {
    DecodeSequences(b.sequences, b.last, out);
  }

  // ----- and nothing else decodes

  lemma {:induction false} ReadLengthIsExt(s: seq<byte>, base: nat)
    requires ReadLength(s, base).Some?
    ensures var (n, rest) := ReadLength(s, base).value; n >= base && s == ExtBytes(n - base) + rest
    decreases |s|
  {
    if s[0] == 255 {
      ReadLengthIsExt(s[1..], base + 255);
      ReadLengthShorter(s[1..], base + 255);
      var (n, rest) := ReadLength(s, base).value;
      assert s == [s[0]] + s[1..];
      assert ExtBytes(n - base) == [255 as byte] + ExtBytes(n - base - 255);
    } else {
      assert s == [s[0]] + s[1..];
    }
  }

  lemma {:induction false} LengthIsBytes(nibble: nat, s: seq<byte>)
    requires nibble <= 15 && Length(nibble, s).Some?
    ensures var (n, rest) := Length(nibble, s).value; nibble == Nibble(n) && s == LengthBytes(n) + rest
  {
    if nibble == 15 {
      ReadLengthIsExt(s, 15);
    }
  }

  /** Whatever decodes is the encoding of a valid block with that expansion. */
  lemma {:induction false} DecodesOnlyBlocks(s: seq<byte>, out: seq<byte>) returns (b: Block)
    requires DecodeBlock(s, out).Some?
    ensures ValidBlock(b, out) && Encodable(b.sequences)
    ensures EncodeBlock(b) == s && ExpandBlock(b, out) == DecodeBlock(s, out).value
    decreases |s|
  {
    if s == [] {
      b := Block([], None);
      assert out + [] == out;
      return;
    }
    var (n, s1) := Length(s[0] / 16, s[1..]).value;
    if n == |s1| {
      b := LastLiterals(s, out, n, s1);
      return;
    }
    var q, s2 := FirstSequence(s, out, n, s1);
    var b' := DecodesOnlyBlocks(s2, ExpandSequence(q, out));
    b := Block([q] + b'.sequences, b'.last);
    AssembledBlock(q, b', s2, s, out, b);
  }

  lemma {:induction false} LastLiterals(s: seq<byte>, out: seq<byte>, n: nat, s1: seq<byte>) returns (b: Block)
    requires s != [] && Length(s[0] / 16, s[1..]) == Some((n, s1)) && n == |s1|
    ensures ValidBlock(b, out) && Encodable(b.sequences)
    ensures EncodeBlock(b) == s && ExpandBlock(b, out) == out + s1
  {
    LengthIsBytes(s[0] / 16, s[1..]);
    b := Block([], Some(Last(s1, s[0] % 16)));
    assert s == [s[0]] + s[1..];
    assert EncodeBlock(b) == [s[0]] + (LengthBytes(n) + s1);
  }

  /** The first sequence of what decodes, and the bytes behind it. */
  lemma {:induction false} FirstSequence(s: seq<byte>, out: seq<byte>, n: nat, s1: seq<byte>)
    returns (q: Sequence, s2: seq<byte>)
    requires s != [] && DecodeBlock(s, out).Some? && Length(s[0] / 16, s[1..]) == Some((n, s1)) && n != |s1|
    ensures |s2| < |s| && ValidSequence(q, out) && s == EncodeSequence(q) + s2
    ensures DecodeBlock(s, out) == DecodeBlock(s2, ExpandSequence(q, out))
  {
    LengthIsBytes(s[0] / 16, s[1..]);
    LengthShorter(s[0] / 16, s[1..]);
    var t := s1[n..];
    assert DecodeBlock(s, out) == DecodeMatch(s[0] % 16, t, out + s1[..n]);
    var m;
    q, m, s2 := MatchPart(s[0] % 16, t, s1[..n], out);
    AssembledSequence(s, s1, t, s2, n, m, q);
  }

  lemma {:induction false} MatchPart(nibble: nat, t: seq<byte>, lits: seq<byte>, out: seq<byte>)
    returns (q: Sequence, m: nat, s2: seq<byte>)
    requires nibble <= 15 && DecodeMatch(nibble, t, out + lits).Some?
    ensures |t| >= 2 && |s2| < |t| && t[2..] == LengthBytes(m) + s2 && Nibble(m) == nibble
    ensures q == Sequence(lits, Word16(t[0], t[1]), m + 4)
    ensures ValidSequence(q, out) && DecodeMatch(nibble, t, out + lits) == DecodeBlock(s2, ExpandSequence(q, out))
  {
    m, s2 := Length(nibble, t[2..]).value.0, Length(nibble, t[2..]).value.1;
    LengthIsBytes(nibble, t[2..]);
    LengthShorter(nibble, t[2..]);
    q := Sequence(lits, Word16(t[0], t[1]), m + 4);
  }

  lemma {:induction false} AssembledSequence(s: seq<byte>, s1: seq<byte>, t: seq<byte>, s2: seq<byte>, n: nat,
                                             m: nat, q: Sequence)
    requires |s| >= 1 && n <= |s1| && s[1..] == LengthBytes(n) + s1 && t == s1[n..] && |t| >= 2 && t[2..] == LengthBytes(m) + s2
    requires Nibble(n) == s[0] / 16 && Nibble(m) == s[0] % 16 && q == Sequence(s1[..n], Word16(t[0], t[1]), m + 4)
    ensures s == EncodeSequence(q) + s2
  {
    hide LengthBytes, Nibble;
    var lits, head := s1[..n], [t[0], t[1]];
    assert Token(Nibble(n), Nibble(m)) == s[0];
    SplitHead(s, s1, t, n, LengthBytes(n));
    ChainAppend([s[0]], LengthBytes(n), lits, head + LengthBytes(m), s2);
    assert t == head + LengthBytes(m) + s2;
    assert EncodeSequence(q) == Chain([s[0]], LengthBytes(n), lits, head + LengthBytes(m));
  }

  lemma {:induction false} SplitHead(s: seq<byte>, s1: seq<byte>, t: seq<byte>, n: nat, lengths: seq<byte>)
    requires |s| >= 1 && n <= |s1| && s[1..] == lengths + s1 && t == s1[n..]
    ensures s == Chain([s[0]], lengths, s1[..n], t)
  {
    assert s1 == s1[..n] + t;
    assert s == [s[0]] + s[1..];
  }

  lemma {:induction false} AssembledBlock(q: Sequence, b': Block, s2: seq<byte>, s: seq<byte>, out: seq<byte>, b: Block)
    requires ValidSequence(q, out) && ValidBlock(b', ExpandSequence(q, out)) && Encodable(b'.sequences)
    requires EncodeBlock(b') == s2 && s == EncodeSequence(q) + s2 && b == Block([q] + b'.sequences, b'.last)
    ensures ValidBlock(b, out) && Encodable(b.sequences) && EncodeBlock(b) == s
    ensures ExpandBlock(b, out) == ExpandBlock(b', ExpandSequence(q, out))
  {
    assert b.sequences[1..] == b'.sequences;
    ValidIsEncodable(b.sequences, out);
  }

  // ----- the block decoder in place

  /** The output only grows. */
  lemma {:induction false} DecodeGrows(s: seq<byte>, out: seq<byte>)
    requires DecodeBlock(s, out).Some?
    ensures out <= DecodeBlock(s, out).value
    decreases |s|, 1
  {
    if s != [] {
      var (n, s1) := Length(s[0] / 16, s[1..]).value;
      LengthShorter(s[0] / 16, s[1..]);
      if n < |s1| {
        DecodeMatchGrows(s[0] % 16, s1[n..], out + s1[..n]);
      }
    }
  }

  lemma {:induction false} DecodeMatchGrows(nibble: nat, s: seq<byte>, out: seq<byte>)
    requires DecodeMatch(nibble, s, out).Some?
    ensures out <= DecodeMatch(nibble, s, out).value
    decreases |s|, 0
  {
    var offset := Word16(s[0], s[1]);
    var (m, s2) := Length(nibble, s[2..]).value;
    LengthShorter(nibble, s[2..]);
    DecodeGrows(s2, CopyMatch(out, offset, m + 4));
    CopyMatchRepeats(out, offset, m + 4);
  }

  method ReadLengthAt(src: array<byte>, from: nat, nibble: nat, ghost iend: nat) returns (len: nat, ip: nat)
    requires from <= iend <= src.Length && Length(nibble, src[from..iend]).Some?
    ensures from <= ip <= iend && Length(nibble, src[from..iend]) == Some((len, src[ip..iend]))
  {
    len, ip := nibble, from;
    if len == 15 {
      var more := true;
      while more
        invariant from <= ip <= iend
        invariant more ==> ReadLength(src[ip..iend], len) == Length(nibble, src[from..iend])
        invariant !more ==> Length(nibble, src[from..iend]) == Some((len, src[ip..iend]))
        decreases more, iend - ip
      {
        var s := src[ip];
        assert src[ip..iend][1..] == src[ip + 1..iend];
        ip := ip + 1;
        len := len + s;
        more := s == 255;
      }
    }
  }

  method CopyLiterals(src: array<byte>, ip: nat, dest: array<byte>, op: nat, n: nat)
    requires src != dest && ip + n <= src.Length && op + n <= dest.Length
    modifies dest
    ensures dest[..op + n] == old(dest[..op]) + src[ip..ip + n]
  {
    for i := 0 to n
      invariant dest[..op + i] == old(dest[..op]) + src[ip..ip + i]
    {
      dest[op + i] := src[ip + i];
    }
  }

  method CopyMatchInto(dest: array<byte>, op: nat, offset: nat, len: nat)
    requires 1 <= offset <= op && op + len <= dest.Length
    modifies dest
    ensures dest[..op + len] == CopyMatch(old(dest[..op]), offset, len)
  {
    ghost var out := dest[..op];
    for i := 0 to len
      invariant CopyMatch(out, offset, len) == CopyMatch(dest[..op + i], offset, len - i)
    {
      ghost var before := dest[..op + i];
      dest[op + i] := dest[op + i - offset];
      assert dest[..op + i + 1] == before + [before[|before| - offset]];
    }
  }

  /** One token with its literals and, unless the block ends there, its match. */
  method DecodeToken(src: array<byte>, from: nat, iend: nat, dest: array<byte>, start: nat) returns (ip: nat, op: nat)
    requires src != dest && from < iend <= src.Length && start <= dest.Length
    requires DecodeBlock(src[from..iend], dest[..start]).Some?
    requires |DecodeBlock(src[from..iend], dest[..start]).value| <= dest.Length
    modifies dest
    ensures from < ip <= iend && op <= dest.Length
    ensures DecodeBlock(src[ip..iend], dest[..op]) == DecodeBlock(src[from..iend], old(dest[..start]))
  {
    hide DecodeBlock, DecodeMatch, Length, Word16;
    ghost var s, out := src[from..iend], dest[..start];
    LiteralsFit(s, out);
    var token := src[from];
    assert s[1..] == src[from + 1..iend];
    var litLen;
    litLen, ip := ReadLengthAt(src, from + 1, token / 16, iend);
    ghost var s1 := src[ip..iend];
    CopyLiterals(src, ip, dest, start, litLen);
    assert s1[..litLen] == src[ip..ip + litLen];
    ip, op := ip + litLen, start + litLen;
    assert s1[litLen..] == src[ip..iend];
    if ip >= iend {
      assert s1 == s1[..litLen] && src[ip..iend] == [];
      DecodeEmpty(dest[..op]);
      return;
    }
    ip, op := DecodeMatchAt(src, ip, iend, dest, op, token % 16);
  }

  /** The literals of the first token fit the output; after them the block ends or a match follows. */
  lemma {:induction false} LiteralsFit(s: seq<byte>, out: seq<byte>)
    requires s != [] && DecodeBlock(s, out).Some?
    ensures Length(s[0] / 16, s[1..]).Some?
    ensures var (n, s1) := Length(s[0] / 16, s[1..]).value;
      && n <= |s1| && |out| + n <= |DecodeBlock(s, out).value|
      && (n == |s1| ==> DecodeBlock(s, out) == Some(out + s1))
      && (n < |s1| ==> DecodeBlock(s, out) == DecodeMatch(s[0] % 16, s1[n..], out + s1[..n]))
  {
    var (n, s1) := Length(s[0] / 16, s[1..]).value;
    if n < |s1| {
      DecodeMatchGrows(s[0] % 16, s1[n..], out + s1[..n]);
    }
  }

  method DecodeMatchAt(src: array<byte>, from: nat, iend: nat, dest: array<byte>, start: nat,
                       nibble: nat) returns (ip: nat, op: nat)
    requires src != dest && from < iend <= src.Length && start <= dest.Length
    requires DecodeMatch(nibble, src[from..iend], dest[..start]).Some?
    requires |DecodeMatch(nibble, src[from..iend], dest[..start]).value| <= dest.Length
    modifies dest
    ensures from < ip <= iend && op <= dest.Length
    ensures DecodeBlock(src[ip..iend], dest[..op]) == DecodeMatch(nibble, src[from..iend], old(dest[..start]))
  {
    ghost var s, out := src[from..iend], dest[..start];
    var offset := Word16(src[from], src[from + 1]);
    assert s[2..] == src[from + 2..iend] && s[0] == src[from] && s[1] == src[from + 1];
    var matLen;
    matLen, ip := ReadLengthAt(src, from + 2, nibble, iend);
    matLen := matLen + 4;
    DecodeGrows(src[ip..iend], CopyMatch(out, offset, matLen));
    CopyMatchRepeats(out, offset, matLen);
    CopyMatchInto(dest, start, offset, matLen);
    op := start + matLen;
  }

  /** `lz4_decompress_block`: the decoded bytes follow what the earlier blocks wrote. */
  method DecompressBlock(src: array<byte>, from: nat, size: nat, dest: array<byte>, start: nat) returns (op: nat)
    requires src != dest && from + size <= src.Length && start <= dest.Length
    requires DecodeBlock(src[from..from + size], dest[..start]).Some?
    requires |DecodeBlock(src[from..from + size], dest[..start]).value| <= dest.Length
    modifies dest
    ensures op <= dest.Length
    ensures Some(dest[..op]) == DecodeBlock(src[from..from + size], old(dest[..start]))
  {
    hide DecodeBlock;
    ghost var result := DecodeBlock(src[from..from + size], dest[..start]);
    var iend := from + size;
    var ip := from;
    op := start;
    while ip < iend
      invariant from <= ip <= iend && op <= dest.Length
      invariant DecodeBlock(src[ip..iend], dest[..op]) == result
    {
      ip, op := DecodeToken(src, ip, iend, dest, op);
    }
    assert src[ip..iend] == [];
    DecodeEmpty(dest[..op]);
  }

  lemma {:induction false} DecodeEmpty(out: seq<byte>)
    ensures DecodeBlock([], out) == Some(out)
  {
  }
}
