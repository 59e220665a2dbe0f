/** The bit buffer in front of the Huffman tables: `stbi__fill_bits`, `stbi__zreceive`, `stbi__zhuffman_decode`. */
module ZStream {
  import opened Arith
  import opened Huffman
  import opened HuffmanTables

  /** Bytes as one number, first byte lowest; reading bits from the low end reads them in stream order. */
  ghost function Little(bytes: seq<byte>): (w: nat) {
    if bytes == [] then 0 else bytes[0] + 256 * Little(bytes[1..])
  }

  /** What is to come: `n` bits of the buffer, then the bytes not yet fetched. */
  ghost function Ahead(c: nat, n: nat, bytes: seq<byte>): (w: nat) {
    c + Pow2(n) * Little(bytes)
  }

  class ZBuf {
    const zbuffer: seq<byte>
    var pos: nat
    var numBits: nat
    var hitZeofOnce: bool
    var codeBuffer: nat
    /** The bits handed out so far. */
    ghost var used: nat

    /** The bits still to come, past the end of the input all zero. */
    ghost function Rest(): (w: nat)
      requires pos <= |zbuffer|
      reads this
    {
      Ahead(codeBuffer, numBits, zbuffer[pos..])
    }

    ghost predicate Valid()
      reads this
    {
      && pos <= |zbuffer| && numBits <= 32 && codeBuffer < Pow2(numBits)
      && Rest() == Little(zbuffer) / Pow2(used)
      && numBits + 8 * (|zbuffer| - pos) + used >= 8 * |zbuffer|
      && (hitZeofOnce ==> pos == |zbuffer| && numBits + used >= 8 * |zbuffer| + 16)
    }

    constructor (zbuffer: seq<byte>)
      ensures Valid() && this.zbuffer == zbuffer && used == 0 && Rest() == Little(zbuffer)
    {
      this.zbuffer := zbuffer;
      pos, numBits, hitZeofOnce, codeBuffer, used := 0, 0, false, 0, 0;
      new;
      assert zbuffer[0..] == zbuffer;
    }

    /** `stbi__zget8`: zero behind the end. */
    method Get8() returns (b: byte)
      requires pos <= |zbuffer|
      modifies this`pos
      ensures old(pos) <= pos <= |zbuffer| && pos <= old(pos) + 1 && (pos == old(pos) ==> pos == |zbuffer|)
      ensures Little(zbuffer[old(pos)..]) == b + 256 * Little(zbuffer[pos..])
    {
      if pos >= |zbuffer| {
        return 0;
      }
      b := zbuffer[pos];
      assert zbuffer[pos..][1..] == zbuffer[pos + 1..];
      pos := pos + 1;
    }

    /** One round of `stbi__fill_bits`. */
    method FetchByte()
      requires pos <= |zbuffer| && codeBuffer < Pow2(numBits)
      modifies this`pos, this`codeBuffer, this`numBits
      ensures old(pos) <= pos <= |zbuffer| && pos <= old(pos) + 1
      ensures numBits == old(numBits) + 8 && codeBuffer < Pow2(numBits) && Rest() == old(Rest())
    {
      hide Pow2, Ahead;
      ghost var rest := zbuffer[pos..];
      var b := Get8();
      PushByte(codeBuffer, numBits, b, rest, zbuffer[pos..]);
      codeBuffer := codeBuffer + b * Pow2(numBits);
      numBits := numBits + 8;
    }

    /** `stbi__fill_bits`: the same bits to come, at least 25 of them in the buffer. */
    method FillBits()
      requires pos <= |zbuffer| && numBits <= 24
      modifies this`pos, this`codeBuffer, this`numBits
      ensures old(pos) <= pos <= |zbuffer|
      ensures old(codeBuffer) >= Pow2(old(numBits)) ==>
        pos == |zbuffer| && codeBuffer == old(codeBuffer) && numBits == old(numBits)
      ensures old(codeBuffer) < Pow2(old(numBits)) ==>
        && 25 <= numBits <= 32 && codeBuffer < Pow2(numBits) && Rest() == old(Rest())
        && numBits + 8 * (|zbuffer| - pos) >= old(numBits + 8 * (|zbuffer| - pos))
    {
      hide Pow2, Ahead;
      ghost var fits := codeBuffer < Pow2(numBits);
      while true
        invariant old(pos) <= pos <= |zbuffer| && numBits <= 24
        invariant fits <==> codeBuffer < Pow2(numBits)
        invariant if fits then Rest() == old(Rest()) else codeBuffer == old(codeBuffer) && numBits == old(numBits)
        invariant numBits + 8 * (|zbuffer| - pos) >= old(numBits + 8 * (|zbuffer| - pos))
        decreases 32 - numBits
      {
        if codeBuffer >= Pow2(numBits) {
          pos := |zbuffer|;
          return;
        }
        FetchByte();
        if numBits > 24 {
          break;
        }
      }
    }

    /** Shifts `n` bits out of the buffer. */
    method Drop(n: nat)
      requires Valid() && n <= numBits
      modifies this`codeBuffer, this`numBits, this`used
      ensures Valid() && Rest() == old(Rest()) / Pow2(n) && used == old(used) + n && numBits == old(numBits) - n
    {
      hide Pow2, Ahead, Little;
      DropBits(codeBuffer, numBits, n, codeBuffer / Pow2(n), zbuffer[pos..]);
      SplitQuotient(Little(zbuffer), used, n);
      codeBuffer := codeBuffer / Pow2(n);
      numBits := numBits - n;
      used := used + n;
    }

    /** `stbi__zreceive`: the next `n` bits as a number. */
    method Receive(n: nat) returns (k: nat)
      requires Valid() && n <= 16
      modifies this`pos, this`codeBuffer, this`numBits, this`used
      ensures Valid() && k == old(Rest()) % Pow2(n) && Rest() == old(Rest()) / Pow2(n) && used == old(used) + n
    {
      hide Pow2, Ahead, Little;
      if numBits < n {
        FillBits();
      }
      DropBits(codeBuffer, numBits, n, codeBuffer / Pow2(n), zbuffer[pos..]);
      k := codeBuffer % Pow2(n);
      Drop(n);
    }

    /** `stbi__zhuffman_decode`, with refill and the zero bits behind the end of the input. */
    method Decode(z: ZHuffman, ghost lens: seq<nat>) returns (symbol: int)
      requires Valid() && z.Shaped() && z.Describes(lens)
      modifies this
      ensures Valid()
      ensures symbol >= 0 ==> Matches(lens, old(Rest()), symbol)
      ensures symbol >= 0 ==> Rest() == old(Rest()) / Pow2(lens[symbol]) && used == old(used) + lens[symbol]
      ensures symbol < 0 ==> Rest() == old(Rest()) && used == old(used)
      ensures symbol < 0 ==> old(used) > 8 * |zbuffer| || forall i :: 0 <= i < |lens| ==> !Matches(lens, old(Rest()), i)
    {
      hide Pow2, Rev, Ahead, Little;
      ghost var w := Rest();
      if numBits < 16 {
        if pos >= |zbuffer| {
          if hitZeofOnce {
            return -1;
          }
          hitZeofOnce := true;
          Padding(codeBuffer, numBits, zbuffer[pos..]);
          numBits := numBits + 16;
        } else {
          FillBits();
        }
      }
      assert Rest() == w;
      SameWindow(lens, codeBuffer, numBits, zbuffer[pos..]);
      var s;
      symbol, s := z.Decode(codeBuffer, lens);
      if symbol >= 0 {
        Drop(s);
      }
    }
  }

  lemma {:induction false} PushByte(c: nat, n: nat, b: nat, bytes: seq<byte>, rest: seq<byte>)
    requires c < Pow2(n) && b < 256 && Little(bytes) == b + 256 * Little(rest)
    ensures c + b * Pow2(n) < Pow2(n + 8) && Ahead(c + b * Pow2(n), n + 8, rest) == Ahead(c, n, bytes)
  {
    hide Pow2, Little;
    Pow2Eight(n);
    PushArith(c, Pow2(n), b, Little(rest));
  }

  lemma {:induction false} Pow2Eight(n: nat)
    ensures Pow2(n + 8) == 256 * Pow2(n)
  {
    Pow2Add(n, 8);
  }

  lemma {:induction false} PushArith(c: nat, p: nat, b: nat, rest: nat)
    requires c < p && b < 256
    ensures c + b * p < 256 * p
    ensures c + b * p + (256 * p) * rest == c + p * (b + 256 * rest)
  {
    MulMono(p, b + 1, 256);
    MulAssocDistrib(p, 256, rest, b);
  }

  lemma {:induction false} DropBits(c: nat, n: nat, k: nat, h: nat, bytes: seq<byte>)
    requires c < Pow2(n) && k <= n && h == c / Pow2(k)
    ensures h < Pow2(n - k) && Ahead(h, n - k, bytes) == Ahead(c, n, bytes) / Pow2(k)
    ensures c % Pow2(k) == Ahead(c, n, bytes) % Pow2(k)
  {
    hide Pow2, Little;
    Pow2Add(k, n - k);
    DropArith(c, Pow2(k), Pow2(n - k), Little(bytes));
  }

  lemma {:induction false} DropArith(c: nat, p: nat, q: nat, rest: nat)
    requires p > 0 && c < p * q
    ensures c / p < q
    ensures c / p + q * rest == (c + (p * q) * rest) / p && c % p == (c + (p * q) * rest) % p
  {
    var h, l := c / p, c % p;
    if h >= q {
      MulMono(p, q, h);
      assert false;
    }
    MulAssocDistrib(p, q, rest, h);
    assert c == p * h + l;
    DivUnique(c + (p * q) * rest, p, q * rest + h, l);
  }

  lemma {:induction false} SplitQuotient(w: nat, a: nat, b: nat)
    ensures w / Pow2(a) / Pow2(b) == w / Pow2(a + b)
  {
    hide Pow2;
    Pow2Add(a, b);
    DivDiv(w, Pow2(a), Pow2(b));
  }

  /** Behind the end, zero bits change nothing. */
  lemma {:induction false} Padding(c: nat, n: nat, bytes: seq<byte>)
    requires c < Pow2(n) && bytes == []
    ensures c < Pow2(n + 16) && Ahead(c, n + 16, bytes) == Ahead(c, n, bytes)
  {
    Pow2Mono(n, n + 16);
  }

  /** Codes are no longer than the bits in the buffer, so the buffer decides which one comes next. */
  lemma {:induction false} SameWindow(lens: seq<nat>, c: nat, n: nat, bytes: seq<byte>)
    requires ValidLengths(lens) && c < Pow2(n) && n >= 16
    ensures forall i :: 0 <= i < |lens| ==> (Matches(lens, c, i) <==> Matches(lens, Ahead(c, n, bytes), i))
  {
    hide Pow2, Rev, Little;
    DivUnique(Ahead(c, n, bytes), Pow2(n), Little(bytes), c);
    forall i | 0 <= i < |lens| ensures Matches(lens, c, i) <==> Matches(lens, Ahead(c, n, bytes), i) {
      RevLow(Ahead(c, n, bytes), n, lens[i]);
    }
  }

  /** A buffer that shows an encoded list of symbols yields its first symbol and then shows the others. */
  lemma {:induction false} DecodeUndoesEncoding(lens: seq<nat>, symbols: seq<nat>, tail: nat, symbol: int)
    requires ValidLengths(lens) && Accepted(lens) && symbols != []
    requires forall k :: 0 <= k < |symbols| ==> symbols[k] < |lens| && lens[symbols[k]] >= 1
    requires symbol >= 0 ==> Matches(lens, Stream(lens, symbols, tail), symbol)
    requires symbol < 0 ==> forall i :: 0 <= i < |lens| ==> !Matches(lens, Stream(lens, symbols, tail), i)
    ensures symbol == symbols[0]
    ensures Stream(lens, symbols, tail) / Pow2(lens[symbol]) == Stream(lens, symbols[1..], tail)
  {
    hide Matches, Stream, Pow2, Accepted;
    StreamStarts(lens, symbols, tail);
    if symbol >= 0 {
      MatchUnique(lens, Stream(lens, symbols, tail), symbol, symbols[0]);
    }
  }
}
