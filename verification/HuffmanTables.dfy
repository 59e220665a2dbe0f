/** Building and using the decoding tables: `stbi__zbuild_huffman` and `stbi__zhuffman_decode`. */
module HuffmanTables {
  import opened Arith
  import opened BitReversal
  import opened Huffman

  // ----- what the tables hold

  ghost predicate CodesOk(lens: seq<nat>, firstcode: seq<nat>, maxcode: seq<nat>, firstsymbol: seq<nat>, n: nat) {
    && |firstcode| == 16 && |maxcode| == 17 && |firstsymbol| == 16 && n <= 15
    && forall s :: 1 <= s <= n ==> CodeOk(lens, firstcode, maxcode, firstsymbol, s)
  }

  ghost predicate CodeOk(lens: seq<nat>, firstcode: seq<nat>, maxcode: seq<nat>, firstsymbol: seq<nat>, s: nat)
    requires |firstcode| == 16 && |maxcode| == 17 && |firstsymbol| == 16 && 1 <= s <= 15
  {
    && firstcode[s] == First(lens, s)
    && maxcode[s] == End(lens, s) * Pow2(16 - s)
    && firstsymbol[s] == Shorter(lens, s, |lens|)
  }

  /** The first `n` symbols are filed at their places. */
  ghost predicate SymbolsOk(lens: seq<nat>, size: seq<nat>, value: seq<nat>, n: nat) {
    && |size| == SYMBOLS && |value| == SYMBOLS && n <= |lens| <= SYMBOLS
    && forall i :: 0 <= i < n && lens[i] >= 1 ==> SymbolOk(lens, size, value, i)
  }

  ghost predicate SymbolOk(lens: seq<nat>, size: seq<nat>, value: seq<nat>, i: nat)
    requires |size| == SYMBOLS && |value| == SYMBOLS && i < |lens| && lens[i] >= 1
  {
    Place(lens, i) < SYMBOLS && size[Place(lens, i)] == lens[i] && value[Place(lens, i)] == i
  }

  /** An entry names a symbol with a short code that the window starts with, or there is none among the first `n`. */
  ghost predicate FastEntryOk(lens: seq<nat>, b: nat, j: nat, n: nat)
    requires n <= |lens|
  {
    if b == 0 then forall i :: 0 <= i < n && lens[i] <= FAST_BITS ==> !Matches(lens, j, i)
    else b % 512 < n && Matches(lens, j, b % 512) && lens[b % 512] <= FAST_BITS && b / 512 == lens[b % 512]
  }

  ghost predicate FastOk(lens: seq<nat>, fast: seq<nat>, n: nat) {
    |fast| == FAST_SIZE && n <= |lens| && forall j :: 0 <= j < FAST_SIZE ==> FastEntryOk(lens, fast[j], j, n)
  }

  class ZHuffman {
    var fast: seq<nat>
    var firstcode: seq<nat>
    var maxcode: seq<nat>
    var firstsymbol: seq<nat>
    var size: seq<nat>
    var value: seq<nat>

    predicate Shaped()
      reads this
    {
      |fast| == FAST_SIZE && |firstcode| == 16 && |maxcode| == 17 && |firstsymbol| == 16 && |size| == SYMBOLS && |value| == SYMBOLS
    }

    /** The tables decode the code with the given lengths. */
    ghost predicate Describes(lens: seq<nat>)
      reads this
    {
      && ValidLengths(lens)
      && CodesOk(lens, firstcode, maxcode, firstsymbol, 15) && maxcode[16] == 0x10000
      && SymbolsOk(lens, size, value, |lens|)
      && FastOk(lens, fast, |lens|)
    }

    constructor ()
      ensures Shaped()
    {
      fast := seq(FAST_SIZE, i => 0);
      firstcode, maxcode, firstsymbol := seq(16, i => 0), seq(17, i => 0), seq(16, i => 0);
      size, value := seq(SYMBOLS, i => 0), seq(SYMBOLS, i => 0);
    }

    /** The loops over lengths: first codes, or rejection. */
    method BuildCodes(lens: seq<nat>, sizes: seq<nat>) returns (ok: bool, nextCode: seq<nat>)
      requires Shaped() && ValidLengths(lens) && |sizes| == 17
      requires forall s :: 1 <= s <= 15 ==> sizes[s] == Count(lens, s, |lens|)
      modifies this`firstcode, this`maxcode, this`firstsymbol
      ensures Shaped() && (ok <==> Accepted(lens))
      ensures ok ==> CodesOk(lens, firstcode, maxcode, firstsymbol, 15)
      ensures |nextCode| == 16 && (ok ==> forall s :: 1 <= s <= 15 ==> nextCode[s] == First(lens, s))
    {
      hide Count, First, Shorter, Pow2, Accepted;
      ok, nextCode := false, seq(16, i => 0);
      for i := 1 to 16
        invariant forall s :: 1 <= s < i ==> sizes[s] <= Pow2(s)
      {
        if sizes[i] > Pow2(i) {
          TooMany(lens, i);
          return;
        }
      }
      var code, k := 0, 0;
      CodesStart(lens);
      for i := 1 to 16
        invariant Shaped() && |nextCode| == 16 && !ok
        invariant i <= 15 ==> code == First(lens, i) && k == Shorter(lens, i, |lens|)
        invariant CodesOk(lens, firstcode, maxcode, firstsymbol, i - 1)
        invariant forall s :: 1 <= s < i ==> nextCode[s] == First(lens, s) && FitsAt(lens, s)
      {
        ghost var fc, mc, fs := firstcode, maxcode, firstsymbol;
        nextCode := nextCode[i := code];
        firstcode := firstcode[i := code];
        firstsymbol := firstsymbol[i := k];
        code := code + sizes[i];
        assert code == End(lens, i);
        if sizes[i] != 0 && code - 1 >= Pow2(i) {
          NotFitting(lens, i);
          return;
        }
        maxcode := maxcode[i := code * Pow2(16 - i)];
        CodesExtend(lens, fc, mc, fs, firstcode, maxcode, firstsymbol, i);
        CodesNext(lens, i);
        code := 2 * code;
        k := k + sizes[i];
      }
      AllFit(lens);
      ok := true;
    }

    /** The inner loop: the entry goes to every place congruent to the first one. */
    method Replicate(start: nat, p: nat, fastv: nat)
      requires Shaped() && start < p
      modifies this`fast
      ensures Shaped()
      ensures forall x :: 0 <= x < FAST_SIZE ==> fast[x] == if x % p == start then fastv else old(fast)[x]
    {
      ghost var was := fast;
      var j := start;
      while j < FAST_SIZE
        invariant Shaped() && j >= start && j % p == start
        invariant forall x :: 0 <= x < FAST_SIZE ==> fast[x] == if x < j && x % p == start then fastv else was[x]
      {
        fast := fast[j := fastv];
        NextCongruent(j, p, start);
        j := j + p;
      }
    }

    /** A short code is replicated over the fast table, from its reversal on. */
    method FillFast(s: nat, code: nat, fastv: nat)
      requires Shaped() && 1 <= s <= FAST_BITS && code < Pow2(s)
      modifies this`fast
      ensures Shaped()
      ensures forall x :: 0 <= x < FAST_SIZE ==> fast[x] == if Rev(x, s) == code then fastv else old(fast)[x]
    {
      hide Rev, Pow2, BitReverse;
      var j := BitReverse(code, s);
      BitReverseIs(code, s);
      RevBound(code, s);
      Replicate(j, Pow2(s), fastv);
      forall x | 0 <= x < FAST_SIZE ensures fast[x] == if Rev(x, s) == code then fastv else old(fast)[x] {
        StartsWith(x, code, s);
      }
    }

    /** The loop over symbols. */
    method BuildSymbols(lens: seq<nat>, firstCodes: seq<nat>)
      requires Shaped() && ValidLengths(lens) && Accepted(lens) && CodesOk(lens, firstcode, maxcode, firstsymbol, 15)
      requires |firstCodes| == 16 && forall s :: 1 <= s <= 15 ==> firstCodes[s] == First(lens, s)
      requires forall j :: 0 <= j < FAST_SIZE ==> fast[j] == 0
      modifies this`fast, this`size, this`value
      ensures Shaped() && SymbolsOk(lens, size, value, |lens|) && FastOk(lens, fast, |lens|)
    {
      hide Count, First, Shorter, Pow2, Accepted, Matches, FastOk, SymbolsOk, CodesOk, Place;
      var nextCode := firstCodes;
      NoSymbols(lens, size, value, fast);
      for i := 0 to |lens|
        invariant Shaped() && |nextCode| == 16
        invariant forall s :: 1 <= s <= 15 ==> nextCode[s] == First(lens, s) + Count(lens, s, i)
        invariant SymbolsOk(lens, size, value, i) && FastOk(lens, fast, i)
      {
        var s := lens[i];
        CountStep(lens, i);
        if s != 0 {
          SymbolFacts(lens, i);
          CodesAt(lens, firstcode, maxcode, firstsymbol, s);
          var c := nextCode[s] - firstcode[s] + firstsymbol[s];
          SymbolAdd(lens, size, value, i);
          size := size[c := s];
          value := value[c := i];
          ghost var was := fast;
          if s <= FAST_BITS {
            FillFast(s, nextCode[s], s * 512 + i);
            FastAdd(lens, was, fast, i);
          } else {
            FastSkip(lens, fast, i);
          }
          nextCode := nextCode[s := nextCode[s] + 1];
        } else {
          SymbolSkip(lens, size, value, i);
          FastSkip(lens, fast, i);
        }
      }
    }

    /** `stbi__zbuild_huffman`: accepts exactly the lengths that satisfy Kraft's inequality. */
    method Build(lens: seq<nat>) returns (ok: bool)
      requires Shaped() && ValidLengths(lens)
      modifies this
      ensures Shaped() && (ok <==> Kraft(lens, |lens|) <= Pow2(15))
      ensures ok ==> Describes(lens)
    {
      hide Kraft, Pow2, Accepted, CodesOk, SymbolsOk, FastOk;
      fast := seq(FAST_SIZE, i => 0);
      var sizes := CountSizes(lens);
      var nextCode;
      ok, nextCode := BuildCodes(lens, sizes);
      AcceptedIffKraft(lens);
      if !ok {
        return;
      }
      ghost var mc := maxcode;
      maxcode := maxcode[16 := 0x10000];
      CodesKept(lens, firstcode, mc, maxcode, firstsymbol);
      BuildSymbols(lens, nextCode);
    }

    /** `stbi__zhuffman_decode_slowpath`: the symbol and its length, or -1. */
    method DecodeSlow(codeBuffer: nat, ghost lens: seq<nat>) returns (symbol: int, s: nat)
      requires Shaped() && Describes(lens)
      requires forall i :: 0 <= i < |lens| && lens[i] <= FAST_BITS ==> !Matches(lens, codeBuffer, i)
      ensures symbol >= 0 ==> Matches(lens, codeBuffer, symbol) && s == lens[symbol]
      ensures symbol < 0 ==> forall i :: 0 <= i < |lens| ==> !Matches(lens, codeBuffer, i)
    {
      hide Rev, BitReverse, Count, First, Shorter, Pow2, Matches, SymbolsOk, FastOk, CodesOk, Place;
      var k := BitReverse(codeBuffer, 16);
      BitReverseIs(codeBuffer, 16);
      RevBound(codeBuffer, 16);
      Pow2Sixteen();
      s := FAST_BITS + 1;
      SlowStart(lens, codeBuffer);
      while k >= maxcode[s]
        invariant FAST_BITS + 1 <= s <= 16 && Rev(codeBuffer, s - 1) >= End(lens, s - 1)
        decreases 16 - s
      {
        CodesAt(lens, firstcode, maxcode, firstsymbol, s);
        MaxCodeMeans(lens, codeBuffer, s);
        s := s + 1;
      }
      if s >= 16 {
        NoMatch(lens, codeBuffer);
        return -1, s;
      }
      CodesAt(lens, firstcode, maxcode, firstsymbol, s);
      MaxCodeMeans(lens, codeBuffer, s);
      ghost var i := SlowSymbol(lens, codeBuffer, s);
      SymbolAt(lens, size, value, i);
      var b := k / Pow2(16 - s) - firstcode[s] + firstsymbol[s];
      if b >= SYMBOLS {
        return -1, s;
      }
      if size[b] != s {
        return -1, s;
      }
      return value[b], s;
    }

    /** `stbi__zhuffman_decode` on the bits in the buffer: the canonical code, for every window. */
    method Decode(codeBuffer: nat, ghost lens: seq<nat>) returns (symbol: int, s: nat)
      requires Shaped() && Describes(lens)
      ensures symbol >= 0 ==> Matches(lens, codeBuffer, symbol) && s == lens[symbol]
      ensures symbol < 0 ==> forall i :: 0 <= i < |lens| ==> !Matches(lens, codeBuffer, i)
    {
      hide Rev, SymbolsOk, CodesOk, Matches;
      var b := fast[codeBuffer % FAST_SIZE];
      assert FastEntryOk(lens, b, codeBuffer % FAST_SIZE, |lens|);
      FastWindow(lens, codeBuffer);
      if b != 0 {
        s := b / 512;
        symbol := b % 512;
        return;
      }
      symbol, s := DecodeSlow(codeBuffer, lens);
    }
  }

  /** A short code matches the window exactly when it matches the index into the fast table. */
  lemma {:induction false} FastWindow(lens: seq<nat>, w: nat)
    ensures forall i :: 0 <= i < |lens| && lens[i] <= FAST_BITS ==>
      (Matches(lens, w % FAST_SIZE, i) <==> Matches(lens, w, i))
  {
    forall i | 0 <= i < |lens| && lens[i] <= FAST_BITS ensures Matches(lens, w % FAST_SIZE, i) <==> Matches(lens, w, i) {
      assert Pow2(FAST_BITS) == FAST_SIZE;
      RevLow(w, FAST_BITS, lens[i]);
    }
  }

  /** Without a short code, the window lies behind all short codes. */
  lemma {:induction false} SlowStart(lens: seq<nat>, w: nat)
    requires forall i :: 0 <= i < |lens| && lens[i] <= FAST_BITS ==> !Matches(lens, w, i)
    ensures Rev(w, FAST_BITS) >= End(lens, FAST_BITS)
  {
    if Rev(w, FAST_BITS) < End(lens, FAST_BITS) {
      var i := Covered(lens, w, FAST_BITS);
      assert false;
    }
  }

  /** The preshifted comparison with the 16-bit window. */
  lemma {:induction false} MaxCodeMeans(lens: seq<nat>, w: nat, s: nat)
    requires 1 <= s <= 15
    ensures Rev(w, 16) < End(lens, s) * Pow2(16 - s) <==> Rev(w, s) < End(lens, s)
    ensures Rev(w, 16) / Pow2(16 - s) == Rev(w, s)
  {
    hide Rev, End, Pow2;
    var a, p, x, e := Rev(w, s), Pow2(16 - s), Rev(w, 16), End(lens, s);
    RevPrefix(w, s, 16 - s);
    QuotientCompare(a, p, x, e);
  }

  lemma {:induction false} QuotientCompare(a: nat, p: nat, x: nat, e: nat)
    requires p > 0 && a * p <= x < (a + 1) * p
    ensures x / p == a && (x < e * p <==> a < e)
  {
    assert (a + 1) * p == a * p + p;
    DivUnique(x, p, a, x - a * p);
    if a < e {
      MulMono(p, a + 1, e);
    } else {
      MulMono(p, e, a);
    }
  }

  /** Behind all codes of 15 bits, nothing matches. */
  lemma {:induction false} NoMatch(lens: seq<nat>, w: nat)
    requires ValidLengths(lens) && Rev(w, 15) >= End(lens, 15)
    ensures forall i :: 0 <= i < |lens| ==> !Matches(lens, w, i)
  {
    forall i | 0 <= i < |lens| ensures !Matches(lens, w, i) {
      if Matches(lens, w, i) {
        MatchBelowEnd(lens, w, i, 15);
      }
    }
  }

  /** The first length whose end lies behind the window holds the symbol. */
  lemma {:induction false} SlowSymbol(lens: seq<nat>, w: nat, s: nat) returns (i: nat)
    requires s >= 2 && Rev(w, s - 1) >= End(lens, s - 1) && Rev(w, s) < End(lens, s)
    ensures Matches(lens, w, i) && lens[i] == s
    ensures Rev(w, s) >= First(lens, s) && Place(lens, i) == Rev(w, s) - First(lens, s) + Shorter(lens, s, |lens|)
  {
    assert Rev(w, s) >= 2 * Rev(w, s - 1);
    i := RankExists(lens, s, |lens|, Rev(w, s) - First(lens, s));
  }

  lemma {:induction false} SymbolAt(lens: seq<nat>, size: seq<nat>, value: seq<nat>, i: nat)
    requires SymbolsOk(lens, size, value, |lens|) && i < |lens| && lens[i] >= 1
    ensures Place(lens, i) < SYMBOLS && |size| == |value| == SYMBOLS
    ensures size[Place(lens, i)] == lens[i] && value[Place(lens, i)] == i
  {
    assert SymbolOk(lens, size, value, i);
  }

  method CountSizes(lens: seq<nat>) returns (sizes: seq<nat>)
    requires ValidLengths(lens)
    ensures |sizes| == 17 && forall s :: 1 <= s <= 15 ==> sizes[s] == Count(lens, s, |lens|)
  {
    sizes := seq(17, i => 0);
    for i := 0 to |lens|
      invariant |sizes| == 17 && forall s :: 1 <= s <= 15 ==> sizes[s] == Count(lens, s, i)
    {
      sizes := sizes[lens[i] := sizes[lens[i]] + 1];
    }
    sizes := sizes[0 := 0];
  }

  predicate FitsAt(lens: seq<nat>, s: nat)
    requires s >= 1
  {
    Count(lens, s, |lens|) > 0 ==> End(lens, s) <= Pow2(s)
  }

  lemma {:induction false} TooMany(lens: seq<nat>, s: nat)
    requires 1 <= s <= 15 && Count(lens, s, |lens|) > Pow2(s)
    ensures !Accepted(lens)
  {
    assert End(lens, s) > Pow2(s);
  }

  lemma {:induction false} NotFitting(lens: seq<nat>, s: nat)
    requires 1 <= s <= 15 && Count(lens, s, |lens|) > 0 && End(lens, s) > Pow2(s)
    ensures !Accepted(lens)
  {
  }

  lemma {:induction false} AllFit(lens: seq<nat>)
    requires forall s :: 1 <= s <= 15 ==> FitsAt(lens, s)
    ensures Accepted(lens)
  {
    forall s | 1 <= s <= 15 && Count(lens, s, |lens|) > 0 ensures End(lens, s) <= Pow2(s) {
      assert FitsAt(lens, s);
    }
  }

  lemma {:induction false} CodesStart(lens: seq<nat>)
    ensures First(lens, 1) == 0 && Shorter(lens, 1, |lens|) == 0
  {
  }

  lemma {:induction false} CodesExtend(lens: seq<nat>, fc: seq<nat>, mc: seq<nat>, fs: seq<nat>,
                                       fc': seq<nat>, mc': seq<nat>, fs': seq<nat>, n: nat)
    requires 1 <= n <= 15 && CodesOk(lens, fc, mc, fs, n - 1) && |fc'| == 16 && |mc'| == 17 && |fs'| == 16
    requires forall s :: 1 <= s < n ==> fc'[s] == fc[s] && mc'[s] == mc[s] && fs'[s] == fs[s]
    requires CodeOk(lens, fc', mc', fs', n)
    ensures CodesOk(lens, fc', mc', fs', n)
  {
    forall s | 1 <= s <= n ensures CodeOk(lens, fc', mc', fs', s) {
      assert s < n ==> CodeOk(lens, fc, mc, fs, s);
    }
  }

  lemma {:induction false} CodesNext(lens: seq<nat>, s: nat)
    requires s >= 1
    ensures First(lens, s + 1) == 2 * End(lens, s)
    ensures Shorter(lens, s + 1, |lens|) == Shorter(lens, s, |lens|) + Count(lens, s, |lens|)
  {
  }

  lemma {:induction false} CodesKept(lens: seq<nat>, fc: seq<nat>, mc: seq<nat>, mc': seq<nat>, fs: seq<nat>)
    requires CodesOk(lens, fc, mc, fs, 15) && |mc'| == 17 && forall s :: 1 <= s <= 15 ==> mc'[s] == mc[s]
    ensures CodesOk(lens, fc, mc', fs, 15)
  {
    forall s | 1 <= s <= 15 ensures CodeOk(lens, fc, mc', fs, s) {
      assert CodeOk(lens, fc, mc, fs, s);
    }
  }

  lemma {:induction false} CodesAt(lens: seq<nat>, fc: seq<nat>, mc: seq<nat>, fs: seq<nat>, s: nat)
    requires CodesOk(lens, fc, mc, fs, 15) && 1 <= s <= 15
    ensures CodeOk(lens, fc, mc, fs, s)
  {
  }

  lemma {:induction false} NextCongruent(j: nat, p: nat, start: nat)
    requires p > 0 && j % p == start
    ensures (j + p) % p == start && forall x: nat :: j < x < j + p ==> x % p != start
  {
    DivUnique(j + p, p, j / p + 1, start);
    forall x: nat | j < x < j + p ensures x % p != start {
      NotCongruent(j, x, p);
    }
  }

  lemma {:induction false} NotCongruent(j: nat, x: nat, p: nat)
    requires p > 0 && j < x < j + p
    ensures x % p != j % p
  {
    var a, b := x / p, j / p;
    assert x == p * a + x % p && j == p * b + j % p;
    if a <= b {
      MulMono(p, a, b);
    } else {
      MulMono(p, b + 1, a);
      assert p * (b + 1) == p * b + p;
    }
  }

  lemma {:induction false} CountStep(lens: seq<nat>, i: nat)
    requires i < |lens|
    ensures forall s: nat :: Count(lens, s, i + 1) == Count(lens, s, i) + if lens[i] == s then 1 else 0
  {
  }

  /** The code of a symbol fits its length; its place is in the tables. */
  lemma {:induction false} SymbolFacts(lens: seq<nat>, i: nat)
    requires ValidLengths(lens) && Accepted(lens) && i < |lens| && lens[i] >= 1
    ensures Code(lens, i) == First(lens, lens[i]) + Count(lens, lens[i], i) < Pow2(lens[i])
    ensures Place(lens, i) == Shorter(lens, lens[i], |lens|) + Count(lens, lens[i], i) < |lens|
  {
    PlaceBound(lens, i);
    CodeBelowEnd(lens, i);
    EndFits(lens, lens[i]);
  }

  lemma {:induction false} NoSymbols(lens: seq<nat>, size: seq<nat>, value: seq<nat>, fast: seq<nat>)
    requires ValidLengths(lens) && |size| == SYMBOLS && |value| == SYMBOLS && |fast| == FAST_SIZE
    requires forall j :: 0 <= j < FAST_SIZE ==> fast[j] == 0
    ensures SymbolsOk(lens, size, value, 0) && FastOk(lens, fast, 0)
    ensures forall s: nat :: Count(lens, s, 0) == 0
  {
  }

  lemma {:induction false} SymbolAdd(lens: seq<nat>, size: seq<nat>, value: seq<nat>, i: nat)
    requires i < |lens| && lens[i] >= 1 && SymbolsOk(lens, size, value, i) && Place(lens, i) < SYMBOLS
    ensures SymbolsOk(lens, size[Place(lens, i) := lens[i]], value[Place(lens, i) := i], i + 1)
  {
    hide Place;
    var size', value' := size[Place(lens, i) := lens[i]], value[Place(lens, i) := i];
    forall k | 0 <= k < i + 1 && lens[k] >= 1 ensures SymbolOk(lens, size', value', k) {
      if k < i {
        assert SymbolOk(lens, size, value, k);
        PlaceInjective(lens, k, i);
      }
    }
  }

  lemma {:induction false} SymbolSkip(lens: seq<nat>, size: seq<nat>, value: seq<nat>, i: nat)
    requires i < |lens| && lens[i] == 0 && SymbolsOk(lens, size, value, i)
    ensures SymbolsOk(lens, size, value, i + 1)
  {
  }

  lemma {:induction false} FastAdd(lens: seq<nat>, was: seq<nat>, now: seq<nat>, i: nat)
    requires i < |lens| <= SYMBOLS && 1 <= lens[i] <= FAST_BITS && FastOk(lens, was, i) && |now| == FAST_SIZE
    requires forall j :: 0 <= j < FAST_SIZE ==> now[j] == if Rev(j, lens[i]) == Code(lens, i) then lens[i] * 512 + i else was[j]
    ensures FastOk(lens, now, i + 1)
  {
    hide Rev, Code;
    var b := lens[i] * 512 + i;
    assert b % 512 == i && b / 512 == lens[i] && b != 0;
    forall j | 0 <= j < FAST_SIZE ensures FastEntryOk(lens, now[j], j, i + 1) {
      assert FastEntryOk(lens, was[j], j, i);
      assert Matches(lens, j, i) <==> Rev(j, lens[i]) == Code(lens, i);
    }
  }

  lemma {:induction false} FastSkip(lens: seq<nat>, fast: seq<nat>, i: nat)
    requires i < |lens| && (lens[i] == 0 || lens[i] > FAST_BITS) && FastOk(lens, fast, i)
    ensures FastOk(lens, fast, i + 1)
  {
    forall j | 0 <= j < FAST_SIZE ensures FastEntryOk(lens, fast[j], j, i + 1) {
      assert FastEntryOk(lens, fast[j], j, i);
    }
  }
}
