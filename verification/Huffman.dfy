/**
  DEFLATE Huffman decoding as in stb_image: a 9-bit fast table and a canonical slow path, against
  the code of section 3.2.2 of RFC 1951.
*/
module Huffman {
  import opened Arith

  const FAST_BITS: nat := 9
  const FAST_SIZE: nat := 512
  const SYMBOLS: nat := 288

  // ----- bits

  /** The first `s` bits of a window, lowest bit first, read as a number, highest digit first. */
  ghost function Rev(w: nat, s: nat): (r: nat)
    decreases s
  {
    if s == 0 then 0 else 2 * Rev(w, s - 1) + w / Pow2(s - 1) % 2
  }

  lemma {:induction false} RevBound(w: nat, s: nat)
    ensures Rev(w, s) < Pow2(s)
  {
    if s > 0 {
      RevBound(w, s - 1);
    }
  }

  /** Fewer bits: the quotient, and what a longer code can add. */
  lemma {:induction false} RevPrefix(w: nat, s: nat, d: nat)
    ensures Rev(w, s) * Pow2(d) <= Rev(w, s + d) < (Rev(w, s) + 1) * Pow2(d)
    decreases d
  {
    if d > 0 {
      RevPrefix(w, s, d - 1);
      DoubleBounds(Rev(w, s), Pow2(d - 1), Rev(w, s + d - 1), w / Pow2(s + d - 1) % 2);
    }
  }

  lemma {:induction false} DoubleBounds(a: nat, p: nat, x: nat, b: nat)
    requires a * p <= x < (a + 1) * p && b < 2
    ensures a * (2 * p) <= 2 * x + b < (a + 1) * (2 * p)
  {
    assert (a + 1) * p == a * p + p && a * (2 * p) == 2 * (a * p) && (a + 1) * (2 * p) == 2 * (a * p) + 2 * p;
  }

  lemma {:induction false} Pow2Sixteen()
    ensures Pow2(16) == 0x10000
  {
    assert Pow2(4) == 16;
    Pow2Add(4, 4);
    Pow2Add(8, 8);
  }

  /** The same number, built from the first bit on. */
  lemma {:induction false} RevFirst(w: nat, s: nat)
    requires s >= 1
    ensures Rev(w, s) == w % 2 * Pow2(s - 1) + Rev(w / 2, s - 1)
  {
    if s == 1 {
      assert Rev(w, 1) == w % 2;
    } else {
      var b, p, top := w % 2, Pow2(s - 2), w / Pow2(s - 1) % 2;
      RevFirst(w, s - 1);
      DivDiv(w, 2, p);
      assert Pow2(s - 1) == 2 * p && Rev(w / 2, s - 1) == 2 * Rev(w / 2, s - 2) + top;
      DoubleSum(b, p, Rev(w / 2, s - 2), top);
    }
  }

  lemma {:induction false} DoubleSum(b: nat, p: nat, r: nat, top: nat)
    ensures 2 * (b * p + r) + top == b * (2 * p) + (2 * r + top)
  {
  }

  /** Reversing twice gives the code back. */
  lemma {:induction false} RevTwice(c: nat, s: nat)
    requires c < Pow2(s)
    ensures Rev(Rev(c, s), s) == c
  {
    if s > 0 {
      var p, r := Pow2(s - 1), Rev(c, s);
      var low, b := c % p, c / p;
      HighBit(c, p);
      RevTwice(low, s - 1);
      RevLow(c, s - 1, s - 1);
      RevFirst(r, s);
      assert r / 2 == Rev(c, s - 1) && r % 2 == b;
    }
  }

  lemma {:induction false} HighBit(c: nat, p: nat)
    requires p > 0 && c < 2 * p
    ensures c / p < 2 && c / p % 2 == c / p && c == c / p * p + c % p
  {
    if c >= p {
      DivUnique(c, p, 1, c - p);
    } else {
      DivUnique(c, p, 0, c);
    }
  }

  /** Windows that start with a code are those congruent to the reversed code. */
  lemma {:induction false} StartsWith(w: nat, c: nat, s: nat)
    requires c < Pow2(s)
    ensures Rev(w, s) == c <==> w % Pow2(s) == Rev(c, s)
  {
    var low := w % Pow2(s);
    RevLow(w, s, s);
    RevTwice(c, s);
    RevTwice(low, s);
  }

  /** Only the low bits matter. */
  lemma {:induction false} RevLow(w: nat, m: nat, s: nat)
    requires s <= m
    ensures Rev(w % Pow2(m), s) == Rev(w, s)
    decreases s
  {
    if s > 0 {
      RevLow(w, m, s - 1);
      LowBit(w, m, s - 1);
    }
  }

  lemma {:induction false} LowBit(w: nat, m: nat, k: nat)
    requires k < m
    ensures w % Pow2(m) / Pow2(k) % 2 == w / Pow2(k) % 2
  {
    var p, t := Pow2(k), Pow2(m - k - 1);
    Pow2Add(k, m - k);
    assert Pow2(m - k) == 2 * t;
    LowBitOf(w, p, t, Pow2(m));
  }

  lemma {:induction false} LowBitOf(w: nat, p: nat, t: nat, size: nat)
    requires p > 0 && t > 0 && size == p * (2 * t) && size > 0
    ensures w % size / p % 2 == w / p % 2
  {
    var q, r := w / size, w % size;
    LowBitArith(w, p, 2 * t, q, r);
    TwiceProduct(t, q);
    EvenShift(t * q, r / p);
  }

  lemma {:induction false} LowBitArith(w: nat, p: nat, t: nat, q: nat, r: nat)
    requires p > 0 && w == (p * t) * q + r
    ensures w / p == t * q + r / p
  {
    var d, e := r / p, r % p;
    MulAssocDistrib(p, t, q, d);
    DivUnique(w, p, t * q + d, e);
  }

  lemma {:induction false} TwiceProduct(t: nat, q: nat)
    ensures (2 * t) * q == 2 * (t * q)
  {
  }

  lemma {:induction false} EvenShift(a: nat, b: nat)
    ensures (2 * a + b) % 2 == b % 2
  {
  }

  // ----- canonical codes

  /** How many of the first `n` symbols have length `s`. */
  function Count(lens: seq<nat>, s: nat, n: nat): (c: nat)
    requires n <= |lens|
  {
    if n == 0 then 0 else Count(lens, s, n - 1) + if lens[n - 1] == s then 1 else 0
  }

  /** The first code of length `s`: twice the code behind the last of length `s - 1`. */
  function First(lens: seq<nat>, s: nat): (c: nat)
    requires s >= 1
    decreases s, 0
  {
    if s == 1 then 0 else 2 * End(lens, s - 1)
  }

  function End(lens: seq<nat>, s: nat): (c: nat)
    requires s >= 1
    decreases s, 1
  {
    First(lens, s) + Count(lens, s, |lens|)
  }

  /** How many of the first `n` symbols have codes shorter than `s`. */
  function Shorter(lens: seq<nat>, s: nat, n: nat): (c: nat)
    requires s >= 1 && n <= |lens|
  {
    if s == 1 then 0 else Shorter(lens, s - 1, n) + Count(lens, s - 1, n)
  }

  lemma {:induction false} ShorterStep(lens: seq<nat>, s: nat, n: nat)
    requires s >= 1 && n < |lens|
    ensures Shorter(lens, s, n + 1) == Shorter(lens, s, n) + if 1 <= lens[n] < s then 1 else 0
  {
    if s > 1 {
      ShorterStep(lens, s - 1, n);
    }
  }

  lemma {:induction false} ShorterBound(lens: seq<nat>, s: nat, n: nat)
    requires s >= 1 && n <= |lens|
    ensures Shorter(lens, s, n) <= n
  {
    if n > 0 {
      ShorterBound(lens, s, n - 1);
      ShorterStep(lens, s, n - 1);
    } else {
      ShorterNone(lens, s);
    }
  }

  lemma {:induction false} ShorterNone(lens: seq<nat>, s: nat)
    requires s >= 1
    ensures Shorter(lens, s, 0) == 0
  {
    if s > 1 {
      ShorterNone(lens, s - 1);
    }
  }

  lemma {:induction false} ShorterMono(lens: seq<nat>, s: nat, t: nat)
    requires 1 <= s < t
    ensures Shorter(lens, s, |lens|) + Count(lens, s, |lens|) <= Shorter(lens, t, |lens|)
    decreases t
  {
    if s < t - 1 {
      ShorterMono(lens, s, t - 1);
    }
  }

  /** The place of symbol `i` when symbols are sorted by length and then by number. */
  function Place(lens: seq<nat>, i: nat): (c: nat)
    requires i < |lens| && lens[i] >= 1
  {
    Shorter(lens, lens[i], |lens|) + Count(lens, lens[i], i)
  }

  lemma {:induction false} PlaceBound(lens: seq<nat>, i: nat)
    requires i < |lens| && lens[i] >= 1
    ensures Place(lens, i) < |lens|
  {
    CountMono(lens, lens[i], i, |lens|);
    ShorterBound(lens, lens[i] + 1, |lens|);
  }

  lemma {:induction false} PlaceInjective(lens: seq<nat>, i: nat, j: nat)
    requires i < j < |lens| && lens[i] >= 1 && lens[j] >= 1
    ensures Place(lens, i) != Place(lens, j)
  {
    CountMono(lens, lens[i], i, |lens|);
    CountMono(lens, lens[j], j, |lens|);
    if lens[i] == lens[j] {
      CountMono(lens, lens[i], i, j);
    } else if lens[i] < lens[j] {
      ShorterMono(lens, lens[i], lens[j]);
    } else {
      ShorterMono(lens, lens[j], lens[i]);
    }
  }

  /** The code of symbol `i`: codes of one length are given out in the order of the symbols. */
  function Code(lens: seq<nat>, i: nat): (c: nat)
    requires i < |lens| && lens[i] >= 1
  {
    First(lens, lens[i]) + Count(lens, lens[i], i)
  }

  /** The window starts with the code of symbol `i`. */
  ghost predicate Matches(lens: seq<nat>, w: nat, i: nat) {
    i < |lens| && lens[i] >= 1 && Rev(w, lens[i]) == Code(lens, i)
  }

  predicate ValidLengths(lens: seq<nat>) {
    |lens| <= SYMBOLS && forall i :: 0 <= i < |lens| ==> lens[i] <= 15
  }

  /** Codes of every length fit in that many bits. */
  ghost predicate Accepted(lens: seq<nat>) {
    forall s :: 1 <= s <= 15 && Count(lens, s, |lens|) > 0 ==> End(lens, s) <= Pow2(s)
  }

  lemma {:induction false} CountMono(lens: seq<nat>, s: nat, m: nat, n: nat)
    requires m <= n <= |lens|
    ensures Count(lens, s, m) <= Count(lens, s, n)
    ensures m < n && lens[m] == s ==> Count(lens, s, m) < Count(lens, s, n)
    decreases n
  {
    if m < n {
      CountMono(lens, s, m, n - 1);
    }
  }

  /** Every rank below the count belongs to a symbol. */
  lemma {:induction false} RankExists(lens: seq<nat>, s: nat, n: nat, r: nat) returns (i: nat)
    requires n <= |lens| && r < Count(lens, s, n)
    ensures i < n && lens[i] == s && Count(lens, s, i) == r
  {
    if lens[n - 1] == s && r == Count(lens, s, n - 1) {
      i := n - 1;
    } else {
      i := RankExists(lens, s, n - 1, r);
    }
  }

  lemma {:induction false} CodeBelowEnd(lens: seq<nat>, i: nat)
    requires i < |lens| && lens[i] >= 1
    ensures First(lens, lens[i]) <= Code(lens, i) < End(lens, lens[i])
  {
    CountMono(lens, lens[i], i, |lens|);
  }

  /** Longer codes start behind all shorter ones. */
  lemma {:induction false} LaterFirst(lens: seq<nat>, s: nat, d: nat)
    requires s >= 1 && d >= 1
    ensures First(lens, s + d) >= End(lens, s) * Pow2(d)
    decreases d
  {
    if d == 1 {
      assert Pow2(1) == 2;
    } else {
      LaterFirst(lens, s, d - 1);
      var e, p := End(lens, s), Pow2(d - 1);
      assert e * (2 * p) == 2 * (e * p);
    }
  }

  /** The code is prefix-free: at most one symbol matches a window. */
  lemma {:induction false} MatchUnique(lens: seq<nat>, w: nat, i: nat, j: nat)
    requires Matches(lens, w, i) && Matches(lens, w, j)
    ensures i == j
  {
    if lens[i] < lens[j] {
      NoShorterMatch(lens, w, i, j);
    } else if lens[j] < lens[i] {
      NoShorterMatch(lens, w, j, i);
    } else if i < j {
      CountMono(lens, lens[i], i, j);
    } else if j < i {
      CountMono(lens, lens[i], j, i);
    }
  }

  lemma {:induction false} NoShorterMatch(lens: seq<nat>, w: nat, i: nat, j: nat)
    requires Matches(lens, w, i) && j < |lens| && 1 <= lens[i] < lens[j]
    ensures !Matches(lens, w, j)
  {
    CodeBelowEnd(lens, i);
    CodeBelowEnd(lens, j);
    BelowLater(lens, w, lens[i], lens[j] - lens[i]);
  }

  /** A window below the end of one length is below the first code of any longer length. */
  lemma {:induction false} BelowLater(lens: seq<nat>, w: nat, s: nat, d: nat)
    requires s >= 1 && d >= 1 && Rev(w, s) < End(lens, s)
    ensures Rev(w, s + d) < First(lens, s + d)
  {
    RevPrefix(w, s, d);
    LaterFirst(lens, s, d);
    ScaledBelow(Rev(w, s), End(lens, s), Pow2(d), Rev(w, s + d), First(lens, s + d));
  }

  lemma {:induction false} ScaledBelow(a: nat, e: nat, p: nat, x: nat, f: nat)
    requires a < e && x < (a + 1) * p && f >= e * p
    ensures x < f
  {
    MulMono(p, a + 1, e);
    assert p * (a + 1) == (a + 1) * p && p * e == e * p;
  }

  /** Below the end of length `s`, the window starts with a code of length at most `s`. */
  lemma {:induction false} Covered(lens: seq<nat>, w: nat, s: nat) returns (i: nat)
    requires s >= 1 && Rev(w, s) < End(lens, s)
    ensures Matches(lens, w, i) && lens[i] <= s
    decreases s
  {
    if Rev(w, s) >= First(lens, s) {
      i := RankExists(lens, s, |lens|, Rev(w, s) - First(lens, s));
    } else {
      i := Covered(lens, w, s - 1);
    }
  }

  lemma {:induction false} MatchBelowEnd(lens: seq<nat>, w: nat, i: nat, s: nat)
    requires Matches(lens, w, i) && lens[i] <= s
    ensures Rev(w, s) < End(lens, s)
  {
    CodeBelowEnd(lens, i);
    if lens[i] < s {
      BelowLater(lens, w, lens[i], s - lens[i]);
    }
  }

  // ----- acceptance is Kraft's inequality

  /** The share of 15-bit windows that the first `n` symbols take. */
  function Kraft(lens: seq<nat>, n: nat): (k: nat)
    requires n <= |lens| && ValidLengths(lens)
  {
    if n == 0 then 0 else Kraft(lens, n - 1) + if lens[n - 1] == 0 then 0 else Pow2(15 - lens[n - 1])
  }

  /** The same share, counted by length, for lengths up to `s`. */
  function KraftUpTo(lens: seq<nat>, s: nat, n: nat): (k: nat)
    requires n <= |lens| && s <= 15
  {
    if s == 0 then 0 else KraftUpTo(lens, s - 1, n) + Count(lens, s, n) * Pow2(15 - s)
  }

  lemma {:induction false} KraftStep(lens: seq<nat>, s: nat, n: nat)
    requires n < |lens| && s <= 15
    ensures KraftUpTo(lens, s, n + 1) == KraftUpTo(lens, s, n) + if 1 <= lens[n] <= s then Pow2(15 - lens[n]) else 0
  {
    if s > 0 {
      KraftStep(lens, s - 1, n);
      OneMoreProduct(Count(lens, s, n), Pow2(15 - s));
    }
  }

  lemma {:induction false} OneMoreProduct(c: nat, p: nat)
    ensures (c + 1) * p == c * p + p
  {
  }

  lemma {:induction false} KraftNone(lens: seq<nat>, s: nat)
    requires s <= 15
    ensures KraftUpTo(lens, s, 0) == 0
  {
    if s > 0 {
      KraftNone(lens, s - 1);
    }
  }

  lemma {:induction false} KraftByLength(lens: seq<nat>, n: nat)
    requires n <= |lens| && ValidLengths(lens)
    ensures Kraft(lens, n) == KraftUpTo(lens, 15, n)
  {
    if n > 0 {
      KraftByLength(lens, n - 1);
      KraftStep(lens, 15, n - 1);
    } else {
      KraftNone(lens, 15);
    }
  }

  lemma {:induction false} EndIsKraft(lens: seq<nat>, s: nat)
    requires 1 <= s <= 15
    ensures End(lens, s) * Pow2(15 - s) == KraftUpTo(lens, s, |lens|)
  {
    var c, p := Count(lens, s, |lens|), Pow2(15 - s);
    if s > 1 {
      EndIsKraft(lens, s - 1);
      var e := End(lens, s - 1);
      assert Pow2(16 - s) == 2 * p;
      SpreadSum(e, c, p);
    } else {
      assert KraftUpTo(lens, 0, |lens|) == 0;
      assert End(lens, 1) == c;
    }
  }

  lemma {:induction false} SpreadSum(e: nat, c: nat, p: nat)
    ensures (2 * e + c) * p == e * (2 * p) + c * p
  {
  }

  lemma {:induction false} KraftMono(lens: seq<nat>, s: nat, t: nat)
    requires s <= t <= 15
    ensures KraftUpTo(lens, s, |lens|) <= KraftUpTo(lens, t, |lens|)
    decreases t
  {
    hide Count, Pow2;
    if s < t {
      KraftMono(lens, s, t - 1);
      ProductNonNegative(Count(lens, t, |lens|), Pow2(15 - t));
    }
  }

  lemma {:induction false} ProductNonNegative(a: nat, b: nat)
    ensures a * b >= 0
  {
  }

  /** A code is accepted exactly when it does not claim more windows than there are. */
  lemma {:induction false} AcceptedIffKraft(lens: seq<nat>)
    requires ValidLengths(lens)
    ensures Accepted(lens) <==> Kraft(lens, |lens|) <= Pow2(15)
  {
    hide Kraft, KraftUpTo, End, Pow2, Count;
    KraftByLength(lens, |lens|);
    LastEndIsKraft(lens);
    if Kraft(lens, |lens|) <= Pow2(15) {
      forall s | 1 <= s <= 15 ensures End(lens, s) <= Pow2(s) {
        FitsByKraft(lens, s);
      }
    }
    if Accepted(lens) {
      EndFits(lens, 15);
    }
  }

  lemma {:induction false} LastEndIsKraft(lens: seq<nat>)
    ensures End(lens, 15) == KraftUpTo(lens, 15, |lens|)
  {
    hide KraftUpTo, End;
    EndIsKraft(lens, 15);
    assert Pow2(0) == 1;
  }

  lemma {:induction false} FitsByKraft(lens: seq<nat>, s: nat)
    requires 1 <= s <= 15 && KraftUpTo(lens, 15, |lens|) <= Pow2(15)
    ensures End(lens, s) <= Pow2(s)
  {
    hide KraftUpTo, End, Pow2;
    KraftMono(lens, s, 15);
    EndIsKraft(lens, s);
    Pow2Add(s, 15 - s);
    Cancel(End(lens, s), Pow2(s), Pow2(15 - s));
  }

  lemma {:induction false} Cancel(a: nat, b: nat, p: nat)
    requires p > 0 && a * p <= b * p
    ensures a <= b
  {
    assert (b + 1) * p == b * p + p;
    if a > b {
      MulMono(p, b + 1, a);
    }
  }

  lemma {:induction false} EndFits(lens: seq<nat>, s: nat)
    requires 1 <= s <= 15 && Accepted(lens)
    ensures End(lens, s) <= Pow2(s)
  {
    if Count(lens, s, |lens|) == 0 && s > 1 {
      EndFits(lens, s - 1);
    }
  }

  // ----- streams of codes

  /** The bits of a list of symbols, lowest bit first, followed by other bits. */
  ghost function Stream(lens: seq<nat>, symbols: seq<nat>, tail: nat): (w: nat)
    requires forall k :: 0 <= k < |symbols| ==> symbols[k] < |lens| && lens[symbols[k]] >= 1
  {
    if symbols == [] then tail
    else
      var i := symbols[0];
      Rev(Code(lens, i), lens[i]) + Pow2(lens[i]) * Stream(lens, symbols[1..], tail)
  }

  /** A stream starts with the code of its first symbol; shifting that out leaves the rest. */
  lemma {:induction false} StreamStarts(lens: seq<nat>, symbols: seq<nat>, tail: nat)
    requires ValidLengths(lens) && Accepted(lens) && symbols != []
    requires forall k :: 0 <= k < |symbols| ==> symbols[k] < |lens| && lens[symbols[k]] >= 1
    ensures Matches(lens, Stream(lens, symbols, tail), symbols[0])
    ensures Stream(lens, symbols, tail) / Pow2(lens[symbols[0]]) == Stream(lens, symbols[1..], tail)
  {
    hide Rev, Pow2, Accepted;
    var i := symbols[0];
    var s, c, rest := lens[i], Code(lens, i), Stream(lens, symbols[1..], tail);
    CodeBelowEnd(lens, i);
    EndFits(lens, s);
    RevBound(c, s);
    DivUnique(Stream(lens, symbols, tail), Pow2(s), rest, Rev(c, s));
    StartsWith(Stream(lens, symbols, tail), c, s);
  }
}
