/** `stbi__bit_reverse`: swaps by masks and a shift compute the reversal of the low bits of a number. */
module BitReversal {
  import opened Arith
  import opened Huffman

  /** `stbi__bitreverse16` */
  function BitReverse16(n: bv16): (r: bv16) {
    var a := ((n & 0xAAAA) >> 1) | ((n & 0x5555) << 1);
    var b := ((a & 0xCCCC) >> 2) | ((a & 0x3333) << 2);
    var c := ((b & 0xF0F0) >> 4) | ((b & 0x0F0F) << 4);
    ((c & 0xFF00) >> 8) | ((c & 0x00FF) << 8)
  }

  /** `stbi__bit_reverse`; the masks see only the low 16 bits of the argument. */
  function BitReverse(v: nat, bits: nat): (r: nat)
    requires bits <= 16
  {
    Value(Shifted(BitReverse16(Word(v)), 16 - bits))
  }

  function Word(v: nat): (n: bv16) {
    (v % 0x10000) as bv16
  }

  function Value(n: bv16): (v: nat) {
    n as nat
  }

  function Shifted(n: bv16, k: nat): (r: bv16)
    requires k <= 16
  {
    n >> k
  }

  /** Masks and shift give the first `bits` bits, first bit highest, for every argument and width. */
  lemma {:induction false} BitReverseIs(v: nat, bits: nat)
    requires bits <= 16
    ensures BitReverse(v, bits) == Rev(v, bits)
  {
    hide Rev, Pow2, BitReverse16, Value, Word, Shifted;
    var n := Word(v);
    WordValue(v);
    Pow2Sixteen();
    Reverses16(n, 0, 16);
    RevLow(v, 16, 16);
    ShiftValue(BitReverse16(n), 16 - bits);
    RevPrefix(v, bits, 16 - bits);
    Quotient(Rev(v, bits), Pow2(16 - bits), Rev(v, 16));
  }

  lemma {:induction false} Quotient(a: nat, p: nat, x: nat)
    requires p > 0 && a * p <= x < (a + 1) * p
    ensures x / p == a
  {
    assert (a + 1) * p == a * p + p;
    DivUnique(x, p, a, x - a * p);
  }

  // ----- one bit at a time

  function Low(n: bv16): (b: bv16) {
    n & 1
  }

  function Half(n: bv16): (h: bv16) {
    n >> 1
  }

  function Pushed(r: bv16, b: bv16): (p: bv16) {
    (r << 1) | b
  }

  /** `k` bits of `n`, lowest first, pushed behind `r`. */
  function Reversed(n: bv16, r: bv16, k: nat): (p: bv16)
    decreases k
  {
    if k == 0 then r else Reversed(Half(n), Pushed(r, Low(n)), k - 1)
  }

  lemma {:induction false} WordValue(v: nat)
    ensures Value(Word(v)) == v % 0x10000
  {
    hide Value;
    Pow2Sixteen();
    var n := WithValue(v % 0x10000, 16);
    BackAgain(n, v % 0x10000);
  }

  /** Every number below a power of two is the value of a bit vector. */
  lemma {:induction false} WithValue(v: nat, k: nat) returns (n: bv16)
    requires k <= 16 && v < Pow2(k)
    ensures Value(n) == v
    decreases k
  {
    hide Value, Pushed;
    n := 0;
    ZeroValue(n);
    if k > 0 {
      n := WithValue(v / 2, k - 1);
      RoomFor(v / 2, k - 1);
      Small(n);
      n := PushNumber(n, v % 2);
    }
  }

  lemma {:induction false} RoomFor(v: nat, k: nat)
    requires k <= 15 && v < Pow2(k)
    ensures v < 0x8000
  {
    Pow2Mono(k, 15);
    Pow2Sixteen();
  }

  lemma {:induction false} PushNumber(r: bv16, b: nat) returns (n: bv16)
    requires r < 0x8000 && b <= 1
    ensures Value(n) == 2 * Value(r) + b
  {
    if b == 0 {
      PushZero(r);
      n := r << 1;
    } else {
      PushOne(r);
      n := (r << 1) | 1;
    }
  }

  lemma {:induction false} BackAgain(n: bv16, v: nat)
    requires Value(n) == v
    ensures v < 0x10000 && v as bv16 == n
  {
  }

  lemma {:induction false} ZeroValue(zero: bv16)
    requires zero == 0
    ensures Value(zero) == 0
  {
  }

  lemma {:induction false} PushZero(r: bv16)
    requires r < 0x8000
    ensures Value(r << 1) == 2 * Value(r)
  {
  }

  lemma {:induction false} PushOne(r: bv16)
    requires r < 0x8000
    ensures Value((r << 1) | 1) == 2 * Value(r) + 1
  {
  }

  lemma {:induction false} Small(r: bv16)
    requires Value(r) < 0x8000
    ensures r < 0x8000
  {
  }

  lemma {:induction false} NoBit(r: bv16)
    ensures r | 0 == r
  {
  }

  lemma {:induction false} PushValue(r: bv16, b: bv16)
    requires r < 0x8000 && (b == 0 || b == 1)
    ensures Value(Pushed(r, b)) == 2 * Value(r) + Value(b) && Value(b) <= 1
  {
    if b == 0 {
      PushZero(r);
      NoBit(r << 1);
    } else {
      PushOne(r);
    }
  }

  lemma {:induction false} Parts(n: bv16)
    ensures Half(n) < 0x8000 && (Low(n) == 0 || Low(n) == 1) && n == Pushed(Half(n), Low(n))
  {
  }

  lemma {:induction false} HalfValue(n: bv16)
    ensures Value(Half(n)) == Value(n) / 2 && Value(Low(n)) == Value(n) % 2 && (Low(n) == 0 || Low(n) == 1)
  {
    hide Half, Low, Pushed, Value;
    Parts(n);
    PushValue(Half(n), Low(n));
    DivUnique(Value(n), 2, Value(Half(n)), Value(Low(n)));
  }

  /** Pushing bit after bit builds the reversal. */
  lemma {:induction false} ReversedValue(w: nat, n: bv16, r: bv16, s: nat, k: nat)
    requires s + k <= 16 && Value(n) == w / Pow2(s) && Value(r) == Rev(w, s)
    ensures Value(Reversed(n, r, k)) == Rev(w, s + k)
    decreases k
  {
    hide Half, Low, Pushed, Value, Rev, Pow2;
    if k > 0 {
      HalfValue(n);
      NextBit(w, s);
      Small(r);
      PushValue(r, Low(n));
      ReversedValue(w, Half(n), Pushed(r, Low(n)), s + 1, k - 1);
    }
  }

  lemma {:induction false} NextBit(w: nat, s: nat)
    requires s <= 15
    ensures Rev(w, s) < 0x8000
    ensures w / Pow2(s) / 2 == w / Pow2(s + 1) && Rev(w, s + 1) == 2 * Rev(w, s) + w / Pow2(s) % 2
  {
    DivDiv(w, Pow2(s), 2);
    RevBound(w, s);
    RoomFor(Rev(w, s), s);
  }

  // ----- sixteen bits by four swaps

  function FourBits(n: bv16, r: bv16): (p: bv16) {
    Pushed(Pushed(Pushed(Pushed(r, Low(n)), Low(Half(n))), Low(Half(Half(n)))), Low(Half(Half(Half(n)))))
  }

  function BehindFour(n: bv16): (h: bv16) {
    Half(Half(Half(Half(n))))
  }

  lemma {:induction false} FourSteps(n: bv16, r: bv16, k: nat)
    requires k >= 4
    ensures Reversed(n, r, k) == Reversed(BehindFour(n), FourBits(n, r), k - 4)
  {
    hide Half, Low, Pushed;
    var n1, r1 := Half(n), Pushed(r, Low(n));
    var n2, r2 := Half(n1), Pushed(r1, Low(n1));
    assert Reversed(n1, r1, k - 1) == Reversed(n2, r2, k - 2);
    var n3, r3 := Half(n2), Pushed(r2, Low(n2));
    assert Reversed(n2, r2, k - 2) == Reversed(n3, r3, k - 3);
  }

  /** The mask swaps against bits pushed one by one: a question about bit vectors alone. */
  lemma {:induction false} SwapsReverse(n: bv16)
    ensures FourBits(BehindFour(BehindFour(BehindFour(n))),
                     FourBits(BehindFour(BehindFour(n)), FourBits(BehindFour(n), FourBits(n, 0)))) == BitReverse16(n)
  {
  }

  lemma {:induction false} ReversedIsSwaps(n: bv16, zero: bv16, k: nat)
    requires k == 16 && zero == 0
    ensures Reversed(n, zero, k) == BitReverse16(n)
  {
    hide FourBits, BehindFour, BitReverse16;
    var n1, r1 := BehindFour(n), FourBits(n, zero);
    var n2, r2 := BehindFour(n1), FourBits(n1, r1);
    var n3, r3 := BehindFour(n2), FourBits(n2, r2);
    FourSteps(n, zero, k);
    FourSteps(n1, r1, k - 4);
    FourSteps(n2, r2, k - 8);
    FourSteps(n3, r3, k - 12);
    SwapsReverse(n);
  }

  lemma {:induction false} FromNothing(n: bv16, zero: bv16, k: nat)
    requires k <= 16 && Value(zero) == 0
    ensures Value(Reversed(n, zero, k)) == Rev(Value(n), k)
  {
    hide Value, Reversed;
    ReversedValue(Value(n), n, zero, 0, k);
  }

  lemma {:induction false} Reverses16(n: bv16, zero: bv16, k: nat)
    requires k == 16 && zero == 0
    ensures Value(BitReverse16(n)) == Rev(Value(n), k)
  {
    hide *;
    ReversedIsSwaps(n, zero, k);
    ZeroValue(zero);
    FromNothing(n, zero, k);
  }

  // ----- the shift

  lemma {:induction false} ShiftNext(x: bv16, k: nat)
    requires 1 <= k <= 16
    ensures Shifted(x, k) == Half(Shifted(x, k - 1))
  {
    match k
    case 1 =>
    case 2 =>
    case 3 =>
    case 4 =>
    case 5 =>
    case 6 =>
    case 7 =>
    case 8 =>
    case 9 =>
    case 10 =>
    case 11 =>
    case 12 =>
    case 13 =>
    case 14 =>
    case 15 =>
    case 16 =>
  }

  lemma {:induction false} ShiftNone(x: bv16)
    ensures Shifted(x, 0) == x
  {
  }

  lemma {:induction false} ShiftValue(x: bv16, k: nat)
    requires k <= 16
    ensures Value(Shifted(x, k)) == Value(x) / Pow2(k)
    decreases k
  {
    hide Value, Half, Shifted;
    if k == 0 {
      ShiftNone(x);
    } else {
      ShiftValue(x, k - 1);
      ShiftNext(x, k);
      HalfValue(Shifted(x, k - 1));
      DivDiv(Value(x), Pow2(k - 1), 2);
    }
  }
}
