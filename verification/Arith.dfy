/**
  Powers of two and the bit arithmetic at the bottom of the buddy allocator:
  `highest_bit_position` and `ceiling_power_of_two` over 64-bit `size_t`.
*/
module Arith {

  datatype Option<+T> = None | Some(value: T)

  type byte = x: int | 0 <= x < 256

  /** No element occurs twice. */
  ghost predicate NoDup(s: seq<nat>) {
    forall i, j :: 0 <= i < j < |s| ==> s[i] != s[j]
  }

  const SIZE_T: nat := 0x1_0000_0000_0000_0000

  /** Two to the power of `n` (`two_to_the_power_of` for `n < 64`). */
  function Pow2(n: nat): (r: nat)
    ensures r >= 1
  {
    if n == 0 then 1 else 2 * Pow2(n - 1)
  }

  lemma {:induction false} Pow2Add(a: nat, b: nat)
    ensures Pow2(a + b) == Pow2(a) * Pow2(b)
  {
    if b > 0 {
      Pow2Add(a, b - 1);
      assert Pow2(a + b) == 2 * Pow2(a + (b - 1));
      assert Pow2(a) * (2 * Pow2(b - 1)) == 2 * (Pow2(a) * Pow2(b - 1));
    }
  }

  lemma {:induction false} Pow2Mono(a: nat, b: nat)
    requires a <= b
    ensures Pow2(a) <= Pow2(b)
    ensures a < b ==> 2 * Pow2(a) <= Pow2(b)
    decreases b
  {
    if a < b {
      Pow2Mono(a, b - 1);
    }
  }

  /** The number of binary digits of `v`; zero for zero. */
  function BitLength(v: nat): (r: nat)
    ensures v > 0 ==> r > 0
  {
    if v == 0 then 0 else 1 + BitLength(v / 2)
  }

  lemma {:induction false} BitLengthBounds(v: nat)
    ensures v < Pow2(BitLength(v))
    ensures v > 0 ==> Pow2(BitLength(v) - 1) <= v
  {
    if v > 0 {
      BitLengthBounds(v / 2);
    }
  }

  /** The bounds of `BitLengthBounds` determine the length. */
  lemma {:induction false} BitLengthUnique(v: nat, k: nat)
    requires k > 0
    requires Pow2(k - 1) <= v < Pow2(k)
    ensures BitLength(v) == k
  {
    var r := BitLength(v);
    BitLengthBounds(v);
    if r < k {
      Pow2Mono(r, k - 1);
    } else if k < r {
      Pow2Mono(k, r - 1);
    }
  }

  /** The C right shift of an unsigned value. */
  function Shr(v: nat, c: nat): (r: nat) {
    if c == 0 then v else Shr(v / 2, c - 1)
  }

  lemma {:induction false} ShrIsDiv(v: nat, c: nat)
    ensures Shr(v, c) == v / Pow2(c)
    decreases c
  {
    if c > 0 {
      ShrIsDiv(v / 2, c - 1);
      DivDiv(v, 2, Pow2(c - 1));
    }
  }

  /** Shifting out `c` low digits of a value with at least `c` digits. */
  lemma {:induction false} BitLengthShift(v: nat, c: nat)
    requires v >= Pow2(c) - 1
    ensures BitLength(v) == c + BitLength(Shr(v, c))
    decreases c
  {
    if c > 0 {
      BitLengthShift(v / 2, c - 1);
      if v > 0 {
        BitLengthHalf(v, v / 2);
      }
    }
  }

  lemma {:induction false} BitLengthHalf(v: nat, h: nat)
    requires v > 0 && h == v / 2
    ensures BitLength(v) == 1 + BitLength(h)
  {
  }

  lemma {:induction false} DivDiv(x: nat, a: nat, b: nat)
    requires a > 0 && b > 0
    ensures a * b > 0
    ensures (x / a) / b == x / (a * b)
  {
    var y := x / a;
    MulPositive(a, b);
    TwoRemainders(x, a, y, x % a, b, y / b, y % b);
    DivUnique(x, a * b, y / b, a * (y % b) + x % a);
  }

  lemma {:induction false} TwoRemainders(x: nat, a: nat, y: nat, s: nat, b: nat, q: nat, r: nat)
    requires s < a && r < b && x == a * y + s && y == b * q + r
    ensures a * r + s < a * b && x == (a * b) * q + (a * r + s)
  {
    MulMono(a, r + 1, b);
    MulAssocDistrib(a, b, q, r);
  }

  lemma {:induction false} MulPositive(a: nat, b: nat)
    requires a > 0 && b > 0
    ensures a * b > 0
  {
  }

  lemma {:induction false} MulAssocDistrib(a: int, b: int, q: int, r: int)
    ensures a * (b * q + r) == (a * b) * q + a * r
  {
  }

  lemma {:induction false} MulMono(d: nat, a: int, b: int)
    requires a <= b
    ensures d * a <= d * b
  {
    assert d * (b - a) >= 0;
    assert d * (b - a) == d * b - d * a;
  }

  /** `unit * count` as a repeated sum, which keeps the reasoning about sizes linear. */
  function Times(unit: nat, count: nat): (p: nat) {
    if count == 0 then 0 else unit + Times(unit, count - 1)
  }

  lemma {:induction false} TimesIsProduct(unit: nat, count: nat)
    ensures Times(unit, count) == unit * count
    decreases count
  {
    if count > 0 {
      TimesIsProduct(unit, count - 1);
      MulStep(unit, count);
    }
  }

  lemma {:induction false} MulStep(unit: nat, count: nat)
    requires count > 0
    ensures unit * count == unit + unit * (count - 1)
  {
  }

  lemma {:induction false} TimesAdd(unit: nat, a: nat, b: nat)
    ensures Times(unit, a + b) == Times(unit, a) + Times(unit, b)
    decreases b
  {
    if b > 0 {
      TimesAdd(unit, a, b - 1);
      assert Times(unit, a + b) == unit + Times(unit, a + b - 1);
    }
  }

  /** Order of multiples is order of counts. */
  lemma {:induction false} TimesMono(unit: nat, a: nat, b: nat)
    requires a <= b
    ensures Times(unit, a) <= Times(unit, b)
    ensures unit >= 1 && a < b ==> Times(unit, a) < Times(unit, b)
  {
    TimesAdd(unit, a, b - a);
  }

  lemma {:induction false} TimesCompare(unit: nat, a: nat, b: nat)
    requires unit >= 1
    ensures Times(unit, a) <= Times(unit, b) <==> a <= b
    ensures Times(unit, a) == Times(unit, b) <==> a == b
  {
    if a <= b {
      TimesMono(unit, a, b);
    } else {
      TimesMono(unit, b, a);
    }
  }

  lemma {:induction false} TimesAssoc(unit: nat, a: nat, b: nat)
    ensures Times(unit, Times(a, b)) == Times(Times(unit, a), b)
    decreases b
  {
    if b > 0 {
      TimesAssoc(unit, a, b - 1);
      TimesAdd(unit, a, Times(a, b - 1));
    }
  }

  lemma {:induction false} DivUnique(x: nat, d: nat, q: nat, r: nat)
    requires d > 0 && r < d && x == d * q + r
    ensures x / d == q && x % d == r
  {
    QuotientUnique(d, q, r, x / d, x % d);
  }

  lemma {:induction false} QuotientUnique(d: nat, q: nat, r: nat, q': nat, r': nat)
    requires r < d && r' < d && d * q + r == d * q' + r'
    ensures q == q' && r == r'
  {
    if q < q' {
      MulMono(d, q + 1, q');
    } else if q' < q {
      MulMono(d, q' + 1, q);
    }
  }

  const ALL_SET: seq<nat> := [4294967295, 65535, 255, 15, 7, 3, 1]
  const SHIFT_COUNT: seq<nat> := [32, 16, 8, 4, 2, 1, 1]

  /** The value still to be measured after step `i` lies below this bound. */
  ghost function StepBound(i: nat): nat {
    if i == 0 then SIZE_T
    else if i == 1 then 0x1_0000_0000
    else if i == 2 then 0x1_0000
    else if i == 3 then 0x100
    else if i == 4 then 0x10
    else if i == 5 then 7
    else if i == 6 then 4
    else 2
  }

  lemma {:induction false} Pow2Double(a: nat)
    ensures Pow2(a + a) == Pow2(a) * Pow2(a)
  {
    Pow2Add(a, a);
  }

  lemma {:induction false} StepFacts()
    ensures Pow2(1) == 2 && Pow2(2) == 4 && Pow2(4) == 16 && Pow2(8) == 0x100
    ensures Pow2(16) == 0x1_0000 && Pow2(32) == 0x1_0000_0000
  {
    assert Pow2(4) == 16;
    assert Pow2(4 + 4) == Pow2(4) * Pow2(4) by { Pow2Double(4); }
    assert Pow2(8 + 8) == Pow2(8) * Pow2(8) by { Pow2Double(8); }
    assert Pow2(16 + 16) == Pow2(16) * Pow2(16) by { Pow2Double(16); }
  }

  /** The largest power of two below 2^64 is 2^63. */
  lemma {:induction false} Pow2Below64(k: nat)
    requires Pow2(k) < SIZE_T
    ensures k <= 63 && Pow2(k) <= SIZE_T / 2
  {
    assert Pow2(64) == SIZE_T by {
      StepFacts();
      Pow2Double(32);
    }
    if k >= 64 {
      Pow2Mono(64, k);
    } else {
      Pow2Mono(k, 63);
      assert Pow2(64) == 2 * Pow2(63);
    }
  }

  lemma {:induction false} StepShrinks(i: nat, value: nat)
    requires i < 7 && value < StepBound(i)
    ensures value >= ALL_SET[i] ==> value >= Pow2(SHIFT_COUNT[i]) - 1 && Shr(value, SHIFT_COUNT[i]) < StepBound(i + 1)
    ensures value < ALL_SET[i] ==> value < StepBound(i + 1)
  {
    StepFacts();
    match i
    case 0 => ShrBelow(value, 32, 0x1_0000_0000);
    case 1 => ShrBelow(value, 16, 0x1_0000);
    case 2 => ShrBelow(value, 8, 0x100);
    case 3 => ShrBelow(value, 4, 0x10);
    case 4 => ShrBelow(value, 2, 7);
    case 5 => ShrBelow(value, 1, 4);
    case _ => ShrBelow(value, 1, 2);
  }

  lemma {:induction false} ShrBelow(v: nat, c: nat, b: nat)
    requires v < Pow2(c) * b
    ensures Shr(v, c) < b
  {
    ShrIsDiv(v, c);
    if v / Pow2(c) >= b {
      MulMono(Pow2(c), b, v / Pow2(c));
    }
  }

  /** The binary search of `highest_bit_position` measures any 64-bit value exactly. */
  method HighestBitPosition(v: nat) returns (r: nat)
    requires v < SIZE_T
    ensures r == BitLength(v)
  {
    var value: nat := v;
    r := 0;
    for i := 0 to 7
      invariant value < StepBound(i)
      invariant BitLength(v) == r + BitLength(value)
    {
      StepShrinks(i, value);
      if value >= ALL_SET[i] {
        BitLengthShift(value, SHIFT_COUNT[i]);
        value := Shr(value, SHIFT_COUNT[i]);
        r := r + SHIFT_COUNT[i];
      }
    }
    r := r + value;
  }

  /** `p` is the least power of two that is at least `v`. */
  ghost predicate LeastPow2AtLeast(v: nat, p: nat) {
    (exists k: nat :: p == Pow2(k)) && p >= v && (p == 1 || p < 2 * v)
  }

  /** `ceiling_power_of_two`, including the wrap of `value + value - 1` at 64 bits. */
  function CeilingPow2(v: nat): (r: nat)
    requires v < SIZE_T
  {
    var value := if v == 0 then 1 else v;
    var doubled := (2 * value - 1) % SIZE_T;
    assert doubled % 2 == 1;
    var e: nat :| e == BitLength(doubled) - 1;
    Pow2(e)
  }

  /** The rounding is right exactly up to 2^63; beyond that the doubling wraps. */
  lemma {:induction false} CeilingPow2Exact(v: nat)
    requires v < SIZE_T
    ensures LeastPow2AtLeast(v, CeilingPow2(v)) <==> v <= SIZE_T / 2
  {
    hide BitLength, Pow2;
    var value := if v == 0 then 1 else v;
    var d := (2 * value - 1) % SIZE_T;
    Doubled(value);
    BitLengthBounds(d);
    if v <= SIZE_T / 2 {
      RoundUp(value, BitLength(d) - 1);
    }
  }

  lemma {:induction false} Doubled(value: nat)
    requires 1 <= value < SIZE_T
    ensures (2 * value - 1) % SIZE_T == if value <= SIZE_T / 2 then 2 * value - 1 else 2 * value - 1 - SIZE_T
  {
  }

  lemma {:induction false} RoundUp(value: nat, e: nat)
    requires value >= 1 && Pow2(e) <= 2 * value - 1 < Pow2(e + 1)
    ensures LeastPow2AtLeast(value, Pow2(e)) && (value == 1 ==> LeastPow2AtLeast(0, Pow2(e)))
  {
  }

  /** Two powers of two that both round `v` up are the same. */
  lemma {:induction false} LeastPow2Unique(v: nat, p: nat, q: nat)
    requires LeastPow2AtLeast(v, p) && LeastPow2AtLeast(v, q)
    ensures p == q
  {
    var a: nat :| p == Pow2(a);
    var b: nat :| q == Pow2(b);
    if a < b {
      Pow2Mono(a, b);
    } else if b < a {
      Pow2Mono(b, a);
    }
  }
}
