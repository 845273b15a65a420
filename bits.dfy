/** Mathematical specification of the fixed-width bit operations that the
    integer logarithm is built on: powers of two, single bits, and the
    leading-zero count of a `W`-bit unsigned value. The hardware bit-scan
    behind `leading_zeros` is not modelled; it is specified here instead. */
module Bits {

  /** 2 to the power `n`. */
  function Pow2(n: nat): (r: nat)
    ensures r >= 1
  {
    if n == 0 then 1 else 2 * Pow2(n - 1)
  }

  /** Bit `i` of `v` (0 is the least significant bit): the remainder by 2
      after `i` halvings. */
  function Bit(v: nat, i: nat): (b: nat)
    ensures b < 2
  {
    if i == 0 then v % 2 else Bit(v / 2, i - 1)
  }

  /** A `w`-bit value's top bit is set exactly when the value reaches `2^(w-1)`. */
  lemma {:induction false} TopBit(w: nat, v: nat)
    requires 0 < w && v < Pow2(w)
    ensures Bit(v, w - 1) == 1 <==> Pow2(w - 1) <= v
  {
    if w > 1 {
      TopBit(w - 1, v / 2);
    }
  }

  /** Exponents add: `2^(a+b) == 2^a * 2^b`. */
  lemma {:induction false} Pow2Add(a: nat, b: nat)
    ensures Pow2(a + b) == Pow2(a) * Pow2(b)
    decreases b
  {
    if b > 0 {
      Pow2Add(a, b - 1);
    }
  }

  /** The powers of two that bound `u32` values. */
  lemma Pow2U32Bounds()
    ensures Pow2(10) == 1024
    ensures Pow2(31) == 0x8000_0000
    ensures Pow2(32) == 0x1_0000_0000
  {
    assert Pow2(10) == 1024;
    Pow2Add(10, 10);
    Pow2Add(20, 10);
    Pow2Add(30, 1);
    Pow2Add(30, 2);
  }

  /** Powers of two are strictly increasing. */
  lemma {:induction false} Pow2StrictlyIncreasing(a: nat, b: nat)
    requires a < b
    ensures Pow2(a) < Pow2(b)
  {
    if b - 1 > a {
      Pow2StrictlyIncreasing(a, b - 1);
    }
  }

  /** Powers of two compare as their exponents do. */
  lemma Pow2Order(a: nat, b: nat)
    ensures Pow2(a) < Pow2(b) <==> a < b
    ensures Pow2(a) <= Pow2(b) <==> a <= b
  {
    if a < b {
      Pow2StrictlyIncreasing(a, b);
    } else if b < a {
      Pow2StrictlyIncreasing(b, a);
    }
  }

  /** A value lies between consecutive powers of two for at most one
      exponent. */
  lemma Pow2BracketUnique(v: nat, r: nat, k: nat)
    requires Pow2(r) <= v < Pow2(r + 1)
    requires Pow2(k) <= v < Pow2(k + 1)
    ensures r == k
  {
    Pow2Order(r, k + 1);
    Pow2Order(k, r + 1);
  }

  /** The number of leading zero bits of `v` read as a `w`-bit unsigned value:
      scanning from bit `w-1` downwards, each step where the top bit of the
      remaining width is clear (the value is below `2^(width-1)`, see `TopBit`)
      adds one. A zero value has `w` of them. */
  function LeadingZeros(w: nat, v: nat): (r: nat)
    requires v < Pow2(w)
    ensures r <= w
    ensures r == w <==> v == 0
    decreases w
  {
    if w == 0 then 0
    else if Pow2(w - 1) <= v then 0
    else 1 + LeadingZeros(w - 1, v)
  }

  /** The leading-zero count locates `v` between two powers of two: `v`
      fits in the `w - r` bits below its leading zeros and, when nonzero,
      reaches the top one of them. */
  lemma {:induction false} LeadingZerosBounds(w: nat, v: nat)
    requires v < Pow2(w)
    ensures v < Pow2(w - LeadingZeros(w, v))
    ensures LeadingZeros(w, v) < w ==> Pow2(w - LeadingZeros(w, v) - 1) <= v
    decreases w
  {
    if w > 0 && v < Pow2(w - 1) {
      LeadingZerosBounds(w - 1, v);
    }
  }

  /** Widening a value that fits in `w` bits to `w'` bits adds exactly
      `w' - w` leading zeros. */
  lemma {:induction false} LeadingZerosWiden(w: nat, w': nat, v: nat)
    requires w <= w' && v < Pow2(w)
    ensures v < Pow2(w')
    ensures LeadingZeros(w', v) == (w' - w) + LeadingZeros(w, v)
    decreases w' - w
  {
    if w < w' {
      LeadingZerosWiden(w, w' - 1, v);
      Pow2Order(w, w' - 1);
    }
  }

  /** `LeadingZeros` counts bits: the top `r` bits of `v` are clear and, unless
      `v` is zero, the bit just below them is set. */
  lemma {:induction false} LeadingZerosAreClearTopBits(w: nat, v: nat)
    requires v < Pow2(w)
    ensures forall i :: w - LeadingZeros(w, v) <= i < w ==> Bit(v, i) == 0
    ensures v != 0 ==> Bit(v, w - LeadingZeros(w, v) - 1) == 1
    decreases w
  {
    if w > 0 {
      TopBit(w, v);
      if v < Pow2(w - 1) {
        LeadingZerosAreClearTopBits(w - 1, v);
      }
    }
  }
}
