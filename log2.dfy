/** The `MathLog2` trait of `src/utils.rs` and its two instances, written once
    and parameterised by the integer type (`u32` or `u128`), as the
    `implement_log2!` macro writes it once and stamps it out per type.

    `log2(v)` is `size_of::<Self>() as u32 * 8 - v.leading_zeros() - 1`,
    computed in `u32`: the zero-based index of the highest set bit of `v`,
    i.e. the floor of the base-2 logarithm of a nonzero `v`. */
module MathLog2 {
  import opened Bits

  datatype Option<T> = None | Some(value: T)

  /** Rust's `u32`, the type of `log2`'s result and of `leading_zeros`. */
  type U32 = x: nat | x < 0x1_0000_0000

  const U32Max: U32 := 0xFFFF_FFFF

  /** An unsigned integer type, known to the macro body only through
      `std::mem::size_of::<Self>()`, its size in bytes. */
  datatype IntType = IntType(sizeOf: nat) {
    /** Unsigned integer types of at most 16 bytes. This covers `u32`
        (4 bytes) and `u128` (16 bytes), the two types `implement_log2!` is
        instantiated for; everything below holds for each such size. */
    predicate Supported() {
      0 < sizeOf <= 16
    }

    /** `size_of::<Self>() as u32 * 8`: the width in bits. */
    function Width(): (w: nat)
      requires Supported()
      ensures 0 < w <= 128
    {
      sizeOf * 8
    }

    /** The values of the type: `0 <= v < 2^Width()`. */
    predicate Holds(v: nat)
      requires Supported()
    {
      v < Pow2(Width())
    }
  }

  const U32Type := IntType(4)
  const U128Type := IntType(16)

  /** `v.leading_zeros()` for a value `v` of type `t`. */
  function LeadingZerosOf(t: IntType, v: nat): (r: U32)
    requires t.Supported() && t.Holds(v)
    ensures r <= t.Width()
    ensures r == t.Width() <==> v == 0
  {
    LeadingZeros(t.Width(), v)
  }

  /** `u32` subtraction in a debug build, where overflow checks are on:
      `None` stands for the "attempt to subtract with overflow" panic. */
  function CheckedSub(a: U32, b: U32): (r: Option<U32>)
    ensures r.Some? <==> b <= a
    ensures r.Some? ==> r.value + b == a
  {
    if b <= a then Some(a - b) else None
  }

  /** `u32` subtraction in a release build, where it wraps modulo `2^32`. */
  function WrappingSub(a: U32, b: U32): (r: U32)
    ensures b <= a ==> r + b == a
    ensures a < b ==> r + b == a + 0x1_0000_0000
  {
    (a - b) % 0x1_0000_0000
  }

  /** `log2` as written, in a debug build: the two `u32` subtractions of
      `W - leading_zeros(v) - 1`, either of which may panic. It panics
      exactly on zero, and otherwise agrees with `Log2`. */
  function Log2Checked(t: IntType, v: nat): (r: Option<U32>)
    requires t.Supported() && t.Holds(v)
    ensures r.None? <==> v == 0
    ensures v != 0 ==> r == Some(Log2(t, v))
  {
    match CheckedSub(t.Width(), LeadingZerosOf(t, v))
    case None => None
    case Some(d) => CheckedSub(d, 1)
  }

  /** `log2` as written, in a release build: the same subtractions wrapping
      modulo `2^32`. On zero the result is `u32::MAX`, a value no nonzero
      input of either width produces. */
  function Log2Wrapping(t: IntType, v: nat): (r: U32)
    requires t.Supported() && t.Holds(v)
    ensures r == U32Max <==> v == 0
    ensures v != 0 ==> r == Log2(t, v)
  {
    WrappingSub(WrappingSub(t.Width(), LeadingZerosOf(t, v)), 1)
  }

  /** `log2` with zero excluded: the index of the highest set bit of `v`,
      the unique `r` with `2^r <= v < 2^(r+1)`. It lies below the width of
      `t`, so it fits in `u32`. */
  function Log2(t: IntType, v: nat): (r: U32)
    requires t.Supported() && t.Holds(v) && v != 0
    ensures r < t.Width()
    ensures Pow2(r) <= v < Pow2(r + 1)
  {
    var w, lz := t.Width(), LeadingZerosOf(t, v);
    LeadingZerosBounds(w, v);
    w - lz - 1
  }

  /** `log2(v)` is the index of the highest set bit of `v`: that bit is set
      and every bit above it, up to the width, is clear. */
  lemma Log2IsHighestSetBit(t: IntType, v: nat)
    requires t.Supported() && t.Holds(v) && v != 0
    ensures Bit(v, Log2(t, v)) == 1
    ensures forall i :: Log2(t, v) < i < t.Width() ==> Bit(v, i) == 0
  {
    LeadingZerosAreClearTopBits(t.Width(), v);
  }

  /** The subtraction on `src/utils.rs:31` stays non-negative exactly when
      `v` is nonzero: on zero `leading_zeros` returns the whole width and
      `W - W - 1` would be `-1`. */
  lemma NoUnderflowIffNonzero(t: IntType, v: nat)
    requires t.Supported() && t.Holds(v)
    ensures LeadingZerosOf(t, v) + 1 <= t.Width() <==> v != 0
    ensures v == 0 ==> LeadingZerosOf(t, v) == t.Width()
  {
  }

  /** The leading zeros, the result and the highest set bit itself make up
      the whole width. */
  lemma LeadingZerosComplement(t: IntType, v: nat)
    requires t.Supported() && t.Holds(v) && v != 0
    ensures LeadingZerosOf(t, v) + Log2(t, v) + 1 == t.Width()
  {
  }

  /** `log2(v)` is the floor of the base-2 logarithm: `r` is the result
      exactly when `2^r <= v < 2^(r+1)`. */
  lemma Log2Characterization(t: IntType, v: nat, r: nat)
    requires t.Supported() && t.Holds(v) && v != 0
    ensures Log2(t, v) == r <==> Pow2(r) <= v < Pow2(r + 1)
  {
    if Pow2(r) <= v < Pow2(r + 1) {
      Pow2BracketUnique(v, r, Log2(t, v));
    }
  }

  /** Powers of two are exact: `log2(2^k) == k` for every `k` below the width. */
  lemma Log2OfPow2(t: IntType, k: nat)
    requires t.Supported() && k < t.Width()
    ensures t.Holds(Pow2(k))
    ensures Log2(t, Pow2(k)) == k
  {
    Pow2Order(k, t.Width());
    Log2Characterization(t, Pow2(k), k);
  }

  /** `log2` is monotonic on nonzero values. */
  lemma Log2Monotonic(t: IntType, a: nat, b: nat)
    requires t.Supported() && t.Holds(b) && 0 < a <= b
    ensures Log2(t, a) <= Log2(t, b)
  {
    Pow2Order(Log2(t, a), Log2(t, b) + 1);
  }

  /** Width independence: a nonzero value that fits in a narrower type `s`
      has the same `log2` in a wider type `t`, because its extra leading
      zeros in `t` are exactly the extra width of `t`. */
  lemma Log2WidthIndependent(s: IntType, t: IntType, v: nat)
    requires s.Supported() && t.Supported() && s.sizeOf <= t.sizeOf
    requires s.Holds(v) && v != 0
    ensures t.Holds(v)
    ensures LeadingZerosOf(t, v) == LeadingZerosOf(s, v) + (t.Width() - s.Width())
    ensures Log2(s, v) == Log2(t, v)
  {
    LeadingZerosWiden(s.Width(), t.Width(), v);
    Pow2BracketUnique(v, Log2(s, v), Log2(t, v));
  }

  /** A nonzero value below `2^32` gets the same `log2` as a `u32` and as a
      `u128`: it has 96 more leading zeros as a `u128`. */
  lemma Log2SameForU32AndU128(v: nat)
    requires 0 < v < Pow2(32)
    ensures U128Type.Holds(v)
    ensures LeadingZerosOf(U128Type, v) == LeadingZerosOf(U32Type, v) + 96
    ensures Log2(U32Type, v) == Log2(U128Type, v)
  {
    Log2WidthIndependent(U32Type, U128Type, v);
  }

  /** On zero a debug build panics and a release build returns `u32::MAX`,
      for either width. `W - leading_zeros(0)` is still fine (it is 0); the
      `- 1` after it is what underflows. */
  lemma ZeroInput(t: IntType)
    requires t.Supported()
    ensures t.Holds(0)
    ensures CheckedSub(t.Width(), LeadingZerosOf(t, 0)) == Some(0)
    ensures CheckedSub(0, 1) == None
    ensures Log2Checked(t, 0) == None
    ensures Log2Wrapping(t, 0) == 0xFFFF_FFFF
  {
  }

  /** Worked cases for `u32`. */
  lemma Log2ExamplesU32()
    ensures U32Type.Holds(0xFFFF_FFFF)
    ensures Log2(U32Type, 1) == 0
    ensures Log2(U32Type, 2) == 1
    ensures Log2(U32Type, 3) == 1
    ensures Log2(U32Type, 1024) == 10
    ensures Log2(U32Type, 0xFFFF_FFFF) == 31
  {
    Pow2U32Bounds();
    Log2Characterization(U32Type, 1, 0);
    Log2Characterization(U32Type, 2, 1);
    Log2Characterization(U32Type, 3, 1);
    Log2Characterization(U32Type, 1024, 10);
    Log2Characterization(U32Type, 0xFFFF_FFFF, 31);
  }

  /** Worked cases for `u128`: the smallest and the largest possible result. */
  lemma Log2ExamplesU128()
    ensures Log2(U128Type, 1) == 0
    ensures U128Type.Holds(Pow2(127))
    ensures Log2(U128Type, Pow2(127)) == 127
  {
    Log2OfPow2(U128Type, 0);
    Log2OfPow2(U128Type, 127);
  }
}
