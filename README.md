# Integer base-2 logarithm of `src/utils.rs`, modelled in Dafny

`src/utils.rs` defines a `MathLog2` trait with one method, `log2(self) -> u32`.
The `implement_log2!` macro implements it for `u32` and `u128` with the
same one-line formula, `size_of::<Self>() as u32 * 8 - self.leading_zeros() - 1`.
The result is the zero-based index of the highest set bit of the value, which
is the floor of its base-2 logarithm. It is returned as `u32`, like
`leading_zeros` itself.

The model has two modules:

- `Bits` (`bits.dfy`) specifies the parts the formula is built from, for any
  width `w`: powers of two, single bits, and `LeadingZeros(w, v)`, the
  leading-zero count of a `w`-bit value. This count is a recursive function
  that scans from the top bit down, not a model of the hardware bit-scan
  instruction.
- `MathLog2` (`log2.dfy`) is the trait and the macro, written once.
  `IntType` describes an unsigned integer type by its `size_of` in bytes.
  `U32Type` and `U128Type` are the two instances. The module has three
  versions of `log2`:
  - `Log2Checked` is the code as written, with Rust's overflow-checked `u32`
    subtraction (debug builds). A panic is shown as `None`.
  - `Log2Wrapping` is the code as written, with wrapping `u32` subtraction
    (release builds).
  - `Log2` is the intended function. It requires a nonzero input.

  Lemmas prove that the two as-written versions agree with `Log2` on every
  nonzero input. They also state the properties of `Log2`: the bounds, the
  highest set bit, exact powers of two, monotonicity, the complement
  identity with `leading_zeros`, and independence from the width.

A zero input is treated as a contract violation. Callers must not pass it, and
the model does not define a result for it. What the code as written does on
zero is modelled and proved separately (see Findings).

## Model

| member | source | states |
|---|---|---|
| `Bits.LeadingZeros` | src/utils.rs:31 | The leading-zero count of a `w`-bit value is at most `w`. It is exactly `w` when the value is zero, and only then. |
| `Bits.LeadingZerosBounds` | src/utils.rs:31 | With `r` leading zeros, `v < 2^(w-r)`. If `r < w`, also `2^(w-r-1) <= v`. |
| `Bits.LeadingZerosAreClearTopBits` | src/utils.rs:31 | The top `r` bits of `v` are all clear. When `v` is nonzero, bit `w-r-1` is set. So the count really is the number of leading zero bits. |
| `Bits.LeadingZerosWiden` | src/utils.rs:31 | Reading a value that fits in `w` bits as a `w'`-bit value adds exactly `w' - w` leading zeros. |
| `MathLog2.IntType.Width` | src/utils.rs:31 | `size_of::<Self>() as u32 * 8` is a positive width of at most 128 bits for every supported type. |
| `MathLog2.LeadingZerosOf` | src/utils.rs:31 | `v.leading_zeros()` fits in `u32`. It is at most the width, and it equals the width exactly when `v` is zero. |
| `MathLog2.CheckedSub` | src/utils.rs:31 | A `u32` subtraction with overflow checks panics (`None`) exactly when the subtrahend is larger. Otherwise it returns the exact difference. |
| `MathLog2.WrappingSub` | src/utils.rs:31 | A `u32` subtraction without overflow checks is exact when it does not underflow. Otherwise it is off by exactly `2^32`. |
| `MathLog2.Log2Checked` | src/utils.rs:29-32 | In a debug build, the formula as written panics exactly when `v == 0`. On every other input it returns `Log2(t, v)`. |
| `MathLog2.Log2Wrapping` | src/utils.rs:29-32 | In a release build, the formula as written returns `u32::MAX` exactly when `v == 0`. On every other input it returns `Log2(t, v)`. |
| `MathLog2.Log2` | src/utils.rs:20-32 | For nonzero `v`, the result `r` fits in `u32` and is below the width of the type: at most 31 for `u32` and at most 127 for `u128`. It also satisfies `2^r <= v < 2^(r+1)`. |
| `MathLog2.Log2IsHighestSetBit` | src/utils.rs:31 | Bit `log2(v)` of `v` is set, and every bit above it, up to the width, is clear. |
| `MathLog2.NoUnderflowIffNonzero` | src/utils.rs:31 | `W - leading_zeros(v) - 1` is non-negative if and only if `v != 0`. On zero, `leading_zeros` returns the whole width `W`. |
| `MathLog2.LeadingZerosComplement` | src/utils.rs:31 | For nonzero `v`, `leading_zeros(v) + log2(v) + 1` equals the width. |
| `MathLog2.Log2Characterization` | src/utils.rs:29-31 | `log2(v) == r` if and only if `2^r <= v < 2^(r+1)`. So the result is the floor of the base-2 logarithm, and no other value qualifies. |
| `MathLog2.Log2OfPow2` | src/utils.rs:31 | Powers of two are exact: `log2(2^k) == k` for every `k` below the width. |
| `MathLog2.Log2Monotonic` | src/utils.rs:31 | For nonzero `a <= b`, `log2(a) <= log2(b)`. |
| `MathLog2.Log2WidthIndependent` | src/utils.rs:31 | A nonzero value that fits in a narrower type has the same `log2` in a wider type. Its extra leading zeros in the wider type equal the difference in widths. |
| `MathLog2.Log2SameForU32AndU128` | src/utils.rs:37-38 | A nonzero value below `2^32` has 96 more leading zeros as a `u128` than as a `u32`, and the same `log2` in both types. |
| `MathLog2.ZeroInput` | src/utils.rs:31 | For `v == 0`, `W - leading_zeros(0)` is 0, so the trailing `- 1` underflows. A debug build panics, and a release build returns `0xFFFF_FFFF`. This holds for both widths. |
| `MathLog2.Log2ExamplesU32` | src/utils.rs:37 | For `u32`, `log2` maps 1, 2, 3, 1024 and `0xFFFF_FFFF` to 0, 1, 1, 10 and 31. |
| `MathLog2.Log2ExamplesU128` | src/utils.rs:38 | For `u128`, `log2(1) == 0` and `log2(2^127) == 127`. |

## Left out

- `set_panic_hook` (src/utils.rs:4-18) is left out. It is either a re-export of an external crate's process-wide panic-hook installer or an empty function, chosen at build time by a feature flag. It has no logic of its own.
- The `wasm_bindgen` binding to the host's `console.log` (src/utils.rs:40-46) is left out. It is a foreign call into the JavaScript runtime.
- The `console_log!` macro (src/utils.rs:53-57) is left out. It formats its arguments with Rust's `format_args!` and `to_string` and passes the string to the foreign call above. Rust's formatting library is not part of this model.
- The hardware `leading_zeros` instruction is not modelled. `Bits.LeadingZeros` specifies the count it must return.
- `MathLog2.IntType.Supported` admits every size from 1 to 16 bytes, not just the 4 and 16 of `u32` and `u128`. Every property is proved for all of these sizes, so `u32` and `u128` are covered. The wider set also lets the width-independence lemma be stated once for any two widths.

## Findings

| source | as written | input that shows it | evidently intended | confidence | as-written member | corrected member |
|---|---|---|---|---|---|---|
| src/utils.rs:31 | `size_of::<Self>() as u32 * 8 - self.leading_zeros() - 1`, with no guard for zero | `0u32.log2()` or `0u128.log2()`: `leading_zeros` returns the full width, and `W - W - 1` underflows in `u32`. A debug build panics with "attempt to subtract with overflow". A release build returns `4294967295` (`u32::MAX`). | `log2` is undefined at zero, which is a contract violation by the caller. Every nonzero input gets the index of its highest set bit. | medium, not executed | `MathLog2.ZeroInput` (with `MathLog2.Log2Wrapping`, `MathLog2.Log2Checked`) | `MathLog2.Log2` (requires `v != 0`; proved by `MathLog2.Log2Characterization`) |
