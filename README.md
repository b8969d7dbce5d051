# Bit masks for fixed-width unsigned words

This project models `mask.h`, a C++ header of compile-time bit-mask constants
for an unsigned integral type `T` of width `W = sizeof(T) * 8`:

- the primitive masks `all`, `none`, `msb`, `but_msb`, `lsb`, `but_lsb`;
- the single-bit masks `bit<n>` and `but_bit<n>`;
- the range masks `up_to<bit>`, `down_to<bit>` and `from_to<n1, n2>`. These are
  built by the helpers `detail::make_up_to`, `detail::make_down_to` and
  `detail::make_from_to`. The first two start from a single set bit and widen
  the run of set bits one position per loop iteration.

Three modules follow the header's structure:

- `Words` (`words.dfy`) models the word type `T`. A word is a `seq<bool>` of
  length `W`, least significant bit first. `IsWidth(W)` says `W` is a positive
  multiple of 8. The file defines C's operators `~ & | ^ << >>` at bit level.
  `ShlBy` and `ShrBy` require the shift amount to be below `W`, as C does, so
  every call site proves that no shift reaches the width. `Value` reads a word
  as a number. The lemmas tie the bit-level operators to C's unsigned
  arithmetic: `<<` truncates modulo 2^W, `>>` divides, and `~v` is 2^W - 1 - v.
  `Span(W, lo, hi)` is the word whose bits lo..hi are set. All masks are
  specified against it.
- `MaskDetail` (`mask_detail.dfy`) models `namespace mask::detail`. The two
  loop builders are methods with `while` loops. Their invariants say that
  after i iterations exactly bits 0..i, or bits W-1-i..W-1, are set.
  `make_from_to` is also a method, because it calls the other two.
- `Mask` (`mask.dfy`) models the public masks. The constants are functions,
  and the range masks are methods that call the builders. Each `static_assert`
  becomes a `requires` clause. Lemmas state the values, the popcounts and the
  complement relations. Two concrete 8-bit examples are included.

Where the header's leading comment and the code disagree, the code is
followed. The comment lists `but_from_to_v` as implemented, but the header
never defines it. The comment also calls the ranged constant `from_to_v`,
but the header declares it as `make_from_v`.

## Model

| member | source | states |
|---|---|---|
| `MaskDetail.MakeUpTo` | mask.h:40-46 | the result has exactly bits 0..bit set; once bit reaches W-1, further iterations leave the all-ones word unchanged |
| `MaskDetail.MakeDownTo` | mask.h:49-56 | after (W-1)-bit iterations, starting from the msb, exactly bits bit..W-1 are set |
| `MaskDetail.MakeFromTo` | mask.h:59-61 | `make_up_to(n2) & make_down_to(n1)` has exactly bits n1..n2 set (no bits when n1 > n2) |
| `MaskDetail.UpStep` | mask.h:43 | one `value \|= value << 1` turns the run 0..i into the run 0..i+1 |
| `MaskDetail.DownStep` | mask.h:53 | one `value \|= value >> 1` turns the run lo..W-1 into the run lo-1..W-1 |
| `MaskDetail.SpanIntersect` | mask.h:60 | bits 0..hi AND bits lo..W-1 is exactly bits lo..hi |
| `Mask.All` | mask.h:66-68 | `~0` cast to T has every bit set |
| `Mask.None` | mask.h:75-77 | the literal 0 has no bit set |
| `Mask.Msb` | mask.h:84-86 | `1 << (W-1)` has only bit W-1 set |
| `Mask.ButMsb` | mask.h:93-95 | `msb ^ (T)-1` has bits 0..W-2 set and bit W-1 clear |
| `Mask.Lsb` | mask.h:103-105 | the literal 1 has only bit 0 set |
| `Mask.ButLsb` | mask.h:113-115 | `1 ^ (T)-1` has bits 1..W-1 set and bit 0 clear |
| `Mask.PrimitiveValues` | mask.h:64-118 | all = 2^W-1, none = 0, msb = 2^(W-1), but_msb = 2^(W-1)-1, lsb = 1, but_lsb = 2^W-2, with popcounts W, 0, 1, W-1, 1, W-1 |
| `Mask.AllIsMinusOne` | mask.h:67 | `~0` denotes 2^W-1, the same value as `(T)-1` |
| `Mask.PrimitiveComplements` | mask.h:85-114 | all ^ none == all; msb and but_msb (and lsb and but_lsb) OR to all, AND to none, and each is the other's `~` |
| `Mask.Bit` | mask.h:123-126 | for n < W, `1 << n` has exactly one set bit, bit n |
| `Mask.ButBit` | mask.h:134-137 | for n < W, `~(1 << n)` has every bit set except bit n |
| `Mask.BitValue` | mask.h:125 | bit<n> denotes 2^n, both from its bits and as `(1 * 2^n) mod 2^W`, and has popcount 1 |
| `Mask.BitComplement` | mask.h:124-136 | but_bit<n> == ~bit<n>; their OR is all and their AND is none; but_bit<n> = 2^W-1-2^n with popcount W-1; bit<0> == lsb; bit<W-1> == msb |
| `Mask.UpTo` | mask.h:145-148 | for bit < W: exactly bits 0..bit set, value 2^(bit+1)-1, popcount bit+1; up_to<0> == lsb; up_to<W-1> == all |
| `Mask.DownTo` | mask.h:156-159 | for bit < W: exactly bits bit..W-1 set, value 2^W-2^bit, popcount W-bit; down_to<W-1> == msb; down_to<0> == all |
| `Mask.FromTo` | mask.h:167-171 | for n1 < n2 < W: exactly bits n1..n2 set, value 2^(n2+1)-2^n1, popcount n2-n1+1 |
| `Mask.ButFromTo` | mask.h:29-30 | not defined in the source; given here only as the complement of from_to: bits outside n1..n2 set, bits inside clear |
| `Mask.FromToComplement` | mask.h:26-30 | from_to OR but_from_to is all; their AND is none |
| `Mask.RangeExamples8` | mask.h:142-171 | for 8-bit T: up_to<3> == 0x0F, down_to<5> == 0xE0, from_to<2,5> == 0x3C |
| `Mask.ConstantExamples8` | mask.h:64-126 | for 8-bit T: bit<0> == 0x01, bit<7> == msb == 0x80, all == 0xFF, none == 0x00 |
| `Words.LiteralValues` | mask.h:41 | the literal 1 (`T value = 1`) denotes 1 and the literal 0 denotes 0 |
| `Words.ValueShl` | mask.h:43 | for k < W, `v << k` denotes (v * 2^k) mod 2^W: bits shifted past the top are dropped |
| `Words.ValueShr` | mask.h:53 | for k < W, `v >> k` on an unsigned word denotes v / 2^k |
| `Words.ValueNot` | mask.h:136 | `~v` denotes 2^W - 1 - v |
| `Words.SpanFacts` | mask.h:20-27 | the pattern with bits lo..hi set denotes 2^(hi+1) - 2^lo and has hi-lo+1 bits set |

## Left out

- Template machinery is not modelled: `std::enable_if_t`, `std::is_integral`, and the variable templates `*_v`, including the `make_from_v` alias. It only selects T; here T is the width parameter `W`.
- Signed integral types are not modelled. `is_integral` admits them, but `~0`, `1 << (W-1)` and `>>` mean something else on signed words. Only unsigned words are modelled.
- Integer promotion of narrow types to `int` is modelled only as truncation modulo 2^W when the result is stored back in T. For unsigned T this gives the same bits.
- `MaskDetail.MakeDownTo`: requires bit < W. For larger bit, the unsigned `count` at mask.h:51 wraps around. The public `down_to` forbids such inputs.
- `MaskDetail.MakeFromTo` inherits that bound (n1 < W). It is a method rather than a function because it calls the two loop builders.
- The text of the `static_assert` messages is not modelled. This includes `up_to`'s message, which at mask.h:146 names `down_to`. A violated assertion is a `requires` clause no caller may break.
- Compile-time (`constexpr`) evaluation is not modelled. The masks are computed by ordinary functions and methods.
