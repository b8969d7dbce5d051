/** The public masks of namespace `mask` (mask.h:64-174), for an unsigned type T of width W.

    The primitive masks and the single-bit masks are constant expressions and are
    modelled as functions; the range masks call the loop builders of MaskDetail and
    are modelled as methods. The `static_assert`s of the source become `requires`
    clauses.
 */
module Mask {
  import opened Words
  import MaskDetail

  // ---------------------------------------------------------------------------
  // Primitive masks

  /** `all`: `static_cast<T>(~0)`, every bit set. */
  function All(W: nat): (r: Word)
    requires IsWidth(W)
    ensures r == Span(W, 0, W - 1)
  {
    Not(Zero(W))
  }

  /** `none`: the literal 0, no bit set. */
  function None(W: nat): (r: Word)
    requires IsWidth(W)
    ensures |r| == W && forall i | 0 <= i < W :: !r[i]
  {
    Zero(W)
  }

  /** `msb`: `static_cast<T>(1) << (W - 1)`, only the top bit set. */
  function Msb(W: nat): (r: Word)
    requires IsWidth(W)
    ensures r == Span(W, W - 1, W - 1)
  {
    ShlBy(One(W), W - 1)
  }

  /** `but_msb`: `msb ^ (T)-1`, every bit but the top one set. */
  function ButMsb(W: nat): (r: Word)
    requires IsWidth(W)
    ensures r == Span(W, 0, W - 2)
  {
    Xor(Msb(W), All(W))
  }

  /** `lsb`: the literal 1, only bit 0 set. */
  function Lsb(W: nat): (r: Word)
    requires IsWidth(W)
    ensures r == Span(W, 0, 0)
  {
    One(W)
  }

  /** `but_lsb`: `1 ^ (T)-1`, every bit but bit 0 set. */
  function ButLsb(W: nat): (r: Word)
    requires IsWidth(W)
    ensures r == Span(W, 1, W - 1)
  {
    Xor(One(W), All(W))
  }

  /** The numbers the primitive masks denote, and how many bits each has set. */
  lemma PrimitiveValues(W: nat)
    requires IsWidth(W)
    ensures Value(All(W)) == Pow2(W) - 1 && PopCount(All(W)) == W
    ensures Value(None(W)) == 0 && PopCount(None(W)) == 0
    ensures Value(Msb(W)) == Pow2(W - 1) && PopCount(Msb(W)) == 1
    ensures Value(ButMsb(W)) == Pow2(W - 1) - 1 && PopCount(ButMsb(W)) == W - 1
    ensures Value(Lsb(W)) == 1 && PopCount(Lsb(W)) == 1
    ensures Value(ButLsb(W)) == Pow2(W) - 2 && PopCount(ButLsb(W)) == W - 1
  {
    SpanFacts(W, 0, W - 1);
    LiteralValues(W);
    SpanFacts(W, W - 1, W - 1);
    SpanFacts(W, 0, W - 2);
    SpanFacts(W, 0, 0);
    SpanFacts(W, 1, W - 1);
  }

  /** `all` is `~0` and `(T)-1` alike: the largest value of T. */
  lemma AllIsMinusOne(W: nat)
    requires IsWidth(W)
    ensures Value(All(W)) == Pow2(W) - 1
    ensures Value(All(W)) == Pow2(W) - 1 - Value(Zero(W))
  {
    ValueNot(Zero(W));
    LiteralValues(W);
  }

  /** `all ^ none == all`, and `msb`, `but_msb` (likewise `lsb`, `but_lsb`) are complements. */
  lemma PrimitiveComplements(W: nat)
    requires IsWidth(W)
    ensures Xor(All(W), None(W)) == All(W)
    ensures Or(Msb(W), ButMsb(W)) == All(W) && And(Msb(W), ButMsb(W)) == None(W)
    ensures ButMsb(W) == Not(Msb(W))
    ensures Or(Lsb(W), ButLsb(W)) == All(W) && And(Lsb(W), ButLsb(W)) == None(W)
    ensures ButLsb(W) == Not(Lsb(W))
  {
  }

  // ---------------------------------------------------------------------------
  // Single-bit masks

  /** `bit<n>`: `static_cast<T>(1) << n`, only bit n set. */
  function Bit(W: nat, n: nat): (r: Word)
    requires IsWidth(W) && n < W
    ensures r == Span(W, n, n)
  {
    ShlBy(One(W), n)
  }

  /** `but_bit<n>`: `~(static_cast<T>(1) << n)`, every bit but bit n set. */
  function ButBit(W: nat, n: nat): (r: Word)
    requires IsWidth(W) && n < W
    ensures |r| == W && forall i | 0 <= i < W :: r[i] <==> i != n
  {
    Not(ShlBy(One(W), n))
  }

  /** `bit<n>` denotes 2^n, read either from its bits or as the shift `1 << n`. */
  lemma BitValue(W: nat, n: nat)
    requires IsWidth(W) && n < W
    ensures Value(Bit(W, n)) == Pow2(n) && PopCount(Bit(W, n)) == 1
    ensures Value(Bit(W, n)) == (Value(One(W)) * Pow2(n)) % Pow2(W)
  {
    SpanFacts(W, n, n);
    ValueShl(One(W), n);
  }

  /** `bit<n>` and `but_bit<n>` are complements; `bit<0>` is `lsb` and `bit<W-1>` is `msb`. */
  lemma BitComplement(W: nat, n: nat)
    requires IsWidth(W) && n < W
    ensures ButBit(W, n) == Not(Bit(W, n))
    ensures Or(Bit(W, n), ButBit(W, n)) == All(W) && And(Bit(W, n), ButBit(W, n)) == None(W)
    ensures Value(ButBit(W, n)) == Pow2(W) - 1 - Pow2(n) && PopCount(ButBit(W, n)) == W - 1
    ensures Bit(W, 0) == Lsb(W) && Bit(W, W - 1) == Msb(W)
  {
    BitValue(W, n);
    ValueNot(Bit(W, n));
    PopCountNot(Bit(W, n));
  }

  // ---------------------------------------------------------------------------
  // Range masks

  /** `up_to<bit>`: bits 0..bit set, value 2^(bit+1) - 1. */
  method UpTo(W: nat, bit: nat) returns (r: Word)
    requires IsWidth(W) && bit < W
    ensures r == Span(W, 0, bit)
    ensures Value(r) == Pow2(bit + 1) - 1 && PopCount(r) == bit + 1
    ensures bit == 0 ==> r == Lsb(W)
    ensures bit == W - 1 ==> r == All(W)
  {
    r := MaskDetail.MakeUpTo(W, bit);
    SpanFacts(W, 0, bit);
  }

  /** `down_to<bit>`: bits bit..W-1 set, value 2^W - 2^bit. */
  method DownTo(W: nat, bit: nat) returns (r: Word)
    requires IsWidth(W) && bit < W
    ensures r == Span(W, bit, W - 1)
    ensures Value(r) == Pow2(W) - Pow2(bit) && PopCount(r) == W - bit
    ensures bit == W - 1 ==> r == Msb(W)
    ensures bit == 0 ==> r == All(W)
  {
    r := MaskDetail.MakeDownTo(W, bit);
    SpanFacts(W, bit, W - 1);
  }

  /** `from_to<n1, n2>`: bits n1..n2 set, value 2^(n2+1) - 2^n1. */
  method FromTo(W: nat, n1: nat, n2: nat) returns (r: Word)
    requires IsWidth(W) && n1 < n2 && n2 < W
    ensures r == Span(W, n1, n2)
    ensures Value(r) == Pow2(n2 + 1) - Pow2(n1) && PopCount(r) == n2 - n1 + 1
  {
    r := MaskDetail.MakeFromTo(W, n1, n2);
    SpanFacts(W, n1, n2);
  }

  /** `but_from_to` is named in the header comment but has no definition in the source;
      it is given here only as the complement of `from_to`, for the lemma below. */
  ghost function ButFromTo(W: nat, n1: nat, n2: nat): (r: Word)
    requires IsWidth(W) && n1 < n2 && n2 < W
    ensures |r| == W && forall i | 0 <= i < W :: r[i] <==> (i < n1 || n2 < i)
  {
    Not(Span(W, n1, n2))
  }

  lemma FromToComplement(W: nat, n1: nat, n2: nat)
    requires IsWidth(W) && n1 < n2 && n2 < W
    ensures Or(Span(W, n1, n2), ButFromTo(W, n1, n2)) == All(W)
    ensures And(Span(W, n1, n2), ButFromTo(W, n1, n2)) == None(W)
  {
  }

  /** The range masks of an 8-bit unsigned type. */
  method RangeExamples8() returns (upTo3: Word, downTo5: Word, fromTo25: Word)
    ensures Value(upTo3) == 0x0F && Value(downTo5) == 0xE0 && Value(fromTo25) == 0x3C
  {
    assert Pow2(2) == 4 && Pow2(4) == 16 && Pow2(5) == 32 && Pow2(6) == 64 && Pow2(8) == 256;
    upTo3 := UpTo(8, 3);
    downTo5 := DownTo(8, 5);
    fromTo25 := FromTo(8, 2, 5);
  }

  /** The primitive and single-bit masks of an 8-bit unsigned type. */
  lemma ConstantExamples8()
    ensures Value(Bit(8, 0)) == 0x01 && Bit(8, 7) == Msb(8) && Value(Msb(8)) == 0x80
    ensures Value(All(8)) == 0xFF && Value(None(8)) == 0x00
  {
    assert Pow2(7) == 128 && Pow2(8) == 256;
    BitValue(8, 0);
    BitComplement(8, 7);
    PrimitiveValues(8);
  }
}
