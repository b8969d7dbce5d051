/** The range builders of `mask::detail` (mask.h:38-62).

    Each builder starts from a one-bit word and widens its run of set bits by
    one position per loop iteration with `value |= value << 1` or
    `value |= value >> 1`; every shift is by exactly one bit, so none reaches
    the width W.
 */
module MaskDetail {
  import opened Words

  /** One iteration of make_up_to: `value |= value << 1` turns bits 0..i into bits 0..i+1. */
  lemma UpStep(W: nat, i: nat)
    requires IsWidth(W)
    ensures Or(Span(W, 0, i), ShlBy(Span(W, 0, i), 1)) == Span(W, 0, i + 1)
  {
    var v := Span(W, 0, i);
    var s := Or(v, ShlBy(v, 1));
    forall j | 0 <= j < W
      ensures s[j] == Span(W, 0, i + 1)[j]
    {
      if j > 0 {
        assert ShlBy(v, 1)[j] == v[j - 1];
      }
    }
  }

  /** One iteration of make_down_to: `value |= value >> 1` turns bits lo..W-1 into bits lo-1..W-1. */
  lemma DownStep(W: nat, lo: nat)
    requires IsWidth(W) && 0 < lo < W
    ensures Or(Span(W, lo, W - 1), ShrBy(Span(W, lo, W - 1), 1)) == Span(W, lo - 1, W - 1)
  {
    var v := Span(W, lo, W - 1);
    var s := Or(v, ShrBy(v, 1));
    forall j | 0 <= j < W
      ensures s[j] == Span(W, lo - 1, W - 1)[j]
    {
      if j + 1 < W {
        assert ShrBy(v, 1)[j] == v[j + 1];
      }
    }
  }

  /** `detail::make_up_to<T>(bit)`: bits 0..bit are set. The source puts no bound on
      bit; once the run reaches the top bit, further iterations change nothing, so
      for bit >= W - 1 the result is the all-ones word. */
  method MakeUpTo(W: nat, bit: nat) returns (value: Word)
    requires IsWidth(W)
    ensures value == Span(W, 0, bit)
    ensures bit >= W - 1 ==> value == Ones(W)
  {
    value := One(W);
    var i := 0;
    while i < bit
      invariant 0 <= i <= bit
      invariant value == Span(W, 0, i)
    {
      UpStep(W, i);
      value := Or(value, ShlBy(value, 1));
      i := i + 1;
    }
  }

  /** `detail::make_down_to<T>(bit)`: bits bit..W-1 are set, after (W-1) - bit iterations. */
  method MakeDownTo(W: nat, bit: nat) returns (value: Word)
    requires IsWidth(W) && bit < W
    ensures value == Span(W, bit, W - 1)
  {
    value := ShlBy(One(W), W - 1);
    var count := (W - 1) - bit;
    var i := 0;
    while i < count
      invariant 0 <= i <= count
      invariant value == Span(W, W - 1 - i, W - 1)
    {
      DownStep(W, W - 1 - i);
      value := Or(value, ShrBy(value, 1));
      i := i + 1;
    }
  }

  /** `make_up_to(hi) & make_down_to(lo)` keeps exactly the bits lo..hi. */
  lemma SpanIntersect(W: nat, lo: nat, hi: nat)
    requires W >= 1
    ensures And(Span(W, 0, hi), Span(W, lo, W - 1)) == Span(W, lo, hi)
  {
  }

  /** `detail::make_from_to<T>(n1, n2)`: bits n1..n2 are set (none when n1 > n2). */
  method MakeFromTo(W: nat, n1: nat, n2: nat) returns (value: Word)
    requires IsWidth(W) && n1 < W
    ensures value == Span(W, n1, n2)
  {
    var up := MakeUpTo(W, n2);
    var down := MakeDownTo(W, n1);
    SpanIntersect(W, n1, n2);
    value := And(up, down);
  }
}
