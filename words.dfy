/** A fixed-width unsigned word and the C operators that mask.h applies to it.

    A word of width W is a sequence of W booleans, least significant bit first:
    w[i] is bit i. `Value` reads a word as the number it denotes, and the lemmas
    at the end of this module show that the bit-level operators agree with the
    arithmetic the C language defines for unsigned types (shifts truncate
    modulo 2^W, `~` is 2^W - 1 - v).
 */
module Words {

  /** The width of an unsigned integral type T: W = sizeof(T) * 8. */
  predicate IsWidth(W: nat) {
    W >= 8 && W % 8 == 0
  }

  /** A word, least significant bit first. */
  type Word = seq<bool>

  function Pow2(n: nat): (r: nat)
    ensures r >= 1
  {
    if n == 0 then 1 else 2 * Pow2(n - 1)
  }

  function BitValue(b: bool): nat {
    if b then 1 else 0
  }

  /** The unsigned number a word denotes. */
  function Value(w: Word): nat {
    if |w| == 0 then 0 else BitValue(w[0]) + 2 * Value(w[1..])
  }

  /** The number of set bits of a word. */
  function PopCount(w: Word): nat {
    if |w| == 0 then 0 else BitValue(w[0]) + PopCount(w[1..])
  }

  function Zeros(n: nat): Word {
    seq(n, _ => false)
  }

  function Ones(n: nat): Word {
    seq(n, _ => true)
  }

  /** The literal 0 converted to T. */
  function Zero(W: nat): Word {
    Zeros(W)
  }

  /** The literal 1 converted to T. */
  function One(W: nat): Word
    requires W >= 1
  {
    [true] + Zeros(W - 1)
  }

  /** The word whose bits lo..hi (inclusive) are set and whose other bits are clear. */
  function Span(W: nat, lo: nat, hi: nat): Word {
    seq(W, i => lo <= i <= hi)
  }

  /** Bitwise `~`. */
  function Not(a: Word): Word {
    seq(|a|, i requires 0 <= i < |a| => !a[i])
  }

  /** Bitwise `&`. */
  function And(a: Word, b: Word): Word
    requires |a| == |b|
  {
    seq(|a|, i requires 0 <= i < |a| => a[i] && b[i])
  }

  /** Bitwise `|`. */
  function Or(a: Word, b: Word): Word
    requires |a| == |b|
  {
    seq(|a|, i requires 0 <= i < |a| => a[i] || b[i])
  }

  /** Bitwise `^`. */
  function Xor(a: Word, b: Word): Word
    requires |a| == |b|
  {
    seq(|a|, i requires 0 <= i < |a| => a[i] != b[i])
  }

  /** `a << k`, truncated to the width of a. C defines the shift only for k < W. */
  function ShlBy(a: Word, k: nat): Word
    requires k < |a|
  {
    seq(|a|, i requires 0 <= i < |a| => k <= i && a[i - k])
  }

  /** `a >> k` on an unsigned word (zeros shifted in). C defines the shift only for k < W. */
  function ShrBy(a: Word, k: nat): Word
    requires k < |a|
  {
    seq(|a|, i requires 0 <= i < |a| => i + k < |a| && a[i + k])
  }

  // ---------------------------------------------------------------------------
  // Arithmetic facts

  lemma {:induction false} Pow2Add(a: nat, b: nat)
    ensures Pow2(a + b) == Pow2(a) * Pow2(b)
    decreases a
  {
    if a > 0 {
      Pow2Add(a - 1, b);
      MulAssoc(2, Pow2(a - 1), Pow2(b));
    }
  }

  lemma MulDistrib(c: int, x: int, y: int)
    ensures c * (x + y) == c * x + c * y
  {
  }

  lemma MulAssoc(x: int, y: int, z: int)
    ensures (x * y) * z == x * (y * z)
  {
  }

  lemma {:induction false} MulAtLeast(c: nat, k: nat)
    requires k >= 1
    ensures c * k >= c
    decreases k
  {
    if k > 1 {
      MulAtLeast(c, k - 1);
      MulDistrib(c, k - 1, 1);
    }
  }

  lemma MulStrictMono(c: nat, a: nat, b: nat)
    requires c > 0 && a < b
    ensures c * a < c * b
  {
    MulDistrib(c, a, b - a);
    MulAtLeast(c, b - a);
  }

  /** Division by m of a number split as a + m * b with a < m. */
  lemma DivModSplit(a: nat, b: nat, m: nat)
    requires 0 < m && a < m
    ensures (a + m * b) / m == b && (a + m * b) % m == a
  {
    var x := a + m * b;
    var q, r := x / m, x % m;
    assert x == m * q + r && 0 <= r < m;
    if q > b {
      MulDistrib(m, b, q - b);
      MulAtLeast(m, q - b);
      assert false;
    } else if q < b {
      MulDistrib(m, q, b - q);
      MulAtLeast(m, b - q);
      assert false;
    }
  }

  // ---------------------------------------------------------------------------
  // Value and PopCount of composite words

  lemma {:induction false} ValueConcat(a: Word, b: Word)
    ensures Value(a + b) == Value(a) + Pow2(|a|) * Value(b)
    decreases |a|
  {
    if |a| == 0 {
      assert a + b == b;
    } else {
      assert (a + b)[1..] == a[1..] + b;
      ValueConcat(a[1..], b);
      MulAssoc(2, Pow2(|a| - 1), Value(b));
    }
  }

  lemma {:induction false} PopCountConcat(a: Word, b: Word)
    ensures PopCount(a + b) == PopCount(a) + PopCount(b)
    decreases |a|
  {
    if |a| == 0 {
      assert a + b == b;
    } else {
      assert (a + b)[1..] == a[1..] + b;
      PopCountConcat(a[1..], b);
    }
  }

  /** Every word of width W denotes a number below 2^W. */
  lemma {:induction false} ValueBound(w: Word)
    ensures Value(w) < Pow2(|w|)
    decreases |w|
  {
    if |w| > 0 {
      ValueBound(w[1..]);
    }
  }

  lemma {:induction false} ZerosFacts(n: nat)
    ensures Value(Zeros(n)) == 0 && PopCount(Zeros(n)) == 0
    decreases n
  {
    if n > 0 {
      assert Zeros(n)[1..] == Zeros(n - 1);
      ZerosFacts(n - 1);
    }
  }

  lemma {:induction false} OnesFacts(n: nat)
    ensures Value(Ones(n)) == Pow2(n) - 1 && PopCount(Ones(n)) == n
    decreases n
  {
    if n > 0 {
      assert Ones(n)[1..] == Ones(n - 1);
      OnesFacts(n - 1);
    }
  }

  /** The literals 0 and 1 of T denote 0 and 1. */
  lemma LiteralValues(W: nat)
    requires W >= 1
    ensures Value(Zero(W)) == 0 && PopCount(Zero(W)) == 0
    ensures Value(One(W)) == 1 && PopCount(One(W)) == 1
  {
    ZerosFacts(W);
    ZerosFacts(W - 1);
    assert One(W)[1..] == Zeros(W - 1);
  }

  /** A span lo..hi is the concatenation zeros, ones, zeros. */
  lemma SpanSplit(W: nat, lo: nat, hi: nat)
    requires lo <= hi < W
    ensures Span(W, lo, hi) == Zeros(lo) + (Ones(hi + 1 - lo) + Zeros(W - 1 - hi))
  {
    var s := Zeros(lo) + (Ones(hi + 1 - lo) + Zeros(W - 1 - hi));
    assert |s| == W;
    forall i | 0 <= i < W
      ensures s[i] == Span(W, lo, hi)[i]
    {
      if i < lo {
        assert s[i] == Zeros(lo)[i];
      } else {
        assert s[i] == (Ones(hi + 1 - lo) + Zeros(W - 1 - hi))[i - lo];
      }
    }
  }

  /** Bits lo..hi set denote 2^(hi+1) - 2^lo, with hi - lo + 1 bits set. */
  lemma SpanFacts(W: nat, lo: nat, hi: nat)
    requires lo <= hi < W
    ensures Value(Span(W, lo, hi)) == Pow2(hi + 1) - Pow2(lo)
    ensures PopCount(Span(W, lo, hi)) == hi - lo + 1
  {
    SpanValue(W, lo, hi);
    SpanPopCount(W, lo, hi);
  }

  lemma SpanValue(W: nat, lo: nat, hi: nat)
    requires lo <= hi < W
    ensures Value(Span(W, lo, hi)) == Pow2(hi + 1) - Pow2(lo)
  {
    var m := hi + 1 - lo;
    var tail := Ones(m) + Zeros(W - 1 - hi);
    SpanSplit(W, lo, hi);
    ValueConcat(Ones(m), Zeros(W - 1 - hi));
    ZerosFacts(W - 1 - hi);
    OnesFacts(m);
    assert Value(tail) == Pow2(m) - 1;
    ValueConcat(Zeros(lo), tail);
    ZerosFacts(lo);
    assert Value(Span(W, lo, hi)) == Pow2(lo) * (Pow2(m) - 1);
    MulDistrib(Pow2(lo), Pow2(m), -1);
    Pow2Add(lo, m);
  }

  lemma SpanPopCount(W: nat, lo: nat, hi: nat)
    requires lo <= hi < W
    ensures PopCount(Span(W, lo, hi)) == hi - lo + 1
  {
    var m := hi + 1 - lo;
    SpanSplit(W, lo, hi);
    PopCountConcat(Zeros(lo), Ones(m) + Zeros(W - 1 - hi));
    PopCountConcat(Ones(m), Zeros(W - 1 - hi));
    ZerosFacts(lo);
    ZerosFacts(W - 1 - hi);
    OnesFacts(m);
  }

  // ---------------------------------------------------------------------------
  // The bit-level operators agree with C's arithmetic on unsigned T

  lemma ShlSplit(a: Word, k: nat)
    requires k < |a|
    ensures ShlBy(a, k) == Zeros(k) + a[..|a| - k]
  {
  }

  /** ((lo + p * hi) * q) % (p * q) == q * lo whenever lo < p. */
  lemma ShiftedMod(lo: nat, hi: nat, p: nat, q: nat)
    requires lo < p && q > 0
    ensures ((lo + p * hi) * q) % (p * q) == q * lo
  {
    MulStrictMono(q, lo, p);
    calc {
      (lo + p * hi) * q;
      { MulDistrib(q, lo, p * hi); }
      q * lo + (p * hi) * q;
      { MulAssoc(p, hi, q); MulAssoc(p, q, hi); }
      q * lo + (p * q) * hi;
    }
    DivModSplit(q * lo, hi, p * q);
  }

  /** Cutting a word at bit m splits its value into a low and a high part. */
  lemma ValueCut(a: Word, m: nat)
    requires m <= |a|
    ensures Value(a) == Value(a[..m]) + Pow2(m) * Value(a[m..])
  {
    assert a == a[..m] + a[m..];
    ValueConcat(a[..m], a[m..]);
  }

  lemma ValueShlLow(a: Word, k: nat)
    requires k < |a|
    ensures Value(ShlBy(a, k)) == Pow2(k) * Value(a[..|a| - k])
  {
    ShlSplit(a, k);
    ValueConcat(Zeros(k), a[..|a| - k]);
    ZerosFacts(k);
  }

  /** `a << k` denotes a * 2^k reduced modulo 2^W: the high bits fall off. */
  lemma ValueShl(a: Word, k: nat)
    requires k < |a|
    ensures Value(ShlBy(a, k)) == (Value(a) * Pow2(k)) % Pow2(|a|)
  {
    var W := |a|;
    ValueCut(a, W - k);
    ValueShlLow(a, k);
    Pow2Add(W - k, k);
    ValueBound(a[..W - k]);
    ShiftedMod(Value(a[..W - k]), Value(a[W - k..]), Pow2(W - k), Pow2(k));
  }

  /** `a >> k` denotes a / 2^k. */
  lemma ValueShr(a: Word, k: nat)
    requires k < |a|
    ensures Value(ShrBy(a, k)) == Value(a) / Pow2(k)
  {
    var low, high := a[..k], a[k..];
    ValueCut(a, k);
    ValueBound(low);
    DivModSplit(Value(low), Value(high), Pow2(k));
    assert ShrBy(a, k) == high + Zeros(k);
    ValueConcat(high, Zeros(k));
    ZerosFacts(k);
  }

  /** `~a` denotes 2^W - 1 - a. */
  lemma {:induction false} ValueNot(a: Word)
    ensures Value(Not(a)) == Pow2(|a|) - 1 - Value(a)
    decreases |a|
  {
    if |a| > 0 {
      assert Not(a)[1..] == Not(a[1..]);
      ValueNot(a[1..]);
    }
  }

  /** `~a` has exactly the bits set that a has clear. */
  lemma {:induction false} PopCountNot(a: Word)
    ensures PopCount(Not(a)) == |a| - PopCount(a)
    decreases |a|
  {
    if |a| > 0 {
      assert Not(a)[1..] == Not(a[1..]);
      PopCountNot(a[1..]);
      PopCountBound(a[1..]);
    }
  }

  lemma {:induction false} PopCountBound(a: Word)
    ensures PopCount(a) <= |a|
    decreases |a|
  {
    if |a| > 0 {
      PopCountBound(a[1..]);
    }
  }
}
