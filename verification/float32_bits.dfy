/**
 * IEEE-754 single-precision values, treated as opaque 32-bit words.
 *
 * The model never does floating-point arithmetic. The only place it needs to
 * know what a bit pattern means is the map generator, which converts a small
 * non-negative integer to float32; below 2^24 that conversion is exact, and
 * `OfInt` spells it out: sign bit 0, biased exponent 127 + e in bits 23..30,
 * and the significand without its leading one in bits 0..22. `ToInt` reads
 * such a pattern back.
 */
module Float32Bits {
  import opened Wrappers
  import opened Words

  /** A float32 value, as its bit pattern. */
  type Float32 = Word

  /** Every integer in [0, MaxExact) is exactly representable as a float32. */
  const MaxExact: nat := 0x100_0000

  /** 2^23: the implicit leading one of a normal significand, and one unit of the exponent field. */
  const FractionUnit: nat := 0x80_0000

  /** Largest unbiased exponent of an integer below MaxExact. */
  const TopExponent: nat := 23

  const Bias: nat := 127

  function Pow2(n: nat): (r: nat)
    ensures r >= 1
  {
    if n == 0 then 1 else 2 * Pow2(n - 1)
  }

  lemma Pow2Top()
    ensures Pow2(TopExponent) == FractionUnit
  {
    assert Pow2(4) == 16;
    assert Pow2(8) == 256;
    assert Pow2(12) == 4096;
    assert Pow2(16) == 65536;
    assert Pow2(20) == 1048576;
  }

  /**
   * The value m * 2^(e - 23) with the significand `m` doubled (and the
   * exponent lowered) until its leading one sits in bit 23.
   * The bound Pow2(23 - e) <= m records that at most e doublings remain.
   */
  function Normalize(m: nat, e: nat): (r: (nat, nat))
    requires e <= TopExponent && Pow2(TopExponent - e) <= m < MaxExact
    ensures FractionUnit <= r.0 < MaxExact && r.1 <= e
    decreases MaxExact - m
  {
    if m >= FractionUnit then (m, e)
    else
      Pow2Top();
      if e == 0 then
        (m, e)  // not reached: Pow2(23) <= m < 2^23 is impossible
      else
        Normalize(2 * m, e - 1)
  }

  /** The integer m * 2^(e - 23), when it is one; None when shifting right drops a set bit. */
  function Denormalize(m: nat, e: nat): (r: Option<nat>)
    requires e <= TopExponent
    ensures r.Some? ==> r.value <= m
    decreases TopExponent - e
  {
    if e == TopExponent then Some(m)
    else if m % 2 == 0 then Denormalize(m / 2, e + 1)
    else None
  }

  lemma {:induction false} DenormalizeNormalize(m: nat, e: nat)
    requires e <= TopExponent && Pow2(TopExponent - e) <= m < MaxExact
    ensures Denormalize(Normalize(m, e).0, Normalize(m, e).1) == Denormalize(m, e)
    decreases MaxExact - m
  {
    if m < FractionUnit {
      Pow2Top();
      if e > 0 {
        DenormalizeNormalize(2 * m, e - 1);
        assert (2 * m) % 2 == 0 && (2 * m) / 2 == m;
        assert Denormalize(2 * m, e - 1) == Denormalize(m, e);
      }
    }
  }

  /** Quotient and remainder by 2^23 are unique. */
  lemma FieldsUnique(u: int, q: int, r: int)
    requires 0 <= r < FractionUnit && u == q * FractionUnit + r
    ensures u / FractionUnit == q && u % FractionUnit == r
  {
  }

  /** The float32 bit pattern of the exact integer `n` (Go's `float32(n)`). */
  function OfInt(n: nat): (b: Float32)
    requires n < MaxExact
    ensures ToInt(b) == Some(n)
  {
    if n == 0 then 0
    else
      var (m, e) := Normalize(n, TopExponent);
      var u := (Bias + e) * FractionUnit + (m - FractionUnit);
      FieldsUnique(u, Bias + e, m - FractionUnit);
      DenormalizeNormalize(n, TopExponent);
      u as Word
  }

  /**
   * The integer a float32 bit pattern denotes, when it is a non-negative
   * integer below 2^24; None for every other pattern (negative values,
   * fractions, large magnitudes, infinities, NaNs).
   */
  function ToInt(b: Float32): (r: Option<nat>)
    ensures r.Some? ==> r.value < MaxExact
  {
    var u := b as int;
    if u == 0 then Some(0)
    else
      var exponent := u / FractionUnit;
      if Bias <= exponent <= Bias + TopExponent then
        Denormalize(FractionUnit + u % FractionUnit, exponent - Bias)
      else None
  }

  /** Two integers convert to the same float32 only when they are equal. */
  lemma OfIntInjective(m: nat, n: nat)
    requires m < MaxExact && n < MaxExact
    requires OfInt(m) == OfInt(n)
    ensures m == n
  {
  }

  /** Sample conversions, matching the IEEE-754 single format: 2^22 and 1.5 * 2^22. */
  lemma OfIntSamples()
    ensures OfInt(0) == 0
    ensures OfInt(0x40_0000) == 0x4A80_0000
    ensures OfInt(0x60_0000) == 0x4AC0_0000
  {
    Pow2Top();
    assert Normalize(0x40_0000, TopExponent) == (FractionUnit, 22);
    assert Normalize(0x60_0000, TopExponent) == (0xC0_0000, 22);
  }
}
