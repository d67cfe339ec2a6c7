/** The multiplying converter of a coefficient: the word it gets for a factor.

    Zero is 8192, the factor one lies 7447 steps above it, and words end at 0 and 16383. */
module Converter {
  const RAW_MIN: nat := 0
  const RAW_ZERO: nat := 8192
  const RAW_MAX: nat := 16383
  const RAW_DELTA_ONE: nat := 7447
  const MIN_FACTOR: real := -1.1
  const MAX_FACTOR: real := 1.1

  function FloatToRaw(scale: real): (raw: nat)
    ensures RAW_MIN <= raw <= RAW_MAX
  {
    if scale <= MIN_FACTOR then RAW_MIN
    else if scale >= MAX_FACTOR then RAW_MAX
    else (scale * RAW_DELTA_ONE as real + RAW_ZERO as real).Floor // truncation; the sum is positive
  }

  function RawToFloat(raw: nat): real {
    (raw as real - RAW_ZERO as real) / RAW_DELTA_ONE as real
  }

  predicate WithinOneStep(x: real, y: real) {
    -1.0 < (x - y) * RAW_DELTA_ONE as real < 1.0
  }

  /** No word is lost: each is what its own factor converts to. */
  lemma RawRoundTrip(raw: nat)
    requires raw <= RAW_MAX
    ensures FloatToRaw(RawToFloat(raw)) == raw
  {
    assert RawToFloat(raw) * RAW_DELTA_ONE as real == raw as real - RAW_ZERO as real;
  }

  /** A factor comes back within one step if and only if the clamp does not take it further. */
  lemma ConvertsExactly(scale: real)
    ensures WithinOneStep(RawToFloat(FloatToRaw(scale)), scale) <==>
            -(RAW_ZERO as real) - 1.0 < scale * RAW_DELTA_ONE as real < RAW_ZERO as real
  {
    var raw := FloatToRaw(scale);
    assert RawToFloat(raw) * RAW_DELTA_ONE as real == raw as real - RAW_ZERO as real;
  }

  /** The words of some factors: one, zero, minus one and what lies beyond the range. */
  lemma OneAndZero(beyond: real)
    ensures FloatToRaw(1.0) == RAW_ZERO + RAW_DELTA_ONE == 15639 && FloatToRaw(0.0) == RAW_ZERO == 8192
    ensures FloatToRaw(-1.0) == 745
    ensures (beyond >= 1.1 ==> FloatToRaw(beyond) == 16383) && (beyond <= -1.1 ==> FloatToRaw(beyond) == 0)
  {
  }
}
