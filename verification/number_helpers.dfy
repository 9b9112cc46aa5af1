/** The clamped range normalisers of Runtime/NumberHelpers.cs, over exact
    reals instead of IEEE single-precision floats. */
module NumberHelpers {

  /** `IntToNormalizedFloat(value, minValue, maxValue)`: 0 at or below the
      minimum, 1 at or above the maximum, the linear position in between. */
  function IntToNormalizedFloat(value: int, minValue: int, maxValue: int): (r: real)
    ensures value <= minValue ==> r == 0.0
    ensures minValue < value && maxValue <= value ==> r == 1.0
    ensures minValue < value < maxValue ==>
      0.0 < r < 1.0 && r * ((maxValue - minValue) as real) == (value - minValue) as real
  {
    if value <= minValue then 0.0
    else if value >= maxValue then 1.0
    else ((value - minValue) as real) / ((maxValue - minValue) as real)
  }

  /** `UIntToNormalizedFloat`: the same clamped normalisation on unsigned operands. */
  function UIntToNormalizedFloat(value: nat, minValue: nat, maxValue: nat): (r: real)
    ensures value <= minValue ==> r == 0.0
    ensures minValue < value && maxValue <= value ==> r == 1.0
    ensures minValue < value < maxValue ==>
      0.0 < r < 1.0 && r * ((maxValue - minValue) as real) == (value - minValue) as real
  {
    if value <= minValue then 0.0
    else if value >= maxValue then 1.0
    else ((value - minValue) as real) / ((maxValue - minValue) as real)
  }

  /** Every result lies in [0, 1], whatever the bounds, and the two guards
      leave the division only to ranges with maxValue > minValue. */
  lemma NormalizedInUnitInterval(value: int, minValue: int, maxValue: int)
    ensures 0.0 <= IntToNormalizedFloat(value, minValue, maxValue) <= 1.0
    ensures maxValue <= minValue ==> IntToNormalizedFloat(value, minValue, maxValue) in {0.0, 1.0}
  {
  }

  /** For fixed bounds the normalised value never decreases as the value grows. */
  lemma IntToNormalizedMonotone(a: int, b: int, minValue: int, maxValue: int)
    requires a <= b
    ensures IntToNormalizedFloat(a, minValue, maxValue) <= IntToNormalizedFloat(b, minValue, maxValue)
  {
    if minValue < a && b < maxValue {
      var d := (maxValue - minValue) as real;
      var ra := IntToNormalizedFloat(a, minValue, maxValue);
      var rb := IntToNormalizedFloat(b, minValue, maxValue);
      assert (rb - ra) * d == (b - a) as real;
      assert (b - a) as real >= 0.0 && d > 0.0;
      NonNegativeFactor(rb - ra, d);
    }
  }

  lemma NonNegativeFactor(x: real, d: real)
    requires d > 0.0 && x * d >= 0.0
    ensures x >= 0.0
  {
    assert x == (x * d) / d;
  }

  /** The unsigned normaliser agrees with the signed one on non-negative operands. */
  lemma UIntAgreesWithInt(value: nat, minValue: nat, maxValue: nat)
    ensures UIntToNormalizedFloat(value, minValue, maxValue) == IntToNormalizedFloat(value, minValue, maxValue)
  {
  }
}
