/** `float(value, decimalPlaces)`: rounding to a number of decimal places
    by scaling with a power of ten, `Math.round`, and scaling back. */
module FloatUtil {
  import opened JsMath

  /** The rounding error is at most half a unit in the last place kept. */
  function Float(value: real, decimalPlaces: nat): (r: real)
    ensures Abs(r - value) <= 1.0 / (2.0 * Pow10(decimalPlaces) as real)
  {
    StepError(value, Pow10(decimalPlaces) as real);
    RoundToStep(value, Pow10(decimalPlaces) as real)
  }

  /** `Math.round(value * scale) / scale`, the arithmetic of `float` for a
      given scale factor. */
  function RoundToStep(value: real, scale: real): (r: real)
    requires scale >= 1.0
    ensures r * scale == Round(value * scale) as real
  {
    Round(value * scale) as real / scale
  }

  /** The rounded value times `10^d` is an integer. */
  lemma FloatScaledIsInteger(value: real, d: nat)
    ensures IsInteger(Float(value, d) * Pow10(d) as real)
  {
    ScaledAt(value, Pow10(d) as real, Float(value, d));
  }

  lemma ScaledAt(value: real, p: real, x: real)
    requires p >= 1.0 && x == RoundToStep(value, p)
    ensures IsInteger(x * p)
  {
    StepScaledIsInteger(value, p);
    SameInteger(x * p, RoundToStep(value, p) * p);
  }

  lemma StepScaledIsInteger(value: real, p: real)
    requires p >= 1.0
    ensures IsInteger(RoundToStep(value, p) * p)
  {
  }

  lemma StepError(value: real, p: real)
    requires p >= 1.0
    ensures Abs(RoundToStep(value, p) - value) <= 1.0 / (2.0 * p)
  {
    var x := value * p;
    var n := Round(x) as real;
    var err := RoundToStep(value, p) - value;
    assert err * p == n - x;
    assert -0.5 <= err * p <= 0.5;
    var bound := 1.0 / (2.0 * p);
    assert bound * p == 0.5;
    if err > bound {
      MulLt(bound, err, p);
    } else if -err > bound {
      MulLt(bound, -err, p);
    }
  }

  /** Rounding a rounded value again changes nothing. */
  lemma FloatIdempotent(value: real, d: nat)
    ensures Float(Float(value, d), d) == Float(value, d)
  {
    StepIdempotent(value, Pow10(d) as real);
  }

  lemma StepIdempotent(value: real, p: real)
    requires p >= 1.0
    ensures RoundToStep(RoundToStep(value, p), p) == RoundToStep(value, p)
  {
    var n := Round(value * p);
    RoundOfInteger(n);
  }

  /** Three decimal places: the result is below 1 exactly when the value is
      below 0.9995, so 0.9996 rounds to 1. */
  lemma FloatBelowOne(value: real)
    ensures Float(value, 3) < 1.0 <==> value < 0.9995
  {
    assert Pow10(3) == 1000;
    var n := Round(value * 1000.0);
    assert Float(value, 3) == RoundToStep(value, 1000.0);
    assert Float(value, 3) * 1000.0 == n as real;
  }
}
