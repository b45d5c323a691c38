/** `clamp(value, min, max)`: the upper bound is tested first, then the lower. */
module ClampUtil {

  function Clamp(value: real, min: real, max: real): (r: real)
    ensures value > max ==> r == max
    ensures value <= max && value < min ==> r == min
    ensures min <= value <= max ==> r == value
    ensures min <= max ==> min <= r <= max
  {
    if value > max then max else if value < min then min else value
  }

  /** Clamping twice to the same ordered bounds is clamping once. */
  lemma ClampIdempotent(value: real, min: real, max: real)
    requires min <= max
    ensures Clamp(Clamp(value, min, max), min, max) == Clamp(value, min, max)
  {
  }

  /** Clamping to ordered bounds preserves the order of values. */
  lemma ClampMonotone(x: real, y: real, min: real, max: real)
    requires min <= max && x <= y
    ensures Clamp(x, min, max) <= Clamp(y, min, max)
  {
  }

  /** With crossed bounds the upper test wins above `max`, the lower one
      below `min`: the result need not lie between them. */
  lemma ClampCrossedBounds(value: real, min: real, max: real)
    requires max < min
    ensures value > max ==> Clamp(value, min, max) == max
    ensures value <= max ==> Clamp(value, min, max) == min
  {
  }
}
