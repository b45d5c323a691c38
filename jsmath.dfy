/** Arithmetic of the JavaScript `Math` object and of JavaScript's numeric
    operators, over exact reals.  JavaScript numbers are IEEE doubles; this
    model computes on mathematical reals and integers instead. */
module JsMath {

  /** `Math.round`: the nearest integer, with halves rounded up. */
  function Round(x: real): (n: int)
    ensures n as real - 0.5 <= x < n as real + 0.5
  {
    (x + 0.5).Floor
  }

  lemma RoundOfInteger(n: int)
    ensures Round(n as real) == n
  {
  }

  /** `Math.round` is monotone. */
  lemma RoundMonotone(x: real, y: real)
    requires x <= y
    ensures Round(x) <= Round(y)
  {
  }

  /** Truncation toward zero, as `~~x` does for numbers that fit in 32 bits. */
  function Trunc(x: real): (n: int)
    ensures 0.0 <= x ==> n == x.Floor
    ensures x < 0.0 ==> x <= n as real <= 0.0 && n as real < x + 1.0
  {
    if x >= 0.0 then x.Floor else -((-x).Floor)
  }

  /** JavaScript's `a % b` on integers with a positive divisor: the result
      takes the sign of the dividend (Dafny's own `%` is Euclidean). */
  function RemInt(a: int, b: int): (r: int)
    requires b > 0
    ensures 0 <= a ==> r == a % b
    ensures a < 0 ==> -b < r <= 0
  {
    if a >= 0 then a % b else -((-a) % b)
  }

  /** JavaScript's `a % b` on numbers with a positive divisor:
      `a - b * trunc(a / b)`. */
  function RemReal(a: real, b: real): (r: real)
    requires b > 0.0
    ensures 0.0 <= a ==> 0.0 <= r < b
  {
    if 0.0 <= a then ScaledFloorBounds(a, b); a - b * Trunc(a / b) as real
    else a - b * Trunc(a / b) as real
  }

  /** `b * floor(a / b)` lies in `(a - b, a]` for a positive `b`. */
  lemma ScaledFloorBounds(a: real, b: real)
    requires b > 0.0
    ensures b * (a / b).Floor as real <= a < b * (a / b).Floor as real + b
  {
    var q := a / b;
    var n := q.Floor as real;
    var m := n + 1.0;
    assert q * b == a;
    assert n <= q < m;
    MulLe(n, q, b);
    MulLt(q, m, b);
    assert a < m * b;
    assert m * b == n * b + b;
    assert a < n * b + b;
  }

  lemma MulLe(x: real, y: real, c: real)
    requires x <= y && 0.0 <= c
    ensures x * c <= y * c
  {
  }

  lemma DivideProduct(x: real, d: real, y: real)
    requires d != 0.0 && x * d == y
    ensures y / d == x
  {
  }

  lemma MulLt(x: real, y: real, c: real)
    requires x < y && 0.0 < c
    ensures x * c < y * c
  {
  }

  function Abs(x: real): (r: real)
    ensures 0.0 <= r && (r == x || r == -x)
  {
    if x < 0.0 then -x else x
  }

  /** `Math.min(x, y)` */
  function Min(x: real, y: real): (r: real)
    ensures r <= x && r <= y && (r == x || r == y)
  {
    if x <= y then x else y
  }

  /** `Math.max(x, y)` */
  function Max(x: real, y: real): (r: real)
    ensures x <= r && y <= r && (r == x || r == y)
  {
    if x >= y then x else y
  }

  /** `Math.min(x, y, z)` */
  function Min3(x: real, y: real, z: real): (r: real)
    ensures r <= x && r <= y && r <= z && (r == x || r == y || r == z)
  {
    Min(Min(x, y), z)
  }

  /** `Math.max(x, y, z)` */
  function Max3(x: real, y: real, z: real): (r: real)
    ensures x <= r && y <= r && z <= r && (r == x || r == y || r == z)
  {
    Max(Max(x, y), z)
  }

  /** Division where JavaScript would produce NaN or an infinity for a zero
      divisor; the model yields 0 there (what the source's `|| 0` guards
      turn 0/0 into). */
  function Quotient(n: real, d: real): (q: real)
    ensures d != 0.0 ==> q * d == n
    ensures d == 0.0 ==> q == 0.0
  {
    if d == 0.0 then 0.0 else n / d
  }

  /** `Math.pow(10, d)` for a natural exponent. */
  function Pow10(d: nat): (p: nat)
    ensures p >= 1
  {
    if d == 0 then 1 else 10 * Pow10(d - 1)
  }

  /** A number with no fractional part. */
  predicate IsInteger(x: real) {
    x == x.Floor as real
  }

  /** Equal numbers are integers together.  (The solver does not carry an
      equality found late through `Floor` on its own.) */
  lemma SameInteger(x: real, y: real)
    requires x == y && IsInteger(y)
    ensures IsInteger(x)
  {
  }
}
