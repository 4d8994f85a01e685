/**
 * Wrapping a value into the half-open range (min, max] by whole multiples of its width,
 * and the angle wrap into (-pi, pi] built on it. Java's `(int)` cast of a double is
 * written out: truncation toward zero, saturated at the 32-bit bounds.
 */
module Utils {
  const MinInt: int := -0x8000_0000
  const MaxInt: int := 0x7fff_ffff

  /** The decimal literal of Java's `Math.PI` (the double itself differs from it by about 1.2e-16). */
  const Pi: real := 3.141592653589793

  /** Truncation toward zero. */
  function Trunc(v: real): (t: int)
    ensures v >= 0.0 ==> t as real <= v < t as real + 1.0
    ensures v <= 0.0 ==> t as real - 1.0 < v <= t as real
  {
    if v >= 0.0 then v.Floor else -((-v).Floor)
  }

  /** Java's `(int)` cast of a double: truncation, saturated to the 32-bit range. */
  function IntCast(v: real): (n: int)
    ensures MinInt <= n <= MaxInt
    ensures MinInt as real - 1.0 < v < MaxInt as real + 1.0 ==> n == Trunc(v)
  {
    var t := Trunc(v);
    if t > MaxInt then MaxInt else if t < MinInt then MinInt else t
  }

  /** The first cast, of (input - min) / (max - min), does not saturate. */
  predicate CastFits(input: real, min: real, max: real)
    requires max != min
  {
    MinInt as real - 1.0 < (input - min) / (max - min) < MaxInt as real + 1.0
  }

  /** A real that is a whole number. */
  predicate IsWhole(v: real)
  {
    v.Floor as real == v
  }

  /** Where v lies in the range, measured in widths of the range from min. */
  function Position(v: real, min: real, max: real): real
    requires max != min
  {
    (v - min) / (max - min)
  }

  /** v less n widths of the range. */
  function Shift(v: real, n: int, min: real, max: real): real
  {
    v - n as real * (max - min)
  }

  /**
   * The value shifted by whole widths of the range into (min, max]: first down by the
   * truncated position above min, then up by the truncated position below max. With an
   * empty range the quotients are infinite or undefined in Java, but every shift is then
   * a multiple of zero, so the input comes back unchanged.
   */
  function ModBetween(input: real, min: real, max: real): (r: real)
    ensures max == min ==> r == input
    ensures exists n: int :: r == Shift(input, n, min, max)
  {
    if max - min == 0.0 then
      assert input == Shift(input, 0, min, max);
      input
    else
      var numMax := IntCast((input - min) / (max - min));
      var input' := Shift(input, numMax, min, max);
      var numMin := IntCast((input' - max) / (max - min));
      ShiftsCompose(input, numMax, numMin, min, max);
      Shift(input', numMin, min, max)
  }

  /** A shift by j widths followed by one by k widths is a shift by j + k widths. */
  lemma ShiftsCompose(v: real, j: int, k: int, min: real, max: real)
    ensures Shift(Shift(v, j, min, max), k, min, max) == Shift(v, j + k, min, max)
  {
    var m := max - min;
    assert (j + k) as real * m == j as real * m + k as real * m;
  }

  function AngleModulusRadians(angle: real): (r: real)
    ensures r == ModBetween(angle, -Pi, Pi)
  {
    ModBetween(angle, -Pi, Pi)
  }

  lemma DivideCancels(k: real, m: real)
    requires m != 0.0
    ensures (k * m) / m == k && m / m == 1.0
  {
  }

  /** Shifting v by k widths moves its position by k; its position from max is one less than from min. */
  lemma ShiftedPosition(v: real, k: int, min: real, max: real)
    requires max != min
    ensures Position(Shift(v, k, min, max), min, max) == Position(v, min, max) - k as real
    ensures (v - max) / (max - min) == Position(v, min, max) - 1.0
  {
    var m := max - min;
    assert Shift(v, k, min, max) - min == (v - min) - k as real * m;
    DivideCancels(k as real, m);
    assert ((v - min) - k as real * m) / m == (v - min) / m - (k as real * m) / m;
    assert v - max == (v - min) - m;
    assert ((v - min) - m) / m == (v - min) / m - m / m;
  }

  /** Over a nonempty range, v lies in (min, max] exactly when its position lies in (0, 1]. */
  lemma PositionInRange(v: real, min: real, max: real)
    requires max > min
    ensures min < v <= max <==> 0.0 < Position(v, min, max) <= 1.0
  {
    var m := max - min;
    var t := Position(v, min, max);
    assert t * m == v - min;
    assert max - v == (1.0 - t) * m;
    SignOfProduct(t, m);
    SignOfProduct(1.0 - t, m);
  }

  /** With m positive, a product a * m has the sign of a. */
  lemma SignOfProduct(a: real, m: real)
    requires m > 0.0
    ensures a > 0.0 <==> a * m > 0.0
    ensures a >= 0.0 <==> a * m >= 0.0
  {
  }

  /** The result differs from the input by a whole number of range widths. */
  lemma ModBetweenShiftsByWholeWidths(input: real, min: real, max: real)
    ensures max != min ==> IsWhole((input - ModBetween(input, min, max)) / (max - min))
    ensures max == min ==> ModBetween(input, min, max) == input
  {
    if max != min {
      var numMax := IntCast((input - min) / (max - min));
      var input' := Shift(input, numMax, min, max);
      var numMin := IntCast((input' - max) / (max - min));
      ShiftsAdd(input, numMax, numMin, min, max);
      assert IsWhole((numMax + numMin) as real);
    }
  }

  /** Two shifts add up to a shift by the sum of their widths. */
  lemma ShiftsAdd(v: real, j: int, k: int, min: real, max: real)
    requires max != min
    ensures (v - Shift(Shift(v, j, min, max), k, min, max)) / (max - min) == (j + k) as real
  {
    var m := max - min;
    assert (j + k) as real == j as real + k as real;
    assert (j as real + k as real) * m == j as real * m + k as real * m;
    assert v - Shift(Shift(v, j, min, max), k, min, max) == (j + k) as real * m;
    DivideCancels((j + k) as real, m);
  }

  /** For a nonempty range, and an input the cast does not saturate on, the result lies in (min, max]. */
  lemma ModBetweenInRange(input: real, min: real, max: real)
    requires max > min && CastFits(input, min, max)
    ensures min < ModBetween(input, min, max) <= max
  {
    var m := max - min;
    var u := Position(input, min, max);
    var numMax := IntCast((input - min) / m);
    assert numMax == Trunc(u);
    var input' := Shift(input, numMax, min, max);
    ShiftedPosition(input, numMax, min, max);
    var u' := Position(input', min, max);
    assert u' == u - numMax as real;
    assert -1.0 < u' < 1.0;
    ShiftedPosition(input', 0, min, max);
    var w := (input' - max) / m;
    assert w == u' - 1.0;
    var numMin := IntCast(w);
    assert numMin == (if w > -1.0 then 0 else -1);
    ShiftedPosition(input', numMin, min, max);
    assert ModBetween(input, min, max) == Shift(input', numMin, min, max);
    assert 0.0 < Position(ModBetween(input, min, max), min, max) <= 1.0;
    PositionInRange(ModBetween(input, min, max), min, max);
  }

  /** An input already in (min, max] comes back unchanged. */
  lemma ModBetweenKeepsInRange(input: real, min: real, max: real)
    requires min < input <= max
    ensures ModBetween(input, min, max) == input
  {
    var m := max - min;
    PositionInRange(input, min, max);
    var u := Position(input, min, max);
    var numMax := IntCast((input - min) / m);
    assert numMax == (if u < 1.0 then 0 else 1);
    var input' := Shift(input, numMax, min, max);
    ShiftedPosition(input, numMax, min, max);
    ShiftedPosition(input', 0, min, max);
    var numMin := IntCast((input' - max) / m);
    assert numMin == -numMax;
    assert ModBetween(input, min, max) == Shift(input', numMin, min, max);
  }

  /** Wrapping twice is wrapping once, and the lower end of the range wraps to the upper end. */
  lemma ModBetweenIdempotent(input: real, min: real, max: real)
    requires max > min && CastFits(input, min, max)
    ensures ModBetween(ModBetween(input, min, max), min, max) == ModBetween(input, min, max)
    ensures ModBetween(min, min, max) == max
  {
    ModBetweenInRange(input, min, max);
    ModBetweenKeepsInRange(ModBetween(input, min, max), min, max);
    var m := max - min;
    assert (min - min) / m == 0.0;
    ShiftedPosition(min, 0, min, max);
    assert Shift(min, 0, min, max) == min;
    assert (min - max) / m == -1.0;
    assert Shift(min, -1, min, max) == max;
  }

  /** An angle whose wrap does not saturate the cast ends up in (-pi, pi]. */
  lemma AngleModulusInRange(angle: real)
    requires CastFits(angle, -Pi, Pi)
    ensures -Pi < AngleModulusRadians(angle) <= Pi
  {
    ModBetweenInRange(angle, -Pi, Pi);
  }
}
