/** Number shaping used by the drive code: range mapping, a hard deadzone, a
    rescaling deadband, clamping and the signed square. The program works on
    Python floats; they are modelled here as exact `real` numbers. */
module MathUtils {

  /** Python's `abs` on a number. */
  function Abs(x: real): (r: real)
    ensures r >= 0.0 && (r == x || r == -x)
  {
    if x < 0.0 then -x else x
  }

  /** Python's two-argument `max`: the first argument unless the second is larger. */
  function Max(a: real, b: real): (r: real)
    ensures r >= a && r >= b && (r == a || r == b)
  {
    if b > a then b else a
  }

  /** Python's two-argument `min`: the first argument unless the second is smaller. */
  function Min(a: real, b: real): (r: real)
    ensures r <= a && r <= b && (r == a || r == b)
  {
    if b < a then b else a
  }

  /** A real number with no fractional part. */
  predicate IsIntegral(x: real) {
    x.Floor as real == x
  }

  /** Python's `int(x)` on a float: truncation toward zero. */
  function Trunc(x: real): (n: int)
    ensures Abs(n as real) <= Abs(x) < Abs(n as real) + 1.0
    ensures (n > 0 ==> x > 0.0) && (n < 0 ==> x < 0.0)
  {
    if x >= 0.0 then x.Floor else -((-x).Floor)
  }

  lemma TruncIntegral(x: real)
    requires IsIntegral(x)
    ensures Trunc(x) as real == x
  {
    if x < 0.0 {
      assert -x == (-(x.Floor)) as real;
      assert (-x).Floor == -(x.Floor);
    }
  }

  /** Python's `a * b // c`: the floor of the exact quotient of the product. */
  function MulFloorDiv(a: real, b: real, c: real): (q: int)
    requires c != 0.0
    ensures q as real <= a * b / c < q as real + 1.0
  {
    (a * b / c).Floor
  }

  /** The exact affine map sending [inMin, inMax] onto [outMin, outMax]. */
  function Affine(x: real, inMin: real, inMax: real, outMin: real, outMax: real): real
    requires inMax != inMin
  {
    outMin + (x - inMin) * (outMax - outMin) / (inMax - inMin)
  }

  /** `map_range`: the affine rescale, whose product is floor-divided (`//`)
      by the width of the input range before `outMin` is added back. The
      result is therefore the affine image rounded down onto the grid
      outMin + k, k an integer. */
  function MapRange(x: real, inMin: real, inMax: real, outMin: real, outMax: real): (r: real)
    requires inMax != inMin
    ensures r <= Affine(x, inMin, inMax, outMin, outMax) < r + 1.0
    ensures IsIntegral(r - outMin)
  {
    MulFloorDiv(x - inMin, outMax - outMin, inMax - inMin) as real + outMin
  }

  /** Exact at both ends of the input range when the output range has an
      integral width (in particular when both output bounds are integers). */
  lemma MapRangeEndpoints(inMin: real, inMax: real, outMin: real, outMax: real)
    requires inMax != inMin
    requires IsIntegral(outMax - outMin)
    ensures MapRange(inMin, inMin, inMax, outMin, outMax) == outMin
    ensures MapRange(inMax, inMin, inMax, outMin, outMax) == outMax
  {
    MulFloorDivZero(inMin - inMin, outMax - outMin, inMax - inMin);
    MulFloorDivMultiple(inMax - inMin, outMax - outMin);
  }

  /** With an integral lower output bound the result is an integer. */
  lemma MapRangeIntegral(x: real, inMin: real, inMax: real, outMin: real, outMax: real)
    requires inMax != inMin
    requires IsIntegral(outMin)
    ensures IsIntegral(MapRange(x, inMin, inMax, outMin, outMax))
  {
    var k := MulFloorDiv(x - inMin, outMax - outMin, inMax - inMin);
    var n := outMin.Floor;
    assert MapRange(x, inMin, inMax, outMin, outMax) == (k + n) as real;
  }

  /** With increasing ranges, a larger input never maps to a smaller output. */
  lemma MapRangeMonotone(x: real, y: real, inMin: real, inMax: real, outMin: real, outMax: real)
    requires inMin < inMax && outMin <= outMax
    requires x <= y
    ensures MapRange(x, inMin, inMax, outMin, outMax) <= MapRange(y, inMin, inMax, outMin, outMax)
  {
    MulFloorDivMonotone(x - inMin, y - inMin, outMax - outMin, inMax - inMin);
  }

  /** Inputs inside the input range land inside the output range. */
  lemma MapRangeBounds(x: real, inMin: real, inMax: real, outMin: real, outMax: real)
    requires inMin < inMax && outMin <= outMax
    requires inMin <= x <= inMax
    ensures outMin <= MapRange(x, inMin, inMax, outMin, outMax) <= outMax
  {
    MulFloorDivBetween(x - inMin, outMax - outMin, inMax - inMin);
  }

  lemma MulFloorDivZero(a: real, b: real, c: real)
    requires a == 0.0 && c != 0.0
    ensures MulFloorDiv(a, b, c) == 0
  {
  }

  /** Floor division of w * d by w gives back an integral d. */
  lemma MulFloorDivMultiple(w: real, d: real)
    requires w != 0.0 && IsIntegral(d)
    ensures MulFloorDiv(w, d, w) as real == d
  {
    assert w * d / w == d;
  }

  /** `a * b // c` with b >= 0 and c > 0 is monotone in a. */
  lemma MulFloorDivMonotone(a: real, a': real, b: real, c: real)
    requires a <= a' && b >= 0.0 && c > 0.0
    ensures MulFloorDiv(a, b, c) <= MulFloorDiv(a', b, c)
  {
    MulMonotone(a, a', b);
    DivideMonotone(a * b, a' * b, c);
    FloorMonotone(a * b / c, a' * b / c);
  }

  /** For 0 <= a <= c and b >= 0, `a * b // c` lies in [0, b]. */
  lemma MulFloorDivBetween(a: real, b: real, c: real)
    requires 0.0 <= a <= c && b >= 0.0 && c > 0.0
    ensures 0.0 <= MulFloorDiv(a, b, c) as real <= b
  {
    MulFloorDivMonotone(0.0, a, b, c);
    MulFloorDivMonotone(a, c, b, c);
    assert 0.0 * b / c == 0.0;
    assert c * b / c == b;
  }

  /** Multiplication by a non-negative factor keeps order. */
  lemma MulMonotone(a: real, b: real, c: real)
    requires a <= b && c >= 0.0
    ensures a * c <= b * c
  {
    assert b * c - a * c == (b - a) * c;
  }

  lemma NegDiv(a: real, c: real)
    requires c != 0.0
    ensures (-a) / c == -(a / c)
  {
  }

  lemma DivSelf(c: real)
    requires c != 0.0
    ensures c / c == 1.0
  {
  }

  /** Division by a positive number keeps the sign. */
  lemma DivSign(a: real, c: real)
    requires c > 0.0
    ensures (a / c < 0.0 <==> a < 0.0) && (a / c == 0.0 <==> a == 0.0)
  {
  }

  lemma DivMulBack(a: real, c: real)
    requires c != 0.0
    ensures a / c * c == a
  {
  }

  lemma FloorMonotone(a: real, b: real)
    requires a <= b
    ensures a.Floor <= b.Floor
  {
  }

  /** Division by a positive number keeps the order of the dividends. */
  lemma DivideMonotone(a: real, b: real, c: real)
    requires a <= b && c > 0.0
    ensures a / c <= b / c
  {
    assert b / c - a / c == (b - a) / c;
  }

  /** A non-negative dividend shrinks as the positive divisor grows. */
  lemma DivideByLarger(n: real, c1: real, c2: real)
    requires n >= 0.0 && 0.0 < c1 <= c2
    ensures n / c2 <= n / c1
  {
    MulMonotone(c1, c2, n / c2);
    DivMulBack(n, c2);
    DivideMonotone(n / c2 * c1, n, c1);
    assert n / c2 * c1 / c1 == n / c2;
  }

  lemma CancelFactor(t: real, c: real, d: real)
    requires c != 0.0 && d != 0.0
    ensures t * d / (c * d) == t / c
  {
  }

  /** `deadzone`: a hard cutoff. Inputs smaller in magnitude than `minVal`
      become 0; everything else, the boundary included, passes unchanged. */
  function Deadzone(x: real, minVal: real): (r: real)
    ensures r == 0.0 || r == x
    ensures r != 0.0 ==> Abs(r) >= minVal
    ensures Abs(x) >= minVal ==> r == x
  {
    if Abs(x) < minVal then 0.0 else x
  }

  /** The cutoff is symmetric about zero. */
  lemma DeadzoneOdd(x: real, minVal: real)
    ensures Deadzone(-x, minVal) == -Deadzone(x, minVal)
  {
  }

  /** Applying the cutoff twice changes nothing more. */
  lemma DeadzoneIdempotent(x: real, minVal: real)
    ensures Deadzone(Deadzone(x, minVal), minVal) == Deadzone(x, minVal)
  {
  }

  /** The ratio of maximum magnitude to deadband beyond which `apply_deadband`
      uses its limiting form. */
  const LargeRatio: real := 1_000_000_000_000.0

  /** The linear piece of `apply_deadband`: `offset`, the distance of the
      input past the band, scaled by maxMagnitude / (maxMagnitude - deadband). */
  function Stretch(maxMagnitude: real, offset: real, deadband: real): real
    requires maxMagnitude != deadband
  {
    maxMagnitude * offset / (maxMagnitude - deadband)
  }

  /** `apply_deadband`: inputs within `deadband` of zero become 0; the rest of
      the range is stretched so that +-deadband maps to 0 and +-maxMagnitude to
      itself. When maxMagnitude / deadband exceeds LargeRatio the limiting
      form (shift toward zero by `deadband`) is used instead. */
  function ApplyDeadband(value: real, deadband: real, maxMagnitude: real): (r: real)
    requires 0.0 < deadband < maxMagnitude
    ensures Abs(value) <= deadband ==> r == 0.0
    ensures value > deadband ==> r > 0.0
    ensures value < -deadband ==> r < 0.0
  {
    if Abs(value) > deadband then
      if maxMagnitude / deadband > LargeRatio then
        (if value > 0.0 then value - deadband else value + deadband)
      else if value > 0.0 then
        StretchSign(maxMagnitude, value - deadband, deadband);
        Stretch(maxMagnitude, value - deadband, deadband)
      else
        StretchSign(maxMagnitude, value + deadband, deadband);
        Stretch(maxMagnitude, value + deadband, deadband)
    else
      0.0
  }

  lemma StretchSign(m: real, t: real, d: real)
    requires 0.0 < d < m
    ensures t > 0.0 ==> Stretch(m, t, d) > 0.0
    ensures t < 0.0 ==> Stretch(m, t, d) < 0.0
  {
  }

  lemma StretchOdd(m: real, t: real, d: real)
    requires 0.0 < d < m
    ensures Stretch(m, -t, d) == -Stretch(m, t, d)
  {
    assert m * -t == -(m * t);
  }

  /** The far end of the band's complement is fixed: offset m - d maps to m. */
  lemma StretchFull(m: real, d: real)
    requires 0.0 < d < m
    ensures Stretch(m, m - d, d) == m
  {
    assert m * (m - d) / (m - d) == m;
  }

  /** For offsets up to m - d the stretched value never exceeds offset + d. */
  lemma StretchBelow(m: real, t: real, d: real)
    requires 0.0 < d < m && 0.0 <= t <= m - d
    ensures Stretch(m, t, d) <= t + d
  {
    // m t <= (t + d)(m - d)  since  (t + d)(m - d) - m t == d (m - d - t)
    assert (t + d) * (m - d) - m * t == d * (m - d - t);
    MulMonotone(0.0, m - d - t, d);
    DivideMonotone(m * t, (t + d) * (m - d), m - d);
    assert (t + d) * (m - d) / (m - d) == t + d;
  }

  /** Outside the limiting form, the end points of the input range are fixed. */
  lemma ApplyDeadbandEndpoints(deadband: real, maxMagnitude: real)
    requires 0.0 < deadband < maxMagnitude
    requires maxMagnitude / deadband <= LargeRatio
    ensures ApplyDeadband(maxMagnitude, deadband, maxMagnitude) == maxMagnitude
    ensures ApplyDeadband(-maxMagnitude, deadband, maxMagnitude) == -maxMagnitude
  {
    StretchFull(maxMagnitude, deadband);
    StretchOdd(maxMagnitude, maxMagnitude - deadband, deadband);
  }

  /** Past the band, the stretch exceeds the offset by offset * d / (m - d). */
  lemma StretchExcess(m: real, t: real, d: real)
    requires 0.0 < d < m
    ensures Stretch(m, t, d) - t == t * d / (m - d)
  {
    assert m * t - t * (m - d) == t * d;
    assert m * t / (m - d) - t * (m - d) / (m - d) == (m * t - t * (m - d)) / (m - d);
    assert t * (m - d) / (m - d) == t;
  }

  /** A ratio m / d above LargeRatio leaves m - d at least (LargeRatio - 1) * d. */
  lemma LargeRatioMargin(m: real, d: real)
    requires 0.0 < d < m && m / d > LargeRatio
    ensures (LargeRatio - 1.0) * d <= m - d
  {
    MulMonotone(LargeRatio, m / d, d);
    DivMulBack(m, d);
  }

  /** With m / d above LargeRatio the stretch of a non-negative offset t is
      t itself up to a relative error of 1 / (LargeRatio - 1). */
  lemma StretchNearShift(m: real, t: real, d: real)
    requires 0.0 < d < m && m / d > LargeRatio && t >= 0.0
    ensures 0.0 <= Stretch(m, t, d) - t <= t / (LargeRatio - 1.0)
  {
    StretchExcess(m, t, d);
    LargeRatioMargin(m, d);
    MulMonotone(0.0, t, d);
    DivideByLarger(t * d, (LargeRatio - 1.0) * d, m - d);
    CancelFactor(t, LargeRatio - 1.0, d);
    DivSign(t * d, m - d);
  }

  /** The limiting form stands in for the stretching formula when
      maxMagnitude / deadband exceeds LargeRatio: it moves a value outside the
      band toward zero by exactly `deadband`, and the stretch of the same value
      lies at most a 1 / (LargeRatio - 1) fraction of the offset past the band
      further from zero. */
  lemma ApplyDeadbandLimit(value: real, deadband: real, maxMagnitude: real)
    requires 0.0 < deadband < maxMagnitude
    requires maxMagnitude / deadband > LargeRatio
    ensures value > deadband ==>
      && ApplyDeadband(value, deadband, maxMagnitude) == value - deadband
      && 0.0 <= Stretch(maxMagnitude, value - deadband, deadband) - ApplyDeadband(value, deadband, maxMagnitude)
             <= (value - deadband) / (LargeRatio - 1.0)
    ensures value < -deadband ==>
      && ApplyDeadband(value, deadband, maxMagnitude) == value + deadband
      && 0.0 <= ApplyDeadband(value, deadband, maxMagnitude) - Stretch(maxMagnitude, value + deadband, deadband)
             <= -(value + deadband) / (LargeRatio - 1.0)
  {
    if value > deadband {
      StretchNearShift(maxMagnitude, value - deadband, deadband);
    } else if value < -deadband {
      StretchNearShift(maxMagnitude, -(value + deadband), deadband);
      StretchOdd(maxMagnitude, -(value + deadband), deadband);
      assert -(-(value + deadband)) == value + deadband;
    }
  }

  /** The deadband is odd: negating the input negates the output. */
  lemma ApplyDeadbandOdd(value: real, deadband: real, maxMagnitude: real)
    requires 0.0 < deadband < maxMagnitude
    ensures ApplyDeadband(-value, deadband, maxMagnitude) == -ApplyDeadband(value, deadband, maxMagnitude)
  {
    if value > 0.0 {
      StretchOdd(maxMagnitude, value - deadband, deadband);
    } else {
      StretchOdd(maxMagnitude, -value - deadband, deadband);
    }
  }

  /** Within the input range the deadband never increases a magnitude, so
      the output stays within [-maxMagnitude, maxMagnitude]. */
  lemma ApplyDeadbandShrinks(value: real, deadband: real, maxMagnitude: real)
    requires 0.0 < deadband < maxMagnitude
    requires Abs(value) <= maxMagnitude
    ensures Abs(ApplyDeadband(value, deadband, maxMagnitude)) <= Abs(value)
  {
    if value > deadband {
      StretchBelow(maxMagnitude, value - deadband, deadband);
    } else if value < -deadband {
      StretchBelow(maxMagnitude, -value - deadband, deadband);
      StretchOdd(maxMagnitude, -value - deadband, deadband);
    }
  }

  /** `clamp`: max(min(value, maxValue), minValue). */
  function Clamp(value: real, minValue: real, maxValue: real): (r: real)
    ensures minValue <= maxValue ==> minValue <= r <= maxValue
    ensures minValue <= value <= maxValue ==> r == value
    ensures minValue <= maxValue && value < minValue ==> r == minValue
    ensures minValue <= maxValue && value > maxValue ==> r == maxValue
    ensures minValue > maxValue ==> r == minValue
  {
    Max(Min(value, maxValue), minValue)
  }

  /** Clamping a clamped value changes nothing. */
  lemma ClampIdempotent(value: real, minValue: real, maxValue: real)
    ensures Clamp(Clamp(value, minValue, maxValue), minValue, maxValue) == Clamp(value, minValue, maxValue)
  {
  }

  /** `square`: the signed square |x| * x. Its magnitude is x * x and it
      keeps the sign of its input. */
  function Square(value: real): (r: real)
    ensures Abs(r) == value * value
    ensures value > 0.0 ==> r > 0.0
    ensures value < 0.0 ==> r < 0.0
    ensures value == 0.0 ==> r == 0.0
  {
    Abs(value) * value
  }

  /** The signed square is odd and fixes 0, 1 and -1. */
  lemma SquareOdd(value: real)
    ensures Square(-value) == -Square(value)
    ensures Square(0.0) == 0.0 && Square(1.0) == 1.0 && Square(-1.0) == -1.0
  {
  }

  /** On [-1, 1] the signed square compresses: it never increases a magnitude. */
  lemma SquareShrinks(value: real)
    requires Abs(value) <= 1.0
    ensures Abs(Square(value)) <= Abs(value)
  {
    SquareBelow(Abs(value));
    assert value * value == Abs(value) * Abs(value);
    assert Abs(Square(value)) == value * value;
  }

  /** A factor in [0, 1] squared is at most itself. */
  lemma SquareBelow(a: real)
    requires 0.0 <= a <= 1.0
    ensures a * a <= a
  {
    MulMonotone(a, 1.0, a);
  }

  /** The signed square is monotone non-decreasing. */
  lemma SquareMonotone(x: real, y: real)
    requires x <= y
    ensures Square(x) <= Square(y)
  {
    if 0.0 <= x {
      ProductsMonotone(x, y);
    } else if y <= 0.0 {
      ProductsMonotone(-y, -x);
      assert (-y) * (-y) == y * y && (-x) * (-x) == x * x;
    }
  }

  lemma ProductsMonotone(a: real, b: real)
    requires 0.0 <= a <= b
    ensures a * a <= b * b
  {
    MulMonotone(a, b, a);
    MulMonotone(a, b, b);
    assert b * a == a * b;
  }
}
