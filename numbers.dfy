/**
 * The rounding and division rules the routes rely on, stated over integers
 * so that no floating-point value is involved:
 * - `Math.round(n / d)` in JavaScript rounds halves toward +infinity;
 * - `ROUND(n / d)` in SQL on an exact value rounds halves away from zero;
 * - `TIMESTAMPDIFF` truncates toward zero.
 */
module Numbers {

  /** `Math.round(n / d)`: the integer r with r - 1/2 <= n/d < r + 1/2. */
  function JsRoundDiv(n: int, d: int): (r: int)
    requires d != 0
    ensures d > 0 ==> d * (2 * r - 1) <= 2 * n < d * (2 * r + 1)
    ensures d < 0 ==> -d * (2 * r - 1) <= -2 * n < -d * (2 * r + 1)
  {
    var nn, dd := if d > 0 then n else -n, if d > 0 then d else -d;
    FloorHalfUp(nn, dd)
  }

  /** floor(n / d + 1/2) for a positive divisor. */
  function FloorHalfUp(n: int, d: int): (r: int)
    requires d > 0
    ensures d * (2 * r - 1) <= 2 * n < d * (2 * r + 1)
  {
    var q := (2 * n + d) / (2 * d);
    var rem := (2 * n + d) % (2 * d);
    assert 2 * n + d == (2 * d) * q + rem && 0 <= rem < 2 * d;
    assert d * (2 * q - 1) == 2 * d * q - d;
    q
  }

  /** The rounded quotient is the only integer within half a unit of n/d. */
  lemma FloorHalfUpUnique(n: int, d: int, r: int)
    requires d > 0
    requires d * (2 * r - 1) <= 2 * n < d * (2 * r + 1)
    ensures r == FloorHalfUp(n, d)
  {
    var q := FloorHalfUp(n, d);
    MulCancelStrict(d, 2 * q - 1, 2 * r + 1);
    MulCancelStrict(d, 2 * r - 1, 2 * q + 1);
  }

  /** `ROUND(n / d)` in SQL: halves away from zero. */
  function SqlRoundDiv(n: int, d: int): (r: int)
    requires d > 0
    ensures n >= 0 ==> r >= 0 && d * (2 * r - 1) <= 2 * n < d * (2 * r + 1)
    ensures n < 0 ==> r <= 0 && d * (2 * r - 1) < 2 * n <= d * (2 * r + 1)
  {
    if n >= 0 then FloorHalfUp(n, d) else -FloorHalfUp(-n, d)
  }

  /** On non-negative quotients the JavaScript and SQL rules agree. */
  lemma SqlRoundAgreesWithJsRound(n: int, d: int)
    requires n >= 0 && d > 0
    ensures SqlRoundDiv(n, d) == JsRoundDiv(n, d)
  {
  }

  /** Rounding a quotient n/d with 0 <= n <= d stays within [0, 1]; scaled by 100, within [0, 100]. */
  lemma {:induction false} RoundedPercentInRange(part: int, whole: int)
    requires 0 <= part <= whole && whole > 0
    ensures 0 <= JsRoundDiv(part * 100, whole) <= 100
    ensures 0 <= SqlRoundDiv(part * 100, whole) <= 100
  {
    var r := FloorHalfUp(part * 100, whole);
    assert whole * (2 * r - 1) <= whole * 200;
    MulCancel(whole, 2 * r - 1, 200);
    assert whole * 0 < whole * (2 * r + 1);
    MulCancel(whole, 1, 2 * r + 1);
    SqlRoundAgreesWithJsRound(part * 100, whole);
  }

  lemma MulCancelStrict(a: int, x: int, y: int)
    requires a > 0 && a * x < a * y
    ensures x < y
  {
    assert a * (y - x) == a * y - a * x;
  }

  lemma MulCancel(a: int, x: int, y: int)
    requires a > 0 && a * x <= a * y
    ensures x <= y
  {
    assert a * (y - x) >= 0;
  }

  /** A quotient between two integers rounds to a value between them. */
  lemma SqlRoundDivBetween(n: int, d: int, lo: int, hi: int)
    requires d > 0 && d * lo <= n <= d * hi
    ensures lo <= SqlRoundDiv(n, d) <= hi
  {
    var r := SqlRoundDiv(n, d);
    assert d * (2 * lo) == 2 * (d * lo) && d * (2 * hi) == 2 * (d * hi);
    RoundedBetween(d, r, 2 * n, lo, hi);
  }

  /** An integer within half a unit of t/(2d), where t/(2d) lies in [lo, hi], lies in [lo, hi]. */
  lemma RoundedBetween(d: int, r: int, t: int, lo: int, hi: int)
    requires d > 0 && d * (2 * r - 1) <= t <= d * (2 * r + 1)
    requires d * (2 * lo) <= t <= d * (2 * hi)
    ensures lo <= r <= hi
  {
    MulCancel(d, 2 * r - 1, 2 * hi);
    MulCancel(d, 2 * lo, 2 * r + 1);
  }

  /** An average of values in [lo, hi], scaled and rounded, lies in [lo * scale, hi * scale]. */
  lemma ScaledAverageBetween(total: int, count: int, scale: nat, lo: int, hi: int)
    requires count > 0 && count * lo <= total <= count * hi
    ensures lo * scale <= SqlRoundDiv(total * scale, count) <= hi * scale
  {
    var a, b := count * lo, count * hi;
    assert (total - a) * scale >= 0;
    assert (b - total) * scale >= 0;
    assert count * (lo * scale) == a * scale;
    assert count * (hi * scale) == b * scale;
    SqlRoundDivBetween(total * scale, count, lo * scale, hi * scale);
  }

  /**
   * `AVG` of an integer column as MySQL returns it: a DECIMAL with four
   * places, the quotient rounded half away from zero, here in ten-thousandths.
   */
  function Avg4(total: int, count: int): (a: int)
    requires count > 0
    ensures count * (2 * a - 1) <= 2 * (total * 10000) <= count * (2 * a + 1)
  {
    SqlRoundDiv(total * 10000, count)
  }

  /**
   * `ROUND(AVG(x), k)` with scale 10^k (1 or 100): the four-place average is
   * rounded once more, so the result is in units of 1/scale.
   */
  function SqlRoundAverage(total: int, count: int, scale: nat): int
    requires count > 0
  {
    SqlRoundDiv(Avg4(total, count) * scale, 10000)
  }

  /** An average of values in [lo, hi], rounded twice, lies in [lo * scale, hi * scale]. */
  lemma SqlRoundAverageBetween(total: int, count: int, scale: nat, lo: int, hi: int)
    requires count > 0 && count * lo <= total <= count * hi
    ensures lo * scale <= SqlRoundAverage(total, count, scale) <= hi * scale
  {
    var a := Avg4(total, count);
    ScaledAverageBetween(total, count, 10000, lo, hi);
    assert 10000 * lo <= a <= 10000 * hi;
    ScaledAverageBetween(a, 10000, scale, lo, hi);
  }

  /**
   * The twice-rounded whole average r is within 10001/20000 of the exact
   * mean total/count: half a unit from the last rounding and half a
   * ten-thousandth from the first.
   */
  lemma SqlRoundAverageNear(total: int, count: int)
    requires count > 0
    ensures var r := SqlRoundAverage(total, count, 1);
      count * (20000 * r - 10001) <= 20000 * total <= count * (20000 * r + 10001)
  {
    var a := Avg4(total, count);
    var r := SqlRoundDiv(a * 1, 10000);
    assert 20000 * r - 10000 <= 2 * a <= 20000 * r + 10000;
    NearStep(count, a, r, total);
  }

  lemma NearStep(count: int, a: int, r: int, total: int)
    requires count > 0
    requires count * (2 * a - 1) <= 20000 * total <= count * (2 * a + 1)
    requires 20000 * r - 10000 <= 2 * a <= 20000 * r + 10000
    ensures count * (20000 * r - 10001) <= 20000 * total <= count * (20000 * r + 10001)
  {
    MulMonotone(count, 20000 * r - 10001, 2 * a - 1);
    MulMonotone(count, 2 * a + 1, 20000 * r + 10001);
  }

  lemma MulMonotone(c: int, x: int, y: int)
    requires c > 0 && x <= y
    ensures c * x <= c * y
  {
    assert c * (y - x) >= 0;
    assert c * (y - x) == c * y - c * x;
  }

  /**
   * The two roundings differ from one: 101 values summing to 51 average
   * 0.504950..., which MySQL holds as 0.5050 and `ROUND(..., 2)` makes 0.51,
   * while rounding the exact mean would give 0.50.
   */
  lemma DoubleRoundingExample()
    ensures Avg4(51, 101) == 5050
    ensures SqlRoundAverage(51, 101, 100) == 51
    ensures SqlRoundDiv(51 * 100, 101) == 50
  {
  }

  /** Scaling numerator and divisor by the same positive factor leaves the rounded quotient unchanged. */
  lemma SqlRoundDivScale(n: int, d: int, k: int)
    requires d > 0 && k > 0
    ensures SqlRoundDiv(k * n, k * d) == SqlRoundDiv(n, d)
  {
    if n >= 0 {
      FloorHalfUpScale(n, d, k);
    } else {
      assert k * n == -(k * -n);
      FloorHalfUpScale(-n, d, k);
    }
  }

  lemma FloorHalfUpScale(n: int, d: int, k: int)
    requires n >= 0 && d > 0 && k > 0
    ensures k * n >= 0 && k * d > 0
    ensures FloorHalfUp(k * n, k * d) == FloorHalfUp(n, d)
  {
    var r := FloorHalfUp(n, d);
    var lo, mid, hi := d * (2 * r - 1), 2 * n, d * (2 * r + 1);
    ScaledBetween(lo, mid, hi, k);
    assert k * lo == (k * d) * (2 * r - 1);
    assert k * hi == (k * d) * (2 * r + 1);
    assert k * mid == 2 * (k * n);
    FloorHalfUpUnique(k * n, k * d, r);
  }

  lemma ScaledBetween(a: int, b: int, c: int, k: int)
    requires k > 0 && a <= b < c
    ensures k * a <= k * b < k * c
  {
    assert k * (b - a) >= 0;
    assert k * (c - b) > 0;
  }

  /** Rounding is monotone in the numerator. */
  lemma FloorHalfUpMonotone(n1: int, n2: int, d: int)
    requires d > 0 && n1 <= n2
    ensures FloorHalfUp(n1, d) <= FloorHalfUp(n2, d)
  {
    var q1, q2 := FloorHalfUp(n1, d), FloorHalfUp(n2, d);
    MulCancelStrict(d, 2 * q1 - 1, 2 * q2 + 1);
  }

  /** Integer division truncated toward zero, as `TIMESTAMPDIFF` counts whole units. */
  function TruncDiv(n: int, d: int): (r: int)
    requires d > 0
    ensures n >= 0 ==> r >= 0 && r * d <= n < (r + 1) * d
    ensures n < 0 ==> r <= 0 && (r - 1) * d < n <= r * d
  {
    if n >= 0 then DivBounds(n, d); n / d else DivBounds(-n, d); -((-n) / d)
  }

  /** Euclidean division of a non-negative n: the quotient q has q * d <= n < (q + 1) * d. */
  lemma DivBounds(n: int, d: int)
    requires n >= 0 && d > 0
    ensures n / d >= 0 && (n / d) * d <= n < (n / d + 1) * d
  {
    var q, m := n / d, n % d;
    assert n == q * d + m && 0 <= m < d;
    assert (q + 1) * d == q * d + d;
  }
}
