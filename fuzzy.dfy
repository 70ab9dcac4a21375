/**
 * Fuzzy intensity enhancement: three membership functions (dark, gray,
 * bright) over four thresholds, a blend factor weighting 1.5, 1.2 and 0.9 by
 * the memberships, and the resulting per-pixel level. The thresholds are a
 * record so that the interpolating branches are stated in general; the
 * enhancer uses the fixed record 75 / 75 / 150 / 150, under which the
 * memberships collapse to hard steps.
 */
module Fuzzy {
  import opened Pixels

  /** The four thresholds, in the order dark, gray-low, gray-high, bright. */
  datatype Thresholds = Thresholds(dark: real, grayLow: real, grayHigh: real, bright: real)

  /** DARK_THRESHOLD, GRAY_THRESHOLD_LOW, GRAY_THRESHOLD_HIGH, BRIGHT_THRESHOLD. */
  const SourceThresholds: Thresholds := Thresholds(75.0, 75.0, 150.0, 150.0)

  predicate Ordered(t: Thresholds)
  {
    t.dark <= t.grayLow <= t.grayHigh <= t.bright
  }

  /** A ratio of a part to a positive whole lies in [0, 1]. */
  lemma UnitRatio(a: real, d: real)
    requires 0.0 <= a <= d && 0.0 < d
    ensures 0.0 <= a / d <= 1.0
  {
    assert a / d * d == a;
  }

  /** Two parts of a non-zero whole, each divided by it, add up to 1. */
  lemma SplitUnit(a: real, b: real, d: real)
    requires d != 0.0 && a + b == d
    ensures a / d + b / d == 1.0
  {
    assert a / d + b / d == (a + b) / d;
  }

  /**
   * `getDarkMembership`: 1 up to the dark threshold, then falling linearly to
   * 0 at gray-low. The falling branch is only entered when gray-low lies
   * strictly above the dark threshold, so its division is always defined.
   */
  function DarkMembership(t: Thresholds, i: int): (m: real)
    ensures 0.0 <= m <= 1.0
  {
    if i as real <= t.dark then 1.0
    else if i as real <= t.grayLow then
      UnitRatio(t.grayLow - i as real, t.grayLow - t.dark);
      (t.grayLow - i as real) / (t.grayLow - t.dark)
    else 0.0
  }

  /**
   * `getGrayMembership`: 0 up to the dark threshold, rising to 1 at gray-low,
   * 1 up to gray-high, falling to 0 at the bright threshold, 0 beyond.
   */
  function GrayMembership(t: Thresholds, i: int): (m: real)
    ensures 0.0 <= m <= 1.0
  {
    if i as real <= t.dark then 0.0
    else if i as real <= t.grayLow then
      UnitRatio(i as real - t.dark, t.grayLow - t.dark);
      (i as real - t.dark) / (t.grayLow - t.dark)
    else if i as real <= t.grayHigh then 1.0
    else if i as real <= t.bright then
      UnitRatio(t.bright - i as real, t.bright - t.grayHigh);
      (t.bright - i as real) / (t.bright - t.grayHigh)
    else 0.0
  }

  /**
   * `getBrightMembership`: 0 up to gray-high, rising linearly to 1 at the
   * bright threshold, 1 beyond.
   */
  function BrightMembership(t: Thresholds, i: int): (m: real)
    ensures 0.0 <= m <= 1.0
  {
    if i as real <= t.grayHigh then 0.0
    else if i as real <= t.bright then
      UnitRatio(i as real - t.grayHigh, t.bright - t.grayHigh);
      (i as real - t.grayHigh) / (t.bright - t.grayHigh)
    else 1.0
  }

  /**
   * For ordered thresholds the three memberships form a partition of unity:
   * they add up to exactly 1 at every intensity, so the blend's denominator
   * is never zero.
   */
  lemma MembershipsSumToOne(t: Thresholds, i: int)
    requires Ordered(t)
    ensures DarkMembership(t, i) + GrayMembership(t, i) + BrightMembership(t, i) == 1.0
  {
    var x := i as real;
    if t.dark < x <= t.grayLow {
      assert BrightMembership(t, i) == 0.0;
      SplitUnit(t.grayLow - x, x - t.dark, t.grayLow - t.dark);
    } else if t.grayHigh < x <= t.bright {
      assert DarkMembership(t, i) == 0.0;
      SplitUnit(t.bright - x, x - t.grayHigh, t.bright - t.grayHigh);
    }
  }

  /**
   * The blend factor `(dark * 1.5 + gray * 1.2 + bright * 0.9) / (dark + gray
   * + bright)`: a weighted mean of the three weights, so between 0.9 and 1.5.
   */
  function Enhancement(t: Thresholds, i: int): (f: real)
    requires Ordered(t)
    ensures 0.9 <= f <= 1.5
  {
    var dark, gray, bright := DarkMembership(t, i), GrayMembership(t, i), BrightMembership(t, i);
    MembershipsSumToOne(t, i);
    (dark * 1.5 + gray * 1.2 + bright * 0.9) / (dark + gray + bright)
  }

  /** Java's `(int)` cast of a real: truncation toward zero. */
  function TruncateToInt(x: real): (n: int)
    ensures 0.0 <= x ==> n as real <= x < n as real + 1.0
    ensures x < 0.0 ==> n as real - 1.0 < x <= n as real
  {
    if x >= 0.0 then x.Floor else -((-x).Floor)
  }

  /**
   * The level `applyFuzzyEnhancement` writes for a pixel of intensity i:
   * `Math.min(255, Math.max(0, (int) (intensity * enhancement)))`.
   */
  function FuzzyLevel(t: Thresholds, i: Channel): (v: Channel)
    requires Ordered(t)
    ensures (if 9 * i / 10 < 255 then 9 * i / 10 else 255) <= v <= 3 * i / 2
  {
    var f := Enhancement(t, i);
    ScaleBetween(i, f);
    Clamp(TruncateToInt(i as real * f))
  }

  /**
   * Scaling by a factor between 0.9 and 1.5 and truncating lands between the
   * truncated 9i/10 and 3i/2.
   */
  lemma ScaleBetween(i: nat, f: real)
    requires 0.9 <= f <= 1.5
    ensures 9 * i / 10 <= TruncateToInt(i as real * f) <= 3 * i / 2
  {
    ScaleAtLeast(i, f);
    ScaleBelow(i, f);
    TruncateBetween(Scaled(i, f), 9 * i / 10, 3 * i / 2);
  }

  /** The product `intensity * enhancement`, before truncation. */
  function Scaled(i: nat, f: real): real
  {
    i as real * f
  }

  /** Scaling by at least 0.9 reaches the truncated 9i/10. */
  lemma ScaleAtLeast(i: nat, f: real)
    requires 0.9 <= f
    ensures (9 * i / 10) as real <= Scaled(i, f)
  {
    var x := i as real;
    MulNonNegative(x, f - 0.9);
    assert x * f == x * 0.9 + x * (f - 0.9);
    assert (9 * i / 10) as real <= x * 0.9 by {
      assert 10 * (9 * i / 10) <= 9 * i;
    }
  }

  /** Scaling by at most 1.5 stays below the truncated 3i/2 plus one. */
  lemma ScaleBelow(i: nat, f: real)
    requires f <= 1.5
    ensures Scaled(i, f) < (3 * i / 2) as real + 1.0
  {
    var x := i as real;
    MulNonNegative(x, 1.5 - f);
    assert x * f == x * 1.5 - x * (1.5 - f);
    assert x * 1.5 < (3 * i / 2) as real + 1.0 by {
      assert 3 * i < 2 * (3 * i / 2) + 2;
    }
  }

  lemma MulNonNegative(a: real, b: real)
    requires 0.0 <= a && 0.0 <= b
    ensures 0.0 <= a * b
  {
  }

  /** A non-negative value between lo and hi + 1 truncates into [lo, hi]. */
  lemma TruncateBetween(y: real, lo: int, hi: int)
    requires 0 <= lo && lo as real <= y < hi as real + 1.0
    ensures lo <= TruncateToInt(y) <= hi
  {
  }

  /**
   * With the source thresholds exactly one membership is 1 and the other two
   * are 0: dark up to 75, gray from 76 to 150, bright above 150. The
   * interpolating branches are never taken.
   */
  lemma SourceMembershipsAreCrisp(i: int)
    ensures i <= 75 ==>
      DarkMembership(SourceThresholds, i) == 1.0 &&
      GrayMembership(SourceThresholds, i) == 0.0 &&
      BrightMembership(SourceThresholds, i) == 0.0
    ensures 75 < i <= 150 ==>
      DarkMembership(SourceThresholds, i) == 0.0 &&
      GrayMembership(SourceThresholds, i) == 1.0 &&
      BrightMembership(SourceThresholds, i) == 0.0
    ensures 150 < i ==>
      DarkMembership(SourceThresholds, i) == 0.0 &&
      GrayMembership(SourceThresholds, i) == 0.0 &&
      BrightMembership(SourceThresholds, i) == 1.0
  {
  }

  /** Under the source thresholds the blend factor is exactly 1.5, 1.2 or 0.9. */
  lemma SourceEnhancementFactor(i: int)
    ensures Ordered(SourceThresholds)
    ensures Enhancement(SourceThresholds, i) ==
      if i <= 75 then 1.5 else if i <= 150 then 1.2 else 0.9
  {
    SourceMembershipsAreCrisp(i);
  }

  /** Truncating a non-negative rational n * p / q gives the integer quotient. */
  lemma TruncateRatio(n: nat, p: nat, q: nat)
    requires q > 0
    ensures TruncateToInt(n as real * (p as real / q as real)) == (n * p) / q
  {
    var k, r := (n * p) / q, (n * p) % q;
    assert n * p == q * k + r && 0 <= r < q;
    var x := n as real * (p as real / q as real);
    assert x == (n * p) as real / q as real;
    assert (n * p) as real == (q * k) as real + r as real;
    assert (q * k) as real == q as real * k as real;
    assert x == k as real + r as real / q as real;
    assert 0.0 <= r as real / q as real < 1.0;
  }

  /**
   * Under the source thresholds the enhanced level is 3i/2 for dark pixels,
   * 6i/5 for gray ones and 9i/10 for bright ones (each truncated), and that
   * value already lies in [0, 255], so the clamp never changes it.
   */
  lemma FuzzyLevelClosedForm(i: Channel)
    ensures Ordered(SourceThresholds)
    ensures var raw := if i <= 75 then 3 * i / 2 else if i <= 150 then 6 * i / 5 else 9 * i / 10;
      0 <= raw <= 255 && FuzzyLevel(SourceThresholds, i) == raw
  {
    SourceEnhancementFactor(i);
    if i <= 75 {
      assert 1.5 == 3 as real / 2 as real;
      TruncateRatio(i, 3, 2);
    } else if i <= 150 {
      assert 1.2 == 6 as real / 5 as real;
      TruncateRatio(i, 6, 5);
    } else {
      assert 0.9 == 9 as real / 10 as real;
      TruncateRatio(i, 9, 10);
    }
  }

  /**
   * The hard steps make the enhancement invert brightness at both zone
   * boundaries: intensity 75 becomes 112 while 76 becomes 91, and 150 becomes
   * 180 while 151 becomes 135.
   */
  lemma FuzzyInvertsAtBoundaries()
    ensures Ordered(SourceThresholds)
    ensures FuzzyLevel(SourceThresholds, 75) == 112 && FuzzyLevel(SourceThresholds, 76) == 91
    ensures FuzzyLevel(SourceThresholds, 150) == 180 && FuzzyLevel(SourceThresholds, 151) == 135
  {
    FuzzyLevelClosedForm(75);
    FuzzyLevelClosedForm(76);
    FuzzyLevelClosedForm(150);
    FuzzyLevelClosedForm(151);
  }
}
