/**
 * Percentages and averages, taken as exact real numbers rather than binary
 * floats. Each is kept as the quotient it is computed from, numerator over
 * denominator; `Value` reads it.
 */
module Numbers {

  /** The exact quotient `numerator / denominator`, not yet divided out. */
  datatype Fraction = Fraction(numerator: real, denominator: nat)

  function Value(f: Fraction): real
    requires f.denominator > 0
  {
    f.numerator / f.denominator as real
  }

  /** `part / whole * 100`, the form every percentage of the analyzer takes. */
  function Percent(part: nat, whole: nat): Fraction
  {
    Fraction(part as real * 100.0, whole)
  }

  /** `total / count`, the form every average of the analyzer takes. */
  function Mean(total: real, count: nat): Fraction
  {
    Fraction(total, count)
  }

  /**
   * A percentage of a part lies between 0 and 100; it is 0 exactly for none
   * of the whole and 100 exactly for all of it.
   */
  lemma PercentBounds(part: nat, whole: nat)
    requires 0 < whole && part <= whole
    ensures 0.0 <= Value(Percent(part, whole)) <= 100.0
    ensures Value(Percent(part, whole)) == 100.0 <==> part == whole
    ensures Value(Percent(part, whole)) == 0.0 <==> part == 0
  {
    var p, w := part as real, whole as real;
    var v := Value(Percent(part, whole));
    assert v * w == p * 100.0;
    ScaleOrder(v, 100.0, w);
    ScaleOrder(0.0, v, w);
  }

  /** Multiplying by a positive number keeps the order of two reals. */
  lemma ScaleOrder(a: real, b: real, w: real)
    requires w > 0.0
    ensures a < b <==> a * w < b * w
    ensures a == b <==> a * w == b * w
  {
    if a < b {
      assert (b - a) * w > 0.0;
    } else if b < a {
      assert (a - b) * w > 0.0;
    }
  }

  /** Percentages of the same whole add up like the parts do. */
  lemma PercentAdd(a: nat, b: nat, whole: nat)
    requires whole > 0
    ensures Value(Percent(a, whole)) + Value(Percent(b, whole)) == Value(Percent(a + b, whole))
  {
    var w := whole as real;
    assert a as real * 100.0 / w + b as real * 100.0 / w == (a + b) as real * 100.0 / w;
  }

  /** Three counts that partition a total have percentages that add up to 100. */
  lemma PercentsOfPartition(a: nat, b: nat, c: nat, whole: nat)
    requires whole > 0 && a + b + c == whole
    ensures Value(Percent(a, whole)) + Value(Percent(b, whole)) + Value(Percent(c, whole)) == 100.0
  {
    PercentAdd(a, b, whole);
    PercentAdd(a + b, c, whole);
    PercentBounds(whole, whole);
  }

  /** An average of values within [lo, hi] lies within [lo, hi]. */
  lemma MeanBounds(total: real, count: nat, lo: real, hi: real)
    requires count > 0
    requires lo * count as real <= total <= hi * count as real
    ensures lo <= Value(Mean(total, count)) <= hi
  {
    var n := count as real;
    assert total / n * n == total;
  }
}
