/** Credit-weighted sums of grade values, shared by `CalculateAverageGrade`
    and `CalculateAverageMeritPoints`. */
module Weighted {
  import opened Numbers

  /** One course's part in a weighted mean: its grade value and its credit points. */
  datatype Share = Share(value: real, points: int)

  /** The running sums: grade value times points, and points. */
  datatype Totals = Totals(weighted: real, points: int)

  const Zero := Totals(0.0, 0)

  function Add(t: Totals, s: Share): Totals {
    Totals(t.weighted + s.value * s.points as real, t.points + s.points)
  }

  /** A share on the grade scale with a credit weight that is not negative. */
  predicate InScale(s: Share) {
    0.0 <= s.value <= 20.0 && s.points >= 0
  }

  /** Sums whose weighted part lies between 0 and 20 times the points. */
  predicate TotalsInScale(t: Totals) {
    t.points >= 0 && 0.0 <= t.weighted <= 20.0 * t.points as real
  }

  /** Adding a share on the scale keeps the sums on the scale. */
  lemma AddWithinScale(t: Totals, s: Share)
    requires TotalsInScale(t) && InScale(s)
    ensures TotalsInScale(Add(t, s))
  {
    var product := s.value * s.points as real;
    ProductWithinScale(s.value, s.points);
    var a, b := t.points as real, s.points as real;
    assert (t.points + s.points) as real == a + b;
    assert 20.0 * (a + b) == 20.0 * a + 20.0 * b;
    assert Add(t, s).weighted == t.weighted + product;
  }

  lemma ProductWithinScale(v: real, p: int)
    requires 0.0 <= v <= 20.0 && p >= 0
    ensures 0.0 <= v * p as real <= 20.0 * p as real
  {
    var q := p as real;
    assert 0.0 <= v * q;
    assert (20.0 - v) * q >= 0.0;
    assert 20.0 * q - v * q == (20.0 - v) * q;
  }

  /** The rounded quotient of sums on the scale is on the scale. */
  lemma MeanWithinScale(t: Totals)
    requires TotalsInScale(t) && t.points > 0
    ensures 0.0 <= Round2(t.weighted / t.points as real) <= 20.0
  {
    var q := t.weighted / t.points as real;
    assert 0.0 <= q <= 20.0;
    Round2WithinGradeRange(q);
  }
}
