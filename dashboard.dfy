/**
 * Dashboard statistics (`GET /dashboard/stats`): this month's and last
 * month's `monthly_stats` rows, each replaced by all zeros when absent, and
 * for each of the four metrics its current value and its percentage change.
 */
module Dashboard {
  import opened Collections
  import opened Numbers
  import opened Calendar

  /**
   * `calculatePercentageChange(oldValue, newValue)`: 100 when the old value
   * is 0, whatever the new value is; otherwise the relative change in percent,
   * rounded as `Math.round` does (halves toward +infinity) and not clamped.
   */
  function PercentageChange(oldValue: int, newValue: int): (r: int)
    ensures oldValue == 0 ==> r == 100
    ensures oldValue > 0 ==>
      oldValue * (2 * r - 1) <= 200 * (newValue - oldValue) < oldValue * (2 * r + 1)
    ensures oldValue < 0 ==>
      -oldValue * (2 * r - 1) <= -200 * (newValue - oldValue) < -oldValue * (2 * r + 1)
  {
    if oldValue == 0 then 100 else JsRoundDiv((newValue - oldValue) * 100, oldValue)
  }

  /** Even "0 to 0" is reported as a change of 100. */
  lemma ChangeFromZeroIsHundred(newValue: int)
    ensures PercentageChange(0, newValue) == 100
  {
  }

  /** Against a positive baseline the sign of the change follows the direction of the move. */
  lemma ChangeSign(oldValue: int, newValue: int)
    requires oldValue > 0
    ensures newValue == oldValue ==> PercentageChange(oldValue, newValue) == 0
    ensures newValue < oldValue ==> PercentageChange(oldValue, newValue) <= 0
    ensures newValue > oldValue ==> PercentageChange(oldValue, newValue) >= 0
    ensures newValue >= 2 * oldValue ==> PercentageChange(oldValue, newValue) >= 100
    ensures newValue == 0 ==> PercentageChange(oldValue, newValue) == -100
  {
    var r := PercentageChange(oldValue, newValue);
    if newValue == 0 {
      FloorHalfUpUnique(-100 * oldValue, oldValue, -100);
    }
    if newValue >= 2 * oldValue {
      FloorHalfUpMonotone(100 * oldValue, (newValue - oldValue) * 100, oldValue);
      FloorHalfUpUnique(100 * oldValue, oldValue, 100);
    }
    if newValue < oldValue {
      FloorHalfUpMonotone((newValue - oldValue) * 100, 0, oldValue);
    }
    if newValue > oldValue {
      FloorHalfUpMonotone(0, (newValue - oldValue) * 100, oldValue);
    }
  }

  /** The change is not clamped to 100: tripling is +200. */
  lemma ChangeNotClamped(oldValue: int)
    requires oldValue > 0
    ensures PercentageChange(oldValue, 3 * oldValue) == 200
  {
    FloorHalfUpUnique(200 * oldValue, oldValue, 200);
  }

  /** For a fixed positive baseline, a larger new value never gives a smaller change. */
  lemma ChangeMonotone(oldValue: int, n1: int, n2: int)
    requires oldValue > 0 && n1 <= n2
    ensures PercentageChange(oldValue, n1) <= PercentageChange(oldValue, n2)
  {
    FloorHalfUpMonotone((n1 - oldValue) * 100, (n2 - oldValue) * 100, oldValue);
  }

  // ---------------------------------------------------------------------------
  // The /stats assembly

  datatype Counts = Counts(activeCourses: int, certifications: int, skillsMastered: int, learningHours: int)

  /** A `monthly_stats` row of the user: the date in its `month` column and its four metrics. */
  datatype MonthlyStat = MonthlyStat(month: Day, counts: Counts)

  datatype Metric = Metric(current: int, change: int)

  datatype DashboardStats = DashboardStats(
    activeCourses: Metric, certifications: Metric, skillsMastered: Metric, learningHours: Metric)

  const ZeroCounts := Counts(0, 0, 0, 0)

  /**
   * `SELECT ... WHERE MONTH(month) = m LIMIT 1`, then `stats[0] || {zeros}`:
   * the first row whose month number is m (whatever its year), or all zeros.
   */
  function CountsForMonth(rows: seq<MonthlyStat>, m: int): (c: Counts)
    ensures (forall i :: 0 <= i < |rows| ==> MonthOf(rows[i].month) != m) ==> c == ZeroCounts
    ensures forall i :: 0 <= i < |rows| && MonthOf(rows[i].month) == m &&
                        (forall j :: 0 <= j < i ==> MonthOf(rows[j].month) != m) ==>
                        c == rows[i].counts
  {
    match FindIndex(rows, (r: MonthlyStat) => MonthOf(r.month) == m)
    case None => ZeroCounts
    case Some(i) => rows[i].counts
  }

  function MetricOf(previous: int, current: int): Metric {
    Metric(current, PercentageChange(previous, current))
  }

  /** `GET /dashboard/stats` for the day `today`. */
  function Stats(rows: seq<MonthlyStat>, today: Day): DashboardStats {
    var current := CountsForMonth(rows, MonthOf(today));
    var previous := CountsForMonth(rows, PrevMonth(MonthOf(today)));
    DashboardStats(
      MetricOf(previous.activeCourses, current.activeCourses),
      MetricOf(previous.certifications, current.certifications),
      MetricOf(previous.skillsMastered, current.skillsMastered),
      MetricOf(previous.learningHours, current.learningHours))
  }

  /** Row i is the first whose `month` falls in month number m. */
  ghost predicate FirstOfMonth(rows: seq<MonthlyStat>, m: int, i: int) {
    0 <= i < |rows| && MonthOf(rows[i].month) == m && forall j :: 0 <= j < i ==> MonthOf(rows[j].month) != m
  }

  /**
   * With row i the first of this month and row j the first of the previous
   * one, every metric shows row i's value and its change from row j's.
   */
  lemma StatsFromRows(rows: seq<MonthlyStat>, today: Day, i: int, j: int)
    requires FirstOfMonth(rows, MonthOf(today), i)
    requires FirstOfMonth(rows, PrevMonth(MonthOf(today)), j)
    ensures var s := Stats(rows, today);
      var c, p := rows[i].counts, rows[j].counts;
      && s.activeCourses == Metric(c.activeCourses, PercentageChange(p.activeCourses, c.activeCourses))
      && s.certifications == Metric(c.certifications, PercentageChange(p.certifications, c.certifications))
      && s.skillsMastered == Metric(c.skillsMastered, PercentageChange(p.skillsMastered, c.skillsMastered))
      && s.learningHours == Metric(c.learningHours, PercentageChange(p.learningHours, c.learningHours))
  {
    assert CountsForMonth(rows, MonthOf(today)) == rows[i].counts;
    assert CountsForMonth(rows, PrevMonth(MonthOf(today))) == rows[j].counts;
  }

  ghost predicate HasMonth(rows: seq<MonthlyStat>, m: int) {
    exists i :: 0 <= i < |rows| && MonthOf(rows[i].month) == m
  }

  /**
   * With no row for the previous month, every metric's baseline is the zero
   * default, so every change is 100; the current values are still those of
   * this month's row (or 0).
   */
  lemma NoPreviousMonthMeansHundred(rows: seq<MonthlyStat>, today: Day)
    requires !HasMonth(rows, PrevMonth(MonthOf(today)))
    ensures var s := Stats(rows, today);
      && s.activeCourses.change == 100 && s.certifications.change == 100
      && s.skillsMastered.change == 100 && s.learningHours.change == 100
  {
    assert CountsForMonth(rows, PrevMonth(MonthOf(today))) == ZeroCounts;
  }

  /**
   * With no row for this month, every current value is 0, and each change is
   * -100 when last month's value was positive (100 when it was 0).
   */
  lemma NoCurrentMonthMeansZero(rows: seq<MonthlyStat>, today: Day)
    requires !HasMonth(rows, MonthOf(today))
    ensures var s := Stats(rows, today);
      var p := CountsForMonth(rows, PrevMonth(MonthOf(today)));
      && s.activeCourses.current == 0 && s.certifications.current == 0
      && s.skillsMastered.current == 0 && s.learningHours.current == 0
      && (p.learningHours > 0 ==> s.learningHours.change == -100)
      && (p.activeCourses > 0 ==> s.activeCourses.change == -100)
      && (p.certifications > 0 ==> s.certifications.change == -100)
      && (p.skillsMastered > 0 ==> s.skillsMastered.change == -100)
  {
    var p := CountsForMonth(rows, PrevMonth(MonthOf(today)));
    assert CountsForMonth(rows, MonthOf(today)) == ZeroCounts;
    if p.learningHours > 0 { ChangeSign(p.learningHours, 0); }
    if p.activeCourses > 0 { ChangeSign(p.activeCourses, 0); }
    if p.certifications > 0 { ChangeSign(p.certifications, 0); }
    if p.skillsMastered > 0 { ChangeSign(p.skillsMastered, 0); }
  }

  /**
   * Rows are matched on the month number only: a row dated in the same month
   * of another year is taken as this month's row when it comes first.
   */
  lemma MonthMatchIgnoresYear(row: MonthlyStat, rest: seq<MonthlyStat>, today: Day)
    requires MonthOf(row.month) == MonthOf(today)
    ensures Stats([row] + rest, today).learningHours.current == row.counts.learningHours
    ensures Stats([row] + rest, today).activeCourses.current == row.counts.activeCourses
  {
    assert ([row] + rest)[0] == row;
  }
}
