/**
 * The profile routes of `profile.js`: the overview with its study hours,
 * current and longest streak and goal percentages, the monthly-goal
 * defaults, and the last seven study days returned oldest first.
 */
module Profile {
  import opened Collections
  import opened Sorting
  import opened Grouping
  import opened Numbers
  import opened Calendar
  import opened Tables

  // ---------------------------------------------------------------------------
  // current_streak: distinct study days in the 31-day window ending today

  /** `COUNT(DISTINCT DATE(date))` over `date >= CURRENT_DATE - INTERVAL 30 DAY AND date <= CURRENT_DATE`. */
  function CurrentStreak(streak: seq<StreakRow>, today: Day): nat {
    |set r | r in streak && today - 30 <= r.date <= today :: r.date|
  }

  /**
   * At most 31, one per day of the window: days are counted once however
   * many rows they have, and they need not be consecutive.
   */
  lemma CurrentStreakBounds(streak: seq<StreakRow>, today: Day)
    ensures CurrentStreak(streak, today) <= 31
  {
    var days := set r | r in streak && today - 30 <= r.date <= today :: r.date;
    var window := IntRange(today - 30, today);
    SubsetSize(days, window);
  }

  /** A subset is no larger than its superset. */
  lemma SubsetSize(a: set<int>, b: set<int>)
    requires a <= b
    ensures |a| <= |b|
  {
    assert b == a + (b - a);
    assert a * (b - a) == {};
  }

  /** Studying today and two days ago counts two days, with today's second row counted once. */
  lemma CurrentStreakNotConsecutive(today: Day)
    ensures CurrentStreak([StreakRow(today, 100), StreakRow(today, 50), StreakRow(today - 2, 100)], today) == 2
  {
    var streak := [StreakRow(today, 100), StreakRow(today, 50), StreakRow(today - 2, 100)];
    var days := set r | r in streak && today - 30 <= r.date <= today :: r.date;
    assert streak[0] in streak && streak[2] in streak;
    assert days == {today, today - 2};
  }

  // ---------------------------------------------------------------------------
  // longest_streak: gaps and islands over the study days in date order

  /** A study day with its `ROW_NUMBER() OVER (ORDER BY date)`. */
  datatype RankedDay = RankedDay(date: int, rowNumber: int)

  /** `DATE_SUB(date, INTERVAL row_number DAY)`: constant along a run of consecutive days. */
  function IslandKey(r: RankedDay): int { r.date - r.rowNumber }

  function RankedOne(r: RankedDay): int { 1 }

  function RankedDate(r: RankedDay): int { r.date }

  function GroupCount(g: Group<int>): int { g.count }

  predicate ByStreakDate(a: StreakRow, b: StreakRow) {
    a.date <= b.date
  }

  /** The study days in date order. */
  function StudyDays(streak: seq<StreakRow>): seq<int> {
    Map(SortBy(streak, ByStreakDate), StreakDate)
  }

  /** Each day numbered from 1 in order. */
  function Ranked(ds: seq<int>): (r: seq<RankedDay>)
    ensures |r| == |ds| && forall i :: 0 <= i < |ds| ==> r[i] == RankedDay(ds[i], i + 1)
  {
    seq(|ds|, i requires 0 <= i < |ds| => RankedDay(ds[i], i + 1))
  }

  /** `GROUP BY DATE_SUB(date, INTERVAL row_number DAY)`, each island counting its rows. */
  function Islands(ds: seq<int>): seq<Group<int>> {
    GroupBy(Ranked(ds), IslandKey, RankedOne, RankedDate)
  }

  /** `COALESCE(MAX(streak_count), 0)` */
  function LongestIsland(ds: seq<int>): int {
    var gs := Islands(ds);
    if gs == [] then 0 else MaxOf(Map(gs, GroupCount))
  }

  function LongestStreak(streak: seq<StreakRow>): int {
    LongestIsland(StudyDays(streak))
  }

  predicate Increasing(ds: seq<int>) {
    forall i, j :: 0 <= i < j < |ds| ==> ds[i] < ds[j]
  }

  /** Every day d, d + 1, ..., d + len - 1 is among ds. */
  ghost predicate RunIn(ds: seq<int>, d: int, len: int) {
    forall x :: d <= x < d + len ==> x in ds
  }

  /** The rows of one island. */
  function OnIsland(k: int): RankedDay -> bool {
    (r: RankedDay) => IslandKey(r) == k
  }

  /** In an increasing sequence of integers, positions j - i apart are at least j - i apart in value. */
  lemma {:induction false} IncreasingGap(ds: seq<int>, i: nat, j: nat)
    requires Increasing(ds) && i <= j < |ds|
    ensures ds[j] - ds[i] >= j - i
    decreases j - i
  {
    if i < j {
      IncreasingGap(ds, i, j - 1);
    }
  }

  /** In an increasing sequence, a smaller value sits at an earlier position. */
  lemma IncreasingOrder(ds: seq<int>, i: nat, j: nat)
    requires Increasing(ds) && i < |ds| && j < |ds|
    ensures ds[i] < ds[j] ==> i < j
    ensures i <= j ==> ds[i] <= ds[j]
  {
    if j < i {
      assert ds[j] < ds[i];
    }
  }

  /** The island key never decreases along an increasing sequence. */
  lemma KeyMonotone(ds: seq<int>, i: nat, j: nat)
    requires Increasing(ds) && i <= j < |ds|
    ensures ds[i] - (i + 1) <= ds[j] - (j + 1)
  {
    IncreasingGap(ds, i, j);
  }

  /** An island's count is the number of days carrying its key. */
  lemma IslandCount(ds: seq<int>, g: Group<int>)
    requires g in Islands(ds)
    ensures g.count == CountBy(Ranked(ds), OnIsland(g.key))
  {
    var rows := Ranked(ds);
    GroupByMembers(rows, IslandKey, RankedOne, RankedDate);
    MembersAsFilter(rows, IslandKey, g.key, OnIsland(g.key));
    CountByIsFilterLength(rows, OnIsland(g.key));
  }

  /** The island through position i has a count no greater than the longest. */
  lemma IslandAtMostLongest(ds: seq<int>, i: nat)
    requires i < |ds|
    ensures CountBy(Ranked(ds), OnIsland(ds[i] - (i + 1))) <= LongestIsland(ds)
  {
    var rows := Ranked(ds);
    var k := ds[i] - (i + 1);
    var gs := Islands(ds);
    assert Map(rows, IslandKey)[i] == k;
    var g := GroupOf(rows, IslandKey, RankedOne, RankedDate, k);
    GroupByMembers(rows, IslandKey, RankedOne, RankedDate);
    assert g in gs;
    var n :| 0 <= n < |gs| && gs[n] == g;
    assert Map(gs, GroupCount)[n] == g.count;
    IslandCount(ds, g);
  }

  /** Positions first..last all carry key k, so the island of k counts at least that many rows. */
  lemma IslandAtLeast(ds: seq<int>, k: int, first: nat, last: nat)
    requires first <= last < |ds|
    requires forall i :: first <= i <= last ==> ds[i] - (i + 1) == k
    ensures CountBy(Ranked(ds), OnIsland(k)) >= last - first + 1
  {
    var rows := Ranked(ds);
    var inRun := (r: RankedDay) => first + 1 <= r.rowNumber <= last + 1;
    forall i | 0 <= i < |rows| ensures inRun(rows[i]) <==> first <= i <= last {
    }
    CountByInterval(rows, inRun, first, last);
    forall x | x in rows && inRun(x) ensures OnIsland(k)(x) {
      var i :| 0 <= i < |rows| && rows[i] == x;
    }
    CountByMonotone(rows, inRun, OnIsland(k));
  }

  /** The positions of an island are exactly an interval a..b. */
  lemma IslandInterval(ds: seq<int>, k: int, a: nat)
    requires Increasing(ds) && a < |ds| && ds[a] - (a + 1) == k
    requires forall i :: 0 <= i < a ==> ds[i] - (i + 1) != k
    ensures CountBy(Ranked(ds), OnIsland(k)) == IslandEnd(ds, k, a) - a + 1
  {
    var rows := Ranked(ds);
    var b := IslandEnd(ds, k, a);
    IslandPositions(ds, k, a);
    forall i | 0 <= i < |rows| ensures OnIsland(k)(rows[i]) <==> a <= i <= b {
    }
    CountByInterval(rows, OnIsland(k), a, b);
  }

  /** The key k sits at positions a..IslandEnd(ds, k, a) and nowhere else. */
  lemma IslandPositions(ds: seq<int>, k: int, a: nat)
    requires Increasing(ds) && a < |ds| && ds[a] - (a + 1) == k
    requires forall i :: 0 <= i < a ==> ds[i] - (i + 1) != k
    ensures forall i :: 0 <= i < |ds| ==> (ds[i] - (i + 1) == k <==> a <= i <= IslandEnd(ds, k, a))
  {
    var b := IslandEnd(ds, k, a);
    forall i | b < i < |ds| ensures ds[i] - (i + 1) != k {
      KeyMonotone(ds, b + 1, i);
      KeyMonotone(ds, b, b + 1);
    }
  }

  /** A run of consecutive days occupies consecutive positions. */
  lemma {:induction false} RunPositions(ds: seq<int>, d: int, len: int, i0: nat, t: nat)
    requires Increasing(ds) && RunIn(ds, d, len)
    requires i0 < |ds| && ds[i0] == d && t < len
    ensures i0 + t < |ds| && ds[i0 + t] == d + t
  {
    if t > 0 {
      RunPositions(ds, d, len, i0, t - 1);
      assert d + t in ds;
      var j :| 0 <= j < |ds| && ds[j] == d + t;
      IncreasingOrder(ds, i0 + t - 1, j);
      IncreasingOrder(ds, i0 + t - 1, i0 + t);
      IncreasingOrder(ds, i0 + t, j);
    }
  }

  /** No run of consecutive study days is longer than the longest island. */
  lemma RunAtMostLongest(ds: seq<int>, d: int, len: int)
    requires Increasing(ds) && RunIn(ds, d, len) && len >= 1
    ensures len <= LongestIsland(ds)
  {
    assert d in ds;
    var i0 :| 0 <= i0 < |ds| && ds[i0] == d;
    RunKeys(ds, d, len, i0);
    RunIslandBound(ds, d - (i0 + 1), i0, i0 + len - 1);
  }

  /** Positions first..last sharing one key are no more than the longest island. */
  lemma RunIslandBound(ds: seq<int>, k: int, first: nat, last: nat)
    requires first <= last < |ds|
    requires forall i :: first <= i <= last ==> ds[i] - (i + 1) == k
    ensures last - first + 1 <= LongestIsland(ds)
  {
    IslandAtLeast(ds, k, first, last);
    IslandAtMostLongest(ds, first);
  }

  /** The positions of a run starting at position i0 all carry the key of i0. */
  lemma RunKeys(ds: seq<int>, d: int, len: int, i0: nat)
    requires Increasing(ds) && RunIn(ds, d, len) && len >= 1
    requires i0 < |ds| && ds[i0] == d
    ensures i0 + len - 1 < |ds|
    ensures forall i :: i0 <= i <= i0 + len - 1 ==> ds[i] - (i + 1) == d - (i0 + 1)
  {
    RunPositions(ds, d, len, i0, len - 1);
    forall i | i0 <= i <= i0 + len - 1 ensures ds[i] - (i + 1) == d - (i0 + 1) {
      RunPositions(ds, d, len, i0, i - i0);
    }
  }

  /** From position a on a key, the last position of that island. */
  function IslandEnd(ds: seq<int>, k: int, a: nat): (b: nat)
    requires a < |ds| && ds[a] - (a + 1) == k
    ensures a <= b < |ds| && ds[b] - (b + 1) == k
    ensures b + 1 == |ds| || ds[b + 1] - (b + 2) != k
    ensures forall i :: a <= i <= b ==> ds[i] - (i + 1) == k
    decreases |ds| - a
  {
    if a + 1 < |ds| && ds[a + 1] - (a + 2) == k then IslandEnd(ds, k, a + 1) else a
  }

  /** Some island is at least as long as every other, and there is one when there are days. */
  lemma LongestIslandIsIsland(ds: seq<int>)
    requires |ds| > 0
    ensures exists g :: g in Islands(ds) && g.count == LongestIsland(ds)
    ensures LongestIsland(ds) >= 1
  {
    var rows := Ranked(ds);
    var gs := Islands(ds);
    assert Map(rows, IslandKey)[0] == ds[0] - 1;
    var g0 := GroupOf(rows, IslandKey, RankedOne, RankedDate, ds[0] - 1);
    GroupByMembers(rows, IslandKey, RankedOne, RankedDate);
    assert g0 in gs;
    var counts := Map(gs, GroupCount);
    var n :| 0 <= n < |gs| && counts[n] == MaxOf(counts);
    assert gs[n] in gs;
    var i0 :| 0 <= i0 < |gs| && gs[i0] == g0;
    assert counts[i0] == g0.count;
  }

  /** The island starting at position a covers the consecutive days from ds[a] on. */
  lemma IslandRunFrom(ds: seq<int>, k: int, a: nat)
    requires a < |ds| && ds[a] - (a + 1) == k
    ensures RunIn(ds, ds[a], IslandEnd(ds, k, a) - a + 1)
  {
    var b := IslandEnd(ds, k, a);
    forall x | ds[a] <= x < ds[a] + (b - a + 1) ensures x in ds {
      assert ds[a + (x - ds[a])] == x;
    }
  }

  /** The first position carrying an island's key. */
  lemma IslandStart(ds: seq<int>, g: Group<int>) returns (a: nat)
    requires g in Islands(ds)
    ensures a < |ds| && ds[a] - (a + 1) == g.key
    ensures forall i :: 0 <= i < a ==> ds[i] - (i + 1) != g.key
  {
    var rows := Ranked(ds);
    GroupByMembers(rows, IslandKey, RankedOne, RankedDate);
    var mk := Map(rows, IslandKey);
    var j :| 0 <= j < |mk| && mk[j] == g.key;
    assert OnIsland(g.key)(rows[j]);
    a := FindIndex(rows, OnIsland(g.key)).value;
    forall i | 0 <= i < a ensures ds[i] - (i + 1) != g.key {
      assert !OnIsland(g.key)(rows[i]);
    }
  }

  /** Every island is a run of consecutive study days as long as its count. */
  lemma IslandIsRun(ds: seq<int>, g: Group<int>)
    requires Increasing(ds) && g in Islands(ds)
    ensures exists d :: RunIn(ds, d, g.count)
  {
    var a := IslandStart(ds, g);
    var b := IslandEnd(ds, g.key, a);
    IslandInterval(ds, g.key, a);
    IslandCount(ds, g);
    assert g.count == b - a + 1;
    IslandRunFrom(ds, g.key, a);
    assert RunIn(ds, ds[a], g.count);
  }

  /** The longest island is a run of consecutive study days of that length. */
  lemma LongestIsRun(ds: seq<int>)
    requires Increasing(ds) && |ds| > 0
    ensures LongestIsland(ds) >= 1
    ensures exists d :: RunIn(ds, d, LongestIsland(ds))
  {
    LongestIslandIsIsland(ds);
    var g :| g in Islands(ds) && g.count == LongestIsland(ds);
    IslandIsRun(ds, g);
  }

  /** Without study days there are no islands and the streak is 0. */
  lemma LongestIslandEmpty(ds: seq<int>)
    requires ds == []
    ensures LongestIsland(ds) == 0
  {
    assert Map(Ranked(ds), IslandKey) == [];
  }

  // The rows of learning_streak, as the streak queries see them

  /** No two rows share a date. */
  ghost predicate DistinctDates(streak: seq<StreakRow>) {
    forall i, j :: 0 <= i < j < |streak| ==> streak[i].date != streak[j].date
  }

  /** Some row has date x. */
  ghost predicate StudiedOn(streak: seq<StreakRow>, x: int) {
    exists r :: r in streak && r.date == x
  }

  /** Every day of d .. d + len - 1 has a study row. */
  ghost predicate ActiveRun(streak: seq<StreakRow>, d: int, len: int) {
    forall x :: d <= x < d + len ==> StudiedOn(streak, x)
  }

  /** The study days in date order are the rows' dates, strictly increasing when the dates are distinct. */
  lemma StudyDaysFacts(streak: seq<StreakRow>)
    ensures |StudyDays(streak)| == |streak|
    ensures forall d :: d in StudyDays(streak) <==> StudiedOn(streak, d)
    ensures DistinctDates(streak) ==> Increasing(StudyDays(streak))
  {
    var sorted := SortBy(streak, ByStreakDate);
    SortByMembers(streak, ByStreakDate);
    MapMembers(sorted, StreakDate);
    if DistinctDates(streak) {
      StudyDaysIncreasing(streak);
    }
  }

  /** Distinct dates in date order strictly increase. */
  lemma StudyDaysIncreasing(streak: seq<StreakRow>)
    requires DistinctDates(streak)
    ensures Increasing(StudyDays(streak))
  {
    var sorted := SortBy(streak, ByStreakDate);
    var ds := StudyDays(streak);
    SortByMembers(streak, ByStreakDate);
    assert TotalPreorder(ByStreakDate);
    SortBySorted(streak, ByStreakDate);
    assert NoDuplicates(streak);
    SortByPermutes(streak, ByStreakDate);
    PermutationKeepsNoDuplicates(streak, sorted);
    forall i, j | 0 <= i < j < |ds| ensures ds[i] < ds[j] {
      assert sorted[i] in streak && sorted[j] in streak;
      var p :| 0 <= p < |streak| && streak[p] == sorted[i];
      var q :| 0 <= q < |streak| && streak[q] == sorted[j];
      assert p != q;
    }
  }

  /**
   * For distinct dates, the longest streak is the length of the longest run
   * of consecutive study days: 0 exactly when there are no rows, some run
   * has that length, and no run is longer.
   */
  lemma LongestStreakIsLongestRun(streak: seq<StreakRow>)
    requires DistinctDates(streak)
    ensures LongestStreak(streak) == 0 <==> streak == []
    ensures exists d :: ActiveRun(streak, d, LongestStreak(streak))
    ensures forall d, len :: len >= 1 && ActiveRun(streak, d, len) ==> len <= LongestStreak(streak)
  {
    var ds := StudyDays(streak);
    StudyDaysFacts(streak);
    if streak == [] {
      LongestIslandEmpty(ds);
      assert ActiveRun(streak, 0, 0);
    } else {
      LongestIsRun(ds);
      var d :| RunIn(ds, d, LongestIsland(ds));
      assert ActiveRun(streak, d, LongestStreak(streak));
    }
    forall d, len | len >= 1 && ActiveRun(streak, d, len) ensures len <= LongestStreak(streak) {
      assert RunIn(ds, d, len);
      RunAtMostLongest(ds, d, len);
    }
  }

  // ---------------------------------------------------------------------------
  // Goal percentages with the NULLIF/COALESCE zero policy

  /**
   * `COALESCE(part * 100.0 / NULLIF(whole, 0), 0)` then `Math.round`: 0 for
   * an empty whole, the rounded percentage otherwise.
   */
  function GoalPercentage(part: int, whole: int): int {
    if whole == 0 then 0 else JsRoundDiv(part * 100, whole)
  }

  /** `course_completion`: the user's completed courses as a percentage of all their courses. */
  function CourseCompletion(courses: seq<CourseRow>): int {
    GoalPercentage(CountBy(courses, IsCompletedCourse), |courses|)
  }

  function CertificationGoals(certs: seq<CertificationRow>): int {
    GoalPercentage(CountBy(certs, IsCompletedCertification), |certs|)
  }

  /** A part of a whole, as a rounded percentage, is 0 for an empty whole and lies in [0, 100]; all of it is 100. */
  lemma GoalPercentageRange(part: int, whole: int)
    requires 0 <= part <= whole
    ensures whole == 0 ==> GoalPercentage(part, whole) == 0
    ensures 0 <= GoalPercentage(part, whole) <= 100
    ensures whole > 0 && part == whole ==> GoalPercentage(part, whole) == 100
  {
    if whole > 0 {
      RoundedPercentInRange(part, whole);
      if part == whole {
        assert whole * (2 * 100 - 1) <= 2 * (part * 100) < whole * (2 * 100 + 1);
        FloorHalfUpUnique(part * 100, whole, 100);
      }
    }
  }

  /** Course completion: 0 without courses, within [0, 100], and 100 when every course is completed. */
  lemma CourseCompletionRange(courses: seq<CourseRow>)
    ensures courses == [] ==> CourseCompletion(courses) == 0
    ensures 0 <= CourseCompletion(courses) <= 100
    ensures courses != [] && (forall i :: 0 <= i < |courses| ==> courses[i].status == "completed") ==>
      CourseCompletion(courses) == 100
  {
    GoalPercentageRange(CountBy(courses, IsCompletedCourse), |courses|);
    if forall i :: 0 <= i < |courses| ==> courses[i].status == "completed" {
      FilterKeepsAll(courses, IsCompletedCourse);
      CountByIsFilterLength(courses, IsCompletedCourse);
    }
  }

  /** Certification goals: 0 without certifications, otherwise within [0, 100]. */
  lemma CertificationGoalsRange(certs: seq<CertificationRow>)
    ensures certs == [] ==> CertificationGoals(certs) == 0
    ensures 0 <= CertificationGoals(certs) <= 100
  {
    GoalPercentageRange(CountBy(certs, IsCompletedCertification), |certs|);
  }

  function InMonthOf(today: Day): StreakRow -> bool {
    (r: StreakRow) => MonthOf(r.date) == MonthOf(today)
  }

  /**
   * `study_time_target`: this month's hours (`MONTH(date) = MONTH(CURRENT_DATE)`,
   * so in any year) over the monthly target, as a rounded percentage. A
   * missing target row, a target of 0 (division by zero is NULL) or no row
   * this month (`SUM` of nothing is NULL) gives 0.
   */
  function StudyTimeTarget(streak: seq<StreakRow>, target: Option<int>, today: Day): int {
    var month := Filter(streak, InMonthOf(today));
    if target.None? || target.value == 0 || month == [] then 0
    else JsRoundDiv(SumBy(month, StreakHours) * 100, target.value)
  }

  /** Without a target the study target is 0; with one it is the rounded ratio, not clamped to 100. */
  lemma StudyTimeTargetFacts(streak: seq<StreakRow>, target: Option<int>, today: Day)
    ensures target.None? ==> StudyTimeTarget(streak, target, today) == 0
    ensures StudyTimeTarget([StreakRow(today, 300)], Some(100), today) == 300
  {
    var one := [StreakRow(today, 300)];
    assert Filter(one, InMonthOf(today)) == one;
    assert SumBy(one, StreakHours) == 300;
    FloorHalfUpUnique(300 * 100, 100, 300);
  }

  // ---------------------------------------------------------------------------
  // Monthly goals: the first monthly_stats row of this month number

  /** A `monthly_stats` row; either goal column may be NULL. */
  datatype MonthlyStatsRow = MonthlyStatsRow(month: Day, completedGoals: Option<int>, totalGoals: Option<int>)

  /** `v || fallback`: NULL and 0 both give way to the fallback. */
  function OrFallback(v: Option<int>, fallback: int): int {
    if v.Some? && v.value != 0 then v.value else fallback
  }

  /** `WHERE MONTH(month) = MONTH(CURRENT_DATE) LIMIT 1` */
  function ThisMonthGoals(rows: seq<MonthlyStatsRow>, today: Day): Option<MonthlyStatsRow> {
    Find(rows, (r: MonthlyStatsRow) => MonthOf(r.month) == MonthOf(today))
  }

  /** `monthlyGoals[0]?.completed_goals || 0` and `monthlyGoals[0]?.total_goals || 4`. */
  function MonthlyGoals(rows: seq<MonthlyStatsRow>, today: Day): (int, int) {
    match ThisMonthGoals(rows, today)
    case None => (0, 4)
    case Some(r) => (OrFallback(r.completedGoals, 0), OrFallback(r.totalGoals, 4))
  }

  /**
   * Without a row for this month the goals are 0 of 4; with one, a NULL or
   * 0 total still reads 4, a NULL completed count reads 0, and other values
   * are shown as stored.
   */
  lemma MonthlyGoalsDefaults(rows: seq<MonthlyStatsRow>, today: Day)
    ensures ThisMonthGoals(rows, today).None? ==> MonthlyGoals(rows, today) == (0, 4)
    ensures ThisMonthGoals(rows, today).Some? ==>
      var r := ThisMonthGoals(rows, today).value;
      && MonthOf(r.month) == MonthOf(today)
      && MonthlyGoals(rows, today).1 == (if r.totalGoals.None? || r.totalGoals.value == 0 then 4 else r.totalGoals.value)
      && MonthlyGoals(rows, today).0 == (if r.completedGoals.None? then 0 else r.completedGoals.value)
  {
  }

  // ---------------------------------------------------------------------------
  // GET /overview

  datatype ProfileOverview = ProfileOverview(
    name: string, email: string,
    studyHours: int, completedCourses: nat, certificates: nat, currentStreak: nat,
    courseCompletion: int, studyTimeTarget: int, certificationGoals: int,
    longestStreak: int, monthlyGoalsCompleted: int, monthlyGoalsTotal: int, totalHours: int)

  /** `overview[0]` of a user that does not exist is undefined, and reading it fails with a 500. */
  datatype OverviewResult = Overview(overview: ProfileOverview) | Failed

  function StreakSide(streak: seq<StreakRow>): seq<Option<StreakRow>> {
    if streak == [] then [None] else LeftSide(streak)
  }

  function CourseSide(courses: seq<CourseRow>): seq<Option<CourseRow>> {
    if courses == [] then [None] else LeftSide(courses)
  }

  function HoursOrZero(o: Option<StreakRow>): int { if o.Some? then o.value.hours else 0 }

  function JoinedStreakHours(p: (Option<StreakRow>, Option<CourseRow>)): int { HoursOrZero(p.0) }

  /**
   * `COALESCE(SUM(ls.hours_spent), 0)` over `users LEFT JOIN learning_streak
   * LEFT JOIN courses`: every streak row is paired with every course of the
   * user, or with one NULL course row when there is none.
   */
  function TotalStudyHours(streak: seq<StreakRow>, courses: seq<CourseRow>): int {
    SumBy(Cross(StreakSide(streak), CourseSide(courses)), JoinedStreakHours)
  }

  /** The join counts each streak row's hours once per course of the user (once when there is none). */
  lemma TotalStudyHoursFanOut(streak: seq<StreakRow>, courses: seq<CourseRow>)
    ensures TotalStudyHours(streak, courses) == SumBy(streak, StreakHours) * (if courses == [] then 1 else |courses|)
  {
    SumByCrossLeft(StreakSide(streak), CourseSide(courses), HoursOrZero, JoinedStreakHours);
    if streak == [] {
      assert SumBy(StreakSide(streak), HoursOrZero) == 0;
    } else {
      SumByWrapped(streak, StreakHours, HoursOrZero);
    }
  }

  function OverviewOf(user: Option<UserRow>, streak: seq<StreakRow>, courses: seq<CourseRow>,
                      certs: seq<CertificationRow>, target: Option<int>,
                      monthly: seq<MonthlyStatsRow>, today: Day): OverviewResult
  {
    if user.None? then Failed
    else
      var hours := JsRoundDiv(TotalStudyHours(streak, courses), 100);
      var goals := MonthlyGoals(monthly, today);
      Overview(ProfileOverview(
        user.value.name, user.value.email,
        hours, CountBy(courses, IsCompletedCourse), |certs|, CurrentStreak(streak, today),
        CourseCompletion(courses), StudyTimeTarget(streak, target, today), CertificationGoals(certs),
        LongestStreak(streak), goals.0, goals.1, hours))
  }

  /**
   * A missing user fails; otherwise `studyHours` and `totalHours` are the same
   * rounded total, the current streak is at most 31 and both completion
   * percentages lie in [0, 100].
   */
  lemma OverviewFacts(user: Option<UserRow>, streak: seq<StreakRow>, courses: seq<CourseRow>,
                      certs: seq<CertificationRow>, target: Option<int>,
                      monthly: seq<MonthlyStatsRow>, today: Day)
    ensures var r := OverviewOf(user, streak, courses, certs, target, monthly, today);
      && (r.Failed? <==> user.None?)
      && (r.Overview? ==>
            && r.overview.studyHours == r.overview.totalHours
            && r.overview.currentStreak <= 31
            && 0 <= r.overview.courseCompletion <= 100
            && 0 <= r.overview.certificationGoals <= 100
            && r.overview.completedCourses <= |courses|)
  {
    CurrentStreakBounds(streak, today);
    CourseCompletionRange(courses);
    CertificationGoalsRange(certs);
  }

  // ---------------------------------------------------------------------------
  // GET /streak: the seven most recent rows, returned oldest first

  predicate NewestFirst(a: StreakRow, b: StreakRow) {
    a.date >= b.date
  }

  /** `ORDER BY date DESC LIMIT 7` */
  function MostRecent(streak: seq<StreakRow>): seq<StreakRow> {
    Take(SortBy(streak, NewestFirst), 7)
  }

  /** `Array.prototype.reverse`: reverses the array in place. */
  method ReverseInPlace(a: array<StreakRow>)
    modifies a
    ensures a[..] == Reverse(old(a[..]))
  {
    var i, j := 0, a.Length - 1;
    while i < j
      invariant 0 <= i && j == a.Length - 1 - i && i <= j + 1
      invariant forall k :: 0 <= k < i ==> a[k] == old(a[a.Length - 1 - k]) && a[a.Length - 1 - k] == old(a[k])
      invariant forall k :: i <= k <= j ==> a[k] == old(a[k])
    {
      a[i], a[j] := a[j], a[i];
      i, j := i + 1, j - 1;
    }
    forall k | 0 <= k < a.Length ensures a[k] == Reverse(old(a[..]))[k] {
      ReverseAt(old(a[..]), k);
    }
  }

  /** The `/streak` response: the query's rows, reversed. */
  method RecentStreak(streak: seq<StreakRow>) returns (out: seq<StreakRow>)
    ensures out == Reverse(MostRecent(streak))
  {
    var rows := MostRecent(streak);
    var a := new StreakRow[|rows|](i requires 0 <= i < |rows| => rows[i]);
    assert a[..] == rows;
    ReverseInPlace(a);
    out := a[..];
  }

  /**
   * At most seven rows, the user's own, oldest first; a row left out is no
   * more recent than any row returned.
   */
  lemma RecentStreakFacts(streak: seq<StreakRow>)
    ensures var r := Reverse(MostRecent(streak));
      && |r| == (if |streak| < 7 then |streak| else 7)
      && (forall i, j :: 0 <= i < j < |r| ==> r[i].date <= r[j].date)
      && (forall x :: x in r ==> x in streak)
      && multiset(r) <= multiset(streak)
      && (forall x :: multiset(MostRecent(streak))[x] < multiset(streak)[x] ==>
            forall y :: y in r ==> x.date <= y.date)
  {
    var t := SortBy(streak, NewestFirst);
    var kept := MostRecent(streak);
    var r := Reverse(kept);
    assert TotalPreorder(NewestFirst);
    SortBySorted(streak, NewestFirst);
    SortByMembers(streak, NewestFirst);
    LimitLeftOut(streak, NewestFirst, |kept|);
    SortedPrefixSubMultiset(streak, NewestFirst, |kept|);
    ReversePermutes(kept);
    assert SortedBy(kept, NewestFirst);
    ReverseSorted(kept, NewestFirst);
    forall x | x in r ensures x in kept && x in streak {
      var i :| 0 <= i < |r| && r[i] == x;
      ReverseAt(kept, i);
      assert kept[|kept| - 1 - i] == x;
      assert t[|kept| - 1 - i] == x;
    }
  }
}
