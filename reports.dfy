/**
 * The report routes of `reports.js`: the monthly report with its default row
 * seeded on first request, the hours, skill and certification
 * distributions, the skill-growth pivot, the daily activity window, the
 * overview counts and the per-type overall progress.
 */
module Reports {
  import opened Collections
  import opened Sorting
  import opened Grouping
  import opened Numbers
  import opened Calendar
  import opened Tables
  import opened Pivots
  import opened Ranking

  // ---------------------------------------------------------------------------
  // GET /stats: read this month's report, seeding a default row when there is none

  /** A `monthly_reports` row of the user; the metric columns may be NULL. */
  datatype ReportRow = ReportRow(
    month: Day, progress: Option<int>, goalsCompleted: Option<int>, goalsTotal: Option<int>,
    studyHours: Option<int>, certifications: Option<int>)

  /** The `/stats` response. */
  datatype ReportStats = ReportStats(
    progress: int, goalsCompleted: int, goalsTotal: int, studyTime: int, certifications: int)

  /** The values seeded for a month without a report: 0 of 4 goals, nothing else done. */
  const DefaultStats := ReportStats(0, 0, 4, 0, 0)

  /** The row inserted for the month of `today` when it has none. */
  function DefaultRow(today: Day): ReportRow {
    ReportRow(today, Some(0), Some(0), Some(4), Some(0), Some(0))
  }

  /** `COALESCE(column, 0)` */
  function OrZero(v: Option<int>): int {
    if v.Some? then v.value else 0
  }

  function Coalesced(r: ReportRow): ReportStats {
    ReportStats(OrZero(r.progress), OrZero(r.goalsCompleted), OrZero(r.goalsTotal),
                OrZero(r.studyHours), OrZero(r.certifications))
  }

  /** `WHERE MONTH(month) = MONTH(CURRENT_DATE) LIMIT 1`: the position of the first row of this month number. */
  function CurrentReport(rows: seq<ReportRow>, today: Day): Option<nat> {
    FindIndex(rows, (r: ReportRow) => MonthOf(r.month) == MonthOf(today))
  }

  /** The table after the request: one default row appended when this month had none. */
  function SeededRows(rows: seq<ReportRow>, today: Day): seq<ReportRow> {
    if CurrentReport(rows, today).None? then rows + [DefaultRow(today)] else rows
  }

  /** The response: the first row of this month with NULLs read as 0, or the defaults. */
  function StatsResponse(rows: seq<ReportRow>, today: Day): ReportStats {
    match CurrentReport(rows, today)
    case None => DefaultStats
    case Some(i) => Coalesced(rows[i])
  }

  /** The `monthly_reports` table of the user. */
  class MonthlyReports {
    var rows: seq<ReportRow>

    constructor(initial: seq<ReportRow>)
      ensures rows == initial
    {
      rows := initial;
    }

    /** `GET /reports/stats` on the day `today`. */
    method Stats(today: Day) returns (r: ReportStats)
      modifies this
      ensures rows == SeededRows(old(rows), today)
      ensures r == StatsResponse(old(rows), today)
    {
      var found := CurrentReport(rows, today);
      if found.None? {
        rows := rows + [DefaultRow(today)];
        r := DefaultStats;
      } else {
        r := Coalesced(rows[found.value]);
      }
    }
  }

  /**
   * With no report for this month number, exactly one row is inserted, dated
   * today, and the response holds exactly the inserted values.
   */
  lemma SeedWhenAbsent(rows: seq<ReportRow>, today: Day)
    requires forall i :: 0 <= i < |rows| ==> MonthOf(rows[i].month) != MonthOf(today)
    ensures SeededRows(rows, today) == rows + [DefaultRow(today)]
    ensures StatsResponse(rows, today) == ReportStats(0, 0, 4, 0, 0)
    ensures StatsResponse(rows, today) == Coalesced(DefaultRow(today))
  {
  }

  /**
   * With a report for this month number, nothing is inserted and the response
   * is the first such row with its NULL columns read as 0.
   */
  lemma SeedWhenPresent(rows: seq<ReportRow>, today: Day, i: nat)
    requires i < |rows| && MonthOf(rows[i].month) == MonthOf(today)
    requires forall j :: 0 <= j < i ==> MonthOf(rows[j].month) != MonthOf(today)
    ensures SeededRows(rows, today) == rows
    ensures StatsResponse(rows, today) == Coalesced(rows[i])
    ensures rows[i].goalsTotal.None? ==> StatsResponse(rows, today).goalsTotal == 0
  {
    var f := CurrentReport(rows, today);
    assert f.Some?;
  }

  /**
   * Asking twice is asking once: the second request finds the row the first
   * one seeded, inserts nothing more and answers the same.
   */
  lemma SeedIdempotent(rows: seq<ReportRow>, today: Day)
    ensures SeededRows(SeededRows(rows, today), today) == SeededRows(rows, today)
    ensures StatsResponse(SeededRows(rows, today), today) == StatsResponse(rows, today)
  {
    if CurrentReport(rows, today).None? {
      var rows' := rows + [DefaultRow(today)];
      assert MonthOf(rows'[|rows|].month) == MonthOf(today);
      var f := CurrentReport(rows', today);
      assert f.Some?;
      assert f.value == |rows| by {
        assert forall j :: 0 <= j < |rows| ==> rows'[j] == rows[j];
      }
    }
  }

  // ---------------------------------------------------------------------------
  // GET /hours-distribution

  datatype HoursEntry = HoursEntry(month: string, category: string, hours: int)

  /**
   * `GROUP BY DATE_FORMAT(date, '%b') ORDER BY MIN(date)`: one group per month
   * label, summing hours, earliest first.
   */
  function HoursGroups(rows: seq<StreakRow>): seq<Group<string>> {
    OrderByFirst(GroupBy(rows, StreakLabel, StreakHours, StreakDate))
  }

  function HoursOf(g: Group<string>): HoursEntry {
    HoursEntry(g.key, "Study Hours", g.total)
  }

  /** `... LIMIT 6`, each group shown as (month, 'Study Hours', hours). */
  function HoursDistribution(rows: seq<StreakRow>): seq<HoursEntry> {
    Map(Take(HoursGroups(rows), 6), HoursOf)
  }

  /**
   * At most six entries, no label twice, each the 'Study Hours' total of the
   * rows carrying its label; which rows those are is `LabelMembersAreMonth`.
   */
  lemma HoursDistributionFacts(rows: seq<StreakRow>)
    ensures var r := HoursDistribution(rows);
      && |r| <= 6
      && |r| == (if |KeysOf(rows, StreakLabel)| <= 6 then |KeysOf(rows, StreakLabel)| else 6)
      && (forall i, j :: 0 <= i < j < |r| ==> r[i].month != r[j].month)
      && (forall i :: 0 <= i < |r| ==> r[i].category == "Study Hours" && r[i].month in Map(rows, StreakLabel))
      && (forall i :: 0 <= i < |r| ==> r[i].hours == SumBy(Members(rows, StreakLabel, r[i].month), StreakHours))
  {
    var gs := HoursGroups(rows);
    var r := HoursDistribution(rows);
    HoursGroupsKeys(rows);
    HoursGroupsTotals(rows);
    MapTake(gs, 6, HoursOf);
    forall i | 0 <= i < |r|
      ensures r[i].category == "Study Hours" && r[i].month in Map(rows, StreakLabel)
      ensures r[i].hours == SumBy(Members(rows, StreakLabel, r[i].month), StreakHours)
    {
      assert r[i] == HoursOf(gs[i]);
    }
  }


  /** As many groups as labels, no label twice. */
  lemma HoursGroupsKeys(rows: seq<StreakRow>)
    ensures |HoursGroups(rows)| == |KeysOf(rows, StreakLabel)|
    ensures forall i, j :: 0 <= i < j < |HoursGroups(rows)| ==> HoursGroups(rows)[i].key != HoursGroups(rows)[j].key
  {
    OrderedGroupsFacts(rows, StreakLabel, StreakHours, StreakDate);
  }

  /** Each group is a label of the rows with the sum of those rows' hours. */
  lemma HoursGroupsTotals(rows: seq<StreakRow>)
    ensures forall i :: 0 <= i < |HoursGroups(rows)| ==>
      HoursGroups(rows)[i].key in Map(rows, StreakLabel) &&
      HoursGroups(rows)[i].total == SumBy(Members(rows, StreakLabel, HoursGroups(rows)[i].key), StreakHours)
  {
    var gs := HoursGroups(rows);
    OrderedGroupsAt(rows, StreakLabel, StreakHours, StreakDate);
  }

  /**
   * Years are merged: the rows under the label of month m are exactly the
   * rows dated in month m of any year.
   */
  lemma LabelMembersAreMonth(rows: seq<StreakRow>, m: int)
    requires 1 <= m <= 12
    ensures forall x :: x in Members(rows, StreakLabel, MonthLabel(m)) <==> x in rows && MonthOf(x.date) == m
  {
    MembersOf(rows, StreakLabel, MonthLabel(m));
    forall x ensures StreakLabel(x) == MonthLabel(m) <==> MonthOf(x.date) == m {
      LabelOfMonth(x.date, m);
    }
  }

  /** `LIMIT 6` keeps the oldest labels: a label of the rows that was cut starts no earlier than any entry kept. */
  lemma HoursKeepsOldest(rows: seq<StreakRow>, month: string)
    requires month in Map(rows, StreakLabel)
    requires forall i :: 0 <= i < |HoursDistribution(rows)| ==> HoursDistribution(rows)[i].month != month
    ensures forall i :: 0 <= i < |Take(HoursGroups(rows), 6)| ==>
      Take(HoursGroups(rows), 6)[i].first <= GroupOf(rows, StreakLabel, StreakHours, StreakDate, month).first
  {
    var kept := Take(HoursGroups(rows), 6);
    forall i | 0 <= i < |kept| ensures kept[i].key != month {
      assert HoursDistribution(rows)[i].month == kept[i].key;
    }
    LimitKeepsEarliest(rows, StreakLabel, StreakHours, StreakDate, 6, month);
  }

  // ---------------------------------------------------------------------------
  // GET /skill-distribution: the average per category type, then a fixed fill

  /** One row of the query and one entry of the response. */
  datatype CategoryShare = CategoryShare(category: string, percentage: int)

  /** `ROUND(AVG(proficiency_level), 2)` per type, in hundredths, one row per type present. */
  function TypeAverages(skills: seq<SkillRow>): seq<CategoryShare> {
    Map(GroupBy(skills, SkillCategory, SkillProficiency, SkillProficiency),
        (g: Group<string>) => CategoryShare(g.key, RoundedAverage(g, 100)))
  }

  /** The entry for one fixed category: the first query row of that category, or 0. */
  function FillCategory(rows: seq<CategoryShare>, category: string): CategoryShare {
    match Find(rows, (r: CategoryShare) => r.category == category)
    case Some(found) => CategoryShare(category, found.percentage)
    case None => CategoryShare(category, 0)
  }

  const FixedCategories: seq<string> := ["technical", "soft"]

  function SkillDistribution(skills: seq<SkillRow>): seq<CategoryShare> {
    var rows := TypeAverages(skills);
    Map(FixedCategories, (c: string) => FillCategory(rows, c))
  }

  /**
   * The fill alone: exactly two entries, technical then soft, each the value
   * of the first row of its category or 0 when there is none; other
   * categories are dropped.
   */
  lemma FillShape(rows: seq<CategoryShare>)
    ensures var r := Map(FixedCategories, (c: string) => FillCategory(rows, c));
      && |r| == 2 && r[0].category == "technical" && r[1].category == "soft"
      && (forall k :: 0 <= k < 2 ==>
            ((forall i :: 0 <= i < |rows| ==> rows[i].category != r[k].category) ==> r[k].percentage == 0))
      && (forall k, i ::
            (0 <= k < 2 && 0 <= i < |rows| && rows[i].category == r[k].category &&
             (forall j :: 0 <= j < i ==> rows[j].category != r[k].category)) ==>
            r[k].percentage == rows[i].percentage)
  {
    var r := Map(FixedCategories, (c: string) => FillCategory(rows, c));
    forall k, i | 0 <= k < 2 && 0 <= i < |rows| && rows[i].category == r[k].category &&
        (forall j :: 0 <= j < i ==> rows[j].category != r[k].category)
      ensures r[k].percentage == rows[i].percentage
    {
      var c := FixedCategories[k];
      var f := FindIndex(rows, (x: CategoryShare) => x.category == c);
      assert f == Some(i);
    }
  }

  /**
   * The whole route: an entry is the rounded average proficiency of the
   * skills of that type, in hundredths, or 0 when the user has none of it.
   */
  lemma SkillDistributionValues(skills: seq<SkillRow>, k: nat)
    requires k < 2
    ensures var r := SkillDistribution(skills);
      && |r| == 2 && r[k].category == FixedCategories[k]
      && (FixedCategories[k] !in Map(skills, SkillCategory) ==> r[k].percentage == 0)
      && (FixedCategories[k] in Map(skills, SkillCategory) ==>
            r[k].percentage == RoundedAverage(GroupOf(skills, SkillCategory, SkillProficiency, SkillProficiency, FixedCategories[k]), 100))
  {
    var c := FixedCategories[k];
    var gs := GroupBy(skills, SkillCategory, SkillProficiency, SkillProficiency);
    var rows := TypeAverages(skills);
    GroupByMembers(skills, SkillCategory, SkillProficiency, SkillProficiency);
    DistinctMembers(Map(skills, SkillCategory));
    FillShape(rows);
    var f := FindIndex(rows, (x: CategoryShare) => x.category == c);
    if c in Map(skills, SkillCategory) {
      var i :| 0 <= i < |gs| && gs[i].key == c;
      assert rows[i].category == c;
      assert gs[f.value].key == c;
      assert f.value == i by {
        assert gs[f.value].key == KeysOf(skills, SkillCategory)[f.value];
        assert gs[i].key == KeysOf(skills, SkillCategory)[i];
      }
      assert gs[i] in gs;
    } else {
      forall i | 0 <= i < |rows| ensures rows[i].category != c {
        assert gs[i] in gs;
      }
    }
  }

  /** Proficiencies in [0, 100] give percentages in [0, 100] (hundredths: [0, 10000]). */
  lemma SkillDistributionInRange(skills: seq<SkillRow>)
    requires forall i :: 0 <= i < |skills| ==> 0 <= skills[i].proficiency <= 100
    ensures forall k :: 0 <= k < 2 ==> 0 <= SkillDistribution(skills)[k].percentage <= 10000
  {
    forall k | 0 <= k < 2 ensures 0 <= SkillDistribution(skills)[k].percentage <= 10000 {
      SkillDistributionValues(skills, k);
      if FixedCategories[k] in Map(skills, SkillCategory) {
        AverageBetween(skills, SkillCategory, SkillProficiency, SkillProficiency, FixedCategories[k], 100, 0, 100);
      }
    }
  }

  // ---------------------------------------------------------------------------
  // GET /certification-history

  datatype MonthCount = MonthCount(month: string, count: int)

  /** `GROUP BY DATE_FORMAT(issue_date, '%b'), MONTH(issue_date)` */
  function CertificationKey(r: CertificationRow): (string, int) {
    (LabelOf(r.issueDate), MonthOf(r.issueDate))
  }

  function CertificationOne(r: CertificationRow): int { 1 }

  /** The groups ordered by `MONTH(issue_date)`: every member of a group has the same month number. */
  function CertificationGroups(certs: seq<CertificationRow>): seq<Group<(string, int)>> {
    OrderByFirst(GroupBy(certs, CertificationKey, CertificationOne, CertificationMonth))
  }

  function MonthCountOf(g: Group<(string, int)>): MonthCount {
    MonthCount(g.key.0, g.count)
  }

  function CertificationHistory(certs: seq<CertificationRow>): seq<MonthCount> {
    Map(CertificationGroups(certs), MonthCountOf)
  }

  function GroupFirst<K>(g: Group<K>): int { g.first }

  /**
   * One entry per month number in which a certification was issued, in
   * calendar order January to December (years merged), so at most twelve;
   * each entry carries the label of its month and the number of
   * certifications issued in that month number.
   */
  lemma CertificationHistoryFacts(certs: seq<CertificationRow>)
    ensures var gs := CertificationGroups(certs);
      && |gs| <= 12
      && (forall i, j :: 0 <= i < j < |gs| ==> gs[i].first < gs[j].first)
      && (forall i :: 0 <= i < |gs| ==> 1 <= gs[i].first <= 12 && gs[i].key == (MonthLabel(gs[i].first), gs[i].first))
      && (forall i :: 0 <= i < |gs| ==> gs[i].count == |Members(certs, CertificationKey, gs[i].key)|)
      && (forall i :: 0 <= i < |gs| ==> CertificationHistory(certs)[i] == MonthCount(gs[i].key.0, gs[i].count))
      && |CertificationHistory(certs)| == |gs|
  {
    var gs := CertificationGroups(certs);
    CertificationGroupsStrict(certs);
    CertificationGroupsShape(certs);
    CertificationGroupsBound(gs);
  }

  /** Every group is one month number with its label, counting its members. */
  lemma CertificationGroupsShape(certs: seq<CertificationRow>)
    ensures var gs := CertificationGroups(certs);
      forall i :: 0 <= i < |gs| ==>
        && 1 <= gs[i].first <= 12 && gs[i].key == (MonthLabel(gs[i].first), gs[i].first)
        && gs[i].count == |Members(certs, CertificationKey, gs[i].key)|
  {
    var gs := CertificationGroups(certs);
    OrderedGroupsFacts(certs, CertificationKey, CertificationOne, CertificationMonth);
    forall i | 0 <= i < |gs|
      ensures 1 <= gs[i].first <= 12 && gs[i].key == (MonthLabel(gs[i].first), gs[i].first)
      ensures gs[i].count == |Members(certs, CertificationKey, gs[i].key)|
    {
      assert gs[i] in gs;
      CertificationGroupShape(certs, gs[i]);
    }
  }

  /** Strictly increasing month numbers in 1..12 are at most twelve. */
  lemma CertificationGroupsBound<K>(gs: seq<Group<K>>)
    requires forall i, j :: 0 <= i < j < |gs| ==> gs[i].first < gs[j].first
    requires forall i :: 0 <= i < |gs| ==> 1 <= gs[i].first <= 12
    ensures |gs| <= 12
  {
    var firsts := Map(gs, GroupFirst<K>);
    assert NoDuplicates(firsts) by {
      forall i, j | 0 <= i < j < |firsts| ensures firsts[i] != firsts[j] {
        assert firsts[i] == gs[i].first && firsts[j] == gs[j].first;
      }
    }
    var months := IntRange(1, 12);
    forall i | 0 <= i < |firsts| ensures firsts[i] in months {
      assert firsts[i] == gs[i].first;
    }
    NoDuplicatesWithin(firsts, months);
  }

  lemma CertificationGroupsStrict(certs: seq<CertificationRow>)
    ensures var gs := CertificationGroups(certs);
      forall i, j :: 0 <= i < j < |gs| ==> gs[i].first < gs[j].first
  {
    forall i, j | 0 <= i < |certs| && 0 <= j < |certs| && CertificationMonth(certs[i]) == CertificationMonth(certs[j])
      ensures CertificationKey(certs[i]) == CertificationKey(certs[j])
    {
      CertificationKeyOfMonth(certs[i], certs[j]);
    }
    OrderedGroupsStrict(certs, CertificationKey, CertificationOne, CertificationMonth);
  }

  lemma CertificationKeyOfMonth(a: CertificationRow, b: CertificationRow)
    requires CertificationMonth(a) == CertificationMonth(b)
    ensures CertificationKey(a) == CertificationKey(b)
  {
  }

  lemma CertificationGroupShape(certs: seq<CertificationRow>, g: Group<(string, int)>)
    requires g.key in Map(certs, CertificationKey)
    requires g == GroupOf(certs, CertificationKey, CertificationOne, CertificationMonth, g.key)
    ensures 1 <= g.first <= 12 && g.key == (MonthLabel(g.first), g.first)
    ensures g.count == |Members(certs, CertificationKey, g.key)|
  {
    FirstIsAtOfMember(certs, CertificationKey, CertificationOne, CertificationMonth, g.key);
    var i :| 0 <= i < |certs| && CertificationKey(certs[i]) == g.key && CertificationMonth(certs[i]) == g.first;
  }

  // ---------------------------------------------------------------------------
  // GET /skill-growth: the query, then the reduce into one record per month

  /** `GROUP BY DATE_FORMAT(recorded_date, '%b'), sc.type` */
  function GrowthKey(r: ProgressRow): (string, string) {
    (LabelOf(r.date), r.category)
  }

  /** The query rows, ordered by `MIN(recorded_date)`. */
  function GrowthGroups(progress: seq<ProgressRow>): seq<Group<(string, string)>> {
    OrderByFirst(GroupBy(progress, GrowthKey, ProgressLevel, ProgressDate))
  }

  /** A query row (month, category, `ROUND(AVG(level), 2)` in hundredths). */
  function GrowthRowOf(g: Group<(string, string)>): GrowthRow {
    GrowthRow(g.key.0, g.key.1, RoundedAverage(g, 100))
  }

  function SkillGrowthRows(progress: seq<ProgressRow>): seq<GrowthRow> {
    Map(GrowthGroups(progress), GrowthRowOf)
  }

  /**
   * The reduce over the query rows: find the record of the row's month and
   * set the row's category on it, or push a new record holding only that
   * category.
   */
  method SparsePivot(rows: seq<GrowthRow>) returns (acc: seq<MonthRecord>)
    ensures acc == Pivot(rows, map[])
  {
    acc := [];
    var i := 0;
    while i < |rows|
      invariant 0 <= i <= |rows|
      invariant acc == Pivot(rows[..i], map[])
    {
      var row := rows[i];
      var j := 0;
      while j < |acc| && acc[j].month != row.month
        invariant 0 <= j <= |acc|
        invariant forall k :: 0 <= k < j ==> acc[k].month != row.month
      {
        j := j + 1;
      }
      PivotPrefixStep(rows, i, map[]);
      if j < |acc| {
        StepFinds(acc, row, map[], j);
        acc := acc[j := MonthRecord(acc[j].month, acc[j].values[row.category := row.level])];
      } else {
        StepAppends(acc, row, map[]);
        acc := acc + [MonthRecord(row.month, map[][row.category := row.level])];
      }
      i := i + 1;
    }
    assert rows[..|rows|] == rows;
  }

  /**
   * The `/skill-growth` response: one record per month label, no label twice;
   * a record has a field for category c exactly when some progress row of
   * that label has type c, and then its value is the rounded average level
   * of those rows. A type with no row that month is absent, not 0.
   */
  lemma SkillGrowthFacts(progress: seq<ProgressRow>)
    ensures var p := Pivot(SkillGrowthRows(progress), map[]);
      && (forall i, j :: 0 <= i < j < |p| ==> p[i].month != p[j].month)
      && (forall i, c :: 0 <= i < |p| ==>
            (c in p[i].values <==> (p[i].month, c) in Map(progress, GrowthKey)))
      && (forall i, c :: 0 <= i < |p| && c in p[i].values ==>
            p[i].values[c] == RoundedAverage(GroupOf(progress, GrowthKey, ProgressLevel, ProgressDate, (p[i].month, c)), 100))
  {
    var rows := SkillGrowthRows(progress);
    var p := Pivot(rows, map[]);
    PivotMonths(rows, map[]);
    forall i, c | 0 <= i < |p|
      ensures c in p[i].values <==> (p[i].month, c) in Map(progress, GrowthKey)
      ensures c in p[i].values ==>
        p[i].values[c] == RoundedAverage(GroupOf(progress, GrowthKey, ProgressLevel, ProgressDate, (p[i].month, c)), 100)
    {
      GrowthFieldPresent(progress, p[i].month, c);
      GrowthFieldFromKey(progress, p[i].month, c);
    }
  }

  /** A field of month m's record comes from the query row of (m, c) and holds its average. */
  lemma GrowthFieldPresent(progress: seq<ProgressRow>, m: string, c: string)
    ensures var f := Fill(SkillGrowthRows(progress), m, map[]);
      c in f ==> (m, c) in Map(progress, GrowthKey) &&
                 f[c] == RoundedAverage(GroupOf(progress, GrowthKey, ProgressLevel, ProgressDate, (m, c)), 100)
  {
    var rows := SkillGrowthRows(progress);
    FillKeys(rows, m, map[], c);
    if c in Fill(rows, m, map[]) {
      var j :| 0 <= j < |rows| && rows[j].month == m && rows[j].category == c;
      GrowthRowIsGroup(progress, j);
      GrowthRowsDistinct(progress, j);
      FillLastWins(rows, m, map[], j);
    }
  }

  /** Query row j is the group of its (month, type) pair, a pair some progress row has. */
  lemma GrowthRowIsGroup(progress: seq<ProgressRow>, j: nat)
    requires j < |SkillGrowthRows(progress)|
    ensures var row := SkillGrowthRows(progress)[j];
      && (row.month, row.category) in Map(progress, GrowthKey)
      && row.level == RoundedAverage(GroupOf(progress, GrowthKey, ProgressLevel, ProgressDate, (row.month, row.category)), 100)
  {
    var gs := GrowthGroups(progress);
    OrderedGroupsFacts(progress, GrowthKey, ProgressLevel, ProgressDate);
    assert gs[j] in gs;
  }

  /** No later query row repeats row j's (month, type) pair. */
  lemma GrowthRowsDistinct(progress: seq<ProgressRow>, j: nat)
    requires j < |SkillGrowthRows(progress)|
    ensures var rows := SkillGrowthRows(progress);
      forall j' :: j < j' < |rows| ==> !(rows[j'].month == rows[j].month && rows[j'].category == rows[j].category)
  {
    var gs := GrowthGroups(progress);
    var rows := SkillGrowthRows(progress);
    OrderedGroupsFacts(progress, GrowthKey, ProgressLevel, ProgressDate);
    forall j' | j < j' < |rows| ensures !(rows[j'].month == rows[j].month && rows[j'].category == rows[j].category) {
      assert gs[j'].key != gs[j].key;
    }
  }

  /** Every (month, type) pair of the progress rows gives month m's record a field c. */
  lemma GrowthFieldFromKey(progress: seq<ProgressRow>, m: string, c: string)
    ensures (m, c) in Map(progress, GrowthKey) ==> c in Fill(SkillGrowthRows(progress), m, map[])
  {
    var gs := GrowthGroups(progress);
    var rows := SkillGrowthRows(progress);
    FillKeys(rows, m, map[], c);
    if (m, c) in Map(progress, GrowthKey) {
      OrderedGroupsFacts(progress, GrowthKey, ProgressLevel, ProgressDate);
      var g := GroupOf(progress, GrowthKey, ProgressLevel, ProgressDate, (m, c));
      assert g in gs;
      var j :| 0 <= j < |gs| && gs[j] == g;
      assert rows[j].month == m && rows[j].category == c;
    }
  }

  // ---------------------------------------------------------------------------
  // GET /daily-activity

  datatype DayHours = DayHours(date: Day, hours: int)

  /** `WHERE date >= DATE_SUB(CURRENT_DATE, INTERVAL 30 DAY)`; later dates are kept too. */
  function LastThirtyDays(rows: seq<StreakRow>, today: Day): seq<StreakRow> {
    Filter(rows, (r: StreakRow) => r.date >= today - 30)
  }

  /** `GROUP BY date ORDER BY date ASC`: one group per day, oldest first. */
  function DailyGroups(rows: seq<StreakRow>, today: Day): seq<Group<int>> {
    OrderByFirst(GroupBy(LastThirtyDays(rows, today), StreakDate, StreakHours, StreakDate))
  }

  function DayHoursOf(g: Group<int>): DayHours {
    DayHours(g.key, g.total)
  }

  function DailyActivity(rows: seq<StreakRow>, today: Day): seq<DayHours> {
    Map(DailyGroups(rows, today), DayHoursOf)
  }

  /**
   * Days in strictly ascending order, each on or after today - 30 and a day
   * some row has, every such day present, each with the sum of that day's hours.
   */
  lemma DailyActivityFacts(rows: seq<StreakRow>, today: Day)
    ensures var r := DailyActivity(rows, today);
      && (forall i, j :: 0 <= i < j < |r| ==> r[i].date < r[j].date)
      && (forall i :: 0 <= i < |r| ==> r[i].date >= today - 30 && r[i].date in Map(rows, StreakDate))
      && (forall k :: 0 <= k < |rows| && rows[k].date >= today - 30 ==>
            exists i :: 0 <= i < |r| && r[i].date == rows[k].date)
      && (forall i :: 0 <= i < |r| ==>
            r[i].hours == SumBy(Members(LastThirtyDays(rows, today), StreakDate, r[i].date), StreakHours))
  {
    DailyGroupsAreDays(rows, today);
    OrderedGroupsStrict(LastThirtyDays(rows, today), StreakDate, StreakHours, StreakDate);
    DailyDatesOfRows(rows, today);
    DailyCoversWindow(rows, today);
  }

  /** Every listed day is the date of some row. */
  lemma DailyDatesOfRows(rows: seq<StreakRow>, today: Day)
    ensures var r := DailyActivity(rows, today);
      forall i :: 0 <= i < |r| ==> r[i].date in Map(rows, StreakDate)
  {
    var w := LastThirtyDays(rows, today);
    var r := DailyActivity(rows, today);
    DailyGroupsAreDays(rows, today);
    FilterMembers(rows, (r: StreakRow) => r.date >= today - 30);
    forall i | 0 <= i < |r| ensures r[i].date in Map(rows, StreakDate) {
      var k' :| 0 <= k' < |w| && Map(w, StreakDate)[k'] == r[i].date;
      assert w[k'] in rows;
      var k :| 0 <= k < |rows| && rows[k] == w[k'];
      assert Map(rows, StreakDate)[k] == r[i].date;
    }
  }

  /** Every row dated on or after today - 30 has its day listed. */
  lemma DailyCoversWindow(rows: seq<StreakRow>, today: Day)
    ensures var r := DailyActivity(rows, today);
      forall k :: 0 <= k < |rows| && rows[k].date >= today - 30 ==>
        exists i :: 0 <= i < |r| && r[i].date == rows[k].date
  {
    var w := LastThirtyDays(rows, today);
    var r := DailyActivity(rows, today);
    FilterMembers(rows, (r: StreakRow) => r.date >= today - 30);
    forall k | 0 <= k < |rows| && rows[k].date >= today - 30
      ensures exists i :: 0 <= i < |r| && r[i].date == rows[k].date
    {
      var d := rows[k].date;
      assert rows[k] in w;
      var k' :| 0 <= k' < |w| && w[k'] == rows[k];
      assert Map(w, StreakDate)[k'] == d;
      DailyDayPresent(rows, today, d);
    }
  }

  /** Each daily group is one day of the window: its key is its date and its total that day's hours. */
  lemma DailyGroupsAreDays(rows: seq<StreakRow>, today: Day)
    ensures var w := LastThirtyDays(rows, today);
      var gs := DailyGroups(rows, today);
      forall i :: 0 <= i < |gs| ==>
        && gs[i].key in Map(w, StreakDate) && gs[i].first == gs[i].key
        && gs[i].key >= today - 30
        && gs[i].total == SumBy(Members(w, StreakDate, gs[i].key), StreakHours)
  {
    var w := LastThirtyDays(rows, today);
    var gs := DailyGroups(rows, today);
    OrderedGroupsFacts(w, StreakDate, StreakHours, StreakDate);
    forall i | 0 <= i < |gs|
      ensures gs[i].key in Map(w, StreakDate) && gs[i].first == gs[i].key
      ensures gs[i].key >= today - 30
    {
      assert gs[i] in gs;
      FirstOfSelfKey(w, StreakDate, StreakHours, gs[i].key);
      var k' :| 0 <= k' < |w| && Map(w, StreakDate)[k'] == gs[i].key;
      assert w[k'].date >= today - 30;
    }
  }

  lemma DailyDayPresent(rows: seq<StreakRow>, today: Day, d: Day)
    requires d in Map(LastThirtyDays(rows, today), StreakDate)
    ensures exists i :: 0 <= i < |DailyActivity(rows, today)| && DailyActivity(rows, today)[i].date == d
  {
    var w := LastThirtyDays(rows, today);
    var gs := DailyGroups(rows, today);
    OrderedGroupsFacts(w, StreakDate, StreakHours, StreakDate);
    var g := GroupOf(w, StreakDate, StreakHours, StreakDate, d);
    assert g in gs;
    var i :| 0 <= i < |gs| && gs[i] == g;
    assert DailyActivity(rows, today)[i].date == d;
  }

  // ---------------------------------------------------------------------------
  // GET /overview: one row per user from a chain of LEFT JOINs

  /** A row of `users u LEFT JOIN skills LEFT JOIN courses LEFT JOIN certifications LEFT JOIN learning_streak`. */
  type OverviewRow = (((Option<SkillRow>, Option<CourseRow>), Option<CertificationRow>), Option<StreakRow>)

  /**
   * The joined rows for one existing user: every combination of the user's
   * skills, courses, certifications and streak days, a table with no row of
   * the user contributing one NULL.
   */
  function OverviewJoin(skills: seq<SkillRow>, courses: seq<CourseRow>, certs: seq<CertificationRow>,
                        streak: seq<StreakRow>): seq<OverviewRow> {
    LeftJoin4(skills, courses, certs, streak)
  }

  datatype Overview = Overview(totalSkills: int, totalCourses: int, totalCertifications: int, totalHours: Option<int>)

  function JoinedSkillId(p: OverviewRow): Option<int> { if p.0.0.0.Some? then Some(p.0.0.0.value.id) else None }
  function JoinedCourseId(p: OverviewRow): Option<int> { if p.0.0.1.Some? then Some(p.0.0.1.value.id) else None }
  function JoinedCertificationId(p: OverviewRow): Option<int> { if p.0.1.Some? then Some(p.0.1.value.id) else None }
  function StreakHoursOrZero(o: Option<StreakRow>): int { if o.Some? then o.value.hours else 0 }
  function JoinedHours(p: OverviewRow): int { StreakHoursOrZero(p.1) }
  function IsPresent<T>(o: Option<T>): bool { o.Some? }
  function JoinedHasStreak(p: OverviewRow): bool { p.1.Some? }

  /** `COUNT(DISTINCT column)`: the number of distinct non-NULL values. */
  function CountDistinct(vs: seq<Option<int>>): nat {
    |set o | o in vs && o.Some? :: o.value|
  }

  /** `SUM(column)`: NULL when every value is NULL. */
  function SumOfPresent(j: seq<OverviewRow>): Option<int> {
    if CountBy(j, JoinedHasStreak) == 0 then None else Some(SumBy(j, JoinedHours))
  }

  /**
   * The response: the aggregated row when the user exists (`GROUP BY u.id`
   * yields one row), the all-zero object when the query yields none.
   */
  function OverviewResponse(userExists: bool, skills: seq<SkillRow>, courses: seq<CourseRow>,
                            certs: seq<CertificationRow>, streak: seq<StreakRow>): Overview {
    if !userExists then Overview(0, 0, 0, Some(0))
    else
      var j := OverviewJoin(skills, courses, certs, streak);
      Overview(CountDistinct(Map(j, JoinedSkillId)), CountDistinct(Map(j, JoinedCourseId)),
               CountDistinct(Map(j, JoinedCertificationId)), SumOfPresent(j))
  }

  /**
   * The counts are the numbers of distinct ids of the user's skills, courses
   * and certifications: the join repeats rows but `DISTINCT` removes the repeats.
   */
  lemma OverviewCounts(skills: seq<SkillRow>, courses: seq<CourseRow>, certs: seq<CertificationRow>,
                       streak: seq<StreakRow>)
    ensures var r := OverviewResponse(true, skills, courses, certs, streak);
      && r.totalSkills == |set s | s in skills :: s.id|
      && r.totalCourses == |set c | c in courses :: c.id|
      && r.totalCertifications == |set c | c in certs :: c.id|
  {
    var j := OverviewJoin(skills, courses, certs, streak);
    OverviewSkillIds(skills, courses, certs, streak);
    OverviewCourseIds(skills, courses, certs, streak);
    OverviewCertificationIds(skills, courses, certs, streak);
    assert CountDistinct(Map(j, JoinedSkillId)) == |set s | s in skills :: s.id|;
    assert CountDistinct(Map(j, JoinedCourseId)) == |set c | c in courses :: c.id|;
    assert CountDistinct(Map(j, JoinedCertificationId)) == |set c | c in certs :: c.id|;
  }

  function SkillId(r: SkillRow): int { r.id }
  function CourseId(r: CourseRow): int { r.id }
  function CertificationId(r: CertificationRow): int { r.id }

  lemma OverviewSkillIds(skills: seq<SkillRow>, courses: seq<CourseRow>, certs: seq<CertificationRow>,
                         streak: seq<StreakRow>)
    ensures var j := OverviewJoin(skills, courses, certs, streak);
      && (set o | o in Map(j, JoinedSkillId) && o.Some? :: o.value) == (set s | s in skills :: SkillId(s))
      && CountDistinct(Map(j, JoinedSkillId)) == |set s | s in skills :: s.id|
  {
    assert (set x | x in skills :: SkillId(x)) == (set x | x in skills :: x.id);
    LeftJoinIds1(skills, courses, certs, streak, SkillId, JoinedSkillId);
  }

  lemma OverviewCourseIds(skills: seq<SkillRow>, courses: seq<CourseRow>, certs: seq<CertificationRow>,
                          streak: seq<StreakRow>)
    ensures var j := OverviewJoin(skills, courses, certs, streak);
      && (set o | o in Map(j, JoinedCourseId) && o.Some? :: o.value) == (set c | c in courses :: CourseId(c))
      && CountDistinct(Map(j, JoinedCourseId)) == |set c | c in courses :: c.id|
  {
    assert (set x | x in courses :: CourseId(x)) == (set x | x in courses :: x.id);
    LeftJoinIds2(skills, courses, certs, streak, CourseId, JoinedCourseId);
  }

  lemma OverviewCertificationIds(skills: seq<SkillRow>, courses: seq<CourseRow>, certs: seq<CertificationRow>,
                                 streak: seq<StreakRow>)
    ensures var j := OverviewJoin(skills, courses, certs, streak);
      && (set o | o in Map(j, JoinedCertificationId) && o.Some? :: o.value) == (set c | c in certs :: CertificationId(c))
      && CountDistinct(Map(j, JoinedCertificationId)) == |set c | c in certs :: c.id|
  {
    assert (set x | x in certs :: CertificationId(x)) == (set x | x in certs :: x.id);
    LeftJoinIds3(skills, courses, certs, streak, CertificationId, JoinedCertificationId);
  }

  /**
   * `total_hours` is not the plain sum of the user's hours: it is NULL when
   * the user has no streak row, and otherwise the sum multiplied by the
   * number of joined skill, course and certification rows (each at least 1).
   */
  lemma OverviewHoursFanOut(skills: seq<SkillRow>, courses: seq<CourseRow>, certs: seq<CertificationRow>,
                            streak: seq<StreakRow>)
    ensures var r := OverviewResponse(true, skills, courses, certs, streak);
      && (streak == [] ==> r.totalHours.None?)
      && (streak != [] ==>
            r.totalHours == Some(|LeftSide(skills)| * |LeftSide(courses)| * |LeftSide(certs)| * SumBy(streak, StreakHours)))
  {
    var a := Cross(Cross(LeftSide(skills), LeftSide(courses)), LeftSide(certs));
    assert |a| == |LeftSide(skills)| * |LeftSide(courses)| * |LeftSide(certs)|;
    JoinedStreakCount(a, streak);
    if streak != [] {
      JoinedHoursSum(a, streak);
      PositiveProduct(|a|, |streak|);
    }
  }

  /** The joined rows that carry a streak row: each streak row once per row of the other tables. */
  lemma JoinedStreakCount(a: seq<((Option<SkillRow>, Option<CourseRow>), Option<CertificationRow>)>, streak: seq<StreakRow>)
    ensures CountBy(Cross(a, LeftSide(streak)), JoinedHasStreak) == |a| * |streak|
  {
    CountByCrossRight(a, LeftSide(streak), IsPresent<StreakRow>, JoinedHasStreak);
    CountByWrapped(streak, IsPresent<StreakRow>);
  }

  /** The joined hours: each streak row's hours once per row of the other tables. */
  lemma JoinedHoursSum(a: seq<((Option<SkillRow>, Option<CourseRow>), Option<CertificationRow>)>, streak: seq<StreakRow>)
    ensures SumBy(Cross(a, LeftSide(streak)), JoinedHours) == |a| * SumBy(streak, StreakHours)
  {
    SumByCrossRight(a, LeftSide(streak), StreakHoursOrZero, JoinedHours);
    SumByWrapped(streak, StreakHours, StreakHoursOrZero);
  }

  lemma PositiveProduct(x: int, y: int)
    requires x >= 1 && y >= 1
    ensures x * y >= 1
  {
    assert x * y == (x - 1) * y + y;
    assert (x - 1) * y >= 0;
  }

  /** With no users row the query yields nothing and every count is 0. */
  lemma OverviewWithoutUser(skills: seq<SkillRow>, courses: seq<CourseRow>, certs: seq<CertificationRow>,
                            streak: seq<StreakRow>)
    ensures OverviewResponse(false, skills, courses, certs, streak) == Overview(0, 0, 0, Some(0))
  {
  }

  // ---------------------------------------------------------------------------
  // GET /overall-progress: monthly averages per type, the six most recent
  // months of each type, ordered by month label

  /** `GROUP BY YEAR(recorded_date), MONTH(recorded_date), sc.type` */
  function MonthTypeKey(r: ProgressRow): (int, int, string) {
    (YearOf(r.date), MonthOf(r.date), r.category)
  }

  /** `PARTITION BY sc.type` */
  function KeyType(k: (int, int, string)): string { k.2 }

  /** The `monthly_averages` groups, before numbering. */
  function MonthlyAverages(progress: seq<ProgressRow>): seq<Group<(int, int, string)>> {
    GroupBy(progress, MonthTypeKey, ProgressLevel, ProgressDate)
  }

  datatype TypeLevel = TypeLevel(month: string, category: string, avgLevel: int)

  /** A kept group as (`DATE_FORMAT(recorded_date, '%b')`, type, `ROUND(AVG(level), 2)` in hundredths). */
  function TypeLevelOf(g: Group<(int, int, string)>): TypeLevel {
    TypeLevel(LabelOf(g.first), g.key.2, RoundedAverage(g, 100))
  }

  /** `ORDER BY month`: the label compared as a string. */
  predicate ByMonthLabel(a: TypeLevel, b: TypeLevel) {
    StringLe(a.month, b.month)
  }

  function OverallProgress(progress: seq<ProgressRow>): seq<TypeLevel> {
    var kept := TopPerPartition(MonthlyAverages(progress), KeyType, 6);
    SortBy(Map(kept, TypeLevelOf), ByMonthLabel)
  }

  lemma ByMonthLabelIsTotalPreorder()
    ensures TotalPreorder(ByMonthLabel)
  {
    forall a, b ensures ByMonthLabel(a, b) || ByMonthLabel(b, a) {
      StringLeTotal(a.month, b.month);
    }
    forall a, b, c | ByMonthLabel(a, b) && ByMonthLabel(b, c) ensures ByMonthLabel(a, c) {
      StringLeTransitive(a.month, b.month, c.month);
    }
  }

  /**
   * A group's earliest date lies in the group's own year and month, so the
   * label shown is that month's; its type is one of the rows' types.
   */
  lemma MonthlyAverageKey(progress: seq<ProgressRow>, g: Group<(int, int, string)>)
    requires g in MonthlyAverages(progress)
    ensures g.key == (YearOf(g.first), MonthOf(g.first), g.key.2)
    ensures TypeLevelOf(g).month == MonthLabel(g.key.1)
    ensures g.key.2 in Map(progress, ProgressCategory)
  {
    GroupByMembers(progress, MonthTypeKey, ProgressLevel, ProgressDate);
    FirstIsAtOfMember(progress, MonthTypeKey, ProgressLevel, ProgressDate, g.key);
    var i :| 0 <= i < |progress| && MonthTypeKey(progress[i]) == g.key && ProgressDate(progress[i]) == g.first;
    assert Map(progress, ProgressCategory)[i] == g.key.2;
  }

  /** No group twice, and within a type no two months share an earliest date: the numbering has no ties. */
  lemma MonthlyAveragesDistinct(progress: seq<ProgressRow>)
    ensures NoDuplicates(MonthlyAverages(progress))
    ensures FirstsDistinctWithin(MonthlyAverages(progress), KeyType)
  {
    var gs := MonthlyAverages(progress);
    GroupByMembers(progress, MonthTypeKey, ProgressLevel, ProgressDate);
    forall i, j | 0 <= i < j < |gs| ensures gs[i] != gs[j] {
      assert gs[i].key == KeysOf(progress, MonthTypeKey)[i];
    }
    forall g, h | g in gs && h in gs && KeyType(g.key) == KeyType(h.key) && g.first == h.first
      ensures g == h
    {
      MonthlyAverageKey(progress, g);
      MonthlyAverageKey(progress, h);
    }
  }

  /** The response is ordered by month label. */
  lemma OverallProgressSorted(progress: seq<ProgressRow>)
    ensures var r := OverallProgress(progress);
      forall i, j :: 0 <= i < j < |r| ==> StringLe(r[i].month, r[j].month)
  {
    var kept := TopPerPartition(MonthlyAverages(progress), KeyType, 6);
    ByMonthLabelIsTotalPreorder();
    SortBySorted(Map(kept, TypeLevelOf), ByMonthLabel);
  }

  /**
   * The response holds exactly the groups numbered 6 or less within their
   * type; `MonthlyAverageKey` says which label each one shows.
   */
  lemma OverallProgressMembers(progress: seq<ProgressRow>)
    ensures var gs := MonthlyAverages(progress);
      forall e :: e in OverallProgress(progress) <==>
        exists g :: g in gs && RowNumber(gs, KeyType, g) <= 6 && e == TypeLevelOf(g)
  {
    SortedTopMembers(MonthlyAverages(progress), KeyType, 6, TypeLevelOf, ByMonthLabel);
  }

  /** At most six rows per type. */
  lemma OverallProgressAtMostSix(progress: seq<ProgressRow>, t: string)
    ensures CountBy(OverallProgress(progress), (e: TypeLevel) => e.category == t) <= 6
  {
    var gs := MonthlyAverages(progress);
    var kept := TopPerPartition(gs, KeyType, 6);
    var p := (e: TypeLevel) => e.category == t;
    var inT := (g: Group<(int, int, string)>) => KeyType(g.key) == t;
    SortByPermutes(Map(kept, TypeLevelOf), ByMonthLabel);
    CountByPermutation(Map(kept, TypeLevelOf), OverallProgress(progress), p);
    CountByMap(kept, TypeLevelOf, p, inT);
    MonthlyAveragesDistinct(progress);
    TopAtMost(gs, KeyType, 6, t, inT);
  }

  /**
   * The numbering is by recorded month, most recent first: within a type a
   * later month gets a smaller number, and a month cut off is older than
   * every month kept.
   */
  lemma OverallProgressKeepsNewest(progress: seq<ProgressRow>, g: Group<(int, int, string)>, h: Group<(int, int, string)>)
    requires g in MonthlyAverages(progress) && h in MonthlyAverages(progress) && g.key.2 == h.key.2
    ensures g.first < h.first ==> RowNumber(MonthlyAverages(progress), KeyType, h) < RowNumber(MonthlyAverages(progress), KeyType, g)
    ensures RowNumber(MonthlyAverages(progress), KeyType, g) > 6 && h in TopPerPartition(MonthlyAverages(progress), KeyType, 6) ==>
      h.first > g.first
  {
    var gs := MonthlyAverages(progress);
    if g.first < h.first {
      RowNumberStrict(gs, KeyType, g, h);
    }
    if RowNumber(gs, KeyType, g) > 6 && h in TopPerPartition(gs, KeyType, 6) {
      TopKeepsNewest(gs, KeyType, 6, g, h);
    }
  }
}
