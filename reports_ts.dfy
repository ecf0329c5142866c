/**
 * The report routes of `reports.ts`: the per-type skill averages, the
 * per-month skill growth over the streak-by-skills join, the hours
 * distribution, the certification progress per catalogue name and the
 * weekly activity.
 */
module ReportsTs {
  import opened Collections
  import opened Grouping
  import opened Numbers
  import opened Calendar
  import opened Tables
  import opened Reports

  // ---------------------------------------------------------------------------
  // GET /skill-distribution

  /** `ROUND(AVG(proficiency_level))` per type, one row per type present, in order of first appearance. */
  function SkillDistributionTs(skills: seq<SkillRow>): seq<CategoryShare> {
    Map(GroupBy(skills, SkillCategory, SkillProficiency, SkillProficiency),
        (g: Group<string>) => CategoryShare(g.key, RoundedAverage(g, 1)))
  }

  /**
   * One row per category type the skills have, no type twice, each the
   * rounded average proficiency of the skills of that type.
   */
  lemma SkillDistributionTsFacts(skills: seq<SkillRow>)
    ensures var r := SkillDistributionTs(skills);
      && (forall i, j :: 0 <= i < j < |r| ==> r[i].category != r[j].category)
      && (forall i :: 0 <= i < |r| ==> r[i].category in Map(skills, SkillCategory))
      && (forall c :: c in Map(skills, SkillCategory) ==> exists i :: 0 <= i < |r| && r[i].category == c)
      && (forall i :: 0 <= i < |r| ==>
            r[i].percentage == RoundedAverage(GroupOf(skills, SkillCategory, SkillProficiency, SkillProficiency, r[i].category), 1))
  {
    GroupByAt(skills, SkillCategory, SkillProficiency, SkillProficiency);
  }

  /** Proficiencies in [0, 100] give percentages in [0, 100]. */
  lemma SkillDistributionTsInRange(skills: seq<SkillRow>)
    requires forall i :: 0 <= i < |skills| ==> 0 <= skills[i].proficiency <= 100
    ensures forall i :: 0 <= i < |SkillDistributionTs(skills)| ==> 0 <= SkillDistributionTs(skills)[i].percentage <= 100
  {
    var r := SkillDistributionTs(skills);
    SkillDistributionTsFacts(skills);
    forall i | 0 <= i < |r| ensures 0 <= r[i].percentage <= 100 {
      AverageBetween(skills, SkillCategory, SkillProficiency, SkillProficiency, r[i].category, 1, 0, 100);
    }
  }

  // ---------------------------------------------------------------------------
  // GET /skill-growth: every streak row joined to every skill of the user

  /** A row of `learning_streak ls JOIN skills s ON s.user_id = ls.user_id`. */
  type StreakSkill = (StreakRow, SkillRow)

  function JoinLabel(q: StreakSkill): string { LabelOf(q.0.date) }
  function JoinDate(q: StreakSkill): int { q.0.date }
  function JoinLevel(q: StreakSkill): int { q.1.proficiency }

  /** The join: the user's skills repeated once per streak row. */
  function StreakSkills(streak: seq<StreakRow>, skills: seq<SkillRow>): seq<StreakSkill> {
    Cross(streak, skills)
  }

  /**
   * `AVG(CASE WHEN sc.type = t THEN proficiency_level END)` over some joined
   * rows, in ten-thousandths (MySQL keeps four decimals on an integer
   * average): NULL when no row has type t.
   */
  function TypeAverage(members: seq<StreakSkill>, t: string): Option<int> {
    var n := CountBy(members, (q: StreakSkill) => q.1.category == t);
    if n == 0 then None
    else Some(Avg4(SumBy(members, (q: StreakSkill) => if q.1.category == t then q.1.proficiency else 0), n))
  }

  /** The average proficiency of the user's skills of type t, NULL without such a skill. */
  function SkillsTypeAverage(skills: seq<SkillRow>, t: string): Option<int> {
    var n := CountBy(skills, (s: SkillRow) => s.category == t);
    if n == 0 then None
    else Some(Avg4(SumBy(skills, (s: SkillRow) => if s.category == t then s.proficiency else 0), n))
  }

  datatype GrowthEntry = GrowthEntry(month: string, technical: Option<int>, soft: Option<int>)

  /** `GROUP BY DATE_FORMAT(ls.date, '%b') ORDER BY MIN(ls.date) LIMIT 6` over the join. */
  function GrowthMonths(streak: seq<StreakRow>, skills: seq<SkillRow>): seq<Group<string>> {
    Take(OrderByFirst(GroupBy(StreakSkills(streak, skills), JoinLabel, JoinLevel, JoinDate)), 6)
  }

  function GrowthEntryOf(j: seq<StreakSkill>, month: string): GrowthEntry {
    var members := Members(j, JoinLabel, month);
    GrowthEntry(month, TypeAverage(members, "technical"), TypeAverage(members, "soft"))
  }

  function SkillGrowthTs(streak: seq<StreakRow>, skills: seq<SkillRow>): seq<GrowthEntry> {
    var j := StreakSkills(streak, skills);
    var gs := GrowthMonths(streak, skills);
    seq(|gs|, i requires 0 <= i < |gs| => GrowthEntryOf(j, gs[i].key))
  }

  /**
   * Every skill joins every streak row, so a month's per-type average is the
   * average over all of the user's skills of that type: the same value for
   * every month, and NULL when the user has no skill of that type.
   */
  lemma TypeAverageOfMonth(streak: seq<StreakRow>, skills: seq<SkillRow>, month: string, t: string)
    requires month in Map(streak, StreakLabel)
    ensures TypeAverage(Members(StreakSkills(streak, skills), JoinLabel, month), t) == SkillsTypeAverage(skills, t)
  {
    MembersCrossLeft(streak, skills, StreakLabel, JoinLabel, month);
    MembersNonEmpty(streak, StreakLabel, month);
    TypeAverageOfCross(Members(streak, StreakLabel, month), skills, t);
  }

  /** Repeating every skill once per streak row leaves each per-type average as it was. */
  lemma TypeAverageOfCross(sm: seq<StreakRow>, skills: seq<SkillRow>, t: string)
    requires |sm| > 0
    ensures TypeAverage(Cross(sm, skills), t) == SkillsTypeAverage(skills, t)
  {
    var k := |sm|;
    var isT := (s: SkillRow) => s.category == t;
    var levelT := (s: SkillRow) => if s.category == t then s.proficiency else 0;
    CountByCrossRight(sm, skills, isT, (q: StreakSkill) => q.1.category == t);
    SumByCrossRight(sm, skills, levelT, (q: StreakSkill) => if q.1.category == t then q.1.proficiency else 0);
    var n, total := CountBy(skills, isT), SumBy(skills, levelT);
    assert TypeAverage(Cross(sm, skills), t) == if k * n == 0 then None else Some(Avg4(k * total, k * n));
    ScaleFactor(k, n, total);
    if n > 0 {
      SqlRoundDivScale(total * 10000, n, k);
      assert k * total * 10000 == k * (total * 10000);
    }
  }

  lemma ScaleFactor(k: int, n: int, total: int)
    requires k > 0 && n >= 0
    ensures k * n == 0 <==> n == 0
    ensures k * total * 10000 == k * (total * 10000)
  {
    if n > 0 {
      assert k * n >= n;
    }
  }

  /**
   * At most six months, no label twice, each a label of the streak rows,
   * in order of their earliest joined date; every entry carries the
   * month-independent averages.
   */
  lemma SkillGrowthTsFacts(streak: seq<StreakRow>, skills: seq<SkillRow>)
    ensures var r := SkillGrowthTs(streak, skills);
      && |r| <= 6
      && (forall i, j :: 0 <= i < j < |r| ==> r[i].month != r[j].month)
      && (forall i :: 0 <= i < |r| ==> r[i].month in Map(streak, StreakLabel))
      && (forall i :: 0 <= i < |r| ==>
            r[i].technical == SkillsTypeAverage(skills, "technical") && r[i].soft == SkillsTypeAverage(skills, "soft"))
  {
    var gs := GrowthMonths(streak, skills);
    var r := SkillGrowthTs(streak, skills);
    GrowthMonthsKeys(streak, skills);
    forall i | 0 <= i < |r|
      ensures r[i].month in Map(streak, StreakLabel)
      ensures r[i].technical == SkillsTypeAverage(skills, "technical") && r[i].soft == SkillsTypeAverage(skills, "soft")
    {
      GrowthEntryOfMonth(streak, skills, gs[i].key);
    }
  }

  /** At most six kept months, no label twice, each a label of the join. */
  lemma GrowthMonthsKeys(streak: seq<StreakRow>, skills: seq<SkillRow>)
    ensures var gs := GrowthMonths(streak, skills);
      && |gs| <= 6
      && (forall a, b :: 0 <= a < b < |gs| ==> gs[a].key != gs[b].key)
      && (forall i :: 0 <= i < |gs| ==> gs[i].key in Map(StreakSkills(streak, skills), JoinLabel))
  {
    var j := StreakSkills(streak, skills);
    var gs := GrowthMonths(streak, skills);
    var os := OrderByFirst(GroupBy(j, JoinLabel, JoinLevel, JoinDate));
    OrderedGroupsAt(j, JoinLabel, JoinLevel, JoinDate);
    assert forall i :: 0 <= i < |gs| ==> gs[i] == os[i];
  }

  /** The entry of a month present in the join: a streak label, with the month-independent averages. */
  lemma GrowthEntryOfMonth(streak: seq<StreakRow>, skills: seq<SkillRow>, m: string)
    requires m in Map(StreakSkills(streak, skills), JoinLabel)
    ensures m in Map(streak, StreakLabel)
    ensures GrowthEntryOf(StreakSkills(streak, skills), m) ==
      GrowthEntry(m, SkillsTypeAverage(skills, "technical"), SkillsTypeAverage(skills, "soft"))
  {
    KeysCrossLeft(streak, skills, StreakLabel, JoinLabel, m);
    TypeAverageOfMonth(streak, skills, m, "technical");
    TypeAverageOfMonth(streak, skills, m, "soft");
  }

  /** A user without skills gets no month at all: the inner join is empty. */
  lemma SkillGrowthTsWithoutSkills(streak: seq<StreakRow>)
    ensures SkillGrowthTs(streak, []) == []
  {
    var none: seq<SkillRow> := [];
    assert |Cross(streak, none)| == |streak| * 0;
  }

  /** The groups kept are the earliest six, in order. */
  lemma GrowthMonthsOrdered(streak: seq<StreakRow>, skills: seq<SkillRow>)
    ensures var gs := GrowthMonths(streak, skills);
      forall a, b :: 0 <= a < b < |gs| ==> gs[a].first <= gs[b].first
  {
    OrderedGroupsFacts(StreakSkills(streak, skills), JoinLabel, JoinLevel, JoinDate);
  }

  // ---------------------------------------------------------------------------
  // GET /hours-distribution

  datatype MonthHours = MonthHours(month: string, hours: int)

  /** The same grouping as `reports.js`, without the category column. */
  function HoursDistributionTs(rows: seq<StreakRow>): seq<MonthHours> {
    Map(Take(HoursGroups(rows), 6), (g: Group<string>) => MonthHours(g.key, g.total))
  }

  /** Entry for entry, the months and hours of the `reports.js` route. */
  lemma HoursDistributionTsAgrees(rows: seq<StreakRow>)
    ensures |HoursDistributionTs(rows)| == |HoursDistribution(rows)|
    ensures forall i :: 0 <= i < |HoursDistributionTs(rows)| ==>
      HoursDistributionTs(rows)[i].month == HoursDistribution(rows)[i].month &&
      HoursDistributionTs(rows)[i].hours == HoursDistribution(rows)[i].hours
  {
  }

  // ---------------------------------------------------------------------------
  // GET /certification-progress

  /** A row of the shared `certifications` catalogue. */
  datatype CatalogueRow = CatalogueRow(id: int, name: string)

  /** A `user_certifications` row. */
  datatype UserCertificationRow = UserCertificationRow(id: int, certificationId: int, userId: int, status: string)

  type CertificationJoin = (CatalogueRow, Option<UserCertificationRow>)

  /** The rows meeting `c.id = uc.certification_id AND uc.user_id = ?`. */
  function Matches(c: CatalogueRow, ucs: seq<UserCertificationRow>, user: int): seq<UserCertificationRow> {
    Filter(ucs, (u: UserCertificationRow) => u.certificationId == c.id && u.userId == user)
  }

  /** One catalogue row's share of the LEFT JOIN: its matches, or one row of NULLs. */
  function JoinRows(c: CatalogueRow, ucs: seq<UserCertificationRow>, user: int): seq<CertificationJoin> {
    var m := Matches(c, ucs, user);
    if m == [] then [(c, None)]
    else Map(m, (u: UserCertificationRow) => (c, Some(u)))
  }

  /** `certifications c LEFT JOIN user_certifications uc ON ...`, catalogue row by catalogue row. */
  function LeftJoin(catalogue: seq<CatalogueRow>, ucs: seq<UserCertificationRow>, user: int): seq<CertificationJoin> {
    FlatMap(catalogue, (c: CatalogueRow) => JoinRows(c, ucs, user))
  }

  /** `COUNT(uc.id)` counts the joined rows that are not NULL. */
  function IsMatched(q: CertificationJoin): bool { q.1.Some? }

  /** `CASE WHEN uc.status = 'in_progress' THEN 1 ELSE 0 END`; a NULL status compares false. */
  function IsInProgress(q: CertificationJoin): bool { q.1.Some? && q.1.value.status == "in_progress" }

  function CatalogueName(c: CatalogueRow): string { c.name }

  datatype CertificationProgressRow = CertificationProgressRow(category: string, completed: nat, inProgress: nat)

  function ProgressOfName(j: seq<CertificationJoin>, name: string): CertificationProgressRow {
    var members := Filter(j, (q: CertificationJoin) => q.0.name == name);
    CertificationProgressRow(name, CountBy(members, IsMatched), CountBy(members, IsInProgress))
  }

  /** `GROUP BY c.name`: one row per catalogue name, in order of first appearance. */
  function CertificationProgress(catalogue: seq<CatalogueRow>, ucs: seq<UserCertificationRow>, user: int): seq<CertificationProgressRow> {
    var j := LeftJoin(catalogue, ucs, user);
    Map(Distinct(Map(catalogue, CatalogueName)), (name: string) => ProgressOfName(j, name))
  }

  /** The catalogue rows with a given name. */
  function Named(catalogue: seq<CatalogueRow>, name: string): seq<CatalogueRow> {
    Filter(catalogue, (c: CatalogueRow) => c.name == name)
  }

  function MatchCount(ucs: seq<UserCertificationRow>, user: int): CatalogueRow -> int {
    (c: CatalogueRow) => |Matches(c, ucs, user)|
  }

  function InProgressCount(ucs: seq<UserCertificationRow>, user: int): CatalogueRow -> int {
    (c: CatalogueRow) => CountBy(Matches(c, ucs, user), (u: UserCertificationRow) => u.status == "in_progress")
  }

  /** A catalogue row adds its matches to the counts, and nothing when the user has none: the NULL row is not counted. */
  lemma JoinRowsCounts(c: CatalogueRow, ucs: seq<UserCertificationRow>, user: int)
    ensures CountBy(JoinRows(c, ucs, user), IsMatched) == |Matches(c, ucs, user)|
    ensures CountBy(JoinRows(c, ucs, user), IsInProgress) ==
      CountBy(Matches(c, ucs, user), (u: UserCertificationRow) => u.status == "in_progress")
    ensures forall q :: q in JoinRows(c, ucs, user) ==> q.0 == c
  {
    var m := Matches(c, ucs, user);
    if m != [] {
      var wrap := (u: UserCertificationRow) => (c, Some(u));
      CountByMap(m, wrap, IsMatched, (u: UserCertificationRow) => true);
      CountByAll(m, (u: UserCertificationRow) => true);
      CountByMap(m, wrap, IsInProgress, (u: UserCertificationRow) => u.status == "in_progress");
    }
  }

  lemma {:induction false} CountByAll<T>(s: seq<T>, p: T -> bool)
    requires forall x :: p(x)
    ensures CountBy(s, p) == |s|
  {
    if s != [] {
      CountByAll(s[1..], p);
    }
  }

  /**
   * The counts of one name: `completed` is the number of the user's rows
   * matching any catalogue row of that name, whatever their status, and
   * `inProgress` the number of those marked 'in_progress'.
   */
  lemma NameCounts(catalogue: seq<CatalogueRow>, ucs: seq<UserCertificationRow>, user: int, name: string)
    ensures var members := Filter(LeftJoin(catalogue, ucs, user), (q: CertificationJoin) => q.0.name == name);
      && CountBy(members, IsMatched) == SumBy(Named(catalogue, name), MatchCount(ucs, user))
      && CountBy(members, IsInProgress) == SumBy(Named(catalogue, name), InProgressCount(ucs, user))
  {
    var f := (c: CatalogueRow) => JoinRows(c, ucs, user);
    var p := (q: CertificationJoin) => q.0.name == name;
    var sel := (c: CatalogueRow) => c.name == name;
    forall c: CatalogueRow
      ensures MatchCount(ucs, user)(c) == CountBy(f(c), IsMatched)
      ensures InProgressCount(ucs, user)(c) == CountBy(f(c), IsInProgress)
      ensures forall q :: q in f(c) ==> p(q) == sel(c)
    {
      JoinRowsCounts(c, ucs, user);
    }
    CountByFlatMapFilter(catalogue, f, p, sel, IsMatched, MatchCount(ucs, user));
    CountByFlatMapFilter(catalogue, f, p, sel, IsInProgress, InProgressCount(ucs, user));
  }

  /**
   * One row per catalogue name, no name twice, every name listed even when
   * the user has nothing for it; each row carries that name's counts, and
   * `inProgress` never exceeds `completed`.
   */
  lemma CertificationProgressFacts(catalogue: seq<CatalogueRow>, ucs: seq<UserCertificationRow>, user: int)
    ensures var r := CertificationProgress(catalogue, ucs, user);
      && (forall i, j :: 0 <= i < j < |r| ==> r[i].category != r[j].category)
      && (forall c :: c in catalogue ==> exists i :: 0 <= i < |r| && r[i].category == c.name)
      && (forall i :: 0 <= i < |r| ==> r[i].category in Map(catalogue, CatalogueName))
      && (forall i :: 0 <= i < |r| ==>
            r[i].completed == SumBy(Named(catalogue, r[i].category), MatchCount(ucs, user)) &&
            r[i].inProgress == SumBy(Named(catalogue, r[i].category), InProgressCount(ucs, user)) &&
            r[i].inProgress <= r[i].completed)
  {
    var names := Distinct(Map(catalogue, CatalogueName));
    var r := CertificationProgress(catalogue, ucs, user);
    CertificationNames(catalogue, ucs, user);
    forall i | 0 <= i < |r|
      ensures r[i].completed == SumBy(Named(catalogue, r[i].category), MatchCount(ucs, user))
      ensures r[i].inProgress == SumBy(Named(catalogue, r[i].category), InProgressCount(ucs, user))
      ensures r[i].inProgress <= r[i].completed
    {
      var members := Filter(LeftJoin(catalogue, ucs, user), (q: CertificationJoin) => q.0.name == names[i]);
      NameCounts(catalogue, ucs, user, names[i]);
      CountByMonotone(members, IsInProgress, IsMatched);
    }
  }

  /** The rows are the distinct catalogue names, each catalogue name listed. */
  lemma CertificationNames(catalogue: seq<CatalogueRow>, ucs: seq<UserCertificationRow>, user: int)
    ensures var r := CertificationProgress(catalogue, ucs, user);
      && (forall i :: 0 <= i < |r| ==> RowCategory(r[i]) == Distinct(Map(catalogue, CatalogueName))[i])
      && (forall i, j :: 0 <= i < j < |r| ==> RowCategory(r[i]) != RowCategory(r[j]))
      && (forall c :: c in catalogue ==> exists i :: 0 <= i < |r| && RowCategory(r[i]) == CatalogueName(c))
      && (forall i :: 0 <= i < |r| ==> RowCategory(r[i]) in Map(catalogue, CatalogueName))
  {
    var j := LeftJoin(catalogue, ucs, user);
    MapOverDistinct(catalogue, CatalogueName, (name: string) => ProgressOfName(j, name), RowCategory);
  }

  function RowCategory(r: CertificationProgressRow): string { r.category }

  // ---------------------------------------------------------------------------
  // GET /weekly-activity

  datatype WeekdayActivity = WeekdayActivity(day: string, hours: int, tasks: nat)

  function StreakWeekday(r: StreakRow): string { WeekdayLabel(r.date) }

  /** `ls.date >= DATE_SUB(CURRENT_DATE, INTERVAL 7 DAY)`: eight calendar days up to today, and any later date. */
  function LastWeek(rows: seq<StreakRow>, today: Day): seq<StreakRow> {
    Filter(rows, (r: StreakRow) => r.date >= today - 7)
  }

  /** `GROUP BY DATE_FORMAT(ls.date, '%a') ORDER BY ls.date`, a group placed by its earliest date. */
  function WeeklyGroups(rows: seq<StreakRow>, today: Day): seq<Group<string>> {
    OrderByFirst(GroupBy(LastWeek(rows, today), StreakWeekday, StreakHours, StreakDate))
  }

  function WeeklyActivity(rows: seq<StreakRow>, today: Day): seq<WeekdayActivity> {
    Map(WeeklyGroups(rows, today), (g: Group<string>) => WeekdayActivity(g.key, g.total, g.count))
  }

  /** The window keeps exactly the rows dated today - 7 or later. */
  lemma LastWeekMembers(rows: seq<StreakRow>, today: Day)
    ensures forall x :: x in LastWeek(rows, today) <==> x in rows && x.date >= today - 7
  {
    FilterMembers(rows, (r: StreakRow) => r.date >= today - 7);
  }

  /**
   * At most seven rows, one per weekday label present in the window, each
   * with the summed hours and the number of the window's rows of that
   * weekday, in order of their earliest date.
   */
  lemma WeeklyActivityFacts(rows: seq<StreakRow>, today: Day)
    ensures var r := WeeklyActivity(rows, today);
      var window := LastWeek(rows, today);
      && |r| <= 7
      && (forall i, j :: 0 <= i < j < |r| ==> r[i].day != r[j].day)
      && (forall i :: 0 <= i < |r| ==> r[i].day in WeekdayLabels && r[i].day in Map(window, StreakWeekday))
      && (forall i :: 0 <= i < |r| ==>
            r[i].hours == SumBy(Members(window, StreakWeekday, r[i].day), StreakHours) &&
            r[i].tasks == |Members(window, StreakWeekday, r[i].day)|)
  {
    var window := LastWeek(rows, today);
    OrderedGroupsAt(window, StreakWeekday, StreakHours, StreakDate);
    WeekdayKeys(window);
  }

  /** At most seven weekday labels occur in any rows. */
  lemma WeekdayKeys(window: seq<StreakRow>)
    ensures |KeysOf(window, StreakWeekday)| <= 7
    ensures forall w :: w in Map(window, StreakWeekday) ==> w in WeekdayLabels
  {
    var keys := KeysOf(window, StreakWeekday);
    DistinctMembers(Map(window, StreakWeekday));
    forall w | w in Map(window, StreakWeekday) ensures w in WeekdayLabels {
      var k :| 0 <= k < |window| && Map(window, StreakWeekday)[k] == w;
      assert w == WeekdayLabel(window[k].date);
    }
    NoDuplicatesWithinSeq(keys, WeekdayLabels);
  }

  /** The window spans eight days: today's rows share a row with those of the same weekday a week ago. */
  lemma WeekAgoSharesToday(today: Day)
    ensures WeekdayLabel(today - 7) == WeekdayLabel(today)
  {
    WeekdayPeriodic(today - 7, 1);
  }

  /** The rows come out in order of each weekday's earliest date in the window. */
  lemma WeeklyActivityOrdered(rows: seq<StreakRow>, today: Day)
    ensures var gs := WeeklyGroups(rows, today);
      forall i, j :: 0 <= i < j < |gs| ==> gs[i].first < gs[j].first
  {
    OrderedGroupsStrict(LastWeek(rows, today), StreakWeekday, StreakHours, StreakDate);
  }
}
