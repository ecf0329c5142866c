/**
 * The skill routes of `skills.js`: the skill list with its progress history
 * concatenated in SQL and split again in JavaScript, the month-by-type growth
 * query and its dense pivot (every month shows `technical` and `soft`), the
 * recommendations by ascending proficiency and the most-used skills.
 */
module Skills {
  import opened Collections
  import opened Sorting
  import opened Grouping
  import opened Calendar
  import opened Tables
  import opened Pivots
  import opened Text
  import opened Reports

  // ---------------------------------------------------------------------------
  // GET /: one row per skill with its history and dates as comma-joined strings

  /** A row of the list query: the skill, its category type and the two `GROUP_CONCAT` columns. */
  datatype SkillListRow = SkillListRow(
    id: int, name: string, category: string, proficiency: int, history: string, dates: string)

  /** A row of the response, after `history` and `dates` are split into arrays. */
  datatype SkillView = SkillView(
    id: int, name: string, category: string, proficiency: int, history: seq<JsNumber>, dates: seq<string>)

  function OfSkill(s: SkillRow): ProgressRow -> bool {
    (r: ProgressRow) => r.skillId == s.id
  }

  predicate ByRecordedDate(a: ProgressRow, b: ProgressRow) {
    a.date <= b.date
  }

  /** `LEFT JOIN skill_progress ... ORDER BY sp.recorded_date` inside the aggregate: the skill's rows by date. */
  function ProgressOf(s: SkillRow, progress: seq<ProgressRow>): seq<ProgressRow> {
    SortBy(Filter(progress, OfSkill(s)), ByRecordedDate)
  }

  /** An integer `proficiency_level` as `GROUP_CONCAT` renders it. */
  function LevelText(r: ProgressRow): string { IntToString(r.level) }

  /** `DATE_FORMAT(sp.recorded_date, '%b')` */
  function DateText(r: ProgressRow): string { LabelOf(r.date) }

  /**
   * `group_concat_max_len` at its default of 1024 bytes; levels and month
   * labels are ASCII, so a byte is a character here.
   */
  const GroupConcatMaxLen: nat := 1024

  /** `GROUP_CONCAT(...)`: the pieces joined with `,`, the result cut at `group_concat_max_len`. */
  function GroupConcat(texts: seq<string>): string {
    Truncate(Join(texts, ','), GroupConcatMaxLen)
  }

  /** `COALESCE(GROUP_CONCAT(...), '')`: a skill without progress rows gets the empty string. */
  function ListRowOf(s: SkillRow, progress: seq<ProgressRow>): SkillListRow {
    var ps := ProgressOf(s, progress);
    SkillListRow(s.id, s.name, s.category, s.proficiency, GroupConcat(Map(ps, LevelText)), GroupConcat(Map(ps, DateText)))
  }

  /**
   * `ORDER BY sc.type, s.name` under a case-insensitive collation: the type
   * and then the name, each compared with ASCII letters folded to lower case.
   */
  predicate ByTypeThenName(a: SkillListRow, b: SkillListRow) {
    var ca, cb := FoldCase(a.category), FoldCase(b.category);
    if ca != cb then StringLe(ca, cb) else StringLe(FoldCase(a.name), FoldCase(b.name))
  }

  function SkillList(skills: seq<SkillRow>, progress: seq<ProgressRow>): seq<SkillListRow> {
    SortBy(ListRows(skills, progress), ByTypeThenName)
  }

  /** `history ? history.split(',').map(Number) : []` */
  function History(s: string): (r: seq<JsNumber>)
    ensures r == [] <==> s == ""
  {
    if s == "" then [] else Map(Split(s, ','), ToNumber)
  }

  /** `dates ? dates.split(',') : []` */
  function Dates(s: string): (r: seq<string>)
    ensures r == [] <==> s == ""
  {
    if s == "" then [] else Split(s, ',')
  }

  /** The `rows.map` of the handler: every other column is spread into the result unchanged. */
  function Transform(r: SkillListRow): (v: SkillView)
    ensures v.id == r.id && v.name == r.name && v.category == r.category && v.proficiency == r.proficiency
    ensures v.history == [] <==> r.history == ""
    ensures v.dates == [] <==> r.dates == ""
  {
    SkillView(r.id, r.name, r.category, r.proficiency, History(r.history), Dates(r.dates))
  }

  function SkillsResponse(skills: seq<SkillRow>, progress: seq<ProgressRow>): seq<SkillView> {
    Map(SkillList(skills, progress), Transform)
  }

  lemma ByTypeThenNameIsTotalPreorder()
    ensures TotalPreorder(ByTypeThenName)
  {
    forall a, b ensures ByTypeThenName(a, b) || ByTypeThenName(b, a) {
      StringLeTotal(FoldCase(a.category), FoldCase(b.category));
      StringLeTotal(FoldCase(a.name), FoldCase(b.name));
    }
    forall a, b, c | ByTypeThenName(a, b) && ByTypeThenName(b, c) ensures ByTypeThenName(a, c) {
      var ca, cb, cc := FoldCase(a.category), FoldCase(b.category), FoldCase(c.category);
      if ca != cb && cb != cc {
        StringLeTransitive(ca, cb, cc);
        StringLeAntisymmetric(ca, cb);
      } else if ca == cb && cb == cc {
        StringLeTransitive(FoldCase(a.name), FoldCase(b.name), FoldCase(c.name));
      }
    }
  }

  /** Case does not decide the order: "angular" is listed before "Python" of the same type. */
  lemma NameOrderIgnoresCase(a: SkillListRow, p: SkillListRow)
    requires a.category == p.category && a.name == "angular" && p.name == "Python"
    ensures ByTypeThenName(a, p) && !ByTypeThenName(p, a)
  {
    assert FoldCase(a.name)[0] == 'a' && FoldCase(p.name)[0] == 'p';
  }

  /** Splitting the joined levels, uncut, and reading each piece as a number gives the levels back. */
  lemma {:induction false} HistoryRoundTrip(rs: seq<ProgressRow>)
    requires forall i :: 0 <= i < |rs| ==> rs[i].level >= 0
    ensures var h := History(Join(Map(rs, LevelText), ','));
      |h| == |rs| && forall i :: 0 <= i < |rs| ==> h[i] == Num(rs[i].level)
  {
    var texts := Map(rs, LevelText);
    if rs != [] {
      forall i | 0 <= i < |texts| ensures ',' !in texts[i] && AllDigits(texts[i]) {
        assert texts[i] == NatToString(rs[i].level);
      }
      JoinNonEmpty(texts, ',');
      SplitJoin(texts, ',');
      var h := History(Join(texts, ','));
      assert h == Map(texts, ToNumber);
      forall i | 0 <= i < |rs| ensures h[i] == Num(rs[i].level) {
        ParseNatToString(rs[i].level);
        assert texts[i] == NatToString(rs[i].level);
      }
    }
  }

  /** Splitting the joined month labels, uncut, gives the labels back: a label never holds a comma. */
  lemma {:induction false} DatesRoundTrip(rs: seq<ProgressRow>)
    ensures Dates(Join(Map(rs, DateText), ',')) == Map(rs, DateText)
  {
    var texts := Map(rs, DateText);
    if rs != [] {
      forall i | 0 <= i < |texts| ensures ',' !in texts[i] && |texts[i]| == 3 {
        LabelOfShape(rs[i].date);
      }
      JoinNonEmpty(texts, ',');
      SplitJoin(texts, ',');
    }
  }

  /**
   * The levels read back from the cut concatenation: none exactly when there
   * are no rows, never more than the rows, each a number, and all but the
   * last the level of the row at its position (the last may be cut short).
   */
  lemma {:induction false} HistoryCut(rs: seq<ProgressRow>)
    requires forall i :: 0 <= i < |rs| ==> rs[i].level >= 0
    ensures var h := History(GroupConcat(Map(rs, LevelText)));
      && (h == [] <==> rs == [])
      && |h| <= |rs|
      && (forall i :: 0 <= i < |h| - 1 ==> h[i] == Num(rs[i].level))
      && (forall i :: 0 <= i < |h| ==> h[i].Num?)
  {
    var texts := Map(rs, LevelText);
    if rs != [] {
      forall i | 0 <= i < |texts| ensures ',' !in texts[i] && AllDigits(texts[i]) && texts[i] == NatToString(rs[i].level) {
      }
      JoinNonEmpty(texts, ',');
      var t := GroupConcat(texts);
      assert t == Join(texts, ',')[..|t|] && t != "";
      SplitJoinPrefix(texts, ',', |t|);
      var r := Split(t, ',');
      var h := History(t);
      assert h == Map(r, ToNumber) && |r| <= |rs|;
      forall i | 0 <= i < |r| ensures AllDigits(r[i]) && (i < |r| - 1 ==> h[i] == Num(rs[i].level)) {
        assert r[i] <= texts[i];
        assert forall k :: 0 <= k < |r[i]| ==> r[i][k] == texts[i][k];
        if i < |r| - 1 {
          ParseNatToString(rs[i].level);
        }
      }
    }
  }

  /**
   * A cut that falls just after a comma leaves an empty last piece, which
   * `Number` reads as 0: "100,100" cut at four characters reads back as
   * the levels 100 and 0.
   */
  lemma CutAfterCommaReadsZero()
    ensures History(Truncate(Join(["100", "100"], ','), 4)) == [Num(100), Num(0)]
  {
    var t := Truncate(Join(["100", "100"], ','), 4);
    assert t == "100,";
    assert FirstIndex(t, ',') == 3;
    assert Split(t, ',') == ["100", ""];
    assert ParseDigits("100") == 100 by {
      assert "100"[..2] == "10" && "10"[..1] == "1" && "1"[..0] == "";
    }
  }

  /** Up to 256 rows of levels below 1000 fit in `group_concat_max_len`. */
  lemma LevelsFit(rs: seq<ProgressRow>)
    requires |rs| <= 256
    requires forall i :: 0 <= i < |rs| ==> 0 <= rs[i].level <= 999
    ensures |Join(Map(rs, LevelText), ',')| <= GroupConcatMaxLen
  {
    if rs != [] {
      var texts := Map(rs, LevelText);
      forall i | 0 <= i < |texts| ensures |texts[i]| <= 3 {
        ShortNumber(rs[i].level);
      }
      JoinLength(texts, ',', 3);
    }
  }

  lemma ShortNumber(n: nat)
    requires n <= 999
    ensures |NatToString(n)| <= 3
  {
    if n >= 10 {
      assert |NatToString(n)| == |NatToString(n / 10)| + 1;
      if n / 10 >= 10 {
        assert |NatToString(n / 10)| == |NatToString(n / 100)| + 1;
      }
    }
  }

  /**
   * The month labels read back from the cut concatenation: none exactly when
   * there are no rows, never more than the rows, all but the last the label
   * of the row at its position, and all of them exactly when there are at
   * most 256 rows (each label with its comma takes four bytes).
   */
  lemma {:induction false} DatesCut(rs: seq<ProgressRow>)
    ensures var d := Dates(GroupConcat(Map(rs, DateText)));
      && (d == [] <==> rs == [])
      && |d| <= |rs|
      && (forall i :: 0 <= i < |d| - 1 ==> d[i] == DateText(rs[i]))
      && (d == Map(rs, DateText) <==> |rs| <= 256)
  {
    var texts := Map(rs, DateText);
    if rs != [] {
      forall i | 0 <= i < |texts| ensures ',' !in texts[i] && |texts[i]| == 3 {
        LabelOfShape(rs[i].date);
      }
      JoinNonEmpty(texts, ',');
      JoinLength(texts, ',', 3);
      var t := GroupConcat(texts);
      assert t == Join(texts, ',')[..|t|] && t != "";
      SplitJoinPrefix(texts, ',', |t|);
      CutJoinRoundTrip(texts, ',', GroupConcatMaxLen);
    }
  }

  /** The list rows before ordering, one per skill. */
  function ListRowWith(progress: seq<ProgressRow>): SkillRow -> SkillListRow {
    (s: SkillRow) => ListRowOf(s, progress)
  }

  function ListRows(skills: seq<SkillRow>, progress: seq<ProgressRow>): seq<SkillListRow> {
    Map(skills, ListRowWith(progress))
  }

  /**
   * The response of GET / has one entry per skill, ordered by type and then
   * by name, letters compared without regard to case.
   */
  lemma SkillsResponseOrdered(skills: seq<SkillRow>, progress: seq<ProgressRow>)
    ensures var r := SkillsResponse(skills, progress);
      && |r| == |skills|
      && (forall i, j :: 0 <= i < j < |r| ==>
            if FoldCase(r[i].category) != FoldCase(r[j].category)
            then StringLe(FoldCase(r[i].category), FoldCase(r[j].category))
            else StringLe(FoldCase(r[i].name), FoldCase(r[j].name)))
  {
    ByTypeThenNameIsTotalPreorder();
    SortBySorted(ListRows(skills, progress), ByTypeThenName);
  }

  /** The entries of GET / are exactly the views of the user's skills. */
  lemma SkillsResponseMembers(skills: seq<SkillRow>, progress: seq<ProgressRow>)
    ensures forall v :: v in SkillsResponse(skills, progress) <==>
      exists s :: s in skills && v == Transform(ListRowOf(s, progress))
  {
    SkillListMembers(skills, progress);
    MapMembers(SkillList(skills, progress), Transform);
  }

  /** The sorted rows are exactly the rows of the user's skills. */
  lemma SkillListMembers(skills: seq<SkillRow>, progress: seq<ProgressRow>)
    ensures forall r :: r in SkillList(skills, progress) <==> exists s :: s in skills && r == ListRowOf(s, progress)
  {
    SortByMapMembers(skills, ListRowWith(progress), ByTypeThenName);
  }

  /**
   * v shows skill s: its columns, and its progress levels and labels in date
   * order as far as `GROUP_CONCAT` keeps them.
   */
  ghost predicate SkillViewOf(s: SkillRow, progress: seq<ProgressRow>, v: SkillView) {
    var ps := ProgressOf(s, progress);
    && v.id == s.id && v.name == s.name && v.category == s.category && v.proficiency == s.proficiency
    && (v.history == [] <==> ps == []) && |v.history| <= |ps|
    && (forall k :: 0 <= k < |v.history| - 1 ==> ps[k].level >= 0 && v.history[k] == Num(ps[k].level))
    && (forall k :: 0 <= k < |v.history| ==> v.history[k].Num?)
    && (v.dates == [] <==> ps == []) && |v.dates| <= |ps|
    && (forall k :: 0 <= k < |v.dates| - 1 ==> v.dates[k] == DateText(ps[k]))
    && (v.dates == Map(ps, DateText) <==> |ps| <= 256)
  }

  /** Every progress row of the skill shows, in date order, as its level. */
  ghost predicate FullHistory(s: SkillRow, progress: seq<ProgressRow>, v: SkillView) {
    var ps := ProgressOf(s, progress);
    |v.history| == |ps| && forall k :: 0 <= k < |ps| ==> ps[k].level >= 0 && v.history[k] == Num(ps[k].level)
  }

  /**
   * A skill's entry holds its own columns and a date-ordered prefix of its
   * progress levels and month labels, the last entry possibly cut short;
   * a skill without progress gets two empty arrays. The labels are complete
   * exactly up to 256 rows, and so are the levels when they are below 1000.
   */
  lemma ListRowView(s: SkillRow, progress: seq<ProgressRow>)
    requires forall i :: 0 <= i < |progress| ==> progress[i].level >= 0
    ensures SkillViewOf(s, progress, Transform(ListRowOf(s, progress)))
    ensures |ProgressOf(s, progress)| <= 256 && (forall i :: 0 <= i < |progress| ==> progress[i].level <= 999) ==>
      FullHistory(s, progress, Transform(ListRowOf(s, progress)))
  {
    var ps := ProgressOf(s, progress);
    SortByMembers(Filter(progress, OfSkill(s)), ByRecordedDate);
    forall i | 0 <= i < |ps| ensures ps[i].level >= 0 && (ps[i] in progress) {
      assert ps[i] in Filter(progress, OfSkill(s));
    }
    HistoryCut(ps);
    DatesCut(ps);
    if |ps| <= 256 && forall i :: 0 <= i < |progress| ==> progress[i].level <= 999 {
      LevelsFit(ps);
      HistoryRoundTrip(ps);
    }
  }

  // ---------------------------------------------------------------------------
  // GET /growth: averages per (year, month, type), the six earliest, pivoted
  // densely with `technical` and `soft` defaulting to 0

  /**
   * A kept group as (`MIN(DATE_FORMAT(recorded_date, '%b'))`, type,
   * `ROUND(AVG(level), 2)` in hundredths). All rows of a (year, month) group
   * share one label, so the minimum is the label of the earliest date.
   */
  function GrowthRowOfGroup(g: Group<(int, int, string)>): GrowthRow {
    GrowthRow(LabelOf(g.first), g.key.2, RoundedAverage(g, 100))
  }

  /** `ORDER BY MIN(sp.recorded_date) ASC LIMIT 6` over the month-and-type groups. */
  function GrowthGroupsKept(progress: seq<ProgressRow>): seq<Group<(int, int, string)>> {
    Take(OrderByFirst(MonthlyAverages(progress)), 6)
  }

  function GrowthQuery(progress: seq<ProgressRow>): seq<GrowthRow> {
    Map(GrowthGroupsKept(progress), GrowthRowOfGroup)
  }

  /** The fields every `/growth` record starts with. */
  const DenseDefaults: map<string, int> := map["technical" := 0, "soft" := 0]

  /**
   * The handler's loops: for each distinct month, a record starting at
   * `technical: 0, soft: 0`, then every row of that month setting its
   * category's field to its level.
   */
  method DensePivot(rows: seq<GrowthRow>) returns (out: seq<MonthRecord>)
    ensures out == Pivot(rows, DenseDefaults)
  {
    var months := MonthsOf(rows);
    out := [];
    var m := 0;
    while m < |months|
      invariant 0 <= m <= |months|
      invariant |out| == m
      invariant forall k :: 0 <= k < m ==> out[k] == MonthRecord(months[k], Fill(rows, months[k], DenseDefaults))
    {
      var month := months[m];
      var values := DenseDefaults;
      var j := 0;
      while j < |rows|
        invariant 0 <= j <= |rows|
        invariant values == Fill(rows[..j], month, DenseDefaults)
      {
        assert rows[..j + 1][..j] == rows[..j];
        if rows[j].month == month {
          values := values[rows[j].category := rows[j].level];
        }
        j := j + 1;
      }
      assert rows[..|rows|] == rows;
      out := out + [MonthRecord(month, values)];
      m := m + 1;
    }
  }

  /** The `/growth` response. */
  method Growth(progress: seq<ProgressRow>) returns (out: seq<MonthRecord>)
    ensures out == Pivot(GrowthQuery(progress), DenseDefaults)
  {
    out := DensePivot(GrowthQuery(progress));
  }

  /**
   * The dense pivot of any rows: one record per distinct month in order of
   * first appearance; every record has `technical` and `soft`; its fields are
   * those two plus every category a row of its month names, an unknown
   * category included; a field no row names stays 0; and a named field holds
   * the level of the last row of that month and category.
   */
  lemma DensePivotFacts(rows: seq<GrowthRow>)
    ensures var p := Pivot(rows, DenseDefaults);
      && (forall i, j :: 0 <= i < j < |p| ==> p[i].month != p[j].month)
      && (forall m :: (exists i :: 0 <= i < |p| && p[i].month == m) <==> m in Map(rows, RowMonth))
      && (forall i :: 0 <= i < |p| ==> "technical" in p[i].values && "soft" in p[i].values)
      && (forall i, c :: 0 <= i < |p| ==>
            (c in p[i].values <==>
              c == "technical" || c == "soft" ||
              exists j :: 0 <= j < |rows| && rows[j].month == p[i].month && rows[j].category == c))
      && (forall i, c :: 0 <= i < |p| && (c == "technical" || c == "soft") &&
            (forall j :: 0 <= j < |rows| ==> !(rows[j].month == p[i].month && rows[j].category == c))
            ==> p[i].values[c] == 0)
      && (forall i, j :: 0 <= i < |p| && 0 <= j < |rows| && rows[j].month == p[i].month &&
            (forall j' :: j < j' < |rows| ==> !(rows[j'].month == p[i].month && rows[j'].category == rows[j].category))
            ==> rows[j].category in p[i].values && p[i].values[rows[j].category] == rows[j].level)
  {
    var p := Pivot(rows, DenseDefaults);
    PivotMonths(rows, DenseDefaults);
    forall i, c | 0 <= i < |p|
      ensures c in p[i].values <==>
        c == "technical" || c == "soft" ||
        exists j :: 0 <= j < |rows| && rows[j].month == p[i].month && rows[j].category == c
      ensures (c == "technical" || c == "soft") &&
        (forall j :: 0 <= j < |rows| ==> !(rows[j].month == p[i].month && rows[j].category == c))
        ==> p[i].values[c] == 0
    {
      FillKeys(rows, p[i].month, DenseDefaults, c);
      if (forall j :: 0 <= j < |rows| ==> !(rows[j].month == p[i].month && rows[j].category == c)) {
        FillUntouched(rows, p[i].month, DenseDefaults, c);
      }
    }
    forall i, j | 0 <= i < |p| && 0 <= j < |rows| && rows[j].month == p[i].month &&
      (forall j' :: j < j' < |rows| ==> !(rows[j'].month == p[i].month && rows[j'].category == rows[j].category))
      ensures rows[j].category in p[i].values && p[i].values[rows[j].category] == rows[j].level
    {
      FillLastWins(rows, p[i].month, DenseDefaults, j);
    }
  }

  /**
   * The growth query returns at most six rows, from distinct (year, month,
   * type) groups in order of their earliest date. Equal labels from
   * different years stay separate rows, and the pivot then keeps the later.
   */
  lemma GrowthQueryOrdered(progress: seq<ProgressRow>)
    ensures var kept := GrowthGroupsKept(progress);
      && |GrowthQuery(progress)| == |kept| <= 6
      && (forall i, j :: 0 <= i < j < |kept| ==> kept[i].key != kept[j].key && kept[i].first <= kept[j].first)
  {
    var os := OrderByFirst(GroupBy(progress, MonthTypeKey, ProgressLevel, ProgressDate));
    assert GrowthGroupsKept(progress) == Take(os, 6);
    OrderedGroupsFacts(progress, MonthTypeKey, ProgressLevel, ProgressDate);
  }

  /** Row i of the growth query shows kept group i: its month label, its type and its rounded average. */
  lemma GrowthQueryRows(progress: seq<ProgressRow>)
    ensures var kept := GrowthGroupsKept(progress);
      forall i :: 0 <= i < |kept| ==>
        kept[i] in MonthlyAverages(progress) &&
        GrowthQuery(progress)[i] == GrowthRow(MonthLabel(kept[i].key.1), kept[i].key.2, RoundedAverage(kept[i], 100))
  {
    var gs := MonthlyAverages(progress);
    var os := OrderByFirst(gs);
    var kept := GrowthGroupsKept(progress);
    OrderByFirstFacts(gs);
    forall i | 0 <= i < |kept|
      ensures kept[i] in gs
      ensures GrowthQuery(progress)[i] == GrowthRow(MonthLabel(kept[i].key.1), kept[i].key.2, RoundedAverage(kept[i], 100))
    {
      assert kept[i] == os[i];
      assert os[i] in os;
      MonthlyAverageKey(progress, kept[i]);
    }
  }

  /** A (year, month, type) group left out by the limit starts no earlier than any kept group. */
  lemma GrowthKeepsEarliest(progress: seq<ProgressRow>, k: (int, int, string))
    requires k in Map(progress, MonthTypeKey)
    requires forall i :: 0 <= i < |GrowthGroupsKept(progress)| ==> GrowthGroupsKept(progress)[i].key != k
    ensures forall i :: 0 <= i < |GrowthGroupsKept(progress)| ==>
      GrowthGroupsKept(progress)[i].first <= GroupOf(progress, MonthTypeKey, ProgressLevel, ProgressDate, k).first
  {
    assert GrowthGroupsKept(progress) == Take(OrderByFirst(GroupBy(progress, MonthTypeKey, ProgressLevel, ProgressDate)), 6);
    LimitKeepsEarliest(progress, MonthTypeKey, ProgressLevel, ProgressDate, 6, k);
  }

  /** At most six records, since the query returns at most six rows. */
  lemma GrowthAtMostSix(progress: seq<ProgressRow>)
    ensures |Pivot(GrowthQuery(progress), DenseDefaults)| <= 6
  {
    PivotMonths(GrowthQuery(progress), DenseDefaults);
  }

  // ---------------------------------------------------------------------------
  // GET /recommendations: the five least proficient skills with a priority

  datatype Recommendation = Recommendation(id: int, skillName: string, priority: string)

  /** The `CASE` on `proficiency_level`. */
  function Priority(proficiency: int): (p: string)
    ensures p == "high" <==> proficiency < 60
    ensures p == "medium" <==> 60 <= proficiency < 80
    ensures p == "low" <==> 80 <= proficiency
  {
    if proficiency < 60 then "high" else if proficiency < 80 then "medium" else "low"
  }

  function RecommendationOf(s: SkillRow): Recommendation {
    Recommendation(s.id, s.name, Priority(s.proficiency))
  }

  /** `ORDER BY s.proficiency_level ASC` */
  predicate ByProficiency(a: SkillRow, b: SkillRow) {
    a.proficiency <= b.proficiency
  }

  /** `ORDER BY s.proficiency_level ASC LIMIT 5` */
  function LeastProficient(skills: seq<SkillRow>): seq<SkillRow> {
    Take(SortBy(skills, ByProficiency), 5)
  }

  function Recommendations(skills: seq<SkillRow>): seq<Recommendation> {
    Map(LeastProficient(skills), RecommendationOf)
  }

  /**
   * Five skills, or all of them when there are fewer, in ascending
   * proficiency; every one is a skill of the user, and a skill left out is
   * no less proficient than any kept. Entry i names kept skill i with its
   * priority band.
   */
  lemma RecommendationsFacts(skills: seq<SkillRow>)
    ensures var kept := LeastProficient(skills);
      var r := Recommendations(skills);
      && |r| == |kept| == (if |skills| < 5 then |skills| else 5)
      && (forall i, j :: 0 <= i < j < |kept| ==> kept[i].proficiency <= kept[j].proficiency)
      && (forall s :: s in kept ==> s in skills)
      && multiset(kept) <= multiset(skills)
      && (forall s :: multiset(kept)[s] < multiset(skills)[s] ==>
            forall k :: k in kept ==> k.proficiency <= s.proficiency)
      && (forall i :: 0 <= i < |r| ==>
            r[i].id == kept[i].id && r[i].skillName == kept[i].name &&
            (r[i].priority == "high" <==> kept[i].proficiency < 60) &&
            (r[i].priority == "medium" <==> 60 <= kept[i].proficiency < 80) &&
            (r[i].priority == "low" <==> 80 <= kept[i].proficiency))
  {
    var t := SortBy(skills, ByProficiency);
    var kept := LeastProficient(skills);
    assert TotalPreorder(ByProficiency);
    SortBySorted(skills, ByProficiency);
    SortByMembers(skills, ByProficiency);
    LimitLeftOut(skills, ByProficiency, |kept|);
    SortedPrefixSubMultiset(skills, ByProficiency, |kept|);
    forall s | s in kept ensures s in skills {
      var i :| 0 <= i < |kept| && kept[i] == s;
      assert t[i] == s;
    }
  }

  // ---------------------------------------------------------------------------
  // GET /most-used: skills by number of progress rows, then proficiency

  datatype SkillUsage = SkillUsage(name: string, proficiency: int, usageCount: nat)

  /** `COUNT(sp.id)` over the left join: the skill's progress rows, 0 when it has none. */
  function UsageCount(s: SkillRow, progress: seq<ProgressRow>): nat {
    CountBy(progress, OfSkill(s))
  }

  function UsageOf(s: SkillRow, progress: seq<ProgressRow>): SkillUsage {
    SkillUsage(s.name, s.proficiency, UsageCount(s, progress))
  }

  /** `ORDER BY usage_count DESC, s.proficiency_level DESC` */
  predicate ByUsage(a: SkillUsage, b: SkillUsage) {
    a.usageCount > b.usageCount || (a.usageCount == b.usageCount && a.proficiency >= b.proficiency)
  }

  function Usages(skills: seq<SkillRow>, progress: seq<ProgressRow>): seq<SkillUsage> {
    Map(skills, (s: SkillRow) => UsageOf(s, progress))
  }

  function MostUsed(skills: seq<SkillRow>, progress: seq<ProgressRow>): seq<SkillUsage> {
    Take(SortBy(Usages(skills, progress), ByUsage), 5)
  }

  /**
   * At most five entries, five when there are that many skills; by usage
   * descending and, at equal usage, by proficiency descending; each entry is
   * a skill of the user with its own usage count; and a skill left out has
   * no more usage than any kept one, or equal usage and no more proficiency.
   */
  lemma MostUsedFacts(skills: seq<SkillRow>, progress: seq<ProgressRow>)
    ensures var us := Usages(skills, progress);
      var r := MostUsed(skills, progress);
      && |r| == (if |skills| < 5 then |skills| else 5)
      && (forall i, j :: 0 <= i < j < |r| ==>
            r[i].usageCount > r[j].usageCount ||
            (r[i].usageCount == r[j].usageCount && r[i].proficiency >= r[j].proficiency))
      && (forall e :: e in r ==> exists s :: s in skills && e == UsageOf(s, progress))
      && (forall e :: multiset(r)[e] < multiset(us)[e] ==> forall k :: k in r ==> ByUsage(k, e))
  {
    var us := Usages(skills, progress);
    var r := MostUsed(skills, progress);
    assert TotalPreorder(ByUsage);
    SortBySorted(us, ByUsage);
    LimitLeftOut(us, ByUsage, |r|);
    MostUsedFromSkills(skills, progress);
  }

  /** Every listed usage is the usage of one of the user's skills. */
  lemma MostUsedFromSkills(skills: seq<SkillRow>, progress: seq<ProgressRow>)
    ensures forall e :: e in MostUsed(skills, progress) ==> exists s :: s in skills && e == UsageOf(s, progress)
  {
    var us := Usages(skills, progress);
    var t := SortBy(us, ByUsage);
    var r := MostUsed(skills, progress);
    SortByMembers(us, ByUsage);
    forall e | e in r ensures exists s :: s in skills && e == UsageOf(s, progress) {
      var i :| 0 <= i < |r| && r[i] == e;
      assert t[i] in us;
      var k :| 0 <= k < |us| && us[k] == e;
      assert skills[k] in skills;
    }
  }

  /** A skill with no progress rows is still listed by the left join, with usage 0. */
  lemma UsageWithoutProgress(s: SkillRow, progress: seq<ProgressRow>)
    requires forall i :: 0 <= i < |progress| ==> progress[i].skillId != s.id
    ensures UsageCount(s, progress) == 0
  {
    CountByNone(progress, OfSkill(s));
  }
}
