/**
 * The workshop routes of `workshops.js`: the user's workshops by date, and
 * the `/stats` of the last thirty days with the hours each workshop's time
 * range spans.
 */
module Workshops {
  import opened Collections
  import opened Sorting
  import opened Numbers
  import opened Text
  import opened Tables

  // ---------------------------------------------------------------------------
  // GET /workshops

  predicate ByDate(a: WorkshopRow, b: WorkshopRow) {
    a.date <= b.date
  }

  /** `SELECT * FROM workshops WHERE user_id = ? ORDER BY date ASC` */
  function ListOf(workshops: seq<WorkshopRow>): seq<WorkshopRow> {
    SortBy(workshops, ByDate)
  }

  /** The list holds the same workshops, each as often as before, earliest date first. */
  lemma ListFacts(workshops: seq<WorkshopRow>)
    ensures multiset(ListOf(workshops)) == multiset(workshops)
    ensures forall i, j :: 0 <= i < j < |ListOf(workshops)| ==> ListOf(workshops)[i].date <= ListOf(workshops)[j].date
  {
    SortByPermutes(workshops, ByDate);
    SortBySorted(workshops, ByDate);
  }

  // ---------------------------------------------------------------------------
  // The time of day `STR_TO_DATE(..., '%h:%i %p')` reads

  /** The value of a field of one or two digits, as `%h` and `%i` read them. */
  function FieldValue(s: string): Option<nat> {
    if |s| == 1 && IsDigit(s[0]) then Some(DigitValue(s[0]))
    else if |s| == 2 && IsDigit(s[0]) && IsDigit(s[1]) then Some(DigitValue(s[0]) * 10 + DigitValue(s[1]))
    else None
  }

  /** A field of one or two digits followed by `sep`: its value and the text after `sep`. */
  function FieldThen(s: string, sep: char): Option<(nat, string)> {
    var len := if |s| >= 2 && s[1] == sep then 1 else if |s| >= 3 && s[2] == sep then 2 else 0;
    if len == 0 then None
    else
      var v := FieldValue(s[..len]);
      if v.None? then None else Some((v.value, s[len + 1..]))
  }

  /**
   * `h:mm AM` or `h:mm PM` as minutes since midnight: the hour 1 to 12, 12 AM
   * being hour 0 and 12 PM hour 12; `None` (SQL NULL) for any other text.
   */
  function ParseClock(s: string): (r: Option<int>)
    ensures r.Some? ==> 0 <= r.value < 24 * 60
  {
    var hours := FieldThen(s, ':');
    if hours.None? then None
    else
      var minutes := FieldThen(hours.value.1, ' ');
      if minutes.None? then None else ClockValue(hours.value.0, minutes.value.0, minutes.value.1)
  }

  /** The minute of the day of h:m with its suffix, when the hour and minute are in range. */
  function ClockValue(h: nat, m: nat, suffix: string): (r: Option<int>)
    ensures r.Some? ==> 0 <= r.value < 24 * 60
  {
    if h < 1 || h > 12 || m > 59 then None
    else if suffix == "AM" then Some(MinuteOfDay(h, m, false))
    else if suffix == "PM" then Some(MinuteOfDay(h, m, true))
    else None
  }

  /** Minutes since midnight of a 12-hour time. */
  function MinuteOfDay(h: nat, m: nat, pm: bool): int
    requires 1 <= h <= 12
  {
    ((if h == 12 then 0 else h) + (if pm then 12 else 0)) * 60 + m
  }

  /** The hour without a leading zero, as the workshop rows write it. */
  function HourText(h: nat): string
    requires 1 <= h <= 12
  {
    if h < 10 then [DigitChar(h)] else ['1', DigitChar(h - 10)]
  }

  /** The minutes with two digits. */
  function MinuteText(m: nat): string
    requires m <= 59
  {
    [DigitChar(m / 10), DigitChar(m % 10)]
  }

  /** A time as the workshop rows write it, such as "9:00 AM". */
  function FormatClock(h: nat, m: nat, pm: bool): string
    requires 1 <= h <= 12 && m <= 59
  {
    HourText(h) + ":" + MinuteText(m) + " " + (if pm then "PM" else "AM")
  }

  /** Reading a written time gives its minute of the day back: 12 AM is midnight, 12 PM noon. */
  lemma ParseFormatClock(h: nat, m: nat, pm: bool)
    requires 1 <= h <= 12 && m <= 59
    ensures ParseClock(FormatClock(h, m, pm)) == Some(MinuteOfDay(h, m, pm))
  {
    var suffix := if pm then "PM" else "AM";
    var rest := MinuteText(m) + " " + suffix;
    var s := FormatClock(h, m, pm);
    assert s == HourText(h) + ":" + rest;
    assert FieldThen(s, ':') == Some((h, rest)) by {
      assert s[..|HourText(h)|] == HourText(h) && s[|HourText(h)| + 1..] == rest;
    }
    assert FieldThen(rest, ' ') == Some((m, suffix)) by {
      assert rest[..2] == MinuteText(m) && rest[3..] == suffix;
    }
  }

  // ---------------------------------------------------------------------------
  // The hours of one workshop

  /**
   * `TIMESTAMPDIFF(HOUR, start, end)` between the two ends of `time` split at
   * " - ", both on the workshop's date: the minutes between them truncated
   * toward zero to whole hours, or NULL when either end does not parse.
   */
  function WorkshopHours(time: string): Option<int> {
    HoursBetween(ParseClock(BeforeFirst(time, RangeDelimiter)), ParseClock(AfterLast(time, RangeDelimiter)))
  }

  function HoursBetween(start: Option<int>, end: Option<int>): Option<int> {
    if start.None? || end.None? then None else Some(TruncDiv(end.value - start.value, 60))
  }

  /**
   * A range written as two times counts the whole hours from the first to the
   * second, truncated toward zero: "9:00 AM - 11:30 AM" counts 2, and
   * "11:00 PM - 1:00 AM" counts -22 because both ends are read on the
   * workshop's date.
   */
  lemma WorkshopHoursOfRange(h1: nat, m1: nat, pm1: bool, h2: nat, m2: nat, pm2: bool)
    requires 1 <= h1 <= 12 && m1 <= 59 && 1 <= h2 <= 12 && m2 <= 59
    ensures var d := MinuteOfDay(h2, m2, pm2) - MinuteOfDay(h1, m1, pm1);
      WorkshopHours(RangeText(FormatClock(h1, m1, pm1), FormatClock(h2, m2, pm2))) == Some(TruncDiv(d, 60))
  {
    ClockEnd(h1, m1, pm1);
    ClockEnd(h2, m2, pm2);
    RangesOfTimes();
  }

  /** A time range as the workshop rows write it, such as "9:00 AM - 11:30 AM". */
  function RangeText(a: string, b: string): string {
    a + RangeDelimiter + b
  }

  /** `RangeHours` for every pair of ends. */
  lemma RangesOfTimes()
    ensures forall a: string, b: string, x: int, y: int ::
      '-' !in a && '-' !in b && ParseClock(a) == Some(x) && ParseClock(b) == Some(y) ==>
      WorkshopHours(RangeText(a, b)) == Some(TruncDiv(y - x, 60))
  {
    forall a: string, b: string, x: int, y: int | '-' !in a && '-' !in b && ParseClock(a) == Some(x) && ParseClock(b) == Some(y)
      ensures WorkshopHours(RangeText(a, b)) == Some(TruncDiv(y - x, 60))
    {
      RangeHours(a, b, x, y);
    }
  }

  /** A written time has no dash and reads back as its minute of the day. */
  lemma ClockEnd(h: nat, m: nat, pm: bool)
    requires 1 <= h <= 12 && m <= 59
    ensures '-' !in FormatClock(h, m, pm) && ParseClock(FormatClock(h, m, pm)) == Some(MinuteOfDay(h, m, pm))
  {
    NoDashInClock(h, m, pm);
    ParseFormatClock(h, m, pm);
  }

  /** Two ends without a dash that read as times x and y give the hours from x to y. */
  lemma RangeHours(a: string, b: string, x: int, y: int)
    requires '-' !in a && '-' !in b
    requires ParseClock(a) == Some(x) && ParseClock(b) == Some(y)
    ensures WorkshopHours(a + RangeDelimiter + b) == Some(TruncDiv(y - x, 60))
  {
    RangeBetween(a, b, x, y);
    HoursBetweenTimes(x, y);
  }

  lemma RangeBetween(a: string, b: string, x: int, y: int)
    requires '-' !in a && '-' !in b
    requires ParseClock(a) == Some(x) && ParseClock(b) == Some(y)
    ensures WorkshopHours(a + RangeDelimiter + b) == HoursBetween(Some(x), Some(y))
  {
    SplitRange(a, b);
  }

  /** Between two read times, the whole hours truncated toward zero. */
  lemma HoursBetweenTimes(x: int, y: int)
    ensures HoursBetween(Some(x), Some(y)) == Some(TruncDiv(y - x, 60))
  {
  }

  /** The two ends of a range are the texts around its " - ". */
  lemma SplitRange(a: string, b: string)
    requires '-' !in a && '-' !in b
    ensures WorkshopHours(a + RangeDelimiter + b) == HoursBetween(ParseClock(a), ParseClock(b))
  {
    var s := a + RangeDelimiter + b;
    BeforeFirstRange(a, b);
    AfterLastRange(a, b);
    HoursOfEnds(s, a, b);
  }

  lemma HoursOfEnds(s: string, a: string, b: string)
    requires BeforeFirst(s, RangeDelimiter) == a && AfterLast(s, RangeDelimiter) == b
    ensures WorkshopHours(s) == HoursBetween(ParseClock(a), ParseClock(b))
  {
  }

  lemma NoDashInClock(h: nat, m: nat, pm: bool)
    requires 1 <= h <= 12 && m <= 59
    ensures '-' !in FormatClock(h, m, pm)
  {
    assert FormatClock(h, m, pm) == HourText(h) + ":" + MinuteText(m) + " " + (if pm then "PM" else "AM");
  }

  // ---------------------------------------------------------------------------
  // GET /workshops/stats

  datatype WorkshopStats = WorkshopStats(
    upcomingWorkshops: nat, totalHours: int, completedWorkshops: nat, totalInstructors: nat)

  /** `date >= DATE_SUB(CURRENT_DATE, INTERVAL 30 DAY)` */
  function InWindow(today: int): WorkshopRow -> bool {
    (w: WorkshopRow) => w.date >= today - 30
  }

  function Recent(workshops: seq<WorkshopRow>, today: int): seq<WorkshopRow> {
    Filter(workshops, InWindow(today))
  }

  /** `status = 'upcoming' AND date >= CURRENT_DATE` */
  function IsUpcoming(today: int): WorkshopRow -> bool {
    (w: WorkshopRow) => w.status == "upcoming" && w.date >= today
  }

  function IsCompletedWorkshop(w: WorkshopRow): bool { w.status == "completed" }

  /** The hours a row adds to the `SUM`: a NULL difference adds nothing. */
  function HoursOrNothing(w: WorkshopRow): int {
    var h := WorkshopHours(w.time);
    if h.Some? then h.value else 0
  }

  /** `COUNT(DISTINCT instructor)`: NULL instructors are not counted. */
  function Instructors(workshops: seq<WorkshopRow>): set<string> {
    set w | w in workshops && w.instructor.Some? :: w.instructor.value
  }

  /** The statistics of the workshops in the window; NULL and 0 aggregates both read as 0. */
  function StatsOf(workshops: seq<WorkshopRow>, today: int): WorkshopStats {
    var recent := Recent(workshops, today);
    WorkshopStats(CountBy(recent, IsUpcoming(today)), SumBy(recent, HoursOrNothing),
                  CountBy(recent, IsCompletedWorkshop), |Instructors(recent)|)
  }

  /**
   * Every count only looks at the window: workshops older than thirty days
   * change nothing. The upcoming and completed counts are disjoint and
   * together at most the workshops in the window, and there are no more
   * instructors than workshops.
   */
  lemma StatsFacts(workshops: seq<WorkshopRow>, today: int)
    ensures var s := StatsOf(workshops, today); var recent := Recent(workshops, today);
      && s.upcomingWorkshops + s.completedWorkshops <= |recent|
      && s.totalInstructors <= |recent|
      && (forall w :: w in recent <==> w in workshops && w.date >= today - 30)
  {
    var recent := Recent(workshops, today);
    CountByDisjoint(recent, IsUpcoming(today), IsCompletedWorkshop);
    InstructorsAtMost(recent);
    FilterMembers(workshops, InWindow(today));
  }

  lemma {:induction false} InstructorsAtMost(ws: seq<WorkshopRow>)
    ensures |Instructors(ws)| <= |ws|
  {
    if ws != [] {
      InstructorsAtMost(ws[1..]);
      var w := ws[0];
      var extra := if w.instructor.Some? then {w.instructor.value} else {};
      assert Instructors(ws) == Instructors(ws[1..]) + extra;
    }
  }

  /** A workshop older than the window leaves every statistic as it was. */
  lemma OldWorkshopIgnored(workshops: seq<WorkshopRow>, old_: WorkshopRow, today: int)
    requires old_.date < today - 30
    ensures StatsOf(workshops + [old_], today) == StatsOf(workshops, today)
  {
    FilterConcat(workshops, [old_], InWindow(today));
    assert Recent(workshops + [old_], today) == Recent(workshops, today);
  }

  /** An upcoming workshop dated before today is not counted as upcoming. */
  lemma PastUpcomingNotCounted(workshops: seq<WorkshopRow>, w: WorkshopRow, today: int)
    requires w.status == "upcoming" && today - 30 <= w.date < today
    ensures StatsOf(workshops + [w], today).upcomingWorkshops == StatsOf(workshops, today).upcomingWorkshops
    ensures StatsOf(workshops + [w], today).completedWorkshops == StatsOf(workshops, today).completedWorkshops
  {
    FilterConcat(workshops, [w], InWindow(today));
    assert Recent(workshops + [w], today) == Recent(workshops, today) + [w];
    CountByConcat(Recent(workshops, today), [w], IsUpcoming(today));
    CountByConcat(Recent(workshops, today), [w], IsCompletedWorkshop);
  }

  /** Without workshops in the window every statistic is 0. */
  lemma StatsEmpty(workshops: seq<WorkshopRow>, today: int)
    requires forall i :: 0 <= i < |workshops| ==> workshops[i].date < today - 30
    ensures StatsOf(workshops, today) == WorkshopStats(0, 0, 0, 0)
  {
    FilterDropsAll(workshops, InWindow(today));
    assert Instructors([]) == {};
  }
}
