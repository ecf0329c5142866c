/**
 * The course routes of `courses.js`: the user's course list, adding a course
 * with its status and progress defaults, the progress update with its range
 * check and owner check, and the `/stats` counts and formatting.
 */
module Courses {
  import opened Collections
  import opened Numbers
  import opened Text
  import opened Tables

  // ---------------------------------------------------------------------------
  // The request body of POST /courses, with JavaScript's falsy values

  /**
   * The fields of the request body. `status` and `progress` may be missing
   * (`None`); an empty status and a progress of 0 are given but falsy.
   */
  datatype CourseInput = CourseInput(
    title: string, description: string, duration: string, category: string,
    status: Option<string>, progress: Option<int>)

  /** `progress || 0` */
  function ProgressOrZero(progress: Option<int>): int {
    if progress.Some? then progress.value else 0
  }

  /** The row the INSERT stores for the user, under the id the table assigns. */
  function NewCourse(id: int, userId: int, input: CourseInput): CourseRow {
    CourseRow(id, userId, input.title, input.description, input.duration, input.category,
              StatusOrActive(input.status), ProgressOrZero(input.progress))
  }

  /**
   * A falsy status becomes 'active' and a truthy one is kept; a missing
   * progress becomes 0 and a given one is kept. The stored status is never empty.
   */
  lemma NewCourseDefaults(id: int, userId: int, input: CourseInput)
    ensures NewCourse(id, userId, input).status != ""
    ensures (input.status.None? || input.status.value == "") ==> NewCourse(id, userId, input).status == "active"
    ensures input.status.Some? && input.status.value != "" ==> NewCourse(id, userId, input).status == input.status.value
    ensures input.progress.None? ==> NewCourse(id, userId, input).progress == 0
    ensures input.progress.Some? ==> NewCourse(id, userId, input).progress == input.progress.value
    ensures NewCourse(id, userId, input).id == id && NewCourse(id, userId, input).userId == userId
  {
  }

  // ---------------------------------------------------------------------------
  // GET /courses and the rows every course query reads

  predicate OwnedBy(r: CourseRow, userId: int) {
    r.userId == userId
  }

  /** `SELECT * FROM courses WHERE user_id = ?` */
  function UserCourses(rows: seq<CourseRow>, userId: int): (r: seq<CourseRow>)
    ensures forall c :: c in r <==> c in rows && c.userId == userId
  {
    var own := (c: CourseRow) => OwnedBy(c, userId);
    FilterMembers(rows, own);
    Filter(rows, own)
  }

  /** Whether every row's id is below the next id and no two rows share an id. */
  predicate IdsBelow(rows: seq<CourseRow>, nextId: int) {
    (forall i :: 0 <= i < |rows| ==> rows[i].id < nextId)
    && (forall i, j :: 0 <= i < j < |rows| ==> rows[i].id != rows[j].id)
  }

  // ---------------------------------------------------------------------------
  // PUT /courses/:id/progress

  datatype ProgressOutcome =
    | BadRequest   // 400: progress below 0 or above 100
    | NotFound     // 404: no course with that id belongs to the user
    | Updated      // the progress is stored

  /** `WHERE id = ? AND user_id = ?` */
  predicate Matches(r: CourseRow, courseId: int, userId: int) {
    r.id == courseId && r.userId == userId
  }

  /** `UPDATE courses SET progress = ? WHERE id = ? AND user_id = ?` */
  function SetProgress(rows: seq<CourseRow>, courseId: int, userId: int, progress: int): (r: seq<CourseRow>)
    ensures |r| == |rows|
    ensures forall i :: 0 <= i < |rows| ==>
      r[i] == if Matches(rows[i], courseId, userId) then rows[i].(progress := progress) else rows[i]
  {
    if rows == [] then []
    else
      var head := if Matches(rows[0], courseId, userId) then rows[0].(progress := progress) else rows[0];
      [head] + SetProgress(rows[1..], courseId, userId, progress)
  }

  /** `affectedRows`: the rows the WHERE clause matches. */
  function AffectedRows(rows: seq<CourseRow>, courseId: int, userId: int): nat {
    CountBy(rows, (r: CourseRow) => Matches(r, courseId, userId))
  }

  /** The status of the response: the range check first, then whether a row matched. */
  function UpdateOutcome(rows: seq<CourseRow>, courseId: int, userId: int, progress: int): ProgressOutcome {
    if progress < 0 || progress > 100 then BadRequest
    else if AffectedRows(rows, courseId, userId) == 0 then NotFound
    else Updated
  }

  /** The table after the request: the rejected request writes nothing. */
  function AfterUpdate(rows: seq<CourseRow>, courseId: int, userId: int, progress: int): seq<CourseRow> {
    if progress < 0 || progress > 100 then rows else SetProgress(rows, courseId, userId, progress)
  }

  /**
   * The outcome is 400 exactly when the progress is outside [0, 100], 404
   * exactly when it is inside and no row of the user has that id, and a
   * success otherwise; only the progress of the matching rows changes, and
   * every other row, including every other user's, stays as it was.
   */
  lemma UpdateOutcomeFacts(rows: seq<CourseRow>, courseId: int, userId: int, progress: int)
    ensures UpdateOutcome(rows, courseId, userId, progress) == BadRequest <==> progress < 0 || progress > 100
    ensures UpdateOutcome(rows, courseId, userId, progress) == NotFound <==>
      0 <= progress <= 100 && forall i :: 0 <= i < |rows| ==> !Matches(rows[i], courseId, userId)
    ensures UpdateOutcome(rows, courseId, userId, progress) != Updated ==>
      AfterUpdate(rows, courseId, userId, progress) == rows
    ensures UpdateOutcome(rows, courseId, userId, progress) == Updated ==>
      exists i :: 0 <= i < |rows| && Matches(rows[i], courseId, userId) &&
        AfterUpdate(rows, courseId, userId, progress)[i].progress == progress
    ensures forall i :: 0 <= i < |rows| && !Matches(rows[i], courseId, userId) ==>
      AfterUpdate(rows, courseId, userId, progress)[i] == rows[i]
  {
    var m := (r: CourseRow) => Matches(r, courseId, userId);
    if forall i :: 0 <= i < |rows| ==> !m(rows[i]) {
      CountByNone(rows, m);
      assert SetProgress(rows, courseId, userId, progress) == rows;
    } else {
      var i :| 0 <= i < |rows| && m(rows[i]);
      CountByMonotoneStrict(rows, (r: CourseRow) => false, m, i);
      CountByNone(rows, (r: CourseRow) => false);
    }
  }

  /** With distinct ids, an update changes at most one row. */
  lemma UpdateChangesOneRow(rows: seq<CourseRow>, nextId: int, courseId: int, userId: int, progress: int)
    requires IdsBelow(rows, nextId)
    ensures forall i, j :: 0 <= i < j < |rows| ==>
      AfterUpdate(rows, courseId, userId, progress)[i] == rows[i] ||
      AfterUpdate(rows, courseId, userId, progress)[j] == rows[j]
    ensures IdsBelow(AfterUpdate(rows, courseId, userId, progress), nextId)
  {
  }

  // ---------------------------------------------------------------------------
  // GET /courses/stats

  /** The `/stats` response; `completion` is the rounded average progress followed by `%`. */
  datatype CourseStats = CourseStats(activeCourses: nat, hoursSpent: int, certificates: nat, completion: string)

  function IsActiveCourse(c: CourseRow): bool { c.status == "active" }

  /** `CAST(SUBSTRING_INDEX(duration, ' ', 1) AS UNSIGNED)`: the number the duration starts with. */
  function DurationHours(c: CourseRow): int {
    LeadingNumber(BeforeFirst(c.duration, " "))
  }

  function CourseProgress(c: CourseRow): int { c.progress }

  /**
   * `ROUND(AVG(progress))`: the four-place average rounded to a whole
   * number, or NULL for no rows; `avg_completion || 0` reads NULL as 0.
   */
  function AverageCompletion(rows: seq<CourseRow>): int {
    if rows == [] then 0 else SqlRoundAverage(SumBy(rows, CourseProgress), |rows|, 1)
  }

  /** The statistics of the user's courses; `SUM` over no rows is NULL and `|| 0` makes it 0. */
  function StatsOf(rows: seq<CourseRow>): CourseStats {
    CourseStats(CountBy(rows, IsActiveCourse), SumBy(rows, DurationHours),
                CountBy(rows, IsCompletedCourse), IntToString(AverageCompletion(rows)) + "%")
  }

  function CourseStatsOf(table: seq<CourseRow>, userId: int): CourseStats {
    StatsOf(UserCourses(table, userId))
  }

  /** Cutting the duration at its first space does not change the number it starts with. */
  lemma {:induction false} LeadingNumberFirstToken(s: string)
    ensures LeadingDigits(BeforeFirst(s, " ")) == LeadingDigits(s)
    ensures LeadingNumber(BeforeFirst(s, " ")) == LeadingNumber(s)
  {
    if |s| >= 1 && s[..1] != " " && IsDigit(s[0]) {
      LeadingNumberFirstToken(s[1..]);
      var t := [s[0]] + BeforeFirst(s[1..], " ");
      assert t[0] == s[0] && t[1..] == BeforeFirst(s[1..], " ");
    } else if |s| >= 1 && s[..1] != " " {
      var t := [s[0]] + BeforeFirst(s[1..], " ");
      assert t[0] == s[0];
    } else if |s| >= 1 {
      assert s[0] == ' ';
    }
  }

  /** "12 hours" counts 12 hours. */
  lemma DurationExample()
    ensures DurationHours(CourseRow(1, 1, "", "", "12 hours", "", "active", 0)) == 12
  {
    LeadingNumberFirstToken("12 hours");
    assert NatToString(12) + " hours" == "12 hours";
    LeadingNumberOfRendered(12, " hours");
  }

  /**
   * The active and completed counts are disjoint, so together at most the
   * number of courses; the hours are never negative; with no courses every
   * number is 0 and the completion reads "0%".
   */
  lemma StatsCounts(rows: seq<CourseRow>)
    ensures StatsOf(rows).activeCourses + StatsOf(rows).certificates <= |rows|
    ensures StatsOf(rows).hoursSpent >= 0
    ensures rows == [] ==> StatsOf(rows) == CourseStats(0, 0, 0, "0%")
  {
    CountByDisjoint(rows, IsActiveCourse, IsCompletedCourse);
    HoursNonNegative(rows);
  }

  lemma {:induction false} HoursNonNegative(rows: seq<CourseRow>)
    ensures SumBy(rows, DurationHours) >= 0
  {
    if rows != [] {
      HoursNonNegative(rows[1..]);
    }
  }

  /**
   * When every progress lies in [0, 100], the average completion is a whole
   * percent n in [0, 100], within 10001/20000 of the exact average progress
   * (half a percent, and half of the ten-thousandth MySQL's `AVG` keeps).
   */
  lemma AverageCompletionInRange(rows: seq<CourseRow>)
    requires rows != []
    requires forall i :: 0 <= i < |rows| ==> 0 <= rows[i].progress <= 100
    ensures 0 <= AverageCompletion(rows) <= 100
    ensures |rows| * (20000 * AverageCompletion(rows) - 10001) <= 20000 * SumBy(rows, CourseProgress)
                                                              <= |rows| * (20000 * AverageCompletion(rows) + 10001)
  {
    var total := SumBy(rows, CourseProgress);
    SumByBounds(rows, CourseProgress, 0, 100);
    SqlRoundAverageBetween(total, |rows|, 1, 0, 100);
    SqlRoundAverageNear(total, |rows|);
  }

  /** The completion is that percent written in decimal, followed by "%". */
  lemma CompletionText(rows: seq<CourseRow>)
    requires forall i :: 0 <= i < |rows| ==> 0 <= rows[i].progress <= 100
    ensures AverageCompletion(rows) >= 0
    ensures StatsOf(rows).completion == NatToString(AverageCompletion(rows)) + "%"
  {
    if rows != [] {
      AverageCompletionInRange(rows);
    }
  }

  // ---------------------------------------------------------------------------
  // The courses table

  /** The `courses` table of every user, with the auto-increment counter. */
  class CourseTable {
    var rows: seq<CourseRow>
    var nextId: int

    ghost predicate Valid()
      reads this
    {
      IdsBelow(rows, nextId)
    }

    constructor()
      ensures rows == [] && Valid()
    {
      rows := [];
      nextId := 1;
    }

    /** `GET /courses` */
    function List(userId: int): (r: seq<CourseRow>)
      reads this
      ensures forall c :: c in r <==> c in rows && c.userId == userId
    {
      UserCourses(rows, userId)
    }

    /** `GET /courses/stats` */
    function Stats(userId: int): CourseStats
      reads this
    {
      CourseStatsOf(rows, userId)
    }

    /** `POST /courses`: one row appended under a fresh id, which the response returns. */
    method Add(userId: int, input: CourseInput) returns (id: int)
      requires Valid()
      modifies this
      ensures Valid()
      ensures id == old(nextId) && nextId == old(nextId) + 1
      ensures rows == old(rows) + [NewCourse(id, userId, input)]
      ensures forall i :: 0 <= i < |old(rows)| ==> old(rows)[i].id != id
    {
      id := nextId;
      rows := rows + [NewCourse(id, userId, input)];
      nextId := nextId + 1;
    }

    /** `PUT /courses/:id/progress` */
    method UpdateProgress(courseId: int, userId: int, progress: int) returns (r: ProgressOutcome)
      requires Valid()
      modifies this
      ensures Valid()
      ensures r == UpdateOutcome(old(rows), courseId, userId, progress)
      ensures rows == AfterUpdate(old(rows), courseId, userId, progress)
      ensures nextId == old(nextId)
    {
      r := UpdateOutcome(rows, courseId, userId, progress);
      if r != BadRequest {
        UpdateChangesOneRow(rows, nextId, courseId, userId, progress);
        rows := SetProgress(rows, courseId, userId, progress);
      }
    }
  }

  /**
   * Adding a course without a status makes it active: the user's active count
   * grows by one and every other user's statistics stay the same.
   */
  lemma AddCountsActive(rows: seq<CourseRow>, id: int, userId: int, other: int, input: CourseInput)
    requires input.status.None? && other != userId
    ensures CourseStatsOf(rows + [NewCourse(id, userId, input)], userId).activeCourses ==
            CourseStatsOf(rows, userId).activeCourses + 1
    ensures CourseStatsOf(rows + [NewCourse(id, userId, input)], other) == CourseStatsOf(rows, other)
  {
    var c := NewCourse(id, userId, input);
    FilterConcat(rows, [c], (r: CourseRow) => OwnedBy(r, userId));
    FilterConcat(rows, [c], (r: CourseRow) => OwnedBy(r, other));
    var mine := UserCourses(rows, userId);
    assert UserCourses(rows + [c], userId) == mine + [c];
    CountByConcat(mine, [c], IsActiveCourse);
    assert UserCourses(rows + [c], other) == UserCourses(rows, other);
  }
}
