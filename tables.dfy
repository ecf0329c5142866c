/**
 * The rows of the database tables the routes read, already narrowed to the
 * requesting user (the `WHERE user_id = ?` of every query) except where a
 * table is shared. Hours (`hours_spent`, `monthly_target`) are held in
 * hundredths of an hour, the precision of their decimal columns, so that no
 * floating-point value is needed.
 */
module Tables {
  import opened Calendar
  import opened Collections

  /** A `learning_streak` row: the day studied and the hours spent, in hundredths. */
  datatype StreakRow = StreakRow(date: Day, hours: int)

  /** The grouping keys and values of a `learning_streak` row, as the queries use them. */
  function StreakDate(r: StreakRow): int { r.date }
  function StreakHours(r: StreakRow): int { r.hours }
  function StreakLabel(r: StreakRow): string { LabelOf(r.date) }

  /** A `skills` row with the `type` of its `skill_categories` row joined in as `category`. */
  datatype SkillRow = SkillRow(id: int, name: string, category: string, proficiency: int)

  function SkillCategory(r: SkillRow): string { r.category }
  function SkillProficiency(r: SkillRow): int { r.proficiency }

  /**
   * A `skill_progress` row joined to its skill and that skill's category:
   * the recorded date, the category type and the recorded proficiency level.
   */
  datatype ProgressRow = ProgressRow(skillId: int, date: Day, category: string, level: int)

  function ProgressDate(r: ProgressRow): int { r.date }
  function ProgressLevel(r: ProgressRow): int { r.level }
  function ProgressCategory(r: ProgressRow): string { r.category }

  /**
   * `status || 'active'`: the status a new course or certification is stored
   * with when the request gives none (`None`) or an empty one.
   */
  function StatusOrActive(status: Option<string>): string {
    if status.Some? && status.value != "" then status.value else "active"
  }

  /** A `courses` row; this table is read across users, so the owner is part of the row. */
  datatype CourseRow = CourseRow(
    id: int, userId: int, title: string, description: string, duration: string,
    category: string, status: string, progress: int)

  function IsCompletedCourse(c: CourseRow): bool { c.status == "completed" }

  /** A date the `DATE` column can hold (years 1000 to 9999 in MySQL; 0 to 9999 here). */
  type SqlDate = d: Day | 0 <= YearOf(d) <= 9999 witness 0

  /** A `certifications` row of the user. */
  datatype CertificationRow = CertificationRow(
    id: int, name: string, issuer: string, issueDate: SqlDate, expiryDate: SqlDate,
    credentialId: string, status: string)

  function CertificationMonth(r: CertificationRow): int { MonthOf(r.issueDate) }

  function IsCompletedCertification(c: CertificationRow): bool { c.status == "completed" }

  /** A `workshops` row of the user; `time` holds a range such as "9:00 AM - 11:30 AM". */
  datatype WorkshopRow = WorkshopRow(
    id: int, title: string, date: Day, time: string, instructor: Option<string>, status: string)

  /** A `users` row. */
  datatype UserRow = UserRow(id: int, name: string, email: string, passwordHash: string)
}
