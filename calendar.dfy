/**
 * Calendar dates as the SQL functions see them. A date is a day number
 * (days since 1970-01-01); `DATE_SUB(CURRENT_DATE, INTERVAL n DAY)` is then
 * subtraction, and "the next day" is +1. `MONTH(d)`, `YEAR(d)` and
 * `DATE_FORMAT(d, ...)` go through the proleptic Gregorian conversion below.
 */
module Calendar {
  import opened Text

  type Day = int

  datatype Civil = Civil(year: int, month: int, day: int)

  /**
   * Days since 1970-01-01 to (year, month, day), the usual era-based
   * conversion (H. Hinnant's `civil_from_days`). Dafny's `/` and `%` are
   * floor division here because every divisor is positive. The month index
   * counted from March (mp, 0..11) is mapped to 1..12 as (mp + 2) % 12 + 1,
   * which equals the textbook `mp < 10 ? mp + 3 : mp - 9` on that range.
   */
  function FromDays(z: Day): (c: Civil)
    ensures 1 <= c.month <= 12 && 1 <= c.day <= 31
  {
    var z1 := z + 719468;
    var era := z1 / 146097;
    var doe := z1 % 146097;
    var yoe := (doe - doe / 1460 + doe / 36524 - doe / 146096) / 365;
    var y := yoe + era * 400;
    var doy := doe - (365 * yoe + yoe / 4 - yoe / 100);
    var mp := (5 * doy + 2) / 153;
    var d := doy - (153 * mp + 2) / 5 + 1;
    var m := (mp + 2) % 12 + 1;
    DayOfMonthBounds(doy, mp);
    Civil(if m <= 2 then y + 1 else y, m, d)
  }

  /** The day of the month computed from a March-based day of the year lies in 1..31. */
  lemma DayOfMonthBounds(doy: int, mp: int)
    requires mp == (5 * doy + 2) / 153
    ensures 1 <= doy - (153 * mp + 2) / 5 + 1 <= 31
  {
    var q := (153 * mp + 2) / 5;
    assert 153 * mp <= 5 * doy + 2 < 153 * mp + 153;
    assert 5 * q <= 153 * mp + 2 < 5 * q + 5;
  }

  /** `MONTH(d)` */
  function MonthOf(d: Day): (m: int)
    ensures 1 <= m <= 12
  {
    FromDays(d).month
  }

  /** `YEAR(d)` */
  function YearOf(d: Day): int {
    FromDays(d).year
  }

  /** `MONTH(CURRENT_DATE - INTERVAL 1 MONTH)`: the month before, January wrapping to December. */
  function PrevMonth(m: int): (p: int)
    requires 1 <= m <= 12
    ensures 1 <= p <= 12
    ensures p == if m == 1 then 12 else m - 1
  {
    (m + 10) % 12 + 1
  }

  const MonthLabels: seq<string> :=
    ["Jan", "Feb", "Mar", "Apr", "May", "Jun", "Jul", "Aug", "Sep", "Oct", "Nov", "Dec"]

  function MonthLabel(m: int): string
    requires 1 <= m <= 12
  {
    MonthLabels[m - 1]
  }

  /** `DATE_FORMAT(d, '%b')`: the month abbreviation, without the year. */
  function LabelOf(d: Day): string {
    MonthLabel(MonthOf(d))
  }

  /** Two dates get the same `%b` label exactly when they fall in the same month number. */
  lemma LabelOfSameMonth(a: Day, b: Day)
    ensures LabelOf(a) == LabelOf(b) <==> MonthOf(a) == MonthOf(b)
  {
  }

  /** A date carries the label of month m exactly when it falls in month m. */
  lemma LabelOfMonth(d: Day, m: int)
    requires 1 <= m <= 12
    ensures LabelOf(d) == MonthLabel(m) <==> MonthOf(d) == m
  {
  }

  const WeekdayLabels: seq<string> := ["Sun", "Mon", "Tue", "Wed", "Thu", "Fri", "Sat"]

  /** `DATE_FORMAT(d, '%a')`; 1970-01-01 was a Thursday. */
  function WeekdayLabel(d: Day): (w: string)
    ensures w in WeekdayLabels
  {
    WeekdayLabels[(d + 4) % 7]
  }

  /** Dates a whole number of weeks apart carry the same weekday label. */
  lemma WeekdayPeriodic(d: Day, weeks: int)
    ensures WeekdayLabel(d + 7 * weeks) == WeekdayLabel(d)
  {
    assert (d + 7 * weeks + 4) % 7 == (d + 4) % 7;
  }

  // ---------------------------------------------------------------------------
  // DATE_FORMAT(d, '%Y-%m-%d')

  /** The last `width` decimal digits of n (n >= 0), zero-padded. */
  function Digits(n: nat, width: nat): (s: string)
    ensures |s| == width && AllDigits(s)
  {
    if width == 0 then [] else Digits(n / 10, width - 1) + [DigitChar(n % 10)]
  }

  function Pow10(w: nat): nat {
    if w == 0 then 1 else 10 * Pow10(w - 1)
  }

  /** A number with at most `width` digits reads back from its zero-padded digits. */
  lemma {:induction false} DigitsValue(n: nat, width: nat)
    requires n < Pow10(width)
    ensures ParseDigits(Digits(n, width)) == n
  {
    if width > 0 {
      DigitsValue(n / 10, width - 1);
      var s := Digits(n, width);
      assert s[..|s| - 1] == Digits(n / 10, width - 1);
    }
  }

  /**
   * s is d written as `YYYY-MM-DD`: ten characters, dashes at 4 and 7, and
   * the three digit fields reading as d's year, month and day.
   */
  predicate ShowsDate(s: string, d: Day) {
    && |s| == 10 && s[4] == '-' && s[7] == '-'
    && AllDigits(s[..4]) && AllDigits(s[5..7]) && AllDigits(s[8..])
    && ParseDigits(s[..4]) == YearOf(d) && ParseDigits(s[5..7]) == MonthOf(d)
    && ParseDigits(s[8..]) == FromDays(d).day
  }

  /** `DATE_FORMAT(d, '%Y-%m-%d')` for years 0 to 9999. */
  function FormatDate(d: Day): (s: string)
    requires 0 <= YearOf(d) <= 9999
    ensures ShowsDate(s, d)
  {
    var c := FromDays(d);
    var s := Digits(c.year, 4) + "-" + Digits(c.month, 2) + "-" + Digits(c.day, 2);
    assert Pow10(2) == 100 && Pow10(4) == 10000;
    DigitsValue(c.year, 4);
    DigitsValue(c.month, 2);
    DigitsValue(c.day, 2);
    assert s[..4] == Digits(c.year, 4) && s[5..7] == Digits(c.month, 2) && s[8..] == Digits(c.day, 2);
    s
  }

  /** Two dates with the same text have the same year, month and day. */
  lemma FormatDateDistinguishes(a: Day, b: Day)
    requires 0 <= YearOf(a) <= 9999 && 0 <= YearOf(b) <= 9999
    requires FormatDate(a) == FormatDate(b)
    ensures FromDays(a) == FromDays(b)
  {
  }

  /** A `%b` label is three letters, so it never holds the `,` that `GROUP_CONCAT` puts between labels. */
  lemma LabelOfShape(d: Day)
    ensures |LabelOf(d)| == 3 && ',' !in LabelOf(d)
  {
    var m := MonthOf(d);
    assert LabelOf(d) == MonthLabels[m - 1];
    assert m == 1 || m == 2 || m == 3 || m == 4 || m == 5 || m == 6 || m == 7 || m == 8 || m == 9 || m == 10 || m == 11 || m == 12;
  }
}
