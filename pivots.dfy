/**
 * Turning long rows (month, category, level) into one record per month with
 * one field per category, as the `/skill-growth` reduce and the `/growth`
 * forEach both do. The two differ only in the fields a new record starts
 * with: none for the reduce, `technical` and `soft` at 0 for `/growth`.
 * `Pivot(rows, init)` is the specification both are proved against.
 */
module Pivots {
  import opened Collections

  /** A row fed to a pivot: a month label, a category and its level (in hundredths). */
  datatype GrowthRow = GrowthRow(month: string, category: string, level: int)

  /** A pivoted record: the month label and one value per category field. */
  datatype MonthRecord = MonthRecord(month: string, values: map<string, int>)

  function RowMonth(r: GrowthRow): string { r.month }

  /** The distinct months of the rows, in order of first appearance. */
  function MonthsOf(rows: seq<GrowthRow>): seq<string> {
    Distinct(Map(rows, RowMonth))
  }

  /**
   * The fields of the record for `month`: `init`, then every row of that
   * month applied in order, each setting its category to its level.
   */
  function Fill(rows: seq<GrowthRow>, month: string, init: map<string, int>): map<string, int>
    decreases |rows|
  {
    if rows == [] then init
    else
      var prev := Fill(rows[..|rows| - 1], month, init);
      var last := rows[|rows| - 1];
      if last.month == month then prev[last.category := last.level] else prev
  }

  /** One record per distinct month, in order of first appearance, holding that month's fields. */
  function Pivot(rows: seq<GrowthRow>, init: map<string, int>): seq<MonthRecord> {
    var ms := MonthsOf(rows);
    seq(|ms|, i requires 0 <= i < |ms| => MonthRecord(ms[i], Fill(rows, ms[i], init)))
  }

  /**
   * One step of the reduce: the record of the row's month gets the row's
   * category set to its level, or a new record is appended when the month
   * has none yet.
   */
  function Step(acc: seq<MonthRecord>, row: GrowthRow, init: map<string, int>): seq<MonthRecord> {
    match FindIndex(acc, (rec: MonthRecord) => rec.month == row.month)
    case Some(j) => acc[j := MonthRecord(acc[j].month, acc[j].values[row.category := row.level])]
    case None => acc + [MonthRecord(row.month, init[row.category := row.level])]
  }

  // ---------------------------------------------------------------------------
  // Properties of Fill

  lemma {:induction false} FillNoRows(rows: seq<GrowthRow>, month: string, init: map<string, int>)
    requires forall i :: 0 <= i < |rows| ==> rows[i].month != month
    ensures Fill(rows, month, init) == init
    decreases |rows|
  {
    if rows != [] {
      FillNoRows(rows[..|rows| - 1], month, init);
    }
  }

  /** Last write wins: a category's value is the level of the last row of that month and category. */
  lemma {:induction false} FillLastWins(rows: seq<GrowthRow>, month: string, init: map<string, int>, i: nat)
    requires i < |rows| && rows[i].month == month
    requires forall j :: i < j < |rows| ==> !(rows[j].month == month && rows[j].category == rows[i].category)
    ensures rows[i].category in Fill(rows, month, init)
    ensures Fill(rows, month, init)[rows[i].category] == rows[i].level
    decreases |rows|
  {
    if i < |rows| - 1 {
      var init' := rows[..|rows| - 1];
      FillLastWins(init', month, init, i);
    }
  }

  /** A category that no row of the month names keeps its initial state: absent, or its initial value. */
  lemma {:induction false} FillUntouched(rows: seq<GrowthRow>, month: string, init: map<string, int>, c: string)
    requires forall j :: 0 <= j < |rows| ==> !(rows[j].month == month && rows[j].category == c)
    ensures c in Fill(rows, month, init) <==> c in init
    ensures c in init ==> Fill(rows, month, init)[c] == init[c]
    decreases |rows|
  {
    if rows != [] {
      FillUntouched(rows[..|rows| - 1], month, init, c);
    }
  }

  /** The fields of a record: the initial ones plus every category that a row of the month names. */
  lemma {:induction false} FillKeys(rows: seq<GrowthRow>, month: string, init: map<string, int>, c: string)
    ensures c in Fill(rows, month, init) <==>
      c in init || exists j :: 0 <= j < |rows| && rows[j].month == month && rows[j].category == c
    decreases |rows|
  {
    if rows != [] {
      var prefix := rows[..|rows| - 1];
      FillKeys(prefix, month, init, c);
      if exists j :: 0 <= j < |prefix| && prefix[j].month == month && prefix[j].category == c {
        var j :| 0 <= j < |prefix| && prefix[j].month == month && prefix[j].category == c;
        assert rows[j] == prefix[j];
      }
      if exists j :: 0 <= j < |rows| && rows[j].month == month && rows[j].category == c {
        var j :| 0 <= j < |rows| && rows[j].month == month && rows[j].category == c;
        if j < |prefix| {
          assert prefix[j] == rows[j];
        }
      }
    }
  }

  // ---------------------------------------------------------------------------
  // Properties of Pivot

  /** The shape of the pivot: record i is the i-th distinct month with its fields. */
  lemma PivotAt(rows: seq<GrowthRow>, init: map<string, int>)
    ensures |Pivot(rows, init)| == |MonthsOf(rows)|
    ensures forall i :: 0 <= i < |MonthsOf(rows)| ==>
      Pivot(rows, init)[i] == MonthRecord(MonthsOf(rows)[i], Fill(rows, MonthsOf(rows)[i], init))
  {
  }

  /**
   * One record per month that occurs in the rows, no month twice, records in
   * order of the months' first appearance, each with its month's fields.
   */
  lemma PivotMonths(rows: seq<GrowthRow>, init: map<string, int>)
    ensures var p := Pivot(rows, init);
      && |p| <= |rows|
      && (forall m :: (exists i :: 0 <= i < |p| && p[i].month == m) <==> m in Map(rows, RowMonth))
      && (forall i, j :: 0 <= i < j < |p| ==> p[i].month != p[j].month)
      && (forall i, j :: 0 <= i < j < |p| ==>
            IndexOf(Map(rows, RowMonth), p[i].month) < IndexOf(Map(rows, RowMonth), p[j].month))
      && (forall i :: 0 <= i < |p| ==> p[i].values == Fill(rows, p[i].month, init))
  {
    var p := Pivot(rows, init);
    var ms := MonthsOf(rows);
    PivotAt(rows, init);
    DistinctMembers(Map(rows, RowMonth));
    DistinctOrder(Map(rows, RowMonth));
    forall m ensures (exists i :: 0 <= i < |p| && p[i].month == m) <==> m in Map(rows, RowMonth) {
      if m in Map(rows, RowMonth) {
        var i :| 0 <= i < |ms| && ms[i] == m;
        assert p[i].month == m;
      }
    }
  }

  lemma MonthsSnoc(rows: seq<GrowthRow>, row: GrowthRow)
    ensures MonthsOf(rows + [row]) ==
      if row.month in Map(rows, RowMonth) then MonthsOf(rows) else MonthsOf(rows) + [row.month]
  {
    var ms' := Map(rows + [row], RowMonth);
    assert ms' == Map(rows, RowMonth) + [row.month];
    assert ms'[..|ms'| - 1] == Map(rows, RowMonth);
  }

  lemma FillSnoc(rows: seq<GrowthRow>, row: GrowthRow, month: string, init: map<string, int>)
    ensures Fill(rows + [row], month, init) ==
      if row.month == month then Fill(rows, month, init)[row.category := row.level] else Fill(rows, month, init)
  {
    assert (rows + [row])[..|rows|] == rows;
  }

  /** Feeding one more row to the pivot is one more reduce step. */
  lemma PivotSnoc(rows: seq<GrowthRow>, row: GrowthRow, init: map<string, int>)
    ensures Pivot(rows + [row], init) == Step(Pivot(rows, init), row, init)
  {
    if row.month in Map(rows, RowMonth) {
      PivotSnocKnownMonth(rows, row, init);
    } else {
      PivotSnocNewMonth(rows, row, init);
    }
  }

  /** A row of a month already present updates that month's record. */
  lemma PivotSnocKnownMonth(rows: seq<GrowthRow>, row: GrowthRow, init: map<string, int>)
    requires row.month in Map(rows, RowMonth)
    ensures Pivot(rows + [row], init) == Step(Pivot(rows, init), row, init)
  {
    var rows' := rows + [row];
    var d := MonthsOf(rows);
    MonthsSnoc(rows, row);
    DistinctMembers(Map(rows, RowMonth));
    var j := IndexOf(d, row.month);
    var acc := Pivot(rows, init);
    PivotAt(rows, init);
    PivotAt(rows', init);
    StepFinds(acc, row, init, j);
    forall i | 0 <= i < |d| ensures Pivot(rows', init)[i] == Step(acc, row, init)[i] {
      FillSnoc(rows, row, d[i], init);
    }
  }

  /** The step on a record list whose first record of the row's month is at j. */
  lemma StepFinds(acc: seq<MonthRecord>, row: GrowthRow, init: map<string, int>, j: nat)
    requires j < |acc| && acc[j].month == row.month
    requires forall i :: 0 <= i < j ==> acc[i].month != row.month
    ensures Step(acc, row, init) == acc[j := MonthRecord(acc[j].month, acc[j].values[row.category := row.level])]
  {
    var p := (rec: MonthRecord) => rec.month == row.month;
    assert p(acc[j]);
    var f := FindIndex(acc, p);
    assert f.Some? && f.value <= j;
  }

  /** The step on a record list without a record of the row's month. */
  lemma StepAppends(acc: seq<MonthRecord>, row: GrowthRow, init: map<string, int>)
    requires forall i :: 0 <= i < |acc| ==> acc[i].month != row.month
    ensures Step(acc, row, init) == acc + [MonthRecord(row.month, init[row.category := row.level])]
  {
  }

  /** A row of a new month appends a record holding only that row's category. */
  lemma PivotSnocNewMonth(rows: seq<GrowthRow>, row: GrowthRow, init: map<string, int>)
    requires row.month !in Map(rows, RowMonth)
    ensures Pivot(rows + [row], init) == Step(Pivot(rows, init), row, init)
  {
    var acc := Pivot(rows, init);
    PivotAt(rows, init);
    DistinctMembers(Map(rows, RowMonth));
    forall i | 0 <= i < |acc| ensures acc[i].month != row.month {
      assert acc[i].month == MonthsOf(rows)[i];
    }
    StepAppends(acc, row, init);
    NewMonthRecords(rows, row, init);
  }

  /** The pivot with a row of a new month is the old pivot and one record more. */
  lemma NewMonthRecords(rows: seq<GrowthRow>, row: GrowthRow, init: map<string, int>)
    requires row.month !in Map(rows, RowMonth)
    ensures Pivot(rows + [row], init) == Pivot(rows, init) + [MonthRecord(row.month, init[row.category := row.level])]
  {
    var rows' := rows + [row];
    var d := MonthsOf(rows);
    MonthsSnoc(rows, row);
    DistinctMembers(Map(rows, RowMonth));
    PivotAt(rows, init);
    PivotAt(rows', init);
    forall i | 0 <= i < |rows| ensures rows[i].month != row.month {
      assert Map(rows, RowMonth)[i] == rows[i].month;
    }
    FillNoRows(rows, row.month, init);
    FillSnoc(rows, row, row.month, init);
    forall i | 0 <= i < |d| ensures Pivot(rows', init)[i] == Pivot(rows, init)[i] {
      FillSnoc(rows, row, d[i], init);
    }
  }

  /** Pivoting a prefix one row longer is one more step; the form the loops' invariants need. */
  lemma PivotPrefixStep(rows: seq<GrowthRow>, i: nat, init: map<string, int>)
    requires i < |rows|
    ensures Pivot(rows[..i + 1], init) == Step(Pivot(rows[..i], init), rows[i], init)
  {
    assert rows[..i + 1] == rows[..i] + [rows[i]];
    PivotSnoc(rows[..i], rows[i], init);
  }
}
