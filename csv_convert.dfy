/** backend/scripts/convertSchedule.js: the same CSV rows as the importer, turned into
    schedule rows whose course, lecturer and room are all 0, to be filled in by hand. The
    first three rows read are kept for a diagnostic message. */
module CsvConvert {
  import opened Js
  import opened Entities
  import opened CsvRow
  import opened CsvImport

  /** How many rows are kept for the diagnostic message. */
  const DebugRows: nat := 3

  /** The row pushed for a CSV row whose time range parses: ids 0 and weeks 1 to 16. */
  function ConvertedPart(row: CsvRecord): seq<ScheduleValues> {
    match RowFields(row)
    case None => []
    case Some(f) => [ScheduleValues(0, 0, 0, f, AllWeeks)]
  }

  /** The rows pushed for the given rows, in order. */
  function ConvertedOf(rows: seq<CsvRecord>): seq<ScheduleValues>
  {
    FlatMap(ConvertedPart, rows)
  }

  /** The first rows kept for the diagnostic message. */
  function DebugPrefix(rows: seq<CsvRecord>): (d: seq<CsvRecord>)
    ensures |d| <= DebugRows && |d| <= |rows|
    ensures |d| == if |rows| < DebugRows then |rows| else DebugRows
    ensures d == rows[..|d|]
  {
    if |rows| < DebugRows then rows else rows[..DebugRows]
  }

  /** The rows kept after one more row: that row too while fewer than three are kept. */
  lemma DebugPrefixStep(rows: seq<CsvRecord>, row: CsvRecord)
    ensures DebugPrefix(rows + [row]) ==
      if |DebugPrefix(rows)| < DebugRows then DebugPrefix(rows) + [row] else DebugPrefix(rows)
  {
    assert (rows + [row])[..|rows|] == rows;
    if |rows| >= DebugRows {
      assert (rows + [row])[..DebugRows] == rows[..DebugRows];
    }
  }

  /** The rest of the `data` handler: the row's values when its time range parses. */
  method ConvertRow(row: CsvRecord) returns (pushed: seq<ScheduleValues>)
    ensures pushed == ConvertedPart(row)
  {
    var fields := ReadFields(row);
    if fields.None? {
      return [];
    }
    return [ScheduleValues(0, 0, 0, fields.value, AllWeeks)];
  }

  /** What the `end` handler reports: no row parsed (with the kept rows), or the rows of
      the insert statement. */
  datatype Report = NothingParsed(sample: seq<CsvRecord>) | Insert(rows: seq<ScheduleValues>)

  /** The converter's state: the rows to insert and the first rows read. */
  class Converter {
    var values: seq<ScheduleValues>
    var debugFirstRows: seq<CsvRecord>
    ghost var seen: seq<CsvRecord>

    /** The lists are what the rows read so far give: one value per row with a time
        range, and the first three rows. */
    ghost predicate Valid()
      reads this
    {
      values == ConvertedOf(seen) && debugFirstRows == DebugPrefix(seen)
    }

    constructor ()
      ensures Valid() && seen == [] && values == [] && debugFirstRows == []
    {
      values := [];
      debugFirstRows := [];
      seen := [];
    }

    /** The `data` handler: keep the row if fewer than three are kept, then push its
        converted values when its time range parses. */
    method OnData(row: CsvRecord)
      requires Valid()
      modifies this
      ensures Valid() && seen == old(seen) + [row]
      ensures debugFirstRows == if |old(debugFirstRows)| < DebugRows then old(debugFirstRows) + [row] else old(debugFirstRows)
      ensures values == old(values) + ConvertedPart(row)
    {
      FlatMapSnoc(ConvertedPart, seen, row);
      DebugPrefixStep(seen, row);
      seen := seen + [row];
      if |debugFirstRows| < DebugRows {
        debugFirstRows := debugFirstRows + [row];
      }
      var pushed := ConvertRow(row);
      values := values + pushed;
    }

    /** The `end` handler: the kept rows when nothing parsed, the insert otherwise. */
    method OnEnd() returns (report: Report)
      requires Valid()
      ensures report.NothingParsed? <==> forall r :: r in seen ==> RowFields(r).None?
      ensures report.NothingParsed? ==> report.sample == DebugPrefix(seen)
      ensures report.Insert? ==> report.rows == ConvertedOf(seen)
    {
      ConvertedEmpty(seen);
      if |values| == 0 {
        return NothingParsed(debugFirstRows);
      }
      return Insert(values);
    }
  }

  /** Nothing is pushed exactly when no row's time range parses. */
  lemma ConvertedEmpty(rows: seq<CsvRecord>)
    ensures |ConvertedOf(rows)| == 0 <==> forall r :: r in rows ==> RowFields(r).None?
  {
    FlatMapEmpty(ConvertedPart, rows);
  }

  /** Every converted row has ids 0, weeks 1 to 16 and a non-empty start and end, and
      there are no more of them than rows. */
  lemma {:induction false} ConvertedWellFormed(rows: seq<CsvRecord>)
    ensures |ConvertedOf(rows)| <= |rows|
    ensures forall v :: v in ConvertedOf(rows) ==>
              v.courseId == 0 && v.lecturerId == 0 && v.roomId == 0 && v.weeks == AllWeeks
              && v.fields.startTime != "" && v.fields.endTime != ""
  {
    FlatMapLength(ConvertedPart, rows);
    if |rows| > 0 {
      ConvertedWellFormed(rows[..|rows| - 1]);
    }
  }

  /** The converter pushes one row for every row the importer either inserts or reports
      as unresolved, whatever the importer's lookups, and with the same columns. */
  lemma {:induction false} ConvertMatchesImport(lookups: Lookups, rows: seq<CsvRecord>)
    ensures |ConvertedOf(rows)| == |AcceptedOf(lookups, rows)| + |UnresolvedOf(lookups, rows)|
  {
    if |rows| > 0 {
      var init := rows[..|rows| - 1];
      ConvertMatchesImport(lookups, init);
      ImportOutcomeSpec(lookups, rows[|rows| - 1]);
    }
  }

  /** Each converted row carries the columns of the importer's row for the same CSV row. */
  lemma ConvertedFieldsAsImported(lookups: Lookups, row: CsvRecord)
    requires ImportOutcome(lookups, row).Accepted?
    ensures ConvertedPart(row) == [ImportOutcome(lookups, row).values.(courseId := 0, lecturerId := 0, roomId := 0)]
  {
    ImportOutcomeSpec(lookups, row);
  }
}
