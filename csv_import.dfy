/** The row handler of backend/scripts/importScheduleMapped.js: each CSV row whose time
    range parses is matched to a course, a lecturer and a room of the database; a row
    with all three ids becomes a schedule row to insert, any other goes to the list of
    unresolved rows. The lookups are built from the database before the rows arrive;
    here they are the fields the importer is made with. */
module CsvImport {
  import opened Js
  import opened Entities
  import opened CsvRow

  /** The eleven values inserted for a row, in the order of the insert's columns. */
  datatype ScheduleValues = ScheduleValues(courseId: int, lecturerId: int, roomId: int, fields: Fields, weeks: seq<int>)

  /** What is kept of a row some id of which was not found. */
  datatype Unmatched = Unmatched(classGroup: Option<string>, day: Option<string>, jam: string,
                                 course: Option<string>, lecturer: Option<string>, room: Option<string>,
                                 courseId: Option<int>, lecturerId: Option<int>, roomId: Option<int>)

  datatype Outcome = Skipped | Unresolved(row: Unmatched) | Accepted(values: ScheduleValues)

  /** An id the handler accepts: found, and not 0 (which the truthiness test rejects). */
  predicate Resolved(id: Option<int>) {
    id.Some? && id.value != 0
  }

  /** The three lookups of a row's cells: course name, lecturer name, room. */
  datatype Lookups = Lookups(course: Option<string> -> Option<int>, lecturer: Option<string> -> Option<int>,
                             room: Option<string> -> Option<int>)

  /** findCourseId, findLecturerId and findRoomId over the maps and the lecturer list. */
  function ImportLookups(courseByName: map<string, int>, lecturers: seq<Lecturer>, roomByPrefix: map<string, int>,
                         strip: string -> string): Lookups
  {
    Lookups((mk: Option<string>) => FindCourseId(courseByName, mk),
            (dosen: Option<string>) => LecturerMatch(lecturers, dosen, strip),
            (ruang: Option<string>) => FindRoomId(roomByPrefix, ruang))
  }

  /** What the handler does with one row, given the columns read from it (none when its
      time range does not parse) and the ids its three lookups found. */
  function Classify(row: CsvRecord, fields: Option<Fields>, courseId: Option<int>, lecturerId: Option<int>,
                    roomId: Option<int>): Outcome {
    match fields
    case None => Skipped
    case Some(f) =>
      if !Resolved(courseId) || !Resolved(lecturerId) || !Resolved(roomId) then
        Unresolved(Unmatched(Field(row, "kelas"), Field(row, "Hari"), Text(Field(row, "Jam")),
                             Field(row, "Mata Kuliah"), Field(row, "Dosen"), Field(row, "Ruang"),
                             courseId, lecturerId, roomId))
      else Accepted(ScheduleValues(courseId.value, lecturerId.value, roomId.value, f, AllWeeks))
  }

  /** What an outcome pushes onto the values. */
  function AcceptedPart(o: Outcome): seq<ScheduleValues> {
    if o.Accepted? then [o.values] else []
  }

  /** What an outcome pushes onto the unresolved rows. */
  function UnresolvedPart(o: Outcome): seq<Unmatched> {
    if o.Unresolved? then [o.row] else []
  }

  /** What the handler does with one row, given the lookups. */
  function ImportOutcome(lookups: Lookups, row: CsvRecord): Outcome {
    Classify(row, RowFields(row), lookups.course(Field(row, "Mata Kuliah")), lookups.lecturer(Field(row, "Dosen")),
             lookups.room(Field(row, "Ruang")))
  }

  /** A row is skipped exactly when its time range does not parse; an accepted row has all
      three ids found and non-zero, the columns of the row and weeks 1 to 16; every other
      parsed row is unresolved, keeping what was found of its ids. */
  lemma ImportOutcomeSpec(lookups: Lookups, row: CsvRecord)
    ensures var o := ImportOutcome(lookups, row);
            (o.Skipped? <==> RowFields(row).None?)
            && (o.Accepted? ==>
                  o.values.fields == RowFields(row).value && o.values.weeks == AllWeeks
                  && Some(o.values.courseId) == lookups.course(Field(row, "Mata Kuliah"))
                  && Some(o.values.lecturerId) == lookups.lecturer(Field(row, "Dosen"))
                  && Some(o.values.roomId) == lookups.room(Field(row, "Ruang"))
                  && o.values.courseId != 0 && o.values.lecturerId != 0 && o.values.roomId != 0)
            && (o.Unresolved? <==>
                  RowFields(row).Some? &&
                  (!Resolved(lookups.course(Field(row, "Mata Kuliah")))
                   || !Resolved(lookups.lecturer(Field(row, "Dosen")))
                   || !Resolved(lookups.room(Field(row, "Ruang")))))
            && (o.Unresolved? ==>
                  o.row.courseId == lookups.course(Field(row, "Mata Kuliah"))
                  && o.row.lecturerId == lookups.lecturer(Field(row, "Dosen"))
                  && o.row.roomId == lookups.room(Field(row, "Ruang"))
                  && o.row.jam == Field(row, "Jam").value)
  {
  }

  /** With the script's lookups, an accepted row's room is an `h###` room found in the
      prefix map, and its course a course of the name map. */
  lemma AcceptedRoomAndCourse(courseByName: map<string, int>, lecturers: seq<Lecturer>, roomByPrefix: map<string, int>,
                              strip: string -> string, row: CsvRecord)
    requires ImportOutcome(ImportLookups(courseByName, lecturers, roomByPrefix, strip), row).Accepted?
    ensures var v := ImportOutcome(ImportLookups(courseByName, lecturers, roomByPrefix, strip), row).values;
            var k := RoomKey(Field(row, "Ruang"));
            k.Some? && IsHKey(k.value) && k.value in roomByPrefix && v.roomId == roomByPrefix[k.value]
            && v.courseId in courseByName.Values
  {
    var lookups := ImportLookups(courseByName, lecturers, roomByPrefix, strip);
    ImportOutcomeSpec(lookups, row);
    assert lookups.room(Field(row, "Ruang")) == FindRoomId(roomByPrefix, Field(row, "Ruang"));
    assert lookups.course(Field(row, "Mata Kuliah")) == FindCourseId(courseByName, Field(row, "Mata Kuliah"));
  }

  /** The importer: the lookups built from the database, and the two lists the row
      handler fills from the rows it has been given so far. */
  class Importer {
    const lookups: Lookups
    var values: seq<ScheduleValues>
    var unresolved: seq<Unmatched>
    ghost var seen: seq<CsvRecord>

    /** The lists are what the rows seen so far push, in order. */
    ghost predicate Valid()
      reads this
    {
      values == AcceptedOf(lookups, seen) && unresolved == UnresolvedOf(lookups, seen)
    }

    constructor (courseByName: map<string, int>, lecturers: seq<Lecturer>, roomByPrefix: map<string, int>, strip: string -> string)
      ensures Valid()
      ensures lookups == ImportLookups(courseByName, lecturers, roomByPrefix, strip)
      ensures values == [] && unresolved == [] && seen == []
    {
      lookups := ImportLookups(courseByName, lecturers, roomByPrefix, strip);
      values := [];
      unresolved := [];
      seen := [];
    }

    /** The `data` handler: push the row's values, or its unresolved record, or nothing. */
    method OnData(row: CsvRecord)
      requires Valid()
      modifies this
      ensures Valid() && seen == old(seen) + [row]
      ensures values == old(values) + AcceptedPart(ImportOutcome(lookups, row))
      ensures unresolved == old(unresolved) + UnresolvedPart(ImportOutcome(lookups, row))
    {
      PushedStep(lookups, seen, row);
      seen := seen + [row];
      var fields := ReadFields(row);
      if fields.None? {
        return;
      }
      var courseId := lookups.course(Field(row, "Mata Kuliah"));
      var lecturerId := lookups.lecturer(Field(row, "Dosen"));
      var roomId := lookups.room(Field(row, "Ruang"));
      var accepted, missed := HandleRow(row, fields, courseId, lecturerId, roomId);
      values := values + accepted;
      unresolved := unresolved + missed;
    }
  }

  /** The first half of the row handler: the columns of a row whose `Jam` is there and
      splits into a non-empty start and end, none for any other row. */
  method ReadFields(row: CsvRecord) returns (fields: Option<Fields>)
    ensures fields == RowFields(row)
  {
    var jam := Field(row, "Jam");
    if !Present(jam) {
      return None;
    }
    var range := ParseTimeRange(jam.value);
    if range.NoRange? || range.start == "" || range.end == "" {
      return None;
    }
    var prof := Field(row, "prof");
    var jpm := Field(row, "JPM");
    var semester := if Present(prof) then Some(StringToNumber(prof.value)) else None;
    var count := if Present(jpm) then StringToNumber(jpm.value) else Finite(0.0);
    fields := Some(Fields(Field(row, "Hari"), range.start, range.end, StudyProgram(Field(row, "kelas")),
                          Field(row, "kelas"), semester, count));
  }

  /** The second half of the row handler, once the columns are read and the three ids
      looked up: what it pushes onto the values and onto the unresolved rows. */
  method HandleRow(row: CsvRecord, fields: Option<Fields>, courseId: Option<int>, lecturerId: Option<int>,
                   roomId: Option<int>)
    returns (accepted: seq<ScheduleValues>, missed: seq<Unmatched>)
    ensures accepted == AcceptedPart(Classify(row, fields, courseId, lecturerId, roomId))
    ensures missed == UnresolvedPart(Classify(row, fields, courseId, lecturerId, roomId))
  {
    accepted, missed := [], [];
    if fields.None? {
      return;
    }
    if !Resolved(courseId) || !Resolved(lecturerId) || !Resolved(roomId) {
      missed := [Unmatched(Field(row, "kelas"), Field(row, "Hari"), Text(Field(row, "Jam")),
                           Field(row, "Mata Kuliah"), Field(row, "Dosen"), Field(row, "Ruang"),
                           courseId, lecturerId, roomId)];
      return;
    }
    accepted := [ScheduleValues(courseId.value, lecturerId.value, roomId.value, fields.value, AllWeeks)];
  }

  /** The values pushed for the given rows, in order. */
  function AcceptedOf(lookups: Lookups, rows: seq<CsvRecord>): seq<ScheduleValues>
  {
    if |rows| == 0 then []
    else
      var o := ImportOutcome(lookups, rows[|rows| - 1]);
      AcceptedOf(lookups, rows[..|rows| - 1]) + AcceptedPart(o)
  }

  /** The unresolved records pushed for the given rows, in order. */
  function UnresolvedOf(lookups: Lookups, rows: seq<CsvRecord>): seq<Unmatched>
  {
    if |rows| == 0 then []
    else
      var o := ImportOutcome(lookups, rows[|rows| - 1]);
      UnresolvedOf(lookups, rows[..|rows| - 1]) + UnresolvedPart(o)
  }

  /** The rows and one more push what the rows push, then what the last one pushes. */
  lemma PushedStep(lookups: Lookups, rows: seq<CsvRecord>, row: CsvRecord)
    ensures AcceptedOf(lookups, rows + [row]) == AcceptedOf(lookups, rows) + AcceptedPart(ImportOutcome(lookups, row))
    ensures UnresolvedOf(lookups, rows + [row]) == UnresolvedOf(lookups, rows) + UnresolvedPart(ImportOutcome(lookups, row))
  {
    assert (rows + [row])[..|rows|] == rows;
  }

  /** Every row is counted at most once: the values and the unresolved records together
      are no more than the rows, and exactly as many when no row is skipped. */
  lemma {:induction false} ImportCounts(lookups: Lookups, rows: seq<CsvRecord>)
    ensures |AcceptedOf(lookups, rows)|
            + |UnresolvedOf(lookups, rows)| <= |rows|
    ensures (forall i :: 0 <= i < |rows| ==> RowFields(rows[i]).Some?) ==>
              |AcceptedOf(lookups, rows)|
              + |UnresolvedOf(lookups, rows)| == |rows|
  {
    if |rows| > 0 {
      var init := rows[..|rows| - 1];
      ImportCounts(lookups, init);
      ImportOutcomeSpec(lookups, rows[|rows| - 1]);
      assert forall i :: 0 <= i < |init| ==> init[i] == rows[i];
    }
  }

  /** Every value pushed has non-zero ids and weeks 1 to 16. */
  lemma {:induction false} AcceptedWellFormed(lookups: Lookups, rows: seq<CsvRecord>)
    ensures forall v :: v in AcceptedOf(lookups, rows) ==>
              v.courseId != 0 && v.lecturerId != 0 && v.roomId != 0 && v.weeks == AllWeeks
              && v.fields.startTime != "" && v.fields.endTime != ""
  {
    if |rows| > 0 {
      AcceptedWellFormed(lookups, rows[..|rows| - 1]);
      ImportOutcomeSpec(lookups, rows[|rows| - 1]);
    }
  }
}
