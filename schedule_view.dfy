/** The schedule screens of the root revision of the web client: the daily and weekly
    filters (with the week number fixed at 1), the Monday-to-Friday window of the
    weekly view, the pairwise conflict set, the free-room search of the empty-room page,
    the week-range field of the entity editor, and two form validators. Times and dates
    are compared as texts, as the code does. */
module RootScheduleView {
  import opened Js
  import opened Calendar
  import opened Clock
  import opened Entities

  /** The week the views treat as current. */
  const CurrentWeek: int := 1

  /** The five drop-down filters; "" lets everything through. */
  datatype Filters = Filters(course: string, lecturer: string, room: string, classGroup: string, studyProgram: string)

  /** The first and last day (both `YYYY-MM-DD`) of the weekly view. */
  datatype WeekWindow = WeekWindow(start: string, end: string)

  /** The daily view: entries for the selected date, and recurring entries of its weekday
      that are active in the current week. */
  predicate DailyMatch(s: Schedule, selectedDate: string, activeDay: Option<DayOfWeek>) {
    DateIs(s, selectedDate) || (!HasDate(s) && DayIs(s, activeDay) && ActiveInWeek(s, CurrentWeek))
  }

  const WorkdayNames: seq<string> := ["Senin", "Selasa", "Rabu", "Kamis", "Jumat"]

  /** The weekly view: recurring Monday-to-Friday entries active in the current week, and
      dated entries from the window's Monday to its Friday. */
  predicate WeeklyMatch(s: Schedule, window: WeekWindow) {
    (!HasDate(s) && s.day in WorkdayNames && ActiveInWeek(s, CurrentWeek))
    || (HasDate(s) && !LexLess(s.date.value, window.start) && !LexLess(window.end, s.date.value))
  }

  predicate FiltersMatch(f: Filters, s: Schedule) {
    FieldMatch(f.course, s.courseId) && FieldMatch(f.lecturer, s.lecturerId) && FieldMatch(f.room, s.roomId)
    && FieldMatch(f.classGroup, s.classGroup) && FieldMatch(f.studyProgram, s.studyProgram)
  }

  /** Whether an entry is kept. `matchesText` is the free-text search, which lets every
      entry through when the search box is empty. */
  predicate Keep(s: Schedule, weekly: bool, selectedDate: string, activeDay: Option<DayOfWeek>,
                 window: WeekWindow, f: Filters, matchesText: Schedule -> bool) {
    (if weekly then WeeklyMatch(s, window) else DailyMatch(s, selectedDate, activeDay))
    && FiltersMatch(f, s) && matchesText(s)
  }

  /** filteredSchedules. */
  function FilteredSchedules(merged: seq<Schedule>, weekly: bool, selectedDate: string,
                             activeDay: Option<DayOfWeek>, window: WeekWindow, f: Filters,
                             matchesText: Schedule -> bool): (r: seq<Schedule>)
    ensures |r| <= |merged|
    ensures forall i :: 0 <= i < |r| ==> r[i] in merged && Keep(r[i], weekly, selectedDate, activeDay, window, f, matchesText)
  {
    Filter(s => Keep(s, weekly, selectedDate, activeDay, window, f, matchesText), merged)
  }

  /** An entry is shown exactly when it is in the merged list and passes the day rule of
      the current view, every drop-down filter and the text search; the order of the
      merged list is kept. */
  lemma FilteredMembers(merged: seq<Schedule>, weekly: bool, selectedDate: string,
                        activeDay: Option<DayOfWeek>, window: WeekWindow, f: Filters,
                        matchesText: Schedule -> bool)
    ensures forall s :: s in FilteredSchedules(merged, weekly, selectedDate, activeDay, window, f, matchesText) <==>
      s in merged && (if weekly then WeeklyMatch(s, window) else DailyMatch(s, selectedDate, activeDay))
      && FiltersMatch(f, s) && matchesText(s)
    ensures IsSubsequence(FilteredSchedules(merged, weekly, selectedDate, activeDay, window, f, matchesText), merged)
  {
    var p := s => Keep(s, weekly, selectedDate, activeDay, window, f, matchesText);
    var r := Filter(p, merged);
    forall s | s in merged && p(s)
      ensures s in r
    {
      var i :| 0 <= i < |merged| && merged[i] == s;
    }
    forall s | s in r
      ensures s in merged && p(s)
    {
      var i :| 0 <= i < |r| && r[i] == s;
    }
    FilterIsSubsequence(p, merged);
  }

  /** A booking entry is shown in the daily view of its own date, whatever its weeks. */
  lemma BookingShownOnItsDate(b: Booking, activeDay: Option<DayOfWeek>)
    ensures DailyMatch(BookingEntry(b), b.date, activeDay)
  {
  }

  // ---------------------------------------------------------------- the week window

  /** The Monday that starts the week (Monday to Sunday) holding `d`. */
  function MondayOf(d: Date): (m: Date)
    requires ValidDate(d)
    ensures ValidDate(m) && WeekdayIndex(m) == 1
    ensures DayNumber(m) <= DayNumber(d) <= DayNumber(m) + 6
    ensures DayNumber(m) == DayNumber(d) - (WeekdayIndex(d) + 6) % 7
  {
    var n := DayNumber(d);
    var back := (WeekdayIndex(d) + 6) % 7;
    MondayArithmetic(n);
    AddDays(d, -back)
  }

  lemma MondayArithmetic(n: int)
    ensures 0 <= ((n + 6) % 7 + 6) % 7 <= 6
    ensures (n - ((n + 6) % 7 + 6) % 7 + 6) % 7 == 1
  {
    var w := (n + 6) % 7;
    var q := (n + 6) / 7;
    assert n + 6 == 7 * q + w;
    if w == 0 {
      assert (w + 6) % 7 == 6;
      assert n - (w + 6) % 7 + 6 == 7 * (q - 1) + 1;
    } else {
      assert (w + 6) % 7 == w - 1;
      assert n - (w - 1) + 6 == 7 * q + 1;
    }
  }

  /** The week's Monday and Friday as `YYYY-MM-DD` texts. */
  function WeekOf(d: Date): WeekWindow
    requires ValidDate(d)
  {
    WeekWindow(FormatIsoDate(MondayOf(d)), FormatIsoDate(AddDays(MondayOf(d), 4)))
  }

  /** weekDateRange, mutating a date the way the code does: `setDate(getDate() - day + (day
      === 0 ? -6 : 1))` for Monday and `setDate(monday.getDate() + 4)` for Friday, both
      printed with toISOString. A text that is not a date makes toISOString throw, which is
      None here. */
  method WeekDateRange(selectedDate: string) returns (w: Option<WeekWindow>)
    ensures ParseIsoDate(selectedDate).None? ==> w.None?
    ensures ParseIsoDate(selectedDate).Some? ==> w == Some(WeekOf(ParseIsoDate(selectedDate).value))
  {
    var parsed := ParseIsoDate(selectedDate);
    if parsed.None? {
      return None;
    }
    var window := MondayToFriday(parsed.value);
    return Some(window);
  }

  /** The setDate steps on a date that exists. */
  method MondayToFriday(current: Date) returns (w: WeekWindow)
    requires ValidDate(current)
    ensures w == WeekOf(current)
  {
    var day := WeekdayIndex(current);
    var diffToMonday := current.day - day + (if day == 0 then -6 else 1);
    var monday := SetDate(current, diffToMonday);
    MondayBySetDate(current, diffToMonday);
    var friday := SetDate(monday, monday.day + 4);
    FridayBySetDate(monday);
    w := WeekWindow(FormatIsoDate(monday), FormatIsoDate(friday));
  }

  /** The code's setDate arithmetic lands on the Monday of the week. */
  lemma MondayBySetDate(d: Date, diff: int)
    requires ValidDate(d) && diff == d.day - WeekdayIndex(d) + (if WeekdayIndex(d) == 0 then -6 else 1)
    ensures SetDate(d, diff) == MondayOf(d)
  {
    SameMonday(d, SetDate(d, diff), MondayOf(d));
  }

  /** A date as far from `d` as the setDate arithmetic goes and one as far as the Monday
      of the week are the same date. */
  lemma SameMonday(d: Date, a: Date, m: Date)
    requires ValidDate(d) && ValidDate(a) && ValidDate(m)
    requires DayNumber(a) == DayNumber(d) - d.day + (d.day - WeekdayIndex(d) + (if WeekdayIndex(d) == 0 then -6 else 1))
    requires DayNumber(m) == DayNumber(d) - (WeekdayIndex(d) + 6) % 7
    ensures a == m
  {
    BackToMonday(DayNumber(d), d.day, WeekdayIndex(d), DayNumber(a), DayNumber(m));
    SameDayNumber(a, m);
  }

  /** Going back `day` days and one forward (six back on a Sunday) is going back to the
      Monday. */
  lemma BackToMonday(n: int, day: int, w: int, na: int, nm: int)
    requires 0 <= w < 7
    requires na == n - day + (day - w + (if w == 0 then -6 else 1))
    requires nm == n - (w + 6) % 7
    ensures na == nm
  {
    assert (w + 6) % 7 == if w == 0 then 6 else w - 1;
  }

  lemma SameDayNumber(a: Date, b: Date)
    requires ValidDate(a) && ValidDate(b) && DayNumber(a) == DayNumber(b)
    ensures a == b
  {
    DayNumberOrder(a, b);
  }

  lemma FridayBySetDate(m: Date)
    requires ValidDate(m)
    ensures SetDate(m, m.day + 4) == AddDays(m, 4)
  {
    SameDayNumber(SetDate(m, m.day + 4), AddDays(m, 4));
  }

  /** For dated entries the weekly view's text comparisons select exactly the days from the
      window's Monday to its Friday. */
  lemma WeeklyDatedEntries(s: Schedule, d: Date)
    requires ValidDate(d) && HasDate(s) && ParseIsoDate(s.date.value).Some?
    requires 0 <= MondayOf(d).year && AddDays(MondayOf(d), 4).year <= 9999
    ensures WeeklyMatch(s, WeekOf(d)) <==>
      DayNumber(MondayOf(d)) <= DayNumber(ParseIsoDate(s.date.value).value) <= DayNumber(MondayOf(d)) + 4
  {
    var m := MondayOf(d);
    var f := AddDays(m, 4);
    var e := ParseIsoDate(s.date.value).value;
    FormatParse(s.date.value);
    DayNumberOrder(m, f);
    IsoOrder(e, m);
    IsoOrder(f, e);
  }

  // ---------------------------------------------------------------- conflicts

  /** Two entries clash: different ids, one room, the same day name or the same non-empty
      date, and `start1 < end2 && end1 > start2` on the time texts. */
  predicate Clash(a: Schedule, b: Schedule) {
    a.id != b.id && a.roomId == b.roomId
    && (a.day == b.day || (HasDate(a) && HasDate(b) && a.date == b.date))
    && LexLess(a.startTime, b.endTime) && LexLess(b.startTime, a.endTime)
  }

  /** The ids the two nested loops add: every entry that clashes with some entry. */
  function ConflictIds(entries: seq<Schedule>): set<string> {
    set i, j | 0 <= i < |entries| && 0 <= j < |entries| && Clash(entries[i], entries[j]) :: entries[i].id
  }

  function ConflictIdsBefore(entries: seq<Schedule>, n: int): set<string> {
    set i, j | 0 <= i < n && i < |entries| && 0 <= j < |entries| && Clash(entries[i], entries[j]) :: entries[i].id
  }

  function ClashRow(entries: seq<Schedule>, i: int, n: int): set<string>
    requires 0 <= i < |entries|
  {
    set j | 0 <= j < n && j < |entries| && Clash(entries[i], entries[j]) :: entries[i].id
  }

  lemma ConflictIdsStep(entries: seq<Schedule>, i: int)
    requires 0 <= i < |entries|
    ensures ConflictIdsBefore(entries, i + 1) == ConflictIdsBefore(entries, i) + ClashRow(entries, i, |entries|)
  {
    var lhs, rhs := ConflictIdsBefore(entries, i + 1), ConflictIdsBefore(entries, i) + ClashRow(entries, i, |entries|);
    forall x | x in lhs
      ensures x in rhs
    {
      var p, q :| 0 <= p < i + 1 && p < |entries| && 0 <= q < |entries| && Clash(entries[p], entries[q]) && x == entries[p].id;
      if p == i {
        assert x in ClashRow(entries, i, |entries|);
      }
    }
  }

  lemma ClashRowStep(entries: seq<Schedule>, i: int, j: int)
    requires 0 <= i < |entries| && 0 <= j < |entries|
    ensures ClashRow(entries, i, j + 1) ==
      ClashRow(entries, i, j) + (if Clash(entries[i], entries[j]) then {entries[i].id} else {})
  {
    if Clash(entries[i], entries[j]) {
      assert entries[i].id in ClashRow(entries, i, j + 1);
    }
  }

  /** conflicts: for each s1 and each s2 of the shown entries, add s1's id when they clash. */
  method Conflicts(entries: seq<Schedule>) returns (ids: set<string>)
    ensures ids == ConflictIds(entries)
  {
    ids := {};
    var i := 0;
    while i < |entries|
      invariant 0 <= i <= |entries|
      invariant ids == ConflictIdsBefore(entries, i)
    {
      var j := 0;
      while j < |entries|
        invariant 0 <= j <= |entries|
        invariant ids == ConflictIdsBefore(entries, i) + ClashRow(entries, i, j)
      {
        ClashRowStep(entries, i, j);
        if Clash(entries[i], entries[j]) {
          ids := ids + {entries[i].id};
        }
        j := j + 1;
      }
      ConflictIdsStep(entries, i);
      i := i + 1;
    }
    assert ConflictIdsBefore(entries, |entries|) == ConflictIds(entries);
  }

  /** The clash relation is symmetric, so both partners of a clash are flagged. */
  lemma ClashSymmetric(a: Schedule, b: Schedule)
    ensures Clash(a, b) <==> Clash(b, a)
  {
  }

  lemma ConflictBothFlagged(entries: seq<Schedule>, i: int, j: int)
    requires 0 <= i < |entries| && 0 <= j < |entries| && Clash(entries[i], entries[j])
    ensures entries[i].id in ConflictIds(entries) && entries[j].id in ConflictIds(entries)
  {
    ClashSymmetric(entries[i], entries[j]);
  }

  /** On clock times a clash is an overlap of the half-open minute intervals: entries
      that only touch (one ends when the other starts) do not clash. */
  lemma ClashMinutes(a: Schedule, b: Schedule)
    requires IsClockTime(a.startTime) && IsClockTime(a.endTime) && IsClockTime(b.startTime) && IsClockTime(b.endTime)
    ensures Clash(a, b) <==>
      a.id != b.id && a.roomId == b.roomId
      && (a.day == b.day || (HasDate(a) && HasDate(b) && a.date == b.date))
      && Overlaps(ClockMinutes(a.startTime), ClockMinutes(a.endTime), ClockMinutes(b.startTime), ClockMinutes(b.endTime))
  {
    ClockOrder(a.startTime, b.endTime);
    ClockOrder(b.startTime, a.endTime);
  }

  // ---------------------------------------------------------------- free rooms

  /** A schedule keeps `room` busy: same room, its date or (undated) its weekday, and
      `s.startTime < checkEnd && s.endTime > checkStart`. */
  predicate ScheduleBlocks(s: Schedule, room: Room, date: string, day: DayOfWeek, checkStart: string, checkEnd: string) {
    s.roomId == room.id && (DateIs(s, date) || (!HasDate(s) && s.day == DayName(day)))
    && LexLess(s.startTime, checkEnd) && LexLess(checkStart, s.endTime)
  }

  /** A booking keeps `room` busy unless it was rejected. */
  predicate BookingBlocks(b: Booking, room: Room, date: string, checkStart: string, checkEnd: string) {
    b.roomId == room.id && b.status != Rejected && b.date == date
    && LexLess(b.startTime, checkEnd) && LexLess(checkStart, b.endTime)
  }

  predicate RoomFree(room: Room, schedules: seq<Schedule>, bookings: seq<Booking>, date: string, day: DayOfWeek,
                     checkStart: string, checkEnd: string) {
    !(exists s :: s in schedules && ScheduleBlocks(s, room, date, day, checkStart, checkEnd))
    && !(exists b :: b in bookings && BookingBlocks(b, room, date, checkStart, checkEnd))
  }

  /** availableRooms of the empty-room page. The time comes from a time input: a clock
      time, or "" when cleared. */
  function AvailableRooms(rooms: seq<Room>, schedules: seq<Schedule>, bookings: seq<Booking>,
                          date: string, time: string, duration: nat): (r: seq<Room>)
    requires time == "" || IsClockTime(time)
    ensures DayFromDate(date).None? ==> r == []
  {
    var checkEnd := CheckEnd(time, duration);
    match DayFromDate(date)
    case None => []
    case Some(day) => Filter(room => RoomFree(room, schedules, bookings, date, day, time, checkEnd), rooms)
  }

  /** Within one day, a room is offered exactly when it is one of the rooms, the date is a
      teaching day, no schedule of that room on that date or (undated) weekday overlaps the
      requested minutes, and no booking of that room on that date that was not rejected
      overlaps them. The result keeps the order of the room list. */
  lemma AvailableRoomsSpec(rooms: seq<Room>, schedules: seq<Schedule>, bookings: seq<Booking>,
                           date: string, time: string, duration: nat, room: Room)
    requires IsClockTime(time) && ClockMinutes(time) + duration < 1440
    requires forall s :: s in schedules ==> IsClockTime(s.startTime) && IsClockTime(s.endTime)
    requires forall b :: b in bookings ==> IsClockTime(b.startTime) && IsClockTime(b.endTime)
    ensures IsSubsequence(AvailableRooms(rooms, schedules, bookings, date, time, duration), rooms)
    ensures room in AvailableRooms(rooms, schedules, bookings, date, time, duration) <==>
      room in rooms && DayFromDate(date).Some?
      && (forall s :: s in schedules && s.roomId == room.id
            && (DateIs(s, date) || (!HasDate(s) && s.day == DayName(DayFromDate(date).value)))
            ==> !Overlaps(ClockMinutes(s.startTime), ClockMinutes(s.endTime), ClockMinutes(time), ClockMinutes(time) + duration))
      && (forall b :: b in bookings && b.roomId == room.id && b.status != Rejected && b.date == date
            ==> !Overlaps(ClockMinutes(b.startTime), ClockMinutes(b.endTime), ClockMinutes(time), ClockMinutes(time) + duration))
  {
    match DayFromDate(date)
    case None =>
    case Some(day) =>
      var p := rm => RoomFree(rm, schedules, bookings, date, day, time, CheckEnd(time, duration));
      FilterIsSubsequence(p, rooms);
      FilterMembers(p, rooms, room);
      RoomFreeMinutes(room, schedules, bookings, date, day, time, duration);
  }

  /** On clock times that stay within the day, the text comparisons against the root
      view's end time are the overlap of the minutes. */
  lemma RoomFreeMinutes(room: Room, schedules: seq<Schedule>, bookings: seq<Booking>,
                        date: string, day: DayOfWeek, time: string, duration: nat)
    requires IsClockTime(time) && ClockMinutes(time) + duration < 1440
    requires forall s :: s in schedules ==> IsClockTime(s.startTime) && IsClockTime(s.endTime)
    requires forall b :: b in bookings ==> IsClockTime(b.startTime) && IsClockTime(b.endTime)
    ensures RoomFree(room, schedules, bookings, date, day, time, CheckEnd(time, duration)) <==>
      (forall s :: s in schedules && s.roomId == room.id
            && (DateIs(s, date) || (!HasDate(s) && s.day == DayName(day)))
            ==> !Overlaps(ClockMinutes(s.startTime), ClockMinutes(s.endTime), ClockMinutes(time), ClockMinutes(time) + duration))
      && (forall b :: b in bookings && b.roomId == room.id && b.status != Rejected && b.date == date
            ==> !Overlaps(ClockMinutes(b.startTime), ClockMinutes(b.endTime), ClockMinutes(time), ClockMinutes(time) + duration))
  {
    var checkEnd := CheckEnd(time, duration);
    DayMinute(ClockMinutes(time) + duration);
    assert ClockMinutes(checkEnd) == ClockMinutes(time) + duration;
    forall s | s in schedules
      ensures ScheduleBlocks(s, room, date, day, time, checkEnd) <==>
        s.roomId == room.id && (DateIs(s, date) || (!HasDate(s) && s.day == DayName(day)))
        && Overlaps(ClockMinutes(s.startTime), ClockMinutes(s.endTime), ClockMinutes(time), ClockMinutes(time) + duration)
    {
      ClockOrder(s.startTime, checkEnd);
      ClockOrder(time, s.endTime);
    }
    forall b | b in bookings
      ensures BookingBlocks(b, room, date, time, checkEnd) <==>
        b.roomId == room.id && b.status != Rejected && b.date == date
        && Overlaps(ClockMinutes(b.startTime), ClockMinutes(b.endTime), ClockMinutes(time), ClockMinutes(time) + duration)
    {
      ClockOrder(b.startTime, checkEnd);
      ClockOrder(time, b.endTime);
    }
  }

  // ---------------------------------------------------------------- entity editor

  /** A form field: undefined when the form has no such key. */
  function Get(form: map<string, JsValue>, key: string): JsValue {
    if key in form then form[key] else Undefined
  }

  /** `parseInt(v) || fallback`: NaN and 0 both fall back. */
  function IntOr(v: JsValue, fallback: int): (n: int)
    ensures ParseInt(v).None? ==> n == fallback
    ensures ParseInt(v) == Some(0) ==> n == fallback
    ensures ParseInt(v).Some? && ParseInt(v).value != 0 ==> n == ParseInt(v).value
  {
    match ParseInt(v)
    case None => fallback
    case Some(n) => if n == 0 then fallback else n
  }

  function NumSeq(ws: seq<int>): (r: seq<JsValue>)
    ensures |r| == |ws| && forall i :: 0 <= i < |ws| ==> r[i] == Num(ws[i] as real)
  {
    if |ws| == 0 then [] else [Num(ws[0] as real)] + NumSeq(ws[1..])
  }

  /** Whether handleAdd rewrites the week range of the form. */
  predicate HasWeekRange(title: string, form: map<string, JsValue>) {
    title == "Jadwal" && (Truthy(Get(form, "weekStart")) || Truthy(Get(form, "weekEnd")))
  }

  /** handleAdd: for a schedule form with a week range, the payload is the form with
      `weeks` set to the weeks from `weekStart` (default 1) to `weekEnd` (default 16) and
      the two range fields deleted; any other form is sent as it is. */
  method HandleAddPayload(title: string, form: map<string, JsValue>) returns (payload: map<string, JsValue>)
    ensures !HasWeekRange(title, form) ==> payload == form
    ensures HasWeekRange(title, form) ==>
      "weekStart" !in payload && "weekEnd" !in payload
      && "weeks" in payload
      && payload["weeks"] == Arr(NumSeq(WeekRange(IntOr(Get(form, "weekStart"), 1), IntOr(Get(form, "weekEnd"), 16))))
      && (forall k :: k != "weeks" && k != "weekStart" && k != "weekEnd" ==>
            (k in payload <==> k in form) && (k in form ==> payload[k] == form[k]))
  {
    if HasWeekRange(title, form) {
      var start := IntOr(Get(form, "weekStart"), 1);
      var end := IntOr(Get(form, "weekEnd"), 16);
      var weeksArray := WeekRange(start, end);
      payload := form["weeks" := Arr(NumSeq(weeksArray))];
      payload := payload - {"weekStart"};
      payload := payload - {"weekEnd"};
    } else {
      payload := form;
    }
  }

  // ---------------------------------------------------------------- validators

  /** `new Date(a) < new Date(b)`: false when either text is not a date (NaN compares
      false). */
  predicate DateBefore(a: string, b: string) {
    ParseIsoDate(a).Some? && ParseIsoDate(b).Some?
    && DayNumber(ParseIsoDate(a).value) < DayNumber(ParseIsoDate(b).value)
  }

  /** handleBorrowRequest's checks, in order: a signed-in user, a return date and a
      purpose, and a return date not before the borrow date. */
  function BorrowRequestError(signedIn: bool, borrowDate: string, returnDate: string, purpose: string): (r: Option<string>)
    ensures r.None? <==> (signedIn && returnDate != "" && purpose != ""
      && !(ParseIsoDate(returnDate).Some? && ParseIsoDate(borrowDate).Some?
           && LexLess(returnDate, borrowDate)))
  {
    if !signedIn then Some("Silakan login terlebih dahulu.")
    else if returnDate == "" || purpose == "" then Some("Mohon lengkapi formulir.")
    else
      BeforeIsTextOrder(returnDate, borrowDate);
      if DateBefore(returnDate, borrowDate) then
        Some("Tanggal pengembalian tidak boleh lebih awal dari tanggal peminjaman.")
      else None
  }

  /** On texts that are dates, comparing the dates is comparing the texts. */
  lemma BeforeIsTextOrder(a: string, b: string)
    ensures ParseIsoDate(a).Some? && ParseIsoDate(b).Some? ==> (DateBefore(a, b) <==> LexLess(a, b))
  {
    if ParseIsoDate(a).Some? && ParseIsoDate(b).Some? {
      FormatParse(a);
      FormatParse(b);
      IsoOrder(ParseIsoDate(a).value, ParseIsoDate(b).value);
    }
  }

  /** UserSettings.handleUpdate: the two entries must agree and be at least four UTF-16
      code units long. */
  function PasswordChangeError(password: string, confirm: string): (r: Option<string>)
    ensures r.None? <==> password == confirm && Utf16Length(password) >= 4
    ensures r == Some("Password minimal 4 karakter") ==> password == confirm
  {
    if password != confirm then Some("Konfirmasi password tidak cocok")
    else if Utf16Length(password) < 4 then Some("Password minimal 4 karakter")
    else None
  }

  /** Two characters above U+FFFF are four code units, which is long enough. */
  lemma PasswordOfTwoAstral()
    ensures PasswordChangeError("\U{1F600}\U{1F600}", "\U{1F600}\U{1F600}").None?
  {
    Utf16LengthExample();
  }
}
