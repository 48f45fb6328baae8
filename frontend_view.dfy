/** The schedule screens of the revision of the web client under `frontend/`: the date
    filter with the drop-down filters and the sort by start time, the free-room search
    (which reads times as minutes and only counts approved bookings), the status buttons
    of the admin tables and the settings form. */
module FrontendScheduleView {
  import opened Js
  import opened Calendar
  import opened Clock
  import opened Entities

  // ---------------------------------------------------------------- filter and sort

  /** The base layer: with the date filter on, entries for the selected date and undated
      entries of its weekday (no week check); with it off, everything. */
  predicate DateLayer(useDateFilter: bool, s: Schedule, selectedDate: string, activeDay: Option<DayOfWeek>) {
    !useDateFilter || DateIs(s, selectedDate) || (!HasDate(s) && DayIs(s, activeDay))
  }

  datatype Filters = Filters(lecturer: string, room: string, course: string, classGroup: string)

  /** `if (filterX && s.x !== filterX) return false` for the four drop-downs. */
  predicate FiltersMatch(f: Filters, s: Schedule) {
    FieldMatch(f.lecturer, s.lecturerId) && FieldMatch(f.room, s.roomId)
    && FieldMatch(f.course, s.courseId) && FieldMatch(f.classGroup, s.classGroup)
  }

  /** Whether an entry survives the filter callback. `matchesSearch` is the global text
      search, which lets everything through when the search text is blank. */
  predicate Keep(s: Schedule, useDateFilter: bool, selectedDate: string, activeDay: Option<DayOfWeek>,
                 f: Filters, matchesSearch: Schedule -> bool) {
    DateLayer(useDateFilter, s, selectedDate, activeDay) && FiltersMatch(f, s) && matchesSearch(s)
  }

  /** `a` does not start after `b`. */
  predicate StartsNoLater(a: Schedule, b: Schedule) {
    !LexLess(b.startTime, a.startTime)
  }

  predicate SortedByStart(s: seq<Schedule>) {
    forall i, j :: 0 <= i < j < |s| ==> StartsNoLater(s[i], s[j])
  }

  predicate AdjacentSorted(s: seq<Schedule>) {
    forall i :: 0 <= i < |s| - 1 ==> StartsNoLater(s[i], s[i + 1])
  }

  /** Puts `x` before the first entry that does not start earlier than it. */
  function InsertByStart(x: Schedule, t: seq<Schedule>): (r: seq<Schedule>)
    ensures multiset(r) == multiset(t) + multiset{x}
    ensures |r| == |t| + 1 && (r[0] == x || (|t| > 0 && r[0] == t[0]))
  {
    if |t| == 0 || !LexLess(t[0].startTime, x.startTime) then [x] + t
    else
      assert t == [t[0]] + t[1..];
      [t[0]] + InsertByStart(x, t[1..])
  }

  /** Inserting into a sorted list keeps it sorted. */
  lemma {:induction false} InsertSorted(x: Schedule, t: seq<Schedule>)
    requires AdjacentSorted(t)
    ensures AdjacentSorted(InsertByStart(x, t))
  {
    if |t| == 0 {
    } else if !LexLess(t[0].startTime, x.startTime) {
      StartsNoLaterFromNotLess(x, t[0]);
    } else {
      InsertSorted(x, t[1..]);
      LexLessAsymmetric(t[0].startTime, x.startTime);
      assert StartsNoLater(t[0], x);
      var rest := InsertByStart(x, t[1..]);
      assert InsertByStart(x, t) == [t[0]] + rest;
      if |t| > 1 {
        assert StartsNoLater(t[0], t[1]);
      }
    }
  }

  lemma StartsNoLaterFromNotLess(x: Schedule, y: Schedule)
    requires !LexLess(y.startTime, x.startTime)
    ensures StartsNoLater(x, y)
  {
  }

  /** `.sort((a, b) => a.startTime.localeCompare(b.startTime))`, stable as
      Array.prototype.sort is: entries that start at the same time keep their order. */
  function SortByStart(s: seq<Schedule>): (r: seq<Schedule>)
    ensures multiset(r) == multiset(s)
  {
    if |s| == 0 then []
    else
      assert s == [s[0]] + s[1..];
      InsertByStart(s[0], SortByStart(s[1..]))
  }

  lemma {:induction false} SortSorted(s: seq<Schedule>)
    ensures SortedByStart(SortByStart(s))
  {
    SortAdjacent(s);
    AdjacentToSorted(SortByStart(s));
  }

  lemma {:induction false} SortAdjacent(s: seq<Schedule>)
    ensures AdjacentSorted(SortByStart(s))
  {
    if |s| > 0 {
      SortAdjacent(s[1..]);
      InsertSorted(s[0], SortByStart(s[1..]));
    }
  }

  /** "Does not start later" is transitive, so neighbour order gives the whole order. */
  lemma {:induction false} AdjacentToSorted(s: seq<Schedule>)
    requires AdjacentSorted(s)
    ensures SortedByStart(s)
  {
    if |s| > 1 {
      AdjacentToSorted(s[1..]);
      forall j | 1 <= j < |s|
        ensures StartsNoLater(s[0], s[j])
      {
        if j > 1 {
          assert StartsNoLater(s[1..][0], s[1..][j - 1]);
          NoLaterTransitive(s[0], s[1], s[j]);
        }
      }
    }
  }

  lemma NoLaterTransitive(a: Schedule, b: Schedule, c: Schedule)
    requires StartsNoLater(a, b) && StartsNoLater(b, c)
    ensures StartsNoLater(a, c)
  {
    LexLessTotal(a.startTime, b.startTime);
    LexLessTotal(b.startTime, c.startTime);
    LexLessTotal(a.startTime, c.startTime);
    if LexLess(c.startTime, a.startTime) {
      if a.startTime == b.startTime {
      } else if b.startTime == c.startTime {
      } else {
        LexLessTransitive(a.startTime, b.startTime, c.startTime);
        LexLessAsymmetric(a.startTime, c.startTime);
      }
    }
  }

  /** The entries of a list that start at time `k`, in list order. */
  function WithStart(k: string, s: seq<Schedule>): seq<Schedule> {
    if |s| == 0 then [] else (if s[0].startTime == k then [s[0]] else []) + WithStart(k, s[1..])
  }

  lemma {:induction false} WithStartConcat(k: string, a: seq<Schedule>, b: seq<Schedule>)
    ensures WithStart(k, a + b) == WithStart(k, a) + WithStart(k, b)
  {
    if |a| > 0 {
      assert (a + b)[1..] == a[1..] + b;
      WithStartConcat(k, a[1..], b);
    } else {
      assert a + b == b;
    }
  }

  lemma {:induction false} InsertKeepsTies(k: string, x: Schedule, t: seq<Schedule>)
    ensures WithStart(k, InsertByStart(x, t)) == (if x.startTime == k then [x] else []) + WithStart(k, t)
  {
    if |t| == 0 || !LexLess(t[0].startTime, x.startTime) {
      WithStartConcat(k, [x], t);
    } else {
      InsertKeepsTies(k, x, t[1..]);
      LexLessIrreflexive(x.startTime);
      TiesPastEarlier(k, t[0], x, InsertByStart(x, t[1..]), t[1..]);
      assert t == [t[0]] + t[1..];
    }
  }

  /** An entry that does not start with `x` can be passed over without changing the ties. */
  lemma TiesPastEarlier(k: string, a: Schedule, x: Schedule, r: seq<Schedule>, u: seq<Schedule>)
    requires a.startTime != x.startTime
    requires WithStart(k, r) == (if x.startTime == k then [x] else []) + WithStart(k, u)
    ensures WithStart(k, [a] + r) == (if x.startTime == k then [x] else []) + WithStart(k, [a] + u)
  {
    assert ([a] + r)[1..] == r;
    assert ([a] + u)[1..] == u;
  }

  /** The sort is stable: for every start time, the entries starting then appear in the
      order they had before sorting. */
  lemma {:induction false} SortIsStable(k: string, s: seq<Schedule>)
    ensures WithStart(k, SortByStart(s)) == WithStart(k, s)
  {
    if |s| > 0 {
      SortIsStable(k, s[1..]);
      InsertKeepsTies(k, s[0], SortByStart(s[1..]));
      WithStartConcat(k, [s[0]], s[1..]);
      assert s == [s[0]] + s[1..];
    }
  }

  /** filteredSchedules: the filter callback, then the sort by start time. */
  function FilteredSchedules(merged: seq<Schedule>, useDateFilter: bool, selectedDate: string,
                             activeDay: Option<DayOfWeek>, f: Filters, matchesSearch: Schedule -> bool): (r: seq<Schedule>)
    ensures |r| <= |merged|
    ensures SortedByStart(r)
  {
    var kept := Filter(s => Keep(s, useDateFilter, selectedDate, activeDay, f, matchesSearch), merged);
    SortSorted(kept);
    assert |multiset(SortByStart(kept))| == |multiset(kept)|;
    SortByStart(kept)
  }

  /** The shown entries are exactly the merged entries that pass the date layer, every
      non-empty drop-down and the search, each as often as in the merged list, ordered
      by start time. */
  lemma FilteredSpec(merged: seq<Schedule>, useDateFilter: bool, selectedDate: string,
                     activeDay: Option<DayOfWeek>, f: Filters, matchesSearch: Schedule -> bool)
    ensures forall s :: s in FilteredSchedules(merged, useDateFilter, selectedDate, activeDay, f, matchesSearch) <==>
      s in merged && DateLayer(useDateFilter, s, selectedDate, activeDay) && FiltersMatch(f, s) && matchesSearch(s)
    ensures SortedByStart(FilteredSchedules(merged, useDateFilter, selectedDate, activeDay, f, matchesSearch))
  {
    var p := s => Keep(s, useDateFilter, selectedDate, activeDay, f, matchesSearch);
    var kept := Filter(p, merged);
    var r := SortByStart(kept);
    forall s
      ensures s in r <==> s in merged && p(s)
    {
      SameMembers(r, kept, s);
      FilterMembers(p, merged, s);
    }
    SortSorted(kept);
  }

  lemma SameMembers(a: seq<Schedule>, b: seq<Schedule>, x: Schedule)
    requires multiset(a) == multiset(b)
    ensures x in a <==> x in b
  {
    assert x in a <==> x in multiset(a);
    assert x in b <==> x in multiset(b);
  }

  /** With the date filter off and every drop-down empty, only the search decides. */
  lemma NoFiltersKeepsAll(merged: seq<Schedule>, selectedDate: string, activeDay: Option<DayOfWeek>)
    ensures multiset(FilteredSchedules(merged, false, selectedDate, activeDay, Filters("", "", "", ""), _ => true)) == multiset(merged)
  {
    var p := (s: Schedule) => Keep(s, false, selectedDate, activeDay, Filters("", "", "", ""), _ => true);
    FilterKeepsAll(p, merged);
  }

  // ---------------------------------------------------------------- free rooms

  /** `a < b` on numbers: false when either is NaN. */
  predicate NumLess(a: Number, b: Number) {
    a.Finite? && b.Finite? && a.value < b.value
  }

  /** `startMin + duration`. */
  function Plus(a: Number, d: nat): Number {
    if a.Finite? then Finite(a.value + d as real) else NaN
  }

  /** A schedule of the active weekday whose minutes overlap [startMin, endMin). The date
      of the schedule is not looked at. */
  predicate ScheduleOccupies(s: Schedule, day: DayOfWeek, startMin: Number, endMin: Number) {
    s.day == DayName(day) && NumLess(startMin, GetMinutes(s.endTime)) && NumLess(GetMinutes(s.startTime), endMin)
  }

  /** An approved booking on the selected date whose minutes overlap [startMin, endMin). */
  predicate BookingOccupies(b: Booking, date: string, startMin: Number, endMin: Number) {
    b.status == Approved && b.date == date
    && NumLess(startMin, GetMinutes(b.endTime)) && NumLess(GetMinutes(b.startTime), endMin)
  }

  /** The room ids a loop over `xs` adds to `occupiedRoomIds`: the room of every element
      that occupies the requested slot. */
  function OccupiedIds<T>(xs: seq<T>, occupies: T -> bool, roomOf: T -> string): set<string> {
    if |xs| == 0 then {}
    else OccupiedIds(xs[..|xs| - 1], occupies, roomOf)
         + (if occupies(xs[|xs| - 1]) then {roomOf(xs[|xs| - 1])} else {})
  }

  lemma {:induction false} OccupiedIdsMembers<T>(xs: seq<T>, occupies: T -> bool, roomOf: T -> string, id: string)
    ensures id in OccupiedIds(xs, occupies, roomOf) <==> exists x :: x in xs && roomOf(x) == id && occupies(x)
  {
    if |xs| > 0 {
      var init := xs[..|xs| - 1];
      OccupiedIdsMembers(init, occupies, roomOf, id);
      assert xs == init + [xs[|xs| - 1]];
      assert forall x :: x in xs <==> x in init || x == xs[|xs| - 1];
    }
  }

  /** The same, with the occupancy test replaced by an equivalent one. */
  lemma OccupiedIdsBy<T>(xs: seq<T>, occupies: T -> bool, roomOf: T -> string, id: string, spec: T -> bool)
    requires forall x :: x in xs ==> (occupies(x) <==> spec(x))
    ensures id in OccupiedIds(xs, occupies, roomOf) <==> exists x :: x in xs && roomOf(x) == id && spec(x)
  {
    OccupiedIdsMembers(xs, occupies, roomOf, id);
  }

  lemma OccupiedIdsStep<T>(xs: seq<T>, i: nat, occupies: T -> bool, roomOf: T -> string)
    requires i < |xs|
    ensures OccupiedIds(xs[..i + 1], occupies, roomOf)
            == OccupiedIds(xs[..i], occupies, roomOf) + if occupies(xs[i]) then {roomOf(xs[i])} else {}
  {
    assert xs[..i + 1][..i] == xs[..i];
  }

  function ScheduleRooms(ss: seq<Schedule>, day: DayOfWeek, startMin: Number, endMin: Number): set<string> {
    OccupiedIds(ss, s => ScheduleOccupies(s, day, startMin, endMin), (s: Schedule) => s.roomId)
  }

  function BookingRooms(bs: seq<Booking>, date: string, startMin: Number, endMin: Number): set<string> {
    OccupiedIds(bs, b => BookingOccupies(b, date, startMin, endMin), (b: Booking) => b.roomId)
  }

  /** The rooms availableRooms returns, as a function of its inputs. */
  function FreeRooms(rooms: seq<Room>, schedules: seq<Schedule>, bookings: seq<Booking>,
                     selectedDate: string, selectedTime: string, duration: nat): seq<Room> {
    match DayFromDate(selectedDate)
    case None => []
    case Some(day) =>
      var startMin := GetMinutes(selectedTime);
      var endMin := Plus(startMin, duration);
      var occupied := ScheduleRooms(schedules, day, startMin, endMin) + BookingRooms(bookings, selectedDate, startMin, endMin);
      Filter((r: Room) => r.id !in occupied, rooms)
  }

  /** availableRooms: no rooms without a weekday; otherwise collect the occupied room ids
      from the schedules and then from the bookings, and keep the rooms not among them. */
  method AvailableRooms(rooms: seq<Room>, schedules: seq<Schedule>, bookings: seq<Booking>,
                        selectedDate: string, selectedTime: string, duration: nat) returns (result: seq<Room>)
    ensures result == FreeRooms(rooms, schedules, bookings, selectedDate, selectedTime, duration)
  {
    var activeDay := DayFromDate(selectedDate);
    if activeDay.None? {
      return [];
    }
    var day := activeDay.value;
    var startMin := GetMinutes(selectedTime);
    var endMin := Plus(startMin, duration);
    var fromSchedules := ScheduleRoomIds(schedules, day, startMin, endMin);
    var occupied := BookingRoomIds(bookings, selectedDate, startMin, endMin, fromSchedules);
    result := Filter((r: Room) => r.id !in occupied, rooms);
  }

  /** The loop over the schedules: the room of each one of the weekday that overlaps. */
  method ScheduleRoomIds(schedules: seq<Schedule>, day: DayOfWeek, startMin: Number, endMin: Number)
    returns (occupiedRoomIds: set<string>)
    ensures occupiedRoomIds == ScheduleRooms(schedules, day, startMin, endMin)
  {
    occupiedRoomIds := {};
    ghost var bySchedule := s => ScheduleOccupies(s, day, startMin, endMin);
    var i := 0;
    while i < |schedules|
      invariant 0 <= i <= |schedules|
      invariant occupiedRoomIds == OccupiedIds(schedules[..i], bySchedule, (s: Schedule) => s.roomId)
    {
      var s := schedules[i];
      OccupiedIdsStep(schedules, i, bySchedule, (s: Schedule) => s.roomId);
      if s.day == DayName(day) {
        var sStart := GetMinutes(s.startTime);
        var sEnd := GetMinutes(s.endTime);
        if NumLess(startMin, sEnd) && NumLess(sStart, endMin) {
          occupiedRoomIds := occupiedRoomIds + {s.roomId};
        }
      }
      i := i + 1;
    }
    assert schedules[..i] == schedules;
  }

  /** The loop over the bookings, adding to the ids found so far: the room of each approved
      booking of the date that overlaps. */
  method BookingRoomIds(bookings: seq<Booking>, date: string, startMin: Number, endMin: Number,
                        fromSchedules: set<string>) returns (occupiedRoomIds: set<string>)
    ensures occupiedRoomIds == fromSchedules + BookingRooms(bookings, date, startMin, endMin)
  {
    occupiedRoomIds := fromSchedules;
    ghost var byBooking := b => BookingOccupies(b, date, startMin, endMin);
    var j := 0;
    while j < |bookings|
      invariant 0 <= j <= |bookings|
      invariant occupiedRoomIds == fromSchedules + OccupiedIds(bookings[..j], byBooking, (b: Booking) => b.roomId)
    {
      var b := bookings[j];
      OccupiedIdsStep(bookings, j, byBooking, (b: Booking) => b.roomId);
      if b.status == Approved && b.date == date {
        var bStart := GetMinutes(b.startTime);
        var bEnd := GetMinutes(b.endTime);
        if NumLess(startMin, bEnd) && NumLess(bStart, endMin) {
          occupiedRoomIds := occupiedRoomIds + {b.roomId};
        }
      }
      j := j + 1;
    }
    assert bookings[..j] == bookings;
  }

  /** On clock times, a room is offered exactly when it is one of the rooms, the date is a
      teaching day, no schedule of that room on that weekday overlaps the requested minutes
      (whatever its date), and no approved booking of that room on that date overlaps
      them. The minutes do not wrap at midnight. The room order is kept. */
  lemma FreeRoomsSpec(rooms: seq<Room>, schedules: seq<Schedule>, bookings: seq<Booking>,
                      selectedDate: string, selectedTime: string, duration: nat, room: Room)
    requires IsClockTime(selectedTime)
    requires forall s :: s in schedules ==> IsClockTime(s.startTime) && IsClockTime(s.endTime)
    requires forall b :: b in bookings ==> IsClockTime(b.startTime) && IsClockTime(b.endTime)
    ensures IsSubsequence(FreeRooms(rooms, schedules, bookings, selectedDate, selectedTime, duration), rooms)
    ensures room in FreeRooms(rooms, schedules, bookings, selectedDate, selectedTime, duration) <==>
      room in rooms && DayFromDate(selectedDate).Some?
      && (forall s :: s in schedules && s.roomId == room.id && s.day == DayName(DayFromDate(selectedDate).value)
            ==> !Overlaps(ClockMinutes(s.startTime), ClockMinutes(s.endTime),
                          ClockMinutes(selectedTime), ClockMinutes(selectedTime) + duration))
      && (forall b :: b in bookings && b.roomId == room.id && b.status == Approved && b.date == selectedDate
            ==> !Overlaps(ClockMinutes(b.startTime), ClockMinutes(b.endTime),
                          ClockMinutes(selectedTime), ClockMinutes(selectedTime) + duration))
  {
    match DayFromDate(selectedDate)
    case None =>
    case Some(day) =>
      var startMin := GetMinutes(selectedTime);
      var endMin := Plus(startMin, duration);
      var occupied := ScheduleRooms(schedules, day, startMin, endMin) + BookingRooms(bookings, selectedDate, startMin, endMin);
      var p := (r: Room) => r.id !in occupied;
      FilterIsSubsequence(p, rooms);
      FilterMembers(p, rooms, room);
      ScheduleRoomsClock(schedules, day, selectedTime, duration, room.id);
      BookingRoomsClock(bookings, selectedDate, selectedTime, duration, room.id);
  }

  /** On clock times a schedule occupies the slot when its weekday matches and its minutes
      overlap the requested ones. */
  lemma ScheduleOccupiesClock(s: Schedule, day: DayOfWeek, t: string, duration: nat)
    requires IsClockTime(t) && IsClockTime(s.startTime) && IsClockTime(s.endTime)
    ensures ScheduleOccupies(s, day, GetMinutes(t), Plus(GetMinutes(t), duration)) <==>
      s.day == DayName(day) && Overlaps(ClockMinutes(s.startTime), ClockMinutes(s.endTime), ClockMinutes(t), ClockMinutes(t) + duration)
  {
    GetMinutesOfClock(t);
    GetMinutesOfClock(s.startTime);
    GetMinutesOfClock(s.endTime);
  }

  lemma BookingOccupiesClock(b: Booking, date: string, t: string, duration: nat)
    requires IsClockTime(t) && IsClockTime(b.startTime) && IsClockTime(b.endTime)
    ensures BookingOccupies(b, date, GetMinutes(t), Plus(GetMinutes(t), duration)) <==>
      b.status == Approved && b.date == date
      && Overlaps(ClockMinutes(b.startTime), ClockMinutes(b.endTime), ClockMinutes(t), ClockMinutes(t) + duration)
  {
    GetMinutesOfClock(t);
    GetMinutesOfClock(b.startTime);
    GetMinutesOfClock(b.endTime);
  }

  lemma ScheduleRoomsClock(schedules: seq<Schedule>, day: DayOfWeek, t: string, duration: nat, id: string)
    requires IsClockTime(t)
    requires forall s :: s in schedules ==> IsClockTime(s.startTime) && IsClockTime(s.endTime)
    ensures id in ScheduleRooms(schedules, day, GetMinutes(t), Plus(GetMinutes(t), duration)) <==>
      exists s :: s in schedules && s.roomId == id && s.day == DayName(day)
        && Overlaps(ClockMinutes(s.startTime), ClockMinutes(s.endTime), ClockMinutes(t), ClockMinutes(t) + duration)
  {
    var startMin := GetMinutes(t);
    var endMin := Plus(startMin, duration);
    var occupies := s => ScheduleOccupies(s, day, startMin, endMin);
    var spec := (s: Schedule) => IsClockTime(s.startTime) && IsClockTime(s.endTime) && s.day == DayName(day)
      && Overlaps(ClockMinutes(s.startTime), ClockMinutes(s.endTime), ClockMinutes(t), ClockMinutes(t) + duration);
    forall s | s in schedules
      ensures occupies(s) <==> spec(s)
    {
      ScheduleOccupiesClock(s, day, t, duration);
    }
    OccupiedIdsBy(schedules, occupies, (s: Schedule) => s.roomId, id, spec);
  }

  lemma BookingRoomsClock(bookings: seq<Booking>, date: string, t: string, duration: nat, id: string)
    requires IsClockTime(t)
    requires forall b :: b in bookings ==> IsClockTime(b.startTime) && IsClockTime(b.endTime)
    ensures id in BookingRooms(bookings, date, GetMinutes(t), Plus(GetMinutes(t), duration)) <==>
      exists b :: b in bookings && b.roomId == id && b.status == Approved && b.date == date
        && Overlaps(ClockMinutes(b.startTime), ClockMinutes(b.endTime), ClockMinutes(t), ClockMinutes(t) + duration)
  {
    var startMin := GetMinutes(t);
    var endMin := Plus(startMin, duration);
    var occupies := b => BookingOccupies(b, date, startMin, endMin);
    var spec := (b: Booking) => IsClockTime(b.startTime) && IsClockTime(b.endTime) && b.status == Approved
      && b.date == date
      && Overlaps(ClockMinutes(b.startTime), ClockMinutes(b.endTime), ClockMinutes(t), ClockMinutes(t) + duration);
    forall b | b in bookings
      ensures occupies(b) <==> spec(b)
    {
      BookingOccupiesClock(b, date, t, duration);
    }
    OccupiedIdsBy(bookings, occupies, (b: Booking) => b.roomId, id, spec);
  }

  /** A cleared time field reads as NaN, every comparison with NaN is false, and so every
      room is offered on a teaching day. */
  lemma EmptyTimeFreesAll(rooms: seq<Room>, schedules: seq<Schedule>, bookings: seq<Booking>,
                          selectedDate: string, duration: nat)
    requires DayFromDate(selectedDate).Some?
    ensures FreeRooms(rooms, schedules, bookings, selectedDate, "", duration) == rooms
  {
    var day := DayFromDate(selectedDate).value;
    assert Split("", ':') == [""];
    assert MapNumber([""]) == [StringToNumber("")];
    assert GetMinutes("") == NaN;
    var e := Plus(NaN, duration);
    forall id
      ensures id !in ScheduleRooms(schedules, day, NaN, e) && id !in BookingRooms(bookings, selectedDate, NaN, e)
    {
      OccupiedIdsMembers(schedules, s => ScheduleOccupies(s, day, NaN, e), (s: Schedule) => s.roomId, id);
      OccupiedIdsMembers(bookings, b => BookingOccupies(b, selectedDate, NaN, e), (b: Booking) => b.roomId, id);
    }
    var occupied := ScheduleRooms(schedules, day, NaN, e) + BookingRooms(bookings, selectedDate, NaN, e);
    assert occupied == {};
    FilterKeepsAll((r: Room) => r.id !in occupied, rooms);
  }

  // ---------------------------------------------------------------- admin buttons

  /** The booking table's buttons: approve, reject, back to pending, each shown unless the
      booking already has that status. */
  function BookingActions(current: BookingStatus): (r: seq<BookingStatus>)
    ensures forall st :: st in r <==> st != current
    ensures |r| == 2
  {
    (if current != Approved then [Approved] else [])
    + (if current != Rejected then [Rejected] else [])
    + (if current != Pending then [Pending] else [])
  }

  /** The borrowing table's buttons: approve or reject a pending request, mark an approved
      loan as returned; none for rejected or returned loans. */
  function BorrowActions(current: BorrowStatus): seq<BorrowStatus> {
    match current
    case BorrowPending => [BorrowApproved, BorrowRejected]
    case BorrowApproved => [Returned]
    case BorrowRejected => []
    case Returned => []
  }

  /** How far a loan has gone: requested, lent, settled. */
  function LoanStage(s: BorrowStatus): nat {
    match s
    case BorrowPending => 0
    case BorrowApproved => 1
    case BorrowRejected => 2
    case Returned => 2
  }

  /** Every borrowing button moves the loan forward; settled loans offer nothing, and a
      loan is returned only after it was approved. */
  lemma BorrowActionsForward(current: BorrowStatus, next: BorrowStatus)
    ensures next in BorrowActions(current) ==> LoanStage(next) > LoanStage(current)
    ensures LoanStage(current) == 2 ==> BorrowActions(current) == []
    ensures Returned in BorrowActions(current) <==> current == BorrowApproved
    ensures BorrowRejected in BorrowActions(current) <==> current == BorrowPending
  {
  }

  // ---------------------------------------------------------------- settings

  /** handleSave's check: a typed password must match its confirmation; an empty password
      field is not checked at all. */
  function SettingsError(password: string, confirm: string): (r: Option<string>)
    ensures r.None? <==> (password == "" || password == confirm)
  {
    if password != "" && password != confirm then Some("Konfirmasi password tidak sesuai.") else None
  }

  /** The update handleSave sends: the full name, and the password only when one was typed
      (undefined otherwise). */
  function SettingsPatch(fullName: string, password: string): (patch: map<string, JsValue>)
    ensures patch.Keys == {"fullName", "password"}
    ensures patch["password"] == Undefined <==> password == ""
  {
    map["fullName" := Str(fullName), "password" := if password != "" then Str(password) else Undefined]
  }
}
