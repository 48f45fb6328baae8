/** The records the schedule views work on (rooms, schedules, room bookings, request
    statuses) and the merge of approved bookings into the list of schedules, which both
    revisions of the views compute the same way. */
module Entities {
  import opened Js
  import opened Calendar

  datatype BookingStatus = Pending | Approved | Rejected

  datatype BorrowStatus = BorrowPending | BorrowApproved | BorrowRejected | Returned

  datatype Room = Room(id: string, name: string)

  datatype Booking = Booking(
    id: string, userId: string, roomId: string, date: string,
    startTime: string, endTime: string, purpose: string, status: BookingStatus)

  /** A schedule entry. `day` is the stored day name (data imported from a timetable may
      hold any text there); the optional fields are None where the record has no such
      property. */
  datatype Schedule = Schedule(
    id: string, courseId: string, lecturerId: string, roomId: string, day: string,
    startTime: string, endTime: string, studyProgram: string, classGroup: string,
    semester: int, jpm: int,
    weeks: Option<seq<int>>, date: Option<string>, isBooking: Option<bool>,
    bookingPurpose: Option<string>, bookingUser: Option<string>)

  /** `s.date` is truthy: present and not empty. */
  predicate HasDate(s: Schedule) {
    s.date.Some? && s.date.value != ""
  }

  /** `s.date === x`. */
  predicate DateIs(s: Schedule, x: string) {
    s.date == Some(x)
  }

  /** `s.day === activeDay`, where a missing active day is null and matches no text. */
  predicate DayIs(s: Schedule, activeDay: Option<DayOfWeek>) {
    activeDay.Some? && s.day == DayName(activeDay.value)
  }

  /** A drop-down filter: the empty choice lets every value through, any other choice
      only itself. */
  predicate FieldMatch(filter: string, value: string) {
    filter == "" || value == filter
  }

  /** `s.weeks ? s.weeks.includes(week) : true` (an array is truthy even when empty). */
  predicate ActiveInWeek(s: Schedule, week: int) {
    s.weeks.None? || week in s.weeks.value
  }

  /** `Array.from({length: hi - lo + 1}, (_, i) => lo + i)`: a negative length gives an
      empty array. */
  function WeekRange(lo: int, hi: int): (r: seq<int>)
    ensures |r| == if hi < lo then 0 else hi - lo + 1
    ensures forall i :: 0 <= i < |r| ==> r[i] == lo + i
    decreases hi - lo
  {
    if hi < lo then [] else WeekRange(lo, hi - 1) + [hi]
  }

  /** The week range holds exactly the weeks from `lo` to `hi`, in ascending order. */
  lemma WeekRangeMembers(lo: int, hi: int, w: int)
    ensures w in WeekRange(lo, hi) <==> lo <= w <= hi
  {
    var r := WeekRange(lo, hi);
    if lo <= w <= hi {
      assert r[w - lo] == w;
    }
  }

  lemma WeekRangeAscending(lo: int, hi: int)
    ensures forall i, j :: 0 <= i < j < |WeekRange(lo, hi)| ==> WeekRange(lo, hi)[i] < WeekRange(lo, hi)[j]
  {
  }

  /** Weeks 1 to 16, the semester a booking entry is visible in. */
  const FirstWeek: int := 1
  const LastWeek: int := 16
  const AllWeeks: seq<int> := WeekRange(FirstWeek, LastWeek)

  predicate IsApproved(b: Booking) {
    b.status == Approved
  }

  /** The schedule entry an approved booking becomes. */
  function BookingEntry(b: Booking): (s: Schedule)
    ensures s.id == "booking-" + b.id && s.roomId == b.roomId && DateIs(s, b.date)
    ensures s.startTime == b.startTime && s.endTime == b.endTime
    ensures s.isBooking == Some(true) && s.bookingPurpose == Some(b.purpose)
  {
    var day := match DayFromDate(b.date) case Some(d) => d case None => Senin;
    Schedule("booking-" + b.id, "RESERVATION", "PIC", b.roomId, DayName(day),
             b.startTime, b.endTime, "Public Reservation", "EXT-REQ", 0, 0,
             Some(AllWeeks), Some(b.date), Some(true), Some(b.purpose), Some("User ID: " + b.userId))
  }

  /** A booking entry carries the weekday its date falls on, or Senin when the date is a
      weekend or not a date, and it is active in every week of the semester. */
  lemma BookingEntryDay(b: Booking)
    ensures DayFromDate(b.date).Some? ==> BookingEntry(b).day == DayName(DayFromDate(b.date).value)
    ensures DayFromDate(b.date).None? ==> BookingEntry(b).day == "Senin"
    ensures forall w :: 1 <= w <= 16 ==> ActiveInWeek(BookingEntry(b), w)
  {
    forall w | 1 <= w <= 16
      ensures ActiveInWeek(BookingEntry(b), w)
    {
      WeekRangeMembers(1, 16, w);
    }
  }

  /** `{ ...s, isBooking: false }`. */
  function Regular(s: Schedule): Schedule {
    s.(isBooking := Some(false))
  }

  function MapRegular(ss: seq<Schedule>): (r: seq<Schedule>)
    ensures |r| == |ss|
    ensures forall i :: 0 <= i < |ss| ==> r[i] == Regular(ss[i])
  {
    if |ss| == 0 then [] else [Regular(ss[0])] + MapRegular(ss[1..])
  }

  function MapBookingEntry(bs: seq<Booking>): (r: seq<Schedule>)
    ensures |r| == |bs|
    ensures forall i :: 0 <= i < |bs| ==> r[i] == BookingEntry(bs[i])
  {
    if |bs| == 0 then [] else [BookingEntry(bs[0])] + MapBookingEntry(bs[1..])
  }

  /** mergedSchedules: the regular schedules marked as not a booking, followed by one
      entry per approved booking. */
  function Merge(schedules: seq<Schedule>, bookings: seq<Booking>): (m: seq<Schedule>)
    ensures |m| == |schedules| + Count(IsApproved, bookings)
    ensures m[..|schedules|] == MapRegular(schedules)
  {
    FilterLength(IsApproved, bookings);
    MapRegular(schedules) + MapBookingEntry(Filter(IsApproved, bookings))
  }

  /** Every schedule is kept, in place and in order, with only its booking flag set to false;
      and exactly one entry follows for each approved booking. */
  lemma MergeRegularPart(schedules: seq<Schedule>, bookings: seq<Booking>)
    ensures |Merge(schedules, bookings)| == |schedules| + Count(IsApproved, bookings)
    ensures forall i :: 0 <= i < |schedules| ==>
      Merge(schedules, bookings)[i] == schedules[i].(isBooking := Some(false))
  {
    FilterLength(IsApproved, bookings);
  }

  /** Every entry after the regular schedules comes from an approved booking, and every
      approved booking contributes its entry. Pending and rejected bookings never appear. */
  lemma MergeBookingPart(schedules: seq<Schedule>, bookings: seq<Booking>)
    ensures forall i :: |schedules| <= i < |Merge(schedules, bookings)| ==>
      exists b :: b in bookings && b.status == Approved && Merge(schedules, bookings)[i] == BookingEntry(b)
    ensures forall j :: 0 <= j < |bookings| && bookings[j].status == Approved ==>
      BookingEntry(bookings[j]) in Merge(schedules, bookings)[|schedules|..]
    ensures forall i :: |schedules| <= i < |Merge(schedules, bookings)| ==>
      Merge(schedules, bookings)[i].isBooking == Some(true)
  {
    var m := Merge(schedules, bookings);
    var approved := Filter(IsApproved, bookings);
    assert m[|schedules|..] == MapBookingEntry(approved);
    forall i | |schedules| <= i < |m|
      ensures exists b :: b in bookings && b.status == Approved && m[i] == BookingEntry(b)
    {
      var b := approved[i - |schedules|];
      assert b in bookings && IsApproved(b);
    }
    forall j | 0 <= j < |bookings| && bookings[j].status == Approved
      ensures BookingEntry(bookings[j]) in m[|schedules|..]
    {
      assert IsApproved(bookings[j]);
      var k :| 0 <= k < |approved| && approved[k] == bookings[j];
      assert m[|schedules|..][k] == BookingEntry(bookings[j]);
    }
  }

  /** Merging only regular schedules and no approved booking changes nothing but the flag. */
  lemma MergeWithoutApproved(schedules: seq<Schedule>, bookings: seq<Booking>)
    requires forall j :: 0 <= j < |bookings| ==> bookings[j].status != Approved
    ensures Merge(schedules, bookings) == MapRegular(schedules)
  {
    FilterLength(IsApproved, bookings);
    NoneApproved(bookings);
  }

  lemma {:induction false} NoneApproved(bookings: seq<Booking>)
    requires forall j :: 0 <= j < |bookings| ==> bookings[j].status != Approved
    ensures Count(IsApproved, bookings) == 0
  {
    if |bookings| > 0 {
      NoneApproved(bookings[1..]);
    }
  }
}
