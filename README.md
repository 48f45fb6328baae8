# Campus timetable and room booking: a Dafny model

The system is a web application for a campus. It shows the lecture timetable, lets users
book rooms and borrow items, and gives administrators a way to approve or reject those
requests. This project models the logic of the system in Dafny and proves properties of
that model:

- **Day resolver.** Turning a `YYYY-MM-DD` date into a working-day name (Senin to Jumat). It
  is built on a proleptic Gregorian calendar (`Calendar`) and on `HH:MM` clock arithmetic
  (`Clock`).
- **Entries and the merge.** Schedule and booking entries, and "merged schedules": the
  regular timetable followed by one entry per approved booking (`Entities`).
- **The two revisions of the web client.**
  - The root `App.tsx` (`RootScheduleView`): daily and weekly filtering, the Monday-to-Friday
    window, conflict flagging, room availability with an end time that wraps at midnight,
    and the form checks.
  - The newer `frontend/src/App.tsx` (`FrontendScheduleView`): date/weekday filtering, a
    stable sort by start time, room availability by minutes, the admin buttons and the
    settings form.
- **The two in-browser mock stores.**
  - `frontend/src/api2.ts` (`LocalStore`): one database object with eight tables. Ids are
    compared as text, and users log in with a stored password.
  - The older `api.ts` (`LegacyStore`): seven tables, plus a separate user list. Ids are
    compared strictly, and the password is the username.

  Each store is a Dafny `class` whose methods update its fields.
- **The server's schedule route helpers** (`SchedulePayload`): number conversion, lecturer
  ids, required-field validation, paging and the row written for a new schedule.
- **The two CSV scripts.**
  - `importScheduleMapped.js` (`CsvRow`, `CsvImport`): rows are cleaned, matched against
    course, lecturer and room lookups, and either accepted or reported as unresolved.
  - `convertSchedule.js` (`CsvConvert`): the same rows with every id set to 0.

`Js` models the JavaScript semantics the code relies on: values, truthiness, `trim`,
`split`, `Number`, `parseInt`, string comparison, `filter`, `Set` de-duplication. `Records`
models JSON records, object spread and id comparison.

Where the prose description of the system and the code differ, the model follows the code:

- **Availability.** The description gives one availability rule: non-rejected bookings,
  end time wrapping at 24 hours. The root view follows it. The newer client does not: it
  counts only approved bookings, matches schedules by weekday only, and compares minutes
  without wrapping. Both are modelled as written.
- **Week filter.** The newer client's date filter does not check the week ranges.

## Model

| member | source | states |
|---|---|---|
| Calendar.DayFromName | frontend/src/types.ts:2-8 | a found day carries exactly that name; no name outside the five working days is found |
| Calendar.DayNumberOrder | App.tsx:339-342 | day numbers order valid dates as (year, month, day) does, and are equal only for the same date |
| Calendar.WeekdayIndex | frontend/src/types.ts:14-15 | `getDay()` lies in 0..6 |
| Calendar.AddDays | App.tsx:1038-1040 | moving a valid date by k days gives a valid date exactly k day numbers on |
| Calendar.WeekLater | frontend/src/types.ts:14-15 | a date seven days later falls on the same weekday |
| Calendar.SetDate | App.tsx:1038-1040 | `setDate(n)` gives the valid date n - day days after the current one, rolling over months and years |
| Calendar.ParseIsoDate | frontend/src/types.ts:12-13 | a parsed date is a real calendar date with a four-digit year |
| Calendar.ParseFormat | App.tsx:1042-1043 | parsing a formatted date (years 0..9999) gives the date back |
| Calendar.FormatParse | App.tsx:1042-1043 | formatting a parsed text gives the text back |
| Calendar.IsoOrder | App.tsx:1052-1058 | `<` on `YYYY-MM-DD` texts is chronological order |
| Calendar.DayOfDate | frontend/src/types.ts:11-19 | Monday..Friday give Senin..Jumat, Saturday and Sunday give none |
| Calendar.DayFromDate | frontend/src/types.ts:10-20 | text that is not a date gives none; otherwise the day of that date |
| Calendar.DayFromDateWeekly | frontend/src/types.ts:10-20 | dates a week apart resolve to the same day |
| Calendar.DayFromDateWeekend | frontend/src/types.ts:16-19 | a weekend date resolves to no day |
| Calendar.DayFromDateExample | frontend/src/types.ts:10-20 | 2024-03-05 resolves to Selasa |
| Clock.ClockMinutes | frontend/src/App.tsx:442-445 | a clock time is less than 1440 minutes |
| Clock.ClockOrder | App.tsx:1097-1112 | `<` on `HH:MM` texts is minute order, and equal texts are equal minutes |
| Clock.GetMinutes | frontend/src/App.tsx:442-445 | a cleared time field reads as NaN |
| Clock.GetMinutesOfClock | frontend/src/App.tsx:442-445 | getMinutes of a clock time is its minutes since midnight |
| Clock.FormatTime | frontend/src/App.tsx:448-452 | below a day, the formatted text is a clock time with exactly those minutes |
| Clock.FormatClockMinutes | frontend/src/App.tsx:442-452 | formatting the minutes of a clock time gives the same text |
| Clock.GetMinutesOfFormat | frontend/src/App.tsx:442-452 | getMinutes reads a formatted count back, also past 24 hours |
| Clock.FormatTimeIsClock | frontend/src/App.tsx:448-452 | a formatted count is a clock time exactly when it is under 1440 |
| Clock.CheckEnd | App.tsx:1277-1282 | an empty time gives "NaN:NaN"; otherwise a clock time at (start + duration) mod 1440 |
| Clock.CheckEndSameDay | App.tsx:1315-1319 | without crossing midnight the root end time equals the newer client's formatted sum |
| Entities.WeekRange | App.tsx:576 | the range has hi - lo + 1 entries (none if hi < lo), the i-th being lo + i |
| Entities.WeekRangeMembers | App.tsx:573-576 | a week is in the range exactly when lo <= week <= hi |
| Entities.WeekRangeAscending | App.tsx:576 | the range is strictly ascending |
| Entities.BookingEntry | App.tsx:996-1016 | a booking's entry has id "booking-" + id, its room, date, times and purpose, flagged as a booking |
| Entities.BookingEntryDay | App.tsx:996-1016 | the entry's day is the date's weekday or Senin, and it is active in weeks 1 to 16 |
| Entities.Merge | App.tsx:992-1019 | the merge has one entry per schedule, in order and with the flag cleared, followed by one per approved booking |
| Entities.MergeRegularPart | App.tsx:992-1019 | the merge has every schedule in place with isBooking false, plus one entry per approved booking |
| Entities.MergeBookingPart | App.tsx:992-1019 | every later entry comes from an approved booking, and every approved booking appears |
| Entities.MergeWithoutApproved | frontend/src/App.tsx:199-226 | with no approved booking the merge is the schedules with the flag cleared |
| Records.Spread | frontend/src/api2.ts:170-174 | the spread has the keys of both records |
| Records.SpreadGet | frontend/src/api2.ts:170-174 | a key of the later record wins, the others keep the earlier value |
| Records.IdText | frontend/src/api2.ts:170 | `String(x)` of a text is the text |
| Records.IdComparisons | frontend/src/api2.ts:170 | `===` on ids implies text equality and agrees with it on text ids; a numeric id 7 matches "7" only as text; a missing id reads as "undefined" |
| Records.StatusTextsDistinct | frontend/src/types.ts:52-63 | different statuses are stored as different texts |
| FrontendScheduleView.InsertByStart | frontend/src/App.tsx:269 | inserting adds exactly one element (multiset) |
| FrontendScheduleView.SortByStart | frontend/src/App.tsx:269 | the sort is a permutation |
| FrontendScheduleView.SortSorted | frontend/src/App.tsx:269 | the result is ordered by start time |
| FrontendScheduleView.SortIsStable | frontend/src/App.tsx:269 | entries with equal start times keep their relative order |
| FrontendScheduleView.FilteredSchedules | frontend/src/App.tsx:234-270 | the shown list is no longer than the merge and is sorted by start time |
| FrontendScheduleView.FilteredSpec | frontend/src/App.tsx:234-270 | an entry is shown exactly when it is merged and passes the date layer, the drop-down filters and the search; the list is sorted |
| FrontendScheduleView.NoFiltersKeepsAll | frontend/src/App.tsx:237-249 | with no date filter, no drop-down and no search, every merged entry is shown |
| FrontendScheduleView.AvailableRooms | frontend/src/App.tsx:454-487 | the loop returns the free rooms as the reference function gives them |
| FrontendScheduleView.ScheduleRoomIds | frontend/src/App.tsx:464-473 | the schedule loop collects the rooms of the overlapping schedules of the weekday |
| FrontendScheduleView.BookingRoomIds | frontend/src/App.tsx:476-484 | the booking loop adds the rooms of the overlapping approved bookings on the date |
| FrontendScheduleView.OccupiedIdsMembers | frontend/src/App.tsx:464-484 | an id is occupied exactly when some element with that room occupies the slot |
| FrontendScheduleView.FreeRoomsSpec | frontend/src/App.tsx:454-487 | on clock times the result keeps room order, and a room is offered exactly when the date is a working day and no same-weekday schedule or approved same-date booking overlaps the minutes |
| FrontendScheduleView.ScheduleOccupiesClock | frontend/src/App.tsx:464-473 | on clock times a schedule occupies the slot exactly when its day matches and its minutes overlap |
| FrontendScheduleView.BookingOccupiesClock | frontend/src/App.tsx:476-484 | on clock times a booking occupies the slot exactly when it is approved, on the date, and overlapping |
| FrontendScheduleView.ScheduleRoomsClock | frontend/src/App.tsx:464-473 | the schedule rooms collected are those of the clock-overlapping schedules of the weekday |
| FrontendScheduleView.BookingRoomsClock | frontend/src/App.tsx:476-484 | the booking rooms collected are those of the clock-overlapping approved bookings on the date |
| FrontendScheduleView.EmptyTimeFreesAll | frontend/src/App.tsx:454-487 | on a working day a cleared time field offers every room, because NaN overlaps nothing |
| FrontendScheduleView.BookingActions | frontend/src/App.tsx:1588-1611 | the booking buttons are exactly the two statuses other than the current one |
| FrontendScheduleView.BorrowActionsForward | frontend/src/App.tsx:1677-1702 | every borrowing button moves the loan forward; settled loans offer none; "returned" only for lent items, "reject" only for pending ones |
| FrontendScheduleView.SettingsError | frontend/src/App.tsx:950-953 | saving is allowed exactly when the password is empty or equals its confirmation |
| FrontendScheduleView.SettingsPatch | frontend/src/App.tsx:957-960 | the update carries the name and password keys, the password being undefined exactly when none was typed |
| RootScheduleView.FilteredSchedules | App.tsx:1047-1095 | every shown entry is merged and passes the day rule, the drop-downs and the search, and the list is no longer than the merge |
| RootScheduleView.FilteredMembers | App.tsx:1047-1095 | an entry is shown exactly when merged and it passes the daily or weekly rule, the drop-downs and the search; order is kept |
| RootScheduleView.BookingShownOnItsDate | App.tsx:1060-1064 | a booking entry appears in the daily view of its own date |
| RootScheduleView.MondayOf | App.tsx:1034-1045 | the week start is a Monday, at most six days before the date |
| RootScheduleView.WeekDateRange | App.tsx:1034-1045 | text that is not a date gives no window; otherwise the Monday and Friday of its week |
| RootScheduleView.MondayToFriday | App.tsx:1036-1043 | the setDate steps produce the Monday and Friday of the week |
| RootScheduleView.MondayBySetDate | App.tsx:1038-1039 | the code's `getDate() - day + (day == 0 ? -6 : 1)` lands on the Monday, also on Sundays |
| RootScheduleView.FridayBySetDate | App.tsx:1040 | setting the day to Monday + 4 is four days later, across month ends |
| RootScheduleView.WeeklyDatedEntries | App.tsx:1052-1058 | for a dated entry the text comparisons select exactly the days Monday to Friday |
| RootScheduleView.Conflicts | App.tsx:1097-1112 | the nested loops flag exactly the entries that clash with some entry |
| RootScheduleView.ClashSymmetric | App.tsx:1101-1106 | the clash relation is symmetric |
| RootScheduleView.ConflictBothFlagged | App.tsx:1097-1112 | both partners of a clash are flagged |
| RootScheduleView.ClashMinutes | App.tsx:1101-1106 | on clock times a clash is an overlap of half-open minute intervals in one room on one day |
| RootScheduleView.AvailableRooms | App.tsx:1276-1308 | a date that is not a working day offers no room |
| RootScheduleView.AvailableRoomsSpec | App.tsx:1284-1306 | within one day the result keeps room order, and a room is offered exactly when no schedule of the date or weekday and no non-rejected booking of the date overlaps |
| RootScheduleView.RoomFreeMinutes | App.tsx:1289-1304 | the text comparisons against the wrapped end time are the minute overlaps |
| RootScheduleView.IntOr | App.tsx:573-574 | `parseInt(v) || d` falls back on NaN and on 0, and is the parsed value otherwise |
| RootScheduleView.HandleAddPayload | App.tsx:570-586 | a schedule form with a week range gets `weeks` = the range and loses the two range keys; every other form is sent as it is |
| RootScheduleView.BorrowRequestError | App.tsx:336-342 | a request passes exactly when signed in, with return date and purpose, and not returning before borrowing |
| RootScheduleView.BeforeIsTextOrder | App.tsx:339-342 | on date texts, comparing the dates is comparing the texts |
| RootScheduleView.PasswordChangeError | App.tsx:128-135 | a change passes exactly when the entries agree and are at least four UTF-16 code units long |
| RootScheduleView.PasswordOfTwoAstral | App.tsx:132-135 | two characters above U+FFFF already make a long enough password, since `.length` counts UTF-16 code units |
| Js.Utf16Length | App.tsx:132 | `.length` lies between the number of characters and twice that |
| Js.Utf16LengthBmp | App.tsx:132 | for characters below U+10000 `.length` is the number of characters |
| LocalStore.UsernameTakenSpec | frontend/src/api2.ts:146-148 | a username is taken exactly when some user has it |
| LocalStore.NewUserFields | frontend/src/api2.ts:150-154 | a new user has role USER, keeps every other form field, and keeps the credentials of the form |
| LocalStore.NewRequestFields | frontend/src/api2.ts:191-226 | a created booking or borrowing is PENDING and keeps every other field |
| LocalStore.IdIndex | frontend/src/api2.ts:170 | the index is that of the first record whose id text matches, -1 exactly when none does |
| LocalStore.WithoutIdSpec | frontend/src/api2.ts:310-319 | deleting drops exactly the records with the id, keeps the others in order, and changes nothing when no record has it |
| LocalStore.WithStatusSpec | frontend/src/api2.ts:204-212 | a status update changes only the status of the first record with the id |
| LocalStore.AfterBorrowStatus | frontend/src/api2.ts:228-248 | the update keeps every table and the number of items and borrowings |
| LocalStore.AfterBorrowStatusFrame | frontend/src/api2.ts:228-248 | only the borrowings and items change; an unknown id changes nothing |
| LocalStore.AfterBorrowStatusItems | frontend/src/api2.ts:236-244 | the item is lent to 'Member' on approval, freed on return or rejection, left alone when pending; no other item changes |
| LocalStore.UpdateUserAsWritten | frontend/src/api2.ts:171 | every key of the update takes the update's value, undefined included; every other key keeps the user's |
| LocalStore.SettingsSaveLocksOut | frontend/src/api2.ts:170-174 | as written, saving settings without a new password leaves a user no password can log in |
| LocalStore.PatchUser | frontend/src/api2.ts:170-174 | the intended update has the user's keys and the defined keys of the update, and an undefined value keeps the stored one |
| LocalStore.PatchAgreesWhenDefined | frontend/src/api2.ts:171 | when no value of the update is undefined, the intended update is the spread as written |
| LocalStore.PatchUserGet | frontend/src/api2.ts:170-174 | the intended update overwrites the defined fields and keeps the others |
| LocalStore.SettingsSaveKeepsLogin | frontend/src/App.tsx:957-960 | with the intended update the user is renamed and can log in with the old or the newly typed password |
| LocalStore.Defined | frontend/src/App.tsx:957-960 | the update keeps exactly the fields that carry a value |
| LocalStore.RegisterThenLogin | frontend/src/api2.ts:131-159 | a fresh registration can log in with the password it chose |
| LocalStore.Store.constructor | frontend/src/api2.ts:95-105 | the store holds the given tables |
| LocalStore.Store.Login | frontend/src/api2.ts:131-140 | login succeeds exactly when some user has both username and password, returning such a user |
| LocalStore.Store.Register | frontend/src/api2.ts:142-159 | a taken username is refused with no change; otherwise the new user is appended |
| LocalStore.Store.UpdateUser | frontend/src/api2.ts:167-175 | the first user with the id gets the update spread over it, undefined values included; an unknown id changes nothing |
| LocalStore.Store.DeleteUser | frontend/src/api2.ts:177-188 | the users with the id are removed |
| LocalStore.Store.CreateBooking | frontend/src/api2.ts:191-202 | a pending booking is appended and returned |
| LocalStore.Store.UpdateBookingStatus | frontend/src/api2.ts:204-212 | the first booking with the id gets the status |
| LocalStore.Store.CreateItemBorrowing | frontend/src/api2.ts:215-226 | a pending borrowing is appended and returned |
| LocalStore.Store.UpdateItemBorrowingStatus | frontend/src/api2.ts:228-248 | the tables become the cascade of the status on borrowing and item |
| LocalStore.Store.Add | frontend/src/api2.ts:251-275 | an unknown table is an error with no change; otherwise a record with a fresh id is appended |
| LocalStore.Store.Update | frontend/src/api2.ts:277-296 | the first record with the id is merged with the data; unknown table or id changes nothing |
| LocalStore.Store.Delete | frontend/src/api2.ts:298-323 | the records with the id are removed; an unknown table changes nothing |
| LegacyStore.IdIndex | api.ts:147 | the index is that of the first record whose id is strictly equal, -1 exactly when none is |
| LegacyStore.WithoutIdSpec | api.ts:130-136 | deleting drops exactly the records whose id is that text, keeps the others in order |
| LegacyStore.NewRecord | api.ts:121 | the fresh id overrides any id in the data; all else is kept |
| LegacyStore.PendingRequest | api.ts:160-175 | requests are created PENDING with every other field kept |
| LegacyStore.NewUser | api.ts:105-110 | a new user has just id, username, role USER and full name |
| LegacyStore.FindUser | api.ts:91 | a user is found exactly when one has the username |
| LegacyStore.BorrowerName | api.ts:190-192 | the borrower is the user's full name, or 'Unknown' |
| LegacyStore.AfterBorrowStatus | api.ts:177-201 | the update keeps every table and the number of items and borrowings |
| LegacyStore.AfterBorrowStatusFrame | api.ts:177-201 | only borrowings and items change; an unknown id changes nothing |
| LegacyStore.AfterBorrowStatusBorrowing | api.ts:179-184 | only the first borrowing with the id gets the status |
| LegacyStore.AfterBorrowStatusItems | api.ts:185-199 | approval lends the item to the borrower's name, return or rejection frees it, a missing item changes nothing |
| LegacyStore.Store.constructor | api.ts:6-78 | the store holds the given tables and users; the database needs only the seven tables of the initial data, which have no "users" |
| LegacyStore.Store.Login | api.ts:86-97 | login succeeds exactly when the user exists and the password equals the username |
| LegacyStore.Store.Register | api.ts:99-114 | a taken username is refused; otherwise the new user is appended |
| LegacyStore.Store.Add | api.ts:118-128 | a record with the fresh id is appended to the table and returned; a table the database lacks, such as "users", raises the TypeError of `undefined.push` and nothing changes |
| LegacyStore.Store.Delete | api.ts:130-136 | the records with the id are removed from the table; a table the database lacks raises the TypeError of `undefined.filter` and nothing changes |
| LegacyStore.Store.UpdateUser | api.ts:145-152 | the first user with the id is merged with the data |
| LegacyStore.Store.DeleteUser | api.ts:154-158 | the users with the id are removed |
| LegacyStore.Store.CreateBooking | api.ts:160-162 | a pending booking is appended |
| LegacyStore.Store.UpdateBookingStatus | api.ts:164-171 | the first booking with the id gets the status |
| LegacyStore.Store.CreateItemBorrowing | api.ts:173-175 | a pending borrowing is appended |
| LegacyStore.Store.UpdateItemBorrowingStatus | api.ts:177-201 | the tables become the cascade on borrowing and item |
| SchedulePayload.ToInt | backend/src/routes/schedules.js:6-9 | the result is a number or the fallback |
| SchedulePayload.ToIntValues | backend/src/routes/schedules.js:6-9 | numbers pass, digit strings read as their value, undefined falls back |
| SchedulePayload.CollectIds | backend/src/routes/schedules.js:18-31 | the loop keeps the values that convert, in order |
| SchedulePayload.NormalizeLecturerIds | backend/src/routes/schedules.js:11-35 | the ids of the first source present, converted, without repeats |
| SchedulePayload.LecturerIdsExample | backend/src/routes/schedules.js:11-35 | an array wins over a single id, and repeats are dropped |
| Js.DedupSpec | backend/src/routes/schedules.js:34 | `[...new Set(ids)]` holds each value once, in first-occurrence order |
| Js.Dedup | backend/src/routes/schedules.js:34 | the de-duplicated list has the same members |
| SchedulePayload.ValidateSchedulePayload | backend/src/routes/schedules.js:37-45 | no error exactly when all six fields are present; an error names the first missing one |
| SchedulePayload.PagingOf | backend/src/routes/schedules.js:50-52 | page >= 1, 5 <= perPage <= 100, offset = (page - 1) * perPage |
| SchedulePayload.PagingValues | backend/src/routes/schedules.js:50-52 | the defaults are page 1 of 20; in-range values are kept; others are clamped |
| SchedulePayload.TotalPages | backend/src/routes/schedules.js:100 | at least one page, enough pages for all rows, and no extra page |
| SchedulePayload.NewRow | backend/src/routes/schedules.js:141-152 | jpm defaults to 0, weeks and studyProgram are null exactly when absent, semester is null when absent or not a number |
| CsvRow.NormalizeHeaderIsTrim | backend/scripts/importScheduleMapped.js:16-18 | normalising a header is trimming it |
| CsvRow.Norm | backend/scripts/importScheduleMapped.js:21-27 | the normalised text is empty or starts and ends with a character that is not white space |
| CsvRow.NormClean | backend/scripts/importScheduleMapped.js:21-27 | the normalised text has no punctuation, no upper case, and no white space at the ends |
| CsvRow.ParseTimeRange | backend/scripts/importScheduleMapped.js:30-34 | there is no range exactly when the text has no '-' |
| CsvRow.TimeRangeParts | backend/scripts/importScheduleMapped.js:30-34 | the start is the trimmed text before the '-' with its first '.' made ':'; neither part holds a '-' |
| CsvRow.TimeRangeExample | backend/scripts/importScheduleMapped.js:30-34 | "07.30 - 08.20" reads as 07:30 to 08:20 |
| CsvRow.RoomKey | backend/scripts/importScheduleMapped.js:37-49 | none exactly for an empty or "x" room |
| CsvRow.RoomKeyOfNumber | backend/scripts/importScheduleMapped.js:42-43 | a number of up to three digits becomes h + the zero-padded number |
| CsvRow.RoomKeyOfCode | backend/scripts/importScheduleMapped.js:45-46 | an h-code is lower-cased |
| CsvRow.FirstLecturerName | backend/scripts/importScheduleMapped.js:52-56 | blank gives ""; otherwise the trimmed text before the first '/' |
| CsvRow.FirstLecturerNameClean | backend/scripts/importScheduleMapped.js:52-56 | the name holds no '/' and no white space at the ends |
| CsvRow.TokenList | backend/scripts/importScheduleMapped.js:70-71 | the tokens are the distinct words |
| CsvRow.ScoreProperties | backend/scripts/importScheduleMapped.js:69-76 | the score lies in [0, 1], is symmetric, is 0 for an empty side and 1 for equal non-empty sets |
| CsvRow.ScoreThreshold | backend/scripts/importScheduleMapped.js:69-76 | the 0.55 threshold is the integer condition 20 * shared >= 11 * max |
| CsvRow.CountShared | backend/scripts/importScheduleMapped.js:73-74 | the loop counts the shared tokens |
| CsvRow.TokenScore | backend/scripts/importScheduleMapped.js:69-76 | the method computes the score |
| CsvRow.FindCourseId | backend/scripts/importScheduleMapped.js:116-127 | the exact key wins, then the plural alternative; none exactly when neither is a course |
| CsvRow.CourseAltExample | backend/scripts/importScheduleMapped.js:121-123 | "public relation" becomes "public relations", which is left as it is |
| CsvRow.SingularReplaced | backend/scripts/importScheduleMapped.js:121-123 | the whole singular word is replaced |
| CsvRow.PluralKept | backend/scripts/importScheduleMapped.js:121-123 | a longer word holding the singular is not replaced |
| CsvRow.FindRoomId | backend/scripts/importScheduleMapped.js:149-161 | a room is found exactly when the key is an h-key in the lookup |
| CsvRow.RoomNumberLookup | backend/scripts/importScheduleMapped.js:149-161 | a short room number is looked up under its padded h-key |
| CsvRow.BestOfSpec | backend/scripts/importScheduleMapped.js:138-146 | the best score is maximal, and a positive one belongs to the first lecturer reaching it |
| CsvRow.ExactIndex | backend/scripts/importScheduleMapped.js:133-136 | the index is that of the first lecturer with the key, -1 exactly when none |
| CsvRow.MatchKeySpec | backend/scripts/importScheduleMapped.js:129-147 | an empty key matches none; an exact key wins; otherwise the best score of at least 0.55 |
| CsvRow.MatchKeyFuzzy | backend/scripts/importScheduleMapped.js:138-146 | a fuzzy match is one of the lecturers |
| CsvRow.MatchLecturerKey | backend/scripts/importScheduleMapped.js:129-147 | the loops compute the match |
| CsvRow.FindLecturerId | backend/scripts/importScheduleMapped.js:129-147 | the method matches the cleaned first lecturer name |
| CsvRow.StudyProgram | backend/scripts/importScheduleMapped.js:181 | the programme is the non-empty part of the class group before the first '-' |
| CsvRow.RowFields | backend/scripts/importScheduleMapped.js:173-186 | a row is read only with a parseable time range, and its fields come from the named columns |
| CsvRow.RowSkipped | backend/scripts/importScheduleMapped.js:173-177 | a row is skipped exactly when the time is missing or has no range |
| CsvImport.ImportOutcomeSpec | backend/scripts/importScheduleMapped.js:172-221 | a row is skipped, accepted with all three ids, or reported with the ones that failed |
| CsvImport.AcceptedRoomAndCourse | backend/scripts/importScheduleMapped.js:188-190 | an accepted row's course and room ids come from the lookups |
| CsvImport.ReadFields | backend/scripts/importScheduleMapped.js:173-186 | the method reads the row's fields |
| CsvImport.HandleRow | backend/scripts/importScheduleMapped.js:192-221 | the method pushes what the classification says |
| CsvImport.Importer.constructor | backend/scripts/importScheduleMapped.js:164-167 | the importer starts with the lookups and empty lists |
| CsvImport.Importer.OnData | backend/scripts/importScheduleMapped.js:172-222 | each row appends its accepted values or its unresolved report |
| CsvImport.ImportCounts | backend/scripts/importScheduleMapped.js:172-222 | accepted plus unresolved is at most the rows, and equals them when every row parses |
| CsvImport.AcceptedWellFormed | backend/scripts/importScheduleMapped.js:209-221 | every accepted row has weeks 1 to 16 and a start and end |
| CsvConvert.DebugPrefix | backend/scripts/convertSchedule.js:30 | the kept rows are the first three (or fewer) |
| CsvConvert.DebugPrefixStep | backend/scripts/convertSchedule.js:30 | a row is kept only while fewer than three are |
| CsvConvert.ConvertRow | backend/scripts/convertSchedule.js:32-65 | the method pushes the row's converted values |
| CsvConvert.Converter.constructor | backend/scripts/convertSchedule.js:23-24 | the converter starts empty |
| CsvConvert.Converter.OnData | backend/scripts/convertSchedule.js:28-66 | each row is kept when early, and appends its converted values |
| CsvConvert.Converter.OnEnd | backend/scripts/convertSchedule.js:67-81 | nothing parsed yields the kept rows; otherwise the insert of all rows |
| CsvConvert.ConvertedEmpty | backend/scripts/convertSchedule.js:67-71 | nothing is pushed exactly when no time range parses |
| CsvConvert.ConvertedWellFormed | backend/scripts/convertSchedule.js:49-65 | converted rows have ids 0, weeks 1 to 16, a start and an end |
| CsvConvert.ConvertMatchesImport | backend/scripts/convertSchedule.js:32-65 | the converter pushes one row per row the importer accepts or reports |
| CsvConvert.ConvertedFieldsAsImported | backend/scripts/convertSchedule.js:53-65 | a converted row is the imported row with the ids set to 0 |

## Left out

- Rendering, routing and component state of the React views: the model takes the state
  (selected date, filters, form fields) as parameters.
- `localStorage`, JSON persistence and the simulated network delay. The stores hold their
  data in fields.
  - "JSON persistence" means `JSON.stringify` dropping undefined fields between calls. It
    does not change any login result: a missing password and an undefined one both fail
    the comparison.
- `Date.now()` ids come in as a `freshId` parameter. Two calls in the same millisecond
  giving equal ids is not modelled.
- JavaScript `Date` parsing and time zones. Dates are a proleptic Gregorian calendar read
  strictly as `YYYY-MM-DD`:
  - other formats the browser accepts are not handled;
  - the rollover of out-of-range days such as 2024-02-30 is not handled;
  - local-time versus UTC shifts are not handled.
- Calendar.ParseFormat: proved for years 0 to 9999 only, the years `toISOString` prints
  with four digits.
- RootScheduleView.WeeklyDatedEntries: assumes the week lies within years 0 to 9999, for
  the same reason.
- The free-text search of both views is a predicate parameter. Lower-casing arbitrary
  Unicode and `includes` over several fields are not modelled. The root view's
  global-search switch becomes the `weekly` flag together with that predicate.
- The drop-down option lists (unique class groups and study programmes) are presentation
  only.
- `localeCompare` in the sort by start time is modelled as code-point order. The two agree
  on `HH:MM` texts.
- Js.LexLess: compares code points where JavaScript's `<` compares UTF-16 code units. The
  two orders differ only between a character above U+FFFF and one in U+E000..U+FFFF; the
  texts the application compares are clock times, dates and ids.
- FrontendScheduleView.FreeRoomsSpec: assumes every time is an `HH:MM` clock time, as the
  time inputs produce. Other texts are handled by the function but not described by the
  lemma.
- RootScheduleView.AvailableRooms: requires the selected time to be empty or a clock time,
  the only values a time input gives.
- RootScheduleView.AvailableRoomsSpec: assumes the slot ends before midnight.
  RootScheduleView.RoomFreeMinutes assumes the same. Windows that wrap past 24:00 are
  computed by `CheckEnd` but their text comparisons are not characterised.
- The tables of `api.ts`: `keyof Database` admits "users", but the database of `api.ts`
  has no such table, since its users live under their own storage key. `add` and `delete`
  on "users" therefore throw; the model returns the TypeError as an error and changes
  nothing. No caller passes "users". The rejected promise itself is not modelled.
- Numbers:
  - `Number(text)` is modelled for decimal texts with an optional sign, fraction and
    surrounding white space; exponents, hexadecimal and "Infinity" read as NaN;
  - `String(x)` is spelled out for texts, booleans, null, undefined and whole numbers
    only;
  - floating-point rounding is not modelled.
- SchedulePayload.NewRow: `String(...)` of a fraction, an array or an object is left
  unspelled (None).
- The token score is an exact rational rather than a double. The 0.55 threshold is decided
  in exact arithmetic.
- `stripTitlesAndDegrees` is a `strip` parameter of the lecturer match. Its regular
  expressions are not modelled.
- Case folding in `norm` and the room key covers ASCII letters only.
- `buildLookups`, which reads courses, lecturers and rooms from MySQL: the lookups are
  parameters.
- The CSV stream, `csv-parser` and console output. Only the importer's counts of accepted
  and unresolved rows are modelled; its final printing and the SQL insert are not.
- The Express routes, SQL queries, bcrypt and HTTP handling of the server. Only the pure
  helpers are modelled.
- Concurrency: two requests booking the same room at once is outside the model.

## Findings

| source | as written | input that shows it | evidently intended | confidence | as-written member | corrected member |
|---|---|---|---|---|---|---|
| frontend/src/api2.ts:170-174 | `updateUser` of the local-storage store spreads the update over the user, so a `password: undefined`, which the settings form sends when no new password is typed, overwrites the stored password. The client shipped imports `./api` instead, whose JSON body drops undefined fields, and the server skips an empty password, so the defect bites only if api2.ts backs the client | with api2.ts as the store, save the settings form with only the full name changed and the password field empty; the next login with the old password fails | an empty password field keeps the stored password | not executed | LocalStore.SettingsSaveLocksOut | LocalStore.SettingsSaveKeepsLogin |

`LocalStore.Store.UpdateUser` stores the update as written,
`LocalStore.UpdateUserAsWritten`. The intended update is `LocalStore.PatchUser`, which
skips undefined fields; `LocalStore.PatchAgreesWhenDefined` shows the two agree whenever
no field is undefined.
