# Seminar hall booking: availability and conflicts, in Dafny

This project models the booking engine of a seminar-hall reservation system:
a Spring back end that stores bookings and decides whether a new or edited
booking may be saved, and a React front end that runs the same kind of
checks before it submits and draws month calendars of the halls.

A booking is either time-wise (one date with a start and end time) or
day-wise (a range of at most seven days, optionally narrowed per day by a
day-slot time). The back end refuses a booking that overlaps another
booking of its hall: times overlap as half-open intervals, a day-wise
booking blocks each of its days, and a day-slot entry occupies its day.

Back-end modules:

- `Wrappers`, `Text`, `Numbers`, `Dates`, `Times`, `Patterns`: optional
  values and results. They also cover the string operations both tiers use,
  decimal numerals, ISO dates, "HH:mm" times with the interval test, and the
  e-mail and phone patterns.
- `Seminars`, `Repository`: the booking record, the store as a sequence of
  documents, and the derived repository queries as filters over it.
- `Shape`: the contact and payload validation that classifies a booking as
  time-wise, day-wise or legacy.
- `Conflicts`: the conflict check for adding and updating, the first problem
  found or none. It has imperative loops over the candidates.
- `ConflictRules`: a declarative reference for that check, `Admissible`. It
  proves the guarantees the service gives.
- `SeminarService`, `SeminarController`, `MonthSummary`, `DayListing`:
  adding, updating and cancelling bookings, the month calendar summaries,
  and the bookings listed for one day.
- `DepartmentService`, `HallService`, `OperatorService`, `UserService`,
  `RequestController`, `OtpService`: the administrative collections with
  their uniqueness rules. `OtpService` is a class whose store of one-time
  codes the methods update.
- `EmailService`, `LogService`, `Jwt`, `CustomUserDetails`: the pieces of
  mail, audit, token and login logic that carry booking data or identity.

Front-end modules:

- `ClientTime`, `ClientBookings`: the time and date helpers and the client's
  index of bookings by hall and day. The admin add page, the department page
  and the department form each carry their own copy of these helpers. The
  copies differ in small policies, which are parameters here.
- `BookingForms`: the pre-submit checks of the three booking forms.
- `AllSeminars`: the admin list that merges seminars and requests. It has a
  class for the `seen` map and an insertion sort.
- `SeminarDetails`: the 24-hour grid, a class, with the click-to-select
  logic.
- `AdminCalendar`, `CalendarGrid`: the month view and its grid of day cells.

The code and the written design of the system differ in two places. The
model follows the code in both:

- A missing or unreadable time does not overlap anything. The design
  counts it as an overlap.
- A day-slot entry of another booking in the same hall refuses a
  time-wise booking on that date, whatever the times. The design accepts
  the booking when the times do not meet.

The two calendar views also disagree about a booking without a status. The
admin calendar files it as approved, but the grid does not count it. Both
readings are modelled as written, and
`CalendarGrid.MissingStatusCountedByCalendarOnly` states the difference.

Elsewhere the model follows the code, with one class of exceptions. Where
the code evidently misses its own intent, the "## Findings" table models
the code as written next to a corrected definition. The operations then use
the corrected definition. So the conflict check and the operations built on
it take every booking of the hall as a candidate, where the code queries
only bookings with a day range. The month summary and the department
calendar count the bookings dated within the month with its first and last
day included, where the code's `DateBetween` query excludes both days. "## Left out" names each
operation affected.

## Model

| member | source | states |
|---|---|---|
| Dates.DaysInMonth | Seminar-Hall-Backend/src/main/java/com/dtao/seminarbooking/service/SeminarService.java:109-110 | a month has 28 to 31 days, and 29 exactly for February of a leap year |
| Dates.NextDay | Seminar-Hall-Backend/src/main/java/com/dtao/seminarbooking/service/SeminarService.java:205 | the next day is a valid date after the given one |
| Dates.NextDayIsSuccessor | Seminar-Hall-Backend/src/main/java/com/dtao/seminarbooking/service/SeminarService.java:201-206 | no date lies strictly between a day and the next day |
| Dates.BeforeIffDayNumber | Seminar-Hall-Backend/src/main/java/com/dtao/seminarbooking/service/SeminarService.java:139 | one date is before another exactly when its day count is smaller |
| Dates.DayNumberInjective | Seminar-Hall-Backend/src/main/java/com/dtao/seminarbooking/service/SeminarService.java:139 | two valid dates with the same day count are the same date |
| Dates.DatesFrom | Seminar-Hall-Backend/src/main/java/com/dtao/seminarbooking/service/SeminarService.java:172-176 | n consecutive days from a date, each one day after the one before |
| Dates.DatesBetweenSpec | Seminar-Hall-Backend/src/main/java/com/dtao/seminarbooking/service/SeminarService.java:172-176 | the days of a range are exactly the valid dates within it, in ascending order |
| Dates.DatesBetweenLength | Seminar-Hall-Backend/src/main/java/com/dtao/seminarbooking/service/SeminarService.java:523 | a range holds its end minus its start plus one days |
| Dates.ParseIsoDate | Seminar-Hall-Backend/src/main/java/com/dtao/seminarbooking/service/SeminarService.java:370-372 | a text parses exactly when it has the YYYY-MM-DD shape and names a real date, and then it parses to that date |
| Dates.FormatIsoDate | Seminar-Hall-Backend/src/main/java/com/dtao/seminarbooking/service/SeminarService.java:111-112 | a formatted date has the YYYY-MM-DD shape |
| Dates.ParseFormat | Seminar-Hall-Backend/src/main/java/com/dtao/seminarbooking/service/SeminarService.java:111-112 | parsing a formatted date gives the date back |
| Dates.FormatParse | Seminar-Hall-Backend/src/main/java/com/dtao/seminarbooking/service/SeminarService.java:138 | formatting a parsed text gives the text back |
| Dates.ParseInjective | Seminar-Hall-Backend/src/main/java/com/dtao/seminarbooking/service/SeminarService.java:138 | two texts that parse to the same date are the same text |
| Dates.IsoStringOrder | Seminar-Hall-Backend/src/main/java/com/dtao/seminarbooking/repo/SeminarRepository.java:28-34 | for ISO date texts, string order is date order |
| Dates.IsoStringOrderEq | Seminar-Hall-Backend/src/main/java/com/dtao/seminarbooking/repo/SeminarRepository.java:28-34 | for ISO date texts, string order or equality is "not after" |
| Numbers.WrapInt32 | Seminar-Hall-Backend/src/main/java/com/dtao/seminarbooking/service/SeminarService.java:887 | 32-bit wrap-around gives an int32 value congruent to the input, and leaves an int32 value alone |
| Numbers.JavaParseInt | Seminar-Hall-Backend/src/main/java/com/dtao/seminarbooking/service/SeminarService.java:885-886 | a parsed number is an int32 value |
| Numbers.JavaParseIntNatToString | Seminar-Hall-Backend/src/main/java/com/dtao/seminarbooking/service/SeminarService.java:885-886 | the decimal text of an int32-sized number parses back to it |
| Numbers.DigitsValueOfNatToString | Seminar-Hall-Backend/src/main/java/com/dtao/seminarbooking/service/SeminarService.java:885-886 | the digits written for a number read back as that number |
| Numbers.PadStartZeroValue | Seminar-Hall-Frontend/src/pages/Dept/AddSeminarPage.js:37-40 | padding with zeros makes the text at least that long and keeps its value |
| Numbers.Pad2Value | Seminar-Hall-Frontend/src/pages/Dept/AddSeminarPage.js:37-40 | a two-digit pad is digits of length two or more with the padded value |
| Numbers.JsParseIntPad2 | Seminar-Hall-Frontend/src/pages/Dept/AddSeminarPage.js:57 | parseInt reads a padded number back as the number |
| Numbers.JsParseIntOfDigits | Seminar-Hall-Frontend/src/pages/Dept/AddSeminarPage.js:57 | parseInt reads a text of digits as its value |
| Text.Upper | Seminar-Hall-Backend/src/main/java/com/dtao/seminarbooking/service/SeminarService.java:49 | upper-casing keeps the length and maps each character |
| Text.Lower | Seminar-Hall-Backend/src/main/java/com/dtao/seminarbooking/service/HallOperatorService.java:45 | lower-casing keeps the length and maps each character |
| Text.UpperIdempotent | Seminar-Hall-Backend/src/main/java/com/dtao/seminarbooking/controller/RequestController.java:60-62 | upper-casing twice is upper-casing once |
| Text.LowerEqualsIgnoreCase | Seminar-Hall-Backend/src/main/java/com/dtao/seminarbooking/service/HallOperatorService.java:179 | a lower-cased text equals the original ignoring case |
| Text.Trim | Seminar-Hall-Backend/src/main/java/com/dtao/seminarbooking/service/SeminarService.java:430 | the trimmed text is empty or starts and ends with a character above space, and is no longer than the input |
| Text.TrimOfUntrimmable | Seminar-Hall-Backend/src/main/java/com/dtao/seminarbooking/service/SeminarService.java:430 | a text that starts and ends with a character above space is its own trim |
| Text.LowerTrimIdempotent | Seminar-Hall-Backend/src/main/java/com/dtao/seminarbooking/service/HallOperatorService.java:70 | trimming and lower-casing a normalised e-mail changes nothing |
| Text.UpperTrimIdempotent | Seminar-Hall-Backend/src/main/java/com/dtao/seminarbooking/controller/RequestController.java:60 | trimming and upper-casing a normalised status changes nothing |
| Text.JsTrim | Seminar-Hall-Frontend/src/components/CalendarGrid.js:39 | JavaScript's trim is no longer than its input |
| Text.SplitAll | Seminar-Hall-Backend/src/main/java/com/dtao/seminarbooking/service/SeminarService.java:884 | splitting gives at least one piece and no piece holds the separator |
| Text.SplitAllJoin | Seminar-Hall-Backend/src/main/java/com/dtao/seminarbooking/service/SeminarService.java:884 | joining the pieces with the separator gives the text back |
| Text.DropTrailingEmpty | Seminar-Hall-Backend/src/main/java/com/dtao/seminarbooking/service/LogService.java:59 | Java's split drops exactly the trailing empty pieces and keeps the rest in order |
| Text.StrLessIrreflexive | Seminar-Hall-Backend/src/main/java/com/dtao/seminarbooking/repo/SeminarRepository.java:28-34 | no text is strictly before itself |
| Text.StrLessAsymmetric | Seminar-Hall-Backend/src/main/java/com/dtao/seminarbooking/repo/SeminarRepository.java:28-34 | if one text is strictly before another, the second is not before the first |
| Times.FormatHHmm | Seminar-Hall-Backend/src/main/java/com/dtao/seminarbooking/service/SeminarService.java:883-888 | a time of day is written as five characters with a colon in the middle |
| Times.ToMinutes | Seminar-Hall-Backend/src/main/java/com/dtao/seminarbooking/service/SeminarService.java:883-888 | a read time is an int32 value; with Times.ToMinutesFormat it reads back every "HH:mm" time of day |
| Times.ToMinutesFormat | Seminar-Hall-Backend/src/main/java/com/dtao/seminarbooking/service/SeminarService.java:883-888 | every canonical "HH:mm" time of day reads back as its minute count |
| Times.SpansOverlapIffCommonMinute | Seminar-Hall-Backend/src/main/java/com/dtao/seminarbooking/service/SeminarService.java:870-881 | the strict-inequality span test holds exactly when the two intervals share a minute |
| Times.OverlapOfParsed | Seminar-Hall-Backend/src/main/java/com/dtao/seminarbooking/service/SeminarService.java:870-881 | isOverlapping holds exactly when all four times parse and the parsed spans overlap |
| Times.OverlapSymmetric | Seminar-Hall-Backend/src/main/java/com/dtao/seminarbooking/service/SeminarService.java:870-881 | the overlap test does not depend on which booking comes first |
| Times.TouchingDoesNotOverlap | Seminar-Hall-Backend/src/main/java/com/dtao/seminarbooking/service/SeminarService.java:870-881 | an interval starting where another ends does not overlap it |
| Times.UnreadableNeverOverlaps | Seminar-Hall-Backend/src/main/java/com/dtao/seminarbooking/service/SeminarService.java:870-881 | a missing or unreadable time overlaps nothing, in either argument position |
| Times.ValidIntervalOverlapsItself | Seminar-Hall-Backend/src/main/java/com/dtao/seminarbooking/service/SeminarService.java:870-881 | an interval with start before end overlaps itself |
| Seminars.Filter | Seminar-Hall-Backend/src/main/java/com/dtao/seminarbooking/repo/SeminarRepository.java:14-57 | a query result holds exactly the stored records meeting its condition and is no longer than the store |
| Seminars.FilterAppend | Seminar-Hall-Backend/src/main/java/com/dtao/seminarbooking/repo/SeminarRepository.java:14-57 | querying a concatenated store is concatenating the query results |
| Seminars.FilterFilter | Seminar-Hall-Backend/src/main/java/com/dtao/seminarbooking/service/SeminarService.java:643-867 | narrowing a query result is the query over the narrowed store, in either order |
| Seminars.FilterCongruent | Seminar-Hall-Backend/src/main/java/com/dtao/seminarbooking/repo/SeminarRepository.java:14-57 | queries whose conditions agree on every record return the same list |
| Seminars.OthersThan | Seminar-Hall-Backend/src/main/java/com/dtao/seminarbooking/service/SeminarService.java:643-867 | the records the update check sees are exactly those with an id other than the updated one |
| Repository.IndexOf | Seminar-Hall-Backend/src/main/java/com/dtao/seminarbooking/repo/SeminarRepository.java:11 | findById finds the first document with the id, and finds none exactly when no document has it |
| Repository.RemoveAt | Seminar-Hall-Backend/src/main/java/com/dtao/seminarbooking/repo/SeminarRepository.java:11 | deleting a document removes it and keeps the others in order |
| Repository.RemoveById | Seminar-Hall-Backend/src/main/java/com/dtao/seminarbooking/service/SeminarService.java:310-312 | with unique ids, deleteById leaves no document with that id and keeps every other document |
| Shape.ContactCheck | Seminar-Hall-Backend/src/main/java/com/dtao/seminarbooking/service/SeminarService.java:337-344 | the contact check passes exactly when the email matches the institution pattern and the phone matches the phone pattern; a phone error implies a good email |
| Shape.ValidateShape | Seminar-Hall-Backend/src/main/java/com/dtao/seminarbooking/service/SeminarService.java:352-411 | the shape check returns the first fault in SeminarService's order, or none |
| Shape.ShapeOutcomeIffWellShaped | Seminar-Hall-Backend/src/main/java/com/dtao/seminarbooking/service/SeminarService.java:352-411 | the shape check passes exactly for well-shaped bookings, whatever order the daySlots entries are visited in |
| Shape.DaySlotsNeedRange | Seminar-Hall-Backend/src/main/java/com/dtao/seminarbooking/service/SeminarService.java:356-359 | a daySlots map without both range dates is refused |
| Shape.LegacySlotNeedsLabel | Seminar-Hall-Backend/src/main/java/com/dtao/seminarbooking/service/SeminarService.java:361-366 | without time or day shape, a booking passes only with a non-blank slot label |
| Shape.FullDayEntryAccepted | Seminar-Hall-Backend/src/main/java/com/dtao/seminarbooking/service/SeminarService.java:389-410 | a full-day daySlots entry inside the range is always accepted |
| Conflicts.FirstHit | Seminar-Hall-Backend/src/main/java/com/dtao/seminarbooking/service/SeminarService.java:461-479 | the scan reports nothing exactly when no record fails, and otherwise reports the failure of some record of the list |
| Conflicts.ScanFirstHit | Seminar-Hall-Backend/src/main/java/com/dtao/seminarbooking/service/SeminarService.java:461-479 | the loop over a query result reports the same first failure as the specification |
| Conflicts.CheckTimeBooking | Seminar-Hall-Backend/src/main/java/com/dtao/seminarbooking/service/SeminarService.java:438-506 | the time-booking branch computes the specified outcome |
| Conflicts.CheckRequestedKey | Seminar-Hall-Backend/src/main/java/com/dtao/seminarbooking/service/SeminarService.java:588-632 | one requested daySlots entry is judged as specified |
| Conflicts.ScanRequestedSlots | Seminar-Hall-Backend/src/main/java/com/dtao/seminarbooking/service/SeminarService.java:588-632 | the requested entries are refused by the first faulty entry in some visit order, and pass exactly when every entry is clear |
| Conflicts.CheckDayRange | Seminar-Hall-Backend/src/main/java/com/dtao/seminarbooking/service/SeminarService.java:509-633 | the day-range branch computes the specified outcome, with the corrected candidate query of every booking of the hall |
| Conflicts.CheckConflicts | Seminar-Hall-Backend/src/main/java/com/dtao/seminarbooking/service/SeminarService.java:427-638 | the add-time conflict check computes the specified outcome, with the corrected candidate query |
| Conflicts.CheckConflictsForUpdate | Seminar-Hall-Backend/src/main/java/com/dtao/seminarbooking/service/SeminarService.java:643-867 | the update check is the add check, with the corrected candidate query, run over the records other than the one updated |
| ConflictRules.FilterEmptyIff | Seminar-Hall-Backend/src/main/java/com/dtao/seminarbooking/service/SeminarService.java:461-479 | a query result is empty exactly when no stored record meets the condition |
| ConflictRules.TimeBranchNoneIff | Seminar-Hall-Backend/src/main/java/com/dtao/seminarbooking/service/SeminarService.java:438-506 | the time branch passes exactly when the request is clear of every same-hall booking on its date |
| ConflictRules.KeyErrorNoneIff | Seminar-Hall-Backend/src/main/java/com/dtao/seminarbooking/service/SeminarService.java:588-632 | a requested daySlots entry passes exactly when it is clear |
| ConflictRules.DayBranchPreNoneIff | Seminar-Hall-Backend/src/main/java/com/dtao/seminarbooking/service/SeminarService.java:509-586 | the day-range pre-checks pass exactly when the range is in order, not past, short enough and shares no day with any booking of the hall (corrected candidate query) |
| ConflictRules.SlotsOutcomeNoneIff | Seminar-Hall-Backend/src/main/java/com/dtao/seminarbooking/service/SeminarService.java:588-632 | the requested daySlots pass exactly when every entry is clear |
| ConflictRules.OutcomeIffAdmissible | Seminar-Hall-Backend/src/main/java/com/dtao/seminarbooking/service/SeminarService.java:427-638 | the conflict check passes exactly for admissible requests, with the corrected candidate query |
| ConflictRules.RangeReachesIffCovers | Seminar-Hall-Backend/src/main/java/com/dtao/seminarbooking/repo/SeminarRepository.java:23-27 | on well-formed dates the string range query for one day selects exactly the same-hall records whose range covers that day |
| ConflictRules.TimeBookingRefused | Seminar-Hall-Backend/src/main/java/com/dtao/seminarbooking/service/SeminarService.java:461-505 | a time booking is refused when a same-hall booking overlaps its times, covers its date by range, or holds a daySlots entry for its date |
| ConflictRules.AcceptedTimeBooking | Seminar-Hall-Backend/src/main/java/com/dtao/seminarbooking/service/SeminarService.java:438-506 | an accepted time booking has a hall, a valid date not in the past, and clashes with no same-hall booking on that date |
| ConflictRules.CandidateHitIffSharedDay | Seminar-Hall-Backend/src/main/java/com/dtao/seminarbooking/service/SeminarService.java:549-586 | for a range in order, a candidate stops it exactly when it books a day of the range |
| ConflictRules.DayRangeRefused | Seminar-Hall-Backend/src/main/java/com/dtao/seminarbooking/service/SeminarService.java:519-586 | a range is refused when it starts in the past, is longer than the maximum, or shares a day with any booking of its hall (corrected candidate query) |
| ConflictRules.AcceptedDayRange | Seminar-Hall-Backend/src/main/java/com/dtao/seminarbooking/service/SeminarService.java:509-633 | an accepted range has valid dates, starts today or later, spans 1 to MAX_BOOKING_DAYS days and shares no day with any other booking of its hall (corrected candidate query) |
| ConflictRules.DaySlotEntryRefused | Seminar-Hall-Backend/src/main/java/com/dtao/seminarbooking/service/SeminarService.java:588-632 | a requested daySlots entry is refused when a same-hall booking holds that day, or a same-hall timed booking overlaps a timed entry |
| ConflictRules.UpdateNarrowsEveryQuery | Seminar-Hall-Backend/src/main/java/com/dtao/seminarbooking/service/SeminarService.java:643-867 | narrowing every query result to other records equals running the query over the other records |
| ConflictRules.UpdateIgnoresRecord | Seminar-Hall-Backend/src/main/java/com/dtao/seminarbooking/service/SeminarService.java:643-867 | the updated record, and records without an id, never take part in the update check |
| ConflictRules.NoRecordsNoClash | Seminar-Hall-Backend/src/main/java/com/dtao/seminarbooking/service/SeminarService.java:427-638 | with no stored records, a refusal is never a clash with a booking |
| ConflictRules.UpdateNeverClashesWithItself | Seminar-Hall-Backend/src/main/java/com/dtao/seminarbooking/service/SeminarService.java:643-867 | an update with no other bookings is never refused for a clash: the record is not compared with itself |
| ConflictRules.CandidatesAsWrittenAreCandidates | Seminar-Hall-Backend/src/main/java/com/dtao/seminarbooking/service/SeminarService.java:540-547 | every record the range query returns is a candidate of the corrected check, so the query can miss clashes but not invent them |
| ConflictRules.RangeOverTimeBookingMissed | Seminar-Hall-Backend/src/main/java/com/dtao/seminarbooking/service/SeminarService.java:540-586 | the range query as written misses a time booking inside the requested range, which the corrected candidates catch |
| MonthSummary.Bump | Seminar-Hall-Backend/src/main/java/com/dtao/seminarbooking/service/SeminarService.java:140 | counting a day adds one to that day and leaves every other day's count alone |
| MonthSummary.SlotHitsIffKeyNamesDay | Seminar-Hall-Backend/src/main/java/com/dtao/seminarbooking/service/SeminarService.java:188-197 | a daySlots record counts on a day exactly when one of its keys parses to that day of the month |
| MonthSummary.TotalAppend | Seminar-Hall-Backend/src/main/java/com/dtao/seminarbooking/service/SeminarService.java:136-197 | the count over two lists of records is the sum of the counts |
| MonthSummary.AddDate | Seminar-Hall-Backend/src/main/java/com/dtao/seminarbooking/service/SeminarService.java:136-143 | the time-booking step adds one to the booking's date when it lies in the month, and nothing elsewhere |
| MonthSummary.SeenThrough | Seminar-Hall-Backend/src/main/java/com/dtao/seminarbooking/service/SeminarService.java:172-176 | walking the cursor from `from` past `to` visits exactly the valid days of that span |
| MonthSummary.CountDays | Seminar-Hall-Backend/src/main/java/com/dtao/seminarbooking/service/SeminarService.java:172-176 | the day walk adds one to every day of the clipped span and to no other day |
| MonthSummary.AddRange | Seminar-Hall-Backend/src/main/java/com/dtao/seminarbooking/service/SeminarService.java:165-179 | the range step adds one to every day of the month the record's range covers |
| MonthSummary.AddSlots | Seminar-Hall-Backend/src/main/java/com/dtao/seminarbooking/service/SeminarService.java:188-197 | the daySlots step adds one per in-month key to the day it names |
| MonthSummary.AddAll | Seminar-Hall-Backend/src/main/java/com/dtao/seminarbooking/service/SeminarService.java:136-197 | a loop over a list adds, to every day, the number of the list's records counting on that day |
| MonthSummary.BuildSummary | Seminar-Hall-Backend/src/main/java/com/dtao/seminarbooking/service/SeminarService.java:199-207 | the final list has one entry per day of the month, in order, each free exactly when its count is zero |
| MonthSummary.EntriesFormMonthSummary | Seminar-Hall-Backend/src/main/java/com/dtao/seminarbooking/payload/CalendarDaySummary.java:1-58 | the per-day entries form the month summary for the given count |
| MonthSummary.EndpointCounts | Seminar-Hall-Backend/src/main/java/com/dtao/seminarbooking/controller/SeminarController.java:145-182 | the controller's single pass counts, for every day, the time, range and daySlots hits of the hall's records |
| MonthSummary.CalendarEndpoint | Seminar-Hall-Backend/src/main/java/com/dtao/seminarbooking/controller/SeminarController.java:125-192 | missing year or month and a month outside 1..12 are rejected; a year outside 0..9999 is refused as out of model; otherwise the reply is the month summary of the endpoint count |
| MonthSummary.MonthSummary | Seminar-Hall-Backend/src/main/java/com/dtao/seminarbooking/service/SeminarService.java:108-207 | a year outside 0..9999 is refused as out of model; otherwise the month summary lists every day of the month with the count of its three queries, the month's first and last day included |
| MonthSummary.ServiceMatchesEndpoint | Seminar-Hall-Backend/src/main/java/com/dtao/seminarbooking/service/SeminarService.java:129-163 | without a hall filter the service and the controller count every day alike |
| MonthSummary.ServiceQueriesLoseNothing | Seminar-Hall-Backend/src/main/java/com/dtao/seminarbooking/service/SeminarService.java:119-143 | with a hall, the corrected inclusive date query counts each day as the hall's whole list would |
| MonthSummary.FirstOfMonthMissedAsWritten | Seminar-Hall-Backend/src/main/java/com/dtao/seminarbooking/repo/SeminarRepository.java:29-34 | the exclusive `Between` query as written drops a booking on the first of the month, which the corrected query counts |
| DayListing.PutAll | Seminar-Hall-Backend/src/main/java/com/dtao/seminarbooking/service/SeminarService.java:256-259 | the merging loop builds the specified id-keyed listing |
| DayListing.MergeIntoAppend | Seminar-Hall-Backend/src/main/java/com/dtao/seminarbooking/service/SeminarService.java:256-259 | merging two lists one after the other is merging their concatenation |
| DayListing.MergeIntoKeyed | Seminar-Hall-Backend/src/main/java/com/dtao/seminarbooking/service/SeminarService.java:256-261 | the merged listing has one entry per id, and its ids are those already present or in the merged list |
| DayListing.MergeIntoMembers | Seminar-Hall-Backend/src/main/java/com/dtao/seminarbooking/service/SeminarService.java:256-261 | a record is in the merged listing exactly when it was already there or is in the list with an id |
| DayListing.SeminarsForDay | Seminar-Hall-Backend/src/main/java/com/dtao/seminarbooking/service/SeminarService.java:219-262 | the day listing merges the time, range and daySlots queries in that order |
| DayListing.DayListingKeyed | Seminar-Hall-Backend/src/main/java/com/dtao/seminarbooking/service/SeminarService.java:219-262 | the day listing holds one entry per id and misses no stored record with an id that affects the day |
| DayListing.DayListingExact | Seminar-Hall-Backend/src/main/java/com/dtao/seminarbooking/service/SeminarService.java:219-262 | with unique ids, a record is listed exactly when it is stored, has an id and affects the day |
| SeminarService.WithCreator | Seminar-Hall-Backend/src/main/java/com/dtao/seminarbooking/service/SeminarService.java:49-53 | only createdBy may change, and it becomes "ADMIN" exactly for an approved booking without a creator |
| SeminarService.AddSeminar | Seminar-Hall-Backend/src/main/java/com/dtao/seminarbooking/service/SeminarService.java:43-67 | a non-admin creator and a bad contact are refused first; the add succeeds exactly for requests the corrected conflict check accepts, stamping appliedAt only when absent and changing nothing else |
| SeminarService.Patch | Seminar-Hall-Backend/src/main/java/com/dtao/seminarbooking/service/SeminarService.java:275-299 | a patch never changes the id |
| SeminarService.PatchWithNothing | Seminar-Hall-Backend/src/main/java/com/dtao/seminarbooking/service/SeminarService.java:275-299 | a patch with every field null changes nothing |
| SeminarService.PatchIdempotent | Seminar-Hall-Backend/src/main/java/com/dtao/seminarbooking/service/SeminarService.java:275-299 | applying a patch twice is applying it once |
| SeminarService.PatchKeepsUnnamed | Seminar-Hall-Backend/src/main/java/com/dtao/seminarbooking/service/SeminarService.java:275-299 | each field the patch leaves null keeps its stored value and each field it gives replaces it; createdBy is replaced only by a non-blank value, trimmed |
| SeminarService.PatchWithItself | Seminar-Hall-Backend/src/main/java/com/dtao/seminarbooking/service/SeminarService.java:275-299 | patching a record with itself changes nothing |
| SeminarService.UpdateSeminar | Seminar-Hall-Backend/src/main/java/com/dtao/seminarbooking/service/SeminarService.java:268-308 | an unknown id gives no record; otherwise the update succeeds exactly when the patched record passes the update checks with the corrected candidate query, and stores the patched record |
| SeminarService.CancelRemarks | Seminar-Hall-Backend/src/main/java/com/dtao/seminarbooking/service/SeminarService.java:325-330 | blank remarks keep the old remarks; otherwise the result is the old remarks, " \| " and the new ones, while blank or missing old remarks are followed directly by the new ones |
| SeminarService.CancelRequested | Seminar-Hall-Backend/src/main/java/com/dtao/seminarbooking/service/SeminarService.java:319-330 | the status becomes CANCEL_REQUESTED, the reason changes only when given, and nothing else changes |
| SeminarService.RequestCancel | Seminar-Hall-Backend/src/main/java/com/dtao/seminarbooking/service/SeminarService.java:317-334 | the result is missing exactly when no record has the id, and otherwise is the first stored record with that id, cancel-requested |
| SeminarService.CancelRequestSettles | Seminar-Hall-Backend/src/main/java/com/dtao/seminarbooking/service/SeminarService.java:317-334 | a repeated cancel request with nothing new changes nothing |
| SeminarController.PrepareCreate | Seminar-Hall-Backend/src/main/java/com/dtao/seminarbooking/controller/SeminarController.java:48-53 | a new request is forced to PENDING and gets default remarks when its remarks are blank; nothing else changes |
| SeminarController.CreateSeminar | Seminar-Hall-Backend/src/main/java/com/dtao/seminarbooking/controller/SeminarController.java:45-99 | the create succeeds exactly when the corrected conflict check accepts the pending request, and the saved record is pending with non-blank remarks |
| SeminarController.DefaultRemarksNotBlank | Seminar-Hall-Backend/src/main/java/com/dtao/seminarbooking/controller/SeminarController.java:51-53 | the default remarks are not blank |
| SeminarController.Search | Seminar-Hall-Backend/src/main/java/com/dtao/seminarbooking/controller/SeminarController.java:387-406 | a record is found exactly when it is stored and every given filter matches it |
| SeminarController.SearchWithoutFilters | Seminar-Hall-Backend/src/main/java/com/dtao/seminarbooking/controller/SeminarController.java:387-406 | a search with every filter blank returns every record in order |
| SeminarController.SearchIsOneFilter | Seminar-Hall-Backend/src/main/java/com/dtao/seminarbooking/controller/SeminarController.java:394-404 | the four chained filters are one filter by their conjunction |
| SeminarController.AuditAction | Seminar-Hall-Backend/src/main/java/com/dtao/seminarbooking/controller/SeminarController.java:222-237 | the logged action is one of the five update actions |
| SeminarController.AuditActionIffStatusChanged | Seminar-Hall-Backend/src/main/java/com/dtao/seminarbooking/controller/SeminarController.java:223-285 | a detail update is logged exactly when the upper-cased status is unchanged; approval, rejection and cancellation are logged exactly for those new statuses |
| SeminarController.PatchWithoutStatusIsDetails | Seminar-Hall-Backend/src/main/java/com/dtao/seminarbooking/controller/SeminarController.java:282-285 | an update that does not name a status is logged as a detail update |
| SeminarController.NullAndUnknownLookAlike | Seminar-Hall-Backend/src/main/java/com/dtao/seminarbooking/controller/SeminarController.java:223-230 | a null status and the status "unknown" both read as UNKNOWN, so that change logs as a detail update |
| DepartmentService.AddDepartment | Seminar-Hall-Backend/src/main/java/com/dtao/seminarbooking/service/DepartmentService.java:28-36 | a blank name is a bad request, a name taken in any case is a conflict, and otherwise the department is appended |
| DepartmentService.AddKeepsNamesDistinct | Seminar-Hall-Backend/src/main/java/com/dtao/seminarbooking/service/DepartmentService.java:28-36 | adding keeps department names distinct ignoring case |
| DepartmentService.UpdateDepartment | Seminar-Hall-Backend/src/main/java/com/dtao/seminarbooking/service/DepartmentService.java:42-56 | a blank name is a bad request, an unknown id not found, a name taken by another department a conflict; otherwise only that department's name changes |
| DepartmentService.CaseOnlyRenameAllowed | Seminar-Hall-Backend/src/main/java/com/dtao/seminarbooking/service/DepartmentService.java:50 | a department may be renamed to a different case of its own name |
| DepartmentService.UpdateKeepsNamesDistinct | Seminar-Hall-Backend/src/main/java/com/dtao/seminarbooking/service/DepartmentService.java:42-56 | renaming keeps department names distinct ignoring case |
| DepartmentService.DeleteDepartment | Seminar-Hall-Backend/src/main/java/com/dtao/seminarbooking/service/DepartmentService.java:58-63 | an unknown id is not found; otherwise exactly one department goes |
| DepartmentService.DeleteRemovesOnlyThatId | Seminar-Hall-Backend/src/main/java/com/dtao/seminarbooking/service/DepartmentService.java:58-63 | deleting leaves no department with that id and keeps every other one |
| DepartmentService.GroupByDate | Seminar-Hall-Backend/src/main/java/com/dtao/seminarbooking/service/DepartmentService.java:79-80 | the grouping holds a date exactly when some seminar has it, with the number of such seminars |
| DepartmentService.DaySummaries | Seminar-Hall-Backend/src/main/java/com/dtao/seminarbooking/service/DepartmentService.java:82-89 | one entry per day of the month, free exactly when its count is zero |
| DepartmentService.DepartmentCalendar | Seminar-Hall-Backend/src/main/java/com/dtao/seminarbooking/service/DepartmentService.java:72-90 | a month outside 1..12 is refused, then a year outside 0..9999 as out of model; otherwise every day of the month gets the department's seminar count, the month's first and last day included |
| DepartmentService.DeptDayCountIsSeminarsThatDay | Seminar-Hall-Backend/src/main/java/com/dtao/seminarbooking/service/DepartmentService.java:72-90 | with the corrected query, a day's count is the number of the department's seminars dated that day |
| DepartmentService.FirstOfMonthFreeAsWritten | Seminar-Hall-Backend/src/main/java/com/dtao/seminarbooking/service/DepartmentService.java:77 | the exclusive query as written shows the first of the month free despite a seminar that day; the corrected count is one |
| DepartmentService.DeptDaySeminarsMeaning | Seminar-Hall-Backend/src/main/java/com/dtao/seminarbooking/service/DepartmentService.java:97-100 | the day query with its ends included returns exactly the department's seminars dated that day |
| DepartmentService.DayQueryEmptyAsWritten | Seminar-Hall-Backend/src/main/java/com/dtao/seminarbooking/service/DepartmentService.java:97-100 | the day query as written, `Between(date, date)` with both ends excluded, returns nothing whatever the store holds |
| HallService.FirstByName | Seminar-Hall-Backend/src/main/java/com/dtao/seminarbooking/service/SeminarHallService.java:68 | findFirstByNameIgnoreCase finds the first hall whose name equals the name ignoring case, and none exactly when no hall has it |
| HallService.AddHall | Seminar-Hall-Backend/src/main/java/com/dtao/seminarbooking/service/SeminarHallService.java:21-35 | a missing body, blank name or non-positive capacity is a bad request, a name taken in any case a conflict; otherwise the hall is appended |
| HallService.AddKeepsNamesDistinct | Seminar-Hall-Backend/src/main/java/com/dtao/seminarbooking/service/SeminarHallService.java:31-34 | adding keeps hall names distinct ignoring case |
| HallService.GetHall | Seminar-Hall-Backend/src/main/java/com/dtao/seminarbooking/service/SeminarHallService.java:43-46 | an unknown id is not found; otherwise a stored hall with that id is returned |
| HallService.UpdateHall | Seminar-Hall-Backend/src/main/java/com/dtao/seminarbooking/service/SeminarHallService.java:49-77 | a missing body, blank trimmed name or bad capacity is a bad request, an unknown id not found, another hall holding the name a conflict, and a name held by a hall without an id a server error; otherwise only that hall's trimmed name and capacity change |
| HallService.CaseOnlyRenameAllowed | Seminar-Hall-Backend/src/main/java/com/dtao/seminarbooking/service/SeminarHallService.java:68-71 | a hall may be renamed to a different case of its own name |
| HallService.FirstByNameIsOnlyMatch | Seminar-Hall-Backend/src/main/java/com/dtao/seminarbooking/service/SeminarHallService.java:68 | with distinct names, the first match by name is the only match |
| HallService.UpdateKeepsNamesDistinct | Seminar-Hall-Backend/src/main/java/com/dtao/seminarbooking/service/SeminarHallService.java:49-77 | renaming keeps hall names distinct ignoring case |
| HallService.NotRenamedOnto | Seminar-Hall-Backend/src/main/java/com/dtao/seminarbooking/service/SeminarHallService.java:68-71 | after an accepted rename no other hall bears the new name |
| HallService.DeleteHall | Seminar-Hall-Backend/src/main/java/com/dtao/seminarbooking/service/SeminarHallService.java:80-85 | an unknown id is not found; otherwise exactly one stored hall goes |
| HallService.DeleteRemovesOnlyThatHall | Seminar-Hall-Backend/src/main/java/com/dtao/seminarbooking/service/SeminarHallService.java:80-85 | deleting leaves no hall with that id and keeps every other one |
| OperatorService.Status | Seminar-Hall-Backend/src/main/java/com/dtao/seminarbooking/service/HallOperatorService.java:64-148 | missing halls and operators answer not found, a null list entry a server error, the rest bad request |
| OperatorService.ValidateEmailDomain | Seminar-Hall-Backend/src/main/java/com/dtao/seminarbooking/service/HallOperatorService.java:42-50 | a missing email is refused as required; otherwise the email passes exactly when its trimmed lower-case form ends with an allowed domain |
| OperatorService.EndsWithAny | Seminar-Hall-Backend/src/main/java/com/dtao/seminarbooking/service/HallOperatorService.java:46-48 | the domain loop finds a match exactly when the text ends with some listed domain |
| OperatorService.ValidatePhoneOptional | Seminar-Hall-Backend/src/main/java/com/dtao/seminarbooking/service/HallOperatorService.java:52-57 | a blank or missing phone passes; otherwise the trimmed phone must match the phone pattern |
| OperatorService.Lookup | Seminar-Hall-Backend/src/main/java/com/dtao/seminarbooking/service/HallOperatorService.java:85-101 | a failed hall lookup is a missing hall, or a null entry when the key is null |
| OperatorService.LookupMeaning | Seminar-Hall-Backend/src/main/java/com/dtao/seminarbooking/service/HallOperatorService.java:85-101 | a found hall is stored and carries the id, or the trimmed name ignoring case; lookup by id succeeds exactly when some hall has that id |
| OperatorService.ResolveHalls | Seminar-Hall-Backend/src/main/java/com/dtao/seminarbooking/service/HallOperatorService.java:82-104 | resolution succeeds exactly when every key resolves, giving parallel id and name lists in key order, and otherwise fails with the first failing key's error |
| OperatorService.ResolvedListsParallel | Seminar-Hall-Backend/src/main/java/com/dtao/seminarbooking/service/HallOperatorService.java:82-107 | resolved ids and names belong to the same halls, and by-id resolution keeps the given ids |
| OperatorService.AttachHalls | Seminar-Hall-Backend/src/main/java/com/dtao/seminarbooking/service/HallOperatorService.java:85-107 | without ids and names the add is refused; hall ids win over hall names; success exactly when the given keys resolve |
| OperatorService.AddOperator | Seminar-Hall-Backend/src/main/java/com/dtao/seminarbooking/service/HallOperatorService.java:64-125 | the email, phone, duplicate and hall checks fail in HallOperatorService's order; the saved operator has the normalised email, unused before, and the resolved halls |
| OperatorService.NormalizeIdempotent | Seminar-Hall-Backend/src/main/java/com/dtao/seminarbooking/service/HallOperatorService.java:69-70 | normalising an email twice is normalising once, and does not change whether the domain is allowed |
| OperatorService.AddKeepsEmailsDistinct | Seminar-Hall-Backend/src/main/java/com/dtao/seminarbooking/service/HallOperatorService.java:75-79 | adding keeps operator emails distinct |
| OperatorService.Merge | Seminar-Hall-Backend/src/main/java/com/dtao/seminarbooking/service/HallOperatorService.java:138-147 | merging never changes the operator's id |
| OperatorService.UpdateOperator | Seminar-Hall-Backend/src/main/java/com/dtao/seminarbooking/service/HallOperatorService.java:127-149 | a bad email or phone is refused before the lookup, an unknown id is not found, and otherwise the stored operator is merged with the normalised patch |
| OperatorService.MergeKeepsUnnamed | Seminar-Hall-Backend/src/main/java/com/dtao/seminarbooking/service/HallOperatorService.java:139-146 | each field the patch leaves null (hall lists: null or empty) keeps its stored value, and each field the patch gives replaces it |
| OperatorService.UpdateCanUnpairHalls | Seminar-Hall-Backend/src/main/java/com/dtao/seminarbooking/service/HallOperatorService.java:143-146 | an update that gives only hall ids leaves id and name lists of different lengths |
| OperatorService.DeleteOperator | Seminar-Hall-Backend/src/main/java/com/dtao/seminarbooking/service/HallOperatorService.java:163-168 | an unknown id is not found; otherwise exactly one stored operator goes |
| OperatorService.DeleteRemovesOnlyThatOperator | Seminar-Hall-Backend/src/main/java/com/dtao/seminarbooking/service/HallOperatorService.java:163-168 | deleting leaves no operator with that id and keeps every other one |
| UserService.AddUser | Seminar-Hall-Backend/src/main/java/com/dtao/seminarbooking/service/UserService.java:29-61 | name, email, phone, duplicate and password checks fail in UserService's order; a saved user has the encoded password and a creation time, and nothing else changes |
| UserService.AddKeepsContactsDistinct | Seminar-Hall-Backend/src/main/java/com/dtao/seminarbooking/service/UserService.java:42-51 | adding keeps user emails and phones distinct |
| UserService.RawPasswordNotStored | Seminar-Hall-Backend/src/main/java/com/dtao/seminarbooking/service/UserService.java:53-57 | the stored password is the encoder's output, never the raw password when the encoder changes it |
| UserService.PatchUser | Seminar-Hall-Backend/src/main/java/com/dtao/seminarbooking/service/UserService.java:94-104 | a patch never changes id, creation data or the active flag, and a given password is stored encoded |
| UserService.UpdateUser | Seminar-Hall-Backend/src/main/java/com/dtao/seminarbooking/service/UserService.java:93-106 | the update finds nothing exactly when no user has the id; otherwise the reply is the first user with that id with the patch applied |
| UserService.PatchKeepsUnnamed | Seminar-Hall-Backend/src/main/java/com/dtao/seminarbooking/service/UserService.java:95-99 | each of name, email, phone, role and department keeps its value when the patch leaves it null and takes the patch's value otherwise |
| UserService.UpdateSkipsValidation | Seminar-Hall-Backend/src/main/java/com/dtao/seminarbooking/service/UserService.java:93-106 | an update may store an email the add would refuse |
| RequestController.Requests | Seminar-Hall-Backend/src/main/java/com/dtao/seminarbooking/controller/RequestController.java:57-67 | a blank filter returns every record; otherwise exactly the records whose upper-cased status is the trimmed upper-cased filter |
| RequestController.RequestsKeepOrder | Seminar-Hall-Backend/src/main/java/com/dtao/seminarbooking/controller/RequestController.java:59-65 | the filtered list keeps the store's order |
| RequestController.Summary | Seminar-Hall-Backend/src/main/java/com/dtao/seminarbooking/controller/RequestController.java:103-109 | the summary holds exactly the statuses that occur, each with its positive count |
| RequestController.Groups | Seminar-Hall-Backend/src/main/java/com/dtao/seminarbooking/controller/RequestController.java:104-108 | the group keys are the statuses that occur, each once |
| RequestController.SummaryAddsUp | Seminar-Hall-Backend/src/main/java/com/dtao/seminarbooking/controller/RequestController.java:103-109 | the summary counts add up to the number of records |
| RequestController.GroupsAreSummaryKeys | Seminar-Hall-Backend/src/main/java/com/dtao/seminarbooking/controller/RequestController.java:103-109 | the group keys are the summary's keys |
| RequestController.FilterAgreesWithSummary | Seminar-Hall-Backend/src/main/java/com/dtao/seminarbooking/controller/RequestController.java:59-109 | filtering by a status returns as many records as the summary counts for it |
| RequestController.UnknownFilterMissesNullStatus | Seminar-Hall-Backend/src/main/java/com/dtao/seminarbooking/controller/RequestController.java:59-109 | a record without status counts as UNKNOWN in the summary but is not found by the UNKNOWN filter |
| OtpService.Retired | Seminar-Hall-Backend/src/main/java/com/dtao/seminarbooking/service/OtpService.java:43-47 | retiring marks every live token of the user used and changes nothing else |
| OtpService.LiveCountAppend | Seminar-Hall-Backend/src/main/java/com/dtao/seminarbooking/service/OtpService.java:43-55 | the live tokens of two lists add up |
| OtpService.OneLiveTokenAfterIssue | Seminar-Hall-Backend/src/main/java/com/dtao/seminarbooking/service/OtpService.java:43-55 | after issuing a code the user has exactly one live token |
| OtpService.Latest | Seminar-Hall-Backend/src/main/java/com/dtao/seminarbooking/service/OtpService.java:71-77 | the chosen token is the first live token of the user with the latest expiry, and there is none exactly when the user has no live token |
| OtpService.OtpStore.constructor | Seminar-Hall-Backend/src/main/java/com/dtao/seminarbooking/service/OtpService.java:24-31 | a new store has the given users and passwords and no tokens |
| OtpService.OtpStore.RetireLive | Seminar-Hall-Backend/src/main/java/com/dtao/seminarbooking/service/OtpService.java:43-47 | the tokens become the retired ones and users and passwords stay |
| OtpService.OtpStore.GenerateOtp | Seminar-Hall-Backend/src/main/java/com/dtao/seminarbooking/service/OtpService.java:36-61 | an unknown email changes nothing; otherwise the user's live tokens are retired and one new token expiring in five minutes is added |
| OtpService.OtpStore.VerifyOtp | Seminar-Hall-Backend/src/main/java/com/dtao/seminarbooking/service/OtpService.java:65-92 | unknown user, no token, expired, valid and invalid are decided in that order on the latest token; only a valid code retires the user's tokens |
| OtpService.OtpStore.ResetPassword | Seminar-Hall-Backend/src/main/java/com/dtao/seminarbooking/service/OtpService.java:95-113 | an unknown email changes nothing; otherwise the user's password becomes the new hash and the live tokens are retired |
| OtpService.NoSecondUse | Seminar-Hall-Backend/src/main/java/com/dtao/seminarbooking/service/OtpService.java:84-88 | after a valid check the user has no token left to verify against |
| OtpService.FreshCodeIsJudged | Seminar-Hall-Backend/src/main/java/com/dtao/seminarbooking/service/OtpService.java:43-55 | the code issued last is the one the next check uses |
| EmailService.EscapeIsCharwise | Seminar-Hall-Backend/src/main/java/com/dtao/seminarbooking/service/EmailService.java:341-344 | the four chained replacements escape each character on its own, ampersand first |
| EmailService.ChainIsCharwise | Seminar-Hall-Backend/src/main/java/com/dtao/seminarbooking/service/EmailService.java:343 | the chain of replaceAll calls equals escaping character by character |
| EmailService.EscapeRemovesMarkup | Seminar-Hall-Backend/src/main/java/com/dtao/seminarbooking/service/EmailService.java:341-344 | a null text escapes to the empty text, and an escaped text holds no angle bracket or double quote |
| EmailService.UnescapeEscape | Seminar-Hall-Backend/src/main/java/com/dtao/seminarbooking/service/EmailService.java:341-344 | escaping loses nothing: decoding the four entities gives the original text back |
| EmailService.EscapePlain | Seminar-Hall-Backend/src/main/java/com/dtao/seminarbooking/service/EmailService.java:341-344 | a text without special characters escapes to itself |
| EmailService.EscapeGrows | Seminar-Hall-Backend/src/main/java/com/dtao/seminarbooking/service/EmailService.java:341-344 | escaping never shortens a text, and lengthens it and adds an ampersand when it holds a special character |
| EmailService.EscapeNotIdempotent | Seminar-Hall-Backend/src/main/java/com/dtao/seminarbooking/service/EmailService.java:341-344 | escaping an escaped text changes it again, so a text must be escaped exactly once |
| EmailService.Safe | Seminar-Hall-Backend/src/main/java/com/dtao/seminarbooking/service/EmailService.java:337-339 | a null or blank value shows as a dash, any other as itself, and the shown value is never blank |
| EmailService.InstitutionEmailIsValid | Seminar-Hall-Backend/src/main/java/com/dtao/seminarbooking/service/EmailService.java:346-350 | every address the institution pattern accepts passes the mail guard |
| EmailService.RowShowsValue | Seminar-Hall-Backend/src/main/java/com/dtao/seminarbooking/service/EmailService.java:326-329 | the value cell of a row decodes to the value given |
| EmailService.DateTimeRows | Seminar-Hall-Backend/src/main/java/com/dtao/seminarbooking/service/EmailService.java:296-320 | a range booking shows from, to and a multi-day or full-day time; any other shows its date and its times or full day |
| EmailService.DateAndTimesRows | Seminar-Hall-Backend/src/main/java/com/dtao/seminarbooking/service/EmailService.java:296-320 | the builder renders exactly the rows the booking's shape calls for |
| EmailService.AppendRows | Seminar-Hall-Backend/src/main/java/com/dtao/seminarbooking/service/EmailService.java:297-319 | appending the rows one after another renders exactly those rows, in order |
| EmailService.RowsShowOneShape | Seminar-Hall-Backend/src/main/java/com/dtao/seminarbooking/service/EmailService.java:296-320 | a range shows three rows and a date booking two, the last being the time, and a Date row appears exactly when there is no range |
| EmailService.PlainRow | Seminar-Hall-Backend/src/main/java/com/dtao/seminarbooking/service/EmailService.java:251 | the corrected remarks row shows the remarks as given |
| EmailService.PreEscapedShowsEntities | Seminar-Hall-Backend/src/main/java/com/dtao/seminarbooking/service/EmailService.java:251 | the remarks row as written shows the escaped text, so remarks holding a special character reach the reader as entities |
| LogService.Chosen | Seminar-Hall-Backend/src/main/java/com/dtao/seminarbooking/service/LogService.java:47-56 | the first header present and not "unknown" wins, in LogService's order, falling back to the peer address |
| LogService.ClientIpAsWritten | Seminar-Hall-Backend/src/main/java/com/dtao/seminarbooking/service/LogService.java:45-62 | a missing request gives "UNKNOWN" |
| LogService.ClientIp | Seminar-Hall-Backend/src/main/java/com/dtao/seminarbooking/service/LogService.java:45-62 | a missing request gives "UNKNOWN"; a value without a comma is kept; the result never holds a comma |
| LogService.ForwardedForDecides | Seminar-Hall-Backend/src/main/java/com/dtao/seminarbooking/service/LogService.java:47-56 | when X-Forwarded-For is usable the other headers do not matter |
| LogService.ChainFirstElement | Seminar-Hall-Backend/src/main/java/com/dtao/seminarbooking/service/LogService.java:58-60 | a proxy chain yields its first element, trimmed |
| LogService.AsWrittenFailsOnlyOnCommas | Seminar-Hall-Backend/src/main/java/com/dtao/seminarbooking/service/LogService.java:58-60 | the code as written fails exactly on a non-empty value made only of commas, and otherwise agrees with the corrected reading |
| LogService.LoneCommaThrows | Seminar-Hall-Backend/src/main/java/com/dtao/seminarbooking/service/LogService.java:59 | a lone comma in X-Forwarded-For makes the code as written index an empty array, where the corrected reading gives the empty address |
| Jwt.WrapLong | Seminar-Hall-Backend/src/main/java/com/dtao/seminarbooking/security/JwtTokenProvider.java:61 | a wrapped value is a long, and a long is kept as it is |
| Jwt.JavaDiv | Seminar-Hall-Backend/src/main/java/com/dtao/seminarbooking/security/JwtTokenProvider.java:147 | long division truncates toward zero |
| Jwt.TokenLifetimeMs | Seminar-Hall-Backend/src/main/java/com/dtao/seminarbooking/security/JwtTokenProvider.java:58-62 | the token lifetime is a long, capped at four weeks with remember-me |
| Jwt.ExpiresInSeconds | Seminar-Hall-Backend/src/main/java/com/dtao/seminarbooking/security/JwtTokenProvider.java:143-148 | without remember-me the configured lifetime in whole seconds; with it at most four weeks, and seven times the lifetime when that does not overflow |
| Jwt.LifetimesAgree | Seminar-Hall-Backend/src/main/java/com/dtao/seminarbooking/security/JwtTokenProvider.java:58-62 | the reported lifetime is the issued lifetime in whole seconds |
| Jwt.RememberMeNotShorter | Seminar-Hall-Backend/src/main/java/com/dtao/seminarbooking/security/JwtTokenProvider.java:58-62 | for a non-negative configured lifetime remember-me never shortens the token |
| Jwt.HugeExpirationWraps | Seminar-Hall-Backend/src/main/java/com/dtao/seminarbooking/security/JwtTokenProvider.java:61 | a configured lifetime past a seventh of the long range wraps to a negative remember-me lifetime |
| Jwt.Subject | Seminar-Hall-Backend/src/main/java/com/dtao/seminarbooking/security/JwtTokenProvider.java:55-56 | the subject is missing exactly when the name is; otherwise it is trimmed, lower-case, and equal to the trimmed name up to case |
| Jwt.GenerateToken | Seminar-Hall-Backend/src/main/java/com/dtao/seminarbooking/security/JwtTokenProvider.java:54-84 | a token needs a role; it carries the normalised subject, the role, the configured issuer and audience and the remember-me flag |
| Jwt.TokenLivesAsReported | Seminar-Hall-Backend/src/main/java/com/dtao/seminarbooking/security/JwtTokenProvider.java:64-73 | the issued token expires within a second of the lifetime the endpoint reports |
| Jwt.DefaultRole | Seminar-Hall-Backend/src/main/java/com/dtao/seminarbooking/security/JwtTokenProvider.java:87-96 | the first authority, stripped of ROLE_ and upper-cased, is the role, DEPARTMENT when there is none |
| Jwt.GenerateTokenDefaultRole | Seminar-Hall-Backend/src/main/java/com/dtao/seminarbooking/security/JwtTokenProvider.java:87-96 | the two-argument form issues a token with the default role |
| Jwt.RoleFromClaims | Seminar-Hall-Backend/src/main/java/com/dtao/seminarbooking/security/JwtTokenProvider.java:108-115 | the role read back from a token is upper-case |
| Jwt.ClaimsRoundTrip | Seminar-Hall-Backend/src/main/java/com/dtao/seminarbooking/security/JwtTokenProvider.java:99-154 | an issued token reads back its subject and upper-cased role, and passes the role check exactly for that role in any case |
| Jwt.SubjectIsStable | Seminar-Hall-Backend/src/main/java/com/dtao/seminarbooking/security/JwtTokenProvider.java:55-56 | normalising a subject twice is normalising once |
| CustomUserDetails.NewDetails | Seminar-Hall-Backend/src/main/java/com/dtao/seminarbooking/security/CustomUserDetails.java:19-22 | the username is missing exactly when given missing, and is the trimmed lower-case form of the given name |
| CustomUserDetails.RoleName | Seminar-Hall-Backend/src/main/java/com/dtao/seminarbooking/security/CustomUserDetails.java:26-31 | a null or blank role is DEPARTMENT, any other its trimmed upper-case form |
| CustomUserDetails.Authorities | Seminar-Hall-Backend/src/main/java/com/dtao/seminarbooking/security/CustomUserDetails.java:25-33 | there is exactly one authority, ROLE_ followed by the role name |
| CustomUserDetails.AccountFlags | Seminar-Hall-Backend/src/main/java/com/dtao/seminarbooking/security/CustomUserDetails.java:45-48 | the account is never expired, locked, credential-expired or disabled |
| CustomUserDetails.AuthorityIsNormalised | Seminar-Hall-Backend/src/main/java/com/dtao/seminarbooking/security/CustomUserDetails.java:25-33 | the authority's role part is upper-case and trimmed |
| CustomUserDetails.RoleNameIsNormalised | Seminar-Hall-Backend/src/main/java/com/dtao/seminarbooking/security/CustomUserDetails.java:26-31 | the role name is upper-case and trimmed whatever the stored role |
| CustomUserDetails.SameRoleSameAuthority | Seminar-Hall-Backend/src/main/java/com/dtao/seminarbooking/security/CustomUserDetails.java:25-33 | stored roles equal up to case and surrounding blanks give the same authority |
| ClientTime.HhmmToNumber | Seminar-Hall-Frontend/src/pages/Admin/AddSeminarPage.js:52-57 | a falsy input reads as null |
| ClientTime.NaNExactlyWithoutColon | Seminar-Hall-Frontend/src/pages/Admin/AddSeminarPage.js:52-57 | a time reads as NaN exactly when it is truthy, has no colon and its hours part is a number |
| ClientTime.HhmmToMinutes | Seminar-Hall-Frontend/src/pages/Admin/AddSeminarPage.js:52-57 | the minutes hhmmToMinutes reads when they are a number: a falsy input gives none; with ClientTime.MinutesRoundTrip, every written time reads back as its minutes |
| ClientTime.ColonlessReadsNaN | Seminar-Hall-Frontend/src/pages/Admin/AddSeminarPage.js:52-57 | a run of digits without a colon, such as "930", reads as NaN and not as null |
| ClientTime.JsRem | Seminar-Hall-Frontend/src/pages/Admin/AddSeminarPage.js:62 | JavaScript's remainder takes the sign of the dividend |
| ClientTime.MinutesToHHMM | Seminar-Hall-Frontend/src/pages/Admin/AddSeminarPage.js:59-64 | null writes as the empty text; with ClientTime.MinutesText, a non-negative time writes its hours and minutes |
| ClientTime.ReadBackDigits | Seminar-Hall-Frontend/src/pages/Admin/AddSeminarPage.js:52-57 | "HH:MM" made of two runs of digits reads back as the hours times 60 plus the minutes |
| ClientTime.HourMinuteReadBack | Seminar-Hall-Frontend/src/pages/Admin/AddSeminarPage.js:52-57 | every hour and minute written with two-digit padding reads back as h * 60 + m |
| ClientTime.MinutesText | Seminar-Hall-Frontend/src/pages/Admin/AddSeminarPage.js:59-64 | a non-negative time is written as its padded hours and minutes, which add back up to it |
| ClientTime.MinutesRoundTrip | Seminar-Hall-Frontend/src/pages/Admin/AddSeminarPage.js:52-64 | reading back a written time gives the minutes it was written from |
| ClientTime.JsNumber | Seminar-Hall-Frontend/src/pages/Admin/AddSeminarPage.js:68 | Number() of a run of decimal digits is its value |
| ClientTime.To12Label | Seminar-Hall-Frontend/src/pages/Admin/AddSeminarPage.js:66-75 | a falsy input labels as the empty text; a missing minute part prints as "undefined" |
| ClientTime.Hour12 | Seminar-Hall-Frontend/src/pages/Admin/AddSeminarPage.js:70 | the 12-hour clock's hour lies in 1..12 |
| ClientTime.LabelOfDigits | Seminar-Hall-Frontend/src/pages/Admin/AddSeminarPage.js:66-75 | the label of "HH:MM" digits is the 12-hour hour, the minutes and AM or PM by the hour |
| ClientTime.To12LabelOfTime | Seminar-Hall-Frontend/src/pages/Admin/AddSeminarPage.js:66-75 | a time of day labels as its 12-hour hour, the same minutes, and PM exactly from noon on |
| ClientTime.ClockHour | Seminar-Hall-Frontend/src/pages/Admin/AddSeminarPage.js:70 | `((hh + 11) % 12) + 1` is the 12-hour clock's hour |
| ClientTime.NumberOfPad2 | Seminar-Hall-Frontend/src/pages/Admin/AddSeminarPage.js:68 | Number() reads back a padded non-negative number |
| ClientTime.IntervalsOverlapMeaning | Seminar-Hall-Frontend/src/pages/Admin/AddSeminarPage.js:77-81 | the client's overlap test is symmetric, false on a missing bound, and on proper intervals true exactly when they share a minute |
| ClientTime.GridLength | Seminar-Hall-Frontend/src/pages/Admin/AddSeminarPage.js:40-49 | the options are four per hour from the start hour, then the end hour alone, and none when the end precedes the start |
| ClientTime.Build15MinOptions | Seminar-Hall-Frontend/src/pages/Admin/AddSeminarPage.js:40-49 | the nested loops produce exactly the quarter-hour grid |
| ClientTime.GridIndex | Seminar-Hall-Frontend/src/pages/Admin/AddSeminarPage.js:42-46 | option (h - startHour) * 4 + m / 15 is h:m |
| ClientTime.GridSlotReadsBack | Seminar-Hall-Frontend/src/pages/Admin/AddSeminarPage.js:40-57 | option i reads back as the start hour plus i quarters, so the options ascend a quarter-hour apart |
| ClientTime.GridSlotIsMinutesText | Seminar-Hall-Frontend/src/pages/Admin/AddSeminarPage.js:40-64 | each option is what minutesToHHMM writes for its time |
| ClientTime.GridEnds | Seminar-Hall-Frontend/src/pages/Admin/AddSeminarPage.js:40-49 | the grid runs from startHour:00 to endHour:00 |
| ClientTime.PageGrids | Seminar-Hall-Frontend/src/pages/Admin/AddSeminarPage.js:50 | the admin grid has 41 options from 08:00 to 18:00 and the department form's 69 from 06:00 to 23:00 |
| ClientTime.DatesFromUnique | Seminar-Hall-Frontend/src/pages/Admin/AddSeminarPage.js:83-93 | a run of dates is determined by its first day and its length |
| ClientTime.ListDatesBetween | Seminar-Hall-Frontend/src/pages/Admin/AddSeminarPage.js:83-93 | the loop lists every date from the start to the end, a day at a time |
| ClientTime.DateKeys | Seminar-Hall-Frontend/src/pages/Admin/AddSeminarPage.js:404-406 | each listed date is filed under its ISO text, which parses back to it |
| ClientTime.RangeKeysMeaning | Seminar-Hall-Frontend/src/pages/Admin/AddSeminarPage.js:400-418 | a range's keys are exactly the ISO texts of the dates it covers |
| ClientTime.DateKey | Seminar-Hall-Frontend/src/pages/Admin/AddSeminarPage.js:387-392 | a truthy ISO date is its own key, and nothing else has one |
| ClientBookings.SlotEntry | Seminar-Hall-Frontend/src/pages/Dept/AddSeminarPage.js:681-727 | a daySlots value is filed under its own date key; it is a whole day exactly when the value is null or a time reads as null, and otherwise a time entry with the numbers the times read as, NaN included |
| ClientBookings.DateEntry | Seminar-Hall-Frontend/src/pages/Dept/AddSeminarPage.js:729-776 | a single-date record is filed under its own date key; it is a whole day exactly when a time is missing or reads as null, and otherwise a time entry with the numbers the times read as, NaN included |
| ClientBookings.Contribution | Seminar-Hall-Frontend/src/pages/Admin/AddSeminarPage.js:394-442 | a record that is not approved files nothing; each filed entry carries its date key and the record's hall |
| ClientBookings.Filings | Seminar-Hall-Frontend/src/pages/Admin/AddSeminarPage.js:394 | the records' filings are listed in record order |
| ClientBookings.ColumnMembers | Seminar-Hall-Frontend/src/pages/Admin/AddSeminarPage.js:407-417 | an entry is in a date's list exactly when some record files it under that date |
| ClientBookings.Normalize | Seminar-Hall-Frontend/src/pages/Admin/AddSeminarPage.js:385-444 | every date's list is the column of the records' filings, in record order |
| ClientBookings.FileAll | Seminar-Hall-Frontend/src/pages/Admin/AddSeminarPage.js:405-418 | one record adds its entry to the list of each date it files, and changes no other list |
| ClientBookings.HallEntries | Seminar-Hall-Frontend/src/pages/Admin/AddSeminarPage.js:465-467 | the hall's entries are exactly those matching it by name or id |
| ClientBookings.CalendarDayStatus | Seminar-Hall-Frontend/src/pages/Admin/AddSeminarPage.js:455-476 | free exactly when the relevant list is empty, full exactly when one of its entries blocks the whole day, partial otherwise |
| ClientBookings.StatusFullIffBlocked | Seminar-Hall-Frontend/src/pages/Admin/AddSeminarPage.js:446-476 | for a chosen hall the calendar shows a day full exactly when the full-day test blocks it |
| ClientBookings.BlockedIffRecordBlocks | Seminar-Hall-Frontend/src/pages/Admin/AddSeminarPage.js:385-453 | a date is blocked for a hall exactly when some record files a whole-day entry of that hall on it |
| ClientBookings.AdminFiles | Seminar-Hall-Frontend/src/pages/Admin/AddSeminarPage.js:394-442 | the admin page files an approved range record on each date of its range as a whole day, and a timed record on its date exactly when neither time reads as null (NaN is filed), whole-day exactly for 00:00-24:00 |
| ClientBookings.DeptFiles | Seminar-Hall-Frontend/src/pages/Dept/AddSeminarPage.js:649-746 | the department pages file every daySlots key of a record without a range, a null slot or one with a time that reads as null as a whole day (a NaN time files a time entry), and a plain record on exactly one date |
| ClientBookings.DeptFallsBackToToday | Seminar-Hall-Frontend/src/pages/Dept/DeptAddSeminarPage.js:310 | a department record with no usable date is filed under today, as a whole day exactly when a time is missing or reads as null |
| ClientBookings.NaNEntryMeetsNothing | Seminar-Hall-Frontend/src/pages/Admin/AddSeminarPage.js:77-81 | a time entry with a NaN bound meets no interval and is not a whole day, since NaN passes the null test and fails every comparison |
| ClientBookings.ColonlessSlotBlocksNothing | Seminar-Hall-Frontend/src/pages/Dept/AddSeminarPage.js:697-726 | on the department pages a daySlots value with colonless digit times files a NaN time entry that blocks nothing |
| ClientBookings.FirstFreeUnique | Seminar-Hall-Frontend/src/pages/Admin/AddSeminarPage.js:531-551 | the suggestion is determined by its inputs |
| ClientBookings.HasConflict | Seminar-Hall-Frontend/src/pages/Admin/AddSeminarPage.js:534-546 | the inner loop finds a conflict exactly when some entry of the hall overlaps the candidate window |
| ClientBookings.FirstFree | Seminar-Hall-Frontend/src/pages/Admin/AddSeminarPage.js:527-551 | the suggestion is the first clear quarter-hour start from the first candidate that is not before the day's start and ends by its end, or none |
| BookingForms.SearchWindow | Seminar-Hall-Frontend/src/pages/Admin/AddSeminarPage.js:528-530 | the suggestion window runs from the first option to a quarter after the last, 08:00 to 18:15 |
| BookingForms.TimeGates | Seminar-Hall-Frontend/src/pages/Admin/AddSeminarPage.js:479-495 | a request passes the gates exactly when it has a hall, a date and readable times in order, and then carries its date key and minutes; failures are the listed messages |
| BookingForms.RangeGates | Seminar-Hall-Frontend/src/pages/Admin/AddSeminarPage.js:563-578 | a range passes exactly when it has a hall and dates in order, and then yields the non-empty keys of its days |
| BookingForms.Overlapping | Seminar-Hall-Frontend/src/pages/Admin/AddSeminarPage.js:503-510 | the overlapping entries are exactly the hall's entries meeting the request, and there are none exactly when the window is clear |
| BookingForms.CheckTimeWise | Seminar-Hall-Frontend/src/pages/Admin/AddSeminarPage.js:479-561 | a failed gate is reported as such; otherwise the day is taken exactly when blocked, available exactly when unblocked and clear, and a conflict lists the overlapping entries with the page's suggestion |
| BookingForms.CheckRequest | Seminar-Hall-Frontend/src/pages/Dept/DeptAddSeminarPage.js:349-369 | the decision after the gates: taken, available or conflict as above, with no suggestion on the department form and the first free slot from the page's starting point elsewhere |
| BookingForms.ClearIffNoFilingMeets | Seminar-Hall-Frontend/src/pages/Admin/AddSeminarPage.js:385-510 | a window is clear on the index exactly when no record files an entry of the hall meeting it on that date |
| BookingForms.ProblemDays | Seminar-Hall-Frontend/src/pages/Admin/AddSeminarPage.js:582-638 | the conflicting days are exactly the range's days with a problem, in order |
| BookingForms.CheckDay | Seminar-Hall-Frontend/src/pages/Admin/AddSeminarPage.js:582-638 | one day of the range conflicts exactly when it has a problem, and the conflict is explained by it |
| BookingForms.CheckSharedDay | Seminar-Hall-Frontend/src/pages/Admin/AddSeminarPage.js:583-637 | on the admin and department pages a day conflicts exactly when it is blocked, its slot times are unreadable or reversed, or its slot is taken |
| BookingForms.SharedDayProblem | Seminar-Hall-Frontend/src/pages/Admin/AddSeminarPage.js:584-630 | a taken slot comes with the first free window of the same length in the day, and other problems with no suggestion |
| BookingForms.CheckDaySlot | Seminar-Hall-Frontend/src/pages/Admin/AddSeminarPage.js:589-630 | a complete slot read from the form is invalid, clear, or taken, and a taken slot comes with the first free window of its length in the day |
| BookingForms.CheckStrictDay | Seminar-Hall-Frontend/src/pages/Dept/DeptAddSeminarPage.js:380-398 | on the department form a day conflicts exactly when its problem is reverse time, slot booked or already booked, with no suggestion |
| BookingForms.CheckStrictSlot | Seminar-Hall-Frontend/src/pages/Dept/DeptAddSeminarPage.js:386-395 | a timed day on the department form fails only for reverse time or a booked slot |
| BookingForms.ConflictIsNotClear | Seminar-Hall-Frontend/src/pages/Admin/AddSeminarPage.js:598-604 | some hall entry overlaps the window exactly when the window is not clear |
| BookingForms.CheckDayWise | Seminar-Hall-Frontend/src/pages/Admin/AddSeminarPage.js:563-652 | a failed gate is reported as such; otherwise the range is available exactly when no day has a problem, and the conflicts are exactly the problem days, each explained |
| BookingForms.CheckDays | Seminar-Hall-Frontend/src/pages/Admin/AddSeminarPage.js:582-638 | the day loop collects exactly the problem days, each explained |
| BookingForms.ProblemDaysEmpty | Seminar-Hall-Frontend/src/pages/Admin/AddSeminarPage.js:640-651 | there are no conflicts exactly when no day has a problem |
| BookingForms.DayAgreesWithTimeCheck | Seminar-Hall-Frontend/src/pages/Admin/AddSeminarPage.js:479-638 | a day with a slot passes the day-wise check exactly when the same times pass the time-wise check on that date |
| BookingForms.SlotlessDays | Seminar-Hall-Frontend/src/pages/Dept/DeptAddSeminarPage.js:383-398 | a day without a slot fails on the shared pages only when blocked, and on the department form whenever the hall has any booking that day |
| BookingForms.StrictAtLeastAsStrict | Seminar-Hall-Frontend/src/pages/Dept/DeptAddSeminarPage.js:371-403 | every day the shared pages refuse, the department form refuses too |
| BookingForms.PartialBookingSplitsPolicies | Seminar-Hall-Frontend/src/pages/Dept/DeptAddSeminarPage.js:383-398 | a partly booked day without a slot passes on the shared pages but is already booked on the department form |
| BookingForms.DefaultIsNineToTen | Seminar-Hall-Frontend/src/pages/Admin/AddSeminarPage.js:801-805 | the default slot is 09:00 to 10:00, options four and eight of the grid |
| BookingForms.SyncDaySlots | Seminar-Hall-Frontend/src/pages/Admin/AddSeminarPage.js:789-812 | with missing or reversed dates the slots stay; otherwise they are synced to the range's days |
| BookingForms.FillRange | Seminar-Hall-Frontend/src/pages/Admin/AddSeminarPage.js:799-806 | filling keeps every slot and adds the default slot for each day of the range that had none |
| BookingForms.DropOutside | Seminar-Hall-Frontend/src/pages/Admin/AddSeminarPage.js:807-809 | dropping keeps exactly the slots of the range's days, unchanged |
| BookingForms.SyncedIdempotent | Seminar-Hall-Frontend/src/pages/Admin/AddSeminarPage.js:789-812 | syncing twice to the same range is syncing once |
| BookingForms.SyncedKeepsSlots | Seminar-Hall-Frontend/src/pages/Dept/DeptAddSeminarPage.js:471-484 | syncing keeps every chosen slot inside the range; filling pages hold a slot for every day, the department form only the chosen days inside the range |
| BookingForms.PayloadDaySlots | Seminar-Hall-Frontend/src/pages/Dept/AddSeminarPage.js:1053-1066 | the submitted daySlots have a key for each day of the range, with the times of a complete slot and null for a full day |
| BookingForms.SlotsForDays | Seminar-Hall-Frontend/src/pages/Dept/DeptAddSeminarPage.js:445-456 | the payload loop writes each day's complete slot or null |
| BookingForms.PayloadWithinRange | Seminar-Hall-Frontend/src/pages/Dept/AddSeminarPage.js:1053-1082 | every submitted key is an ISO date inside the range, and the server refuses an entry exactly when its times are out of order |
| BookingForms.ExtractIsoDate | Seminar-Hall-Frontend/src/pages/Dept/AddSeminarPage.js:1142-1147 | a record has no listing date exactly when its first present date field is falsy; otherwise the date is that field up to its first "T" |
| BookingForms.DayList | Seminar-Hall-Frontend/src/pages/Dept/AddSeminarPage.js:1163-1184 | the day list holds exactly the records listed on the clicked day for the hall |
| BookingForms.DatedBookingListedOnItsDay | Seminar-Hall-Frontend/src/pages/Dept/AddSeminarPage.js:1163-1184 | with no hall chosen, an approved or pending dated booking is listed exactly on its own date |
| AllSeminars.ShownStatus | Seminar-Hall-Frontend/src/pages/Admin/AllSeminarsPage.js:62 | the shown status is upper-case and equals, ignoring case, the record's status or the default |
| AllSeminars.NormalizeSeminar | Seminar-Hall-Frontend/src/pages/Admin/AllSeminarsPage.js:50-68 | a seminar row is tagged as a seminar, defaults to APPROVED, keeps its id or gets a "seminar-" one, and carries reason and creator |
| AllSeminars.NormalizeRequest | Seminar-Hall-Frontend/src/pages/Admin/AllSeminarsPage.js:70-86 | a request row is tagged as a request, defaults to PENDING, keeps its id or gets a "req-" one, and has no reason or creator |
| AllSeminars.SeminarList | Seminar-Hall-Frontend/src/pages/Admin/AllSeminarsPage.js:108 | the seminar list normalises each raw record in place |
| AllSeminars.RequestList | Seminar-Hall-Frontend/src/pages/Admin/AllSeminarsPage.js:109 | the request list normalises each raw record in place |
| AllSeminars.KeyForIffSameFields | Seminar-Hall-Frontend/src/pages/Admin/AllSeminarsPage.js:112-113 | two rows share a key exactly when their trimmed hall, date, start and end agree |
| AllSeminars.Push | Seminar-Hall-Frontend/src/pages/Admin/AllSeminarsPage.js:115-122 | a push adds the key and leaves every other key's row alone |
| AllSeminars.First | Seminar-Hall-Frontend/src/pages/Admin/AllSeminarsPage.js:115-125 | the first row with a key, among seminars when asked, or none exactly when there is no such row |
| AllSeminars.FoldKeepsKept | Seminar-Hall-Frontend/src/pages/Admin/AllSeminarsPage.js:115-125 | a key is seen exactly when some row has it, and the kept row is the first seminar with it, else the first row |
| AllSeminars.FoldFromAppend | Seminar-Hall-Frontend/src/pages/Admin/AllSeminarsPage.js:124-125 | pushing one list after another is pushing their concatenation |
| AllSeminars.SeminarsThenRequests | Seminar-Hall-Frontend/src/pages/Admin/AllSeminarsPage.js:111-125 | a key is shown exactly when a seminar or a request has it; a seminar always wins, and a request row is shown exactly when no seminar has the key |
| AllSeminars.Seen.constructor | Seminar-Hall-Frontend/src/pages/Admin/AllSeminarsPage.js:111 | the seen map starts empty |
| AllSeminars.Seen.PushIfNew | Seminar-Hall-Frontend/src/pages/Admin/AllSeminarsPage.js:115-122 | the map gains the row by the push rule, and a new key goes to the end of the insertion order |
| AllSeminars.Seen.Put | Seminar-Hall-Frontend/src/pages/Admin/AllSeminarsPage.js:117-120 | setting a key replaces its row, and a new key goes to the end of the insertion order |
| AllSeminars.Seen.PushAll | Seminar-Hall-Frontend/src/pages/Admin/AllSeminarsPage.js:124-125 | pushing a list leaves the map the fold of the list |
| AllSeminars.Seen.Values | Seminar-Hall-Frontend/src/pages/Admin/AllSeminarsPage.js:127 | the values come out in insertion order |
| AllSeminars.StrLessTotal | Seminar-Hall-Frontend/src/pages/Admin/AllSeminarsPage.js:130-132 | any two different texts are ordered one way |
| AllSeminars.Insert | Seminar-Hall-Frontend/src/pages/Admin/AllSeminarsPage.js:127-133 | inserting adds exactly the row and keeps a sorted list sorted |
| AllSeminars.SortCombined | Seminar-Hall-Frontend/src/pages/Admin/AllSeminarsPage.js:127-133 | the sorted list is ordered newest date first, then by descending id, and is a permutation of the input |
| AllSeminars.Combine | Seminar-Hall-Frontend/src/pages/Admin/AllSeminarsPage.js:108-133 | the combined list is sorted and lists each seen key's kept row exactly once |
| AllSeminars.PermutationListsEntries | Seminar-Hall-Frontend/src/pages/Admin/AllSeminarsPage.js:127-133 | sorting keeps the list listing every kept row once |
| AllSeminars.DistinctKeysSurviveSort | Seminar-Hall-Frontend/src/pages/Admin/AllSeminarsPage.js:127-133 | rows at different positions of the sorted list have different keys |
| AllSeminars.Filtered | Seminar-Hall-Frontend/src/pages/Admin/AllSeminarsPage.js:185-190 | a row is shown exactly when it is listed and every given filter is contained in its field ignoring case |
| AllSeminars.EmptyFiltersShowAll | Seminar-Hall-Frontend/src/pages/Admin/AllSeminarsPage.js:185-190 | with every filter empty all rows are shown, in order |
| AllSeminars.FilteredStaysSorted | Seminar-Hall-Frontend/src/pages/Admin/AllSeminarsPage.js:185-190 | filtering a sorted list keeps it sorted |
| AllSeminars.PassesIgnoresCase | Seminar-Hall-Frontend/src/pages/Admin/AllSeminarsPage.js:186-188 | the filter test does not depend on case |
| AllSeminars.FilterIdempotent | Seminar-Hall-Frontend/src/pages/Admin/AllSeminarsPage.js:185-190 | filtering twice by the same filters is filtering once |
| SeminarDetails.Hours | Seminar-Hall-Frontend/src/pages/Admin/SeminarDetails.js:13-16 | there are 24 hour cells, cell i having index i |
| SeminarDetails.ParseClock | Seminar-Hall-Frontend/src/pages/Admin/SeminarDetails.js:148-152 | a read clock has hours and minutes of at most two digits |
| SeminarDetails.ReadPairs | Seminar-Hall-Frontend/src/pages/Admin/SeminarDetails.js:148-152 | two two-digit runs joined by a colon read as their values |
| SeminarDetails.LabelReadBack | Seminar-Hall-Frontend/src/pages/Admin/SeminarDetails.js:13-16 | every hour label reads back as that hour on the clock |
| SeminarDetails.HoursReadBack | Seminar-Hall-Frontend/src/pages/Admin/SeminarDetails.js:13-16 | the label of cell i reads back as hour i |
| SeminarDetails.EndIndex | Seminar-Hall-Frontend/src/pages/Admin/SeminarDetails.js:156-160 | a booking ending on the hour ends at that hour; one ending past it ends at the next hour, at most 24 |
| SeminarDetails.SpanHours | Seminar-Hall-Frontend/src/pages/Admin/SeminarDetails.js:165-172 | a booking's hours are exactly the hours 0..23 it covers |
| SeminarDetails.CoverOf | Seminar-Hall-Frontend/src/pages/Admin/SeminarDetails.js:146-173 | the booked hours of a list are exactly the hours 0..23 some booking covers |
| SeminarDetails.BookedHours | Seminar-Hall-Frontend/src/pages/Admin/SeminarDetails.js:121-178 | the booked hours are exactly the hours covered by an approved booking of the hall on the day |
| SeminarDetails.DayBookings | Seminar-Hall-Frontend/src/pages/Admin/SeminarDetails.js:131-141 | the day's bookings are exactly the approved bookings of the hall dated that day |
| SeminarDetails.CoveredHours | Seminar-Hall-Frontend/src/pages/Admin/SeminarDetails.js:165-172 | the loop over one booking adds exactly its hours |
| SeminarDetails.HoursOfAll | Seminar-Hall-Frontend/src/pages/Admin/SeminarDetails.js:146-173 | the loop over the day's bookings gathers exactly their hours |
| SeminarDetails.Extend | Seminar-Hall-Frontend/src/pages/Admin/SeminarDetails.js:278-279 | the extended range contains the old range and the clicked hour, each end moving only to the clicked hour |
| SeminarDetails.ExtendIsSmallest | Seminar-Hall-Frontend/src/pages/Admin/SeminarDetails.js:278-279 | every range containing the old range and the clicked hour contains the extension |
| SeminarDetails.ClickKeepsGood | Seminar-Hall-Frontend/src/pages/Admin/SeminarDetails.js:229-287 | a click never leaves a selection that holds a booked hour or is empty |
| SeminarDetails.ClickOutsideGrowsOrStays | Seminar-Hall-Frontend/src/pages/Admin/SeminarDetails.js:272-286 | a click outside the selection extends it to the hour, and leaves it exactly when the extension holds a booked hour |
| SeminarDetails.HighlightedCount | Seminar-Hall-Frontend/src/pages/Admin/SeminarDetails.js:289 | a selection highlights as many hours as it is long |
| SeminarDetails.HourGrid.constructor | Seminar-Hall-Frontend/src/pages/Admin/SeminarDetails.js:121-127 | a new grid has no booked hours and no selection |
| SeminarDetails.HourGrid.Recompute | Seminar-Hall-Frontend/src/pages/Admin/SeminarDetails.js:121-178 | recomputing sets the booked hours of the hall and day and clears the selection |
| SeminarDetails.HourGrid.HourClicked | Seminar-Hall-Frontend/src/pages/Admin/SeminarDetails.js:229-287 | a click keeps the booked hours and updates the selection by the click rule |
| SeminarDetails.HourGrid.AnyBooked | Seminar-Hall-Frontend/src/pages/Admin/SeminarDetails.js:280-285 | the scan finds a booked hour exactly when the range is not free |
| SeminarDetails.HourGrid.Count | Seminar-Hall-Frontend/src/pages/Admin/SeminarDetails.js:289 | the count is the number of highlighted hours |
| SeminarDetails.HourGrid.Times | Seminar-Hall-Frontend/src/pages/Admin/SeminarDetails.js:290-291 | no selection gives empty times; otherwise the times are the "HH:00" labels of the selection's first hour and end hour |
| SeminarDetails.HourGrid.SelectAndReturn | Seminar-Hall-Frontend/src/pages/Admin/SeminarDetails.js:293-305 | without a hall or without hours the return is refused, in that order; otherwise it carries the hall, the day and the selection's times |
| AdminCalendar.RawDate | Seminar-Hall-Frontend/src/pages/Admin/AdminCalendarPage.js:49 | the raw date is missing exactly when date, start date and applied-at date are all missing |
| AdminCalendar.Shown | Seminar-Hall-Frontend/src/pages/Admin/AdminCalendarPage.js:18-45 | a booking is shown in the month exactly when it is in the list, approved (a missing status counts as approved), in the chosen hall and dated in that year and month |
| AdminCalendar.Filed | Seminar-Hall-Frontend/src/pages/Admin/AdminCalendarPage.js:47-55 | the bookings filed under a key are exactly the listed bookings shown in the month whose date key is that key, and there are no more of them than bookings |
| AdminCalendar.FourDigits | Seminar-Hall-Frontend/src/pages/Admin/AdminCalendarPage.js:60 | a four-digit year prints as its two high digits followed by its two low digits |
| AdminCalendar.DayKeyIsIso | Seminar-Hall-Frontend/src/pages/Admin/AdminCalendarPage.js:60 | the key built for a day is the ISO date of that day and parses back to it |
| AdminCalendar.FiledAtDay | Seminar-Hall-Frontend/src/pages/Admin/AdminCalendarPage.js:47-61 | a booking is filed under a day's key exactly when it is shown in the month and falls on that day |
| AdminCalendar.FiledMeaning | Seminar-Hall-Frontend/src/pages/Admin/AdminCalendarPage.js:47-61 | the bookings read back for a day of the month are exactly the listed bookings shown in the month that fall on that day |
| AdminCalendar.DayKeysAscend | Seminar-Hall-Frontend/src/pages/Admin/AdminCalendarPage.js:59-60 | the keys of earlier days compare lower as strings, so the entries come out in date order |
| AdminCalendar.HitsOnce | Seminar-Hall-Frontend/src/pages/Admin/AdminCalendarPage.js:59-62 | across the first n days a booking is counted once if it is shown and falls on one of them, otherwise never |
| AdminCalendar.TotalSnoc | Seminar-Hall-Frontend/src/pages/Admin/AdminCalendarPage.js:47-55 | appending a booking adds exactly its own count to the month's total |
| AdminCalendar.EachShownCountedOnce | Seminar-Hall-Frontend/src/pages/Admin/AdminCalendarPage.js:47-64 | over all days of the month the filed bookings add up to the number of bookings shown |
| AdminCalendar.FileBookings | Seminar-Hall-Frontend/src/pages/Admin/AdminCalendarPage.js:47-55 | the map the loop fills holds, under every key, exactly the bookings filed under that key |
| AdminCalendar.FileOne | Seminar-Hall-Frontend/src/pages/Admin/AdminCalendarPage.js:48-54 | filing one more booking keeps the map equal to the filing of the bookings seen so far |
| AdminCalendar.BuildCalendar | Seminar-Hall-Frontend/src/pages/Admin/AdminCalendarPage.js:17-64 | one entry per day of the month, in order, each keyed by its ISO date, listing the bookings filed under it, counting them, and free exactly when there are none |
| AdminCalendar.SumCountsIsTotal | Seminar-Hall-Frontend/src/pages/Admin/AdminCalendarPage.js:57-64 | the entries' counts add up to the bookings filed over those days |
| AdminCalendar.CalendarCountsEachOnce | Seminar-Hall-Frontend/src/pages/Admin/AdminCalendarPage.js:17-64 | the counts of the month's entries add up to the number of bookings the month shows: none is lost, none counted twice |
| CalendarGrid.LeadClock | Seminar-Hall-Frontend/src/components/CalendarGrid.js:40-42 | the leading "h:mm" of a time gives an hour and a minute of at most two digits |
| CalendarGrid.Meridiem | Seminar-Hall-Frontend/src/components/CalendarGrid.js:42 | the tail after the clock is read as PM or AM exactly when it is whitespace followed by PM or AM in any case |
| CalendarGrid.TwelveHourClock | Seminar-Hall-Frontend/src/components/CalendarGrid.js:44-48 | a 12-hour clock hour maps to an hour of the day, in the afternoon exactly when PM, and no two readings map to the same hour |
| CalendarGrid.ReadTime | Seminar-Hall-Frontend/src/components/CalendarGrid.js:39-50 | a time that is read gives a minute count that is not negative |
| CalendarGrid.ParseTimeToMinutes | Seminar-Hall-Frontend/src/components/CalendarGrid.js:37-56 | a missing or empty time reads as no time, and a read time is not negative |
| CalendarGrid.LeadDigits | Seminar-Hall-Frontend/src/components/CalendarGrid.js:40-42 | two-digit hour and minute fields are read back as their values with the rest left over |
| CalendarGrid.ReadsTwentyFourHour | Seminar-Hall-Frontend/src/components/CalendarGrid.js:40-41 | "HH:MM" reads as hour times sixty plus minutes |
| CalendarGrid.ReadsTwelveHour | Seminar-Hall-Frontend/src/components/CalendarGrid.js:42-50 | "HH:MM AM" and "HH:MM PM" read as the minutes of the matching hour of the day |
| CalendarGrid.ReadTimeWithMeridiem | Seminar-Hall-Frontend/src/components/CalendarGrid.js:42-50 | a clock followed by a meridiem reads as the minutes of the matching hour of the day |
| CalendarGrid.MeridiemOf | Seminar-Hall-Frontend/src/components/CalendarGrid.js:42 | " PM" reads as afternoon and " AM" as morning |
| CalendarGrid.Clamp | Seminar-Hall-Frontend/src/components/CalendarGrid.js:57 | the result lies between the bounds, equals the value inside them and the nearer bound outside them |
| CalendarGrid.Contribution | Seminar-Hall-Frontend/src/components/CalendarGrid.js:90-96 | one booking adds no more than the length of the working day |
| CalendarGrid.ContributionIsOverlap | Seminar-Hall-Frontend/src/components/CalendarGrid.js:90-96 | one booking adds exactly the number of minutes its interval shares with the 9:00-17:00 working day |
| CalendarGrid.ContributionFormula | Seminar-Hall-Frontend/src/components/CalendarGrid.js:92-95 | a booking adds the length between its start and end clipped to the working day, or nothing when that is empty |
| CalendarGrid.IntervalMeet | Seminar-Hall-Frontend/src/components/CalendarGrid.js:93-95 | two half-open minute intervals meet in the interval from the later start to the earlier end |
| CalendarGrid.ApprovedOf | Seminar-Hall-Frontend/src/components/CalendarGrid.js:82-84 | the approved bookings are exactly the listed bookings whose status is APPROVED in any case, and no more than the list |
| CalendarGrid.SumMinutes | Seminar-Hall-Frontend/src/components/CalendarGrid.js:87-97 | the loop adds up each approved booking's minutes within the working day |
| CalendarGrid.BookedMinutes | Seminar-Hall-Frontend/src/components/CalendarGrid.js:87-97 | a booking's minutes within the working day never exceed the day's length |
| CalendarGrid.PercentFull | Seminar-Hall-Frontend/src/components/CalendarGrid.js:99-102 | the percentage lies between 0 and 100, is 0 for a day without approved bookings and 100 once the booked minutes fill the working day |
| CalendarGrid.PercentMonotone | Seminar-Hall-Frontend/src/components/CalendarGrid.js:99-102 | more booked minutes never show a lower percentage |
| CalendarGrid.Weekday | Seminar-Hall-Frontend/src/components/CalendarGrid.js:21 | a weekday number lies between Sunday (0) and Saturday (6) |
| CalendarGrid.MonthLength | Seminar-Hall-Frontend/src/components/CalendarGrid.js:22 | a month has between 28 and 31 days |
| CalendarGrid.FirstWeekday | Seminar-Hall-Frontend/src/components/CalendarGrid.js:21 | the first day of the month falls on a weekday 0 to 6 |
| CalendarGrid.DayUnderItsWeekday | Seminar-Hall-Frontend/src/components/CalendarGrid.js:70-107 | after the leading blanks, every day of the month lands in the column of its own weekday |
| CalendarGrid.EntryDay | Seminar-Hall-Frontend/src/components/CalendarGrid.js:64-66 | an entry's date gives a day of the month from 1 to 31 when it gives one |
| CalendarGrid.EntryOn | Seminar-Hall-Frontend/src/components/CalendarGrid.js:61-68 | the entry found for a day is a listed entry on that day, and none is found exactly when no listed entry falls on it |
| CalendarGrid.MapByDay | Seminar-Hall-Frontend/src/components/CalendarGrid.js:61-68 | the map the loop fills gives, for every day, the entry found for that day |
| CalendarGrid.CellBookings | Seminar-Hall-Frontend/src/components/CalendarGrid.js:75-80 | a day without an entry has no bookings, and an entry that lists bookings supplies them |
| CalendarGrid.BuildDayCell | Seminar-Hall-Frontend/src/components/CalendarGrid.js:73-104 | the cell built for a day is that day's date, approved count and percentage full |
| CalendarGrid.DayCellsUpTo | Seminar-Hall-Frontend/src/components/CalendarGrid.js:71-105 | one cell per day |
| CalendarGrid.DayCellsUpToIndex | Seminar-Hall-Frontend/src/components/CalendarGrid.js:71-105 | the cell at position d - 1 is the cell of day d |
| CalendarGrid.DayCells | Seminar-Hall-Frontend/src/components/CalendarGrid.js:71-105 | the loop builds the cells of days 1 to n in order |
| CalendarGrid.Grid | Seminar-Hall-Frontend/src/components/CalendarGrid.js:15-107 | an invalid month or year gives no grid; otherwise the grid is as many blanks as the first weekday followed by the cell of each day of the month in order |
| CalendarGrid.LaidOut | Seminar-Hall-Frontend/src/components/CalendarGrid.js:70-107 | blanks followed by day cells put day d right after the blanks at position d - 1 |
| CalendarGrid.Blanks | Seminar-Hall-Frontend/src/components/CalendarGrid.js:70 | n empty cells |
| CalendarGrid.AdminCellCountsEntry | Seminar-Hall-Frontend/src/components/CalendarGrid.js:75-86 | when every booking has a status, an admin cell counts exactly the bookings the admin calendar filed under that day |
| CalendarGrid.ApprovedOfAll | Seminar-Hall-Frontend/src/components/CalendarGrid.js:82-84 | a list of approved bookings is kept whole |
| CalendarGrid.MissingStatusCountedByCalendarOnly | Seminar-Hall-Frontend/src/components/CalendarGrid.js:82-84 | a booking without a status is approved for the admin calendar but not for the grid |

## Left out

- HTTP routing, request binding, authentication filters and response bodies. Persistence and the MongoDB driver are left out too. The repositories are sequences of documents, and their derived queries are filters.
- Mail delivery, the audit log's asynchronous save, password hashing, random codes and the clock. Each is a parameter of the operation that uses it or is left out: `encode`, `matches`, `now`, `today` and the random id text.
- Thrown exceptions are values: `Err` results, HTTP statuses or `Some(conflict)`. The messages are not modelled.
- Repository calls that fall back to `findAll` in a `catch` are modelled by their fallback-free path. The store never throws.
- Case mapping (`toLowerCase`, `toUpperCase`, `equalsIgnoreCase`) is modelled on ASCII letters only.
- String order is code-unit order. For the dates, ids and names compared here it agrees with Java's `compareTo`, MongoDB's string order and JavaScript's `localeCompare`.
- A JavaScript `Date` is a calendar date. Time zones and the hours of a `Date` are not modelled.
- Date texts that are not valid ISO dates are treated as unreadable. This includes "2030-02-30", which `Date.UTC` and some `Date` parsers roll over into the next month.
- CalendarGrid.ParseTimeToMinutes: a text that is neither "H:MM" nor "H:MM AM/PM" reads as no time. The page would still try `new Date(text)`, which is not modelled.
- CalendarGrid.Grid: requires a year that is not negative. `Number(year)` of a form field is never negative in practice.
- CalendarGrid.PercentFull: `Math.round` of a quotient is done in exact integer arithmetic, rounding half up as `Math.round` does for non-negative values.
- AdminCalendar.BuildCalendar: modelled for four-digit years, where the day key `${year}-MM-DD` is an ISO date.
- Dates.FormatIsoDate: defined for years 0 to 9999. Outside that range `ISO_LOCAL_DATE` writes a sign and more digits, which no booking carries.
- MonthSummary.BuildSummary: modelled for years 0 to 9999, the range in which `LocalDate` text is four digits.
- BookingForms.TimeGates, BookingForms.RangeGates, BookingForms.CheckTimeWise, BookingForms.CheckDayWise, BookingForms.SyncDaySlots: require the picked dates to be valid four-digit-year dates, which the date input provides.
- Jwt.GenerateToken: requires the configured lifetime to fit a Java `long` and the clock not to be negative.
- `Number()` and `parseInt` are modelled for decimal integer text. Hex, exponents, fractions and `Infinity` are not modelled.
- JavaScript key order of plain objects and `Map`s is not modelled, only which key holds which value. This includes the `daySlots` object and the client's booking index.
- Toast messages, notification lists, owner tooltips and the hall feature checkboxes are left out.
- The hall filter's option list on the all-seminars page is left out; it is display only.
- `checkTimeConflictsForAdd` and `checkTimeConflictsForUpdate` build a `datesToCheck` list that is never read. It has no effect, so it is not modelled.
- The pass-through reads of SeminarService are not modelled separately: `getAllSeminars`, `getSeminarsByDate`, `getByHallAndDate`, `getByDepartmentAndEmail`, `getById`, `getByStatus` and `deleteSeminar`. Each is one repository query, and `Repository` and `Seminars` model those.
- Signing, parsing and validating a JWT, the random token id, and the key derivation from the secret are left out. A token is its claims.
- `authenticateUser` and the login controller are left out. `CustomUserDetails` states what login sees of a user.
- Fields the records never carry are absent from the record type: `hall`, `hallId`, `room`, `venue` and `createdAt` on the client.
- The payload the admin and department pages submit is not modelled beyond its `daySlots`. `BookingForms.PayloadDaySlots` models the `daySlots`.
- Conflicts.CheckDayRange: uses the corrected candidate query, every booking of the hall (`Conflicts.Candidates`), where SeminarService.java:540-547 asks the repository only for bookings with a day range overlapping the request. A day-range request over a date that only a time-wise booking holds is therefore refused here but accepted by the code; `ConflictRules.CandidatesAsWritten` and the Findings table state the code's query.
- Conflicts.CheckConflicts: uses the corrected candidate query, as `Conflicts.CheckDayRange` does.
- Conflicts.CheckConflictsForUpdate: uses the corrected candidate query, where SeminarService.java:768-775 queries only day-range bookings.
- ConflictRules.OutcomeIffAdmissible: states admissibility with the corrected candidate query, so it describes the corrected check rather than the code's.
- ConflictRules.DayBranchPreNoneIff: counts every booking of the hall as a candidate, the corrected query.
- ConflictRules.DayRangeRefused: counts every booking of the hall as a candidate, the corrected query.
- ConflictRules.AcceptedDayRange: counts every booking of the hall as a candidate, the corrected query.
- SeminarService.AddSeminar: runs the conflict check with the corrected candidate query, so it refuses the day-range request over a time-wise booking that the code saves. It returns the record it would save; the seminar store after `save` is not modelled.
- SeminarService.UpdateSeminar: runs the update check with the corrected candidate query.
- SeminarController.CreateSeminar: runs the conflict check with the corrected candidate query.
- MonthSummary.MonthSummary: counts the hall's time-wise bookings dated within the month with the month's first and last day included, the corrected query, where the code's `DateBetween` query excludes both days. Its day-range query is inclusive in the code and is modelled as written; `MonthSummary.DateBetweenAsWritten` and the Findings table state the code's query. It also refuses a year outside 0..9999 with `YearOutOfModel`, where the code answers for any year `LocalDate` accepts.
- MonthSummary.CalendarEndpoint: refuses a year outside 0..9999 with `YearOutOfModel`, where the code answers for any year `LocalDate` accepts. Dates are four-digit text in this model.
- DepartmentService.DepartmentCalendar: counts the department's bookings dated within the month with the month's first and last day included, the corrected query, where the code's `DateBetween` query excludes both days. It also refuses a year outside 0..9999 with `YearOutOfModel`, where the code answers for any year `LocalDate` accepts.
- HallService.AddHall: models the repository's `save` as an append. This assumes the body's id is null or new; Spring Data's `save` of a body with a stored id replaces that document instead.
- DepartmentService.AddDepartment: models `save` as an append, assuming the body's id is null or new, as for `HallService.AddHall`.
- OperatorService.AddOperator: assumes `save` stores a new operator, which holds for a null or new id; Spring Data's `save` of a body with a stored id replaces that document instead.
- UserService.AddUser: models `save` as an append, assuming the body's id is null or new, as for `HallService.AddHall`.
- Numbers.JavaParseInt: reads ASCII digits only. Java's `Integer.parseInt` also accepts other Unicode decimal digits through `Character.digit`.
- BookingForms.TimeGates: reads the form's own times with `ClientTime.HhmmToMinutes`, which takes NaN as unreadable, where the pages' null test lets NaN through and every comparison with it is false. The form's times are picked from the quarter-hour option lists or are empty, so a time without a colon does not reach the form checks. The same holds for the day-wise checks that read a day's slot times: BookingForms.CheckSharedDay, BookingForms.CheckStrictDay and BookingForms.CheckDayWise.

## Findings

| source | as written | input that shows it | evidently intended | confidence | as-written member | corrected member |
|---|---|---|---|---|---|---|
| Seminar-Hall-Backend/src/main/java/com/dtao/seminarbooking/repo/SeminarRepository.java:28-34 | The hall's month summary fetches time bookings with the derived `DateBetween` query. Spring Data MongoDB derives it as `$gt`/`$lt`, excluding both ends. | A booking of the hall dated on the 1st (or the last day) of the month. The summary shows that day as free. | Both ends included, as the method's own comment says. | not executed; follows the documented derivation of `Between` | MonthSummary.FirstOfMonthMissedAsWritten | MonthSummary.ServiceQueriesLoseNothing |
| Seminar-Hall-Backend/src/main/java/com/dtao/seminarbooking/service/DepartmentService.java:77 | The department calendar uses the same exclusive `DateBetween` query for the month. | A department seminar dated on the 1st of the month. The calendar shows the 1st as free. | The month's first and last days counted. | not executed; follows the documented derivation of `Between` | DepartmentService.FirstOfMonthFreeAsWritten | DepartmentService.DeptDayCountIsSeminarsThatDay |
| Seminar-Hall-Backend/src/main/java/com/dtao/seminarbooking/service/DepartmentService.java:97-100 | The day query passes the same date as both ends of the exclusive `DateBetween` query. | Any department and any date. The result is always empty. | The department's seminars dated that day. | not executed; follows the documented derivation of `Between` | DepartmentService.DayQueryEmptyAsWritten | DepartmentService.DeptDaySeminarsMeaning |
| Seminar-Hall-Backend/src/main/java/com/dtao/seminarbooking/service/SeminarService.java:540-547 | A day-range booking is compared only with records the range query returns. That query returns only records that have a start and end date. The loop's check for time bookings inside the range (563-572) never sees a time booking. | A time booking 2030-01-02 10:00-11:00 in "Seminar Hall 1" and a day-range request for 2030-01-01 to 2030-01-03 in the same hall. The range is accepted. | Every booking of the hall is a candidate, so the time booking on 2030-01-02 refuses the range, as the loop intends. | not executed | ConflictRules.RangeOverTimeBookingMissed | ConflictRules.CandidateHitIffSharedDay |
| Seminar-Hall-Backend/src/main/java/com/dtao/seminarbooking/service/EmailService.java:251 | The remarks and status are escaped before `rowTd`, which escapes its value again. | Remarks `A & B`. The mail's HTML holds `A &amp;amp; B`, so the reader sees `A &amp; B`. | Escaped once, so the reader sees `A & B`. | not executed | EmailService.PreEscapedShowsEntities | EmailService.PlainRow |
| Seminar-Hall-Backend/src/main/java/com/dtao/seminarbooking/service/LogService.java:58-60 | A proxy chain is cut at the first comma with `split(",")[0]`. | An `X-Forwarded-For` header of ",". Java's `split` drops trailing empty strings, so the array is empty and indexing it throws. | The first element of the chain, here the empty address. | not executed | LogService.LoneCommaThrows | LogService.ClientIp |
