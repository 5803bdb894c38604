// The booking conflict check run before a booking is saved
// (checkTimeConflictsForAdd and checkTimeConflictsForUpdate). The check
// throws on the first problem it meets; here the first problem is returned
// as `Some(conflict)` and `None` means the booking may be saved. `today` is
// the clock reading LocalDate.now().
module Conflicts {

  import opened Wrappers
  import opened Text
  import opened Dates
  import opened Times
  import opened Seminars

  /** The longest day-range booking, in days, both ends included. */
  const MAX_BOOKING_DAYS: int := 7

  datatype Conflict =
    | HallRequired         // "Hall name is required for booking."
    | InvalidBookingDate   // "Invalid booking date format"
    | PastDate             // "Cannot book a seminar in the past. ..."
    | TimeOverlap          // "Time slot overlaps another booking on <date>"
    | DayBooked            // "This day is already booked in <hall>. ..."
    | DaySlotsBooked       // "This day is already booked (daySlots) in <hall>. ..."
    | InvalidRangeFormat   // "Invalid startDate/endDate format"
    | PastStart            // "Start date cannot be in the past. ..."
    | TooLong              // "Maximum booking duration is 7 days. ..."
    | RangeBooked          // "Some days in this range are already booked for <hall>"
    | TimeBookingInRange   // "This day (<date>) is already booked in <hall>. ..."
    | BadDaySlotKey        // "daySlots key is not a valid date: <key>"
    | DaySlotOutsideRange  // "daySlots contains a date outside startDate..endDate: <key>"

  /** A conflict caused by another booking, as opposed to one the request
      has on its own (a blank hall, a bad or past date, a long range). */
  predicate IsBookingClash(c: Conflict) {
    c.TimeOverlap? || c.DayBooked? || c.DaySlotsBooked? || c.RangeBooked? || c.TimeBookingInRange?
  }

  /** The hall the checks look for: the trimmed hall name, "" for null. */
  function HallOf(s: Seminar): string {
    Trim(s.hallName.GetOr(""))
  }

  // ---------------------------------------------------------------------
  // Scanning a query result for the first record that raises a conflict

  function FirstHit(list: seq<Seminar>, f: Seminar -> Option<Conflict>): (r: Option<Conflict>)
    ensures r.None? <==> forall e :: e in list ==> f(e).None?
    ensures r.Some? ==> exists e :: e in list && f(e) == r
  {
    if list == [] then None
    else if f(list[0]).Some? then f(list[0])
    else FirstHit(list[1..], f)
  }

  /** `for (Seminar e : list) { ... throw ... }` */
  method ScanFirstHit(list: seq<Seminar>, f: Seminar -> Option<Conflict>) returns (err: Option<Conflict>)
    ensures err == FirstHit(list, f)
  {
    var i := 0;
    while i < |list|
      invariant 0 <= i <= |list|
      invariant FirstHit(list, f) == FirstHit(list[i..], f)
    {
      if f(list[i]).Some? {
        return f(list[i]);
      }
      assert list[i..][1..] == list[i + 1..];
      i := i + 1;
    }
    return None;
  }

  // ---------------------------------------------------------------------
  // Time-wise booking: date + startTime/endTime

  /** A record's own range, when both of its dates parse, covers `d`. */
  predicate ParsedRangeCovers(e: Seminar, d: Date) {
    HasRange(e) && IsIsoDate(e.startDate.value) && IsIsoDate(e.endDate.value)
    && InRange(d, ParseIsoDate(e.startDate.value).value, ParseIsoDate(e.endDate.value).value)
  }

  /** What one same-hall record on the requested date says: a record with
      times clashes if the times overlap, one without times if its own range
      covers the date. */
  function TimeRecordHit(e: Seminar, s: Seminar, d: Date): Option<Conflict> {
    if HasTimes(e) then
      (if IsOverlapping(s.startTime, s.endTime, e.startTime, e.endTime) then Some(TimeOverlap) else None)
    else if ParsedRangeCovers(e, d) then Some(DayBooked)
    else None
  }

  function TimeBranch(store: seq<Seminar>, s: Seminar, hall: string, today: Date): Option<Conflict>
    requires s.date.Some?
  {
    var date := s.date.value;
    if !IsIsoDate(date) then Some(InvalidBookingDate)
    else
      var d := ParseIsoDate(date).value;
      if Before(d, today) then Some(PastDate)
      else
        var hit := FirstHit(Filter(store, e => AtDateInHall(e, date, hall)), e => TimeRecordHit(e, s, d));
        if hit.Some? then hit
        else if Filter(store, e => RangeReaches(e, hall, date, date)) != [] then Some(DayBooked)
        else if Filter(store, e => DaySlotInHall(e, date, hall)) != [] then Some(DaySlotsBooked)
        else None
  }

  method CheckTimeBooking(store: seq<Seminar>, s: Seminar, hall: string, today: Date) returns (err: Option<Conflict>)
    requires s.date.Some?
    ensures err == TimeBranch(store, s, hall, today)
  {
    var date := s.date.value;
    var parsed := ParseIsoDate(date);
    if parsed.None? {
      return Some(InvalidBookingDate);
    }
    var d := parsed.value;
    if Before(d, today) {
      return Some(PastDate);
    }
    var existing := Filter(store, e => AtDateInHall(e, date, hall));
    err := ScanFirstHit(existing, e => TimeRecordHit(e, s, d));
    if err.Some? {
      return;
    }
    var dayRange := Filter(store, e => RangeReaches(e, hall, date, date));
    if dayRange != [] {
      return Some(DayBooked);
    }
    var withSlots := Filter(store, e => DaySlotInHall(e, date, hall));
    if withSlots != [] {
      return Some(DaySlotsBooked);
    }
  }

  // ---------------------------------------------------------------------
  // Day-range booking: startDate..endDate, optionally with daySlots

  predicate KeyInRange(k: string, lo: Date, hi: Date) {
    IsIsoDate(k) && InRange(ParseIsoDate(k).value, lo, hi)
  }

  /** A record's parsed range intersects [lo, hi]. */
  predicate RangeIntersects(e: Seminar, lo: Date, hi: Date) {
    HasRange(e) && IsIsoDate(e.startDate.value) && IsIsoDate(e.endDate.value)
    && !(Before(hi, ParseIsoDate(e.startDate.value).value) || Before(ParseIsoDate(e.endDate.value).value, lo))
  }

  /** The three tests made on each candidate record, in order. */
  function CandidateHit(e: Seminar, lo: Date, hi: Date): Option<Conflict> {
    if RangeIntersects(e, lo, hi) then Some(RangeBooked)
    else if e.date.Some? && KeyInRange(e.date.value, lo, hi) then Some(TimeBookingInRange)
    else if e.daySlots.Some? && exists k :: k in e.daySlots.value && KeyInRange(k, lo, hi) then Some(RangeBooked)
    else None
  }

  /** The records a day-range request is compared with: every record of the
      hall. (The repository query SeminarService uses instead is
      CandidatesAsWritten below.) */
  function Candidates(store: seq<Seminar>, hall: string): seq<Seminar> {
    Filter(store, (e: Seminar) => e.hallName == Some(hall))
  }

  function DayBranchPre(store: seq<Seminar>, s: Seminar, hall: string, today: Date): Option<Conflict>
    requires HasRange(s)
  {
    if !IsIsoDate(s.startDate.value) || !IsIsoDate(s.endDate.value) then Some(InvalidRangeFormat)
    else
      var lo := ParseIsoDate(s.startDate.value).value;
      var hi := ParseIsoDate(s.endDate.value).value;
      if Before(lo, today) then Some(PastStart)
      else if DaysBetween(lo, hi) + 1 > MAX_BOOKING_DAYS then Some(TooLong)
      else FirstHit(Candidates(store, hall), e => CandidateHit(e, lo, hi))
  }

  /** One same-hall time booking on a requested day: it clashes only with a
      timed slot that overlaps it. */
  function SlotRecordHit(t: Seminar, slot: Option<DaySlot>): Option<Conflict> {
    if HasTimes(t) && slot.Some? && IsOverlapping(slot.value.startTime, slot.value.endTime, t.startTime, t.endTime)
    then Some(TimeOverlap)
    else None
  }

  /** The checks made on one requested daySlots entry, in order. */
  function KeyError(store: seq<Seminar>, hall: string, lo: Date, hi: Date, key: string, slot: Option<DaySlot>): Option<Conflict> {
    if !IsIsoDate(key) then Some(BadDaySlotKey)
    else if !InRange(ParseIsoDate(key).value, lo, hi) then Some(DaySlotOutsideRange)
    else
      var hit := FirstHit(Filter(store, e => AtDateInHall(e, key, hall)), t => SlotRecordHit(t, slot));
      if hit.Some? then hit
      else if Filter(store, e => DaySlotInHall(e, key, hall)) != [] then Some(DaySlotsBooked)
      else None
  }

  method CheckRequestedKey(store: seq<Seminar>, hall: string, lo: Date, hi: Date, key: string, slot: Option<DaySlot>)
    returns (err: Option<Conflict>)
    ensures err == KeyError(store, hall, lo, hi, key, slot)
  {
    var parsed := ParseIsoDate(key);
    if parsed.None? {
      return Some(BadDaySlotKey);
    }
    if !InRange(parsed.value, lo, hi) {
      return Some(DaySlotOutsideRange);
    }
    var timeOnDate := Filter(store, e => AtDateInHall(e, key, hall));
    err := ScanFirstHit(timeOnDate, t => SlotRecordHit(t, slot));
    if err.Some? {
      return;
    }
    var existingDaySlots := Filter(store, e => DaySlotInHall(e, key, hall));
    if existingDaySlots != [] {
      return Some(DaySlotsBooked);
    }
  }

  /** The possible results of walking the requested entries: the first
      failing entry under some iteration order of the map. */
  predicate SlotsOutcome(store: seq<Seminar>, hall: string, lo: Date, hi: Date, m: DaySlots, err: Option<Conflict>) {
    (err.None? <==> forall k :: k in m ==> KeyError(store, hall, lo, hi, k, m[k]).None?)
    && (err.Some? ==> exists k :: k in m && KeyError(store, hall, lo, hi, k, m[k]) == err)
  }

  /** Walks the requested entries in the map's iteration order, which the
      model leaves open. */
  method ScanRequestedSlots(store: seq<Seminar>, hall: string, lo: Date, hi: Date, m: DaySlots)
    returns (err: Option<Conflict>)
    ensures SlotsOutcome(store, hall, lo, hi, m, err)
  {
    var todo := m.Keys;
    while todo != {}
      invariant todo <= m.Keys
      invariant forall k :: k in m.Keys - todo ==> KeyError(store, hall, lo, hi, k, m[k]).None?
      decreases |todo|
    {
      var k :| k in todo;
      err := CheckRequestedKey(store, hall, lo, hi, k, m[k]);
      if err.Some? {
        return;
      }
      todo := todo - {k};
    }
    return None;
  }

  // ---------------------------------------------------------------------
  // The whole check

  /** Everything before the walk over the requested daySlots, in order. */
  function PreCheck(store: seq<Seminar>, s: Seminar, today: Date): Option<Conflict> {
    var hall := HallOf(s);
    if IsBlank(hall) then Some(HallRequired)
    else if s.date.Some? && TimeBranch(store, s, hall, today).Some? then TimeBranch(store, s, hall, today)
    else if HasRange(s) then DayBranchPre(store, s, hall, today)
    else None
  }

  predicate SlotsWalked(s: Seminar) {
    HasRange(s) && s.daySlots.Some? && IsIsoDate(s.startDate.value) && IsIsoDate(s.endDate.value)
  }

  function RequestStart(s: Seminar): Date
    requires HasRange(s) && IsIsoDate(s.startDate.value)
  {
    ParseIsoDate(s.startDate.value).value
  }

  function RequestEnd(s: Seminar): Date
    requires HasRange(s) && IsIsoDate(s.endDate.value)
  {
    ParseIsoDate(s.endDate.value).value
  }

  /** The possible results of the check: the first problem in SeminarService's
      order, where the requested daySlots entries may come in any order. */
  predicate IsOutcome(store: seq<Seminar>, s: Seminar, today: Date, err: Option<Conflict>) {
    var pre := PreCheck(store, s, today);
    if pre.Some? then err == pre
    else if !SlotsWalked(s) then err.None?
    else
      SlotsOutcome(store, HallOf(s), RequestStart(s), RequestEnd(s), s.daySlots.value, err)
  }

  /** The day-range half of the check, for a request with both dates. */
  predicate DayOutcome(store: seq<Seminar>, s: Seminar, hall: string, today: Date, err: Option<Conflict>)
    requires HasRange(s)
  {
    var pre := DayBranchPre(store, s, hall, today);
    if pre.Some? then err == pre
    else if s.daySlots.None? then err.None?
    else SlotsOutcome(store, hall, RequestStart(s), RequestEnd(s), s.daySlots.value, err)
  }

  method CheckDayRange(store: seq<Seminar>, s: Seminar, hall: string, today: Date) returns (err: Option<Conflict>)
    requires HasRange(s)
    ensures DayOutcome(store, s, hall, today, err)
  {
    var ps, pe := ParseIsoDate(s.startDate.value), ParseIsoDate(s.endDate.value);
    if ps.None? || pe.None? {
      return Some(InvalidRangeFormat);
    }
    var lo, hi := ps.value, pe.value;
    if Before(lo, today) {
      return Some(PastStart);
    }
    if DaysBetween(lo, hi) + 1 > MAX_BOOKING_DAYS {
      return Some(TooLong);
    }
    err := ScanFirstHit(Candidates(store, hall), e => CandidateHit(e, lo, hi));
    if err.Some? {
      return;
    }
    if s.daySlots.Some? {
      err := ScanRequestedSlots(store, hall, lo, hi, s.daySlots.value);
    }
  }

  /** checkTimeConflictsForAdd */
  method CheckConflicts(store: seq<Seminar>, s: Seminar, today: Date) returns (err: Option<Conflict>)
    ensures IsOutcome(store, s, today, err)
  {
    var hall := HallOf(s);
    if IsBlank(hall) {
      return Some(HallRequired);
    }
    if s.date.Some? {
      err := CheckTimeBooking(store, s, hall, today);
      if err.Some? {
        return;
      }
    }
    if HasRange(s) {
      err := CheckDayRange(store, s, hall, today);
      return;
    }
    return None;
  }

  /** checkTimeConflictsForUpdate: the same check with every query narrowed
      to records that have an id other than `id`. */
  method CheckConflictsForUpdate(store: seq<Seminar>, s: Seminar, id: string, today: Date)
    returns (err: Option<Conflict>)
    ensures IsOutcome(OthersThan(store, id), s, today, err)
  {
    err := CheckConflicts(OthersThan(store, id), s, today);
  }
}
