// What the conflict check guarantees, stated without its order of
// evaluation: a booking is accepted exactly when it is Admissible, and the
// rules the booking service promises (no overlapping times in one hall, a
// booked day blocks every other booking of that day, ranges of at most seven
// days starting today or later) follow from that.
module ConflictRules {

  import opened Wrappers
  import opened Text
  import opened Dates
  import opened Times
  import opened Seminars
  import opened Conflicts

  // ---------------------------------------------------------------------
  // The accepted requests, declaratively

  function RequestDate(s: Seminar): Date
    requires s.date.Some? && IsIsoDate(s.date.value)
  {
    ParseIsoDate(s.date.value).value
  }

  /** A time booking on `date` clashes with no same-hall record. */
  predicate TimeRequestClear(store: seq<Seminar>, s: Seminar, hall: string, today: Date)
    requires s.date.Some?
  {
    var date := s.date.value;
    IsIsoDate(date) && !Before(RequestDate(s), today)
    && (forall e :: e in store && AtDateInHall(e, date, hall) ==> TimeRecordHit(e, s, RequestDate(s)).None?)
    && (forall e :: e in store ==> !RangeReaches(e, hall, date, date))
    && (forall e :: e in store ==> !DaySlotInHall(e, date, hall))
  }

  /** A requested daySlots entry is a date of the range that no same-hall
      record books. */
  predicate KeyClear(store: seq<Seminar>, hall: string, lo: Date, hi: Date, k: string, slot: Option<DaySlot>) {
    KeyInRange(k, lo, hi)
    && (forall t :: t in store && AtDateInHall(t, k, hall) ==> SlotRecordHit(t, slot).None?)
    && (forall t :: t in store ==> !DaySlotInHall(t, k, hall))
  }

  /** The range itself: readable, starting today or later, at most seven
      days long, and sharing no day with a booking of the hall. */
  predicate RangeHeadClear(store: seq<Seminar>, s: Seminar, hall: string, today: Date)
    requires HasRange(s)
  {
    IsIsoDate(s.startDate.value) && IsIsoDate(s.endDate.value)
    && !Before(RequestStart(s), today)
    && DaysBetween(RequestStart(s), RequestEnd(s)) + 1 <= MAX_BOOKING_DAYS
    && (forall e :: e in store && e.hallName == Some(hall) ==> CandidateHit(e, RequestStart(s), RequestEnd(s)).None?)
  }

  /** A day-range booking starts today or later, spans at most seven days
      and touches no day a same-hall record books. */
  predicate RangeRequestClear(store: seq<Seminar>, s: Seminar, hall: string, today: Date)
    requires HasRange(s)
  {
    RangeHeadClear(store, s, hall, today)
    && (s.daySlots.Some? ==>
          forall k :: k in s.daySlots.value ==>
            KeyClear(store, hall, RequestStart(s), RequestEnd(s), k, s.daySlots.value[k]))
  }

  predicate Admissible(store: seq<Seminar>, s: Seminar, today: Date) {
    var hall := HallOf(s);
    !IsBlank(hall)
    && (s.date.Some? ==> TimeRequestClear(store, s, hall, today))
    && (HasRange(s) ==> RangeRequestClear(store, s, hall, today))
  }

  // ---------------------------------------------------------------------
  // The check accepts exactly the admissible requests

  lemma FilterEmptyIff(store: seq<Seminar>, p: Seminar -> bool)
    ensures Filter(store, p) == [] <==> forall e :: e in store ==> !p(e)
  {
    if Filter(store, p) != [] {
      assert Filter(store, p)[0] in Filter(store, p);
    }
  }

  lemma TimeBranchNoneIff(store: seq<Seminar>, s: Seminar, hall: string, today: Date)
    requires s.date.Some?
    ensures TimeBranch(store, s, hall, today).None? <==> TimeRequestClear(store, s, hall, today)
  {
    var date := s.date.value;
    FilterEmptyIff(store, e => RangeReaches(e, hall, date, date));
    FilterEmptyIff(store, e => DaySlotInHall(e, date, hall));
  }

  lemma KeyErrorNoneIff(store: seq<Seminar>, hall: string, lo: Date, hi: Date, k: string, slot: Option<DaySlot>)
    ensures KeyError(store, hall, lo, hi, k, slot).None? <==> KeyClear(store, hall, lo, hi, k, slot)
  {
    FilterEmptyIff(store, e => DaySlotInHall(e, k, hall));
  }

  lemma DayBranchPreNoneIff(store: seq<Seminar>, s: Seminar, hall: string, today: Date)
    requires HasRange(s)
    ensures DayBranchPre(store, s, hall, today).None? <==> RangeHeadClear(store, s, hall, today)
  {
  }

  lemma SlotsOutcomeNoneIff(store: seq<Seminar>, hall: string, lo: Date, hi: Date, m: DaySlots, err: Option<Conflict>)
    requires SlotsOutcome(store, hall, lo, hi, m, err)
    ensures err.None? <==> forall k :: k in m ==> KeyClear(store, hall, lo, hi, k, m[k])
  {
    forall k | k in m
      ensures KeyError(store, hall, lo, hi, k, m[k]).None? <==> KeyClear(store, hall, lo, hi, k, m[k])
    {
      KeyErrorNoneIff(store, hall, lo, hi, k, m[k]);
    }
  }

  lemma OutcomeIffAdmissible(store: seq<Seminar>, s: Seminar, today: Date, err: Option<Conflict>)
    requires IsOutcome(store, s, today, err)
    ensures err.None? <==> Admissible(store, s, today)
  {
    var hall := HallOf(s);
    if IsBlank(hall) {
      assert err == Some(HallRequired);
    } else if s.date.Some? && TimeBranch(store, s, hall, today).Some? {
      TimeBranchNoneIff(store, s, hall, today);
      assert err.Some? && !Admissible(store, s, today);
    } else {
      if s.date.Some? {
        TimeBranchNoneIff(store, s, hall, today);
      }
      assert s.date.Some? ==> TimeRequestClear(store, s, hall, today);
      if HasRange(s) {
        DayBranchPreNoneIff(store, s, hall, today);
        if DayBranchPre(store, s, hall, today).Some? {
          assert err.Some? && !Admissible(store, s, today);
        } else if s.daySlots.Some? {
          assert SlotsWalked(s);
          SlotsOutcomeNoneIff(store, hall, RequestStart(s), RequestEnd(s), s.daySlots.value, err);
        } else {
          assert err.None? && Admissible(store, s, today);
        }
      } else {
        assert err.None? && Admissible(store, s, today);
      }
    }
  }

  // ---------------------------------------------------------------------
  // The range query, read as calendar dates

  /** On well-formed dates, the repository's string range query for a single
      day selects exactly the same-hall records whose range covers that day. */
  lemma RangeReachesIffCovers(e: Seminar, hall: string, date: string)
    requires IsIsoDate(date) && HasRange(e) && IsIsoDate(e.startDate.value) && IsIsoDate(e.endDate.value)
    ensures RangeReaches(e, hall, date, date) <==>
              e.hallName == Some(hall) && ParsedRangeCovers(e, ParseIsoDate(date).value)
  {
    var es, ee := e.startDate.value, e.endDate.value;
    IsoStringOrder(es, date);
    IsoStringOrder(date, ee);
    if ParseIsoDate(es) == ParseIsoDate(date) {
      ParseInjective(es, date);
    }
    if ParseIsoDate(ee) == ParseIsoDate(date) {
      ParseInjective(ee, date);
    }
  }

  // ---------------------------------------------------------------------
  // Time bookings

  /** A time booking is refused when, in its hall on its date, another
      booking's times overlap it, another booking's day range covers the
      date, or another booking holds a daySlots entry for the date (whatever
      the entry's times). */
  lemma TimeBookingRefused(store: seq<Seminar>, s: Seminar, today: Date, err: Option<Conflict>, e: Seminar)
    requires IsOutcome(store, s, today, err)
    requires s.date.Some? && IsIsoDate(s.date.value) && e in store
    requires
      || (AtDateInHall(e, s.date.value, HallOf(s)) && HasTimes(e)
          && IsOverlapping(s.startTime, s.endTime, e.startTime, e.endTime))
      || (e.hallName == Some(HallOf(s)) && ParsedRangeCovers(e, RequestDate(s)))
      || DaySlotInHall(e, s.date.value, HallOf(s))
    ensures err.Some?
  {
    OutcomeIffAdmissible(store, s, today, err);
    var date, hall := s.date.value, HallOf(s);
    if e.hallName == Some(hall) && ParsedRangeCovers(e, RequestDate(s)) {
      RangeReachesIffCovers(e, hall, date);
    }
  }

  /** An accepted time booking on a valid date is today or later and, in its
      hall on that date, overlaps no timed booking, falls in no day range and
      meets no daySlots entry. */
  lemma AcceptedTimeBooking(store: seq<Seminar>, s: Seminar, today: Date, e: Seminar)
    requires IsOutcome(store, s, today, None) && s.date.Some? && e in store
    ensures !IsBlank(HallOf(s)) && IsIsoDate(s.date.value) && !Before(RequestDate(s), today)
    ensures AtDateInHall(e, s.date.value, HallOf(s)) && HasTimes(e)
            ==> !IsOverlapping(s.startTime, s.endTime, e.startTime, e.endTime)
    ensures e.hallName == Some(HallOf(s)) ==> !ParsedRangeCovers(e, RequestDate(s))
    ensures !DaySlotInHall(e, s.date.value, HallOf(s))
  {
    OutcomeIffAdmissible(store, s, today, None);
    if e.hallName == Some(HallOf(s)) && ParsedRangeCovers(e, RequestDate(s)) {
      RangeReachesIffCovers(e, HallOf(s), s.date.value);
    }
  }

  // ---------------------------------------------------------------------
  // Day-range bookings

  /** The days an existing booking holds, as the range check reads it: each
      day of its own range, its date, and each of its daySlots keys (those
      that parse). */
  predicate BooksDay(e: Seminar, x: Date) {
    ParsedRangeCovers(e, x)
    || (e.date.Some? && IsIsoDate(e.date.value) && ParseIsoDate(e.date.value).value == x)
    || (e.daySlots.Some? && exists k :: k in e.daySlots.value && IsIsoDate(k) && ParseIsoDate(k).value == x)
  }

  /** A record with a range has it in order (validation guarantees this for
      every stored booking). */
  predicate RangeInOrder(e: Seminar) {
    HasRange(e) && IsIsoDate(e.startDate.value) && IsIsoDate(e.endDate.value)
    ==> NotAfter(ParseIsoDate(e.startDate.value).value, ParseIsoDate(e.endDate.value).value)
  }

  /** For a request range in order, a record stops it exactly when the record
      books some day of the range. */
  lemma CandidateHitIffSharedDay(e: Seminar, lo: Date, hi: Date)
    requires RangeInOrder(e) && NotAfter(lo, hi)
    ensures CandidateHit(e, lo, hi).Some? <==> exists x :: InRange(x, lo, hi) && BooksDay(e, x)
  {
    if RangeIntersects(e, lo, hi) {
      var es := ParseIsoDate(e.startDate.value).value;
      var x := if Before(es, lo) then lo else es;
      assert InRange(x, lo, hi) && BooksDay(e, x);
    } else if e.date.Some? && KeyInRange(e.date.value, lo, hi) {
      var x := ParseIsoDate(e.date.value).value;
      assert InRange(x, lo, hi) && BooksDay(e, x);
    } else if e.daySlots.Some? && exists k :: k in e.daySlots.value && KeyInRange(k, lo, hi) {
      var k :| k in e.daySlots.value && KeyInRange(k, lo, hi);
      var x := ParseIsoDate(k).value;
      assert InRange(x, lo, hi) && BooksDay(e, x);
    }
  }

  /** A day-range request is refused when it starts before today, spans more
      than seven days, or shares a day with a booking of its hall. */
  lemma DayRangeRefused(store: seq<Seminar>, s: Seminar, today: Date, err: Option<Conflict>, e: Seminar, x: Date)
    requires IsOutcome(store, s, today, err)
    requires HasRange(s) && IsIsoDate(s.startDate.value) && IsIsoDate(s.endDate.value)
    requires NotAfter(RequestStart(s), RequestEnd(s))
    requires
      || Before(RequestStart(s), today)
      || DaysBetween(RequestStart(s), RequestEnd(s)) + 1 > MAX_BOOKING_DAYS
      || (e in store && e.hallName == Some(HallOf(s)) && RangeInOrder(e)
          && InRange(x, RequestStart(s), RequestEnd(s)) && BooksDay(e, x))
    ensures err.Some?
  {
    OutcomeIffAdmissible(store, s, today, err);
    if e in store && e.hallName == Some(HallOf(s)) && RangeInOrder(e)
       && InRange(x, RequestStart(s), RequestEnd(s)) && BooksDay(e, x) {
      CandidateHitIffSharedDay(e, RequestStart(s), RequestEnd(s));
    }
  }

  /** An accepted day-range booking spans at most seven days, starts today or
      later and shares no day with another booking of its hall. */
  lemma AcceptedDayRange(store: seq<Seminar>, s: Seminar, today: Date, e: Seminar, x: Date)
    requires IsOutcome(store, s, today, None) && HasRange(s) && NotAfter(RequestStartOr(s), RequestEndOr(s))
    requires e in store && e.hallName == Some(HallOf(s)) && RangeInOrder(e)
    ensures IsIsoDate(s.startDate.value) && IsIsoDate(s.endDate.value)
    ensures !Before(RequestStart(s), today)
    ensures 1 <= DaysBetween(RequestStart(s), RequestEnd(s)) + 1 <= MAX_BOOKING_DAYS
    ensures InRange(x, RequestStart(s), RequestEnd(s)) ==> !BooksDay(e, x)
  {
    OutcomeIffAdmissible(store, s, today, None);
    CandidateHitIffSharedDay(e, RequestStart(s), RequestEnd(s));
    BeforeIffDayNumber(RequestEnd(s), RequestStart(s));
  }

  /** The request's range, or an empty placeholder when a date is unreadable. */
  function RequestStartOr(s: Seminar): Date
    requires HasRange(s)
  {
    if IsIsoDate(s.startDate.value) then RequestStart(s) else Date(0, 1, 1)
  }

  function RequestEndOr(s: Seminar): Date
    requires HasRange(s)
  {
    if IsIsoDate(s.endDate.value) then RequestEnd(s) else Date(0, 1, 1)
  }

  /** A requested daySlots entry is refused when a same-hall booking holds a
      daySlots entry for that day, or, for a timed entry, when a same-hall
      timed booking on that day overlaps it. */
  lemma DaySlotEntryRefused(store: seq<Seminar>, s: Seminar, today: Date, err: Option<Conflict>, k: string, t: Seminar)
    requires IsOutcome(store, s, today, err)
    requires HasRange(s) && s.daySlots.Some? && k in s.daySlots.value && t in store
    requires
      || DaySlotInHall(t, k, HallOf(s))
      || (AtDateInHall(t, k, HallOf(s)) && HasTimes(t) && s.daySlots.value[k].Some?
          && IsOverlapping(s.daySlots.value[k].value.startTime, s.daySlots.value[k].value.endTime, t.startTime, t.endTime))
    ensures err.Some?
  {
    OutcomeIffAdmissible(store, s, today, err);
  }

  // ---------------------------------------------------------------------
  // Updates

  /** Narrowing each query result to other records, as the update check
      does, is running the query over the other records. */
  lemma UpdateNarrowsEveryQuery(store: seq<Seminar>, id: string, p: Seminar -> bool)
    ensures Filter(Filter(store, p), x => NotSameId(x, id)) == Filter(OthersThan(store, id), p)
  {
    FilterFilter(store, p, x => NotSameId(x, id));
  }

  /** The record being updated, and records without an id, never take part
      in the update check. */
  lemma UpdateIgnoresRecord(store: seq<Seminar>, x: Seminar, id: string)
    requires x.id.None? || x.id == Some(id)
    ensures OthersThan(store + [x], id) == OthersThan(store, id)
  {
    FilterAppend(store, [x], y => NotSameId(y, id));
    assert Filter([x], y => NotSameId(y, id)) == [];
  }

  lemma KeyErrorWithoutRecords(hall: string, lo: Date, hi: Date, k: string, slot: Option<DaySlot>)
    ensures KeyError([], hall, lo, hi, k, slot).Some? ==> !IsBookingClash(KeyError([], hall, lo, hi, k, slot).value)
  {
  }

  lemma PreCheckWithoutRecords(s: Seminar, today: Date)
    ensures PreCheck([], s, today).Some? ==> !IsBookingClash(PreCheck([], s, today).value)
  {
    var hall := HallOf(s);
    if s.date.Some? {
      TimeBranchWithoutRecords(s, hall, today);
    }
    if HasRange(s) {
      DayBranchWithoutRecords(s, hall, today);
    }
  }

  lemma TimeBranchWithoutRecords(s: Seminar, hall: string, today: Date)
    requires s.date.Some?
    ensures TimeBranch([], s, hall, today).Some? ==> !IsBookingClash(TimeBranch([], s, hall, today).value)
  {
  }

  lemma DayBranchWithoutRecords(s: Seminar, hall: string, today: Date)
    requires HasRange(s)
    ensures DayBranchPre([], s, hall, today).Some? ==> !IsBookingClash(DayBranchPre([], s, hall, today).value)
  {
  }

  /** With no other records, the check refuses only for faults of the
      request itself. */
  lemma NoRecordsNoClash(s: Seminar, today: Date, err: Option<Conflict>)
    requires IsOutcome([], s, today, err)
    ensures err.Some? ==> !IsBookingClash(err.value)
  {
    PreCheckWithoutRecords(s, today);
    if SlotsWalked(s) && PreCheck([], s, today).None? && err.Some? {
      var m := s.daySlots.value;
      var k :| k in m && KeyError([], HallOf(s), RequestStart(s), RequestEnd(s), k, m[k]) == err;
      KeyErrorWithoutRecords(HallOf(s), RequestStart(s), RequestEnd(s), k, m[k]);
    }
  }

  /** A booking updated when no other booking exists is never refused for a
      clash with a booking: it is not compared with itself. */
  lemma UpdateNeverClashesWithItself(store: seq<Seminar>, s: Seminar, id: string, today: Date, err: Option<Conflict>)
    requires forall r :: r in store ==> r.id.None? || r.id == Some(id)
    requires IsOutcome(OthersThan(store, id), s, today, err)
    ensures err.Some? ==> !IsBookingClash(err.value)
  {
    OnlyItselfLeavesNothing(store, id);
    NoRecordsNoClash(s, today, err);
  }

  lemma OnlyItselfLeavesNothing(store: seq<Seminar>, id: string)
    requires forall r :: r in store ==> r.id.None? || r.id == Some(id)
    ensures OthersThan(store, id) == []
  {
    FilterEmptyIff(store, x => NotSameId(x, id));
  }

  // ---------------------------------------------------------------------
  // The candidate query as written

  /** The records SeminarService compares a day-range request with: the
      repository's range query, which returns only records that have a range
      reaching into the requested one. */
  function CandidatesAsWritten(store: seq<Seminar>, s: Seminar): seq<Seminar>
    requires HasRange(s)
  {
    Filter(store, e => RangeReaches(e, HallOf(s), s.endDate.value, s.startDate.value))
  }

  /** Every record the query returns is a candidate of the corrected check,
      so the query can only miss conflicts, never invent them. */
  lemma CandidatesAsWrittenAreCandidates(store: seq<Seminar>, s: Seminar)
    requires HasRange(s)
    ensures forall e :: e in CandidatesAsWritten(store, s) ==> e in Candidates(store, HallOf(s)) && HasRange(e)
  {
  }

  const FindingHall: string := "Seminar Hall 1"

  /** A one-hour time booking on 2030-01-02. */
  function TimedBooking(): Seminar {
    Seminar(Some("t1"), None, Some(FindingHall), None, None, None, None, None, None, Some("APPROVED"),
            None, None, None, Some("2030-01-02"), Some("10:00"), Some("11:00"), None, None, None)
  }

  /** A full-day request for 2030-01-01..2030-01-03 in the same hall. */
  function RangeRequest(): Seminar {
    Seminar(None, None, Some(FindingHall), None, None, None, None, None, None, None,
            None, None, None, None, None, None, Some("2030-01-01"), Some("2030-01-03"), None)
  }

  /** The query as written does not return the time booking, so the check as
      written lets a full-day range through over it; with every record of
      the hall as candidates the range is refused. */
  lemma RangeOverTimeBookingMissed()
    ensures CandidatesAsWritten([TimedBooking()], RangeRequest()) == []
    ensures FirstHit(Candidates([TimedBooking()], FindingHall), e => CandidateHit(e, Date(2030, 1, 1), Date(2030, 1, 3)))
            == Some(TimeBookingInRange)
  {
    var t := TimedBooking();
    TimedBookingNotQueried();
    TimedBookingInRange();
    assert Candidates([t], FindingHall) == [t];
  }

  lemma TimedBookingNotQueried()
    ensures CandidatesAsWritten([TimedBooking()], RangeRequest()) == []
  {
    assert HallOf(RangeRequest()) == FindingHall by {
      assert Trim(FindingHall) == FindingHall;
    }
  }

  lemma TimedBookingInRange()
    ensures CandidateHit(TimedBooking(), Date(2030, 1, 1), Date(2030, 1, 3)) == Some(TimeBookingInRange)
  {
    var t := TimedBooking();
    assert ParseIsoDate("2030-01-02") == Some(Date(2030, 1, 2));
    assert !RangeIntersects(t, Date(2030, 1, 1), Date(2030, 1, 3));
    assert InRange(Date(2030, 1, 2), Date(2030, 1, 1), Date(2030, 1, 3));
    assert KeyInRange("2030-01-02", Date(2030, 1, 1), Date(2030, 1, 3));
  }
}
