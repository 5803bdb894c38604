// The booking record and the repository queries the booking service runs
// over it. The store is a snapshot: a sequence of records in repository
// order. Each derived query is a filter: derived queries compare the hall
// name exactly and dates as strings, the findAll streams over daySlots
// compare the hall name ignoring case.
module Seminars {

  import opened Wrappers
  import opened Text

  /** Seminar.DaySlot: the times booked on one day of a range. */
  datatype DaySlot = DaySlot(startTime: Option<string>, endTime: Option<string>)

  /** A daySlots map: date key to a slot, or to `null` for the whole day. */
  type DaySlots = map<string, Option<DaySlot>>

  /** model/Seminar.java; every reference field may be null. */
  datatype Seminar = Seminar(
    id: Option<string>,
    slot: Option<string>,
    hallName: Option<string>,
    bookingName: Option<string>,
    email: Option<string>,
    department: Option<string>,
    phone: Option<string>,
    slotTitle: Option<string>,
    remarks: Option<string>,
    status: Option<string>,
    appliedAt: Option<string>,
    createdBy: Option<string>,
    cancellationReason: Option<string>,
    date: Option<string>,
    startTime: Option<string>,
    endTime: Option<string>,
    startDate: Option<string>,
    endDate: Option<string>,
    daySlots: Option<DaySlots>)

  predicate HasTimes(r: Seminar) {
    r.startTime.Some? && r.endTime.Some?
  }

  predicate HasRange(r: Seminar) {
    r.startDate.Some? && r.endDate.Some?
  }

  /** `r.getDaySlots() != null && r.getDaySlots().containsKey(key)` */
  predicate HasDaySlotKey(r: Seminar, key: string) {
    r.daySlots.Some? && key in r.daySlots.value
  }

  /** `r.getHallName() != null && r.getHallName().equalsIgnoreCase(hall)` */
  predicate HallIgnoreCase(r: Seminar, hall: string) {
    r.hallName.Some? && EqualsIgnoreCase(r.hallName.value, hall)
  }

  // ---------------------------------------------------------------------
  // Queries

  function Filter(s: seq<Seminar>, p: Seminar -> bool): (r: seq<Seminar>)
    ensures |r| <= |s|
    ensures forall x :: x in r <==> x in s && p(x)
  {
    if s == [] then []
    else if p(s[0]) then [s[0]] + Filter(s[1..], p)
    else Filter(s[1..], p)
  }

  lemma {:induction false} FilterAppend(a: seq<Seminar>, b: seq<Seminar>, p: Seminar -> bool)
    ensures Filter(a + b, p) == Filter(a, p) + Filter(b, p)
    decreases |a|
  {
    if a != [] {
      assert (a + b)[1..] == a[1..] + b;
      FilterAppend(a[1..], b, p);
    } else {
      assert a + b == b;
    }
  }

  /** Filtering twice is filtering once by both conditions, in either order:
      narrowing a query result is the query over the narrowed store. */
  lemma {:induction false} FilterFilter(s: seq<Seminar>, p: Seminar -> bool, q: Seminar -> bool)
    ensures Filter(Filter(s, p), q) == Filter(s, x => p(x) && q(x))
    ensures Filter(Filter(s, p), q) == Filter(Filter(s, q), p)
  {
    if s != [] {
      FilterFilter(s[1..], p, q);
    }
  }

  /** Filters by conditions that agree on every element are the same. */
  lemma {:induction false} FilterCongruent(s: seq<Seminar>, p: Seminar -> bool, q: Seminar -> bool)
    requires forall x :: x in s ==> p(x) == q(x)
    ensures Filter(s, p) == Filter(s, q)
  {
    if s != [] {
      FilterCongruent(s[1..], p, q);
    }
  }

  /** findByDateAndHallName(date, hall) */
  predicate AtDateInHall(r: Seminar, date: string, hall: string) {
    r.date == Some(date) && r.hallName == Some(hall)
  }

  /** findByHallNameAndStartDateLessThanEqualAndEndDateGreaterThanEqual(hall, hi, lo):
      a same-hall range starting at or before `hi` and ending at or after `lo`. */
  predicate RangeReaches(r: Seminar, hall: string, hi: string, lo: string) {
    r.hallName == Some(hall) && HasRange(r)
    && StrLessEq(r.startDate.value, hi) && StrLessEq(lo, r.endDate.value)
  }

  /** The findAll stream over daySlots: a record whose daySlots has `key`
      and whose hall equals `hall` ignoring case. */
  predicate DaySlotInHall(r: Seminar, key: string, hall: string) {
    HasDaySlotKey(r, key) && HallIgnoreCase(r, hall)
  }

  /** notSameId: the update checks keep only records that have an id other
      than the one being updated. */
  predicate NotSameId(r: Seminar, id: string) {
    r.id.Some? && r.id.value != id
  }

  function OthersThan(store: seq<Seminar>, id: string): (r: seq<Seminar>)
    ensures forall x :: x in r <==> x in store && NotSameId(x, id)
  {
    Filter(store, x => NotSameId(x, id))
  }
}
