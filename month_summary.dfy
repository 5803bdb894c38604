// Month calendars on the backend: the per-day booking counts built by
// SeminarService.getCalendarMonthSummary and by the calendar endpoint of
// SeminarController, and the department calendar of DepartmentService.
// Each fills a map from date to count with loops over bookings and over
// dates, then emits one (date, free, count) summary per day of the month.
module MonthSummary {

  import opened Wrappers
  import opened Text
  import opened Dates
  import opened Seminars

  /** payload/CalendarDaySummary: the date as "YYYY-MM-DD". */
  datatype DaySummary = DaySummary(date: string, free: bool, bookingCount: int)

  datatype CalendarError = MissingYearOrMonth | BadMonth | YearOutOfModel

  /** The `HashMap<LocalDate, Integer>` of counts. */
  type Counts = map<Date, int>

  /** `counts.getOrDefault(d, 0)` */
  function Get(c: Counts, d: Date): int {
    if d in c then c[d] else 0
  }

  /** `counts.put(d, counts.getOrDefault(d, 0) + 1)` */
  function Bump(c: Counts, d: Date): (r: Counts)
    ensures Get(r, d) == Get(c, d) + 1
    ensures forall x :: x != d ==> Get(r, x) == Get(c, x)
  {
    c[d := Get(c, d) + 1]
  }

  function MonthStart(y: int, m: int): Date {
    Date(y, m, 1)
  }

  function MonthEnd(y: int, m: int): Date
    requires 1 <= m <= 12
  {
    Date(y, m, DaysInMonth(y, m))
  }

  // ---------------------------------------------------------------------
  // What one booking adds to one day

  /** The three things a booking can contribute: its `date`, the days of its
      `startDate..endDate` range, and its `daySlots` keys. */
  datatype Part = DatePart | RangePart | SlotPart

  /** What part `part` of booking `s` adds to the count of day `x` of the
      window [lo, hi]; unparsable dates add nothing. */
  function Hits(part: Part, s: Seminar, x: Date, lo: Date, hi: Date): nat {
    if !Valid(x) || !InRange(x, lo, hi) then 0
    else
      match part
      case DatePart =>
        if s.date.Some? && ParseIsoDate(s.date.value) == Some(x) then 1 else 0
      case RangePart =>
        if HasRange(s) && IsIsoDate(s.startDate.value) && IsIsoDate(s.endDate.value)
           && InRange(x, ParseIsoDate(s.startDate.value).value, ParseIsoDate(s.endDate.value).value)
        then 1 else 0
      case SlotPart =>
        if s.daySlots.Some? && Valid4(x) && FormatIsoDate(x) in s.daySlots.value then 1 else 0
  }

  /** A daySlots key counts on the day it names: at most one key of a map
      names a given day, since a date has one canonical text. */
  lemma SlotHitsIffKeyNamesDay(s: Seminar, x: Date, lo: Date, hi: Date)
    ensures Hits(SlotPart, s, x, lo, hi) == 1 <==>
      Valid(x) && InRange(x, lo, hi) && s.daySlots.Some?
      && exists k :: k in s.daySlots.value && ParseIsoDate(k) == Some(x)
  {
    if Valid(x) && InRange(x, lo, hi) && s.daySlots.Some? {
      if k :| k in s.daySlots.value && ParseIsoDate(k) == Some(x) {
        FormatParse(k);
      }
      if Valid4(x) && FormatIsoDate(x) in s.daySlots.value {
        ParseFormat(x);
      }
    }
  }

  /** The sum of `part` over the bookings of `list`, for day `x`. */
  function Total(list: seq<Seminar>, part: Part, x: Date, lo: Date, hi: Date): nat {
    if list == [] then 0
    else Hits(part, list[0], x, lo, hi) + Total(list[1..], part, x, lo, hi)
  }

  lemma {:induction false} TotalAppend(a: seq<Seminar>, b: seq<Seminar>, part: Part, x: Date, lo: Date, hi: Date)
    ensures Total(a + b, part, x, lo, hi) == Total(a, part, x, lo, hi) + Total(b, part, x, lo, hi)
    decreases |a|
  {
    if a == [] {
      assert a + b == b;
    } else {
      assert (a + b)[1..] == a[1..] + b;
      TotalAppend(a[1..], b, part, x, lo, hi);
    }
  }

  lemma TotalSnoc(list: seq<Seminar>, s: Seminar, part: Part, x: Date, lo: Date, hi: Date)
    ensures Total(list + [s], part, x, lo, hi) == Total(list, part, x, lo, hi) + Hits(part, s, x, lo, hi)
  {
    TotalAppend(list, [s], part, x, lo, hi);
    assert [s][1..] == [];
  }

  /** Narrowing the bookings by either of two conditions that disagree only
      on bookings adding nothing to day `x` gives the same total. */
  lemma {:induction false} TotalFilterSame(list: seq<Seminar>, p: Seminar -> bool, q: Seminar -> bool,
                                            part: Part, x: Date, lo: Date, hi: Date)
    requires forall s :: s in list && p(s) != q(s) ==> Hits(part, s, x, lo, hi) == 0
    ensures Total(Filter(list, p), part, x, lo, hi) == Total(Filter(list, q), part, x, lo, hi)
  {
    if list != [] {
      TotalFilterSame(list[1..], p, q, part, x, lo, hi);
      if p(list[0]) {
        assert ([list[0]] + Filter(list[1..], p))[1..] == Filter(list[1..], p);
      }
      if q(list[0]) {
        assert ([list[0]] + Filter(list[1..], q))[1..] == Filter(list[1..], q);
      }
    }
  }

  // ---------------------------------------------------------------------
  // Adding one booking's contribution to the counts

  /** The `date` step: +1 on the booking's date when it parses and lies in
      the window. */
  method AddDate(c: Counts, s: Seminar, lo: Date, hi: Date) returns (r: Counts)
    ensures forall x :: Get(r, x) == Get(c, x) + Hits(DatePart, s, x, lo, hi)
  {
    r := c;
    if s.date.Some? {
      var p := ParseIsoDate(s.date.value);
      if p.Some? && InRange(p.value, lo, hi) {
        r := Bump(c, p.value);
      }
    }
  }

  /** Day `x` lies in [from, cur). */
  predicate Seen(x: Date, from: Date, cur: Date) {
    Valid(x) && NotAfter(from, x) && Before(x, cur)
  }

  lemma SeenStep(from: Date, cur: Date)
    requires Valid(cur) && NotAfter(from, cur)
    ensures forall x :: Seen(x, from, NextDay(cur)) <==> Seen(x, from, cur) || x == cur
  {
    forall x | Valid(x) && Before(cur, x)
      ensures !Before(x, NextDay(cur))
    {
      NextDayIsSuccessor(cur, x);
    }
  }

  lemma SeenThrough(from: Date, to: Date)
    requires Valid(to)
    ensures forall x :: Seen(x, from, NextDay(to)) <==> Valid(x) && InRange(x, from, to)
  {
    forall x | Valid(x) && Before(to, x)
      ensures !Before(x, NextDay(to))
    {
      NextDayIsSuccessor(to, x);
    }
  }

  /** The inner while loop: +1 on each day from `from` to `to`. */
  method CountDays(c: Counts, from: Date, to: Date) returns (r: Counts)
    requires Valid(from) && Valid(to) && NotAfter(from, to)
    ensures forall x :: Get(r, x) == Get(c, x) + (if Valid(x) && InRange(x, from, to) then 1 else 0)
  {
    r := c;
    var cur := from;
    while !Before(to, cur)
      invariant Valid(cur) && NotAfter(from, cur)
      invariant Before(to, cur) ==> cur == NextDay(to)
      invariant forall x :: Get(r, x) == Get(c, x) + (if Seen(x, from, cur) then 1 else 0)
      decreases DayNumber(to) + 1 - DayNumber(cur)
    {
      SeenStep(from, cur);
      if Before(cur, to) {
        NextDayIsSuccessor(cur, to);
      }
      BeforeIffDayNumber(to, cur);
      DayNumberNextDay(cur);
      r := Bump(r, cur);
      cur := NextDay(cur);
    }
    SeenThrough(from, to);
  }

  /** The booking's own range covers day `x`. */
  predicate RangeCovers(s: Seminar, x: Date) {
    HasRange(s) && IsIsoDate(s.startDate.value) && IsIsoDate(s.endDate.value)
    && InRange(x, ParseIsoDate(s.startDate.value).value, ParseIsoDate(s.endDate.value).value)
  }

  lemma RangeHits(s: Seminar, x: Date, lo: Date, hi: Date)
    ensures Hits(RangePart, s, x, lo, hi) == if Valid(x) && InRange(x, lo, hi) && RangeCovers(s, x) then 1 else 0
  {
  }

  /** The range step: +1 on each day of the booking's range clipped to the
      window, walking the days with plusDays(1). */
  method AddRange(c: Counts, s: Seminar, lo: Date, hi: Date) returns (r: Counts)
    requires Valid(lo) && Valid(hi)
    ensures forall x :: Get(r, x) == Get(c, x) + Hits(RangePart, s, x, lo, hi)
  {
    forall x {
      RangeHits(s, x, lo, hi);
    }
    r := c;
    if !HasRange(s) {
      return;
    }
    var ps, pe := ParseIsoDate(s.startDate.value), ParseIsoDate(s.endDate.value);
    if ps.None? || pe.None? {
      return;
    }
    var sd, ed := ps.value, pe.value;
    var from := if Before(sd, lo) then lo else sd;
    var to := if Before(hi, ed) then hi else ed;
    assert forall x :: InRange(x, from, to) <==> InRange(x, lo, hi) && RangeCovers(s, x);
    if !Before(to, from) {
      r := CountDays(c, from, to);
    }
  }

  /** The daySlots step: +1 on each key that parses to a day of the window,
      visiting the keys in the map's order. */
  function SeenKey(x: Date, lo: Date, hi: Date, seen: set<string>): nat {
    if Valid4(x) && InRange(x, lo, hi) && FormatIsoDate(x) in seen then 1 else 0
  }

  method AddSlots(c: Counts, s: Seminar, lo: Date, hi: Date) returns (r: Counts)
    ensures forall x :: Get(r, x) == Get(c, x) + Hits(SlotPart, s, x, lo, hi)
  {
    r := c;
    if s.daySlots.None? {
      return;
    }
    var keys := s.daySlots.value.Keys;
    var todo := keys;
    while todo != {}
      invariant todo <= keys
      invariant forall x :: Get(r, x) == Get(c, x) + SeenKey(x, lo, hi, keys - todo)
      decreases |todo|
    {
      var k :| k in todo;
      var p := ParseIsoDate(k);
      forall x | Valid4(x)
        ensures FormatIsoDate(x) == k <==> p == Some(x)
      {
        ParseFormat(x);
        if p.Some? {
          FormatParse(k);
        }
      }
      if p.Some? && InRange(p.value, lo, hi) {
        r := Bump(r, p.value);
      }
      todo := todo - {k};
    }
  }

  method AddPart(c: Counts, s: Seminar, part: Part, lo: Date, hi: Date) returns (r: Counts)
    requires Valid(lo) && Valid(hi)
    ensures forall x :: Get(r, x) == Get(c, x) + Hits(part, s, x, lo, hi)
  {
    match part
    case DatePart => r := AddDate(c, s, lo, hi);
    case RangePart => r := AddRange(c, s, lo, hi);
    case SlotPart => r := AddSlots(c, s, lo, hi);
  }

  /** `for (Seminar s : list)` adding one part of each booking. */
  method AddAll(c: Counts, list: seq<Seminar>, part: Part, lo: Date, hi: Date) returns (r: Counts)
    requires Valid(lo) && Valid(hi)
    ensures forall x :: Get(r, x) == Get(c, x) + Total(list, part, x, lo, hi)
  {
    r := c;
    var i := 0;
    while i < |list|
      invariant 0 <= i <= |list|
      invariant forall x :: Get(r, x) == Get(c, x) + Total(list[..i], part, x, lo, hi)
    {
      assert list[..i + 1] == list[..i] + [list[i]];
      forall x
        ensures Total(list[..i + 1], part, x, lo, hi) == Total(list[..i], part, x, lo, hi) + Hits(part, list[i], x, lo, hi)
      {
        TotalSnoc(list[..i], list[i], part, x, lo, hi);
      }
      r := AddPart(r, list[i], part, lo, hi);
      i := i + 1;
    }
    assert list[..i] == list;
  }

  // ---------------------------------------------------------------------
  // The summary list

  function SummaryOf(c: Counts, d: Date): DaySummary
    requires Valid4(d)
  {
    DaySummary(FormatIsoDate(d), Get(c, d) == 0, Get(c, d))
  }

  /** The final loop: one summary per day from the 1st to the last day. */
  method BuildSummary(c: Counts, y: int, m: int) returns (out: seq<DaySummary>)
    requires 0 <= y <= 9999 && 1 <= m <= 12
    ensures |out| == DaysInMonth(y, m)
    ensures forall j :: 0 <= j < |out| ==> out[j] == SummaryOf(c, Date(y, m, j + 1))
  {
    var end := MonthEnd(y, m);
    var cursor := MonthStart(y, m);
    out := [];
    while !Before(end, cursor)
      invariant |out| <= DaysInMonth(y, m)
      invariant |out| < DaysInMonth(y, m) ==> cursor == Date(y, m, |out| + 1)
      invariant |out| == DaysInMonth(y, m) ==> cursor == NextDay(end)
      invariant forall j :: 0 <= j < |out| ==> out[j] == SummaryOf(c, Date(y, m, j + 1))
      decreases DaysInMonth(y, m) - |out|
    {
      out := out + [SummaryOf(c, cursor)];
      cursor := NextDay(cursor);
    }
  }

  /** The summary of a month: one entry per day, dates strictly ascending
      (as text, and so as dates), each reading back as its day of the month,
      and `free` exactly when the count is zero. */
  predicate IsMonthSummary(out: seq<DaySummary>, y: int, m: int, count: Date -> int)
    requires 0 <= y <= 9999 && 1 <= m <= 12
  {
    |out| == DaysInMonth(y, m)
    && (forall j :: 0 <= j < |out| ==>
          ParseIsoDate(out[j].date) == Some(Date(y, m, j + 1))
          && out[j].bookingCount == count(Date(y, m, j + 1))
          && (out[j].free <==> out[j].bookingCount == 0))
    && (forall i, j :: 0 <= i < j < |out| ==> StrLess(out[i].date, out[j].date))
  }

  /** One entry per day, each holding that day's ISO text, its count and
      `free` for a zero count, is a month summary. */
  lemma EntriesFormMonthSummary(out: seq<DaySummary>, y: int, m: int, count: Date -> int)
    requires 0 <= y <= 9999 && 1 <= m <= 12
    requires |out| == DaysInMonth(y, m)
    requires forall j :: 0 <= j < |out| ==>
               out[j] == DaySummary(FormatIsoDate(Date(y, m, j + 1)), count(Date(y, m, j + 1)) == 0, count(Date(y, m, j + 1)))
    ensures IsMonthSummary(out, y, m, count)
  {
    forall j | 0 <= j < |out|
      ensures ParseIsoDate(out[j].date) == Some(Date(y, m, j + 1))
    {
      ParseFormat(Date(y, m, j + 1));
    }
    forall i, j | 0 <= i < j < |out|
      ensures StrLess(out[i].date, out[j].date)
    {
      ParseFormat(Date(y, m, i + 1));
      ParseFormat(Date(y, m, j + 1));
      IsoStringOrder(out[i].date, out[j].date);
    }
  }

  // ---------------------------------------------------------------------
  // SeminarController: the calendar endpoint

  /** `(hallName == null || hallName.isBlank()) ? null : hallName.trim()` */
  function HallFilter(hallName: Option<string>): Option<string> {
    if NullOrBlank(hallName) then None else Some(Trim(hallName.value))
  }

  /** The endpoint counts every booking of the hall, whatever its status,
      comparing names ignoring case. */
  predicate EndpointKeeps(s: Seminar, hall: Option<string>) {
    hall.None? || HallIgnoreCase(s, hall.value)
  }

  function EndpointCount(store: seq<Seminar>, hall: Option<string>, x: Date, lo: Date, hi: Date): nat {
    var kept := Filter(store, s => EndpointKeeps(s, hall));
    Total(kept, DatePart, x, lo, hi) + Total(kept, RangePart, x, lo, hi) + Total(kept, SlotPart, x, lo, hi)
  }

  lemma EndpointCountSnoc(pre: seq<Seminar>, s: Seminar, hall: Option<string>, x: Date, lo: Date, hi: Date)
    ensures EndpointCount(pre + [s], hall, x, lo, hi) == EndpointCount(pre, hall, x, lo, hi)
      + (if EndpointKeeps(s, hall) then Hits(DatePart, s, x, lo, hi) + Hits(RangePart, s, x, lo, hi) + Hits(SlotPart, s, x, lo, hi) else 0)
  {
    var keep := s => EndpointKeeps(s, hall);
    FilterAppend(pre, [s], keep);
    var kept := Filter(pre, keep);
    if keep(s) {
      assert Filter(pre + [s], keep) == kept + [s];
      TotalSnoc(kept, s, DatePart, x, lo, hi);
      TotalSnoc(kept, s, RangePart, x, lo, hi);
      TotalSnoc(kept, s, SlotPart, x, lo, hi);
    } else {
      assert Filter(pre + [s], keep) == kept + [];
      assert kept + [] == kept;
    }
  }

  /** The endpoint's loop over all bookings. */
  method EndpointCounts(store: seq<Seminar>, hall: Option<string>, lo: Date, hi: Date) returns (c: Counts)
    requires Valid(lo) && Valid(hi)
    ensures forall x :: Get(c, x) == EndpointCount(store, hall, x, lo, hi)
  {
    c := map[];
    var i := 0;
    while i < |store|
      invariant 0 <= i <= |store|
      invariant forall x :: Get(c, x) == EndpointCount(store[..i], hall, x, lo, hi)
    {
      var s := store[i];
      assert store[..i + 1] == store[..i] + [s];
      forall x {
        EndpointCountSnoc(store[..i], s, hall, x, lo, hi);
      }
      if EndpointKeeps(s, hall) {
        c := AddDate(c, s, lo, hi);
        c := AddRange(c, s, lo, hi);
        c := AddSlots(c, s, lo, hi);
      }
      i := i + 1;
    }
    assert store[..i] == store;
  }

  /** GET /calendar: year and month are required, month in 1..12. */
  method CalendarEndpoint(store: seq<Seminar>, hallName: Option<string>, year: Option<int>, month: Option<int>)
    returns (r: Result<seq<DaySummary>, CalendarError>)
    ensures (year.None? || month.None?) ==> r == Err(MissingYearOrMonth)
    ensures year.Some? && month.Some? && !(1 <= month.value <= 12) ==> r == Err(BadMonth)
    ensures year.Some? && month.Some? && 1 <= month.value <= 12 && !(0 <= year.value <= 9999) ==> r == Err(YearOutOfModel)
    ensures r.Ok? ==>
      year.Some? && month.Some? && 0 <= year.value <= 9999 && 1 <= month.value <= 12
      && IsMonthSummary(r.value, year.value, month.value,
           d => EndpointCount(store, HallFilter(hallName), d,
                              MonthStart(year.value, month.value), MonthEnd(year.value, month.value)))
  {
    if year.None? || month.None? {
      return Err(MissingYearOrMonth);
    }
    var y, m := year.value, month.value;
    if m < 1 || m > 12 {
      return Err(BadMonth);
    }
    if y < 0 || y > 9999 {
      return Err(YearOutOfModel);
    }
    var lo, hi := MonthStart(y, m), MonthEnd(y, m);
    var hall := HallFilter(hallName);
    var c := EndpointCounts(store, hall, lo, hi);
    var out := BuildSummary(c, y, m);
    EntriesFormMonthSummary(out, y, m, d => Get(c, d));
    assert forall d :: Get(c, d) == EndpointCount(store, hall, d, lo, hi);
    return Ok(out);
  }

  // ---------------------------------------------------------------------
  // SeminarService.getCalendarMonthSummary

  /** findByHallNameAndDateBetween(hall, from, to) with both ends included,
      which is what the method relies on. */
  predicate DateBetween(s: Seminar, hall: string, from: string, to: string) {
    s.hallName == Some(hall) && s.date.Some? && StrLessEq(from, s.date.value) && StrLessEq(s.date.value, to)
  }

  /** The same query as Spring Data MongoDB derives it: `Between` excludes
      both ends ($gt / $lt). */
  predicate DateBetweenAsWritten(s: Seminar, hall: string, from: string, to: string) {
    s.hallName == Some(hall) && s.date.Some? && StrLess(from, s.date.value) && StrLess(s.date.value, to)
  }

  /** The three lists the method counts over, for a hall filter or none. */
  function TimeBookings(store: seq<Seminar>, hall: Option<string>, from: string, to: string): seq<Seminar> {
    if hall.Some? then Filter(store, s => DateBetween(s, hall.value, from, to))
    else Filter(store, (s: Seminar) => s.date.Some?)
  }

  function TimeBookingsAsWritten(store: seq<Seminar>, hall: Option<string>, from: string, to: string): seq<Seminar> {
    if hall.Some? then Filter(store, s => DateBetweenAsWritten(s, hall.value, from, to))
    else Filter(store, (s: Seminar) => s.date.Some?)
  }

  function DayRangeBookings(store: seq<Seminar>, hall: Option<string>, from: string, to: string): seq<Seminar> {
    if hall.Some? then Filter(store, s => RangeReaches(s, hall.value, to, from))
    else Filter(store, (s: Seminar) => HasRange(s))
  }

  /** The findAll stream: bookings with a non-empty daySlots map, of the
      hall (ignoring case) when one is given. */
  predicate HasSlotsFor(s: Seminar, hall: Option<string>) {
    s.daySlots.Some? && |s.daySlots.value| > 0 && EndpointKeeps(s, hall)
  }

  function WithDaySlots(store: seq<Seminar>, hall: Option<string>): seq<Seminar> {
    Filter(store, s => HasSlotsFor(s, hall))
  }

  function ServiceCount(store: seq<Seminar>, hall: Option<string>, x: Date, y: int, m: int): nat
    requires 0 <= y <= 9999 && 1 <= m <= 12
  {
    var lo, hi := MonthStart(y, m), MonthEnd(y, m);
    var from, to := FormatIsoDate(lo), FormatIsoDate(hi);
    Total(TimeBookings(store, hall, from, to), DatePart, x, lo, hi)
    + Total(DayRangeBookings(store, hall, from, to), RangePart, x, lo, hi)
    + Total(WithDaySlots(store, hall), SlotPart, x, lo, hi)
  }

  method MonthSummary(store: seq<Seminar>, hallName: Option<string>, year: int, month: int)
    returns (r: Result<seq<DaySummary>, CalendarError>)
    ensures !(1 <= month <= 12) ==> r == Err(BadMonth)
    ensures 1 <= month <= 12 && !(0 <= year <= 9999) ==> r == Err(YearOutOfModel)
    ensures r.Ok? ==>
      0 <= year <= 9999 && 1 <= month <= 12
      && IsMonthSummary(r.value, year, month, d => ServiceCount(store, HallFilter(hallName), d, year, month))
  {
    if month < 1 || month > 12 {
      return Err(BadMonth);
    }
    if year < 0 || year > 9999 {
      return Err(YearOutOfModel);
    }
    var lo, hi := MonthStart(year, month), MonthEnd(year, month);
    var from, to := FormatIsoDate(lo), FormatIsoDate(hi);
    var hall := HallFilter(hallName);
    var c := AddAll(map[], TimeBookings(store, hall, from, to), DatePart, lo, hi);
    c := AddAll(c, DayRangeBookings(store, hall, from, to), RangePart, lo, hi);
    c := AddAll(c, WithDaySlots(store, hall), SlotPart, lo, hi);
    var out := BuildSummary(c, year, month);
    EntriesFormMonthSummary(out, year, month, d => Get(c, d));
    assert forall d :: Get(c, d) == ServiceCount(store, hall, d, year, month);
    return Ok(out);
  }

  /** Without a hall filter the service counts exactly what the endpoint
      counts. */
  lemma ServiceMatchesEndpoint(store: seq<Seminar>, x: Date, y: int, m: int)
    requires 0 <= y <= 9999 && 1 <= m <= 12
    ensures ServiceCount(store, None, x, y, m) == EndpointCount(store, None, x, MonthStart(y, m), MonthEnd(y, m))
  {
    var lo, hi := MonthStart(y, m), MonthEnd(y, m);
    var all := s => EndpointKeeps(s, None);
    TotalFilterSame(store, (s: Seminar) => s.date.Some?, all, DatePart, x, lo, hi);
    TotalFilterSame(store, (s: Seminar) => HasRange(s), all, RangePart, x, lo, hi);
    TotalFilterSame(store, s => HasSlotsFor(s, None), all, SlotPart, x, lo, hi);
  }

  /** With a hall, the string range queries lose nothing: the service counts
      a day's time and range bookings of that hall (named exactly). */
  lemma ServiceQueriesLoseNothing(store: seq<Seminar>, hall: string, x: Date, y: int, m: int)
    requires 0 <= y <= 9999 && 1 <= m <= 12
    ensures var lo, hi := MonthStart(y, m), MonthEnd(y, m);
            var from, to := FormatIsoDate(lo), FormatIsoDate(hi);
            var ofHall := Filter(store, (s: Seminar) => s.hallName == Some(hall));
            Total(TimeBookings(store, Some(hall), from, to), DatePart, x, lo, hi) == Total(ofHall, DatePart, x, lo, hi)
            && Total(DayRangeBookings(store, Some(hall), from, to), RangePart, x, lo, hi) == Total(ofHall, RangePart, x, lo, hi)
  {
    var lo, hi := MonthStart(y, m), MonthEnd(y, m);
    var from, to := FormatIsoDate(lo), FormatIsoDate(hi);
    ParseFormat(lo);
    ParseFormat(hi);
    var exact := (s: Seminar) => s.hallName == Some(hall);
    forall s | s in store && DateBetween(s, hall, from, to) != exact(s)
      ensures Hits(DatePart, s, x, lo, hi) == 0
    {
      if Hits(DatePart, s, x, lo, hi) != 0 {
        IsoStringOrderEq(from, s.date.value);
        IsoStringOrderEq(s.date.value, to);
      }
    }
    TotalFilterSame(store, s => DateBetween(s, hall, from, to), exact, DatePart, x, lo, hi);
    forall s | s in store && RangeReaches(s, hall, to, from) != exact(s)
      ensures Hits(RangePart, s, x, lo, hi) == 0
    {
      if Hits(RangePart, s, x, lo, hi) != 0 {
        IsoStringOrderEq(s.startDate.value, to);
        IsoStringOrderEq(from, s.endDate.value);
      }
    }
    TotalFilterSame(store, s => RangeReaches(s, hall, to, from), exact, RangePart, x, lo, hi);
  }

  /** With `Between` excluding its ends, a booking on the 1st of the month
      is not returned, and the 1st shows as free in the hall's calendar; with
      the ends included it is counted. */
  lemma FirstOfMonthMissedAsWritten(b: Seminar, hall: string, y: int, m: int)
    requires 0 <= y <= 9999 && 1 <= m <= 12
    requires b.hallName == Some(hall) && b.date == Some(FormatIsoDate(MonthStart(y, m)))
    ensures TimeBookingsAsWritten([b], Some(hall), FormatIsoDate(MonthStart(y, m)), FormatIsoDate(MonthEnd(y, m))) == []
    ensures Total(TimeBookings([b], Some(hall), FormatIsoDate(MonthStart(y, m)), FormatIsoDate(MonthEnd(y, m))),
                  DatePart, MonthStart(y, m), MonthStart(y, m), MonthEnd(y, m)) == 1
  {
    var lo, hi := MonthStart(y, m), MonthEnd(y, m);
    var from, to := FormatIsoDate(lo), FormatIsoDate(hi);
    StrLessIrreflexive(from);
    assert !DateBetweenAsWritten(b, hall, from, to);
    ParseFormat(lo);
    ParseFormat(hi);
    IsoStringOrderEq(from, to);
    assert DateBetween(b, hall, from, to);
    assert TimeBookings([b], Some(hall), from, to) == [b];
    assert [b][1..] == [];
  }
}
