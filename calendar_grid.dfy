// The month grid component the calendar pages draw: blank cells up to the
// weekday of the 1st, then one cell per day with the day's approved
// booking count and how much of the 09:00-17:00 working day they fill.
module CalendarGrid {

  import opened Wrappers
  import opened Text
  import opened Numbers
  import opened Dates
  import opened Seminars
  import AdminCalendar

  // ---------------------------------------------------------------------
  // parseTimeToMinutes

  /** `^(\d{1,2}):(\d{2})` at the start of `s`: the hour, the minutes and
      the text after them. */
  function LeadClock(s: string): (r: Option<(nat, nat, string)>)
    ensures r.Some? ==> r.value.0 < 100 && r.value.1 < 100
  {
    if |s| >= 4 && IsDigit(s[0]) && s[1] == ':' && IsDigit(s[2]) && IsDigit(s[3]) then
      Some((DigitValue(s[0]), Val2(s[2], s[3]), s[4..]))
    else if |s| >= 5 && IsDigit(s[0]) && IsDigit(s[1]) && s[2] == ':' && IsDigit(s[3]) && IsDigit(s[4]) then
      Some((Val2(s[0], s[1]), Val2(s[3], s[4]), s[5..]))
    else None
  }

  predicate AllJsWhitespace(s: string) {
    forall i :: 0 <= i < |s| ==> IsJsWhitespace(s[i])
  }

  /** `\s*(AM|PM)$`, ignoring case: Some(true) for PM, Some(false) for AM. */
  function Meridiem(rest: string): (r: Option<bool>)
    ensures r.Some? ==> |rest| >= 2 && AllJsWhitespace(rest[..|rest| - 2])
    ensures r == Some(true) <==> |rest| >= 2 && AllJsWhitespace(rest[..|rest| - 2]) && Upper(rest[|rest| - 2..]) == "PM"
    ensures r == Some(false) <==> |rest| >= 2 && AllJsWhitespace(rest[..|rest| - 2]) && Upper(rest[|rest| - 2..]) == "AM"
  {
    if |rest| >= 2 && AllJsWhitespace(rest[..|rest| - 2]) then
      var ap := Upper(rest[|rest| - 2..]);
      if ap == "PM" then Some(true) else if ap == "AM" then Some(false) else None
    else None
  }

  /** The 12-hour adjustment: PM adds 12 below 12, and 12 AM is hour 0. */
  function To24(h: nat, pm: bool): nat {
    if pm && h < 12 then h + 12 else if !pm && h == 12 then 0 else h
  }

  /** The 12-hour clock: hours 1..12 with AM or PM name each hour of the
      day exactly once, PM being the afternoon. */
  lemma TwelveHourClock(h1: nat, pm1: bool, h2: nat, pm2: bool)
    requires 1 <= h1 <= 12 && 1 <= h2 <= 12
    ensures 0 <= To24(h1, pm1) < 24
    ensures To24(h1, pm1) >= 12 <==> pm1
    ensures To24(h1, pm1) == To24(h2, pm2) ==> h1 == h2 && pm1 == pm2
  {
  }

  /** A trimmed time text: `H:MM` or `HH:MM` alone, or followed by AM or
      PM. Any other text goes to the Date parser, which is left out. */
  function ReadTime(s: string): (r: Option<int>)
    ensures r.Some? ==> r.value >= 0
  {
    match LeadClock(s)
    case None => None
    case Some((h, m, rest)) =>
      if rest == [] then Some(h * 60 + m)
      else match Meridiem(rest)
        case Some(pm) => Some(To24(h, pm) * 60 + m)
        case None => None
  }

  /** parseTimeToMinutes: null for a missing or empty text, otherwise the
      trimmed text read by ReadTime. */
  function ParseTimeToMinutes(t: Option<string>): (r: Option<int>)
    ensures !Truthy(t) ==> r.None?
    ensures r.Some? ==> r.value >= 0
  {
    if !Truthy(t) then None else ReadTime(JsTrim(t.value))
  }

  /** Two pairs of digits around a colon lead a text. */
  lemma LeadDigits(x: string, y: string, rest: string)
    requires |x| == 2 && |y| == 2 && IsDigit(x[0]) && IsDigit(x[1]) && IsDigit(y[0]) && IsDigit(y[1])
    ensures LeadClock(x + ":" + y + rest) == Some((Val2(x[0], x[1]), Val2(y[0], y[1]), rest))
  {
    var s := x + ":" + y + rest;
    assert s[0] == x[0] && s[1] == x[1] && s[2] == ':' && s[3] == y[0] && s[4] == y[1];
    assert s[5..] == rest;
  }

  /** `HH:MM` reads as h * 60 + m. */
  lemma ReadsTwentyFourHour(h: nat, m: nat)
    requires h < 100 && m < 100
    ensures ParseTimeToMinutes(Some(Pad2(h) + ":" + Pad2(m))) == Some(h * 60 + m)
  {
    Pad2Short(h);
    Pad2Short(m);
    var x, y := TwoDigits(h), TwoDigits(m);
    var s := x + ":" + y + [];
    assert s == Pad2(h) + ":" + Pad2(m);
    LeadDigits(x, y, []);
    JsTrimKeepsEnds(s);
    assert ReadTime(s) == Some(h * 60 + m);
  }

  /** `HH:MM AM` and `HH:MM PM` read through the 12-hour adjustment. */
  lemma ReadsTwelveHour(h: nat, m: nat, pm: bool)
    requires h < 100 && m < 100
    ensures ParseTimeToMinutes(Some(Pad2(h) + ":" + Pad2(m) + " " + (if pm then "PM" else "AM")))
         == Some(To24(h, pm) * 60 + m)
  {
    Pad2Short(h);
    Pad2Short(m);
    var x, y := TwoDigits(h), TwoDigits(m);
    var ap := if pm then "PM" else "AM";
    var rest := " " + ap;
    var s := x + ":" + y + rest;
    assert s == Pad2(h) + ":" + Pad2(m) + " " + ap;
    LeadDigits(x, y, rest);
    assert s[|s| - 1] == 'M';
    JsTrimKeepsEnds(s);
    MeridiemOf(pm);
    ReadTimeWithMeridiem(s, h, m, rest, pm);
  }

  lemma ReadTimeWithMeridiem(s: string, h: nat, m: nat, rest: string, pm: bool)
    requires LeadClock(s) == Some((h, m, rest)) && rest != [] && Meridiem(rest) == Some(pm)
    ensures ReadTime(s) == Some(To24(h, pm) * 60 + m)
  {
  }

  lemma MeridiemOf(pm: bool)
    ensures Meridiem(" " + (if pm then "PM" else "AM")) == Some(pm)
  {
    var rest := " " + (if pm then "PM" else "AM");
    assert rest[..|rest| - 2] == " ";
    assert rest[|rest| - 2..] == (if pm then "PM" else "AM");
  }

  // ---------------------------------------------------------------------
  // Minutes of the working day

  const DayStartMin: int := 9 * 60
  const DayEndMin: int := 17 * 60

  /** clamp(v, a, b) = max(a, min(b, v)) */
  function Clamp(v: int, a: int, b: int): (r: int)
    requires a <= b
    ensures a <= r <= b
    ensures a <= v <= b ==> r == v
    ensures v < a ==> r == a
    ensures v > b ==> r == b
  {
    var low := if b < v then b else v;
    if a > low then a else low
  }

  /** The minutes one approved booking adds to its day. */
  function BookedMinutes(b: Seminar): (r: nat)
    ensures r <= DayEndMin - DayStartMin
  {
    Contribution(ParseTimeToMinutes(b.startTime), ParseTimeToMinutes(b.endTime))
  }

  /** The part of [start, end) inside 09:00-17:00, when both times read
      and end is after start. */
  function Contribution(start: Option<int>, end: Option<int>): (r: nat)
    ensures r <= DayEndMin - DayStartMin
  {
    if start.Some? && end.Some? && end.value > start.value then
      var from := Clamp(start.value, DayStartMin, DayEndMin);
      var to := Clamp(end.value, DayStartMin, DayEndMin);
      if to - from > 0 then to - from else 0
    else 0
  }

  /** The minutes a booking adds are the minutes its time range shares
      with the working day. */
  lemma ContributionIsOverlap(start: int, end: int)
    ensures Contribution(Some(start), Some(end)) == |Interval(start, end) * Interval(DayStartMin, DayEndMin)|
  {
    var lo := if start < DayStartMin then DayStartMin else start;
    var hi := if end < DayEndMin then end else DayEndMin;
    ContributionFormula(start, end);
    IntervalMeet(start, end, DayStartMin, DayEndMin);
    OverlapSize(lo, hi);
  }

  lemma ContributionFormula(start: int, end: int)
    ensures var lo := if start < DayStartMin then DayStartMin else start;
            var hi := if end < DayEndMin then end else DayEndMin;
            Contribution(Some(start), Some(end)) == if lo < hi then hi - lo else 0
  {
  }

  lemma OverlapSize(lo: int, hi: int)
    ensures |Interval(lo, hi)| == if lo < hi then hi - lo else 0
  {
    if hi <= lo {
      IntervalEmpty(lo, hi);
    }
  }

  lemma IntervalMeet(a: int, b: int, c: int, d: int)
    ensures Interval(a, b) * Interval(c, d) == Interval(if a < c then c else a, if b < d then b else d)
  {
  }

  lemma IntervalEmpty(a: int, b: int)
    requires b <= a
    ensures |Interval(a, b)| == 0
  {
    assert Interval(a, b) == {};
  }

  /** The approved bookings of a cell: status APPROVED, ignoring case; a
      missing status is not approved here. */
  predicate IsApproved(b: Seminar) {
    Upper(if Truthy(b.status) then b.status.value else "") == "APPROVED"
  }

  function ApprovedOf(list: seq<Seminar>): (r: seq<Seminar>)
    ensures |r| <= |list|
    ensures forall b :: b in r <==> b in list && IsApproved(b)
  {
    if list == [] then []
    else
      var last := list[|list| - 1];
      assert list == list[..|list| - 1] + [last];
      ApprovedOf(list[..|list| - 1]) + (if IsApproved(last) then [last] else [])
  }

  /** totalBookedMinutes: the minutes of the bookings, added up. */
  function TotalMinutes(list: seq<Seminar>): nat {
    if list == [] then 0 else TotalMinutes(list[..|list| - 1]) + BookedMinutes(list[|list| - 1])
  }

  /** The forEach that adds up the minutes. */
  method SumMinutes(list: seq<Seminar>) returns (total: nat)
    ensures total == TotalMinutes(list)
  {
    total := 0;
    var i := 0;
    while i < |list|
      invariant 0 <= i <= |list|
      invariant total == TotalMinutes(list[..i])
    {
      assert list[..i + 1][..i] == list[..i];
      total := total + BookedMinutes(list[i]);
      i := i + 1;
    }
    assert list[..i] == list;
  }

  /** percentFull, in exact arithmetic: 0 for a day without approved
      bookings, else the booked share of the 480-minute day as a
      percentage, capped at 100 and rounded half up. */
  function PercentFull(count: nat, total: nat): (r: int)
    ensures 0 <= r <= 100
    ensures count == 0 ==> r == 0
    ensures count > 0 && total >= DayEndMin - DayStartMin ==> r == 100
  {
    if count == 0 then 0
    else if total * 100 >= 100 * (DayEndMin - DayStartMin) then 100
    else (200 * total + (DayEndMin - DayStartMin)) / (2 * (DayEndMin - DayStartMin))
  }

  /** More booked minutes never show a lower percentage. */
  lemma PercentMonotone(count: nat, t1: nat, t2: nat)
    requires t1 <= t2
    ensures PercentFull(count, t1) <= PercentFull(count, t2)
  {
  }

  // ---------------------------------------------------------------------
  // The month

  /** The cell content: a blank before the 1st, or a day. */
  datatype Cell = Blank | Day(date: string, bookingCount: nat, percentFull: int)

  /** Who draws the grid: the department pages fill a day that has only a
      count with that many approved placeholders. */
  datatype Source = AdminSource | DeptSource

  /** The month and year the grid accepts: both set, the month 1..12. */
  predicate ValidMonthYear(month: int, year: int) {
    month != 0 && year != 0 && 1 <= month <= 12
  }

  /** `new Date(y, ...)` reads the years 0..99 as 1900..1999. */
  function JsYear(y: int): int {
    if 0 <= y <= 99 then 1900 + y else y
  }

  /** The weekday of a date, 0 for Sunday: day 0 of the day count,
      0000-01-01 of the proleptic Gregorian calendar, was a Saturday. */
  function Weekday(d: Date): (r: int)
    requires Valid(d)
    ensures 0 <= r < 7
  {
    (DayNumber(d) + 6) % 7
  }

  function MonthLength(year: int, month: int): (r: int)
    requires year >= 0 && 1 <= month <= 12
    ensures 28 <= r <= 31
  {
    DaysInMonth(JsYear(year), month)
  }

  /** firstDay: the weekday of the 1st of the month. */
  function FirstWeekday(year: int, month: int): (r: int)
    requires year >= 0 && 1 <= month <= 12
    ensures 0 <= r < 7
  {
    Weekday(Date(JsYear(year), month, 1))
  }

  /** The grid puts every day under its own weekday: with the blanks in
      front, the cell of day d sits in the column of that day's weekday. */
  lemma DayUnderItsWeekday(year: int, month: int, d: int)
    requires year >= 0 && 1 <= month <= 12 && 1 <= d <= MonthLength(year, month)
    ensures (FirstWeekday(year, month) + d - 1) % 7 == Weekday(Date(JsYear(year), month, d))
  {
    var first := Date(JsYear(year), month, 1);
    var day := Date(JsYear(year), month, d);
    assert DayNumber(day) == DayNumber(first) + d - 1;
    WeekdayShift(DayNumber(first), d - 1);
  }

  lemma WeekdayShift(x: int, k: int)
    ensures ((x + 6) % 7 + k) % 7 == (x + k + 6) % 7
  {
  }

  /** The day of the month an entry is drawn on: the day of its ISO date
      text; an empty or other text is drawn nowhere. */
  function EntryDay(e: AdminCalendar.DayEntry): (r: Option<int>)
    ensures r.Some? ==> 1 <= r.value <= 31
  {
    if e.date == [] then None
    else match ParseIsoDate(e.date)
      case Some(d) => Some(d.day)
      case None => None
  }

  /** mapByDay.get(d): the last entry drawn on day d. */
  function EntryOn(data: seq<AdminCalendar.DayEntry>, d: int): (r: Option<AdminCalendar.DayEntry>)
    ensures r.Some? ==> r.value in data && EntryDay(r.value) == Some(d)
    ensures r.None? <==> forall e :: e in data ==> EntryDay(e) != Some(d)
  {
    if data == [] then None
    else
      var last := data[|data| - 1];
      assert data == data[..|data| - 1] + [last];
      if EntryDay(last) == Some(d) then Some(last) else EntryOn(data[..|data| - 1], d)
  }

  function LookupDay(m: map<int, AdminCalendar.DayEntry>, d: int): Option<AdminCalendar.DayEntry> {
    if d in m then Some(m[d]) else None
  }

  /** The forEach that fills mapByDay. */
  method MapByDay(data: seq<AdminCalendar.DayEntry>) returns (m: map<int, AdminCalendar.DayEntry>)
    ensures forall d :: LookupDay(m, d) == EntryOn(data, d)
  {
    m := map[];
    var i := 0;
    while i < |data|
      invariant 0 <= i <= |data|
      invariant forall d :: LookupDay(m, d) == EntryOn(data[..i], d)
    {
      var entry := data[i];
      assert data[..i + 1][..i] == data[..i];
      assert data[..i + 1][i] == entry;
      if entry.date != [] {
        var day := EntryDay(entry);
        if day.Some? {
          m := m[day.value := entry];
        }
      }
      i := i + 1;
    }
    assert data[..i] == data;
  }

  /** A placeholder booking: `{ status: "APPROVED" }`. */
  function Placeholder(): Seminar {
    Seminar(None, None, None, None, None, None, None, None, None, Some("APPROVED"),
            None, None, None, None, None, None, None, None, None)
  }

  /** The bookings a day cell considers. */
  function CellBookings(entry: Option<AdminCalendar.DayEntry>, source: Source): (r: seq<Seminar>)
    ensures entry.None? ==> r == []
    ensures entry.Some? && |entry.value.bookings| > 0 ==> r == entry.value.bookings
  {
    if entry.Some? && |entry.value.bookings| > 0 then entry.value.bookings
    else if source == DeptSource && entry.Some? then seq(entry.value.bookingCount, _ => Placeholder())
    else []
  }

  /** The cell of day d. */
  function DayCellOf(data: seq<AdminCalendar.DayEntry>, year: int, month: int, d: int, source: Source): Cell {
    var approved := ApprovedOf(CellBookings(EntryOn(data, d), source));
    Day(AdminCalendar.DayKey(year, month, d), |approved|, PercentFull(|approved|, TotalMinutes(approved)))
  }

  /** One pass of the day loop. */
  method BuildDayCell(m: map<int, AdminCalendar.DayEntry>, ghost data: seq<AdminCalendar.DayEntry>,
                      year: int, month: int, d: int, source: Source) returns (cell: Cell)
    requires forall k :: LookupDay(m, k) == EntryOn(data, k)
    ensures cell == DayCellOf(data, year, month, d, source)
  {
    var entry := LookupDay(m, d);
    var dateStr := AdminCalendar.DayKey(year, month, d);
    var bookings := CellBookings(entry, source);
    var approvedBookings := ApprovedOf(bookings);
    var bookingCount := |approvedBookings|;
    var totalBookedMinutes := SumMinutes(approvedBookings);
    var percentFull := PercentFull(bookingCount, totalBookedMinutes);
    cell := Day(dateStr, bookingCount, percentFull);
  }

  /** The cells of days 1..n. */
  function DayCellsUpTo(data: seq<AdminCalendar.DayEntry>, year: int, month: int, n: nat, source: Source): (r: seq<Cell>)
    ensures |r| == n
  {
    if n == 0 then [] else DayCellsUpTo(data, year, month, n - 1, source) + [DayCellOf(data, year, month, n, source)]
  }

  lemma {:induction false} DayCellsUpToIndex(data: seq<AdminCalendar.DayEntry>, year: int, month: int, n: nat, source: Source, d: int)
    requires 1 <= d <= n
    ensures DayCellsUpTo(data, year, month, n, source)[d - 1] == DayCellOf(data, year, month, d, source)
  {
    var prefix := DayCellsUpTo(data, year, month, n - 1, source);
    var last := DayCellOf(data, year, month, n, source);
    assert DayCellsUpTo(data, year, month, n, source) == prefix + [last];
    if d < n {
      DayCellsUpToIndex(data, year, month, n - 1, source, d);
      assert (prefix + [last])[d - 1] == prefix[d - 1];
    } else {
      assert (prefix + [last])[d - 1] == last;
    }
  }

  /** The day loop: one cell per day 1..n. */
  method DayCells(m: map<int, AdminCalendar.DayEntry>, ghost data: seq<AdminCalendar.DayEntry>,
                  year: int, month: int, n: nat, source: Source) returns (dayCells: seq<Cell>)
    requires forall k :: LookupDay(m, k) == EntryOn(data, k)
    ensures dayCells == DayCellsUpTo(data, year, month, n, source)
  {
    dayCells := [];
    var d := 1;
    while d <= n
      invariant 1 <= d <= n + 1
      invariant dayCells == DayCellsUpTo(data, year, month, d - 1, source)
    {
      var cell := BuildDayCell(m, data, year, month, d, source);
      dayCells := dayCells + [cell];
      d := d + 1;
    }
  }

  /** CalendarGrid: nothing for an invalid month or year; otherwise the
      blanks up to the weekday of the 1st, then one cell per day. */
  method Grid(data: seq<AdminCalendar.DayEntry>, month: int, year: int, source: Source)
    returns (grid: Option<seq<Cell>>)
    requires year >= 0
    ensures !ValidMonthYear(month, year) ==> grid.None?
    ensures ValidMonthYear(month, year) ==>
              grid.Some?
              && |grid.value| == FirstWeekday(year, month) + MonthLength(year, month)
              && (forall i :: 0 <= i < FirstWeekday(year, month) ==> grid.value[i] == Blank)
              && (forall d :: 1 <= d <= MonthLength(year, month) ==>
                    grid.value[FirstWeekday(year, month) + d - 1] == DayCellOf(data, year, month, d, source))
  {
    if month == 0 || year == 0 || month < 1 || month > 12 {
      return None;
    }
    var firstDay := FirstWeekday(year, month);
    var daysInMonth := MonthLength(year, month);
    var mapByDay := MapByDay(data);
    var dayCells := DayCells(mapByDay, data, year, month, daysInMonth, source);
    var blanks := Blanks(firstDay);
    grid := Some(blanks + dayCells);
    LaidOut(data, year, month, daysInMonth, source, firstDay);
  }

  /** The blanks followed by the day cells put day d at firstDay + d - 1. */
  lemma LaidOut(data: seq<AdminCalendar.DayEntry>, year: int, month: int, n: nat, source: Source, firstDay: nat)
    ensures var g := Blanks(firstDay) + DayCellsUpTo(data, year, month, n, source);
            |g| == firstDay + n
            && (forall i :: 0 <= i < firstDay ==> g[i] == Blank)
            && (forall d :: 1 <= d <= n ==> g[firstDay + d - 1] == DayCellOf(data, year, month, d, source))
  {
    var cells := DayCellsUpTo(data, year, month, n, source);
    var g := Blanks(firstDay) + cells;
    forall d | 1 <= d <= n
      ensures g[firstDay + d - 1] == DayCellOf(data, year, month, d, source)
    {
      AfterBlanks(firstDay, cells, d - 1, firstDay + d - 1);
      DayCellsUpToIndex(data, year, month, n, source, d);
    }
  }

  /** The leading empty cells of the grid. */
  function Blanks(n: nat): (r: seq<Cell>)
    ensures |r| == n && forall i :: 0 <= i < n ==> r[i] == Blank
  {
    seq(n, _ => Blank)
  }

  lemma AfterBlanks(n: nat, cells: seq<Cell>, k: int, j: int)
    requires 0 <= k < |cells| && j == n + k
    ensures (Blanks(n) + cells)[j] == cells[k]
  {
  }

  /** On the admin calendar, whose day entries list their bookings, a
      cell counts what the day entry counts as long as every booking has
      a status: the two pages' approval tests then agree. */
  lemma AdminCellCountsEntry(seminars: seq<Seminar>, hallKey: string, year: int, month: int,
                             data: seq<AdminCalendar.DayEntry>, d: int)
    requires forall s :: s in seminars ==> Truthy(s.status)
    requires EntryOn(data, d).Some?
    requires var e := EntryOn(data, d).value;
             e.bookings == AdminCalendar.Filed(seminars, hallKey, year, month, e.date)
             && e.bookingCount == |e.bookings|
    ensures DayCellOf(data, year, month, d, AdminSource).bookingCount == EntryOn(data, d).value.bookingCount
  {
    var e := EntryOn(data, d).value;
    forall i | 0 <= i < |e.bookings|
      ensures IsApproved(e.bookings[i])
    {
      var b := e.bookings[i];
      assert b in e.bookings;
      assert b in seminars && AdminCalendar.Approved(b);
    }
    ApprovedOfAll(e.bookings);
  }

  lemma {:induction false} ApprovedOfAll(list: seq<Seminar>)
    requires forall i :: 0 <= i < |list| ==> IsApproved(list[i])
    ensures |ApprovedOf(list)| == |list|
  {
    if list != [] {
      ApprovedOfAll(list[..|list| - 1]);
    }
  }

  /** A booking without a status is shown by the admin calendar's day
      entry (which reads a missing status as APPROVED) but not counted by
      the grid (which reads it as not approved). */
  lemma MissingStatusCountedByCalendarOnly()
    ensures var b := Placeholder().(status := None);
            AdminCalendar.Approved(b) && !IsApproved(b)
  {
  }
}
