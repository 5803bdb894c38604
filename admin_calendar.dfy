// The admin calendar page's month view: the approved bookings of the chosen
// hall are filed under their date, and one entry per day of the month
// reports that day's bookings and whether the day is free.
module AdminCalendar {

  import opened Wrappers
  import opened Text
  import opened Numbers
  import opened Dates
  import opened Seminars

  /** One day of the month view. */
  datatype DayEntry = DayEntry(date: string, bookingCount: nat, bookings: seq<Seminar>, free: bool)

  // ---------------------------------------------------------------------
  // Which bookings a month shows

  /** The status test: a missing or empty status counts as APPROVED. */
  predicate Approved(s: Seminar) {
    Upper(if Truthy(s.status) then s.status.value else "APPROVED") == "APPROVED"
  }

  /** The hall test: an empty key matches every booking; otherwise the
      record's hall name, when set, must equal the key. The records carry
      no nested hall object, hall id, room or venue. */
  predicate HallMatches(s: Seminar, hallKey: string) {
    hallKey == [] || (Truthy(s.hallName) && s.hallName.value == hallKey)
  }

  /** `s.date ?? s.startDate ?? s.appliedAt`: the first that is present,
      even when it is empty. */
  function RawDate(s: Seminar): (r: Option<string>)
    ensures r.None? <==> s.date.None? && s.startDate.None? && s.appliedAt.None?
  {
    if s.date.Some? then s.date else if s.startDate.Some? then s.startDate else s.appliedAt
  }

  /** `String(rawDate).split("T")[0]` */
  function IsoPart(raw: string): string {
    SplitAll(raw, 'T')[0]
  }

  /** The calendar date a record's date text denotes, when it is one. */
  function KeyDate(s: Seminar): Option<Date> {
    var raw := RawDate(s);
    if raw.None? || raw.value == [] then None else ParseIsoDate(IsoPart(raw.value))
  }

  /** The page's filter: approved, of the hall, and dated in the month. */
  predicate InMonth(s: Seminar, hallKey: string, year: int, month: int) {
    Approved(s) && HallMatches(s, hallKey)
    && KeyDate(s).Some? && KeyDate(s).value.year == year && KeyDate(s).value.month == month
  }

  /** The record is filed under the date text `k`. */
  predicate FiledAt(s: Seminar, hallKey: string, year: int, month: int, k: string) {
    InMonth(s, hallKey, year, month) && IsoPart(RawDate(s).value) == k
  }

  /** The bookings filed under `k`, in the order the list holds them. */
  function Filed(list: seq<Seminar>, hallKey: string, year: int, month: int, k: string): (r: seq<Seminar>)
    ensures forall s :: s in r <==> s in list && FiledAt(s, hallKey, year, month, k)
    ensures |r| <= |list|
  {
    if list == [] then []
    else
      var last := list[|list| - 1];
      assert list == list[..|list| - 1] + [last];
      Filed(list[..|list| - 1], hallKey, year, month, k) + (if FiledAt(last, hallKey, year, month, k) then [last] else [])
  }

  /** The bookings the month shows, in list order. */
  function Shown(list: seq<Seminar>, hallKey: string, year: int, month: int): (r: seq<Seminar>)
    ensures forall s :: s in r <==> s in list && InMonth(s, hallKey, year, month)
  {
    if list == [] then []
    else
      var last := list[|list| - 1];
      assert list == list[..|list| - 1] + [last];
      Shown(list[..|list| - 1], hallKey, year, month) + (if InMonth(last, hallKey, year, month) then [last] else [])
  }

  // ---------------------------------------------------------------------
  // Day keys

  /** `${yearParam}-${pad2(monthParam)}-${pad2(d)}` */
  function DayKey(year: int, month: int, d: int): string {
    IntToString(year) + "-" + Pad2(month) + "-" + Pad2(d)
  }

  /** A four-digit year is written as its four digits. */
  lemma FourDigits(y: int)
    requires 1000 <= y <= 9999
    ensures IntToString(y) == TwoDigits(y / 100) + TwoDigits(y % 100)
  {
    var a, b, c, e := y / 1000, y / 100 % 10, y / 10 % 10, y % 10;
    assert y / 10 / 10 == y / 100 && y / 100 / 10 == a;
    assert NatToString(y / 100) == [DigitChar(a), DigitChar(b)] by {
      assert NatToString(y / 1000) == [DigitChar(a)];
    }
    assert NatToString(y / 10) == [DigitChar(a), DigitChar(b), DigitChar(c)];
    assert NatToString(y) == [DigitChar(a), DigitChar(b), DigitChar(c), DigitChar(e)];
    assert y % 100 / 10 == c && y % 100 % 10 == e;
  }

  /** The page's day key is the ISO text of that day. */
  lemma DayKeyIsIso(year: int, month: int, d: int)
    requires 1000 <= year <= 9999 && 1 <= month <= 12 && 1 <= d <= DaysInMonth(year, month)
    ensures DayKey(year, month, d) == FormatIsoDate(Date(year, month, d))
    ensures ParseIsoDate(DayKey(year, month, d)) == Some(Date(year, month, d))
  {
    FourDigits(year);
    Pad2Short(month);
    Pad2Short(d);
    ParseFormat(Date(year, month, d));
  }

  /** A shown booking is filed under the key of exactly one day: the day of
      its date. */
  lemma FiledAtDay(s: Seminar, hallKey: string, year: int, month: int, d: int)
    requires 1000 <= year <= 9999 && 1 <= month <= 12 && 1 <= d <= DaysInMonth(year, month)
    ensures FiledAt(s, hallKey, year, month, DayKey(year, month, d))
        <==> InMonth(s, hallKey, year, month) && KeyDate(s).value.day == d
  {
    DayKeyIsIso(year, month, d);
    if InMonth(s, hallKey, year, month) {
      var iso := IsoPart(RawDate(s).value);
      if iso == DayKey(year, month, d) {
        assert KeyDate(s) == Some(Date(year, month, d));
      } else if KeyDate(s).value.day == d {
        assert ParseIsoDate(iso) == ParseIsoDate(DayKey(year, month, d));
        ParseInjective(iso, DayKey(year, month, d));
      }
    }
  }

  /** The bookings of a day are the shown bookings dated that day. */
  lemma FiledMeaning(list: seq<Seminar>, hallKey: string, year: int, month: int, d: int)
    requires 1000 <= year <= 9999 && 1 <= month <= 12 && 1 <= d <= DaysInMonth(year, month)
    ensures forall s :: s in Filed(list, hallKey, year, month, DayKey(year, month, d))
                    <==> s in list && InMonth(s, hallKey, year, month) && KeyDate(s).value.day == d
  {
    forall s | s in list
      ensures FiledAt(s, hallKey, year, month, DayKey(year, month, d))
          <==> InMonth(s, hallKey, year, month) && KeyDate(s).value.day == d
    {
      FiledAtDay(s, hallKey, year, month, d);
    }
  }

  /** The month's entries are dated in ascending order. */
  lemma DayKeysAscend(year: int, month: int, d1: int, d2: int)
    requires 1000 <= year <= 9999 && 1 <= month <= 12
    requires 1 <= d1 < d2 <= DaysInMonth(year, month)
    ensures StrLess(DayKey(year, month, d1), DayKey(year, month, d2))
  {
    DayKeyIsIso(year, month, d1);
    DayKeyIsIso(year, month, d2);
    IsoStringOrder(DayKey(year, month, d1), DayKey(year, month, d2));
  }

  // ---------------------------------------------------------------------
  // Each shown booking is counted once

  /** The bookings filed under days 1..n, added up. */
  function TotalFiled(list: seq<Seminar>, hallKey: string, year: int, month: int, n: nat): nat {
    if n == 0 then 0
    else TotalFiled(list, hallKey, year, month, n - 1) + |Filed(list, hallKey, year, month, DayKey(year, month, n))|
  }

  /** The number of days among 1..n under whose key one record is filed. */
  function Hits(s: Seminar, hallKey: string, year: int, month: int, n: nat): nat {
    if n == 0 then 0
    else Hits(s, hallKey, year, month, n - 1) + (if FiledAt(s, hallKey, year, month, DayKey(year, month, n)) then 1 else 0)
  }

  lemma {:induction false} HitsOnce(s: Seminar, hallKey: string, year: int, month: int, n: nat)
    requires 1000 <= year <= 9999 && 1 <= month <= 12 && n <= DaysInMonth(year, month)
    ensures Hits(s, hallKey, year, month, n)
         == if InMonth(s, hallKey, year, month) && KeyDate(s).value.day <= n then 1 else 0
  {
    if n > 0 {
      HitsOnce(s, hallKey, year, month, n - 1);
      FiledAtDay(s, hallKey, year, month, n);
    }
  }

  lemma {:induction false} TotalSnoc(p: seq<Seminar>, s: Seminar, hallKey: string, year: int, month: int, n: nat)
    ensures TotalFiled(p + [s], hallKey, year, month, n)
         == TotalFiled(p, hallKey, year, month, n) + Hits(s, hallKey, year, month, n)
  {
    if n > 0 {
      TotalSnoc(p, s, hallKey, year, month, n - 1);
      assert (p + [s])[..|p + [s]| - 1] == p;
    }
  }

  /** Adding up the day counts gives the number of bookings the month
      shows: no booking is lost and none is counted on two days. */
  lemma {:induction false} EachShownCountedOnce(list: seq<Seminar>, hallKey: string, year: int, month: int)
    requires 1000 <= year <= 9999 && 1 <= month <= 12
    ensures TotalFiled(list, hallKey, year, month, DaysInMonth(year, month)) == |Shown(list, hallKey, year, month)|
  {
    var n := DaysInMonth(year, month);
    if list == [] {
      TotalEmpty(hallKey, year, month, n);
    } else {
      var p, s := list[..|list| - 1], list[|list| - 1];
      assert list == p + [s];
      EachShownCountedOnce(p, hallKey, year, month);
      TotalSnoc(p, s, hallKey, year, month, n);
      HitsOnce(s, hallKey, year, month, n);
      if InMonth(s, hallKey, year, month) {
        assert Valid(KeyDate(s).value);
      }
    }
  }

  /** No bookings file nothing on any of the first n days: the base case
      of EachShownCountedOnce, by induction on the day count. */
  lemma {:induction false} TotalEmpty(hallKey: string, year: int, month: int, n: nat)
    ensures TotalFiled([], hallKey, year, month, n) == 0
  {
    if n > 0 {
      TotalEmpty(hallKey, year, month, n - 1);
    }
  }

  // ---------------------------------------------------------------------
  // buildCalendarFromSeminars

  function Lookup(m: map<string, seq<Seminar>>, k: string): seq<Seminar> {
    if k in m then m[k] else []
  }

  /** The forEach that files each shown booking under its date text. */
  method FileBookings(seminars: seq<Seminar>, hallKey: string, year: int, month: int)
    returns (m: map<string, seq<Seminar>>)
    ensures forall k :: Lookup(m, k) == Filed(seminars, hallKey, year, month, k)
  {
    m := map[];
    var i := 0;
    while i < |seminars|
      invariant 0 <= i <= |seminars|
      invariant forall k :: Lookup(m, k) == Filed(seminars[..i], hallKey, year, month, k)
    {
      m := FileOne(m, seminars, i, hallKey, year, month);
      i := i + 1;
    }
    assert seminars[..i] == seminars;
  }

  /** One step of the forEach. */
  method FileOne(m0: map<string, seq<Seminar>>, seminars: seq<Seminar>, i: int, hallKey: string, year: int, month: int)
    returns (m: map<string, seq<Seminar>>)
    requires 0 <= i < |seminars|
    requires forall k :: Lookup(m0, k) == Filed(seminars[..i], hallKey, year, month, k)
    ensures forall k :: Lookup(m, k) == Filed(seminars[..i + 1], hallKey, year, month, k)
  {
    var s := seminars[i];
    assert seminars[..i + 1][..i] == seminars[..i];
    m := m0;
    if Approved(s) && InMonth(s, hallKey, year, month) {
      var iso := IsoPart(RawDate(s).value);
      var arr := Lookup(m, iso);
      m := m[iso := arr + [s]];
    }
  }

  /** buildCalendarFromSeminars for a month of a four-digit year: one entry
      per day, dated in order, holding the bookings filed under that day. */
  method BuildCalendar(seminars: seq<Seminar>, hallKey: string, year: int, month: int)
    returns (result: seq<DayEntry>)
    requires 1000 <= year <= 9999 && 1 <= month <= 12
    ensures |result| == DaysInMonth(year, month)
    ensures forall i :: 0 <= i < |result| ==>
              result[i].date == DayKey(year, month, i + 1)
              && result[i].bookings == Filed(seminars, hallKey, year, month, result[i].date)
              && result[i].bookingCount == |result[i].bookings|
              && (result[i].free <==> result[i].bookingCount == 0)
  {
    var m := FileBookings(seminars, hallKey, year, month);
    var daysInMonth := DaysInMonth(year, month);
    result := [];
    var d := 1;
    while d <= daysInMonth
      invariant 1 <= d <= daysInMonth + 1
      invariant |result| == d - 1
      invariant forall i :: 0 <= i < |result| ==>
                  result[i].date == DayKey(year, month, i + 1)
                  && result[i].bookings == Filed(seminars, hallKey, year, month, result[i].date)
                  && result[i].bookingCount == |result[i].bookings|
                  && (result[i].free <==> result[i].bookingCount == 0)
    {
      var isoDate := DayKey(year, month, d);
      var bookings := Lookup(m, isoDate);
      result := result + [DayEntry(isoDate, |bookings|, bookings, |bookings| == 0)];
      d := d + 1;
    }
  }

  /** The day counts of a built calendar add up to the number of bookings
      the month shows. */
  function SumCounts(days: seq<DayEntry>): nat {
    if days == [] then 0 else SumCounts(days[..|days| - 1]) + days[|days| - 1].bookingCount
  }

  lemma {:induction false} SumCountsIsTotal(days: seq<DayEntry>, seminars: seq<Seminar>, hallKey: string, year: int, month: int)
    requires forall i :: 0 <= i < |days| ==>
               days[i].date == DayKey(year, month, i + 1)
               && days[i].bookingCount == |Filed(seminars, hallKey, year, month, days[i].date)|
    ensures SumCounts(days) == TotalFiled(seminars, hallKey, year, month, |days|)
  {
    if days != [] {
      SumCountsIsTotal(days[..|days| - 1], seminars, hallKey, year, month);
    }
  }

  /** A built calendar shows every booking of the month exactly once. */
  lemma CalendarCountsEachOnce(days: seq<DayEntry>, seminars: seq<Seminar>, hallKey: string, year: int, month: int)
    requires 1000 <= year <= 9999 && 1 <= month <= 12
    requires |days| == DaysInMonth(year, month)
    requires forall i :: 0 <= i < |days| ==>
               days[i].date == DayKey(year, month, i + 1)
               && days[i].bookingCount == |Filed(seminars, hallKey, year, month, days[i].date)|
    ensures SumCounts(days) == |Shown(seminars, hallKey, year, month)|
  {
    SumCountsIsTotal(days, seminars, hallKey, year, month);
    EachShownCountedOnce(seminars, hallKey, year, month);
  }
}
