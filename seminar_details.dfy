// The admin hall-details page: a grid of the 24 hours of one day, the
// hours that approved bookings of the chosen hall take on that day, and a
// contiguous selection of free hours that the admin builds by clicking and
// hands back to the booking form.
module SeminarDetails {

  import opened Wrappers
  import opened Text
  import opened Numbers
  import opened Seminars

  // ---------------------------------------------------------------------
  // Hour labels and the clock parser

  /** An hour cell of HOURS. */
  datatype HourCell = HourCell(text: string, index: int)

  /** `${String(h).padStart(2, "0")}:00` */
  function HourLabel(h: int): string {
    Pad2(h) + ":00"
  }

  /** HOURS: the 24 hour cells of a day, in order. */
  function Hours(): (r: seq<HourCell>)
    ensures |r| == 24
    ensures forall i :: 0 <= i < 24 ==> r[i].index == i
  {
    seq(24, i requires 0 <= i < 24 => HourCell(HourLabel(i), i))
  }

  /** A time read by `/^(\d{1,2}):(\d{2})/`. */
  datatype Clock = Clock(h: nat, m: nat)

  /** The page's `parse`: the text trimmed, then read by ReadClock. */
  function ParseClock(t: string): (r: Option<Clock>)
    ensures r.Some? ==> r.value.h < 100 && r.value.m < 100
  {
    ReadClock(JsTrim(t))
  }

  /** One or two digits, a colon and two digits at the start of `s`, both
      read as decimal numbers; anything may follow. */
  function ReadClock(s: string): (r: Option<Clock>)
    ensures r.Some? ==> r.value.h < 100 && r.value.m < 100
  {
    if |s| >= 4 && IsDigit(s[0]) && s[1] == ':' && IsDigit(s[2]) && IsDigit(s[3]) then
      Some(Clock(DigitValue(s[0]), DigitValue(s[2]) * 10 + DigitValue(s[3])))
    else if |s| >= 5 && IsDigit(s[0]) && IsDigit(s[1]) && s[2] == ':' && IsDigit(s[3]) && IsDigit(s[4]) then
      Some(Clock(DigitValue(s[0]) * 10 + DigitValue(s[1]), DigitValue(s[3]) * 10 + DigitValue(s[4])))
    else None
  }

  /** Two pairs of digits around a colon are read as hours and minutes. */
  lemma ReadPairs(x: string, y: string, h: nat, m: nat)
    requires |x| == 2 && |y| == 2 && AllDigits(x) && AllDigits(y)
    requires h == DigitValue(x[0]) * 10 + DigitValue(x[1]) && m == DigitValue(y[0]) * 10 + DigitValue(y[1])
    ensures ParseClock(x + ":" + y) == Some(Clock(h, m))
  {
    var s := x + ":" + y;
    assert |s| == 5 && s[0] == x[0] && s[1] == x[1] && s[2] == ':' && s[3] == y[0] && s[4] == y[1];
    assert IsDigit(s[1]);
    JsTrimKeepsEnds(s);
  }

  /** The parser reads back every hour label the page writes. */
  lemma LabelReadBack(h: nat)
    requires h < 100
    ensures ParseClock(HourLabel(h)) == Some(Clock(h, 0))
  {
    Pad2Short(h);
    var x := [DigitChar(h / 10), DigitChar(h % 10)];
    assert HourLabel(h) == x + ":" + "00";
    assert DigitValue(x[0]) == h / 10 && DigitValue(x[1]) == h % 10;
    ReadPairs(x, "00", h, 0);
  }

  /** Every cell of HOURS reads back as its own hour, on the hour. */
  lemma HoursReadBack(i: int)
    requires 0 <= i < 24
    ensures ParseClock(Hours()[i].text) == Some(Clock(i, 0))
  {
    assert Hours()[i].text == HourLabel(i);
    LabelReadBack(i);
  }

  // ---------------------------------------------------------------------
  // Booked hours

  /** normalizeDateOnly on a stored date: "" for a missing or empty one,
      otherwise the part before the first 'T'. */
  function DateOnly(d: Option<string>): string {
    if !Truthy(d) then "" else SplitAll(d.value, 'T')[0]
  }

  /** The hall test: the selected hall, trimmed, is not empty and equals
      the record's trimmed hall name. The records carry no hall id and no
      nested hall object, so the other comparisons never hold. */
  predicate HallIs(s: Seminar, selectedHall: string) {
    var sel := JsTrim(selectedHall);
    sel != [] && JsTrim(if Truthy(s.hallName) then s.hallName.value else "") == sel
  }

  /** The day filter: status APPROVED (ignoring case), the record's date
      part is the selected day, and the hall matches. */
  predicate DayBooking(s: Seminar, selectedHall: string, day: string) {
    Upper(if Truthy(s.status) then s.status.value else "") == "APPROVED"
    && DateOnly(s.date) == day && HallIs(s, selectedHall)
  }

  /** The first hour after a booking: the end hour, or the next one when
      the end has minutes, at most 24. */
  function EndIndex(c: Clock): (e: int)
    ensures c.m == 0 ==> e == c.h
    ensures c.m > 0 ==> e == if c.h + 1 < 24 then c.h + 1 else 24
  {
    if c.m > 0 then (if c.h + 1 < 24 then c.h + 1 else 24) else c.h
  }

  /** The hours [start hour, EndIndex) of a booking with both times set and
      readable; the start minutes are ignored. */
  function Span(s: Seminar): Option<(nat, int)> {
    if !Truthy(s.startTime) || !Truthy(s.endTime) then None
    else
      var st := ParseClock(s.startTime.value);
      var et := ParseClock(s.endTime.value);
      if st.None? || et.None? then None else Some((st.value.h, EndIndex(et.value)))
  }

  /** A booking takes hour `h` of the grid. */
  predicate Covers(s: Seminar, h: int) {
    Span(s).Some? && Span(s).value.0 <= h < Span(s).value.1 && 0 <= h <= 23
  }

  /** The grid hours one booking takes. */
  function SpanHours(s: Seminar): (r: set<int>)
    ensures forall h :: h in r <==> 0 <= h < 24 && Covers(s, h)
  {
    if Span(s).None? then {}
    else Interval(Span(s).value.0, if Span(s).value.1 < 24 then Span(s).value.1 else 24)
  }

  /** The grid hours a list of bookings takes. */
  function CoverOf(list: seq<Seminar>): (r: set<int>)
    ensures forall h :: h in r ==> 0 <= h < 24
    ensures forall h :: h in r <==> 0 <= h < 24 && exists s :: s in list && Covers(s, h)
  {
    if list == [] then {}
    else
      var last := list[|list| - 1];
      assert list == list[..|list| - 1] + [last];
      CoverOf(list[..|list| - 1]) + SpanHours(last)
  }

  /** The booked hours of the grid for a hall and a day: the hours that an
      approved booking of that hall on that day takes. */
  function BookedHours(seminars: seq<Seminar>, selectedHall: string, day: string): (r: set<int>)
    ensures forall h :: h in r ==> 0 <= h < 24
    ensures forall h :: h in r <==> 0 <= h < 24 && exists s :: s in seminars && DayBooking(s, selectedHall, day) && Covers(s, h)
  {
    CoverOf(DayBookings(seminars, selectedHall, day))
  }

  /** The approved bookings of the hall on the day, in stored order. */
  function DayBookings(seminars: seq<Seminar>, selectedHall: string, day: string): (r: seq<Seminar>)
    ensures forall s :: s in r <==> s in seminars && DayBooking(s, selectedHall, day)
  {
    Filter(seminars, s => DayBooking(s, selectedHall, day))
  }

  /** The hours one approved booking of the day adds to the set. */
  method CoveredHours(s: Seminar) returns (hours: set<int>)
    ensures hours == SpanHours(s)
  {
    hours := {};
    if !Truthy(s.startTime) || !Truthy(s.endTime) {
      return;
    }
    var st := ParseClock(s.startTime.value);
    var et := ParseClock(s.endTime.value);
    if st.None? || et.None? {
      return;
    }
    var startIdx := st.value.h;
    var endIdx := et.value.h;
    if et.value.m > 0 {
      endIdx := if 24 < endIdx + 1 then 24 else endIdx + 1;
    }
    assert Span(s) == Some((startIdx, endIdx));
    var hr := startIdx;
    while hr < endIdx
      invariant startIdx <= hr
      invariant forall h :: h in hours <==> startIdx <= h < hr && h < endIdx && h <= 23
    {
      if 0 <= hr <= 23 {
        hours := hours + {hr};
      }
      hr := hr + 1;
    }
  }

  /** The forEach over the day's bookings, adding each one's hours. */
  method HoursOfAll(daySeminars: seq<Seminar>) returns (bh: set<int>)
    ensures bh == CoverOf(daySeminars)
  {
    bh := {};
    var i := 0;
    while i < |daySeminars|
      invariant 0 <= i <= |daySeminars|
      invariant bh == CoverOf(daySeminars[..i])
    {
      var more := CoveredHours(daySeminars[i]);
      assert daySeminars[..i + 1][..i] == daySeminars[..i];
      bh := bh + more;
      i := i + 1;
    }
    assert daySeminars[..i] == daySeminars;
  }

  // ---------------------------------------------------------------------
  // The selection

  /** A selected range of hours, [start, end). */
  datatype Range = Range(start: int, end: int)

  predicate Free(booked: set<int>, a: int, b: int) {
    forall h :: a <= h < b ==> h !in booked
  }

  /** A selection the grid can show: within the day, not empty, and free. */
  predicate GoodSelection(sel: Option<Range>, booked: set<int>) {
    sel.Some? ==> 0 <= sel.value.start < sel.value.end <= 24 && Free(booked, sel.value.start, sel.value.end)
  }

  /** The range grown to reach hour `idx`: [min(start, idx), max(end - 1, idx) + 1). */
  function Extend(r: Range, idx: int): (e: Range)
    ensures e.start <= r.start && r.end <= e.end
    ensures e.start <= idx < e.end
    ensures e.start == r.start || e.start == idx
    ensures e.end == r.end || e.end == idx + 1
  {
    Range(if idx < r.start then idx else r.start, (if idx > r.end - 1 then idx else r.end - 1) + 1)
  }

  /** The grown range is the smallest range holding both the old range and
      the clicked hour. */
  lemma ExtendIsSmallest(r: Range, idx: int, c: Range)
    requires c.start <= r.start && r.end <= c.end && c.start <= idx < c.end
    ensures c.start <= Extend(r, idx).start && Extend(r, idx).end <= c.end
  {
  }

  /** What a click on hour `idx` leaves selected. */
  function Clicked(sel: Option<Range>, booked: set<int>, idx: int): Option<Range>
  {
    if idx in booked then sel
    else if sel.None? then Some(Range(idx, idx + 1))
    else if sel.value.start <= idx < sel.value.end then None
    else if Free(booked, Extend(sel.value, idx).start, Extend(sel.value, idx).end) then
      Some(Extend(sel.value, idx))
    else sel
  }

  /** Clicks keep the selection one the grid can show: no booked hour ever
      enters it. */
  lemma ClickKeepsGood(sel: Option<Range>, booked: set<int>, idx: int)
    requires GoodSelection(sel, booked) && 0 <= idx < 24
    ensures GoodSelection(Clicked(sel, booked, idx), booked)
  {
    if idx !in booked && sel.Some? && !(sel.value.start <= idx < sel.value.end) {
      var e := Extend(sel.value, idx);
      assert 0 <= e.start && e.end <= 24;
    }
  }

  /** A click on a free hour next to, or away from, the selection either
      grows it to cover that hour or, when a booked hour lies in between,
      leaves it as it was. */
  lemma ClickOutsideGrowsOrStays(sel: Range, booked: set<int>, idx: int)
    requires GoodSelection(Some(sel), booked) && 0 <= idx < 24
    requires idx !in booked && !(sel.start <= idx < sel.end)
    ensures var r := Clicked(Some(sel), booked, idx);
            r == Some(sel) || (r.Some? && r.value.start <= sel.start && sel.end <= r.value.end
                               && r.value.start <= idx < r.value.end)
    ensures Clicked(Some(sel), booked, idx) == Some(sel) <==> !Free(booked, Extend(sel, idx).start, Extend(sel, idx).end)
  {
    var e := Extend(sel, idx);
    assert e != sel by {
      assert e.start <= idx < e.end;
    }
  }

  /** The hour cells the grid highlights: those inside the selection. */
  function Highlighted(sel: Option<Range>): set<int> {
    if sel.None? then {} else Interval(sel.value.start, sel.value.end) * Interval(0, 24)
  }

  /** Math.max(0, x) */
  function NonNegative(x: int): (r: nat)
    ensures x >= 0 ==> r == x
  {
    if x > 0 then x else 0
  }

  lemma HighlightedCount(r: Range)
    requires 0 <= r.start < r.end <= 24
    ensures |Highlighted(Some(r))| == r.end - r.start
  {
    assert Interval(r.start, r.end) * Interval(0, 24) == Interval(r.start, r.end);
  }

  /** The state of the hour grid: the booked hours and the selection. */
  class HourGrid {
    var booked: set<int>
    var selection: Option<Range>

    ghost predicate Valid()
      reads this
    {
      (forall h :: h in booked ==> 0 <= h < 24) && GoodSelection(selection, booked)
    }

    constructor ()
      ensures Valid() && booked == {} && selection.None?
    {
      booked := {};
      selection := None;
    }

    /** The booked-hours effect: recomputed for a hall and a day, and the
        selection cleared. With no hall chosen nothing is booked. */
    method Recompute(seminars: seq<Seminar>, selectedHall: string, day: string)
      modifies this
      ensures Valid()
      ensures booked == BookedHours(seminars, selectedHall, day) && selection.None?
    {
      selection := None;
      if selectedHall == "" {
        booked := {};
        assert JsTrim(selectedHall) == [];
        assert BookedHours(seminars, selectedHall, day) == {};
        return;
      }
      var bh := HoursOfAll(DayBookings(seminars, selectedHall, day));
      booked := bh;
    }

    /** hourClicked: the selection after a click on hour `idx`. */
    method HourClicked(idx: int)
      requires Valid() && 0 <= idx < 24
      modifies this
      ensures Valid() && booked == old(booked)
      ensures selection == Clicked(old(selection), booked, idx)
    {
      ClickKeepsGood(selection, booked, idx);
      if idx in booked {
        return;
      }
      if selection.None? {
        selection := Some(Range(idx, idx + 1));
        return;
      }
      var s := selection.value.start;
      var e := selection.value.end;
      if s <= idx < e {
        selection := None;
        return;
      }
      var newStart := if s < idx then s else idx;
      var newEndExclusive := (if e - 1 > idx then e - 1 else idx) + 1;
      var taken := AnyBooked(newStart, newEndExclusive);
      if taken {
        return;
      }
      selection := Some(Range(newStart, newEndExclusive));
    }

    /** The scan of [a, b) for a booked hour. */
    method AnyBooked(a: int, b: int) returns (taken: bool)
      ensures taken <==> !Free(booked, a, b)
    {
      var hr := a;
      while hr < b
        invariant a <= hr || b <= a
        invariant Free(booked, a, hr)
      {
        if hr in booked {
          return true;
        }
        hr := hr + 1;
      }
      return false;
    }

    /** selectedHoursCount: max(0, end - start), or 0 with no selection;
        the number of highlighted hour cells. */
    function Count(): (n: int)
      reads this
      requires Valid()
      ensures n == |Highlighted(selection)|
    {
      match selection
      case None => 0
      case Some(r) =>
        HighlightedCount(r);
        NonNegative(r.end - r.start)
    }

    /** selectedStartTime and selectedEndTime: `HH:00`, or "" with no
        selection. */
    function Times(): (t: (string, string))
      reads this
      requires Valid()
      ensures selection.None? ==> t == ("", "")
      ensures selection.Some? ==> (ParseClock(t.0) == Some(Clock(selection.value.start, 0))
                                   && ParseClock(t.1) == Some(Clock(selection.value.end, 0)))
      ensures selection.Some? ==> t == (HourLabel(selection.value.start), HourLabel(selection.value.end))
    {
      if selection.None? then ("", "")
      else
        LabelReadBack(selection.value.start);
        LabelReadBack(selection.value.end);
        (HourLabel(selection.value.start), HourLabel(selection.value.end))
    }

    /** selectAndReturn: a hall and at least one hour are needed; then the
        hall, the times and the day go back to the booking form. */
    function SelectAndReturn(selectedHall: string, day: string): (r: Result<Handoff, Refusal>)
      reads this
      requires Valid()
      ensures r == Err(NoHall) <==> selectedHall == ""
      ensures r == Err(NoHours) <==> selectedHall != "" && selection.None?
      ensures r.Ok? ==> selection.Some? && r.value.hall == selectedHall && r.value.date == day
                        && ParseClock(r.value.startTime) == Some(Clock(selection.value.start, 0))
                        && ParseClock(r.value.endTime) == Some(Clock(selection.value.end, 0))
                        && selection.value.end - selection.value.start == Count() > 0
    {
      if selectedHall == "" then Err(NoHall)
      else if Count() == 0 then Err(NoHours)
      else
        var t := Times();
        Ok(Handoff(selectedHall, t.0, t.1, day))
    }
  }

  /** What selectAndReturn hands back. */
  datatype Handoff = Handoff(hall: string, startTime: string, endTime: string, date: string)

  datatype Refusal = NoHall | NoHours
}
