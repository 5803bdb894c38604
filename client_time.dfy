// The time and date helpers the booking pages of the web client share
// (identical copies in the admin and department add-seminar pages): the
// "HH:MM" option grid, reading and writing "HH:MM", the 12-hour label, the
// interval test and the run of dates of a range. JavaScript numbers are
// modelled as integers; a Date is a calendar date, its time zone left out.

module ClientTime {

  import opened Wrappers
  import opened Text
  import opened Numbers
  import opened Dates
  import Times

  // ---------------------------------------------------------------------
  // "HH:MM" text

  /** A JavaScript number as the pages compute it: an integer, or NaN. */
  datatype JsNum = Num(n: int) | NaN

  /** hhmmToMinutes: null (`None`) for a falsy input; otherwise the parts
      before and after the first colon, each read by parseInt, and null when
      Number.isNaN flags either. A text without a colon has no minute part:
      `mm` is undefined, which Number.isNaN does not flag, so the result is
      hh * 60 + undefined, which is NaN. */
  function HhmmToNumber(hhmm: Option<string>): (r: Option<JsNum>)
    ensures !Truthy(hhmm) ==> r.None?
  {
    if !Truthy(hhmm) then None else PartsToNumber(SplitAll(hhmm.value, ':'))
  }

  /** hhmmToMinutes gives NaN exactly for a truthy text without a colon
      whose leading part parseInt reads. */
  lemma NaNExactlyWithoutColon(hhmm: Option<string>)
    ensures HhmmToNumber(hhmm) == Some(NaN) <==>
              Truthy(hhmm) && !ContainsChar(hhmm.value, ':') && JsParseInt(hhmm.value).Some?
  {
    if Truthy(hhmm) {
      SplitAllSingle(hhmm.value, ':');
    }
  }

  /** `[hh, mm]` of the parts, each read by parseInt(n, 10): the hours
      times 60 plus the minutes. */
  function PartsToNumber(parts: seq<string>): (r: Option<JsNum>)
    requires |parts| >= 1
  {
    var hh := JsParseInt(parts[0]);
    if hh.None? then None
    else if |parts| == 1 then Some(NaN)
    else
      var mm := JsParseInt(parts[1]);
      if mm.None? then None else Some(Num(hh.value * 60 + mm.value))
  }

  /** The minutes hhmmToMinutes reads when they are a number; null and NaN
      both give `None`. */
  function HhmmToMinutes(hhmm: Option<string>): (r: Option<int>)
    ensures !Truthy(hhmm) ==> r.None?
  {
    match HhmmToNumber(hhmm)
    case Some(Num(m)) => Some(m)
    case _ => None
  }

  /** A run of digits without a colon, such as "930", reads as NaN, not as
      null, so the pages cannot tell it from a time by the null test. */
  lemma ColonlessReadsNaN(a: string)
    requires a != [] && AllDigits(a)
    ensures HhmmToNumber(Some(a)) == Some(NaN)
    ensures HhmmToMinutes(Some(a)).None?
  {
    JsParseIntOfDigits(a);
    DigitsHaveNoColon(a);
    NaNExactlyWithoutColon(Some(a));
  }

  /** JavaScript's `%`: the remainder takes the sign of the dividend. */
  function JsRem(a: int, b: int): (r: int)
    requires b > 0
    ensures a >= 0 ==> r == a % b
    ensures a < 0 ==> r == -((-a) % b)
  {
    if a >= 0 then a % b else -((-a) % b)
  }

  /** minutesToHHMM: "" for null; otherwise the floored hours and the
      remainder, each padded to two digits. */
  function MinutesToHHMM(m: Option<int>): (r: string)
    ensures m.None? ==> r == ""
    ensures m.Some? ==> r == Pad2(m.value / 60) + ":" + Pad2(JsRem(m.value, 60))
  {
    if m.None? then "" else Pad2(m.value / 60) + ":" + Pad2(JsRem(m.value, 60))
  }

  /** Digits contain no colon. */
  lemma DigitsHaveNoColon(s: string)
    requires AllDigits(s)
    ensures !ContainsChar(s, ':')
  {
    forall i | 0 <= i < |s| ensures s[i] != ':' {
      assert IsDigit(s[i]);
    }
  }

  /** Two runs of digits joined by a colon split back into the two. */
  lemma SplitDigits(a: string, b: string)
    requires AllDigits(a) && AllDigits(b)
    ensures SplitAll(a + ":" + b, ':') == [a, b]
  {
    DigitsHaveNoColon(a);
    DigitsHaveNoColon(b);
    SplitAllFirst(a, ':', b);
    SplitAllNoSep(b, ':');
    assert a + ":" + b == a + [':'] + b;
  }

  /** "HH:MM" made of two runs of digits reads back as the hours times 60
      plus the minutes. */
  lemma ReadBackDigits(a: string, b: string, h: int, m: int, t: int)
    requires a != [] && b != [] && AllDigits(a) && AllDigits(b)
    requires DigitsValue(a) == h && DigitsValue(b) == m && t == h * 60 + m
    ensures HhmmToMinutes(Some(a + ":" + b)) == Some(t)
  {
    SplitDigits(a, b);
    PartsOfDigits(a, b, h, m, t);
    ReadsAsMinutes(a + ":" + b, a, b, t);
  }

  /** A time whose two parts read as `t` minutes reads as `t`. */
  lemma ReadsAsMinutes(x: string, a: string, b: string, t: int)
    requires x != [] && SplitAll(x, ':') == [a, b] && PartsToNumber([a, b]) == Some(Num(t))
    ensures HhmmToMinutes(Some(x)) == Some(t)
  {
  }

  lemma PartsOfDigits(a: string, b: string, h: int, m: int, t: int)
    requires a != [] && b != [] && AllDigits(a) && AllDigits(b)
    requires DigitsValue(a) == h && DigitsValue(b) == m && t == h * 60 + m
    ensures PartsToNumber([a, b]) == Some(Num(t))
  {
    JsParseIntOfDigits(a);
    JsParseIntOfDigits(b);
    PartsOfParsed(a, b, h, m, t);
  }

  lemma PartsOfParsed(a: string, b: string, h: int, m: int, t: int)
    requires JsParseInt(a) == Some(h) && JsParseInt(b) == Some(m) && t == h * 60 + m
    ensures PartsToNumber([a, b]) == Some(Num(t))
  {
    assert [a, b][0] == a && [a, b][1] == b;
  }

  /** Every hour and minute written as "HH:MM" reads back as h * 60 + m. */
  lemma HourMinuteReadBack(h: nat, m: nat, t: int)
    requires t == h * 60 + m
    ensures HhmmToMinutes(Some(Pad2(h) + ":" + Pad2(m))) == Some(t)
  {
    Pad2Value(h);
    Pad2Value(m);
    ReadBackDigits(Pad2(h), Pad2(m), h, m, t);
  }

  /** minutesToHHMM of a non-negative time writes its hours and minutes. */
  lemma MinutesText(m: nat) returns (h: nat, r: nat)
    ensures MinutesToHHMM(Some(m)) == Pad2(h) + ":" + Pad2(r) && h * 60 + r == m
  {
    h, r := m / 60, m % 60;
  }

  /** Reading back a written time gives the minutes it was written from,
      for every non-negative count of minutes. */
  lemma MinutesRoundTrip(m: nat)
    ensures HhmmToMinutes(Some(MinutesToHHMM(Some(m)))) == Some(m)
  {
    var h, r := MinutesText(m);
    HourMinuteReadBack(h, r, m);
  }

  // ---------------------------------------------------------------------
  // 12-hour labels

  /** Number(s) on an integer literal: surrounding white space ignored, the
      empty string is 0, an optional sign and decimal digits give their
      value; anything else is NaN (`None`). */
  function JsNumber(s: Option<string>): (r: Option<int>)
    ensures s.Some? && AllDigits(s.value) && s.value != [] && JsTrim(s.value) == s.value ==>
              r == Some(DigitsValue(s.value) as int)
  {
    if s.None? then None
    else
      var t := JsTrim(s.value);
      if t == [] then Some(0)
      else
        var neg := t[0] == '-';
        var body := if t[0] == '-' || t[0] == '+' then t[1..] else t;
        if body == [] || !AllDigits(body) then None
        else if neg then Some(-(DigitsValue(body) as int))
        else Some(DigitsValue(body))
  }

  /** String(n) for a number that may be NaN (`None`). */
  function NumberText(n: Option<int>): string {
    if n.None? then "NaN" else IntToString(n.value)
  }

  /** to12Label: "" for a falsy input; otherwise the hour on a 12-hour
      clock and the minutes, padded, then AM or PM (NaN compares false, so
      an unreadable hour is labelled AM). The parts are read by Number();
      a missing minute part stays undefined and prints as "undefined". */
  function To12Label(hhmm: Option<string>): (r: string)
    ensures !Truthy(hhmm) ==> r == ""
  {
    if !Truthy(hhmm) then ""
    else
      var parts := SplitAll(hhmm.value, ':');
      var mm := if |parts| >= 2 then NumberText(JsNumber(Some(parts[1]))) else "undefined";
      LabelText(JsNumber(Some(parts[0])), mm)
  }

  /** The label of an hour as Number() read it and the minutes' text. */
  function LabelText(hh: Option<int>, mm: string): string {
    var period := if hh.Some? && hh.value >= 12 then "PM" else "AM";
    var hour12 := if hh.None? then None else Some(JsRem(hh.value + 11, 12) + 1);
    PadStartZero(NumberText(hour12), 2) + ":" + PadStartZero(mm, 2) + " " + period
  }

  /** The hour on a 12-hour clock: midnight and noon are 12. */
  function Hour12(h: nat): (r: nat)
    ensures 1 <= r <= 12
  {
    if h % 12 == 0 then 12 else h % 12
  }

  /** The label of "HH:MM" made of two runs of digits. */
  lemma LabelOfDigits(a: string, b: string)
    requires a != [] && b != [] && AllDigits(a) && AllDigits(b) && DigitsValue(a) < 24
    ensures To12Label(Some(a + ":" + b)) ==
              Pad2(Hour12(DigitsValue(a))) + ":" + Pad2(DigitsValue(b))
              + " " + (if DigitsValue(a) >= 12 then "PM" else "AM")
  {
    SplitDigits(a, b);
    TrimAllDigits(a);
    TrimAllDigits(b);
    LabelOfNumbers(a + ":" + b, a, b, DigitsValue(a), DigitsValue(b));
    LabelOfHour(DigitsValue(a), DigitsValue(b));
  }

  /** The label of a text that splits into two parts that read as numbers. */
  lemma LabelOfNumbers(s: string, a: string, b: string, hh: int, mm: int)
    requires s != [] && SplitAll(s, ':') == [a, b]
    requires JsNumber(Some(a)) == Some(hh) && JsNumber(Some(b)) == Some(mm)
    ensures To12Label(Some(s)) == LabelText(Some(hh), NumberText(Some(mm)))
  {
  }

  /** The label of an hour of the day and a minute. */
  lemma LabelOfHour(h: nat, m: nat)
    requires h < 24
    ensures LabelText(Some(h), NumberText(Some(m))) ==
              Pad2(Hour12(h)) + ":" + Pad2(m) + " " + (if h >= 12 then "PM" else "AM")
  {
    ClockHour(h);
  }

  /** The label of a time of day written "HH:MM" is the hour on the 12-hour
      clock, the same minutes, and PM exactly from noon on. */
  lemma To12LabelOfTime(h: nat, m: nat)
    requires h < 24 && m < 60
    ensures To12Label(Some(Pad2(h) + ":" + Pad2(m))) ==
              Pad2(Hour12(h)) + ":" + Pad2(m) + " " + (if h >= 12 then "PM" else "AM")
  {
    Pad2Value(h);
    Pad2Value(m);
    LabelOfDigits(Pad2(h), Pad2(m));
  }

  /** `((hh + 11) % 12) + 1` is the 12-hour clock's hour. */
  lemma ClockHour(h: nat)
    requires h < 24
    ensures JsRem(h + 11, 12) + 1 == Hour12(h)
  {
    if h == 0 {
      assert h + 11 == 12 * 0 + 11;
    } else if h <= 12 {
      assert h + 11 == 12 * 1 + (h - 1);
      assert h % 12 == if h == 12 then 0 else h;
    } else {
      assert h + 11 == 12 * 2 + (h - 13);
      assert h == 12 * 1 + (h - 12);
    }
  }

  /** Number() reads back a padded non-negative number. */
  lemma NumberOfPad2(n: nat)
    ensures JsNumber(Some(Pad2(n))) == Some(n)
  {
    Pad2Value(n);
    TrimAllDigits(Pad2(n));
  }

  /** JavaScript's trim leaves a string of digits alone. */
  lemma TrimAllDigits(s: string)
    requires AllDigits(s)
    ensures JsTrim(s) == s
  {
  }

  // ---------------------------------------------------------------------
  // Intervals

  /** intervalsOverlap: false when any bound is null, else the half-open
      test. */
  predicate IntervalsOverlap(aStart: Option<int>, aEnd: Option<int>, bStart: Option<int>, bEnd: Option<int>) {
    aStart.Some? && aEnd.Some? && bStart.Some? && bEnd.Some?
    && aStart.value < bEnd.value && bStart.value < aEnd.value
  }

  /** The client's test is the server's: symmetric, false on a missing
      bound, and on proper intervals true exactly when they share a
      minute. */
  lemma IntervalsOverlapMeaning(aStart: Option<int>, aEnd: Option<int>, bStart: Option<int>, bEnd: Option<int>)
    ensures IntervalsOverlap(aStart, aEnd, bStart, bEnd) == IntervalsOverlap(bStart, bEnd, aStart, aEnd)
    ensures aStart.None? || aEnd.None? || bStart.None? || bEnd.None? ==> !IntervalsOverlap(aStart, aEnd, bStart, bEnd)
    ensures aStart.Some? && aEnd.Some? && bStart.Some? && bEnd.Some?
            && aStart.value < aEnd.value && bStart.value < bEnd.value ==>
              (IntervalsOverlap(aStart, aEnd, bStart, bEnd) <==>
               exists t :: Times.InSpan(t, aStart.value, aEnd.value) && Times.InSpan(t, bStart.value, bEnd.value))
  {
    if aStart.Some? && aEnd.Some? && bStart.Some? && bEnd.Some?
       && aStart.value < aEnd.value && bStart.value < bEnd.value {
      Times.SpansOverlapIffCommonMinute(aStart.value, aEnd.value, bStart.value, bEnd.value);
    }
  }

  // ---------------------------------------------------------------------
  // The 15-minute option grid

  /** The option for hour `h` and minute `m`. */
  function Slot(h: int, m: int): string {
    Pad2(h) + ":" + Pad2(m)
  }

  /** Option i of a grid starting at `startHour`. */
  function GridSlot(startHour: int, i: int): string {
    Slot(startHour + i / 4, 15 * (i % 4))
  }

  /** How many options build15MinOptions(startHour, endHour) produces: four
      per hour from startHour, then endHour:00 alone; none when endHour <
      startHour. */
  function GridLength(startHour: int, endHour: int): (n: nat)
    ensures startHour <= endHour ==> n == (endHour - startHour) * 4 + 1
    ensures startHour > endHour ==> n == 0
  {
    if startHour <= endHour then (endHour - startHour) * 4 + 1 else 0
  }

  /** build15MinOptions: two nested loops pushing "HH:MM" for every quarter
      hour, skipping the quarters after the last full hour. */
  method Build15MinOptions(startHour: int, endHour: int) returns (out: seq<string>)
    ensures |out| == GridLength(startHour, endHour)
    ensures forall i :: 0 <= i < |out| ==> out[i] == GridSlot(startHour, i)
  {
    out := [];
    var h := startHour;
    while h <= endHour
      invariant startHour <= endHour ==> startHour <= h <= endHour + 1
      invariant startHour > endHour ==> h == startHour
      invariant |out| == if startHour > endHour then 0
                         else if h <= endHour then (h - startHour) * 4
                         else (endHour - startHour) * 4 + 1
      invariant forall j :: 0 <= j < |out| ==> out[j] == GridSlot(startHour, j)
      decreases endHour - h
    {
      var m := 0;
      while m < 60
        invariant 0 <= m <= 60 && m % 15 == 0
        invariant |out| == (h - startHour) * 4 + if h == endHour && m > 0 then 1 else m / 15
        invariant forall j :: 0 <= j < |out| ==> out[j] == GridSlot(startHour, j)
      {
        if !(h == endHour && m > 0) {
          GridSnoc(out, startHour, h, m);
          out := out + [Slot(h, m)];
        }
        m := m + 15;
      }
      h := h + 1;
    }
  }

  /** Pushing h:m onto the first (h - startHour) * 4 + m / 15 options gives
      the next prefix of the grid. */
  lemma GridSnoc(out: seq<string>, startHour: int, h: int, m: int)
    requires startHour <= h && 0 <= m < 60 && m % 15 == 0
    requires |out| == (h - startHour) * 4 + m / 15
    requires forall j :: 0 <= j < |out| ==> out[j] == GridSlot(startHour, j)
    ensures forall j :: 0 <= j < |out| + 1 ==> (out + [Slot(h, m)])[j] == GridSlot(startHour, j)
  {
    GridIndex(startHour, h, m);
    assert GridSlot(startHour, |out|) == Slot(h, m);
  }

  /** Option number (h - startHour) * 4 + m / 15 is h:m. */
  lemma GridIndex(startHour: int, h: int, m: int)
    requires startHour <= h && 0 <= m < 60 && m % 15 == 0
    ensures var k := (h - startHour) * 4 + m / 15;
            startHour + k / 4 == h && 15 * (k % 4) == m
  {
    var k := (h - startHour) * 4 + m / 15;
    assert 0 <= m / 15 < 4;
    assert k / 4 == h - startHour && k % 4 == m / 15;
  }

  /** The time of option i of a grid starting at `startHour`, in minutes
      after midnight. */
  function QuarterTime(startHour: int, i: int): int {
    startHour * 60 + 15 * i
  }

  /** Option i of a grid from a non-negative hour reads back as its time:
      the options ascend strictly, a quarter of an hour apart. */
  lemma GridSlotReadsBack(startHour: nat, i: nat)
    ensures HhmmToMinutes(Some(GridSlot(startHour, i))) == Some(QuarterTime(startHour, i))
  {
    var h, m := QuarterParts(startHour, i);
    SlotReadsBack(startHour, i, h, m, QuarterTime(startHour, i));
  }

  lemma SlotReadsBack(startHour: nat, i: nat, h: nat, m: nat, t: int)
    requires h == startHour + i / 4 && m == 15 * (i % 4) && t == h * 60 + m
    ensures HhmmToMinutes(Some(GridSlot(startHour, i))) == Some(t)
  {
    HourMinuteReadBack(h, m, t);
  }

  /** Option i is what minutesToHHMM writes for its time. */
  lemma GridSlotIsMinutesText(startHour: nat, i: nat)
    ensures GridSlot(startHour, i) == MinutesToHHMM(Some(QuarterTime(startHour, i)))
  {
    var h, m := QuarterParts(startHour, i);
    SlotIsMinutesText(h, m, QuarterTime(startHour, i));
  }

  /** The grid runs from startHour:00 to endHour:00. */
  lemma GridEnds(startHour: int, endHour: int)
    requires startHour <= endHour
    ensures GridSlot(startHour, 0) == Slot(startHour, 0)
    ensures GridSlot(startHour, GridLength(startHour, endHour) - 1) == Slot(endHour, 0)
  {
    GridIndex(startHour, endHour, 0);
    GridIndex(startHour, startHour, 0);
  }

  /** Quarter number i after startHour:00 as an hour and a minute. */
  lemma QuarterParts(startHour: nat, i: nat) returns (h: nat, m: nat)
    ensures h == startHour + i / 4 && m == 15 * (i % 4)
    ensures h * 60 + m == startHour * 60 + 15 * i && m < 60
  {
    h, m := startHour + i / 4, 15 * (i % 4);
    assert i == 4 * (i / 4) + i % 4;
  }

  /** minutesToHHMM writes h * 60 + m as h:m when m is below 60. */
  lemma SlotIsMinutesText(h: nat, m: nat, t: int)
    requires t == h * 60 + m && m < 60
    ensures MinutesToHHMM(Some(t)) == Slot(h, m)
  {
    assert t / 60 == h && t % 60 == m;
  }

  /** The admin page's grid, build15MinOptions(8, 18): 41 options from 08:00
      to 18:00. The department form's, build15MinOptions(6, 23): 69 options
      from 06:00 to 23:00, holding the form's defaults 09:00 at index 12 and
      10:00 at index 16. */
  lemma PageGrids()
    ensures GridLength(8, 18) == 41 && GridSlot(8, 40) == Slot(18, 0)
    ensures GridLength(6, 23) == 69 && GridSlot(6, 68) == Slot(23, 0)
    ensures GridSlot(6, 12) == Slot(9, 0) && GridSlot(6, 16) == Slot(10, 0)
  {
    GridEnds(8, 18);
    GridEnds(6, 23);
    GridIndex(6, 9, 0);
    GridIndex(6, 10, 0);
  }

  // ---------------------------------------------------------------------
  // Runs of dates

  /** A run of dates is determined by its first day and its length. */
  lemma DatesFromUnique(d: Date, n: nat, r: seq<Date>)
    requires Valid(d) && |r| == n
    requires forall i :: 0 <= i < n ==> Valid(r[i]) && DayNumber(r[i]) == DayNumber(d) + i
    ensures r == DatesFrom(d, n)
  {
    var q := DatesFrom(d, n);
    forall i | 0 <= i < n ensures r[i] == q[i] {
      DayNumberInjective(r[i], q[i]);
    }
  }

  /** listDatesBetween: every date from `sd` to `ed`, stepping a day at a
      time while the cursor is not after `ed`. */
  method ListDatesBetween(sd: Date, ed: Date) returns (out: seq<Date>)
    requires Valid(sd) && Valid(ed)
    ensures out == DatesBetween(sd, ed)
  {
    out := [];
    var d := sd;
    BeforeIffDayNumber(ed, sd);
    while NotAfter(d, ed)
      invariant Valid(d) && DayNumber(d) == DayNumber(sd) + |out|
      invariant Before(ed, sd) ==> d == sd
      invariant !Before(ed, sd) ==> DayNumber(d) <= DayNumber(ed) + 1
      invariant forall i :: 0 <= i < |out| ==> Valid(out[i]) && DayNumber(out[i]) == DayNumber(sd) + i
      decreases DayNumber(ed) + 1 - DayNumber(d)
    {
      BeforeIffDayNumber(ed, d);
      out := out + [d];
      DayNumberNextDay(d);
      d := NextDay(d);
    }
    BeforeIffDayNumber(ed, d);
    DatesFromUnique(sd, |out|, out);
  }

  /** The keys a run of dates is filed under: each date as "YYYY-MM-DD". */
  function DateKeys(ds: seq<Date>): (r: seq<string>)
    requires forall i :: 0 <= i < |ds| ==> Valid4(ds[i])
    ensures |r| == |ds|
    ensures forall i :: 0 <= i < |ds| ==> IsIsoDate(r[i]) && ParseIsoDate(r[i]) == Some(ds[i])
  {
    var r := seq(|ds|, i requires 0 <= i < |ds| => FormatIsoDate(ds[i]));
    assert forall i :: 0 <= i < |ds| ==> ParseIsoDate(r[i]) == Some(ds[i]) by {
      forall i | 0 <= i < |ds| ensures ParseIsoDate(r[i]) == Some(ds[i]) {
        ParseFormat(ds[i]);
      }
    }
    r
  }

  /** The dates between two four-digit-year dates have four-digit years. */
  lemma DatesBetweenValid4(lo: Date, hi: Date)
    requires Valid4(lo) && Valid4(hi)
    ensures forall i :: 0 <= i < |DatesBetween(lo, hi)| ==> Valid4(DatesBetween(lo, hi)[i])
  {
    DatesBetweenSpec(lo, hi);
    forall i | 0 <= i < |DatesBetween(lo, hi)| ensures Valid4(DatesBetween(lo, hi)[i]) {
      assert DatesBetween(lo, hi)[i] in DatesBetween(lo, hi);
    }
  }

  /** The "YYYY-MM-DD" keys of every date from `lo` to `hi`, ascending. */
  function RangeKeys(lo: Date, hi: Date): (r: seq<string>)
    requires Valid4(lo) && Valid4(hi)
    ensures |r| == |DatesBetween(lo, hi)|
  {
    DatesBetweenValid4(lo, hi);
    DateKeys(DatesBetween(lo, hi))
  }

  /** A range's keys are exactly the ISO texts of the dates it covers. */
  lemma RangeKeysMeaning(lo: Date, hi: Date, k: string)
    requires Valid4(lo) && Valid4(hi)
    ensures k in RangeKeys(lo, hi) <==> IsIsoDate(k) && InRange(ParseIsoDate(k).value, lo, hi)
  {
    var ds := DatesBetween(lo, hi);
    var r := RangeKeys(lo, hi);
    DatesBetweenSpec(lo, hi);
    if k in r {
      var i :| 0 <= i < |r| && r[i] == k;
      assert ds[i] in ds;
    }
    if IsIsoDate(k) && InRange(ParseIsoDate(k).value, lo, hi) {
      var d := ParseIsoDate(k).value;
      assert d in ds;
      var i :| 0 <= i < |ds| && ds[i] == d;
      ParseInjective(r[i], k);
    }
  }

  /** The page's toDateKey on the values the server sends: a truthy
      "YYYY-MM-DD" date is its own key; anything else has none. */
  function DateKey(value: Option<string>): (r: Option<string>)
    ensures r.Some? <==> Truthy(value) && IsIsoDate(value.value)
    ensures r.Some? ==> r == value
  {
    if Truthy(value) && IsIsoDate(value.value) then value else None
  }
}
