// Calendar dates as java.time.LocalDate handles them (proleptic Gregorian
// calendar) and their ISO_LOCAL_DATE text "YYYY-MM-DD", the extended
// calendar-date format of section 4.1.2.2 of ISO 8601:2004.
module Dates {

  import opened Wrappers
  import opened Text
  import opened Numbers

  datatype Date = Date(year: int, month: int, day: int)

  predicate IsLeap(y: int) {
    y % 4 == 0 && (y % 100 != 0 || y % 400 == 0)
  }

  function YearLength(y: int): (r: nat)
    ensures r == 365 || r == 366
  {
    if IsLeap(y) then 366 else 365
  }

  /** LocalDate.lengthOfMonth */
  function DaysInMonth(y: int, m: int): (r: int)
    requires 1 <= m <= 12
    ensures 28 <= r <= 31
    ensures r == 29 <==> m == 2 && IsLeap(y)
  {
    if m == 2 then (if IsLeap(y) then 29 else 28)
    else if m == 4 || m == 6 || m == 9 || m == 11 then 30
    else 31
  }

  /** A calendar date of the common era (year 0 onwards). */
  predicate Valid(d: Date) {
    d.year >= 0 && 1 <= d.month <= 12 && 1 <= d.day <= DaysInMonth(d.year, d.month)
  }

  /** A valid date whose year has four digits, the dates this model reads
      and writes as text. */
  predicate Valid4(d: Date) {
    Valid(d) && d.year <= 9999
  }

  /** LocalDate.isBefore */
  predicate Before(a: Date, b: Date) {
    a.year < b.year
    || (a.year == b.year && (a.month < b.month || (a.month == b.month && a.day < b.day)))
  }

  /** `!a.isAfter(b)` */
  predicate NotAfter(a: Date, b: Date) {
    !Before(b, a)
  }

  /** `!d.isBefore(lo) && !d.isAfter(hi)` */
  predicate InRange(d: Date, lo: Date, hi: Date) {
    NotAfter(lo, d) && NotAfter(d, hi)
  }

  /** LocalDate.plusDays(1) */
  function NextDay(d: Date): (r: Date)
    requires Valid(d)
    ensures Valid(r) && Before(d, r)
  {
    if d.day < DaysInMonth(d.year, d.month) then Date(d.year, d.month, d.day + 1)
    else if d.month < 12 then Date(d.year, d.month + 1, 1)
    else Date(d.year + 1, 1, 1)
  }

  // ---------------------------------------------------------------------
  // Day numbers: the count of days since 0000-01-01, which is what
  // ChronoUnit.DAYS.between measures differences of.

  function DaysBeforeYear(y: nat): nat {
    if y == 0 then 0 else DaysBeforeYear(y - 1) + YearLength(y - 1)
  }

  function DaysBeforeMonth(y: int, m: int): (r: nat)
    requires 1 <= m <= 12
  {
    (if m == 1 then 0 else if m == 2 then 31 else if m == 3 then 59
     else if m == 4 then 90 else if m == 5 then 120 else if m == 6 then 151
     else if m == 7 then 181 else if m == 8 then 212 else if m == 9 then 243
     else if m == 10 then 273 else if m == 11 then 304 else 334)
    + (if m > 2 && IsLeap(y) then 1 else 0)
  }

  function DayNumber(d: Date): (r: nat)
    requires Valid(d)
  {
    DaysBeforeYear(d.year) + DaysBeforeMonth(d.year, d.month) + d.day - 1
  }

  /** ChronoUnit.DAYS.between(a, b) */
  function DaysBetween(a: Date, b: Date): (r: int)
    requires Valid(a) && Valid(b)
  {
    DayNumber(b) - DayNumber(a)
  }

  lemma DaysBeforeMonthStep(y: int, m: int)
    requires 1 <= m < 12
    ensures DaysBeforeMonth(y, m + 1) == DaysBeforeMonth(y, m) + DaysInMonth(y, m)
  {
  }

  lemma DaysBeforeMonthLast(y: int)
    ensures DaysBeforeMonth(y, 12) + DaysInMonth(y, 12) == YearLength(y)
  {
  }

  lemma {:induction false} DaysBeforeMonthMono(y: int, m1: int, m2: int)
    requires 1 <= m1 < m2 <= 12
    ensures DaysBeforeMonth(y, m1) + DaysInMonth(y, m1) <= DaysBeforeMonth(y, m2)
    decreases m2 - m1
  {
    DaysBeforeMonthStep(y, m1);
    if m1 + 1 < m2 {
      DaysBeforeMonthMono(y, m1 + 1, m2);
    }
  }

  lemma {:induction false} DaysBeforeYearMono(y1: nat, y2: nat)
    requires y1 < y2
    ensures DaysBeforeYear(y1) + YearLength(y1) <= DaysBeforeYear(y2)
    decreases y2 - y1
  {
    if y1 + 1 < y2 {
      DaysBeforeYearMono(y1 + 1, y2);
    }
  }

  /** A date's day number stays below the first day of the next year. */
  lemma DayNumberWithinYear(d: Date)
    requires Valid(d)
    ensures DayNumber(d) < DaysBeforeYear(d.year) + YearLength(d.year)
  {
    if d.month < 12 {
      DaysBeforeMonthMono(d.year, d.month, 12);
    }
    DaysBeforeMonthLast(d.year);
  }

  /** `isBefore` agrees with the order of day numbers. */
  lemma BeforeIffDayNumber(a: Date, b: Date)
    requires Valid(a) && Valid(b)
    ensures Before(a, b) <==> DayNumber(a) < DayNumber(b)
  {
    if Before(a, b) {
      BeforeDayNumber(a, b);
    } else if a != b {
      assert Before(b, a);
      BeforeDayNumber(b, a);
    }
  }

  lemma BeforeDayNumber(a: Date, b: Date)
    requires Valid(a) && Valid(b) && Before(a, b)
    ensures DayNumber(a) < DayNumber(b)
  {
    if a.year < b.year {
      DayNumberWithinYear(a);
      DaysBeforeYearMono(a.year, b.year);
    } else if a.month < b.month {
      DaysBeforeMonthMono(a.year, a.month, b.month);
    }
  }

  /** Two valid dates with the same day number are the same date. */
  lemma DayNumberInjective(a: Date, b: Date)
    requires Valid(a) && Valid(b) && DayNumber(a) == DayNumber(b)
    ensures a == b
  {
    BeforeIffDayNumber(a, b);
    BeforeIffDayNumber(b, a);
  }

  /** plusDays(1) advances the day number by exactly one. */
  lemma DayNumberNextDay(d: Date)
    requires Valid(d)
    ensures DayNumber(NextDay(d)) == DayNumber(d) + 1
  {
    if d.day < DaysInMonth(d.year, d.month) {
    } else if d.month < 12 {
      DaysBeforeMonthStep(d.year, d.month);
    } else {
      DaysBeforeMonthLast(d.year);
    }
  }

  /** NextDay is the successor: no valid date lies strictly between a date
      and the next one. */
  lemma NextDayIsSuccessor(d: Date, x: Date)
    requires Valid(d) && Valid(x) && Before(d, x)
    ensures NotAfter(NextDay(d), x)
  {
    DayNumberNextDay(d);
    BeforeIffDayNumber(d, x);
    BeforeIffDayNumber(x, NextDay(d));
  }

  // ---------------------------------------------------------------------
  // Runs of consecutive days

  /** The `n` consecutive dates starting at `d`. */
  function DatesFrom(d: Date, n: nat): (r: seq<Date>)
    requires Valid(d)
    ensures |r| == n
    ensures forall i :: 0 <= i < n ==> Valid(r[i]) && DayNumber(r[i]) == DayNumber(d) + i
    decreases n
  {
    if n == 0 then []
    else
      DayNumberNextDay(d);
      [d] + DatesFrom(NextDay(d), n - 1)
  }

  /** Every date from `lo` to `hi` inclusive, ascending; empty when hi < lo. */
  function DatesBetween(lo: Date, hi: Date): (r: seq<Date>)
    requires Valid(lo) && Valid(hi)
  {
    BeforeIffDayNumber(hi, lo);
    if Before(hi, lo) then [] else DatesFrom(lo, DayNumber(hi) - DayNumber(lo) + 1)
  }

  /** The run from `lo` to `hi` holds exactly the dates between them, each
      once and in ascending order. */
  lemma DatesBetweenSpec(lo: Date, hi: Date)
    requires Valid(lo) && Valid(hi)
    ensures forall x :: x in DatesBetween(lo, hi) <==> Valid(x) && InRange(x, lo, hi)
    ensures forall i, j :: 0 <= i < j < |DatesBetween(lo, hi)| ==>
      Before(DatesBetween(lo, hi)[i], DatesBetween(lo, hi)[j])
  {
    var r := DatesBetween(lo, hi);
    BeforeIffDayNumber(hi, lo);
    forall x | x in r
      ensures Valid(x) && InRange(x, lo, hi)
    {
      var i :| 0 <= i < |r| && r[i] == x;
      BeforeIffDayNumber(x, lo);
      BeforeIffDayNumber(hi, x);
    }
    forall x | Valid(x) && InRange(x, lo, hi)
      ensures x in r
    {
      BeforeIffDayNumber(x, lo);
      BeforeIffDayNumber(hi, x);
      var i := DayNumber(x) - DayNumber(lo);
      DayNumberInjective(r[i], x);
    }
    forall i, j | 0 <= i < j < |r|
      ensures Before(r[i], r[j])
    {
      BeforeIffDayNumber(r[i], r[j]);
    }
  }

  /** The run has DAYS.between(lo, hi) + 1 dates. */
  lemma DatesBetweenLength(lo: Date, hi: Date)
    requires Valid(lo) && Valid(hi) && NotAfter(lo, hi)
    ensures |DatesBetween(lo, hi)| == DaysBetween(lo, hi) + 1
  {
    BeforeIffDayNumber(hi, lo);
  }

  // ---------------------------------------------------------------------
  // ISO_LOCAL_DATE text

  function Val2(a: char, b: char): (r: nat)
    requires IsDigit(a) && IsDigit(b)
    ensures r < 100
  {
    DigitValue(a) * 10 + DigitValue(b)
  }

  function Val4(a: char, b: char, c: char, d: char): (r: nat)
    requires IsDigit(a) && IsDigit(b) && IsDigit(c) && IsDigit(d)
    ensures r < 10000
  {
    Val2(a, b) * 100 + Val2(c, d)
  }

  /** The shape "DDDD-DD-DD" of a four-digit-year ISO date. */
  predicate IsoShape(s: string) {
    |s| == 10 && s[4] == '-' && s[7] == '-'
    && IsDigit(s[0]) && IsDigit(s[1]) && IsDigit(s[2]) && IsDigit(s[3])
    && IsDigit(s[5]) && IsDigit(s[6]) && IsDigit(s[8]) && IsDigit(s[9])
  }

  function ShapeDate(s: string): Date
    requires IsoShape(s)
  {
    Date(Val4(s[0], s[1], s[2], s[3]), Val2(s[5], s[6]), Val2(s[8], s[9]))
  }

  /** LocalDate.parse(s, ISO_LOCAL_DATE), strict resolution: `None` is the
      DateTimeParseException. */
  function ParseIsoDate(s: string): (r: Option<Date>)
    ensures r.Some? <==> IsoShape(s) && Valid(ShapeDate(s))
    ensures r.Some? ==> Valid4(r.value) && r.value == ShapeDate(s)
  {
    if IsoShape(s) && Valid(ShapeDate(s)) then Some(ShapeDate(s)) else None
  }

  predicate IsIsoDate(s: string) {
    ParseIsoDate(s).Some?
  }

  /** The two digits of a number below 100. */
  function TwoDigits(n: nat): (r: string)
    requires n < 100
    ensures |r| == 2 && IsDigit(r[0]) && IsDigit(r[1]) && Val2(r[0], r[1]) == n
  {
    [DigitChar(n / 10), DigitChar(n % 10)]
  }

  lemma TwoDigitsOfVal(a: char, b: char)
    requires IsDigit(a) && IsDigit(b)
    ensures TwoDigits(Val2(a, b)) == [a, b]
  {
    var n := Val2(a, b);
    assert n / 10 == DigitValue(a) && n % 10 == DigitValue(b);
  }

  lemma SplitHundreds(hi: nat, lo: nat)
    requires lo < 100
    ensures (hi * 100 + lo) / 100 == hi && (hi * 100 + lo) % 100 == lo
  {
  }

  /** LocalDate.format(ISO_LOCAL_DATE) for a four-digit year. */
  function FormatIsoDate(d: Date): (r: string)
    requires Valid4(d)
    ensures IsoShape(r)
  {
    TwoDigits(d.year / 100) + TwoDigits(d.year % 100) + "-" + TwoDigits(d.month) + "-" + TwoDigits(d.day)
  }

  /** Parsing reads back every formatted date. */
  lemma ParseFormat(d: Date)
    requires Valid4(d)
    ensures ParseIsoDate(FormatIsoDate(d)) == Some(d)
  {
    var s := FormatIsoDate(d);
    assert Val2(s[0], s[1]) == d.year / 100 && Val2(s[2], s[3]) == d.year % 100;
    assert ShapeDate(s) == d;
  }

  /** A parsable date string is the canonical text of its date, so the parse
      is one-to-one. */
  lemma FormatParse(s: string)
    requires IsIsoDate(s)
    ensures FormatIsoDate(ParseIsoDate(s).value) == s
  {
    var d := ParseIsoDate(s).value;
    SplitHundreds(Val2(s[0], s[1]), Val2(s[2], s[3]));
    TwoDigitsOfVal(s[0], s[1]);
    TwoDigitsOfVal(s[2], s[3]);
    TwoDigitsOfVal(s[5], s[6]);
    TwoDigitsOfVal(s[8], s[9]);
    assert s == [s[0], s[1]] + [s[2], s[3]] + "-" + [s[5], s[6]] + "-" + [s[8], s[9]];
  }

  lemma ParseInjective(s: string, t: string)
    requires IsIsoDate(s) && IsIsoDate(t) && ParseIsoDate(s) == ParseIsoDate(t)
    ensures s == t
  {
    FormatParse(s);
    FormatParse(t);
  }

  lemma {:induction false} StrLessAppend(x1: string, y1: string, x2: string, y2: string)
    requires |x1| == |x2|
    ensures StrLess(x1 + y1, x2 + y2) <==> StrLess(x1, x2) || (x1 == x2 && StrLess(y1, y2))
    decreases |x1|
  {
    if x1 == [] {
      assert x1 + y1 == y1 && x2 + y2 == y2;
    } else {
      assert (x1 + y1)[1..] == x1[1..] + y1;
      assert (x2 + y2)[1..] == x2[1..] + y2;
      StrLessAppend(x1[1..], y1, x2[1..], y2);
      if x1[0] == x2[0] {
        assert x1 == x2 <==> x1[1..] == x2[1..];
      }
    }
  }

  lemma StrLessTwoDigits(p: string, q: string)
    requires |p| == 2 && |q| == 2 && IsDigit(p[0]) && IsDigit(p[1]) && IsDigit(q[0]) && IsDigit(q[1])
    ensures StrLess(p, q) <==> Val2(p[0], p[1]) < Val2(q[0], q[1])
    ensures p == q <==> Val2(p[0], p[1]) == Val2(q[0], q[1])
  {
    assert StrLess(p[1..], q[1..]) <==> p[1] < q[1] by {
      assert p[1..][1..] == [] && q[1..][1..] == [];
    }
    if p[0] == q[0] && p[1] == q[1] {
      assert p == q;
    }
  }

  lemma StrLessFourDigits(p: string, q: string)
    requires |p| == 4 && |q| == 4
    requires IsDigit(p[0]) && IsDigit(p[1]) && IsDigit(p[2]) && IsDigit(p[3])
    requires IsDigit(q[0]) && IsDigit(q[1]) && IsDigit(q[2]) && IsDigit(q[3])
    ensures StrLess(p, q) <==> Val4(p[0], p[1], p[2], p[3]) < Val4(q[0], q[1], q[2], q[3])
    ensures p == q <==> Val4(p[0], p[1], p[2], p[3]) == Val4(q[0], q[1], q[2], q[3])
  {
    assert p == p[..2] + p[2..] && q == q[..2] + q[2..];
    StrLessAppend(p[..2], p[2..], q[..2], q[2..]);
    StrLessTwoDigits(p[..2], q[..2]);
    StrLessTwoDigits(p[2..], q[2..]);
    assert p == q <==> p[..2] == q[..2] && p[2..] == q[2..];
  }

  /** On well-formed date strings, string order (the order MongoDB and
      String.compareTo use) is calendar order. */
  lemma IsoStringOrder(s: string, t: string)
    requires IsIsoDate(s) && IsIsoDate(t)
    ensures StrLess(s, t) <==> Before(ParseIsoDate(s).value, ParseIsoDate(t).value)
  {
    var a := ParseIsoDate(s).value;
    var b := ParseIsoDate(t).value;
    assert s == s[..4] + (s[4..5] + (s[5..7] + (s[7..8] + s[8..])));
    assert t == t[..4] + (t[4..5] + (t[5..7] + (t[7..8] + t[8..])));
    StrLessAppend(s[..4], s[4..5] + (s[5..7] + (s[7..8] + s[8..])), t[..4], t[4..5] + (t[5..7] + (t[7..8] + t[8..])));
    StrLessAppend(s[4..5], s[5..7] + (s[7..8] + s[8..]), t[4..5], t[5..7] + (t[7..8] + t[8..]));
    StrLessAppend(s[5..7], s[7..8] + s[8..], t[5..7], t[7..8] + t[8..]);
    StrLessAppend(s[7..8], s[8..], t[7..8], t[8..]);
    assert s[4..5] == t[4..5] && s[7..8] == t[7..8];
    assert !StrLess(s[4..5], t[4..5]) && !StrLess(s[7..8], t[7..8]);
    StrLessFourDigits(s[..4], t[..4]);
    StrLessTwoDigits(s[5..7], t[5..7]);
    StrLessTwoDigits(s[8..], t[8..]);
  }

  /** The inclusive form of the same: string `<=` is calendar `!isAfter`. */
  lemma IsoStringOrderEq(s: string, t: string)
    requires IsIsoDate(s) && IsIsoDate(t)
    ensures StrLessEq(s, t) <==> NotAfter(ParseIsoDate(s).value, ParseIsoDate(t).value)
  {
    IsoStringOrder(s, t);
    IsoStringOrder(t, s);
    if ParseIsoDate(s) == ParseIsoDate(t) {
      ParseInjective(s, t);
    }
  }
}
