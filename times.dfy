// Times of day as the backend reads them: "HH:mm" text turned into minutes
// past midnight, and the half-open interval test used for bookings.
module Times {

  import opened Wrappers
  import opened Text
  import opened Numbers

  /** toMinutes: split on ':', Integer.parseInt both leading parts and
      return h*60+m in 32-bit arithmetic. `None` is any exception thrown on
      the way: a null argument, a missing part, or a part that does not
      parse. */
  function ToMinutes(hhmm: Option<string>): (r: Option<int>)
    ensures r.Some? ==> InInt32(r.value)
  {
    if hhmm.None? then None
    else
      var parts := JavaSplit(hhmm.value, ':');
      if |parts| < 2 then None
      else
        match (JavaParseInt(parts[0]), JavaParseInt(parts[1]))
        case (Some(h), Some(m)) => Some(WrapInt32(WrapInt32(h * 60) + m))
        case _ => None
  }

  /** isOverlapping: the half-open intervals [s1,e1) and [s2,e2) intersect;
      false whenever a time is missing or does not parse. */
  predicate IsOverlapping(s1: Option<string>, e1: Option<string>, s2: Option<string>, e2: Option<string>) {
    var a := ToMinutes(s1);
    var b := ToMinutes(e1);
    var c := ToMinutes(s2);
    var d := ToMinutes(e2);
    a.Some? && b.Some? && c.Some? && d.Some? && SpansOverlap(a.value, b.value, c.value, d.value)
  }

  /** isTimeOrderValid: both times parse and the end is after the start. */
  predicate IsTimeOrderValid(start: Option<string>, end: Option<string>) {
    var s := ToMinutes(start);
    var e := ToMinutes(end);
    s.Some? && e.Some? && e.value > s.value
  }

  // ---------------------------------------------------------------------
  // Properties

  /** A minute lies in the half-open interval [lo, hi). */
  predicate InSpan(t: int, lo: int, hi: int) {
    lo <= t < hi
  }

  /** The test isOverlapping applies to the four minute values. */
  predicate SpansOverlap(s1: int, e1: int, s2: int, e2: int) {
    s1 < e2 && s2 < e1
  }

  /** On proper intervals the test means the two share at least one
      minute; touching end points share none. */
  lemma SpansOverlapIffCommonMinute(s1: int, e1: int, s2: int, e2: int)
    requires s1 < e1 && s2 < e2
    ensures SpansOverlap(s1, e1, s2, e2) <==> exists t :: InSpan(t, s1, e1) && InSpan(t, s2, e2)
  {
    if SpansOverlap(s1, e1, s2, e2) {
      var t := if s1 < s2 then s2 else s1;
      assert InSpan(t, s1, e1) && InSpan(t, s2, e2);
    }
  }

  /** isOverlapping is the span test on the parsed minutes. */
  lemma OverlapOfParsed(s1: Option<string>, e1: Option<string>, s2: Option<string>, e2: Option<string>)
    ensures IsOverlapping(s1, e1, s2, e2) <==>
      ToMinutes(s1).Some? && ToMinutes(e1).Some? && ToMinutes(s2).Some? && ToMinutes(e2).Some?
      && SpansOverlap(ToMinutes(s1).value, ToMinutes(e1).value, ToMinutes(s2).value, ToMinutes(e2).value)
  {
  }

  lemma OverlapSymmetric(s1: Option<string>, e1: Option<string>, s2: Option<string>, e2: Option<string>)
    ensures IsOverlapping(s1, e1, s2, e2) == IsOverlapping(s2, e2, s1, e1)
  {
  }

  /** An interval that starts where another ends does not overlap it. */
  lemma TouchingDoesNotOverlap(s1: Option<string>, e1: Option<string>, s2: Option<string>, e2: Option<string>)
    requires ToMinutes(e1).Some? && ToMinutes(e1) == ToMinutes(s2)
    ensures !IsOverlapping(s1, e1, s2, e2)
  {
  }

  /** A missing or unreadable time never overlaps anything. */
  lemma UnreadableNeverOverlaps(s1: Option<string>, e1: Option<string>, s2: Option<string>, e2: Option<string>)
    requires ToMinutes(s1).None? || ToMinutes(e1).None? || ToMinutes(s2).None? || ToMinutes(e2).None?
    ensures !IsOverlapping(s1, e1, s2, e2) && !IsOverlapping(s2, e2, s1, e1)
  {
  }

  /** A valid interval overlaps itself. */
  lemma ValidIntervalOverlapsItself(s: Option<string>, e: Option<string>)
    requires IsTimeOrderValid(s, e)
    ensures IsOverlapping(s, e, s, e)
  {
  }

  // ---------------------------------------------------------------------
  // The canonical "HH:mm" text of a minute of the day

  /** `String.format("%02d:%02d", m / 60, m % 60)` for a minute of the day. */
  function FormatHHmm(m: int): (r: string)
    requires 0 <= m < 24 * 60
    ensures |r| == 5 && r[2] == ':'
  {
    [DigitChar(m / 60 / 10), DigitChar(m / 60 % 10), ':', DigitChar(m % 60 / 10), DigitChar(m % 60 % 10)]
  }

  lemma JavaParseTwoDigits(a: char, b: char)
    requires IsDigit(a) && IsDigit(b)
    ensures JavaParseInt([a, b]) == Some(DigitValue(a) * 10 + DigitValue(b))
  {
    var s := [a, b];
    assert [a][..0] == [];
    assert DigitsValue([a]) == DigitValue(a);
    assert s[..1] == [a];
    assert DigitsValue(s) == DigitValue(a) * 10 + DigitValue(b);
    assert s[0] != '-' && s[0] != '+';
  }

  /** toMinutes reads back every canonical time of day. */
  lemma ToMinutesFormat(m: int)
    requires 0 <= m < 24 * 60
    ensures ToMinutes(Some(FormatHHmm(m))) == Some(m)
  {
    var s := FormatHHmm(m);
    var x, y := s[..2], s[3..];
    assert s == x + [':'] + y;
    assert ContainsChar(s, ':') by { assert s[2] == ':'; }
    assert !ContainsChar(x, ':') && !ContainsChar(y, ':');
    SplitAllFirst(x, ':', y);
    SplitAllNoSep(y, ':');
    assert JavaSplit(s, ':') == [x, y];
    assert x == [s[0], s[1]] && y == [s[3], s[4]];
    JavaParseTwoDigits(s[0], s[1]);
    JavaParseTwoDigits(s[3], s[4]);
  }
}
