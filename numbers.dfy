// Decimal numerals as the two tiers read and write them: Java's
// Integer.parseInt and 32-bit `int` arithmetic on the backend, and
// JavaScript's parseInt, String(n) and padStart on the frontend.
module Numbers {

  import opened Wrappers
  import opened Text

  const INT32_MIN: int := -0x8000_0000
  const INT32_MAX: int := 0x7FFF_FFFF

  predicate InInt32(x: int) { INT32_MIN <= x <= INT32_MAX }

  /** The value of `x` after Java's two's-complement `int` overflow. */
  function WrapInt32(x: int): (r: int)
    ensures InInt32(r)
    ensures (r - x) % 0x1_0000_0000 == 0
    ensures InInt32(x) ==> r == x
  {
    (x - INT32_MIN) % 0x1_0000_0000 + INT32_MIN
  }

  predicate AllDigits(s: string) {
    forall i :: 0 <= i < |s| ==> IsDigit(s[i])
  }

  function DigitValue(c: char): (r: nat)
    requires IsDigit(c)
    ensures r < 10
  {
    c as int - '0' as int
  }

  function DigitChar(d: nat): (c: char)
    requires d < 10
    ensures IsDigit(c) && DigitValue(c) == d
  {
    ('0' as int + d) as char
  }

  /** The value of a string of decimal digits, most significant first. */
  function DigitsValue(s: string): (r: nat)
    requires AllDigits(s)
  {
    if s == [] then 0 else DigitsValue(s[..|s| - 1]) * 10 + DigitValue(s[|s| - 1])
  }

  /** Integer.parseInt(s, 10) on ASCII digits: an optional sign, at least one
      digit, and a value that fits in an `int`; `None` is the
      NumberFormatException. */
  function JavaParseInt(s: string): (r: Option<int>)
    ensures r.Some? ==> InInt32(r.value)
  {
    if s == [] then None
    else
      var neg := s[0] == '-';
      var body := if s[0] == '-' || s[0] == '+' then s[1..] else s;
      if body == [] || !AllDigits(body) then None
      else
        var v := if neg then -(DigitsValue(body) as int) else DigitsValue(body);
        if InInt32(v) then Some(v) else None
  }

  /** The longest prefix of `s` made of decimal digits. */
  function DigitPrefix(s: string): (r: string)
    ensures AllDigits(r) && |r| <= |s| && r == s[..|r|]
    ensures |r| < |s| ==> !IsDigit(s[|r|])
  {
    if s == [] || !IsDigit(s[0]) then [] else [s[0]] + DigitPrefix(s[1..])
  }

  /** JavaScript's parseInt(s, 10): leading white space is skipped, then an
      optional sign and the longest run of digits; `None` is NaN. */
  function JsParseInt(s: string): (r: Option<int>)
  {
    var t := JsTrimStart(s);
    var neg := t != [] && t[0] == '-';
    var body := if t != [] && (t[0] == '-' || t[0] == '+') then t[1..] else t;
    var digits := DigitPrefix(body);
    if digits == [] then None
    else if neg then Some(-(DigitsValue(digits) as int))
    else Some(DigitsValue(digits))
  }

  /** The shortest decimal numeral of `n`. */
  function NatToString(n: nat): (r: string)
    ensures r != [] && AllDigits(r)
    decreases n
  {
    if n < 10 then [DigitChar(n)] else NatToString(n / 10) + [DigitChar(n % 10)]
  }

  /** JavaScript's String(n) for an integer. */
  function IntToString(n: int): (r: string)
  {
    if n < 0 then "-" + NatToString(-n) else NatToString(n)
  }

  /** String.prototype.padStart(len, "0"): zeros put in front until the
      text is `len` long. */
  function PadStartZero(s: string, len: nat): (r: string)
    decreases len - |s|
  {
    if |s| >= len then s else PadStartZero(['0'] + s, len)
  }

  /** Padding puts zeros in front and nothing else: the result is at least
      `len` long, ends with `s`, and denotes the same number. */
  lemma {:induction false} PadStartZeroValue(s: string, len: nat)
    requires AllDigits(s)
    ensures |PadStartZero(s, len)| >= len && |PadStartZero(s, len)| >= |s|
    ensures AllDigits(PadStartZero(s, len)) && DigitsValue(PadStartZero(s, len)) == DigitsValue(s)
    ensures |s| >= len ==> PadStartZero(s, len) == s
    decreases len - |s|
  {
    if |s| < len {
      DigitsValueLeadingZeros(1, s);
      assert seq(1, _ => '0') + s == ['0'] + s;
      PadStartZeroValue(['0'] + s, len);
    }
  }

  /** `String(n).padStart(2, "0")` */
  function Pad2(n: int): (r: string)
  {
    PadStartZero(IntToString(n), 2)
  }

  /** Two-digit padding of a number below 100 is its two decimal digits. */
  lemma Pad2Short(n: nat)
    requires n < 100
    ensures Pad2(n) == [DigitChar(n / 10), DigitChar(n % 10)]
  {
    if n >= 10 {
      assert NatToString(n / 10) == [DigitChar(n / 10)];
      assert NatToString(n) == [DigitChar(n / 10), DigitChar(n % 10)];
    } else {
      assert NatToString(n) == [DigitChar(n % 10)];
      assert PadStartZero(['0'] + NatToString(n), 2) == ['0'] + NatToString(n);
      assert DigitChar(0) == '0';
    }
  }

  lemma {:induction false} DigitsValueOfNatToString(n: nat)
    ensures DigitsValue(NatToString(n)) == n
    decreases n
  {
    if n >= 10 {
      DigitsValueOfNatToString(n / 10);
      var s := NatToString(n);
      assert s[..|s| - 1] == NatToString(n / 10);
    }
  }

  lemma {:induction false} DigitsValueLeadingZeros(k: nat, s: string)
    requires AllDigits(s)
    ensures AllDigits(seq(k, _ => '0') + s)
    ensures DigitsValue(seq(k, _ => '0') + s) == DigitsValue(s)
    decreases |s|
  {
    var z := seq(k, _ => '0');
    if s == [] {
      assert z + s == z;
      ZerosValue(k);
    } else {
      var t := z + s;
      assert t[..|t| - 1] == z + s[..|s| - 1];
      DigitsValueLeadingZeros(k, s[..|s| - 1]);
    }
  }

  lemma {:induction false} ZerosValue(k: nat)
    ensures AllDigits(seq(k, _ => '0'))
    ensures DigitsValue(seq(k, _ => '0')) == 0
  {
    if k > 0 {
      var z := seq(k, _ => '0');
      assert z[..k - 1] == seq(k - 1, _ => '0');
      ZerosValue(k - 1);
    }
  }

  lemma DigitPrefixOfDigits(s: string)
    requires AllDigits(s)
    ensures DigitPrefix(s) == s
  {
    if s != [] {
      DigitPrefixOfDigits(s[1..]);
    }
  }

  lemma JsParseIntOfDigits(p: string)
    requires p != [] && AllDigits(p)
    ensures JsParseInt(p) == Some(DigitsValue(p))
  {
    assert !IsJsWhitespace(p[0]);
    assert JsTrimStart(p) == p;
    DigitPrefixOfDigits(p);
  }

  /** `Pad2` writes at least two digits that denote the number. */
  lemma Pad2Value(n: nat)
    ensures |Pad2(n)| >= 2 && AllDigits(Pad2(n)) && DigitsValue(Pad2(n)) == n
  {
    DigitsValueOfNatToString(n);
    PadStartZeroValue(NatToString(n), 2);
  }

  /** JavaScript reads back what `Pad2` writes for every non-negative number. */
  lemma JsParseIntPad2(n: nat)
    ensures JsParseInt(Pad2(n)) == Some(n)
  {
    Pad2Value(n);
    JsParseIntOfDigits(Pad2(n));
  }

  /** Java reads back the numeral of every `int`-sized natural number. */
  lemma JavaParseIntNatToString(n: nat)
    requires n <= INT32_MAX
    ensures JavaParseInt(NatToString(n)) == Some(n)
  {
    DigitsValueOfNatToString(n);
  }

  /** The integers of [a, b). */
  function Interval(a: int, b: int): (r: set<int>)
    ensures forall h :: h in r <==> a <= h < b
    ensures a <= b ==> |r| == b - a
    decreases b - a
  {
    if b <= a then {} else Interval(a, b - 1) + {b - 1}
  }
}
