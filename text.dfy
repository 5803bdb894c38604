// The string operations of java.lang.String and of JavaScript strings that
// the booking code relies on, stated over sequences of characters.
// Case mapping is modelled on the ASCII letters only.
module Text {

  import opened Wrappers

  // ---------------------------------------------------------------------
  // Characters

  predicate IsAsciiLower(c: char) { 'a' <= c <= 'z' }
  predicate IsAsciiUpper(c: char) { 'A' <= c <= 'Z' }
  predicate IsDigit(c: char) { '0' <= c <= '9' }

  function UpperChar(c: char): (r: char)
    ensures !IsAsciiLower(r)
    ensures IsAsciiLower(c) ==> r as int == c as int - 32
    ensures !IsAsciiLower(c) ==> r == c
  {
    if IsAsciiLower(c) then (c as int - 32) as char else c
  }

  function LowerChar(c: char): (r: char)
    ensures !IsAsciiUpper(r)
    ensures IsAsciiUpper(c) ==> r as int == c as int + 32
    ensures !IsAsciiUpper(c) ==> r == c
  {
    if IsAsciiUpper(c) then (c as int + 32) as char else c
  }

  /** Character.isWhitespace: the Unicode space separators other than the
      no-break spaces, the line and paragraph separators, and the controls
      U+0009..U+000D and U+001C..U+001F. */
  predicate IsJavaWhitespace(c: char) {
    c == ' ' || ('\t' <= c <= '\r') || ('\U{1C}' <= c <= '\U{1F}')
    || c == '\U{1680}' || ('\U{2000}' <= c <= '\U{2006}') || ('\U{2008}' <= c <= '\U{200A}')
    || c == '\U{2028}' || c == '\U{2029}' || c == '\U{205F}' || c == '\U{3000}'
  }

  /** The characters String.trim removes: everything up to U+0020. */
  predicate IsTrimmable(c: char) { c <= ' ' }

  /** The characters JavaScript's String.prototype.trim removes
      (WhiteSpace and LineTerminator of ECMA-262). */
  predicate IsJsWhitespace(c: char) {
    c == ' ' || ('\t' <= c <= '\r') || c == '\U{A0}' || c == '\U{1680}'
    || ('\U{2000}' <= c <= '\U{200A}') || c == '\U{2028}' || c == '\U{2029}'
    || c == '\U{202F}' || c == '\U{205F}' || c == '\U{3000}' || c == '\U{FEFF}'
  }

  // ---------------------------------------------------------------------
  // Case mapping and comparison

  function Upper(s: string): (r: string)
    ensures |r| == |s|
    ensures forall i :: 0 <= i < |s| ==> r[i] == UpperChar(s[i])
  {
    seq(|s|, i requires 0 <= i < |s| => UpperChar(s[i]))
  }

  function Lower(s: string): (r: string)
    ensures |r| == |s|
    ensures forall i :: 0 <= i < |s| ==> r[i] == LowerChar(s[i])
  {
    seq(|s|, i requires 0 <= i < |s| => LowerChar(s[i]))
  }

  /** String.equalsIgnoreCase (ASCII letters). */
  predicate EqualsIgnoreCase(a: string, b: string) {
    Upper(a) == Upper(b)
  }

  lemma UpperIdempotent(s: string)
    ensures Upper(Upper(s)) == Upper(s)
  {
  }

  /** Lower-casing keeps a text equal to itself up to case. */
  lemma LowerEqualsIgnoreCase(s: string)
    ensures EqualsIgnoreCase(Lower(s), s)
  {
    forall i | 0 <= i < |s| ensures UpperChar(LowerChar(s[i])) == UpperChar(s[i]) {
      var c := s[i];
      if IsAsciiUpper(c) {
        assert LowerChar(c) as int == c as int + 32;
      }
    }
  }

  // ---------------------------------------------------------------------
  // Trimming and blankness

  function TrimStartWith(s: string, drop: char -> bool): (r: string)
    ensures |r| <= |s| && r == s[|s| - |r|..]
    ensures r == [] || !drop(r[0])
    ensures forall i :: 0 <= i < |s| - |r| ==> drop(s[i])
  {
    if s == [] || !drop(s[0]) then s else TrimStartWith(s[1..], drop)
  }

  function TrimEndWith(s: string, drop: char -> bool): (r: string)
    ensures |r| <= |s| && r == s[..|r|]
    ensures r == [] || !drop(r[|r| - 1])
    ensures forall i :: |r| <= i < |s| ==> drop(s[i])
  {
    if s == [] || !drop(s[|s| - 1]) then s else TrimEndWith(s[..|s| - 1], drop)
  }

  /** String.trim. */
  function Trim(s: string): (r: string)
    ensures r == [] || (!IsTrimmable(r[0]) && !IsTrimmable(r[|r| - 1]))
    ensures |r| <= |s|
  {
    TrimEndWith(TrimStartWith(s, IsTrimmable), IsTrimmable)
  }

  /** JavaScript's String.prototype.trim. */
  function JsTrim(s: string): (r: string)
    ensures |r| <= |s|
  {
    JsTrimEnd(JsTrimStart(s))
  }

  function JsTrimStart(s: string): (r: string)
    ensures |r| <= |s| && r == s[|s| - |r|..]
    decreases |s|
  {
    if s != [] && IsJsWhitespace(s[0]) then JsTrimStart(s[1..]) else s
  }

  function JsTrimEnd(s: string): (r: string)
    ensures |r| <= |s| && r == s[..|r|]
    decreases |s|
  {
    if s != [] && IsJsWhitespace(s[|s| - 1]) then JsTrimEnd(s[..|s| - 1]) else s
  }

  /** Trimming leaves a text alone whose ends are not whitespace. */
  lemma JsTrimKeepsEnds(s: string)
    requires s != [] && !IsJsWhitespace(s[0]) && !IsJsWhitespace(s[|s| - 1])
    ensures JsTrim(s) == s
  {
    assert JsTrimStart(s) == s;
    assert JsTrimEnd(s) == s;
  }

  /** The JavaScript trim leaves no white space at either end. */
  lemma {:induction false} JsTrimEnds(s: string)
    ensures var r := JsTrim(s);
            r == [] || (!IsJsWhitespace(r[0]) && !IsJsWhitespace(r[|r| - 1]))
  {
    JsTrimStartStops(s);
    JsTrimEndStops(JsTrimStart(s));
    var t := JsTrimStart(s);
    var r := JsTrimEnd(t);
    if r != [] {
      assert r[0] == t[0];
    }
  }

  lemma {:induction false} JsTrimStartStops(s: string)
    ensures JsTrimStart(s) == [] || !IsJsWhitespace(JsTrimStart(s)[0])
    decreases |s|
  {
    if s != [] && IsJsWhitespace(s[0]) {
      JsTrimStartStops(s[1..]);
    }
  }

  lemma {:induction false} JsTrimEndStops(s: string)
    ensures JsTrimEnd(s) == [] || !IsJsWhitespace(JsTrimEnd(s)[|JsTrimEnd(s)| - 1])
    decreases |s|
  {
    if s != [] && IsJsWhitespace(s[|s| - 1]) {
      JsTrimEndStops(s[..|s| - 1]);
    }
  }

  /** A text whose ends are not trimmable is its own trim. */
  lemma TrimOfUntrimmable(s: string)
    requires s == [] || (!IsTrimmable(s[0]) && !IsTrimmable(s[|s| - 1]))
    ensures Trim(s) == s
  {
  }

  /** `s.trim().toLowerCase()` is already trimmed and lower-case: applying
      it again changes nothing. */
  lemma LowerTrimIdempotent(s: string)
    ensures Trim(Lower(Trim(s))) == Lower(Trim(s))
    ensures Lower(Trim(Lower(Trim(s)))) == Lower(Trim(s))
  {
    TrimOfUntrimmable(Lower(Trim(s)));
  }

  /** The same for `s.trim().toUpperCase()`. */
  lemma UpperTrimIdempotent(s: string)
    ensures Trim(Upper(Trim(s))) == Upper(Trim(s))
    ensures Upper(Trim(Upper(Trim(s)))) == Upper(Trim(s))
  {
    TrimOfUntrimmable(Upper(Trim(s)));
  }

  /** String.isBlank. */
  predicate IsBlank(s: string) {
    forall i :: 0 <= i < |s| ==> IsJavaWhitespace(s[i])
  }

  /** `s == null || s.isBlank()` */
  predicate NullOrBlank(s: Option<string>) {
    s.None? || IsBlank(s.value)
  }

  /** `s == null || s.trim().isEmpty()` */
  predicate NullOrTrimEmpty(s: Option<string>) {
    s.None? || Trim(s.value) == []
  }

  /** A JavaScript value used as a condition: `null`, `undefined` and "" are falsy. */
  predicate Truthy(s: Option<string>) {
    s.Some? && s.value != []
  }

  // ---------------------------------------------------------------------
  // Searching

  predicate StartsWith(s: string, p: string) {
    |p| <= |s| && s[..|p|] == p
  }

  predicate EndsWith(s: string, p: string) {
    |p| <= |s| && s[|s| - |p|..] == p
  }

  predicate ContainsAt(s: string, p: string, i: nat) {
    i + |p| <= |s| && s[i..i + |p|] == p
  }

  /** String.contains / JavaScript includes. */
  predicate Contains(s: string, p: string) {
    exists i :: 0 <= i <= |s| && ContainsAt(s, p, i)
  }

  predicate ContainsChar(s: string, c: char) {
    exists i :: 0 <= i < |s| && s[i] == c
  }

  /** String.replace(CharSequence, CharSequence): every non-overlapping
      occurrence of a non-empty target, scanning left to right. */
  function ReplaceAll(s: string, target: string, repl: string): (r: string)
    requires target != []
    decreases |s|
  {
    if |s| < |target| then s
    else if s[..|target|] == target then repl + ReplaceAll(s[|target|..], target, repl)
    else [s[0]] + ReplaceAll(s[1..], target, repl)
  }

  lemma {:induction false} ReplaceAllRemovesChar(s: string, c: char, repl: string)
    requires !ContainsChar(repl, c)
    ensures !ContainsChar(ReplaceAll(s, [c], repl), c)
  {
    if |s| >= 1 {
      ReplaceAllRemovesChar(s[1..], c, repl);
    }
  }

  lemma {:induction false} ReplaceAllKeepsAbsentChar(s: string, c: char, target: string, repl: string)
    requires target != [] && !ContainsChar(s, c) && !ContainsChar(repl, c)
    ensures !ContainsChar(ReplaceAll(s, target, repl), c)
    decreases |s|
  {
    if |s| < |target| {
    } else if s[..|target|] == target {
      ReplaceAllKeepsAbsentChar(s[|target|..], c, target, repl);
    } else {
      ReplaceAllKeepsAbsentChar(s[1..], c, target, repl);
    }
  }

  /** Lexicographic order on code points: Java's compareTo < 0 for text in
      the Basic Multilingual Plane, and MongoDB's string order. */
  predicate StrLess(a: string, b: string) {
    if a == [] then b != []
    else if b == [] then false
    else if a[0] != b[0] then a[0] < b[0]
    else StrLess(a[1..], b[1..])
  }

  predicate StrLessEq(a: string, b: string) {
    a == b || StrLess(a, b)
  }

  lemma {:induction false} StrLessIrreflexive(a: string)
    ensures !StrLess(a, a)
  {
    if a != [] {
      StrLessIrreflexive(a[1..]);
    }
  }

  lemma {:induction false} StrLessAsymmetric(a: string, b: string)
    requires StrLess(a, b)
    ensures !StrLess(b, a)
    decreases |a|
  {
    if a != [] && b != [] && a[0] == b[0] {
      StrLessAsymmetric(a[1..], b[1..]);
    }
  }

  // ---------------------------------------------------------------------
  // Splitting

  /** Every piece between occurrences of `sep`, empty pieces included
      (JavaScript's String.prototype.split with a one-character separator). */
  function SplitAll(s: string, sep: char): (r: seq<string>)
    ensures |r| >= 1
    ensures forall i :: 0 <= i < |r| ==> !ContainsChar(r[i], sep)
    decreases |s|
  {
    if s == [] then [[]]
    else
      var rest := SplitAll(s[1..], sep);
      if s[0] == sep then [[]] + rest
      else [[s[0]] + rest[0]] + rest[1..]
  }

  lemma {:induction false} SplitAllNoSep(s: string, sep: char)
    requires !ContainsChar(s, sep)
    ensures SplitAll(s, sep) == [s]
    decreases |s|
  {
    if s != [] {
      assert !ContainsChar(s[1..], sep) by {
        forall i | 0 <= i < |s[1..]| ensures s[1..][i] != sep {
          assert s[1..][i] == s[i + 1];
        }
      }
      SplitAllNoSep(s[1..], sep);
      assert s[0] != sep;
      assert [s[0]] + s[1..] == s;
    }
  }

  /** A text splits into one piece exactly when it holds no separator, and
      that piece is then the text itself. */
  lemma {:induction false} SplitAllSingle(s: string, sep: char)
    ensures |SplitAll(s, sep)| == 1 <==> !ContainsChar(s, sep)
    ensures |SplitAll(s, sep)| == 1 ==> SplitAll(s, sep) == [s]
    decreases |s|
  {
    if !ContainsChar(s, sep) {
      SplitAllNoSep(s, sep);
    } else if s[0] != sep {
      var i :| 0 <= i < |s| && s[i] == sep;
      assert s[1..][i - 1] == sep;
      SplitAllSingle(s[1..], sep);
    }
  }

  /** Splitting at the first separator peels off the text before it. */
  lemma {:induction false} SplitAllFirst(x: string, sep: char, y: string)
    requires !ContainsChar(x, sep)
    ensures SplitAll(x + [sep] + y, sep) == [x] + SplitAll(y, sep)
    decreases |x|
  {
    var s := x + [sep] + y;
    if x == [] {
      assert s[0] == sep && s[1..] == y;
    } else {
      assert s[0] == x[0] && s[0] != sep;
      assert s[1..] == x[1..] + [sep] + y;
      assert !ContainsChar(x[1..], sep) by {
        forall i | 0 <= i < |x[1..]| ensures x[1..][i] != sep {
          assert x[1..][i] == x[i + 1];
        }
      }
      SplitAllFirst(x[1..], sep, y);
      assert [x[0]] + x[1..] == x;
    }
  }

  function DropTrailingEmpty(parts: seq<string>): (r: seq<string>)
    ensures |r| <= |parts| && r == parts[..|r|]
    ensures r == [] || r[|r| - 1] != []
    ensures forall i :: |r| <= i < |parts| ==> parts[i] == []
  {
    if parts == [] || parts[|parts| - 1] != [] then parts
    else DropTrailingEmpty(parts[..|parts| - 1])
  }

  /** String.split with a one-character separator and limit 0: trailing
      empty strings are removed, and an input without the separator is
      returned whole. */
  function JavaSplit(s: string, sep: char): (r: seq<string>)
  {
    if !ContainsChar(s, sep) then [s] else DropTrailingEmpty(SplitAll(s, sep))
  }

  function Join(parts: seq<string>, sep: string): (r: string)
  {
    if parts == [] then []
    else if |parts| == 1 then parts[0]
    else parts[0] + sep + Join(parts[1..], sep)
  }

  lemma {:induction false} SplitAllJoin(s: string, sep: char)
    ensures Join(SplitAll(s, sep), [sep]) == s
    decreases |s|
  {
    if s != [] {
      SplitAllJoin(s[1..], sep);
      var rest := SplitAll(s[1..], sep);
      if s[0] != sep {
        if |rest| == 1 {
        } else {
          assert [[s[0]] + rest[0]] + rest[1..] == [[s[0]] + rest[0]] + rest[1..];
          calc {
            Join([[s[0]] + rest[0]] + rest[1..], [sep]);
            ([s[0]] + rest[0]) + [sep] + Join(rest[1..], [sep]);
            [s[0]] + (rest[0] + [sep] + Join(rest[1..], [sep]));
            [s[0]] + Join(rest, [sep]);
          }
        }
      }
    }
  }
}
