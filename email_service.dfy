// EmailService: the helpers that put booking details into the HTML of a
// notification mail. Sending, templates and the footer are not modelled.

module EmailService {

  import opened Wrappers
  import opened Text
  import opened Seminars

  // ---------------------------------------------------------------------
  // escape

  /** `s.replace(target, repl)` for a one-character target, as a map over
      the characters. */
  function ReplaceChar(s: string, c: char, repl: string): (r: string) {
    if s == [] then [] else (if s[0] == c then repl else [s[0]]) + ReplaceChar(s[1..], c, repl)
  }

  lemma {:induction false} ReplaceAllOneChar(s: string, c: char, repl: string)
    ensures ReplaceAll(s, [c], repl) == ReplaceChar(s, c, repl)
  {
    if s != [] {
      ReplaceAllOneChar(s[1..], c, repl);
      assert s[..1] == [s[0]];
    }
  }

  lemma {:induction false} ReplaceCharAppend(a: string, b: string, c: char, repl: string)
    ensures ReplaceChar(a + b, c, repl) == ReplaceChar(a, c, repl) + ReplaceChar(b, c, repl)
  {
    if a != [] {
      assert (a + b)[0] == a[0] && (a + b)[1..] == a[1..] + b;
      ReplaceCharAppend(a[1..], b, c, repl);
    } else {
      assert a + b == b;
    }
  }

  /** escape, as written: the four replacements one after another. */
  function Escape(s: Option<string>): (r: string)
    ensures s.None? ==> r == ""
  {
    if s.None? then ""
    else ReplaceAll(ReplaceAll(ReplaceAll(ReplaceAll(s.value, "&", "&amp;"), "<", "&lt;"), ">", "&gt;"), "\"", "&quot;")
  }

  /** The entity each character becomes. */
  function EscapeChar(c: char): string {
    if c == '&' then "&amp;"
    else if c == '<' then "&lt;"
    else if c == '>' then "&gt;"
    else if c == '"' then "&quot;"
    else [c]
  }

  /** Escaping character by character. */
  function EscapeEach(s: string): (r: string)
    ensures !ContainsChar(r, '<') && !ContainsChar(r, '>') && !ContainsChar(r, '"')
  {
    if s == [] then []
    else
      var head := EscapeChar(s[0]);
      var rest := EscapeEach(s[1..]);
      assert forall i :: 0 <= i < |head + rest| ==> (head + rest)[i] == (if i < |head| then head[i] else rest[i - |head|]);
      head + rest
  }

  /** Because `&` is replaced first, no replacement touches the text an
      earlier one produced: the chain maps each character independently. */
  lemma {:induction false} EscapeIsCharwise(s: string)
    ensures Escape(Some(s)) == EscapeEach(s)
  {
    ReplaceAllOneChar(s, '&', "&amp;");
    var s1 := ReplaceChar(s, '&', "&amp;");
    ReplaceAllOneChar(s1, '<', "&lt;");
    var s2 := ReplaceChar(s1, '<', "&lt;");
    ReplaceAllOneChar(s2, '>', "&gt;");
    var s3 := ReplaceChar(s2, '>', "&gt;");
    ReplaceAllOneChar(s3, '"', "&quot;");
    ChainIsCharwise(s);
  }

  function Chain(s: string): string {
    ReplaceChar(ReplaceChar(ReplaceChar(ReplaceChar(s, '&', "&amp;"), '<', "&lt;"), '>', "&gt;"), '"', "&quot;")
  }

  lemma {:induction false} ReplaceCharAbsent(s: string, c: char, repl: string)
    requires !ContainsChar(s, c)
    ensures ReplaceChar(s, c, repl) == s
  {
    if s != [] {
      assert s[0] != c;
      assert !ContainsChar(s[1..], c) by {
        forall i | 0 <= i < |s[1..]| ensures s[1..][i] != c {
          assert s[1..][i] == s[i + 1];
        }
      }
      ReplaceCharAbsent(s[1..], c, repl);
    }
  }

  lemma ReplaceCharOne(x: char, c: char, repl: string)
    ensures ReplaceChar([x], c, repl) == if x == c then repl else [x]
  {
    assert [x][1..] == [];
  }

  lemma ChainOfOneChar(c: char)
    ensures Chain([c]) == EscapeChar(c)
  {
    ReplaceCharOne(c, '&', "&amp;");
    var s1 := ReplaceChar([c], '&', "&amp;");
    if c == '&' {
      ReplaceCharAbsent(s1, '<', "&lt;");
      ReplaceCharAbsent(s1, '>', "&gt;");
      ReplaceCharAbsent(s1, '"', "&quot;");
    } else {
      ReplaceCharOne(c, '<', "&lt;");
      var s2 := ReplaceChar([c], '<', "&lt;");
      if c == '<' {
        ReplaceCharAbsent(s2, '>', "&gt;");
        ReplaceCharAbsent(s2, '"', "&quot;");
      } else {
        ReplaceCharOne(c, '>', "&gt;");
        var s3 := ReplaceChar([c], '>', "&gt;");
        if c == '>' {
          ReplaceCharAbsent(s3, '"', "&quot;");
        } else {
          ReplaceCharOne(c, '"', "&quot;");
        }
      }
    }
  }

  lemma {:induction false} ChainAppend(a: string, b: string)
    ensures Chain(a + b) == Chain(a) + Chain(b)
  {
    ReplaceCharAppend(a, b, '&', "&amp;");
    var a1, b1 := ReplaceChar(a, '&', "&amp;"), ReplaceChar(b, '&', "&amp;");
    ReplaceCharAppend(a1, b1, '<', "&lt;");
    var a2, b2 := ReplaceChar(a1, '<', "&lt;"), ReplaceChar(b1, '<', "&lt;");
    ReplaceCharAppend(a2, b2, '>', "&gt;");
    var a3, b3 := ReplaceChar(a2, '>', "&gt;"), ReplaceChar(b2, '>', "&gt;");
    ReplaceCharAppend(a3, b3, '"', "&quot;");
  }

  lemma {:induction false} ChainIsCharwise(s: string)
    ensures Chain(s) == EscapeEach(s)
  {
    if s != [] {
      assert s == [s[0]] + s[1..];
      ChainAppend([s[0]], s[1..]);
      ChainOfOneChar(s[0]);
      ChainIsCharwise(s[1..]);
    }
  }

  /** escape(null) is "", and an escaped text holds no `<`, `>` or `"`. */
  lemma EscapeRemovesMarkup(s: Option<string>)
    ensures s.None? ==> Escape(s) == ""
    ensures !ContainsChar(Escape(s), '<') && !ContainsChar(Escape(s), '>') && !ContainsChar(Escape(s), '"')
  {
    if s.Some? {
      EscapeIsCharwise(s.value);
    }
  }

  /** Reading the entities back: what a mail client shows for the text. */
  function Unescape(s: string): (r: string)
    decreases |s|
  {
    if s == [] then []
    else if StartsWith(s, "&amp;") then "&" + Unescape(s[5..])
    else if StartsWith(s, "&lt;") then "<" + Unescape(s[4..])
    else if StartsWith(s, "&gt;") then ">" + Unescape(s[4..])
    else if StartsWith(s, "&quot;") then "\"" + Unescape(s[6..])
    else [s[0]] + Unescape(s[1..])
  }

  /** One escaped character reads back as that character. */
  lemma UnescapeOne(x: char, rest: string)
    ensures Unescape(EscapeChar(x) + rest) == [x] + Unescape(rest)
  {
    var e := EscapeChar(x) + rest;
    if x == '&' {
      assert e[..5] == "&amp;" && e[5..] == rest;
    } else if x == '<' {
      assert e[..4] == "&lt;" && e[4..] == rest;
      assert !StartsWith(e, "&amp;") by { if |e| >= 5 { assert e[..5][1] == 'l'; } }
    } else if x == '>' {
      assert e[..4] == "&gt;" && e[4..] == rest;
      assert !StartsWith(e, "&amp;") by { if |e| >= 5 { assert e[..5][1] == 'g'; } }
      assert !StartsWith(e, "&lt;") by { assert e[..4][1] == 'g'; }
    } else if x == '"' {
      assert e[..6] == "&quot;" && e[6..] == rest;
      assert !StartsWith(e, "&amp;") by { assert e[..5][1] == 'q'; }
      assert !StartsWith(e, "&lt;") by { assert e[..4][1] == 'q'; }
      assert !StartsWith(e, "&gt;") by { assert e[..4][1] == 'q'; }
    } else {
      assert e[0] == x && e[1..] == rest;
      assert !StartsWith(e, "&amp;") by { if |e| >= 5 { assert e[..5][0] == x; } }
      assert !StartsWith(e, "&lt;") by { if |e| >= 4 { assert e[..4][0] == x; } }
      assert !StartsWith(e, "&gt;") by { if |e| >= 4 { assert e[..4][0] == x; } }
      assert !StartsWith(e, "&quot;") by { if |e| >= 6 { assert e[..6][0] == x; } }
    }
  }

  /** Escaping loses nothing: the reader sees the original text. */
  lemma {:induction false} UnescapeEscape(s: string)
    ensures Unescape(EscapeEach(s)) == s
  {
    if s != [] {
      UnescapeEscape(s[1..]);
      UnescapeOne(s[0], EscapeEach(s[1..]));
    }
  }

  /** Text without the four special characters is left as it is. */
  lemma {:induction false} EscapePlain(s: string)
    requires forall i :: 0 <= i < |s| ==> EscapeChar(s[i]) == [s[i]]
    ensures EscapeEach(s) == s
  {
    if s != [] {
      assert forall i :: 0 <= i < |s[1..]| ==> s[1..][i] == s[i + 1];
      EscapePlain(s[1..]);
    }
  }

  /** The four characters escape replaces. */
  predicate Special(c: char) {
    c == '&' || c == '<' || c == '>' || c == '"'
  }

  /** Escaping never shortens a text; a text with a special character comes
      out longer and with an ampersand in it. */
  lemma {:induction false} EscapeGrows(s: string)
    ensures |EscapeEach(s)| >= |s|
    ensures (exists i :: 0 <= i < |s| && Special(s[i])) ==>
              |EscapeEach(s)| > |s| && ContainsChar(EscapeEach(s), '&')
  {
    if s != [] {
      var t := s[1..];
      EscapeGrows(t);
      var r := EscapeEach(s);
      var head := EscapeChar(s[0]);
      assert r == head + EscapeEach(t);
      if Special(s[0]) {
        assert r[0] == '&';
      } else if exists i :: 0 <= i < |s| && Special(s[i]) {
        var i :| 0 <= i < |s| && Special(s[i]);
        assert Special(t[i - 1]);
        var k :| 0 <= k < |EscapeEach(t)| && EscapeEach(t)[k] == '&';
        assert r[|head| + k] == '&';
      }
    }
  }

  /** Escaping is not idempotent: a text with a special character escaped a
      second time changes again, since its entities start with `&`. */
  lemma EscapeNotIdempotent(s: string)
    requires exists i :: 0 <= i < |s| && Special(s[i])
    ensures Escape(Some(s)) != s
    ensures Escape(Some(Escape(Some(s)))) != Escape(Some(s))
  {
    EscapeIsCharwise(s);
    EscapeGrows(s);
    var once := EscapeEach(s);
    EscapeIsCharwise(once);
    var k :| 0 <= k < |once| && once[k] == '&';
    EscapeGrows(once);
  }

  // ---------------------------------------------------------------------
  // safe, validEmail, rowTd

  const DASH: string := "—"

  /** safe: a placeholder dash for a null or blank value. */
  function Safe(s: Option<string>): (r: string)
    ensures NullOrBlank(s) ==> r == DASH
    ensures !NullOrBlank(s) ==> r == s.value
    ensures !IsBlank(r)
  {
    assert !IsJavaWhitespace(DASH[0]);
    if NullOrBlank(s) then DASH else s.value
  }

  /** validEmail */
  predicate ValidEmail(e: Option<string>) {
    e.Some? && Trim(e.value) != "" && ContainsChar(Trim(e.value), '@') && |Trim(e.value)| <= 254
  }

  /** Every address the user registration accepts gets mail once it is at
      most 254 characters long. */
  lemma InstitutionEmailIsValid(e: string)
    requires |e| > |"@newhorizonindia.edu"| && EndsWith(e, "@newhorizonindia.edu")
    requires forall i :: 0 <= i < |e| ==> e[i] > ' '
    requires |e| <= 254
    ensures ValidEmail(Some(e))
  {
    assert TrimStartWith(e, IsTrimmable) == e;
    assert TrimEndWith(e, IsTrimmable) == e;
    assert e[|e| - 20..][0] == '@';
    assert e[|e| - 20] == '@';
  }

  const ROW_OPEN: string := "<tr><td style='padding:6px;border:1px solid #f0f0f0;width:30%'><strong>"
  const ROW_MID: string := "</strong></td><td style='padding:6px;border:1px solid #f0f0f0'>"
  const ROW_CLOSE: string := "</td></tr>"

  /** rowTd: one table row, the key and the value both escaped. */
  function RowTd(key: string, value: string): (r: string)
    ensures r == ROW_OPEN + EscapeEach(key) + ROW_MID + EscapeEach(value) + ROW_CLOSE
  {
    EscapeIsCharwise(key);
    EscapeIsCharwise(value);
    ROW_OPEN + Escape(Some(key)) + ROW_MID + Escape(Some(value)) + ROW_CLOSE
  }

  /** What a reader sees in the value cell of a row with this key. */
  function CellShown(key: string, row: string): string
    requires |ROW_OPEN| + |EscapeEach(key)| + |ROW_MID| + |ROW_CLOSE| <= |row|
  {
    Unescape(row[|ROW_OPEN| + |EscapeEach(key)| + |ROW_MID|..|row| - |ROW_CLOSE|])
  }

  /** The value cell of a row shows the value itself. */
  lemma RowShowsValue(key: string, value: string)
    ensures |ROW_OPEN| + |EscapeEach(key)| + |ROW_MID| + |ROW_CLOSE| <= |RowTd(key, value)|
    ensures CellShown(key, RowTd(key, value)) == value
  {
    var r := RowTd(key, value);
    var start := |ROW_OPEN| + |EscapeEach(key)| + |ROW_MID|;
    assert r[start..|r| - |ROW_CLOSE|] == EscapeEach(value);
    UnescapeEscape(value);
  }

  // ---------------------------------------------------------------------
  // getDateAndTimesRows

  /** The rows the date and time part of a mail shows, as (key, value)
      pairs. */
  function DateTimeRows(s: Seminar): (rows: seq<(string, string)>)
    ensures HasRange(s) ==>
      rows == [("From Date", Safe(s.startDate)), ("To Date", Safe(s.endDate)),
               ("Time", if s.daySlots.Some? && s.daySlots.value != map[] then "Multi-day (See details in portal)" else "Full Day")]
    ensures !HasRange(s) ==>
      rows == [("Date", Safe(s.date)),
               ("Time", if s.startTime.Some? && s.endTime.Some? then Safe(s.startTime) + " — " + Safe(s.endTime) else "Full Day")]
  {
    if s.startDate.Some? && s.endDate.Some? then
      [("From Date", Safe(s.startDate)), ("To Date", Safe(s.endDate)),
       ("Time", if s.daySlots.Some? && |s.daySlots.value| != 0 then "Multi-day (See details in portal)" else "Full Day")]
    else
      [("Date", Safe(s.date)),
       ("Time", if s.startTime.Some? && s.endTime.Some? then Safe(s.startTime) + " — " + Safe(s.endTime) else "Full Day")]
  }

  /** The rows rendered one after another. */
  function Render(rows: seq<(string, string)>): string {
    if rows == [] then [] else Render(rows[..|rows| - 1]) + RowTd(rows[|rows| - 1].0, rows[|rows| - 1].1)
  }

  /** getDateAndTimesRows: the StringBuilder the rows are appended to. */
  method DateAndTimesRows(s: Seminar) returns (html: string)
    ensures html == Render(DateTimeRows(s))
  {
    html := AppendRows(DateTimeRows(s));
  }

  /** The appends of getDateAndTimesRows: each row added to the builder in
      turn. */
  method AppendRows(rows: seq<(string, string)>) returns (html: string)
    ensures html == Render(rows)
  {
    html := "";
    var i := 0;
    while i < |rows|
      invariant 0 <= i <= |rows|
      invariant html == Render(rows[..i])
    {
      assert rows[..i + 1][..i] == rows[..i];
      html := html + RowTd(rows[i].0, rows[i].1);
      i := i + 1;
    }
    assert rows[..|rows|] == rows;
  }

  /** A booking shows a date range, or a single date, never both. */
  lemma RowsShowOneShape(s: Seminar)
    ensures |DateTimeRows(s)| == (if HasRange(s) then 3 else 2)
    ensures DateTimeRows(s)[|DateTimeRows(s)| - 1].0 == "Time"
    ensures (exists i :: 0 <= i < |DateTimeRows(s)| && DateTimeRows(s)[i].0 == "Date") <==> !HasRange(s)
  {
    var rows := DateTimeRows(s);
    if HasRange(s) {
      assert "From Date" != "Date" && "To Date" != "Date";
      assert "Time"[0] != "Date"[0];
    } else {
      assert rows[0].0 == "Date";
    }
  }

  // ---------------------------------------------------------------------
  // The remarks and status rows

  /** `rowTd("Remarks", escape(reason))` and `rowTd("Status",
      escape(status))`: the value is escaped here and again inside rowTd. */
  function PreEscapedRow(key: string, value: string): string {
    RowTd(key, Escape(Some(value)))
  }

  /** The row with the value escaped once, by rowTd. */
  function PlainRow(key: string, value: string): (r: string)
    ensures |ROW_OPEN| + |EscapeEach(key)| + |ROW_MID| + |ROW_CLOSE| <= |r|
    ensures CellShown(key, r) == value
  {
    RowShowsValue(key, value);
    RowTd(key, value)
  }

  /** The value cell of a pre-escaped row shows the escaped text: a
      reason or status with a special character reaches the reader with the
      entity spelled out instead. */
  lemma PreEscapedShowsEntities(key: string, value: string)
    ensures |ROW_OPEN| + |EscapeEach(key)| + |ROW_MID| + |ROW_CLOSE| <= |PreEscapedRow(key, value)|
    ensures CellShown(key, PreEscapedRow(key, value)) == EscapeEach(value)
    ensures (exists i :: 0 <= i < |value| && Special(value[i])) ==>
              CellShown(key, PreEscapedRow(key, value)) != value
  {
    EscapeIsCharwise(value);
    RowShowsValue(key, EscapeEach(value));
    EscapeGrows(value);
  }
}
