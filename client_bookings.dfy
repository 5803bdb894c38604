// The booking index the add-seminar pages of the web client build from the
// records the server sends: date key to the list of booked minute intervals
// on that date, a whole day being [0, 1440). The admin page and the two
// department pages normalise records by different rules (the page policy);
// the full-day test, the calendar-day status and the search for a free
// alternative slot are the same on every page.

module ClientBookings {

  import opened Wrappers
  import opened Text
  import opened Dates
  import opened Seminars
  import opened ClientTime
  import Numbers

  // ---------------------------------------------------------------------
  // Entries

  datatype Kind = DayKind | TimeKind

  /** One normalised booking on one date. The server's records carry no
      `hall` object and no `hallId`, so `hallId` is always "". A bound is a
      JavaScript number, NaN when hhmmToMinutes read a time without a colon. */
  datatype Entry = Entry(date: string, startMin: JsNum, endMin: JsNum, hallName: string, hallId: string, kind: Kind)

  /** `b.type === "day" || (b.startMin === 0 && b.endMin === 1440)` */
  predicate IsFullDay(e: Entry) {
    e.kind == DayKind || (e.startMin == Num(0) && e.endMin == Num(1440))
  }

  /** `b.hallName === hall || String(b.hallId) === String(hall)` */
  predicate HallMatch(e: Entry, hall: string) {
    e.hallName == hall || e.hallId == hall
  }

  /** The entry's interval meets [s, t): intervalsOverlap(s, t, b.startMin,
      b.endMin). NaN is not null, so it passes the null test, and every
      comparison with it is false. */
  predicate Meets(e: Entry, s: int, t: int) {
    e.startMin.Num? && e.endMin.Num?
    && IntervalsOverlap(Some(s), Some(t), Some(e.startMin.n), Some(e.endMin.n))
  }

  /** An entry with a NaN bound meets no interval and is not a whole day. */
  lemma NaNEntryMeetsNothing(e: Entry, s: int, t: int)
    requires e.kind == TimeKind && (e.startMin == NaN || e.endMin == NaN)
    ensures !Meets(e, s, t) && !IsFullDay(e)
  {
  }

  function DayEntry(key: string, hall: string): (e: Entry)
    ensures IsFullDay(e) && e.date == key
  {
    Entry(key, Num(0), Num(1440), hall, "", DayKind)
  }

  // ---------------------------------------------------------------------
  // What one record files, page by page

  datatype Page = AdminPage | DeptPage

  /** The status test: the admin page reads a missing status as "" and so
      drops the record; the department pages read it as APPROVED. */
  predicate Approved(page: Page, s: Seminar) {
    match page
    case AdminPage => s.status.Some? && Upper(s.status.value) == "APPROVED"
    case DeptPage => !Truthy(s.status) || Upper(s.status.value) == "APPROVED"
  }

  /** `s.hallName || s.hall?.name || ""` */
  function HallNameOf(s: Seminar): string {
    if Truthy(s.hallName) then s.hallName.value else ""
  }

  /** A full-day entry on every date from `sdKey` to `edKey`. */
  function RangeDays(sdKey: string, edKey: string, hall: string): (c: map<string, Entry>)
    requires IsIsoDate(sdKey) && IsIsoDate(edKey)
  {
    map k | k in RangeKeys(ParseIsoDate(sdKey).value, ParseIsoDate(edKey).value) :: DayEntry(k, hall)
  }

  /** The admin page: a record with both range dates is a full-day entry
      on each date of its range; any other record is a time entry on its
      date when both times read back, and nothing otherwise. */
  function AdminContribution(s: Seminar): (c: map<string, Entry>)
  {
    var hall := HallNameOf(s);
    if Truthy(s.startDate) && Truthy(s.endDate) then
      var sd := DateKey(s.startDate);
      var ed := DateKey(s.endDate);
      if sd.None? || ed.None? then map[] else RangeDays(sd.value, ed.value, hall)
    else
      var dk := DateKey(if Truthy(s.date) then s.date else s.startDate);
      if dk.None? || !Truthy(s.startTime) || !Truthy(s.endTime) then map[]
      else
        var st := HhmmToNumber(s.startTime);
        var et := HhmmToNumber(s.endTime);
        if st.None? || et.None? then map[]
        else map[dk.value := Entry(dk.value, st.value, et.value, hall, "", TimeKind)]
  }

  /** A daySlots value on the department pages: a null value, or a time
      that reads as null, blocks the whole day; a time that reads as NaN
      files a time entry that meets nothing. */
  function SlotEntry(key: string, v: Option<DaySlot>, hall: string): (e: Entry)
    ensures e.date == key && e.hallName == hall
    ensures e.kind == DayKind <==>
              v.None? || HhmmToNumber(v.value.startTime).None? || HhmmToNumber(v.value.endTime).None?
    ensures e.kind == DayKind ==> e.startMin == Num(0) && e.endMin == Num(1440)
    ensures e.kind == TimeKind ==>
              Some(e.startMin) == HhmmToNumber(v.value.startTime) && Some(e.endMin) == HhmmToNumber(v.value.endTime)
  {
    if v.None? then DayEntry(key, hall)
    else
      var st := HhmmToNumber(v.value.startTime);
      var et := HhmmToNumber(v.value.endTime);
      if st.Some? && et.Some? then Entry(key, st.value, et.value, hall, "", TimeKind)
      else DayEntry(key, hall)
  }

  /** A single-date record on the department pages: missing times, or a
      time that reads as null, block the whole day; a time that reads as NaN
      files a time entry that meets nothing. */
  function DateEntry(key: string, s: Seminar, hall: string): (e: Entry)
    ensures e.date == key && e.hallName == hall
    ensures e.kind == DayKind <==>
              !Truthy(s.startTime) || !Truthy(s.endTime)
              || HhmmToNumber(s.startTime).None? || HhmmToNumber(s.endTime).None?
    ensures e.kind == DayKind ==> e.startMin == Num(0) && e.endMin == Num(1440)
    ensures e.kind == TimeKind ==>
              Some(e.startMin) == HhmmToNumber(s.startTime) && Some(e.endMin) == HhmmToNumber(s.endTime)
  {
    if !Truthy(s.startTime) || !Truthy(s.endTime) then DayEntry(key, hall)
    else
      var st := HhmmToNumber(s.startTime);
      var et := HhmmToNumber(s.endTime);
      if st.None? || et.None? then DayEntry(key, hall)
      else Entry(key, st.value, et.value, hall, "", TimeKind)
  }

  /** The department pages: a range without daySlots is full-day on each
      date; a daySlots map files one entry per key; anything else files one
      entry on its date, its start date, or else today. */
  function DeptContribution(today: string, s: Seminar): (c: map<string, Entry>)
  {
    var hall := HallNameOf(s);
    if Truthy(s.startDate) && Truthy(s.endDate) && s.daySlots.None? then
      var sd := DateKey(s.startDate);
      var ed := DateKey(s.endDate);
      if sd.None? || ed.None? then map[] else RangeDays(sd.value, ed.value, hall)
    else if s.daySlots.Some? then
      map k | k in s.daySlots.value :: SlotEntry(k, s.daySlots.value[k], hall)
    else
      var dk := DeptDateKey(today, s);
      map[dk := DateEntry(dk, s, hall)]
  }

  /** `toDateKey(s.date) || toDateKey(s.startDate) || toDateKey(new Date())` */
  function DeptDateKey(today: string, s: Seminar): string {
    if DateKey(s.date).Some? then DateKey(s.date).value
    else if DateKey(s.startDate).Some? then DateKey(s.startDate).value
    else today
  }

  /** The entries one record files, by date key: at most one per date.
      `today` is the key of the current date. */
  function Contribution(page: Page, today: string, s: Seminar): (c: map<string, Entry>)
    ensures !Approved(page, s) ==> c == map[]
    ensures forall k :: k in c ==> c[k].date == k && c[k].hallName == HallNameOf(s) && c[k].hallId == ""
  {
    if !Approved(page, s) then map[]
    else match page
      case AdminPage => AdminContribution(s)
      case DeptPage => DeptContribution(today, s)
  }

  // ---------------------------------------------------------------------
  // The index

  type Index = map<string, seq<Entry>>

  /** `normalizedBookings.get(key) || []` */
  function Get(idx: Index, key: string): seq<Entry> {
    if key in idx then idx[key] else []
  }

  /** What each record of `ss` files, in record order. */
  function Filings(page: Page, today: string, ss: seq<Seminar>): (cs: seq<map<string, Entry>>)
    ensures |cs| == |ss|
    ensures forall i :: 0 <= i < |ss| ==> cs[i] == Contribution(page, today, ss[i])
  {
    seq(|ss|, i requires 0 <= i < |ss| => Contribution(page, today, ss[i]))
  }

  /** The list filed under `key` by a run of filings, in order. */
  function Column(cs: seq<map<string, Entry>>, key: string): (r: seq<Entry>)
    decreases |cs|
  {
    if cs == [] then []
    else Column(cs[..|cs| - 1], key) + (if key in cs[|cs| - 1] then [cs[|cs| - 1][key]] else [])
  }

  /** An entry is in a date's list exactly when some filing puts it under
      that date. */
  lemma {:induction false} ColumnMembers(cs: seq<map<string, Entry>>, key: string, e: Entry)
    ensures e in Column(cs, key) <==> exists i :: 0 <= i < |cs| && key in cs[i] && cs[i][key] == e
    decreases |cs|
  {
    if cs != [] {
      var init := cs[..|cs| - 1];
      ColumnMembers(init, key, e);
      if e in Column(init, key) {
        var i :| 0 <= i < |init| && key in init[i] && init[i][key] == e;
        assert cs[i] == init[i];
      }
      if exists i :: 0 <= i < |cs| && key in cs[i] && cs[i][key] == e {
        var i :| 0 <= i < |cs| && key in cs[i] && cs[i][key] == e;
        if i < |init| {
          assert init[i] == cs[i];
        }
      }
    }
  }

  /** normalizedBookings: for each record, push each entry it files onto the
      list of its date. The record's dates are visited in any order: it
      files at most one entry per date, so the order does not change any
      list. */
  method Normalize(page: Page, today: string, ss: seq<Seminar>) returns (idx: Index)
    ensures forall key :: Get(idx, key) == Column(Filings(page, today, ss), key)
  {
    ghost var cs := Filings(page, today, ss);
    idx := map[];
    var i := 0;
    while i < |ss|
      invariant 0 <= i <= |ss|
      invariant forall key :: Get(idx, key) == Column(cs[..i], key)
    {
      var c := Contribution(page, today, ss[i]);
      idx := FileAll(idx, c);
      assert cs[..i + 1][..i] == cs[..i];
      i := i + 1;
    }
    assert cs[..|ss|] == cs;
  }

  /** One record's forEach body: push each of its entries onto the list of
      its date, the dates visited in any order. */
  method FileAll(idx0: Index, c: map<string, Entry>) returns (idx: Index)
    ensures forall key :: Get(idx, key) == Get(idx0, key) + (if key in c then [c[key]] else [])
  {
    idx := idx0;
    var pending := c.Keys;
    while pending != {}
      invariant pending <= c.Keys
      invariant forall key :: Get(idx, key) == Get(idx0, key) + (if key in c && key !in pending then [c[key]] else [])
      decreases |pending|
    {
      var k :| k in pending;
      idx := idx[k := Get(idx, k) + [c[k]]];
      pending := pending - {k};
    }
  }

  // ---------------------------------------------------------------------
  // Queries on a date's list

  /** isDateFullDayBlocked: some entry on the date blocks the whole day and
      belongs to the hall. */
  predicate FullDayBlocked(idx: Index, key: string, hall: string) {
    exists e :: e in Get(idx, key) && IsFullDay(e) && HallMatch(e, hall)
  }

  /** The entries of a list that belong to the hall. */
  function HallEntries(arr: seq<Entry>, hall: string): (r: seq<Entry>)
    ensures forall e :: e in r <==> e in arr && HallMatch(e, hall)
    ensures |r| <= |arr|
  {
    if arr == [] then []
    else (if HallMatch(arr[0], hall) then [arr[0]] else []) + HallEntries(arr[1..], hall)
  }

  datatype DayStatus = Free | Partial | Full

  /** getCalendarDayStatus: with no hall, the whole list; with a hall, its
      entries. Free when there are none, full when one blocks the whole day,
      partial otherwise. */
  function CalendarDayStatus(idx: Index, key: string, hall: string): (r: DayStatus)
    ensures var rel := if hall == "" then Get(idx, key) else HallEntries(Get(idx, key), hall);
            (r == Free <==> rel == [])
            && (r == Full <==> exists e :: e in rel && IsFullDay(e))
  {
    var rel := if hall == "" then Get(idx, key) else HallEntries(Get(idx, key), hall);
    if rel == [] then Free
    else if exists e :: e in rel && IsFullDay(e) then Full
    else Partial
  }

  /** For a chosen hall the calendar shows a day full exactly when the
      full-day test blocks it. */
  lemma StatusFullIffBlocked(idx: Index, key: string, hall: string)
    requires hall != ""
    ensures CalendarDayStatus(idx, key, hall) == Full <==> FullDayBlocked(idx, key, hall)
  {
    var rel := HallEntries(Get(idx, key), hall);
    if FullDayBlocked(idx, key, hall) {
      var e :| e in Get(idx, key) && IsFullDay(e) && HallMatch(e, hall);
      assert e in rel;
    }
  }

  /** On the normalised index, a date is blocked for a hall exactly when
      some record files a whole-day entry for that hall on it. */
  lemma BlockedIffRecordBlocks(page: Page, today: string, ss: seq<Seminar>, idx: Index, key: string, hall: string)
    requires forall k :: Get(idx, k) == Column(Filings(page, today, ss), k)
    ensures FullDayBlocked(idx, key, hall) <==>
              exists i :: 0 <= i < |ss| && key in Contribution(page, today, ss[i])
                          && IsFullDay(Contribution(page, today, ss[i])[key])
                          && HallMatch(Contribution(page, today, ss[i])[key], hall)
  {
    var cs := Filings(page, today, ss);
    if FullDayBlocked(idx, key, hall) {
      var e :| e in Get(idx, key) && IsFullDay(e) && HallMatch(e, hall);
      ColumnMembers(cs, key, e);
      var i :| 0 <= i < |cs| && key in cs[i] && cs[i][key] == e;
      assert key in Contribution(page, today, ss[i]);
    }
    if exists i :: 0 <= i < |ss| && key in Contribution(page, today, ss[i])
                   && IsFullDay(Contribution(page, today, ss[i])[key])
                   && HallMatch(Contribution(page, today, ss[i])[key], hall) {
      var i :| 0 <= i < |ss| && key in Contribution(page, today, ss[i])
               && IsFullDay(Contribution(page, today, ss[i])[key])
               && HallMatch(Contribution(page, today, ss[i])[key], hall);
      ColumnMembers(cs, key, cs[i][key]);
      assert cs[i][key] in Get(idx, key);
    }
  }

  // ---------------------------------------------------------------------
  // What the pages file, stated per record

  /** The admin page files a record on a date exactly when it is approved
      and either its range covers the date, or it is a single-date record
      on that date whose times both read as a number or as NaN, not null. */
  lemma AdminFiles(s: Seminar, key: string)
    ensures key in Contribution(AdminPage, "", s) <==>
              Approved(AdminPage, s) &&
              if Truthy(s.startDate) && Truthy(s.endDate) then
                IsIsoDate(s.startDate.value) && IsIsoDate(s.endDate.value) && IsIsoDate(key)
                && InRange(ParseIsoDate(key).value, ParseIsoDate(s.startDate.value).value, ParseIsoDate(s.endDate.value).value)
              else
                DateKey(if Truthy(s.date) then s.date else s.startDate) == Some(key)
                && HhmmToNumber(s.startTime).Some? && HhmmToNumber(s.endTime).Some?
    ensures key in Contribution(AdminPage, "", s) ==>
              (IsFullDay(Contribution(AdminPage, "", s)[key]) <==>
                 (Truthy(s.startDate) && Truthy(s.endDate))
                 || (HhmmToNumber(s.startTime) == Some(Num(0)) && HhmmToNumber(s.endTime) == Some(Num(1440))))
  {
    if Approved(AdminPage, s) {
      assert Contribution(AdminPage, "", s) == AdminContribution(s);
      if Truthy(s.startDate) && Truthy(s.endDate) {
        if IsIsoDate(s.startDate.value) && IsIsoDate(s.endDate.value) {
          RangeKeysMeaning(ParseIsoDate(s.startDate.value).value, ParseIsoDate(s.endDate.value).value, key);
        }
      }
    }
  }

  /** The department pages file every key of a record's daySlots (when it
      has no plain range), and a record with neither a range nor daySlots
      on exactly one date. */
  lemma DeptFiles(today: string, s: Seminar, key: string)
    requires Approved(DeptPage, s)
    ensures !(Truthy(s.startDate) && Truthy(s.endDate)) && s.daySlots.Some? ==>
              (key in Contribution(DeptPage, today, s) <==> key in s.daySlots.value)
    ensures s.daySlots.Some? && key in s.daySlots.value ==>
              key in Contribution(DeptPage, today, s)
              && (IsFullDay(Contribution(DeptPage, today, s)[key]) <==>
                    s.daySlots.value[key].None?
                    || HhmmToNumber(s.daySlots.value[key].value.startTime).None?
                    || HhmmToNumber(s.daySlots.value[key].value.endTime).None?
                    || (HhmmToNumber(s.daySlots.value[key].value.startTime) == Some(Num(0))
                        && HhmmToNumber(s.daySlots.value[key].value.endTime) == Some(Num(1440))))
    ensures s.daySlots.None? && !(Truthy(s.startDate) && Truthy(s.endDate)) ==>
              Contribution(DeptPage, today, s).Keys == {DeptDateKey(today, s)}
  {
  }

  /** A department record with no usable date is filed under today, as a
      whole day exactly when a time is missing or reads as null. */
  lemma DeptFallsBackToToday(today: string, s: Seminar)
    requires Approved(DeptPage, s) && s.daySlots.None?
    requires !(Truthy(s.startDate) && Truthy(s.endDate))
    requires DateKey(s.date).None? && DateKey(s.startDate).None?
    ensures today in Contribution(DeptPage, today, s)
    ensures Contribution(DeptPage, today, s)[today].kind == DayKind <==>
              !Truthy(s.startTime) || !Truthy(s.endTime)
              || HhmmToNumber(s.startTime).None? || HhmmToNumber(s.endTime).None?
  {
  }

  /** A daySlots value whose times are digit runs without a colon (such
      as "930" to "1030") is filed on the department pages as a time entry
      with NaN bounds: the day is not blocked, and no interval meets the
      entry. */
  lemma ColonlessSlotBlocksNothing(key: string, hall: string, a: string, b: string, s: int, t: int)
    requires a != [] && Numbers.AllDigits(a) && b != [] && Numbers.AllDigits(b)
    ensures var e := SlotEntry(key, Some(DaySlot(Some(a), Some(b))), hall);
            e.kind == TimeKind && e.startMin == NaN && e.endMin == NaN
            && !IsFullDay(e) && !Meets(e, s, t)
  {
    ColonlessReadsNaN(a);
    ColonlessReadsNaN(b);
  }

  // ---------------------------------------------------------------------
  // The search for a free alternative

  /** Candidate k: `first` plus k quarters of an hour. */
  function Cand(first: int, k: nat): int {
    first + 15 * k
  }

  /** A candidate the search looks at: not before `lo`, ending by `hi`. */
  predicate Eligible(first: int, lo: int, hi: int, needed: int, k: nat) {
    lo <= Cand(first, k) && Cand(first, k) + needed <= hi
  }

  /** No entry of the hall meets [c, c + needed). */
  predicate Clear(arr: seq<Entry>, hall: string, c: int, needed: int) {
    forall i :: 0 <= i < |arr| ==> !(HallMatch(arr[i], hall) && Meets(arr[i], c, c + needed))
  }

  /** `r` is the first eligible candidate that is clear, or None when none
      is. */
  ghost predicate IsFirstFree(arr: seq<Entry>, hall: string, first: int, lo: int, hi: int, needed: int, r: Option<int>) {
    (r.Some? ==>
       exists k: nat :: Eligible(first, lo, hi, needed, k) && r.value == Cand(first, k)
                        && Clear(arr, hall, Cand(first, k), needed)
                        && forall j: nat :: j < k && Eligible(first, lo, hi, needed, j) ==>
                                              !Clear(arr, hall, Cand(first, j), needed))
    && (r.None? ==>
          forall k: nat :: Eligible(first, lo, hi, needed, k) ==> !Clear(arr, hall, Cand(first, k), needed))
  }

  /** The answer of the search is determined by its inputs. */
  lemma FirstFreeUnique(arr: seq<Entry>, hall: string, first: int, lo: int, hi: int, needed: int,
                        r1: Option<int>, r2: Option<int>)
    requires IsFirstFree(arr, hall, first, lo, hi, needed, r1)
    requires IsFirstFree(arr, hall, first, lo, hi, needed, r2)
    ensures r1 == r2
  {
    if r1.Some? && r2.Some? {
      var k1: nat :| Eligible(first, lo, hi, needed, k1) && r1.value == Cand(first, k1)
                     && Clear(arr, hall, Cand(first, k1), needed)
                     && forall j: nat :: j < k1 && Eligible(first, lo, hi, needed, j) ==>
                                           !Clear(arr, hall, Cand(first, j), needed);
      var k2: nat :| Eligible(first, lo, hi, needed, k2) && r2.value == Cand(first, k2)
                     && Clear(arr, hall, Cand(first, k2), needed)
                     && forall j: nat :: j < k2 && Eligible(first, lo, hi, needed, j) ==>
                                           !Clear(arr, hall, Cand(first, j), needed);
      assert !(k1 < k2) && !(k2 < k1);
    }
  }

  /** The inner loop: does some entry of the hall meet [s, t)? Stops at the
      first one. */
  method HasConflict(arr: seq<Entry>, hall: string, s: int, t: int) returns (conflict: bool)
    ensures conflict <==> exists i :: 0 <= i < |arr| && HallMatch(arr[i], hall) && Meets(arr[i], s, t)
  {
    conflict := false;
    var i := 0;
    while i < |arr|
      invariant 0 <= i <= |arr|
      invariant forall j :: 0 <= j < i ==> !(HallMatch(arr[j], hall) && Meets(arr[j], s, t))
    {
      if HallMatch(arr[i], hall) && Meets(arr[i], s, t) {
        conflict := true;
        return;
      }
      i := i + 1;
    }
  }

  /** The suggestion loop: step from `first` by 15 minutes while the window
      ends by `hi`, skip candidates before `lo`, stop at the first clear
      one. */
  method FirstFree(arr: seq<Entry>, hall: string, first: int, lo: int, hi: int, needed: int) returns (r: Option<int>)
    ensures IsFirstFree(arr, hall, first, lo, hi, needed, r)
  {
    var cand := first;
    ghost var k: nat := 0;
    while cand <= hi - needed
      invariant cand == Cand(first, k)
      invariant forall j: nat :: j < k && Eligible(first, lo, hi, needed, j) ==> !Clear(arr, hall, Cand(first, j), needed)
      decreases hi - needed - cand
    {
      if cand >= lo {
        var conflict := HasConflict(arr, hall, cand, cand + needed);
        if !conflict {
          r := Some(cand);
          assert Eligible(first, lo, hi, needed, k) && Clear(arr, hall, Cand(first, k), needed);
          return;
        }
        assert !Clear(arr, hall, Cand(first, k), needed);
      }
      cand := cand + 15;
      k := k + 1;
    }
    r := None;
    forall j: nat | Eligible(first, lo, hi, needed, j)
      ensures !Clear(arr, hall, Cand(first, j), needed)
    {
      assert j < k;
    }
  }
}
