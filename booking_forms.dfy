// The availability checks of the web client's add-seminar forms and the
// form state behind them: the time-wise check of one date, the day-wise
// check of a date range (the admin page and the department page share one
// policy, the department form keeps a stricter one), the per-day slots kept
// in step with the chosen range, the daySlots a day-range request sends,
// and the bookings the department page lists for a clicked calendar day.
// The bookings are the index ClientBookings builds; the messages the pages
// show are not modelled, only what they decide.

module BookingForms {

  import opened Wrappers
  import opened Text
  import opened Dates
  import opened Seminars
  import opened ClientTime
  import opened ClientBookings
  import Shape
  import Times

  // ---------------------------------------------------------------------
  // The search window

  /** The first time of the (8, 18) grid, "08:00", in minutes. */
  const DAY_START: int := 480

  /** The last time of the (8, 18) grid, "18:00", plus a quarter of an
      hour: the end of the last slot the grid can start. */
  const DAY_END: int := 1095

  /** The two constants are what the admin page and the department page
      compute from their time grid. */
  lemma SearchWindow()
    ensures HhmmToMinutes(Some(GridSlot(8, 0))) == Some(DAY_START)
    ensures HhmmToMinutes(Some(GridSlot(8, GridLength(8, 18) - 1))) == Some(DAY_END - 15)
  {
    GridSlotReadsBack(8, 0);
    GridSlotReadsBack(8, 40);
  }

  // ---------------------------------------------------------------------
  // Gates

  /** Why a check refuses to look at the bookings at all. */
  datatype Rejection =
    | NoHall          // no hall chosen
    | NoDate          // time-wise: no date
    | NoTimes         // time-wise: a time is missing or empty
    | InvalidTime     // time-wise: a time does not read as HH:MM
    | ReversedTime    // time-wise: the end is not after the start
    | NoDates         // day-wise: a date of the range is missing
    | EndBeforeStart  // day-wise: the range ends before it starts

  /** A time-wise request that got through the gates. */
  datatype TimeRequest = TimeRequest(key: string, start: int, end: int)

  /** The gates of checkTimeWiseAvailability, in the pages' order. */
  function TimeGates(hall: string, date: Option<Date>, st: Option<string>, et: Option<string>): (r: Result<TimeRequest, Rejection>)
    requires date.Some? ==> Valid4(date.value)
    ensures r == Err(NoHall) <==> hall == ""
    ensures r.Ok? <==> hall != "" && date.Some? && HhmmToMinutes(st).Some? && HhmmToMinutes(et).Some?
                       && HhmmToMinutes(st).value < HhmmToMinutes(et).value
    ensures r.Ok? ==> r.value.key == FormatIsoDate(date.value)
                      && HhmmToMinutes(st) == Some(r.value.start) && HhmmToMinutes(et) == Some(r.value.end)
    ensures r.Err? && r.error != NoHall ==> r.error in {NoDate, NoTimes, InvalidTime, ReversedTime}
  {
    if hall == "" then Err(NoHall)
    else if date.None? then Err(NoDate)
    else if !Truthy(st) || !Truthy(et) then Err(NoTimes)
    else
      var s := HhmmToMinutes(st);
      var e := HhmmToMinutes(et);
      if s.None? || e.None? then Err(InvalidTime)
      else if e.value <= s.value then Err(ReversedTime)
      else Ok(TimeRequest(FormatIsoDate(date.value), s.value, e.value))
  }

  /** The gates of checkDayWiseAvailability: on success, the keys of every
      day of the range, in order. */
  function RangeGates(hall: string, sd: Option<Date>, ed: Option<Date>): (r: Result<seq<string>, Rejection>)
    requires sd.Some? ==> Valid4(sd.value)
    requires ed.Some? ==> Valid4(ed.value)
    ensures r.Ok? <==> hall != "" && sd.Some? && ed.Some? && !Before(ed.value, sd.value)
    ensures r.Ok? ==> r.value == RangeKeys(sd.value, ed.value) && r.value != []
    ensures r.Err? ==> r.error in {NoHall, NoDates, EndBeforeStart}
  {
    if hall == "" then Err(NoHall)
    else if sd.None? || ed.None? then Err(NoDates)
    else if Before(ed.value, sd.value) then Err(EndBeforeStart)
    else
      DatesBetweenSpec(sd.value, ed.value);
      assert sd.value in DatesBetween(sd.value, ed.value);
      Ok(RangeKeys(sd.value, ed.value))
  }

  // ---------------------------------------------------------------------
  // The time-wise check

  /** The hall's bookings on the date that meet [s, e), in list order. */
  function Overlapping(arr: seq<Entry>, hall: string, s: int, e: int): (r: seq<Entry>)
    ensures forall b :: b in r <==> b in arr && HallMatch(b, hall) && Meets(b, s, e)
    ensures r == [] <==> Clear(arr, hall, s, e - s)
  {
    if arr == [] then []
    else
      var rest := Overlapping(arr[1..], hall, s, e);
      assert forall i :: 1 <= i < |arr| ==> arr[i] == arr[1..][i - 1];
      (if HallMatch(arr[0], hall) && Meets(arr[0], s, e) then [arr[0]] else []) + rest
  }

  /** Where a page starts looking for an alternative after a time-wise
      conflict: an hour before the requested start (admin page), at the
      first time of the day (department page), or nowhere (department
      form, which only reports the conflict). */
  datatype SuggestFrom = HourBefore | DayStart | NoSuggestion

  function SearchFirst(from: SuggestFrom, start: int): int {
    if from == HourBefore then start - 60 else DAY_START
  }

  datatype TimeVerdict =
    | TimeRejected(reason: Rejection)
    | WholeDayTaken(key: string)
    | TimeConflict(key: string, overlapping: seq<Entry>, suggestion: Option<int>)
    | TimeAvailable(key: string)

  /** checkTimeWiseAvailability: the gates; then a date blocked for the
      whole day; then the hall's bookings that meet the requested interval.
      After a conflict the page searches the day in quarter-hour steps for
      the first window of the same length that meets none of them. */
  method CheckTimeWise(idx: Index, hall: string, date: Option<Date>, st: Option<string>, et: Option<string>,
                       from: SuggestFrom) returns (v: TimeVerdict)
    requires date.Some? ==> Valid4(date.value)
    ensures TimeGates(hall, date, st, et).Err? ==> v == TimeRejected(TimeGates(hall, date, st, et).error)
    ensures TimeGates(hall, date, st, et).Ok? ==>
              var q := TimeGates(hall, date, st, et).value;
              !v.TimeRejected? && v.key == q.key
              && (v.WholeDayTaken? <==> FullDayBlocked(idx, q.key, hall))
              && (v.TimeAvailable? <==> !FullDayBlocked(idx, q.key, hall) && Clear(Get(idx, q.key), hall, q.start, q.end - q.start))
              && (v.TimeConflict? ==> v.overlapping != [] && (from == NoSuggestion ==> v.suggestion == None))
  {
    var gates := TimeGates(hall, date, st, et);
    if gates.Err? {
      return TimeRejected(gates.error);
    }
    v := CheckRequest(idx, hall, gates.value, from);
  }

  /** checkTimeWiseAvailability past its gates. */
  method CheckRequest(idx: Index, hall: string, q: TimeRequest, from: SuggestFrom) returns (v: TimeVerdict)
    ensures !v.TimeRejected? && v.key == q.key
    ensures v.WholeDayTaken? <==> FullDayBlocked(idx, q.key, hall)
    ensures v.TimeAvailable? <==> !FullDayBlocked(idx, q.key, hall) && Clear(Get(idx, q.key), hall, q.start, q.end - q.start)
    ensures v.TimeConflict? ==>
              v.overlapping == Overlapping(Get(idx, q.key), hall, q.start, q.end) && v.overlapping != []
              && (from == NoSuggestion ==> v.suggestion == None)
              && (from != NoSuggestion ==>
                    IsFirstFree(Get(idx, q.key), hall, SearchFirst(from, q.start), DAY_START, DAY_END, q.end - q.start, v.suggestion))
  {
    if FullDayBlocked(idx, q.key, hall) {
      return WholeDayTaken(q.key);
    }
    var arr := Get(idx, q.key);
    var overlapping := Overlapping(arr, hall, q.start, q.end);
    if overlapping == [] {
      return TimeAvailable(q.key);
    }
    var suggestion := None;
    if from != NoSuggestion {
      suggestion := FirstFree(arr, hall, SearchFirst(from, q.start), DAY_START, DAY_END, q.end - q.start);
    }
    v := TimeConflict(q.key, overlapping, suggestion);
  }


  /** On a normalised index, an interval is clear for a hall exactly when
      no record files an entry of that hall on the date that meets it. */
  lemma ClearIffNoFilingMeets(cs: seq<map<string, Entry>>, idx: Index, key: string, hall: string, s: int, e: int)
    requires forall k :: Get(idx, k) == Column(cs, k)
    ensures Clear(Get(idx, key), hall, s, e - s) <==>
              forall i :: 0 <= i < |cs| && key in cs[i] && HallMatch(cs[i][key], hall) ==> !Meets(cs[i][key], s, e)
  {
    var arr := Get(idx, key);
    if Clear(arr, hall, s, e - s) {
      forall i | 0 <= i < |cs| && key in cs[i] && HallMatch(cs[i][key], hall)
        ensures !Meets(cs[i][key], s, e)
      {
        ColumnMembers(cs, key, cs[i][key]);
        var j :| 0 <= j < |arr| && arr[j] == cs[i][key];
      }
    } else {
      var j :| 0 <= j < |arr| && HallMatch(arr[j], hall) && Meets(arr[j], s, s + (e - s));
      ColumnMembers(cs, key, arr[j]);
    }
  }

  // ---------------------------------------------------------------------
  // The form's per-day slots

  /** What the form holds for one day of a range. */
  datatype FormSlot = FormSlot(startTime: Option<string>, endTime: Option<string>)

  type FormSlots = map<string, FormSlot>

  /** `ds && ds.startTime && ds.endTime` */
  predicate Complete(slots: FormSlots, key: string) {
    key in slots && Truthy(slots[key].startTime) && Truthy(slots[key].endTime)
  }

  // ---------------------------------------------------------------------
  // The day-wise check

  /** The two day-wise policies: the admin page and the department page
      share one, the department form has its own. */
  datatype DayPolicy = SharedDays | StrictDays

  /** What a day-wise check reports about one day. */
  datatype Problem =
    | WholeDay      // shared: the day is blocked for the whole day
    | InvalidTimes  // shared: the day's slot does not read, or is reversed
    | SlotTaken     // shared: the day's slot meets a booking of the hall
    | ReverseTime   // strict: the slot's end is not after its start
    | SlotBooked    // strict: the slot meets a booking of the hall
    | AlreadyBooked // strict: no slot, and the hall has a booking that day

  /** `a <= b` in JavaScript with a missing time (null) read as 0. */
  predicate JsNotAfter(a: Option<int>, b: Option<int>) {
    a.GetOr(0) <= b.GetOr(0)
  }

  /** The slot's times as minutes, when the form has a slot. */
  function SlotStart(slots: FormSlots, key: string): Option<int> {
    if key in slots then HhmmToMinutes(slots[key].startTime) else None
  }

  function SlotEnd(slots: FormSlots, key: string): Option<int> {
    if key in slots then HhmmToMinutes(slots[key].endTime) else None
  }

  /** The admin and department pages: a day blocked for the whole day is a
      conflict; a day without a complete slot is otherwise accepted, even
      when the hall has bookings on it; a complete slot is checked by
      SharedSlotProblem. */
  function SharedProblem(idx: Index, hall: string, slots: FormSlots, key: string): Option<Problem> {
    if FullDayBlocked(idx, key, hall) then Some(WholeDay)
    else if !Complete(slots, key) then None
    else SharedSlotProblem(Get(idx, key), hall, SlotStart(slots, key), SlotEnd(slots, key))
  }

  /** A slot must read, be in order and meet no booking of the hall. */
  function SharedSlotProblem(arr: seq<Entry>, hall: string, s: Option<int>, e: Option<int>): Option<Problem> {
    if s.None? || e.None? || e.value <= s.value then Some(InvalidTimes)
    else if Clear(arr, hall, s.value, e.value - s.value) then None
    else Some(SlotTaken)
  }

  /** The department form: a day with a complete slot is checked by
      StrictSlotProblem; a day without one is a conflict as soon as the
      hall has any booking on it. */
  function StrictProblem(idx: Index, hall: string, slots: FormSlots, key: string): Option<Problem> {
    if Complete(slots, key) then StrictSlotProblem(Get(idx, key), hall, SlotStart(slots, key), SlotEnd(slots, key))
    else if exists b :: b in Get(idx, key) && HallMatch(b, hall) then Some(AlreadyBooked)
    else None
  }

  /** A slot whose end, read with null as 0, is not after its start is
      reversed; one whose times read and that meets a booking of the hall
      is booked. */
  function StrictSlotProblem(arr: seq<Entry>, hall: string, s: Option<int>, e: Option<int>): Option<Problem> {
    if JsNotAfter(e, s) then Some(ReverseTime)
    else if s.Some? && e.Some? && !Clear(arr, hall, s.value, e.value - s.value) then Some(SlotBooked)
    else None
  }

  function DayProblem(policy: DayPolicy, idx: Index, hall: string, slots: FormSlots, key: string): Option<Problem> {
    match policy
    case SharedDays => SharedProblem(idx, hall, slots, key)
    case StrictDays => StrictProblem(idx, hall, slots, key)
  }

  /** The days of `keys` that have a problem, in order. */
  function ProblemDays(policy: DayPolicy, idx: Index, hall: string, slots: FormSlots, keys: seq<string>): (r: seq<string>)
    ensures forall k :: k in r ==> k in keys && DayProblem(policy, idx, hall, slots, k).Some?
    ensures forall k :: k in keys && DayProblem(policy, idx, hall, slots, k).Some? ==> k in r
  {
    if keys == [] then []
    else
      var last := keys[|keys| - 1];
      ProblemDays(policy, idx, hall, slots, keys[..|keys| - 1])
      + (if DayProblem(policy, idx, hall, slots, last).Some? then [last] else [])
  }

  /** One conflict of a day-wise check; only the shared policy suggests an
      alternative, and only for a taken slot. */
  datatype DayConflict = DayConflict(key: string, problem: Problem, suggestion: Option<int>)

  function ConflictKeys(cs: seq<DayConflict>): (r: seq<string>)
    ensures |r| == |cs|
  {
    if cs == [] then [] else ConflictKeys(cs[..|cs| - 1]) + [cs[|cs| - 1].key]
  }

  /** A reported conflict names the day's problem; a taken slot carries the
      first window of the slot's length, from the first time of the day,
      that meets no booking of the hall. */
  ghost predicate Explained(policy: DayPolicy, idx: Index, hall: string, slots: FormSlots, c: DayConflict) {
    DayProblem(policy, idx, hall, slots, c.key) == Some(c.problem)
    && (c.problem != SlotTaken ==> c.suggestion == None)
    && (c.problem == SlotTaken ==>
          SlotStart(slots, c.key).Some? && SlotEnd(slots, c.key).Some?
          && IsFirstFree(Get(idx, c.key), hall, DAY_START, DAY_START, DAY_END, Needed(slots, c.key), c.suggestion))
  }

  /** The length of the day's slot, when both its times read. */
  function Needed(slots: FormSlots, key: string): int
    requires SlotStart(slots, key).Some? && SlotEnd(slots, key).Some?
  {
    SlotEnd(slots, key).value - SlotStart(slots, key).value
  }

  datatype RangeVerdict =
    | RangeRejected(reason: Rejection)
    | RangeConflicts(conflicts: seq<DayConflict>)
    | RangeAvailable

  /** One day of the loop of checkDayWiseAvailability. */
  method CheckDay(policy: DayPolicy, idx: Index, hall: string, slots: FormSlots, key: string) returns (c: Option<DayConflict>)
    ensures c.None? <==> DayProblem(policy, idx, hall, slots, key).None?
    ensures c.Some? ==> c.value.key == key && Explained(policy, idx, hall, slots, c.value)
  {
    if policy == SharedDays {
      c := CheckSharedDay(idx, hall, slots, key);
    } else {
      c := CheckStrictDay(idx, hall, slots, key);
    }
  }

  /** The day as the admin page and the department page check it. */
  method CheckSharedDay(idx: Index, hall: string, slots: FormSlots, key: string) returns (c: Option<DayConflict>)
    ensures c.None? <==> SharedProblem(idx, hall, slots, key).None?
    ensures c.Some? ==> c.value.key == key && Explained(SharedDays, idx, hall, slots, c.value)
  {
    var p, found := SharedDayProblem(idx, hall, slots, key);
    if p.None? {
      return None;
    }
    c := Some(DayConflict(key, p.value, found));
  }

  /** The day's problem under the shared policy, with the suggestion for a
      taken slot. */
  method SharedDayProblem(idx: Index, hall: string, slots: FormSlots, key: string) returns (p: Option<Problem>, found: Option<int>)
    ensures p == SharedProblem(idx, hall, slots, key)
    ensures p != Some(SlotTaken) ==> found == None
    ensures p == Some(SlotTaken) ==>
              SlotStart(slots, key).Some? && SlotEnd(slots, key).Some?
              && IsFirstFree(Get(idx, key), hall, DAY_START, DAY_START, DAY_END, Needed(slots, key), found)
  {
    if FullDayBlocked(idx, key, hall) {
      return Some(WholeDay), None;
    }
    if !Complete(slots, key) {
      return None, None;
    }
    p, found := CheckDaySlot(Get(idx, key), hall, slots, key);
  }

  /** A complete slot of the day, read from the form and checked by
      CheckSharedSlot. */
  method CheckDaySlot(arr: seq<Entry>, hall: string, slots: FormSlots, key: string) returns (p: Option<Problem>, found: Option<int>)
    ensures p == SharedSlotProblem(arr, hall, SlotStart(slots, key), SlotEnd(slots, key))
    ensures p != Some(SlotTaken) ==> found == None
    ensures p == Some(SlotTaken) ==>
              SlotStart(slots, key).Some? && SlotEnd(slots, key).Some?
              && IsFirstFree(arr, hall, DAY_START, DAY_START, DAY_END, Needed(slots, key), found)
  {
    var s, e := SlotStart(slots, key), SlotEnd(slots, key);
    p, found := CheckSharedSlot(arr, hall, s, e);
  }

  /** A complete slot under the shared policy; for a taken slot, the search
      for the first free window of its length from the start of the day. */
  method CheckSharedSlot(arr: seq<Entry>, hall: string, s: Option<int>, e: Option<int>) returns (p: Option<Problem>, found: Option<int>)
    ensures p == SharedSlotProblem(arr, hall, s, e)
    ensures p != Some(SlotTaken) ==> found == None
    ensures p == Some(SlotTaken) ==> s.Some? && e.Some? && IsFirstFree(arr, hall, DAY_START, DAY_START, DAY_END, e.value - s.value, found)
  {
    found := None;
    if s.None? || e.None? || e.value <= s.value {
      return Some(InvalidTimes), None;
    }
    var overlap := HasConflict(arr, hall, s.value, e.value);
    ConflictIsNotClear(arr, hall, s.value, e.value);
    if !overlap {
      return None, None;
    }
    found := FirstFree(arr, hall, DAY_START, DAY_START, DAY_END, e.value - s.value);
    p := Some(SlotTaken);
  }

  /** The day as the department form checks it. */
  method CheckStrictDay(idx: Index, hall: string, slots: FormSlots, key: string) returns (c: Option<DayConflict>)
    ensures c.None? <==> StrictProblem(idx, hall, slots, key).None?
    ensures c.Some? ==> c.value.key == key && StrictProblem(idx, hall, slots, key) == Some(c.value.problem)
                        && c.value.problem != SlotTaken && c.value.suggestion == None
  {
    var arr := Get(idx, key);
    var hasAnyBooking := exists b :: b in arr && HallMatch(b, hall);
    if Complete(slots, key) {
      var p := CheckStrictSlot(arr, hall, SlotStart(slots, key), SlotEnd(slots, key));
      c := if p.None? then None else Some(DayConflict(key, p.value, None));
    } else if hasAnyBooking {
      c := Some(DayConflict(key, AlreadyBooked, None));
    } else {
      c := None;
    }
  }

  /** A complete slot under the strict policy. */
  method CheckStrictSlot(arr: seq<Entry>, hall: string, s: Option<int>, e: Option<int>) returns (p: Option<Problem>)
    ensures p == StrictSlotProblem(arr, hall, s, e)
    ensures p.Some? ==> p.value in {ReverseTime, SlotBooked}
  {
    if JsNotAfter(e, s) {
      return Some(ReverseTime);
    }
    if s.Some? && e.Some? {
      var overlap := HasConflict(arr, hall, s.value, e.value);
      ConflictIsNotClear(arr, hall, s.value, e.value);
      if overlap {
        return Some(SlotBooked);
      }
    }
    p := None;
  }

  /** What the inner loop finds, read as the search's clearance test. */
  lemma ConflictIsNotClear(arr: seq<Entry>, hall: string, s: int, e: int)
    ensures (exists i :: 0 <= i < |arr| && HallMatch(arr[i], hall) && Meets(arr[i], s, e)) <==> !Clear(arr, hall, s, e - s)
  {
    assert s + (e - s) == e;
  }

  /** checkDayWiseAvailability: the gates, then every day of the range in
      order; the range is available when no day has a problem, and
      otherwise every day with a problem is reported, in order. */
  method CheckDayWise(policy: DayPolicy, idx: Index, hall: string, sd: Option<Date>, ed: Option<Date>, slots: FormSlots)
    returns (v: RangeVerdict)
    requires sd.Some? ==> Valid4(sd.value)
    requires ed.Some? ==> Valid4(ed.value)
    ensures RangeGates(hall, sd, ed).Err? ==> v == RangeRejected(RangeGates(hall, sd, ed).error)
    ensures RangeGates(hall, sd, ed).Ok? ==>
              var keys := RangeGates(hall, sd, ed).value;
              !v.RangeRejected?
              && (v.RangeAvailable? <==> forall k :: k in keys ==> DayProblem(policy, idx, hall, slots, k).None?)
              && (v.RangeConflicts? ==>
                    ConflictKeys(v.conflicts) == ProblemDays(policy, idx, hall, slots, keys) && v.conflicts != []
                    && forall j :: 0 <= j < |v.conflicts| ==> Explained(policy, idx, hall, slots, v.conflicts[j]))
  {
    var gates := RangeGates(hall, sd, ed);
    if gates.Err? {
      return RangeRejected(gates.error);
    }
    var days := ListDatesBetween(sd.value, ed.value);
    DatesBetweenValid4(sd.value, ed.value);
    var keys := DateKeys(days);
    assert keys == gates.value;
    var conflicts := CheckDays(policy, idx, hall, slots, keys);
    ProblemDaysEmpty(policy, idx, hall, slots, keys);
    if conflicts == [] {
      v := RangeAvailable;
    } else {
      v := RangeConflicts(conflicts);
    }
  }

  /** The loop over the days of the range. */
  method CheckDays(policy: DayPolicy, idx: Index, hall: string, slots: FormSlots, keys: seq<string>)
    returns (conflicts: seq<DayConflict>)
    ensures ConflictKeys(conflicts) == ProblemDays(policy, idx, hall, slots, keys)
    ensures forall j :: 0 <= j < |conflicts| ==> Explained(policy, idx, hall, slots, conflicts[j])
  {
    conflicts := [];
    var i := 0;
    while i < |keys|
      invariant 0 <= i <= |keys|
      invariant ConflictKeys(conflicts) == ProblemDays(policy, idx, hall, slots, keys[..i])
      invariant forall j :: 0 <= j < |conflicts| ==> Explained(policy, idx, hall, slots, conflicts[j])
    {
      conflicts := CheckNextDay(policy, idx, hall, slots, keys, i, conflicts);
      i := i + 1;
    }
    assert keys[..i] == keys;
  }

  /** One turn of the loop: day `i` is checked and its conflict, if any,
      appended. */
  method CheckNextDay(policy: DayPolicy, idx: Index, hall: string, slots: FormSlots, keys: seq<string>, i: int,
                      conflicts: seq<DayConflict>) returns (next: seq<DayConflict>)
    requires 0 <= i < |keys|
    requires ConflictKeys(conflicts) == ProblemDays(policy, idx, hall, slots, keys[..i])
    requires forall j :: 0 <= j < |conflicts| ==> Explained(policy, idx, hall, slots, conflicts[j])
    ensures ConflictKeys(next) == ProblemDays(policy, idx, hall, slots, keys[..i + 1])
    ensures forall j :: 0 <= j < |next| ==> Explained(policy, idx, hall, slots, next[j])
  {
    var c := CheckDay(policy, idx, hall, slots, keys[i]);
    ProblemDaysSnoc(policy, idx, hall, slots, keys, i);
    next := conflicts;
    if c.Some? {
      ConflictSnoc(policy, idx, hall, slots, conflicts, c.value);
      next := conflicts + [c.value];
    }
  }

  lemma ProblemDaysSnoc(policy: DayPolicy, idx: Index, hall: string, slots: FormSlots, keys: seq<string>, i: int)
    requires 0 <= i < |keys|
    ensures ProblemDays(policy, idx, hall, slots, keys[..i + 1]) ==
              ProblemDays(policy, idx, hall, slots, keys[..i])
              + (if DayProblem(policy, idx, hall, slots, keys[i]).Some? then [keys[i]] else [])
  {
    assert keys[..i + 1][..i] == keys[..i];
  }

  /** No day has a problem exactly when the list of days with one is
      empty. */
  lemma ProblemDaysEmpty(policy: DayPolicy, idx: Index, hall: string, slots: FormSlots, keys: seq<string>)
    ensures ProblemDays(policy, idx, hall, slots, keys) == [] <==>
              forall k :: k in keys ==> DayProblem(policy, idx, hall, slots, k).None?
  {
    var r := ProblemDays(policy, idx, hall, slots, keys);
    if r != [] {
      assert r[0] in r;
    }
  }

  lemma ConflictSnoc(policy: DayPolicy, idx: Index, hall: string, slots: FormSlots, cs: seq<DayConflict>, c: DayConflict)
    requires forall j :: 0 <= j < |cs| ==> Explained(policy, idx, hall, slots, cs[j])
    requires Explained(policy, idx, hall, slots, c)
    ensures forall j :: 0 <= j < |cs + [c]| ==> Explained(policy, idx, hall, slots, (cs + [c])[j])
    ensures ConflictKeys(cs + [c]) == ConflictKeys(cs) + [c.key]
  {
    assert (cs + [c])[..|cs|] == cs;
  }

  /** The day-wise and the time-wise checks of the shared policy agree: a
      day with a complete slot passes exactly when checking its slot
      time-wise on that date would find it available. */
  lemma DayAgreesWithTimeCheck(idx: Index, hall: string, slots: FormSlots, d: Date)
    requires Valid4(d) && hall != ""
    requires Complete(slots, FormatIsoDate(d))
    ensures var key := FormatIsoDate(d);
            var q := TimeGates(hall, Some(d), slots[key].startTime, slots[key].endTime);
            SharedProblem(idx, hall, slots, key).None? <==>
              q.Ok? && !FullDayBlocked(idx, key, hall) && Clear(Get(idx, key), hall, q.value.start, q.value.end - q.value.start)
  {
  }

  /** Under the shared policy a day without a complete slot is accepted
      unless it is blocked for the whole day; under the strict policy it is
      accepted only when the hall has no booking at all that day. */
  lemma SlotlessDays(idx: Index, hall: string, slots: FormSlots, key: string)
    requires !Complete(slots, key)
    ensures SharedProblem(idx, hall, slots, key).None? <==> !FullDayBlocked(idx, key, hall)
    ensures StrictProblem(idx, hall, slots, key).None? <==> forall b :: b in Get(idx, key) ==> !HallMatch(b, hall)
  {
  }

  /** Whole-day entries cover the day: [0, 1440). */
  predicate WholeDaysSpanDay(arr: seq<Entry>) {
    forall i :: 0 <= i < |arr| && IsFullDay(arr[i]) ==> arr[i].startMin == Num(0) && arr[i].endMin == Num(1440)
  }

  /** Where whole-day entries cover the day and every complete slot reads
      as an interval inside the day, the strict policy finds a problem on
      every day the shared one does. */
  lemma StrictAtLeastAsStrict(idx: Index, hall: string, slots: FormSlots, key: string)
    requires WholeDaysSpanDay(Get(idx, key))
    requires Complete(slots, key) ==>
               SlotStart(slots, key).Some? && SlotEnd(slots, key).Some?
               && 0 <= SlotStart(slots, key).value < SlotEnd(slots, key).value <= 1440
    requires SharedProblem(idx, hall, slots, key).Some?
    ensures StrictProblem(idx, hall, slots, key).Some?
  {
    var arr := Get(idx, key);
    if FullDayBlocked(idx, key, hall) {
      var b :| b in arr && IsFullDay(b) && HallMatch(b, hall);
      var i :| 0 <= i < |arr| && arr[i] == b;
      if Complete(slots, key) {
        var s, e := SlotStart(slots, key).value, SlotEnd(slots, key).value;
        assert Meets(arr[i], s, s + (e - s));
      }
    }
  }

  /** The converse fails: a slotless day with a partial booking of the hall
      passes the shared policy and fails the strict one. */
  lemma PartialBookingSplitsPolicies(key: string, hall: string)
    ensures var idx := map[key := [Entry(key, Num(540), Num(600), hall, "", TimeKind)]];
            SharedProblem(idx, hall, map[], key).None?
            && StrictProblem(idx, hall, map[], key) == Some(AlreadyBooked)
  {
    var idx := map[key := [Entry(key, Num(540), Num(600), hall, "", TimeKind)]];
    assert Get(idx, key)[0] in Get(idx, key);
  }

  // ---------------------------------------------------------------------
  // Keeping the slots in step with the range

  /** The slot a day new to the range starts with on the admin page and the
      department page: TIME_OPTIONS[4] to TIME_OPTIONS[8]. */
  function DefaultSlot(): FormSlot {
    FormSlot(Some(GridSlot(8, 4)), Some(GridSlot(8, 8)))
  }

  /** That default is 09:00 to 10:00. */
  lemma DefaultIsNineToTen()
    ensures DefaultSlot().startTime == Some(Slot(9, 0)) && DefaultSlot().endTime == Some(Slot(10, 0))
    ensures HhmmToMinutes(DefaultSlot().startTime) == Some(QuarterTime(8, 4))
    ensures HhmmToMinutes(DefaultSlot().endTime) == Some(QuarterTime(8, 8))
  {
    GridSlotReadsBack(8, 4);
    GridSlotReadsBack(8, 8);
  }

  /** The slots after a sync with the range `keys`: the days of the range
      that had a slot keep it; with `fill`, the others get the default;
      days outside the range are dropped. */
  function Synced(prev: FormSlots, keys: seq<string>, fill: bool): FormSlots {
    map k | k in keys && (fill || k in prev) :: if k in prev then prev[k] else DefaultSlot()
  }

  /** The daySlots sync effect. The admin page and the department page
      fill (`fill`), the department form only drops. */
  method SyncDaySlots(prev: FormSlots, sd: Option<Date>, ed: Option<Date>, fill: bool) returns (next: FormSlots)
    requires sd.Some? ==> Valid4(sd.value)
    requires ed.Some? ==> Valid4(ed.value)
    ensures sd.None? || ed.None? || Before(ed.value, sd.value) ==> next == prev
    ensures sd.Some? && ed.Some? && !Before(ed.value, sd.value) ==>
              next == Synced(prev, RangeKeys(sd.value, ed.value), fill)
  {
    if sd.None? || ed.None? || Before(ed.value, sd.value) {
      return prev;
    }
    var days := ListDatesBetween(sd.value, ed.value);
    DatesBetweenValid4(sd.value, ed.value);
    var keys := DateKeys(days);
    var filled := prev;
    if fill {
      filled := FillRange(prev, keys);
    }
    next := DropOutside(filled, keys);
    SyncedAssembled(prev, keys, fill, filled, next);
  }

  /** The first loop: every day of the range without a slot gets the
      default. */
  method FillRange(prev: FormSlots, keys: seq<string>) returns (next: FormSlots)
    ensures forall k :: k in next <==> k in prev || k in keys
    ensures forall k :: k in next ==> next[k] == if k in prev then prev[k] else DefaultSlot()
  {
    next := prev;
    var i := 0;
    while i < |keys|
      invariant 0 <= i <= |keys|
      invariant forall k :: k in next <==> k in prev || k in keys[..i]
      invariant forall k :: k in next ==> next[k] == if k in prev then prev[k] else DefaultSlot()
    {
      if keys[i] !in next {
        next := next[keys[i] := DefaultSlot()];
      }
      assert keys[..i + 1] == keys[..i] + [keys[i]];
      i := i + 1;
    }
    assert keys[..i] == keys;
  }

  /** The second loop: every day outside the range is deleted. */
  method DropOutside(full: FormSlots, keys: seq<string>) returns (next: FormSlots)
    ensures forall k :: k in next <==> k in full && k in keys
    ensures forall k :: k in next ==> next[k] == full[k]
  {
    next := full;
    var pending := next.Keys;
    while pending != {}
      invariant pending <= full.Keys
      invariant forall k :: k in next <==> k in full && (k in pending || k in keys)
      invariant forall k :: k in next ==> next[k] == full[k]
      decreases |pending|
    {
      var k :| k in pending;
      if k !in keys {
        next := next - {k};
      }
      pending := pending - {k};
    }
  }

  lemma SyncedAssembled(prev: FormSlots, keys: seq<string>, fill: bool, filled: FormSlots, next: FormSlots)
    requires fill ==> (forall k :: k in filled <==> k in prev || k in keys)
                      && forall k :: k in filled ==> filled[k] == if k in prev then prev[k] else DefaultSlot()
    requires !fill ==> filled == prev
    requires forall k :: k in next <==> k in filled && k in keys
    requires forall k :: k in next ==> next[k] == filled[k]
    ensures next == Synced(prev, keys, fill)
  {
    assert forall k :: k in next <==> k in Synced(prev, keys, fill);
  }

  /** Syncing twice with the same range changes nothing more. */
  lemma SyncedIdempotent(prev: FormSlots, keys: seq<string>, fill: bool)
    ensures Synced(Synced(prev, keys, fill), keys, fill) == Synced(prev, keys, fill)
  {
    var once := Synced(prev, keys, fill);
    assert forall k :: k in Synced(once, keys, fill) <==> k in once;
  }

  /** A day of the range the user gave a slot keeps it; with filling,
      every day of the range has a slot afterwards, and without it none is
      added. */
  lemma SyncedKeepsSlots(prev: FormSlots, keys: seq<string>, fill: bool)
    ensures forall k :: k in prev && k in keys ==> k in Synced(prev, keys, fill) && Synced(prev, keys, fill)[k] == prev[k]
    ensures fill ==> forall k :: k in keys <==> k in Synced(prev, keys, fill)
    ensures !fill ==> forall k :: k in Synced(prev, keys, fill) <==> k in prev && k in keys
  {
  }

  // ---------------------------------------------------------------------
  // The daySlots of a day-range request

  /** The daySlots the department pages send: every day of the range; a
      day with a complete slot sends its two times, any other day `null`,
      a whole-day booking. */
  method PayloadDaySlots(slots: FormSlots, sd: Date, ed: Date) returns (out: DaySlots)
    requires Valid4(sd) && Valid4(ed)
    ensures forall k :: k in out <==> k in RangeKeys(sd, ed)
    ensures forall k :: k in out ==> (out[k].Some? <==> Complete(slots, k))
    ensures forall k :: k in out && Complete(slots, k) ==> out[k] == Some(DaySlot(slots[k].startTime, slots[k].endTime))
  {
    var days := ListDatesBetween(sd, ed);
    DatesBetweenValid4(sd, ed);
    var keys := DateKeys(days);
    out := SlotsForDays(slots, keys);
  }

  /** The loop over the days: a complete slot, or null. */
  method SlotsForDays(slots: FormSlots, keys: seq<string>) returns (out: DaySlots)
    ensures forall k :: k in out <==> k in keys
    ensures forall k :: k in out ==> (out[k].Some? <==> Complete(slots, k))
    ensures forall k :: k in out && Complete(slots, k) ==> out[k] == Some(DaySlot(slots[k].startTime, slots[k].endTime))
  {
    out := map[];
    var i := 0;
    while i < |keys|
      invariant 0 <= i <= |keys|
      invariant forall k :: k in out <==> k in keys[..i]
      invariant forall k :: k in out ==> (out[k].Some? <==> Complete(slots, k))
      invariant forall k :: k in out && Complete(slots, k) ==> out[k] == Some(DaySlot(slots[k].startTime, slots[k].endTime))
    {
      var key := keys[i];
      if Complete(slots, key) {
        out := out[key := Some(DaySlot(slots[key].startTime, slots[key].endTime))];
      } else {
        out := out[key := None];
      }
      assert keys[..i + 1] == keys[..i] + [key];
      i := i + 1;
    }
    assert keys[..i] == keys;
  }

  /** Every key of the daySlots sent lies in the request's range, so the
      server refuses an entry only for its times, and never refuses a
      whole-day one. */
  lemma PayloadWithinRange(slots: FormSlots, sd: Date, ed: Date, out: DaySlots, k: string)
    requires Valid4(sd) && Valid4(ed)
    requires forall k :: k in out <==> k in RangeKeys(sd, ed)
    requires k in out
    ensures IsIsoDate(k) && InRange(ParseIsoDate(k).value, sd, ed)
    ensures Shape.EntryError(k, out[k], sd, ed).Some? <==>
              out[k].Some? && !Times.IsTimeOrderValid(out[k].value.startTime, out[k].value.endTime)
  {
    RangeKeysMeaning(sd, ed, k);
  }

  // ---------------------------------------------------------------------
  // The bookings listed for a clicked calendar day

  /** The text before the first `sep`: a prefix of `s` that is all of `s`
      or is followed by `sep`. */
  lemma {:induction false} FirstPiece(s: string, sep: char)
    ensures var p := SplitAll(s, sep)[0];
            |p| <= |s| && p == s[..|p|] && (|p| == |s| || s[|p|] == sep)
    decreases |s|
  {
    if s != [] && s[0] != sep {
      FirstPiece(s[1..], sep);
    }
  }

  /** extractIsoDate: the first of date, startDate and appliedAt that is
      not null (an empty text counts), cut at its first "T"; none when that
      text is empty or all three are null. */
  function ExtractIsoDate(s: Seminar): (r: Option<string>)
    ensures var raw := if s.date.Some? then s.date else if s.startDate.Some? then s.startDate else s.appliedAt;
            (r.None? <==> !Truthy(raw))
            && (r.Some? ==> !ContainsChar(r.value, 'T') && |r.value| <= |raw.value| && r.value == raw.value[..|r.value|]
                            && (|r.value| == |raw.value| || raw.value[|r.value|] == 'T'))
  {
    var raw := if s.date.Some? then s.date else if s.startDate.Some? then s.startDate else s.appliedAt;
    if !Truthy(raw) then None
    else
      FirstPiece(raw.value, 'T');
      Some(SplitAll(raw.value, 'T')[0])
  }

  /** The filter of the department page's day click: an approved or
      pending booking (no status counts as approved) whose date is the
      clicked day, in the chosen hall when there is one. */
  predicate ListedOnDay(s: Seminar, clickedKey: string, hall: string) {
    var status := Upper(if Truthy(s.status) then s.status.value else "APPROVED");
    (status == "APPROVED" || status == "PENDING")
    && ExtractIsoDate(s).Some? && ExtractIsoDate(s).value == clickedKey
    && (hall != "" ==> Truthy(s.hallName) && s.hallName.value == hall)
  }

  function DayList(ss: seq<Seminar>, clickedKey: string, hall: string): (r: seq<Seminar>)
    ensures forall s :: s in r <==> s in ss && ListedOnDay(s, clickedKey, hall)
  {
    Filter(ss, s => ListedOnDay(s, clickedKey, hall))
  }

  /** A booking made for a single ISO date is listed on that day, and only
      on that day. */
  lemma DatedBookingListedOnItsDay(s: Seminar, k: string, clickedKey: string)
    requires s.date == Some(k) && IsoShape(k)
    requires !Truthy(s.status) || Upper(s.status.value) == "APPROVED" || Upper(s.status.value) == "PENDING"
    ensures ListedOnDay(s, clickedKey, "") <==> clickedKey == k
  {
    ApprovedIsUpper("APPROVED");
    FirstPiece(k, 'T');
    var p := SplitAll(k, 'T')[0];
    assert !ContainsChar(k, 'T') by {
      forall i | 0 <= i < |k| ensures k[i] != 'T' {
        assert IsDigit(k[i]) || k[i] == '-';
      }
    }
    assert p == k;
  }

  lemma ApprovedIsUpper(s: string)
    requires s == "APPROVED"
    ensures Upper(s) == s
  {
    forall i | 0 <= i < |s| ensures UpperChar(s[i]) == s[i] {
      assert IsAsciiUpper(s[i]);
    }
  }
}
