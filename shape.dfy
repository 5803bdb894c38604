// Validation of a booking before the conflict check: contact details
// (validateEmailPhoneOrThrow) and the shape of the payload
// (validatePayloadShapeOrThrow). A booking is time-wise (date with start and
// end time), day-wise (startDate..endDate, optionally with per-day
// daySlots), or a legacy booking naming only a slot label.
module Shape {

  import opened Wrappers
  import opened Text
  import opened Dates
  import opened Times
  import opened Patterns
  import opened Seminars

  datatype ContactError = InvalidEmail | InvalidPhone

  /** validateEmailPhoneOrThrow: `None` when both checks pass. */
  function ContactCheck(s: Seminar): (r: Option<ContactError>)
    ensures r.None? <==> s.email.Some? && MatchesInstitutionEmail(s.email.value)
                         && s.phone.Some? && MatchesPhone(s.phone.value)
    ensures r == Some(InvalidPhone) ==> s.email.Some? && MatchesInstitutionEmail(s.email.value)
  {
    if s.email.None? || !MatchesInstitutionEmail(s.email.value) then Some(InvalidEmail)
    else if s.phone.None? || !MatchesPhone(s.phone.value) then Some(InvalidPhone)
    else None
  }

  datatype ShapeError =
    | DaySlotsWithoutRange   // "daySlots provided without startDate/endDate"
    | NoShape                // "Invalid booking payload. Provide either ..."
    | BadDateFormat          // "Dates must be in YYYY-MM-DD format"
    | BadTimeOrder           // "Invalid time range: endTime must be after startTime"
    | RangeReversed          // "Invalid date range: endDate is before startDate"
    | BadDaySlotKey          // "daySlots key is not a valid date: ..."
    | DaySlotOutsideRange    // "daySlots contains a date outside startDate..endDate: ..."
    | BadDaySlotTimes        // "Invalid time range in daySlots for ..."

  predicate HasTimeShape(s: Seminar) {
    s.date.Some? && s.startTime.Some? && s.endTime.Some?
  }

  predicate PresentDateParses(d: Option<string>) {
    d.None? || IsIsoDate(d.value)
  }

  /** Everything validatePayloadShapeOrThrow checks before it walks the
      daySlots entries, in the order it checks it. */
  function ShapePreCheck(s: Seminar): Option<ShapeError> {
    if s.daySlots.Some? && !HasRange(s) then Some(DaySlotsWithoutRange)
    else if !HasTimeShape(s) && !HasRange(s) && NullOrBlank(s.slot) then Some(NoShape)
    else if !PresentDateParses(s.date) || !PresentDateParses(s.startDate) || !PresentDateParses(s.endDate)
    then Some(BadDateFormat)
    else if HasTimeShape(s) && !IsTimeOrderValid(s.startTime, s.endTime) then Some(BadTimeOrder)
    else if HasRange(s) && Before(ParseIsoDate(s.endDate.value).value, ParseIsoDate(s.startDate.value).value)
    then Some(RangeReversed)
    else None
  }

  /** The checks made on one daySlots entry, in order. */
  function EntryError(key: string, slot: Option<DaySlot>, sd: Date, ed: Date): Option<ShapeError> {
    if !IsIsoDate(key) then Some(BadDaySlotKey)
    else if !InRange(ParseIsoDate(key).value, sd, ed) then Some(DaySlotOutsideRange)
    else if slot.Some? && !IsTimeOrderValid(slot.value.startTime, slot.value.endTime) then Some(BadDaySlotTimes)
    else None
  }

  /** The daySlots entries are walked only for a day-wise booking that got
      through the earlier checks. */
  predicate EntriesWalked(s: Seminar) {
    ShapePreCheck(s).None? && HasRange(s) && s.daySlots.Some?
  }

  function RangeStart(s: Seminar): Date
    requires HasRange(s) && IsIsoDate(s.startDate.value)
  {
    ParseIsoDate(s.startDate.value).value
  }

  function RangeEnd(s: Seminar): Date
    requires HasRange(s) && IsIsoDate(s.endDate.value)
  {
    ParseIsoDate(s.endDate.value).value
  }

  /** The entries are visited in the map's iteration order, which the model
      leaves open: the result is the first failure under some order. */
  predicate IsShapeOutcome(s: Seminar, err: Option<ShapeError>) {
    if ShapePreCheck(s).Some? then err == ShapePreCheck(s)
    else if !EntriesWalked(s) then err.None?
    else
      var m := s.daySlots.value;
      (err.None? <==> forall k :: k in m ==> EntryError(k, m[k], RangeStart(s), RangeEnd(s)).None?)
      && (err.Some? ==> exists k :: k in m && EntryError(k, m[k], RangeStart(s), RangeEnd(s)) == err)
  }

  /** validatePayloadShapeOrThrow */
  method ValidateShape(s: Seminar) returns (err: Option<ShapeError>)
    ensures IsShapeOutcome(s, err)
  {
    err := ShapePreCheck(s);
    if err.Some? || !HasRange(s) || s.daySlots.None? {
      return;
    }
    var m := s.daySlots.value;
    var sd, ed := RangeStart(s), RangeEnd(s);
    var todo := m.Keys;
    while todo != {}
      invariant todo <= m.Keys
      invariant forall k :: k in m.Keys - todo ==> EntryError(k, m[k], sd, ed).None?
      decreases |todo|
    {
      var k :| k in todo;
      var e := EntryError(k, m[k], sd, ed);
      if e.Some? {
        return e;
      }
      todo := todo - {k};
    }
  }

  // ---------------------------------------------------------------------
  // What a validated booking satisfies

  /** The shape rules stated declaratively. */
  predicate WellShaped(s: Seminar) {
    (s.daySlots.Some? ==> HasRange(s))
    && (HasTimeShape(s) || HasRange(s) || !NullOrBlank(s.slot))
    && PresentDateParses(s.date) && PresentDateParses(s.startDate) && PresentDateParses(s.endDate)
    && (HasTimeShape(s) ==> IsTimeOrderValid(s.startTime, s.endTime))
    && (HasRange(s) ==> NotAfter(RangeStart(s), RangeEnd(s)))
    && (HasRange(s) && s.daySlots.Some? ==>
          forall k :: k in s.daySlots.value ==>
            IsIsoDate(k) && InRange(ParseIsoDate(k).value, RangeStart(s), RangeEnd(s))
            && (s.daySlots.value[k].Some? ==>
                  IsTimeOrderValid(s.daySlots.value[k].value.startTime, s.daySlots.value[k].value.endTime)))
  }

  /** Validation passes exactly for well-shaped bookings, whatever order the
      entries are visited in. */
  lemma ShapeOutcomeIffWellShaped(s: Seminar, err: Option<ShapeError>)
    requires IsShapeOutcome(s, err)
    ensures err.None? <==> WellShaped(s)
  {
    if ShapePreCheck(s).None? && HasRange(s) && s.daySlots.Some? {
      var m := s.daySlots.value;
      if err.None? {
        forall k | k in m
          ensures IsIsoDate(k) && InRange(ParseIsoDate(k).value, RangeStart(s), RangeEnd(s))
        {
          assert EntryError(k, m[k], RangeStart(s), RangeEnd(s)).None?;
        }
      }
      if WellShaped(s) {
        forall k | k in m
          ensures EntryError(k, m[k], RangeStart(s), RangeEnd(s)).None?
        {
        }
      }
    }
  }

  /** A daySlots map, even an empty one, needs both range dates. */
  lemma DaySlotsNeedRange(s: Seminar, err: Option<ShapeError>)
    requires IsShapeOutcome(s, err)
    requires s.daySlots.Some? && (s.startDate.None? || s.endDate.None?)
    ensures err == Some(DaySlotsWithoutRange)
  {
  }

  /** Without a time shape or a day shape, only a non-blank slot label is
      accepted. */
  lemma LegacySlotNeedsLabel(s: Seminar, err: Option<ShapeError>)
    requires IsShapeOutcome(s, err)
    requires !HasTimeShape(s) && !HasRange(s)
    ensures err.None? ==> s.slot.Some? && !IsBlank(s.slot.value)
    ensures NullOrBlank(s.slot) ==> err.Some?
  {
  }

  /** A full-day entry (a null slot) inside the range is always accepted. */
  lemma FullDayEntryAccepted(key: string, sd: Date, ed: Date)
    requires IsIsoDate(key) && InRange(ParseIsoDate(key).value, sd, ed)
    ensures EntryError(key, None, sd, ed).None?
  {
  }
}
