// SeminarService: adding, updating and cancel-requesting a booking. Each
// operation reads the repository, validates, checks conflicts and returns
// the record it saves; the store after the save is not modelled.

module SeminarService {

  import opened Wrappers
  import opened Text
  import opened Dates
  import opened Seminars
  import opened Repository
  import opened Shape
  import opened Conflicts
  import opened ConflictRules

  /** Why a save is refused (a RuntimeException in SeminarService), or, for an
      update or a cancel request, that the id is unknown (a `null` result). */
  datatype SaveError =
    | CreatedByNotAdmin
    | BadContact(ContactError)
    | BadShape(ShapeError)
    | Clash(Conflict)
    | UnknownId

  function SeminarId(s: Seminar): Option<string> { s.id }

  /** A client may set createdBy only to "ADMIN" (trimmed, any case). */
  predicate CreatedByAllowed(s: Seminar) {
    s.createdBy.None? || EqualsIgnoreCase("ADMIN", Trim(s.createdBy.value))
  }

  /** An approved booking without a creator is marked as created by ADMIN. */
  function WithCreator(s: Seminar): (r: Seminar)
    ensures r.(createdBy := s.createdBy) == s
    ensures r.createdBy == Some("ADMIN") || r.createdBy == s.createdBy
    ensures NullOrBlank(s.createdBy) && Upper(s.status.GetOr("")) == "APPROVED" ==> r.createdBy == Some("ADMIN")
  {
    if Upper(s.status.GetOr("")) == "APPROVED" && NullOrBlank(s.createdBy) then s.(createdBy := Some("ADMIN"))
    else s
  }

  /** What addSeminar accepts: an allowed creator, valid contact details, a
      well-formed payload and no conflict with the stored bookings. */
  predicate AddAccepted(store: seq<Seminar>, s: Seminar, today: Date) {
    CreatedByAllowed(s) && ContactCheck(s).None?
    && WellShaped(WithCreator(s)) && Admissible(store, WithCreator(s), today)
  }

  /** addSeminar, with the clock's `Instant.now().toString()` as `now`. */
  method AddSeminar(store: seq<Seminar>, s: Seminar, today: Date, now: string) returns (r: Result<Seminar, SaveError>)
    ensures !CreatedByAllowed(s) ==> r == Err(CreatedByNotAdmin)
    ensures CreatedByAllowed(s) && ContactCheck(s).Some? ==> r == Err(BadContact(ContactCheck(s).value))
    ensures r.Ok? <==> AddAccepted(store, s, today)
    ensures r.Ok? ==>
      r.value.appliedAt == (if s.appliedAt.Some? then s.appliedAt else Some(now))
      && r.value.createdBy == WithCreator(s).createdBy
      && r.value.(createdBy := s.createdBy, appliedAt := s.appliedAt) == s
  {
    if !CreatedByAllowed(s) {
      return Err(CreatedByNotAdmin);
    }
    var seminar := WithCreator(s);
    var contact := ContactCheck(seminar);
    if contact.Some? {
      return Err(BadContact(contact.value));
    }
    var shape := ValidateShape(seminar);
    ShapeOutcomeIffWellShaped(seminar, shape);
    if shape.Some? {
      return Err(BadShape(shape.value));
    }
    var clash := CheckConflicts(store, seminar, today);
    OutcomeIffAdmissible(store, seminar, today, clash);
    if clash.Some? {
      return Err(Clash(clash.value));
    }
    if seminar.appliedAt.None? {
      seminar := seminar.(appliedAt := Some(now));
    }
    return Ok(seminar);
  }

  // ---------------------------------------------------------------------
  // updateSeminar

  function Pick<T>(patch: Option<T>, stored: Option<T>): Option<T> {
    if patch.Some? then patch else stored
  }

  /** The patch merge: every non-null field of the patch overwrites the
      stored one, except the id; createdBy is taken trimmed and only when
      not empty after trimming. */
  function Patch(e: Seminar, p: Seminar): (r: Seminar)
    ensures r.id == e.id
  {
    e.(hallName := Pick(p.hallName, e.hallName),
       date := Pick(p.date, e.date),
       startDate := Pick(p.startDate, e.startDate),
       endDate := Pick(p.endDate, e.endDate),
       slot := Pick(p.slot, e.slot),
       slotTitle := Pick(p.slotTitle, e.slotTitle),
       bookingName := Pick(p.bookingName, e.bookingName),
       email := Pick(p.email, e.email),
       department := Pick(p.department, e.department),
       phone := Pick(p.phone, e.phone),
       startTime := Pick(p.startTime, e.startTime),
       endTime := Pick(p.endTime, e.endTime),
       remarks := Pick(p.remarks, e.remarks),
       appliedAt := Pick(p.appliedAt, e.appliedAt),
       status := Pick(p.status, e.status),
       cancellationReason := Pick(p.cancellationReason, e.cancellationReason),
       createdBy := if p.createdBy.Some? && Trim(p.createdBy.value) != "" then Some(Trim(p.createdBy.value)) else e.createdBy,
       daySlots := Pick(p.daySlots, e.daySlots))
  }

  /** The empty patch: every field null. */
  const NoChange := Seminar(None, None, None, None, None, None, None, None, None, None,
                            None, None, None, None, None, None, None, None, None)

  /** A patch with every field null leaves the record as it is. */
  lemma PatchWithNothing(e: Seminar)
    ensures Patch(e, NoChange) == e
  {
  }

  /** Applying the same patch twice is applying it once. */
  lemma PatchIdempotent(e: Seminar, p: Seminar)
    ensures Patch(Patch(e, p), p) == Patch(e, p)
  {
  }

  /** Only the fields the patch names change: a patch that leaves a field
      null leaves that field of the record alone, and a field the patch gives
      replaces the stored one. createdBy is replaced only by a non-blank
      value, trimmed. */
  lemma PatchKeepsUnnamed(e: Seminar, p: Seminar)
    ensures p.hallName.None? ==> Patch(e, p).hallName == e.hallName
    ensures p.hallName.Some? ==> Patch(e, p).hallName == p.hallName
    ensures p.date.None? ==> Patch(e, p).date == e.date
    ensures p.date.Some? ==> Patch(e, p).date == p.date
    ensures p.startDate.None? ==> Patch(e, p).startDate == e.startDate
    ensures p.startDate.Some? ==> Patch(e, p).startDate == p.startDate
    ensures p.endDate.None? ==> Patch(e, p).endDate == e.endDate
    ensures p.endDate.Some? ==> Patch(e, p).endDate == p.endDate
    ensures p.slot.None? ==> Patch(e, p).slot == e.slot
    ensures p.slot.Some? ==> Patch(e, p).slot == p.slot
    ensures p.slotTitle.None? ==> Patch(e, p).slotTitle == e.slotTitle
    ensures p.slotTitle.Some? ==> Patch(e, p).slotTitle == p.slotTitle
    ensures p.bookingName.None? ==> Patch(e, p).bookingName == e.bookingName
    ensures p.bookingName.Some? ==> Patch(e, p).bookingName == p.bookingName
    ensures p.email.None? ==> Patch(e, p).email == e.email
    ensures p.email.Some? ==> Patch(e, p).email == p.email
    ensures p.department.None? ==> Patch(e, p).department == e.department
    ensures p.department.Some? ==> Patch(e, p).department == p.department
    ensures p.phone.None? ==> Patch(e, p).phone == e.phone
    ensures p.phone.Some? ==> Patch(e, p).phone == p.phone
    ensures p.startTime.None? ==> Patch(e, p).startTime == e.startTime
    ensures p.startTime.Some? ==> Patch(e, p).startTime == p.startTime
    ensures p.endTime.None? ==> Patch(e, p).endTime == e.endTime
    ensures p.endTime.Some? ==> Patch(e, p).endTime == p.endTime
    ensures p.remarks.None? ==> Patch(e, p).remarks == e.remarks
    ensures p.remarks.Some? ==> Patch(e, p).remarks == p.remarks
    ensures p.appliedAt.None? ==> Patch(e, p).appliedAt == e.appliedAt
    ensures p.appliedAt.Some? ==> Patch(e, p).appliedAt == p.appliedAt
    ensures p.status.None? ==> Patch(e, p).status == e.status
    ensures p.status.Some? ==> Patch(e, p).status == p.status
    ensures p.cancellationReason.None? ==> Patch(e, p).cancellationReason == e.cancellationReason
    ensures p.cancellationReason.Some? ==> Patch(e, p).cancellationReason == p.cancellationReason
    ensures p.daySlots.None? ==> Patch(e, p).daySlots == e.daySlots
    ensures p.daySlots.Some? ==> Patch(e, p).daySlots == p.daySlots
    ensures p.createdBy.None? ==> Patch(e, p).createdBy == e.createdBy
    ensures p.createdBy.Some? && Trim(p.createdBy.value) == "" ==> Patch(e, p).createdBy == e.createdBy
    ensures p.createdBy.Some? && Trim(p.createdBy.value) != "" ==> Patch(e, p).createdBy == Some(Trim(p.createdBy.value))
  {
  }

  /** Re-sending the stored record as the patch changes nothing, once its
      createdBy is null or already trimmed and non-empty. */
  lemma PatchWithItself(e: Seminar)
    requires e.createdBy.None? || (Trim(e.createdBy.value) == e.createdBy.value && e.createdBy.value != "")
    ensures Patch(e, e) == e
  {
  }

  /** What updateSeminar saves for a stored record: the patch passes the
      creator rule, and the merged record has valid contact details, is well
      formed and conflicts with no other record. */
  predicate UpdateAccepted(store: seq<Seminar>, e: Seminar, id: string, p: Seminar, today: Date) {
    CreatedByAllowed(p) && ContactCheck(Patch(e, p)).None?
    && WellShaped(Patch(e, p)) && Admissible(OthersThan(store, id), Patch(e, p), today)
  }

  /** updateSeminar: an unknown id gives `null` (UnknownId). */
  method UpdateSeminar(store: seq<Seminar>, id: string, p: Seminar, today: Date) returns (r: Result<Seminar, SaveError>)
    ensures IndexOf(store, SeminarId, id).None? <==> r == Err(UnknownId)
    ensures r.Ok? <==>
      IndexOf(store, SeminarId, id).Some?
      && UpdateAccepted(store, store[IndexOf(store, SeminarId, id).value], id, p, today)
    ensures r.Ok? ==> r.value == Patch(store[IndexOf(store, SeminarId, id).value], p)
  {
    var found := IndexOf(store, SeminarId, id);
    if found.None? {
      return Err(UnknownId);
    }
    if !CreatedByAllowed(p) {
      return Err(CreatedByNotAdmin);
    }
    var existing := Patch(store[found.value], p);
    var contact := ContactCheck(existing);
    if contact.Some? {
      return Err(BadContact(contact.value));
    }
    var shape := ValidateShape(existing);
    ShapeOutcomeIffWellShaped(existing, shape);
    if shape.Some? {
      return Err(BadShape(shape.value));
    }
    var clash := CheckConflictsForUpdate(store, existing, id, today);
    OutcomeIffAdmissible(OthersThan(store, id), existing, today, clash);
    if clash.Some? {
      return Err(Clash(clash.value));
    }
    return Ok(existing);
  }

  // ---------------------------------------------------------------------
  // requestCancel

  /** The remarks after a cancel request: the new remarks are appended to
      the old ones, separated by " | " when the old ones are not blank. */
  function CancelRemarks(prior: Option<string>, remarks: Option<string>): (r: Option<string>)
    ensures NullOrBlank(remarks) ==> r == prior
    ensures !NullOrBlank(remarks) ==> r.Some? && EndsWith(r.value, remarks.value)
    ensures !NullOrBlank(remarks) && prior.Some? ==> StartsWith(r.value, prior.value)
    ensures !NullOrBlank(remarks) && NullOrBlank(prior) ==> r.value == prior.GetOr("") + remarks.value
    ensures !NullOrBlank(remarks) && prior.Some? && !IsBlank(prior.value) ==> r.value == prior.value + " | " + remarks.value
  {
    var prev := prior.GetOr("");
    if NullOrBlank(remarks) then prior
    else Some(prev + (if !IsBlank(prev) then " | " else "") + remarks.value)
  }

  /** The stored record after a cancel request. */
  function CancelRequested(e: Seminar, reason: Option<string>, remarks: Option<string>): (r: Seminar)
    ensures r.status == Some("CANCEL_REQUESTED")
    ensures r.cancellationReason == (if NullOrBlank(reason) then e.cancellationReason else reason)
    ensures r.remarks == CancelRemarks(e.remarks, remarks)
    ensures r.(status := e.status, cancellationReason := e.cancellationReason, remarks := e.remarks) == e
  {
    e.(status := Some("CANCEL_REQUESTED"),
       cancellationReason := if NullOrBlank(reason) then e.cancellationReason else reason,
       remarks := CancelRemarks(e.remarks, remarks))
  }

  /** requestCancel: an unknown id gives `null`; otherwise the first stored
      record with that id, cancel-requested. */
  function RequestCancel(store: seq<Seminar>, id: string, reason: Option<string>, remarks: Option<string>): (r: Option<Seminar>)
    ensures r.None? <==> forall k :: 0 <= k < |store| ==> store[k].id != Some(id)
    ensures r.Some? ==> r.value.id == Some(id) && r.value.status == Some("CANCEL_REQUESTED")
    ensures r.Some? ==>
              exists k :: 0 <= k < |store| && store[k].id == Some(id)
                          && (forall j :: 0 <= j < k ==> store[j].id != Some(id))
                          && r.value == CancelRequested(store[k], reason, remarks)
  {
    match IndexOf(store, SeminarId, id)
    case None => None
    case Some(i) => Some(CancelRequested(store[i], reason, remarks))
  }

  /** A repeated request with nothing to add changes nothing more. */
  lemma CancelRequestSettles(e: Seminar, reason: Option<string>, remarks: Option<string>)
    ensures CancelRequested(CancelRequested(e, reason, remarks), None, None) == CancelRequested(e, reason, remarks)
  {
  }
}
