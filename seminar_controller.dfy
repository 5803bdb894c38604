// SeminarController: the create endpoint's forced status, the search
// filters and the audit action logged for an update. (The calendar
// endpoint is in MonthSummary.)

module SeminarController {

  import opened Wrappers
  import opened Text
  import opened Dates
  import opened Seminars
  import opened SeminarService

  const DEFAULT_REMARKS := "Waiting for Admin Approval"

  /** POST /api/seminars before the service: the status is always PENDING
      and blank remarks get the default text. */
  function PrepareCreate(s: Seminar): (r: Seminar)
    ensures r.status == Some("PENDING")
    ensures r.remarks == (if NullOrBlank(s.remarks) then Some(DEFAULT_REMARKS) else s.remarks)
    ensures r.(status := s.status, remarks := s.remarks) == s
  {
    s.(status := Some("PENDING"),
       remarks := if NullOrBlank(s.remarks) then Some(DEFAULT_REMARKS) else s.remarks)
  }

  /** createSeminar */
  method CreateSeminar(store: seq<Seminar>, s: Seminar, today: Date, now: string) returns (r: Result<Seminar, SaveError>)
    ensures r.Ok? <==> AddAccepted(store, PrepareCreate(s), today)
    ensures r.Ok? ==> r.value.status == Some("PENDING") && !NullOrBlank(r.value.remarks)
    ensures r.Ok? ==> r.value.createdBy == s.createdBy
  {
    DefaultRemarksNotBlank();
    r := AddSeminar(store, PrepareCreate(s), today, now);
  }

  lemma DefaultRemarksNotBlank()
    ensures !IsBlank(DEFAULT_REMARKS)
  {
    assert !IsJavaWhitespace(DEFAULT_REMARKS[0]);
  }

  // ---------------------------------------------------------------------
  // GET /api/seminars/search

  predicate DepartmentMatches(s: Seminar, department: Option<string>) {
    NullOrBlank(department) || (s.department.Some? && EqualsIgnoreCase(s.department.value, department.value))
  }

  predicate HallMatches(s: Seminar, hall: Option<string>) {
    NullOrBlank(hall) || (s.hallName.Some? && EqualsIgnoreCase(s.hallName.value, hall.value))
  }

  predicate DateMatches(s: Seminar, date: Option<string>) {
    NullOrBlank(date) || s.date == date
  }

  predicate SlotMatches(s: Seminar, slot: Option<string>) {
    NullOrBlank(slot) || (s.slot.Some? && Contains(Lower(s.slot.value), Lower(slot.value)))
  }

  /** search: the four stream filters applied one after another. */
  function Search(all: seq<Seminar>, department: Option<string>, hall: Option<string>,
                  date: Option<string>, slot: Option<string>): (r: seq<Seminar>)
    ensures forall x :: x in r <==>
      x in all && DepartmentMatches(x, department) && HallMatches(x, hall)
      && DateMatches(x, date) && SlotMatches(x, slot)
  {
    var byDepartment := Filter(all, s => DepartmentMatches(s, department));
    var byHall := Filter(byDepartment, s => HallMatches(s, hall));
    var byDate := Filter(byHall, s => DateMatches(s, date));
    Filter(byDate, s => SlotMatches(s, slot))
  }

  /** With every filter null or blank the search returns every seminar, in
      order. */
  lemma {:induction false} SearchWithoutFilters(all: seq<Seminar>, department: Option<string>, hall: Option<string>,
                                                date: Option<string>, slot: Option<string>)
    requires NullOrBlank(department) && NullOrBlank(hall) && NullOrBlank(date) && NullOrBlank(slot)
    ensures Search(all, department, hall, date, slot) == all
  {
    FilterEverything(all, s => DepartmentMatches(s, department));
    FilterEverything(all, s => HallMatches(s, hall));
    FilterEverything(all, s => DateMatches(s, date));
    FilterEverything(all, s => SlotMatches(s, slot));
  }

  lemma {:induction false} FilterEverything(list: seq<Seminar>, p: Seminar -> bool)
    requires forall x :: x in list ==> p(x)
    ensures Filter(list, p) == list
  {
    if list != [] {
      FilterEverything(list[1..], p);
    }
  }

  predicate SearchKeeps(s: Seminar, department: Option<string>, hall: Option<string>,
                        date: Option<string>, slot: Option<string>) {
    DepartmentMatches(s, department) && HallMatches(s, hall) && DateMatches(s, date) && SlotMatches(s, slot)
  }

  /** The search keeps the order of the seminars it returns: it equals one
      filter by the conjunction of the four conditions. */
  lemma {:induction false} SearchIsOneFilter(all: seq<Seminar>, department: Option<string>, hall: Option<string>,
                                             date: Option<string>, slot: Option<string>)
    ensures Search(all, department, hall, date, slot) == Filter(all, s => SearchKeeps(s, department, hall, date, slot))
  {
    if all != [] {
      SearchIsOneFilter(all[1..], department, hall, date, slot);
    }
  }

  // ---------------------------------------------------------------------
  // PUT /api/seminars/{id}: the audit action

  /** A status as the log shows it: upper case, "UNKNOWN" when null. */
  function StatusLabel(status: Option<string>): string {
    if status.None? then "UNKNOWN" else Upper(status.value)
  }

  /** `before` is the stored record (null when absent), `after` the saved one. */
  function AuditAction(before: Option<Seminar>, after: Seminar): (r: string)
    ensures r in {"UPDATE_DETAILS", "UPDATE_STATUS", "APPROVE_SEMINAR", "REJECT_SEMINAR", "CANCEL_SEMINAR"}
  {
    var beforeStatus := if before.None? then "UNKNOWN" else StatusLabel(before.value.status);
    var afterStatus := StatusLabel(after.status);
    if beforeStatus != afterStatus then
      if afterStatus == "APPROVED" then "APPROVE_SEMINAR"
      else if afterStatus == "REJECTED" then "REJECT_SEMINAR"
      else if afterStatus == "CANCELLED" then "CANCEL_SEMINAR"
      else "UPDATE_STATUS"
    else "UPDATE_DETAILS"
  }

  /** A detail update is logged exactly when the status label is unchanged,
      and a status change to APPROVED, REJECTED or CANCELLED gets its own
      action. */
  lemma AuditActionIffStatusChanged(before: Seminar, after: Seminar)
    ensures AuditAction(Some(before), after) == "UPDATE_DETAILS" <==> StatusLabel(before.status) == StatusLabel(after.status)
    ensures StatusLabel(before.status) != StatusLabel(after.status) ==>
      (AuditAction(Some(before), after) == "APPROVE_SEMINAR" <==> StatusLabel(after.status) == "APPROVED")
      && (AuditAction(Some(before), after) == "REJECT_SEMINAR" <==> StatusLabel(after.status) == "REJECTED")
      && (AuditAction(Some(before), after) == "CANCEL_SEMINAR" <==> StatusLabel(after.status) == "CANCELLED")
  {
  }

  /** A patch without a status is always logged as a detail update. */
  lemma PatchWithoutStatusIsDetails(e: Seminar, p: Seminar)
    requires p.status.None?
    ensures AuditAction(Some(e), Patch(e, p)) == "UPDATE_DETAILS"
  {
    PatchKeepsUnnamed(e, p);
  }

  /** A stored null status and a stored "unknown" read the same in the log:
      changing one into the other is logged as a detail update. */
  lemma NullAndUnknownLookAlike(e: Seminar)
    ensures AuditAction(Some(e.(status := None)), e.(status := Some("unknown"))) == "UPDATE_DETAILS"
  {
    assert Upper("unknown") == "UNKNOWN";
  }
}
