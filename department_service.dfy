// DepartmentService: departments with names unique up to case, and a
// department's month calendar of seminars by date.

module DepartmentService {

  import opened Wrappers
  import opened Text
  import opened Dates
  import opened Seminars
  import opened Repository
  import opened MonthSummary

  datatype Department = Department(id: Option<string>, name: Option<string>)

  function IdOf(d: Department): Option<string> { d.id }

  /** `existsByNameIgnoreCase(name)` */
  predicate NameTaken(store: seq<Department>, name: string) {
    exists i :: 0 <= i < |store| && store[i].name.Some? && EqualsIgnoreCase(store[i].name.value, name)
  }

  /** No two departments share a name, ignoring case: what the add and
      update rules keep. */
  predicate NamesDistinct(store: seq<Department>) {
    forall i, j :: 0 <= i < j < |store| && store[i].name.Some? && store[j].name.Some? ==>
      !EqualsIgnoreCase(store[i].name.value, store[j].name.value)
  }

  /** `name == null || name.trim().isEmpty()` */
  predicate BlankName(name: Option<string>) {
    name.None? || Trim(name.value) == ""
  }

  /** addDepartment: BAD_REQUEST for a blank name, CONFLICT for a name
      taken up to case, and otherwise the department is saved. */
  function AddDepartment(store: seq<Department>, d: Department): (r: Result<seq<Department>, HttpError>)
    ensures BlankName(d.name) ==> r == Err(BadRequest)
    ensures !BlankName(d.name) && NameTaken(store, d.name.value) ==> r == Err(Conflict)
    ensures r.Ok? <==> !BlankName(d.name) && !NameTaken(store, d.name.value)
    ensures r.Ok? ==> r.value == store + [d]
  {
    if BlankName(d.name) then Err(BadRequest)
    else if NameTaken(store, d.name.value) then Err(Conflict)
    else Ok(store + [d])
  }

  lemma AddKeepsNamesDistinct(store: seq<Department>, d: Department)
    requires NamesDistinct(store)
    requires AddDepartment(store, d).Ok?
    ensures NamesDistinct(AddDepartment(store, d).value)
  {
    var r := store + [d];
    forall i, j | 0 <= i < j < |r| && r[i].name.Some? && r[j].name.Some?
      ensures !EqualsIgnoreCase(r[i].name.value, r[j].name.value)
    {
      if j == |store| {
        assert r[i] == store[i];
      }
    }
  }

  /** updateDepartment: the name is checked first, then whether any
      department (this one included) has the new name, then the id. A taken
      name is a CONFLICT unless the department's own current name equals it up
      to case (a null current name then fails with a null-dereference exception). */
  function UpdateDepartment(store: seq<Department>, id: string, updated: Department): (r: Result<seq<Department>, HttpError>)
    ensures BlankName(updated.name) ==> r == Err(BadRequest)
    ensures !BlankName(updated.name) && IndexOf(store, IdOf, id).None? ==> r == Err(NotFound)
    ensures r == Err(Conflict) <==>
      !BlankName(updated.name) && IndexOf(store, IdOf, id).Some?
      && NameTaken(store, updated.name.value)
      && var cur := store[IndexOf(store, IdOf, id).value].name;
         cur.Some? && !EqualsIgnoreCase(cur.value, updated.name.value)
    ensures r.Ok? ==>
      var i := IndexOf(store, IdOf, id).value;
      r.value == store[i := store[i].(name := updated.name)]
  {
    if BlankName(updated.name) then Err(BadRequest)
    else
      var nameExists := NameTaken(store, updated.name.value);
      match IndexOf(store, IdOf, id)
      case None => Err(NotFound)
      case Some(i) =>
        var d := store[i];
        if nameExists && d.name.None? then Err(ServerError)
        else if nameExists && !EqualsIgnoreCase(d.name.value, updated.name.value) then Err(Conflict)
        else Ok(store[i := d.(name := updated.name)])
  }

  /** Renaming a department to its own name in another case is allowed. */
  lemma CaseOnlyRenameAllowed(store: seq<Department>, id: string, updated: Department)
    requires !BlankName(updated.name)
    requires IndexOf(store, IdOf, id).Some?
    requires var cur := store[IndexOf(store, IdOf, id).value].name;
             cur.Some? && EqualsIgnoreCase(cur.value, updated.name.value)
    ensures UpdateDepartment(store, id, updated).Ok?
  {
  }

  lemma UpdateKeepsNamesDistinct(store: seq<Department>, id: string, updated: Department)
    requires NamesDistinct(store)
    requires UpdateDepartment(store, id, updated).Ok?
    ensures NamesDistinct(UpdateDepartment(store, id, updated).value)
  {
    var i := IndexOf(store, IdOf, id).value;
    var r := UpdateDepartment(store, id, updated).value;
    var n := updated.name.value;
    forall a, b | 0 <= a < b < |r| && r[a].name.Some? && r[b].name.Some?
      ensures !EqualsIgnoreCase(r[a].name.value, r[b].name.value)
    {
      if a == i || b == i {
        var other := if a == i then b else a;
        NotTakenTwice(store, i, other, n);
      }
    }
  }

  /** Under distinct names, a name taken by the department at `i` (up to
      case) is not also taken by another one. */
  lemma NotTakenTwice(store: seq<Department>, i: int, other: int, n: string)
    requires NamesDistinct(store)
    requires 0 <= i < |store| && 0 <= other < |store| && i != other
    requires store[other].name.Some?
    requires NameTaken(store, n) ==> store[i].name.Some? && EqualsIgnoreCase(store[i].name.value, n)
    ensures !EqualsIgnoreCase(store[other].name.value, n)
  {
    if other < i && store[i].name.Some? {
      assert !EqualsIgnoreCase(store[other].name.value, store[i].name.value);
    } else if store[i].name.Some? {
      assert !EqualsIgnoreCase(store[i].name.value, store[other].name.value);
    }
  }

  /** deleteDepartment: NOT_FOUND unless a department has the id. */
  function DeleteDepartment(store: seq<Department>, id: string): (r: Result<seq<Department>, HttpError>)
    ensures r == Err(NotFound) <==> forall k :: 0 <= k < |store| ==> store[k].id != Some(id)
    ensures r.Ok? ==> |r.value| == |store| - 1
  {
    match IndexOf(store, IdOf, id)
    case None => Err(NotFound)
    case Some(i) => Ok(RemoveAt(store, i))
  }

  /** With unique ids, a delete leaves no department with the id and keeps
      every other one. */
  lemma DeleteRemovesOnlyThatId(store: seq<Department>, id: string)
    requires IdsUnique(store, IdOf)
    requires DeleteDepartment(store, id).Ok?
    ensures forall x :: x in DeleteDepartment(store, id).value ==> x.id != Some(id)
    ensures forall x :: x in store && x.id != Some(id) ==> x in DeleteDepartment(store, id).value
  {
    RemoveById(store, IdOf, id, IndexOf(store, IdOf, id).value);
  }

  // ---------------------------------------------------------------------
  // getDepartmentCalendar

  /** findByDepartmentAndDateBetween(dept, start, end) with both ends
      included, which is what the month view relies on. */
  predicate InDeptMonth(s: Seminar, dept: Option<string>, from: string, to: string) {
    s.department == dept && s.date.Some? && StrLessEq(from, s.date.value) && StrLessEq(s.date.value, to)
  }

  /** The same query as Spring Data MongoDB derives it: both ends excluded. */
  predicate InDeptMonthAsWritten(s: Seminar, dept: Option<string>, from: string, to: string) {
    s.department == dept && s.date.Some? && StrLess(from, s.date.value) && StrLess(s.date.value, to)
  }

  function DeptMonthQuery(store: seq<Seminar>, dept: Option<string>, y: int, m: int): seq<Seminar>
    requires 0 <= y <= 9999 && 1 <= m <= 12
  {
    var from, to := FormatIsoDate(MonthStart(y, m)), FormatIsoDate(MonthEnd(y, m));
    Filter(store, s => InDeptMonth(s, dept, from, to))
  }

  function DeptMonthQueryAsWritten(store: seq<Seminar>, dept: Option<string>, y: int, m: int): seq<Seminar>
    requires 0 <= y <= 9999 && 1 <= m <= 12
  {
    var from, to := FormatIsoDate(MonthStart(y, m)), FormatIsoDate(MonthEnd(y, m));
    Filter(store, s => InDeptMonthAsWritten(s, dept, from, to))
  }

  /** The size of the group of `date` in `groupingBy(Seminar::getDate)`. */
  function OnDate(list: seq<Seminar>, date: string): nat {
    |Filter(list, (s: Seminar) => s.date == Some(date))|
  }

  lemma OnDateSnoc(pre: seq<Seminar>, s: Seminar, date: string)
    ensures OnDate(pre + [s], date) == OnDate(pre, date) + (if s.date == Some(date) then 1 else 0)
  {
    FilterAppend(pre, [s], (e: Seminar) => e.date == Some(date));
  }

  /** `groupingBy(Seminar::getDate, counting())`: a key for each date that
      occurs, mapped to its number of occurrences. */
  method GroupByDate(list: seq<Seminar>) returns (counts: map<string, int>)
    requires forall k :: 0 <= k < |list| ==> list[k].date.Some?
    ensures forall t :: t in counts <==> OnDate(list, t) > 0
    ensures forall t :: t in counts ==> counts[t] == OnDate(list, t)
  {
    counts := map[];
    var i := 0;
    while i < |list|
      invariant 0 <= i <= |list|
      invariant forall t :: t in counts <==> OnDate(list[..i], t) > 0
      invariant forall t :: t in counts ==> counts[t] == OnDate(list[..i], t)
    {
      var s := list[i];
      assert list[..i + 1] == list[..i] + [s];
      forall t {
        OnDateSnoc(list[..i], s, t);
      }
      var key := s.date.value;
      counts := counts[key := (if key in counts then counts[key] else 0) + 1];
      i := i + 1;
    }
    assert list[..i] == list;
  }

  /** The count the calendar shows for day `d`. */
  function DeptDayCount(store: seq<Seminar>, dept: Option<string>, d: Date, y: int, m: int): nat
    requires 0 <= y <= 9999 && 1 <= m <= 12
  {
    if Valid4(d) then OnDate(DeptMonthQuery(store, dept, y, m), FormatIsoDate(d)) else 0
  }

  /** The loop over the days of the month, reading each day's group. */
  method DaySummaries(counts: map<string, int>, list: seq<Seminar>, y: int, m: int) returns (out: seq<DaySummary>)
    requires 0 <= y <= 9999 && 1 <= m <= 12
    requires forall t :: t in counts <==> OnDate(list, t) > 0
    requires forall t :: t in counts ==> counts[t] == OnDate(list, t)
    ensures |out| == DaysInMonth(y, m)
    ensures forall j :: 0 <= j < |out| ==>
      var t := FormatIsoDate(Date(y, m, j + 1));
      out[j] == DaySummary(t, OnDate(list, t) == 0, OnDate(list, t))
  {
    out := [];
    var day := 1;
    while day <= DaysInMonth(y, m)
      invariant 1 <= day <= DaysInMonth(y, m) + 1
      invariant |out| == day - 1
      invariant forall j :: 0 <= j < |out| ==>
        var t := FormatIsoDate(Date(y, m, j + 1));
        out[j] == DaySummary(t, OnDate(list, t) == 0, OnDate(list, t))
    {
      var date := FormatIsoDate(Date(y, m, day));
      var free := date !in counts;
      var count := if date in counts then counts[date] else 0;
      out := out + [DaySummary(date, free, count)];
      day := day + 1;
    }
  }

  /** getDepartmentCalendar: `YearMonth.of` refuses a month outside 1..12;
      then one entry per day with that day's number of seminars. */
  method DepartmentCalendar(store: seq<Seminar>, dept: Option<string>, year: int, month: int)
    returns (r: Result<seq<DaySummary>, CalendarError>)
    ensures !(1 <= month <= 12) ==> r == Err(BadMonth)
    ensures 1 <= month <= 12 && !(0 <= year <= 9999) ==> r == Err(YearOutOfModel)
    ensures r.Ok? ==>
      0 <= year <= 9999 && 1 <= month <= 12
      && IsMonthSummary(r.value, year, month, d => DeptDayCount(store, dept, d, year, month))
  {
    if month < 1 || month > 12 {
      return Err(BadMonth);
    }
    if year < 0 || year > 9999 {
      return Err(YearOutOfModel);
    }
    var list := DeptMonthQuery(store, dept, year, month);
    assert forall k :: 0 <= k < |list| ==> list[k] in list;
    var counts := GroupByDate(list);
    var out := DaySummaries(counts, list, year, month);
    DeptEntriesFormMonthSummary(store, dept, year, month, out);
    return Ok(out);
  }

  lemma DeptEntriesFormMonthSummary(store: seq<Seminar>, dept: Option<string>, year: int, month: int, out: seq<DaySummary>)
    requires 0 <= year <= 9999 && 1 <= month <= 12
    requires |out| == DaysInMonth(year, month)
    requires forall j :: 0 <= j < |out| ==>
      var t := FormatIsoDate(Date(year, month, j + 1));
      var n := OnDate(DeptMonthQuery(store, dept, year, month), t);
      out[j] == DaySummary(t, n == 0, n)
    ensures IsMonthSummary(out, year, month, d => DeptDayCount(store, dept, d, year, month))
  {
    forall j | 0 <= j < |out|
      ensures var c := DeptDayCount(store, dept, Date(year, month, j + 1), year, month);
              out[j] == DaySummary(FormatIsoDate(Date(year, month, j + 1)), c == 0, c)
    {
      assert Valid4(Date(year, month, j + 1));
    }
    EntriesFormMonthSummary(out, year, month, d => DeptDayCount(store, dept, d, year, month));
  }

  /** Each day of the month shows exactly the department's seminars dated
      that day. */
  lemma DeptDayCountIsSeminarsThatDay(store: seq<Seminar>, dept: Option<string>, y: int, m: int, day: int)
    requires 0 <= y <= 9999 && 1 <= m <= 12 && 1 <= day <= DaysInMonth(y, m)
    ensures DeptDayCount(store, dept, Date(y, m, day), y, m)
            == |Filter(store, (s: Seminar) => s.department == dept && s.date == Some(FormatIsoDate(Date(y, m, day))))|
  {
    var lo, hi, d := MonthStart(y, m), MonthEnd(y, m), Date(y, m, day);
    var from, to, t := FormatIsoDate(lo), FormatIsoDate(hi), FormatIsoDate(d);
    ParseFormat(lo);
    ParseFormat(hi);
    ParseFormat(d);
    IsoStringOrderEq(from, t);
    IsoStringOrderEq(t, to);
    var p := s => InDeptMonth(s, dept, from, to);
    var q := (s: Seminar) => s.date == Some(t);
    FilterFilter(store, p, q);
    FilterCongruent(store, x => p(x) && q(x), (s: Seminar) => s.department == dept && s.date == Some(t));
  }

  /** With `Between` excluding its ends, a seminar on the 1st is not
      returned and the 1st shows as free; with the ends included it is
      counted. */
  lemma FirstOfMonthFreeAsWritten(b: Seminar, dept: Option<string>, y: int, m: int)
    requires 0 <= y <= 9999 && 1 <= m <= 12
    requires b.department == dept && b.date == Some(FormatIsoDate(MonthStart(y, m)))
    ensures DeptMonthQueryAsWritten([b], dept, y, m) == []
    ensures DeptDayCount([b], dept, MonthStart(y, m), y, m) == 1
  {
    var lo, hi := MonthStart(y, m), MonthEnd(y, m);
    var from, to := FormatIsoDate(lo), FormatIsoDate(hi);
    StrLessIrreflexive(from);
    assert !InDeptMonthAsWritten(b, dept, from, to);
    ParseFormat(lo);
    ParseFormat(hi);
    IsoStringOrderEq(from, to);
    StrLessIrreflexive(from);
    assert InDeptMonth(b, dept, from, to);
    assert DeptMonthQuery([b], dept, y, m) == [b];
    assert [b][1..] == [];
  }

  // ---------------------------------------------------------------------
  // The seminars of one day

  /** getDepartmentSeminarsByDate as written: the same derived `Between`
      query with the day as both ends, both ends excluded. */
  function DeptDaySeminarsAsWritten(store: seq<Seminar>, dept: Option<string>, date: string): seq<Seminar> {
    Filter(store, s => InDeptMonthAsWritten(s, dept, date, date))
  }

  /** getDepartmentSeminarsByDate as intended: `Between(date, date)` with
      its ends included. */
  function DeptDaySeminars(store: seq<Seminar>, dept: Option<string>, date: string): seq<Seminar> {
    Filter(store, s => InDeptMonth(s, dept, date, date))
  }

  /** The intended query returns exactly the department's seminars dated
      that day. */
  lemma DeptDaySeminarsMeaning(store: seq<Seminar>, dept: Option<string>, date: string)
    ensures forall s :: s in DeptDaySeminars(store, dept, date)
              <==> s in store && s.department == dept && s.date == Some(date)
  {
    forall s | s in store && InDeptMonth(s, dept, date, date)
      ensures s.date == Some(date)
    {
      if s.date.value != date {
        StrLessAsymmetric(date, s.date.value);
      }
    }
  }

  /** As written the query returns nothing, whatever the store holds: no
      text lies strictly between a day and itself. */
  lemma DayQueryEmptyAsWritten(store: seq<Seminar>, dept: Option<string>, date: string)
    ensures DeptDaySeminarsAsWritten(store, dept, date) == []
  {
    var r := DeptDaySeminarsAsWritten(store, dept, date);
    if r != [] {
      var s := r[0];
      assert s in r;
      StrLessAsymmetric(date, s.date.value);
    }
  }
}
