// SeminarService.getSeminarsForDay: the bookings that affect one date,
// gathered by three queries and merged by id in a LinkedHashMap (a later
// record with a known id replaces the value but keeps the key's position;
// records without an id are skipped).

module DayListing {

  import opened Wrappers
  import opened Text
  import opened Seminars
  import opened Repository

  function SeminarId(s: Seminar): Option<string> { s.id }

  /** `merged.put(s.getId(), s)` for a record with an id: the entries are
      the map's values in key-insertion order. */
  function Put(acc: seq<Seminar>, s: Seminar): (r: seq<Seminar>)
    requires s.id.Some?
  {
    match IndexOf(acc, SeminarId, s.id.value)
    case None => acc + [s]
    case Some(k) => acc[k := s]
  }

  /** The three `for` loops: every record with an id is put, in order. */
  function MergeInto(acc: seq<Seminar>, list: seq<Seminar>): seq<Seminar>
    decreases |list|
  {
    if list == [] then acc
    else if list[0].id.None? then MergeInto(acc, list[1..])
    else MergeInto(Put(acc, list[0]), list[1..])
  }

  method PutAll(acc: seq<Seminar>, list: seq<Seminar>) returns (r: seq<Seminar>)
    ensures r == MergeInto(acc, list)
  {
    r := acc;
    var i := 0;
    while i < |list|
      invariant 0 <= i <= |list|
      invariant MergeInto(r, list[i..]) == MergeInto(acc, list)
    {
      var s := list[i];
      assert list[i..][1..] == list[i + 1..];
      if s.id.Some? {
        r := Put(r, s);
      }
      i := i + 1;
    }
  }

  lemma {:induction false} MergeIntoAppend(acc: seq<Seminar>, a: seq<Seminar>, b: seq<Seminar>)
    ensures MergeInto(acc, a + b) == MergeInto(MergeInto(acc, a), b)
    decreases |a|
  {
    if a != [] {
      assert (a + b)[0] == a[0];
      assert (a + b)[1..] == a[1..] + b;
      if a[0].id.None? {
        MergeIntoAppend(acc, a[1..], b);
      } else {
        MergeIntoAppend(Put(acc, a[0]), a[1..], b);
      }
    } else {
      assert a + b == b;
    }
  }

  /** Every entry has an id, and no two entries share one. */
  predicate KeyedEntries(acc: seq<Seminar>) {
    (forall k :: 0 <= k < |acc| ==> acc[k].id.Some?) && IdsUnique(acc, SeminarId)
  }

  lemma PutKeepsKeyed(acc: seq<Seminar>, s: Seminar)
    requires s.id.Some? && KeyedEntries(acc)
    ensures KeyedEntries(Put(acc, s))
    ensures forall id :: (exists x :: x in Put(acc, s) && x.id == Some(id))
                         <==> (exists x :: x in acc && x.id == Some(id)) || s.id == Some(id)
  {
    var r := Put(acc, s);
    match IndexOf(acc, SeminarId, s.id.value)
    case None =>
      assert r == acc + [s];
      forall id | exists x :: x in acc && x.id == Some(id)
        ensures exists x :: x in r && x.id == Some(id)
      {
        var x :| x in acc && x.id == Some(id);
        assert x in r;
      }
    case Some(k) =>
      assert r == acc[k := s];
      forall id | exists x :: x in acc && x.id == Some(id)
        ensures exists x :: x in r && x.id == Some(id)
      {
        var x :| x in acc && x.id == Some(id);
        var j :| 0 <= j < |acc| && acc[j] == x;
        assert r[j].id == Some(id);
      }
      forall id | exists x :: x in r && x.id == Some(id)
        ensures (exists x :: x in acc && x.id == Some(id)) || s.id == Some(id)
      {
        var x :| x in r && x.id == Some(id);
        var j :| 0 <= j < |r| && r[j] == x;
        if j != k {
          assert acc[j] in acc;
        }
      }
  }

  /** The merged entries have distinct ids, and an id occurs among them
      exactly when some record put carries it. */
  lemma {:induction false} MergeIntoKeyed(acc: seq<Seminar>, list: seq<Seminar>)
    requires KeyedEntries(acc)
    ensures KeyedEntries(MergeInto(acc, list))
    ensures forall id :: (exists x :: x in MergeInto(acc, list) && x.id == Some(id))
                         <==> (exists x :: x in acc && x.id == Some(id)) || (exists x :: x in list && x.id == Some(id))
    decreases |list|
  {
    if list != [] {
      var s := list[0];
      assert forall x :: x in list <==> x == s || x in list[1..];
      if s.id.None? {
        MergeIntoKeyed(acc, list[1..]);
      } else {
        PutKeepsKeyed(acc, s);
        MergeIntoKeyed(Put(acc, s), list[1..]);
      }
    }
  }

  /** Records that share an id are the same record (as in a repository
      whose ids are unique). */
  predicate OneRecordPerId(list: seq<Seminar>) {
    forall a, b :: a in list && b in list && a.id.Some? && a.id == b.id ==> a == b
  }

  lemma PutMembers(acc: seq<Seminar>, s: Seminar)
    requires s.id.Some? && OneRecordPerId(acc + [s])
    ensures forall x :: x in Put(acc, s) <==> x in acc || x == s
  {
    match IndexOf(acc, SeminarId, s.id.value)
    case None =>
    case Some(k) =>
      assert acc[k] in acc + [s] && s in acc + [s];
      assert acc[k] == s;
      assert acc[k := s] == acc;
  }

  /** When ids are consistent, the merge holds exactly the records put. */
  lemma {:induction false} MergeIntoMembers(acc: seq<Seminar>, list: seq<Seminar>)
    requires OneRecordPerId(acc + list)
    ensures forall x :: x in MergeInto(acc, list) <==> x in acc || (x in list && x.id.Some?)
    decreases |list|
  {
    if list != [] {
      var s := list[0];
      assert forall x :: x in list <==> x == s || x in list[1..];
      if s.id.None? {
        assert forall x :: x in acc + list[1..] ==> x in acc + list;
        MergeIntoMembers(acc, list[1..]);
      } else {
        assert forall x :: x in acc + [s] ==> x in acc + list;
        PutMembers(acc, s);
        assert forall x :: x in Put(acc, s) + list[1..] ==> x in acc + list;
        MergeIntoMembers(Put(acc, s), list[1..]);
      }
    }
  }

  // ---------------------------------------------------------------------
  // The three queries

  /** `hallName == null || hallName.isBlank() ? null : hallName.trim()` */
  function HallNorm(hallName: Option<string>): Option<string> {
    if NullOrBlank(hallName) then None else Some(Trim(hallName.value))
  }

  /** findByDateAndHallName(date, hallName) with the hall as given, or
      findByDate(date). */
  function TimeBookingsOn(store: seq<Seminar>, date: string, hallName: Option<string>): seq<Seminar> {
    if !NullOrBlank(hallName) then Filter(store, s => AtDateInHall(s, date, hallName.value))
    else Filter(store, (s: Seminar) => s.date == Some(date))
  }

  /** `startDate <= date <= endDate`, compared as strings. */
  predicate RangeHolds(s: Seminar, date: string) {
    HasRange(s) && StrLessEq(s.startDate.value, date) && StrLessEq(date, s.endDate.value)
  }

  function RangesOn(store: seq<Seminar>, date: string, hallName: Option<string>): seq<Seminar> {
    var hall := HallNorm(hallName);
    if hall.Some? then Filter(store, s => RangeReaches(s, hall.value, date, date))
    else Filter(store, s => RangeHolds(s, date))
  }

  predicate SlotKeyFor(s: Seminar, date: string, hall: Option<string>) {
    HasDaySlotKey(s, date) && (hall.None? || HallIgnoreCase(s, hall.value))
  }

  function SlotsOn(store: seq<Seminar>, date: string, hallName: Option<string>): seq<Seminar> {
    var hall := HallNorm(hallName);
    Filter(store, s => SlotKeyFor(s, date, hall))
  }

  /** A record the listing for `date` and `hallName` reports. */
  predicate Affects(s: Seminar, date: string, hallName: Option<string>) {
    var hall := HallNorm(hallName);
    (if hall.Some? then AtDateInHall(s, date, hallName.value) else s.date == Some(date))
    || (if hall.Some? then RangeReaches(s, hall.value, date, date) else RangeHolds(s, date))
    || SlotKeyFor(s, date, hall)
  }

  /** getSeminarsForDay */
  method SeminarsForDay(store: seq<Seminar>, date: string, hallName: Option<string>) returns (out: seq<Seminar>)
    ensures out == MergeInto([], TimeBookingsOn(store, date, hallName) + RangesOn(store, date, hallName) + SlotsOn(store, date, hallName))
  {
    var timeBookings := TimeBookingsOn(store, date, hallName);
    var dayRange := RangesOn(store, date, hallName);
    var daySlotMatches := SlotsOn(store, date, hallName);
    out := PutAll([], timeBookings);
    out := PutAll(out, dayRange);
    out := PutAll(out, daySlotMatches);
    MergeIntoAppend([], timeBookings, dayRange);
    MergeIntoAppend([], timeBookings + dayRange, daySlotMatches);
  }

  /** The listing never names a booking twice, and names each booking of the
      day once it has an id. */
  lemma DayListingKeyed(store: seq<Seminar>, date: string, hallName: Option<string>)
    ensures var out := MergeInto([], TimeBookingsOn(store, date, hallName) + RangesOn(store, date, hallName) + SlotsOn(store, date, hallName));
            KeyedEntries(out)
            && forall s :: s in store && s.id.Some? && Affects(s, date, hallName) ==>
                 exists x :: x in out && x.id == s.id
  {
    var all := TimeBookingsOn(store, date, hallName) + RangesOn(store, date, hallName) + SlotsOn(store, date, hallName);
    MergeIntoKeyed([], all);
    forall s | s in store && s.id.Some? && Affects(s, date, hallName)
      ensures s in all
    {
    }
  }

  lemma SameIdSamePosition(store: seq<Seminar>, i: int, j: int)
    requires IdsUnique(store, SeminarId)
    requires 0 <= i < |store| && 0 <= j < |store|
    requires store[i].id.Some? && store[i].id == store[j].id
    ensures i == j
  {
  }

  /** With unique ids in the repository, the listing is exactly the day's
      bookings that have an id. */
  lemma DayListingExact(store: seq<Seminar>, date: string, hallName: Option<string>)
    requires IdsUnique(store, SeminarId)
    ensures var out := MergeInto([], TimeBookingsOn(store, date, hallName) + RangesOn(store, date, hallName) + SlotsOn(store, date, hallName));
            forall x :: x in out <==> x in store && x.id.Some? && Affects(x, date, hallName)
  {
    var all := TimeBookingsOn(store, date, hallName) + RangesOn(store, date, hallName) + SlotsOn(store, date, hallName);
    assert forall x :: x in all ==> x in store;
    forall a, b | a in [] + all && b in [] + all && a.id.Some? && a.id == b.id
      ensures a == b
    {
      var i :| 0 <= i < |store| && store[i] == a;
      var j :| 0 <= j < |store| && store[j] == b;
      SameIdSamePosition(store, i, j);
    }
    MergeIntoMembers([], all);
  }
}
