// The admin "all seminars" list: seminars and booking requests are
// normalised to one item shape, merged through a `seen` map keyed by
// hall|date|start|end|title (a seminar wins over a request, otherwise the
// first item wins), sorted newest date first, and filtered by three
// case-insensitive substring filters.
module AllSeminars {

  import opened Wrappers
  import opened Text
  import Seminars

  /** Which list an item came from. */
  datatype Source = FromSeminars | FromRequests

  /** The normalised item. The two fields only seminars carry are `None`
      (absent) on an item made from a request. */
  datatype Item = Item(
    id: string,
    hallName: string,
    slotTitle: string,
    bookingName: string,
    email: string,
    department: string,
    phone: string,
    slot: string,
    date: string,
    startTime: string,
    endTime: string,
    status: string,
    remarks: string,
    appliedAt: string,
    cancellationReason: Option<string>,
    createdBy: Option<string>,
    source: Source)

  // ---------------------------------------------------------------------
  // Normalisation

  /** The status as shown: the given status, or the default, upper-cased. */
  function ShownStatus(status: Option<string>, default: string): (r: string)
    ensures Upper(r) == r
    ensures status.Some? ==> EqualsIgnoreCase(r, status.value)
    ensures status.None? ==> EqualsIgnoreCase(r, default)
  {
    UpperIdempotent(status.GetOr(default));
    Upper(status.GetOr(default))
  }

  /** normalizeSeminar; `random` stands for the Math.random() text of an
      id-less record. */
  function NormalizeSeminar(s: Seminars.Seminar, random: string): (r: Item)
    ensures r.source == FromSeminars
    ensures s.status.None? ==> r.status == "APPROVED"
    ensures Upper(r.status) == r.status
    ensures s.id.Some? ==> r.id == s.id.value
    ensures s.id.None? ==> StartsWith(r.id, "seminar-")
    ensures r.cancellationReason.Some? && r.createdBy.Some?
  {
    UpperOfCapitals("APPROVED");
    Item(
      id := if s.id.Some? then s.id.value else "seminar-" + random,
      hallName := s.hallName.GetOr(""),
      slotTitle := s.slotTitle.GetOr(""),
      bookingName := s.bookingName.GetOr(""),
      email := s.email.GetOr(""),
      department := s.department.GetOr(""),
      phone := s.phone.GetOr(""),
      slot := s.slot.GetOr("Custom"),
      date := s.date.GetOr(""),
      startTime := s.startTime.GetOr(""),
      endTime := s.endTime.GetOr(""),
      status := ShownStatus(s.status, "APPROVED"),
      remarks := s.remarks.GetOr(""),
      appliedAt := s.appliedAt.GetOr(""),
      cancellationReason := Some(s.cancellationReason.GetOr("")),
      createdBy := Some(s.createdBy.GetOr("")),
      source := FromSeminars)
  }

  /** normalizeRequest; the requests endpoint returns the same records. */
  function NormalizeRequest(s: Seminars.Seminar, random: string): (r: Item)
    ensures r.source == FromRequests
    ensures s.status.None? ==> r.status == "PENDING"
    ensures Upper(r.status) == r.status
    ensures s.id.Some? ==> r.id == s.id.value
    ensures s.id.None? ==> StartsWith(r.id, "req-")
    ensures r.cancellationReason.None? && r.createdBy.None?
  {
    UpperOfCapitals("PENDING");
    Item(
      id := if s.id.Some? then s.id.value else "req-" + random,
      hallName := s.hallName.GetOr(""),
      slotTitle := s.slotTitle.GetOr(""),
      bookingName := s.bookingName.GetOr(""),
      email := s.email.GetOr(""),
      department := s.department.GetOr(""),
      phone := s.phone.GetOr(""),
      slot := s.slot.GetOr("Custom"),
      date := s.date.GetOr(""),
      startTime := s.startTime.GetOr(""),
      endTime := s.endTime.GetOr(""),
      status := ShownStatus(s.status, "PENDING"),
      remarks := s.remarks.GetOr(""),
      appliedAt := s.appliedAt.GetOr(""),
      cancellationReason := None,
      createdBy := None,
      source := FromRequests)
  }

  lemma UpperOfCapitals(s: string)
    requires s == "APPROVED" || s == "PENDING"
    ensures Upper(s) == s
  {
    forall i | 0 <= i < |s| ensures UpperChar(s[i]) == s[i] {
      assert IsAsciiUpper(s[i]);
    }
  }

  predicate AllFrom(items: seq<Item>, src: Source) {
    forall i :: 0 <= i < |items| ==> items[i].source == src
  }

  /** `rawSeminars.map(normalizeSeminar)` */
  function SeminarList(raw: seq<Seminars.Seminar>, randoms: seq<string>): (r: seq<Item>)
    requires |randoms| == |raw|
    ensures |r| == |raw| && AllFrom(r, FromSeminars)
    ensures forall i :: 0 <= i < |raw| ==> r[i] == NormalizeSeminar(raw[i], randoms[i])
  {
    seq(|raw|, i requires 0 <= i < |raw| => NormalizeSeminar(raw[i], randoms[i]))
  }

  /** `rawRequests.map(normalizeRequest)` */
  function RequestList(raw: seq<Seminars.Seminar>, randoms: seq<string>): (r: seq<Item>)
    requires |randoms| == |raw|
    ensures |r| == |raw| && AllFrom(r, FromRequests)
    ensures forall i :: 0 <= i < |raw| ==> r[i] == NormalizeRequest(raw[i], randoms[i])
  {
    seq(|raw|, i requires 0 <= i < |raw| => NormalizeRequest(raw[i], randoms[i]))
  }

  // ---------------------------------------------------------------------
  // The merge key

  predicate NoBar(s: string) {
    !ContainsChar(s, '|')
  }

  /** keyFor: hall, date, start, end and title, each trimmed, joined by
      '|'. */
  function KeyFor(it: Item): string {
    KeyFrom(it, 0)
  }

  /** The key fields in key order, untrimmed. */
  function Field(it: Item, i: nat): string {
    if i == 0 then it.hallName else if i == 1 then it.date else if i == 2 then it.startTime
    else if i == 3 then it.endTime else it.slotTitle
  }

  /** The trimmed key fields from the `i`-th on, joined by '|'. */
  function KeyFrom(it: Item, i: nat): string
    decreases 4 - i
  {
    if i >= 4 then JsTrim(Field(it, i)) else JsTrim(Field(it, i)) + ("|" + KeyFrom(it, i + 1))
  }

  predicate SameFieldsFrom(a: Item, b: Item, i: nat) {
    forall j :: i <= j <= 4 ==> JsTrim(Field(a, j)) == JsTrim(Field(b, j))
  }

  predicate NoBarFrom(it: Item, i: nat) {
    forall j :: i <= j < 4 ==> NoBar(JsTrim(Field(it, j)))
  }

  lemma {:induction false} KeyFromIffSameFields(a: Item, b: Item, i: nat)
    requires i <= 4 && NoBarFrom(a, i) && NoBarFrom(b, i)
    ensures KeyFrom(a, i) == KeyFrom(b, i) <==> SameFieldsFrom(a, b, i)
    decreases 4 - i
  {
    if i < 4 {
      KeyFromIffSameFields(a, b, i + 1);
      if KeyFrom(a, i) == KeyFrom(b, i) {
        SplitAtBar(JsTrim(Field(a, i)), KeyFrom(a, i + 1), JsTrim(Field(b, i)), KeyFrom(b, i + 1));
      }
    }
  }

  /** Two items share a key exactly when their five trimmed fields agree,
      provided the first four contain no '|'. */
  lemma KeyForIffSameFields(a: Item, b: Item)
    requires NoBarFrom(a, 0) && NoBarFrom(b, 0)
    ensures KeyFor(a) == KeyFor(b) <==> SameFieldsFrom(a, b, 0)
  {
    KeyFromIffSameFields(a, b, 0);
  }

  /** The position of the first '|', or the length when there is none. */
  function BarIndex(s: string): (n: nat)
    ensures n <= |s|
    decreases |s|
  {
    if s == [] || s[0] == '|' then 0 else 1 + BarIndex(s[1..])
  }

  lemma {:induction false} BarIndexAfter(x: string, rest: string)
    requires NoBar(x)
    ensures BarIndex(x + ("|" + rest)) == |x|
    decreases |x|
  {
    if x != [] {
      assert x[0] != '|';
      assert (x + ("|" + rest))[1..] == x[1..] + ("|" + rest);
      BarIndexAfter(x[1..], rest);
    }
  }

  /** A '|'-free head followed by '|' is recovered from the joined text. */
  lemma SplitAtBar(x: string, xs: string, y: string, ys: string)
    requires NoBar(x) && NoBar(y)
    requires x + ("|" + xs) == y + ("|" + ys)
    ensures x == y && xs == ys
  {
    var l, r := x + ("|" + xs), y + ("|" + ys);
    BarIndexAfter(x, xs);
    BarIndexAfter(y, ys);
    assert x == l[..|x|] && y == r[..|y|];
    assert xs == l[|x| + 1..] && ys == r[|y| + 1..];
  }

  // ---------------------------------------------------------------------
  // The merge, as a specification, for any key function

  /** pushIfNew on the map's contents, for an item whose key is `k`. */
  function Push(m: map<string, Item>, k: string, item: Item): (r: map<string, Item>)
    ensures r.Keys == m.Keys + {k}
    ensures forall k' :: k' in m && k' != k ==> r[k'] == m[k']
  {
    if k !in m then m[k := item]
    else if m[k].source == FromRequests && item.source == FromSeminars then m[k := item]
    else m
  }

  /** The map after pushing every item in order onto `m`. */
  function FoldFrom(m: map<string, Item>, items: seq<Item>, key: Item -> string): (r: map<string, Item>)
    decreases |items|
  {
    if items == [] then m
    else
      var x := items[|items| - 1];
      Push(FoldFrom(m, items[..|items| - 1], key), key(x), x)
  }

  lemma FoldFromPrefix(m: map<string, Item>, items: seq<Item>, i: int, key: Item -> string)
    requires 0 <= i < |items|
    ensures FoldFrom(m, items[..i + 1], key) == Push(FoldFrom(m, items[..i], key), key(items[i]), items[i])
  {
    assert items[..i + 1][..i] == items[..i];
  }

  function Fold(items: seq<Item>, key: Item -> string): map<string, Item> {
    FoldFrom(map[], items, key)
  }

  /** The first item with key `k` (coming from the seminars list, when
      `seminarsOnly`). */
  function First(items: seq<Item>, k: string, seminarsOnly: bool, key: Item -> string): (r: Option<Item>)
    ensures r.Some? ==> r.value in items && key(r.value) == k
    ensures r.Some? && seminarsOnly ==> r.value.source == FromSeminars
    ensures r.None? <==> forall i :: 0 <= i < |items| ==>
      key(items[i]) != k || (seminarsOnly && items[i].source != FromSeminars)
    decreases |items|
  {
    if items == [] then None
    else
      var x := items[|items| - 1];
      var f := First(items[..|items| - 1], k, seminarsOnly, key);
      if f.Some? then f
      else if key(x) == k && (!seminarsOnly || x.source == FromSeminars) then Some(x)
      else None
  }

  /** The item the merge keeps for a key: the first seminar with that key,
      or failing one the first item with it. */
  function Kept(items: seq<Item>, k: string, key: Item -> string): Option<Item> {
    var s := First(items, k, true, key);
    if s.Some? then s else First(items, k, false, key)
  }

  /** Whatever the order of the pushes, the map holds an entry for `k`
      exactly when some item has that key, the entry is the kept one, and
      it is stored under its own key. */
  lemma {:induction false} FoldKeepsKept(items: seq<Item>, key: Item -> string, k: string)
    ensures k in Fold(items, key) <==> First(items, k, false, key).Some?
    ensures k in Fold(items, key) ==> Some(Fold(items, key)[k]) == Kept(items, k, key)
    ensures k in Fold(items, key) ==> key(Fold(items, key)[k]) == k
    decreases |items|
  {
    if items != [] {
      var init := items[..|items| - 1];
      FoldKeepsKept(init, key, k);
    }
  }

  lemma {:induction false} FirstAppend(a: seq<Item>, b: seq<Item>, k: string, seminarsOnly: bool, key: Item -> string)
    ensures First(a + b, k, seminarsOnly, key) ==
      (if First(a, k, seminarsOnly, key).Some? then First(a, k, seminarsOnly, key) else First(b, k, seminarsOnly, key))
    decreases |b|
  {
    if b == [] {
      assert a + b == a;
    } else {
      assert (a + b)[..|a + b| - 1] == a + b[..|b| - 1];
      FirstAppend(a, b[..|b| - 1], k, seminarsOnly, key);
    }
  }

  lemma {:induction false} FoldFromAppend(a: seq<Item>, b: seq<Item>, key: Item -> string)
    ensures FoldFrom(Fold(a, key), b, key) == Fold(a + b, key)
    decreases |b|
  {
    if b == [] {
      assert a + b == a;
    } else {
      assert (a + b)[..|a + b| - 1] == a + b[..|b| - 1];
      FoldFromAppend(a, b[..|b| - 1], key);
    }
  }

  /** With the seminars first, the kept item is the first seminar with the
      key, or failing one the first request with it. */
  lemma {:induction false} KeptSeminarsThenRequests(sems: seq<Item>, reqs: seq<Item>, k: string, key: Item -> string)
    requires AllFrom(sems, FromSeminars) && AllFrom(reqs, FromRequests)
    ensures Kept(sems + reqs, k, key) ==
      (if First(sems, k, false, key).Some? then First(sems, k, false, key) else First(reqs, k, false, key))
  {
    FirstAppend(sems, reqs, k, true, key);
    FirstAppend(sems, reqs, k, false, key);
    SeminarsOnlyAmongSeminars(sems, k, key);
    assert First(reqs, k, true, key).None?;
  }

  lemma {:induction false} SeminarsOnlyAmongSeminars(sems: seq<Item>, k: string, key: Item -> string)
    requires AllFrom(sems, FromSeminars)
    ensures First(sems, k, true, key) == First(sems, k, false, key)
    decreases |sems|
  {
    if sems != [] {
      SeminarsOnlyAmongSeminars(sems[..|sems| - 1], k, key);
    }
  }

  /** Seminars are pushed before requests: an entry is the first seminar
      with its key, and a request survives exactly when no seminar shares
      its key, as the first request with that key. */
  lemma SeminarsThenRequests(sems: seq<Item>, reqs: seq<Item>, k: string, key: Item -> string)
    requires AllFrom(sems, FromSeminars) && AllFrom(reqs, FromRequests)
    ensures k in Fold(sems + reqs, key) <==> First(sems, k, false, key).Some? || First(reqs, k, false, key).Some?
    ensures First(sems, k, false, key).Some? ==> Fold(sems + reqs, key)[k] == First(sems, k, false, key).value
    ensures First(sems, k, false, key).None? && First(reqs, k, false, key).Some? ==>
      Fold(sems + reqs, key)[k] == First(reqs, k, false, key).value
    ensures k in Fold(sems + reqs, key) ==>
      (Fold(sems + reqs, key)[k].source == FromRequests <==> First(sems, k, false, key).None?)
  {
    FoldKeepsKept(sems + reqs, key, k);
    KeptSeminarsThenRequests(sems, reqs, k, key);
    FirstAppend(sems, reqs, k, false, key);
  }

  // ---------------------------------------------------------------------
  // The merge, as the page runs it

  /** The `seen` Map: entries by key, and the keys in insertion order (the
      order `seen.values()` yields them), together with the key function
      the page pushes with. */
  class Seen {
    const key: Item -> string
    var entries: map<string, Item>
    var order: seq<string>

    ghost predicate Valid()
      reads this
    {
      (forall k :: k in entries <==> k in order)
      && (forall i, j :: 0 <= i < j < |order| ==> order[i] != order[j])
    }

    constructor (key: Item -> string)
      ensures Valid() && entries == map[] && order == [] && this.key == key
    {
      this.key := key;
      entries := map[];
      order := [];
    }

    /** pushIfNew: a new key is appended; a known key keeps its place and
        changes its item only when a seminar meets a stored request. */
    method PushIfNew(item: Item)
      requires Valid()
      modifies this
      ensures Valid()
      ensures entries == Push(old(entries), key(item), item)
      ensures order == if key(item) in old(entries) then old(order) else old(order) + [key(item)]
    {
      var k := key(item);
      Put(k, item);
    }

    /** The body of pushIfNew once the key `k` is computed. */
    method Put(k: string, item: Item)
      requires Valid()
      modifies this
      ensures Valid()
      ensures entries == Push(old(entries), k, item)
      ensures order == if k in old(entries) then old(order) else old(order) + [k]
    {
      if k !in entries {
        entries := entries[k := item];
        order := order + [k];
      } else {
        var existing := entries[k];
        if existing.source == FromRequests && item.source == FromSeminars {
          entries := entries[k := item];
        }
      }
    }

    /** `list.forEach(pushIfNew)` */
    method PushAll(items: seq<Item>)
      requires Valid()
      modifies this
      ensures Valid()
      ensures entries == FoldFrom(old(entries), items, key)
    {
      var i := 0;
      while i < |items|
        invariant 0 <= i <= |items| && Valid()
        invariant entries == FoldFrom(old(entries), items[..i], key)
      {
        PushIfNew(items[i]);
        FoldFromPrefix(old(entries), items, i, key);
        i := i + 1;
      }
      assert items[..i] == items;
    }

    /** `Array.from(seen.values())` */
    function Values(): (r: seq<Item>)
      reads this
      requires Valid()
      ensures |r| == |order|
      ensures forall i :: 0 <= i < |order| ==> r[i] == entries[order[i]]
    {
      var keys, m := order, entries;
      seq(|keys|, i requires 0 <= i < |keys| => assert keys[i] in keys; m[keys[i]])
    }
  }

  // ---------------------------------------------------------------------
  // The sort

  /** `(it.date || "").split("T")[0]` */
  function DatePart(it: Item): string {
    SplitAll(it.date, 'T')[0]
  }

  /** The comparator returns a negative number: a later date part, or the
      same date part and a larger id. */
  predicate Before(a: Item, b: Item) {
    StrLess(DatePart(b), DatePart(a))
    || (DatePart(a) == DatePart(b) && StrLess(b.id, a.id))
  }

  /** Nothing later in the list sorts before anything earlier. */
  predicate Sorted(s: seq<Item>) {
    forall i, j :: 0 <= i < j < |s| ==> !Before(s[j], s[i])
  }

  lemma {:induction false} StrLessTransitive(a: string, b: string, c: string)
    requires StrLess(a, b) && StrLess(b, c)
    ensures StrLess(a, c)
    decreases |a|
  {
    if a != [] && b != [] && c != [] && a[0] == b[0] && b[0] == c[0] {
      StrLessTransitive(a[1..], b[1..], c[1..]);
    }
  }

  lemma {:induction false} StrLessTotal(a: string, b: string)
    ensures a == b || StrLess(a, b) || StrLess(b, a)
    decreases |a|
  {
    if a != [] && b != [] && a[0] == b[0] {
      StrLessTotal(a[1..], b[1..]);
      if a[1..] == b[1..] {
        assert a == [a[0]] + a[1..] && b == [b[0]] + b[1..];
      }
    }
  }

  /** `!Before(y, x)` is transitive. */
  lemma NotBeforeTransitive(x: Item, y: Item, z: Item)
    requires !Before(y, x) && !Before(z, y)
    ensures !Before(z, x)
  {
    var dx, dy, dz := DatePart(x), DatePart(y), DatePart(z);
    StrLessTotal(dx, dy);
    StrLessTotal(dy, dz);
    StrLessTotal(x.id, y.id);
    StrLessTotal(y.id, z.id);
    if Before(z, x) {
      if StrLess(dx, dz) {
        if StrLess(dy, dz) { StrLessTransitive(dx, dy, dz); StrLessAsymmetric(dx, dy); }
        else { StrLessTransitive(dx, dz, dy); }
      } else {
        if StrLess(dx, dy) { StrLessAsymmetric(dx, dy); }
        else if StrLess(dy, dz) { StrLessTransitive(dx, dy, dz); StrLessAsymmetric(dx, dz); }
        else if StrLess(x.id, y.id) { StrLessAsymmetric(x.id, y.id); StrLessTransitive(x.id, y.id, z.id); StrLessAsymmetric(x.id, z.id); }
        else { StrLessTransitive(x.id, z.id, y.id); }
      }
    }
  }

  /** `!Before` is total: of two items one never sorts before the other. */
  lemma NotBeforeTotal(x: Item, y: Item)
    ensures !Before(x, y) || !Before(y, x)
  {
    if Before(x, y) {
      if StrLess(DatePart(y), DatePart(x)) {
        StrLessAsymmetric(DatePart(y), DatePart(x));
      } else {
        StrLessAsymmetric(y.id, x.id);
      }
    }
  }

  /** Insertion of one item after every item it does not sort before. */
  function Insert(s: seq<Item>, x: Item): (r: seq<Item>)
    ensures multiset(r) == multiset(s) + multiset{x}
    ensures Sorted(s) ==> Sorted(r)
    decreases |s|
  {
    if s == [] then [x]
    else if Before(x, s[0]) then
      assert Sorted(s) ==> Sorted([x] + s) by {
        if Sorted(s) { SortedBeforeHead(s, x); }
      }
      [x] + s
    else
      var rest := Insert(s[1..], x);
      assert s == [s[0]] + s[1..];
      assert Sorted(s) ==> Sorted([s[0]] + rest) by {
        if Sorted(s) { SortedAfterHead(s, x, rest); }
      }
      [s[0]] + rest
  }

  lemma SortedBeforeHead(s: seq<Item>, x: Item)
    requires Sorted(s) && s != [] && Before(x, s[0])
    ensures Sorted([x] + s)
  {
    forall j | 0 < j < |[x] + s| ensures !Before(([x] + s)[j], x) {
      NotBeforeTotal(x, s[0]);
      if j > 1 { NotBeforeTransitive(x, s[0], s[j - 1]); }
    }
  }

  lemma SortedAfterHead(s: seq<Item>, x: Item, rest: seq<Item>)
    requires Sorted(s) && s != [] && !Before(x, s[0])
    requires Sorted(rest) && multiset(rest) == multiset(s[1..]) + multiset{x}
    ensures Sorted([s[0]] + rest)
  {
    forall j | 0 < j < |[s[0]] + rest| ensures !Before(([s[0]] + rest)[j], s[0]) {
      var y := rest[j - 1];
      assert y in multiset(rest);
      if y != x {
        assert y in multiset(s[1..]);
        var k :| 0 <= k < |s[1..]| && s[1..][k] == y;
        assert s[k + 1] == y;
      }
    }
  }

  /** `.sort(...)`: every item inserted in turn. */
  method SortCombined(items: seq<Item>) returns (sorted: seq<Item>)
    ensures Sorted(sorted)
    ensures multiset(sorted) == multiset(items)
  {
    sorted := [];
    var i := 0;
    while i < |items|
      invariant 0 <= i <= |items|
      invariant Sorted(sorted)
      invariant multiset(sorted) == multiset(items[..i])
    {
      sorted := Insert(sorted, items[i]);
      MultisetOfLonger(items, i);
      i := i + 1;
    }
    assert items[..i] == items;
  }

  lemma MultisetOfLonger<T>(s: seq<T>, i: int)
    requires 0 <= i < |s|
    ensures multiset(s[..i + 1]) == multiset(s[..i]) + multiset{s[i]}
  {
    assert s[..i + 1] == s[..i] + [s[i]];
  }

  /** `list` holds exactly the entries of `m`, each once, and no two of
      its items share a key. */
  ghost predicate ListsEntries(list: seq<Item>, m: map<string, Item>, key: Item -> string) {
    (forall x :: x in list ==> key(x) in m && m[key(x)] == x)
    && (forall k :: k in m ==> m[k] in list)
    && (forall i, j :: 0 <= i < j < |list| ==> key(list[i]) != key(list[j]))
  }

  /** The list the page shows before filtering: the seminars, then the
      requests, pushed through `seen`, then sorted. */
  method Combine(seminarList: seq<Item>, requestList: seq<Item>) returns (combined: seq<Item>)
    ensures Sorted(combined)
    ensures ListsEntries(combined, Fold(seminarList + requestList, KeyFor), KeyFor)
  {
    var seen := new Seen(KeyFor);
    seen.PushAll(seminarList);
    seen.PushAll(requestList);
    FoldFromAppend(seminarList, requestList, KeyFor);
    var values := seen.Values();
    combined := SortCombined(values);
    ghost var merged := Fold(seminarList + requestList, KeyFor);
    forall k | k in merged ensures KeyFor(merged[k]) == k {
      FoldKeepsKept(seminarList + requestList, KeyFor, k);
    }
    PermutationListsEntries(values, combined, seen.order, merged, KeyFor);
  }

  /** A permutation of the entries of a map, listed once per key, lists
      those entries. */
  lemma PermutationListsEntries(values: seq<Item>, sorted: seq<Item>, keys: seq<string>,
                                m: map<string, Item>, key: Item -> string)
    requires |values| == |keys|
    requires forall a, b :: 0 <= a < b < |keys| ==> keys[a] != keys[b]
    requires forall k :: k in m <==> k in keys
    requires forall a :: 0 <= a < |values| ==> keys[a] in m && values[a] == m[keys[a]]
    requires forall k :: k in m ==> key(m[k]) == k
    requires multiset(sorted) == multiset(values)
    ensures ListsEntries(sorted, m, key)
  {
    forall x | x in sorted ensures key(x) in m && m[key(x)] == x {
      assert x in multiset(values);
    }
    forall k | k in m ensures m[k] in sorted {
      var a :| 0 <= a < |keys| && keys[a] == k;
      assert values[a] in multiset(sorted);
    }
    forall i, j | 0 <= i < j < |sorted| ensures key(sorted[i]) != key(sorted[j]) {
      DistinctKeysSurviveSort(values, sorted, keys, i, j, key);
    }
  }

  /** A permutation of a list whose keys are distinct has distinct keys. */
  lemma DistinctKeysSurviveSort(values: seq<Item>, sorted: seq<Item>, keys: seq<string>, i: int, j: int, key: Item -> string)
    requires |values| == |keys|
    requires forall a, b :: 0 <= a < b < |keys| ==> keys[a] != keys[b]
    requires forall a :: 0 <= a < |values| ==> key(values[a]) == keys[a]
    requires multiset(sorted) == multiset(values)
    requires 0 <= i < j < |sorted|
    ensures key(sorted[i]) != key(sorted[j])
  {
    assert sorted[i] in multiset(values) && sorted[j] in multiset(values);
    var a :| 0 <= a < |values| && values[a] == sorted[i];
    var b :| 0 <= b < |values| && values[b] == sorted[j];
    UniqueInList(values, keys, a, key);
    TwoPositions(sorted, i, j);
  }

  lemma TwoPositions(s: seq<Item>, i: int, j: int)
    requires 0 <= i < j < |s|
    ensures s[i] == s[j] ==> multiset(s)[s[i]] >= 2
  {
    assert s == s[..i] + [s[i]] + s[i + 1..j] + [s[j]] + s[j + 1..];
  }

  lemma UniqueInList(values: seq<Item>, keys: seq<string>, a: int, key: Item -> string)
    requires |values| == |keys|
    requires forall p, q :: 0 <= p < q < |keys| ==> keys[p] != keys[q]
    requires forall p :: 0 <= p < |values| ==> key(values[p]) == keys[p]
    requires 0 <= a < |values|
    ensures multiset(values)[values[a]] == 1
  {
    var x := values[a];
    assert values == values[..a] + [x] + values[a + 1..];
    forall p | 0 <= p < |values| && p != a ensures values[p] != x {
      if p < a { assert keys[p] != keys[a]; } else { assert keys[a] != keys[p]; }
    }
    NotInMultiset(values[..a], x);
    NotInMultiset(values[a + 1..], x);
  }

  lemma NotInMultiset(s: seq<Item>, x: Item)
    requires forall p :: 0 <= p < |s| ==> s[p] != x
    ensures multiset(s)[x] == 0
  {
    assert x !in s;
  }

  // ---------------------------------------------------------------------
  // The filters

  /** One filter: an empty filter passes; otherwise the lower-cased field
      contains the lower-cased filter text. */
  predicate Passes(field: string, filter: string) {
    filter == [] || Contains(Lower(field), Lower(filter))
  }

  predicate Shown(s: Item, dept: string, title: string, hall: string) {
    Passes(s.department, dept) && Passes(s.slotTitle, title) && Passes(s.hallName, hall)
  }

  /** filteredSeminars: the shown items, in list order. */
  function Filtered(items: seq<Item>, dept: string, title: string, hall: string): (r: seq<Item>)
    ensures |r| <= |items|
    ensures forall x :: x in r <==> x in items && Shown(x, dept, title, hall)
    decreases |items|
  {
    if items == [] then []
    else if Shown(items[0], dept, title, hall) then [items[0]] + Filtered(items[1..], dept, title, hall)
    else Filtered(items[1..], dept, title, hall)
  }

  /** With every filter empty the list is shown whole. */
  lemma {:induction false} EmptyFiltersShowAll(items: seq<Item>)
    ensures Filtered(items, "", "", "") == items
    decreases |items|
  {
    if items != [] {
      EmptyFiltersShowAll(items[1..]);
    }
  }

  /** Filtering keeps the sort order. */
  lemma {:induction false} FilteredStaysSorted(items: seq<Item>, dept: string, title: string, hall: string)
    requires Sorted(items)
    ensures Sorted(Filtered(items, dept, title, hall))
    decreases |items|
  {
    if items != [] {
      FilteredStaysSorted(items[1..], dept, title, hall);
      var rest := Filtered(items[1..], dept, title, hall);
      forall y | y in rest ensures !Before(y, items[0]) {
        var k :| 0 <= k < |items[1..]| && items[1..][k] == y;
        assert items[k + 1] == y;
      }
    }
  }

  /** The filters ignore case on both sides. */
  lemma PassesIgnoresCase(field: string, filter: string)
    ensures Passes(Upper(field), Upper(filter)) == Passes(field, filter)
  {
    LowerOfUpper(field);
    LowerOfUpper(filter);
  }

  lemma LowerOfUpper(s: string)
    ensures Lower(Upper(s)) == Lower(s)
  {
    forall i | 0 <= i < |s| ensures LowerChar(UpperChar(s[i])) == LowerChar(s[i]) {
      var c := s[i];
      if IsAsciiLower(c) {
        assert UpperChar(c) as int == c as int - 32;
      }
    }
  }

  /** Applying the same filters twice changes nothing. */
  lemma {:induction false} FilterIdempotent(items: seq<Item>, dept: string, title: string, hall: string)
    ensures Filtered(Filtered(items, dept, title, hall), dept, title, hall) == Filtered(items, dept, title, hall)
    decreases |items|
  {
    if items != [] {
      FilterIdempotent(items[1..], dept, title, hall);
    }
  }
}
