// SeminarHallService: halls with a positive capacity and names unique up
// to case. Each operation answers with the collection after the save or
// with the HTTP status it refuses the request with.

module HallService {

  import opened Wrappers
  import opened Text
  import opened Repository

  /** model/SeminarHall.java */
  datatype Hall = Hall(id: Option<string>, name: Option<string>, capacity: Option<int>)

  function HallId(h: Hall): Option<string> { h.id }

  /** `existsByNameIgnoreCase(name)` */
  predicate NameTaken(store: seq<Hall>, name: string) {
    exists k :: 0 <= k < |store| && store[k].name.Some? && EqualsIgnoreCase(store[k].name.value, name)
  }

  /** `findFirstByNameIgnoreCase(name)`: the first hall with that name up to
      case. */
  function FirstByName(store: seq<Hall>, name: string): (r: Option<nat>)
    ensures r.None? <==> !NameTaken(store, name)
    ensures r.Some? ==> r.value < |store| && store[r.value].name.Some?
                        && EqualsIgnoreCase(store[r.value].name.value, name)
    ensures r.Some? ==> forall k :: 0 <= k < r.value && store[k].name.Some? ==>
                          !EqualsIgnoreCase(store[k].name.value, name)
  {
    if store == [] then None
    else if store[0].name.Some? && EqualsIgnoreCase(store[0].name.value, name) then Some(0)
    else match FirstByName(store[1..], name)
      case None =>
        assert forall k :: 1 <= k < |store| ==> store[k] == store[1..][k - 1];
        None
      case Some(k) => Some(k + 1)
  }

  /** No two halls share a name up to case: what add and update keep. */
  predicate NamesDistinct(store: seq<Hall>) {
    forall i, j :: 0 <= i < j < |store| && store[i].name.Some? && store[j].name.Some? ==>
      !EqualsIgnoreCase(store[i].name.value, store[j].name.value)
  }

  /** `name == null || name.trim().isEmpty()` */
  predicate BlankName(name: Option<string>) {
    name.None? || Trim(name.value) == ""
  }

  /** `capacity == null || capacity <= 0` */
  predicate BadCapacity(capacity: Option<int>) {
    capacity.None? || capacity.value <= 0
  }

  /** addHall: a null body, a blank name and a missing or non-positive
      capacity are BAD_REQUEST; a name taken up to case is CONFLICT. The
      name is checked and stored as given, untrimmed. */
  function AddHall(store: seq<Hall>, hall: Option<Hall>): (r: Result<seq<Hall>, HttpError>)
    ensures hall.None? ==> r == Err(BadRequest)
    ensures r == Err(BadRequest) <==> hall.None? || BlankName(hall.value.name) || BadCapacity(hall.value.capacity)
    ensures r == Err(Conflict) <==>
      hall.Some? && !BlankName(hall.value.name) && !BadCapacity(hall.value.capacity)
      && NameTaken(store, hall.value.name.value)
    ensures r.Ok? ==> r.value == store + [hall.value] && r.value[|store|].capacity.value > 0
  {
    if hall.None? then Err(BadRequest)
    else
      var h := hall.value;
      if BlankName(h.name) then Err(BadRequest)
      else if BadCapacity(h.capacity) then Err(BadRequest)
      else if NameTaken(store, h.name.value) then Err(Conflict)
      else Ok(store + [h])
  }

  lemma AddKeepsNamesDistinct(store: seq<Hall>, hall: Option<Hall>)
    requires NamesDistinct(store)
    requires AddHall(store, hall).Ok?
    ensures NamesDistinct(AddHall(store, hall).value)
  {
    var r := store + [hall.value];
    forall i, j | 0 <= i < j < |r| && r[i].name.Some? && r[j].name.Some?
      ensures !EqualsIgnoreCase(r[i].name.value, r[j].name.value)
    {
      if j == |store| {
        assert r[i] == store[i];
      }
    }
  }

  /** getHallById */
  function GetHall(store: seq<Hall>, id: string): (r: Result<Hall, HttpError>)
    ensures r == Err(NotFound) <==> forall k :: 0 <= k < |store| ==> store[k].id != Some(id)
    ensures r.Ok? ==> r.value in store && r.value.id == Some(id)
  {
    match IndexOf(store, HallId, id)
    case None => Err(NotFound)
    case Some(i) => Ok(store[i])
  }

  /** The name updateHall stores: trimmed, and empty for a null name. */
  function NewName(updated: Hall): string {
    if updated.name.None? then "" else Trim(updated.name.value)
  }

  /** updateHall: the name and capacity are checked before the id is looked
      up. A hall found by the trimmed name up to case is a CONFLICT unless it
      is the hall being updated (a null id there fails with a
      null-dereference exception). Only the name and the capacity change. */
  function UpdateHall(store: seq<Hall>, id: string, updated: Option<Hall>): (r: Result<seq<Hall>, HttpError>)
    ensures r == Err(BadRequest) <==>
      updated.None? || NewName(updated.value) == "" || BadCapacity(updated.value.capacity)
    ensures r == Err(NotFound) <==>
      updated.Some? && NewName(updated.value) != "" && !BadCapacity(updated.value.capacity)
      && IndexOf(store, HallId, id).None?
    ensures r == Err(Conflict) <==>
      updated.Some? && NewName(updated.value) != "" && !BadCapacity(updated.value.capacity)
      && IndexOf(store, HallId, id).Some? && FirstByName(store, NewName(updated.value)).Some?
      && var i := IndexOf(store, HallId, id).value;
         var j := FirstByName(store, NewName(updated.value)).value;
         store[j].id.Some? && store[j].id != store[i].id
    ensures r == Err(ServerError) <==>
      updated.Some? && NewName(updated.value) != "" && !BadCapacity(updated.value.capacity)
      && IndexOf(store, HallId, id).Some? && FirstByName(store, NewName(updated.value)).Some?
      && store[FirstByName(store, NewName(updated.value)).value].id.None?
    ensures r.Ok? ==>
      var i := IndexOf(store, HallId, id).value;
      var h := updated.value;
      r.value == store[i := store[i].(name := Some(NewName(h)), capacity := h.capacity)]
      && (FirstByName(store, NewName(h)).None? || store[FirstByName(store, NewName(h)).value].id == Some(id))
  {
    if updated.None? then Err(BadRequest)
    else
      var newName := NewName(updated.value);
      var newCapacity := updated.value.capacity;
      if newName == "" then Err(BadRequest)
      else if BadCapacity(newCapacity) then Err(BadRequest)
      else match IndexOf(store, HallId, id)
        case None => Err(NotFound)
        case Some(i) =>
          match FirstByName(store, newName)
          case Some(j) =>
            if store[j].id.None? then Err(ServerError)
            else if store[j].id != store[i].id then Err(Conflict)
            else Ok(store[i := store[i].(name := Some(newName), capacity := newCapacity)])
          case None => Ok(store[i := store[i].(name := Some(newName), capacity := newCapacity)])
  }

  /** Names that are equal up to case to the same name are equal up to case
      to each other. */
  lemma SameNameUpToCase(a: string, b: string, n: string)
    requires EqualsIgnoreCase(a, n) && EqualsIgnoreCase(b, n)
    ensures EqualsIgnoreCase(a, b)
  {
  }

  /** A hall renamed to its own name in another case is not a conflict. */
  lemma CaseOnlyRenameAllowed(store: seq<Hall>, id: string, updated: Hall)
    requires NamesDistinct(store) && IdsUnique(store, HallId)
    requires IndexOf(store, HallId, id).Some?
    requires NewName(updated) != "" && !BadCapacity(updated.capacity)
    requires var cur := store[IndexOf(store, HallId, id).value].name;
             cur.Some? && EqualsIgnoreCase(cur.value, NewName(updated))
    ensures UpdateHall(store, id, Some(updated)).Ok?
  {
    FirstByNameIsOnlyMatch(store, NewName(updated), IndexOf(store, HallId, id).value);
  }

  /** With names distinct up to case, the hall FirstByName finds is the only
      one with that name. */
  lemma FirstByNameIsOnlyMatch(store: seq<Hall>, n: string, k: nat)
    requires NamesDistinct(store)
    requires k < |store| && store[k].name.Some? && EqualsIgnoreCase(store[k].name.value, n)
    ensures FirstByName(store, n) == Some(k)
  {
    var j := FirstByName(store, n).value;
    SameNameUpToCase(store[j].name.value, store[k].name.value, n);
  }

  /** With unique ids, an update keeps the names distinct up to case. */
  lemma UpdateKeepsNamesDistinct(store: seq<Hall>, id: string, updated: Option<Hall>)
    requires NamesDistinct(store) && IdsUnique(store, HallId)
    requires UpdateHall(store, id, updated).Ok?
    ensures NamesDistinct(UpdateHall(store, id, updated).value)
  {
    var i := IndexOf(store, HallId, id).value;
    var n := NewName(updated.value);
    var r := UpdateHall(store, id, updated).value;
    forall k | 0 <= k < |store| && k != i && store[k].name.Some?
      ensures !EqualsIgnoreCase(store[k].name.value, n)
    {
      NotRenamedOnto(store, i, k, n);
    }
    forall a, b | 0 <= a < b < |r| && r[a].name.Some? && r[b].name.Some?
      ensures !EqualsIgnoreCase(r[a].name.value, r[b].name.value)
    {
      if a == i {
        assert r[a].name.value == n;
      } else if b == i {
        assert r[b].name.value == n;
      }
    }
  }

  /** The step of the proof above: no other hall already has the new name,
      or FirstByName would have found it and the update would have been
      refused. */
  lemma NotRenamedOnto(store: seq<Hall>, i: nat, k: nat, n: string)
    requires NamesDistinct(store) && IdsUnique(store, HallId)
    requires i < |store| && k < |store| && k != i && store[i].id.Some?
    requires store[k].name.Some?
    requires FirstByName(store, n).None? || store[FirstByName(store, n).value].id == store[i].id
    ensures !EqualsIgnoreCase(store[k].name.value, n)
  {
    if EqualsIgnoreCase(store[k].name.value, n) {
      FirstByNameIsOnlyMatch(store, n, k);
      SameIdSamePosition(store, i, k);
    }
  }

  lemma SameIdSamePosition(store: seq<Hall>, i: nat, k: nat)
    requires IdsUnique(store, HallId)
    requires i < |store| && k < |store| && store[i].id.Some? && store[i].id == store[k].id
    ensures i == k
  {
  }

  /** deleteHall: NOT_FOUND for an unknown id; otherwise that hall leaves. */
  function DeleteHall(store: seq<Hall>, id: string): (r: Result<seq<Hall>, HttpError>)
    ensures r == Err(NotFound) <==> forall k :: 0 <= k < |store| ==> store[k].id != Some(id)
    ensures r.Ok? ==> |r.value| == |store| - 1 && forall x :: x in r.value ==> x in store
  {
    match IndexOf(store, HallId, id)
    case None => Err(NotFound)
    case Some(i) => Ok(RemoveAt(store, i))
  }

  /** With unique ids, a deleted hall is gone and every other hall stays. */
  lemma DeleteRemovesOnlyThatHall(store: seq<Hall>, id: string)
    requires IdsUnique(store, HallId)
    requires DeleteHall(store, id).Ok?
    ensures forall x :: x in DeleteHall(store, id).value ==> x.id != Some(id)
    ensures forall x :: x in store && x.id != Some(id) ==> x in DeleteHall(store, id).value
  {
    var i := IndexOf(store, HallId, id).value;
    RemoveById(store, HallId, id, i);
  }
}
