// The repositories of the back end, as values: a collection is a sequence
// of documents, and `findById` / `deleteById` look a document up by its id.
// The errors the services raise as ResponseStatusException are HTTP statuses.

module Repository {

  import opened Wrappers

  /** The statuses the services answer with when they refuse a request.
      `ServerError` is an uncaught exception (HTTP 500). */
  datatype HttpError = BadRequest | Conflict | NotFound | ServerError

  /** `findById`: the position of the first document whose id is `id`. */
  function IndexOf<T>(docs: seq<T>, idOf: T -> Option<string>, id: string): (r: Option<nat>)
    ensures r.None? <==> forall k :: 0 <= k < |docs| ==> idOf(docs[k]) != Some(id)
    ensures r.Some? ==> r.value < |docs| && idOf(docs[r.value]) == Some(id)
                        && forall k :: 0 <= k < r.value ==> idOf(docs[k]) != Some(id)
  {
    if |docs| == 0 then None
    else if idOf(docs[0]) == Some(id) then Some(0)
    else match IndexOf(docs[1..], idOf, id)
      case None => None
      case Some(k) => Some(k + 1)
  }

  /** Ids are unique in a collection, as Mongo's `_id` is. */
  predicate IdsUnique<T>(docs: seq<T>, idOf: T -> Option<string>) {
    forall i, j :: 0 <= i < j < |docs| && idOf(docs[i]).Some? ==> idOf(docs[i]) != idOf(docs[j])
  }

  /** `deleteById`: the document at `i` leaves, the others keep their order. */
  function RemoveAt<T>(docs: seq<T>, i: nat): (r: seq<T>)
    requires i < |docs|
    ensures |r| == |docs| - 1
    ensures forall k :: 0 <= k < i ==> r[k] == docs[k]
    ensures forall k :: i <= k < |r| ==> r[k] == docs[k + 1]
  {
    docs[..i] + docs[i + 1..]
  }

  /** With unique ids, deleting by id leaves no document with that id and
      keeps every other one. */
  lemma RemoveById<T>(docs: seq<T>, idOf: T -> Option<string>, id: string, i: nat)
    requires IdsUnique(docs, idOf)
    requires i < |docs| && idOf(docs[i]) == Some(id)
    ensures forall k :: 0 <= k < |RemoveAt(docs, i)| ==> idOf(RemoveAt(docs, i)[k]) != Some(id)
    ensures forall x :: x in docs && idOf(x) != Some(id) ==> x in RemoveAt(docs, i)
  {
    var r := RemoveAt(docs, i);
    forall k | 0 <= k < |r|
      ensures idOf(r[k]) != Some(id)
    {
      if k < i {
        assert idOf(docs[k]) != idOf(docs[i]);
      } else {
        assert idOf(docs[i]) != idOf(docs[k + 1]);
      }
    }
    forall x | x in docs && idOf(x) != Some(id)
      ensures x in r
    {
      var k :| 0 <= k < |docs| && docs[k] == x;
      if k < i {
        assert r[k] == x;
      } else {
        assert k != i;
        assert r[k - 1] == x;
      }
    }
  }
}
