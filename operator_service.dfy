// HallOperatorService: the operators (heads) of seminar halls. An operator
// names the halls it runs by two parallel lists, hall ids and hall names,
// which addOperator fills by looking each requested hall up. The welcome
// mail sent after a save is not part of this model.

module OperatorService {

  import opened Wrappers
  import opened Text
  import opened Patterns
  import opened Repository
  import opened HallService

  /** model/HallOperator.java. A list entry may be null, as a Java list's
      may. */
  datatype Operator = Operator(id: Option<string>,
                               hallIds: Option<seq<Option<string>>>,
                               hallNames: Option<seq<Option<string>>>,
                               headName: Option<string>,
                               headEmail: Option<string>,
                               phone: Option<string>)

  /** Why a request is refused, one constructor per message. */
  datatype OperatorError =
    | BodyRequired        // "Operator body required"
    | EmailRequired       // "Head email required"
    | EmailDomain         // "Head email must be @newhorizonindia.edu or @gmail.com"
    | PhoneFormat         // "Phone must be 10 digits starting with 6/7/8/9"
    | EmailExists         // "Email already exists"
    | HallNotFound        // "Hall not found", "Hall not found by name: ..."
    | NoHall              // "At least one hall required"
    | OperatorNotFound    // "Operator not found"
    | NullEntry           // a null hall id or hall name in the request

  /** The HTTP status each refusal is answered with. */
  function Status(e: OperatorError): (r: HttpError)
    ensures r == NotFound <==> e == HallNotFound || e == OperatorNotFound
    ensures r == ServerError <==> e == NullEntry
  {
    match e
    case HallNotFound => NotFound
    case OperatorNotFound => NotFound
    case NullEntry => ServerError
    case _ => BadRequest
  }

  function OperatorId(o: Operator): Option<string> { o.id }

  const ALLOWED_DOMAINS: seq<string> := ["@newhorizonindia.edu", "@gmail.com"]

  /** `email.trim().toLowerCase()` */
  function NormalizeEmail(email: string): string {
    Lower(Trim(email))
  }

  /** The domain rule: the normalised address ends with an allowed domain. */
  predicate EmailAllowed(email: string) {
    EndsWith(NormalizeEmail(email), "@newhorizonindia.edu") || EndsWith(NormalizeEmail(email), "@gmail.com")
  }

  /** validateEmailDomain: the loop over ALLOWED_DOMAINS. */
  method ValidateEmailDomain(email: Option<string>) returns (err: Option<OperatorError>)
    ensures email.None? ==> err == Some(EmailRequired)
    ensures email.Some? ==> (err.None? <==> EmailAllowed(email.value))
    ensures email.Some? && err.Some? ==> err == Some(EmailDomain)
  {
    if email.None? {
      return Some(EmailRequired);
    }
    var lower := NormalizeEmail(email.value);
    var allowed := EndsWithAny(lower, ALLOWED_DOMAINS);
    EndsWithEitherOfTwo(lower, ALLOWED_DOMAINS);
    assert ALLOWED_DOMAINS[0] == "@newhorizonindia.edu" && ALLOWED_DOMAINS[1] == "@gmail.com";
    if allowed {
      return None;
    }
    return Some(EmailDomain);
  }

  lemma EndsWithEitherOfTwo(s: string, domains: seq<string>)
    requires |domains| == 2
    ensures (exists k :: 0 <= k < |domains| && EndsWith(s, domains[k]))
            <==> EndsWith(s, domains[0]) || EndsWith(s, domains[1])
  {
  }

  /** The loop over the domains: does the text end with one of them? */
  method EndsWithAny(s: string, domains: seq<string>) returns (found: bool)
    ensures found <==> exists k :: 0 <= k < |domains| && EndsWith(s, domains[k])
  {
    var i := 0;
    while i < |domains|
      invariant 0 <= i <= |domains|
      invariant forall k :: 0 <= k < i ==> !EndsWith(s, domains[k])
    {
      if EndsWith(s, domains[i]) {
        return true;
      }
      i := i + 1;
    }
    return false;
  }

  /** The phone rule: null or blank passes, anything else must match the
      phone pattern once trimmed (the untrimmed value is what is stored). */
  predicate PhoneAllowed(phone: Option<string>) {
    NullOrBlank(phone) || MatchesPhone(Trim(phone.value))
  }

  /** validatePhoneOptional */
  function ValidatePhoneOptional(phone: Option<string>): (err: Option<OperatorError>)
    ensures err.None? <==> NullOrBlank(phone) || MatchesPhone(Trim(phone.value))
    ensures err.Some? ==> err == Some(PhoneFormat)
  {
    if NullOrBlank(phone) then None
    else if !MatchesPhone(Trim(phone.value)) then Some(PhoneFormat)
    else None
  }

  // ---------------------------------------------------------------------
  // addOperator

  /** `findByHeadEmailIgnoreCase(email).isPresent()` */
  predicate EmailTaken(ops: seq<Operator>, email: string) {
    exists k :: 0 <= k < |ops| && ops[k].headEmail.Some? && EqualsIgnoreCase(ops[k].headEmail.value, email)
  }

  /** No two operators share an email up to case: what addOperator keeps. */
  predicate EmailsDistinct(ops: seq<Operator>) {
    forall i, j :: 0 <= i < j < |ops| && ops[i].headEmail.Some? && ops[j].headEmail.Some? ==>
      !EqualsIgnoreCase(ops[i].headEmail.value, ops[j].headEmail.value)
  }

  /** One requested hall looked up: by id with `findById`, or by the trimmed
      name with `findFirstByNameIgnoreCase`. */
  function Lookup(halls: seq<Hall>, key: Option<string>, byId: bool): (r: Result<Hall, OperatorError>)
    ensures r.Err? ==> r.error == HallNotFound || (r.error == NullEntry && key.None?)
  {
    if key.None? then Err(NullEntry)
    else if byId then
      match IndexOf(halls, HallId, key.value)
      case None => Err(HallNotFound)
      case Some(i) => Ok(halls[i])
    else
      match FirstByName(halls, Trim(key.value))
      case None => Err(HallNotFound)
      case Some(i) => Ok(halls[i])
  }

  /** A lookup finds a stored hall with the requested id, or one whose
      name equals the trimmed requested name up to case, and fails only when
      there is none. */
  lemma LookupMeaning(halls: seq<Hall>, key: Option<string>, byId: bool)
    ensures var r := Lookup(halls, key, byId);
            (r.Ok? ==> r.value in halls && key.Some?)
            && (r.Ok? && byId ==> r.value.id == key)
            && (r.Ok? && !byId ==> r.value.name.Some? && EqualsIgnoreCase(r.value.name.value, Trim(key.value)))
            && (key.Some? && byId ==> (r.Ok? <==> exists k :: 0 <= k < |halls| && halls[k].id == key))
            && (key.Some? && !byId ==> (r.Ok? <==> NameTaken(halls, Trim(key.value))))
  {
  }

  /** The two lists name the same halls of the store, pairwise. */
  predicate Parallel(halls: seq<Hall>, ids: seq<Option<string>>, names: seq<Option<string>>) {
    |ids| == |names| && forall k :: 0 <= k < |ids| ==> IsHall(halls, ids[k], names[k])
  }

  /** Some stored hall has this id and this name. */
  predicate IsHall(halls: seq<Hall>, id: Option<string>, name: Option<string>) {
    exists h :: h in halls && h.id == id && h.name == name
  }

  /** The resolution loop: each requested hall in turn, stopping at the
      first one that does not resolve. */
  method ResolveHalls(halls: seq<Hall>, keys: seq<Option<string>>, byId: bool)
    returns (r: Result<(seq<Option<string>>, seq<Option<string>>), OperatorError>)
    ensures r.Ok? <==> forall k :: 0 <= k < |keys| ==> Lookup(halls, keys[k], byId).Ok?
    ensures r.Ok? ==> |r.value.0| == |keys| && |r.value.1| == |keys|
    ensures r.Ok? ==> forall k :: 0 <= k < |keys| ==>
              r.value.0[k] == Lookup(halls, keys[k], byId).value.id
              && r.value.1[k] == Lookup(halls, keys[k], byId).value.name
    ensures r.Err? ==> exists k :: 0 <= k < |keys| && Lookup(halls, keys[k], byId) == Err(r.error)
                                   && forall j :: 0 <= j < k ==> Lookup(halls, keys[j], byId).Ok?
  {
    ghost var rs := Lookups(halls, keys, byId);
    var ids: seq<Option<string>> := [];
    var names: seq<Option<string>> := [];
    var i := 0;
    while i < |keys|
      invariant 0 <= i <= |keys|
      invariant ResolvedUpTo(rs, i, ids, names)
    {
      var found := Lookup(halls, keys[i], byId);
      if found.Err? {
        return Err(found.error);
      }
      ResolvedStep(rs, i, ids, names, found.value);
      ids := ids + [found.value.id];
      names := names + [found.value.name];
      i := i + 1;
    }
    return Ok((ids, names));
  }

  /** The lookup of every requested hall. */
  ghost function Lookups(halls: seq<Hall>, keys: seq<Option<string>>, byId: bool): (rs: seq<Result<Hall, OperatorError>>)
    ensures |rs| == |keys| && forall k :: 0 <= k < |keys| ==> rs[k] == Lookup(halls, keys[k], byId)
  {
    seq(|keys|, k requires 0 <= k < |keys| => Lookup(halls, keys[k], byId))
  }

  /** The first i lookups all succeeded, giving the listed ids and names. */
  ghost predicate ResolvedUpTo(rs: seq<Result<Hall, OperatorError>>, i: nat,
                               ids: seq<Option<string>>, names: seq<Option<string>>)
    requires i <= |rs|
  {
    |ids| == i && |names| == i
    && forall k :: 0 <= k < i ==> rs[k].Ok? && ids[k] == rs[k].value.id && names[k] == rs[k].value.name
  }

  lemma ResolvedStep(rs: seq<Result<Hall, OperatorError>>, i: nat,
                     ids: seq<Option<string>>, names: seq<Option<string>>, h: Hall)
    requires i < |rs| && ResolvedUpTo(rs, i, ids, names) && rs[i] == Ok(h)
    ensures ResolvedUpTo(rs, i + 1, ids + [h.id], names + [h.name])
  {
  }

  /** The resolved lists are parallel: the k-th id and the k-th name are
      those of one stored hall. */
  lemma ResolvedListsParallel(halls: seq<Hall>, keys: seq<Option<string>>, byId: bool,
                              ids: seq<Option<string>>, names: seq<Option<string>>)
    requires forall k :: 0 <= k < |keys| ==> Lookup(halls, keys[k], byId).Ok?
    requires |ids| == |keys| && |names| == |keys|
    requires forall k :: 0 <= k < |keys| ==>
               ids[k] == Lookup(halls, keys[k], byId).value.id
               && names[k] == Lookup(halls, keys[k], byId).value.name
    ensures Parallel(halls, ids, names)
    ensures byId ==> ids == keys
  {
    forall k | 0 <= k < |ids|
      ensures IsHall(halls, ids[k], names[k])
      ensures byId ==> ids[k] == keys[k]
    {
      LookupMeaning(halls, keys[k], byId);
      var h := Lookup(halls, keys[k], byId).value;
      assert h in halls && h.id == ids[k] && h.name == names[k];
    }
    if byId {
      assert forall k :: 0 <= k < |ids| ==> ids[k] == keys[k];
      assert ids == keys;
    }
  }

  /** A non-empty list: `list != null && !list.isEmpty()`. */
  predicate Given(list: Option<seq<Option<string>>>) {
    list.Some? && list.value != []
  }

  /** The halls requested: the ids when given, else the names. */
  function Keys(op: Operator): seq<Option<string>> {
    if Given(op.hallIds) then op.hallIds.value
    else if op.hallNames.Some? then op.hallNames.value
    else []
  }

  /** Some hall list is given and each of its entries resolves. */
  predicate HallsResolve(halls: seq<Hall>, op: Operator) {
    (Given(op.hallIds) || Given(op.hallNames))
    && forall k :: 0 <= k < |Keys(op)| ==> Lookup(halls, Keys(op)[k], Given(op.hallIds)).Ok?
  }

  /** `saved` is `op` with its hall lists replaced by the resolved ones:
      parallel, one entry per requested hall, and the requested ids
      themselves when ids were given. */
  predicate Attached(halls: seq<Hall>, op: Operator, saved: Operator) {
    saved.hallIds.Some? && saved.hallNames.Some?
    && Parallel(halls, saved.hallIds.value, saved.hallNames.value)
    && (Given(op.hallIds) ==> saved.hallIds == op.hallIds)
    && |saved.hallIds.value| == |Keys(op)|
    && saved.(hallIds := op.hallIds, hallNames := op.hallNames) == op
  }

  /** The part of addOperator after the duplicate check: hallIds take
      precedence over hallNames, and neither given is BAD_REQUEST. */
  method AttachHalls(halls: seq<Hall>, op: Operator) returns (r: Result<Operator, OperatorError>)
    ensures r == Err(NoHall) <==> !Given(op.hallIds) && !Given(op.hallNames)
    ensures r.Ok? <==> HallsResolve(halls, op)
    ensures r.Err? ==> r.error in {NoHall, HallNotFound, NullEntry}
    ensures r.Ok? ==> Attached(halls, op, r.value)
  {
    var byId := Given(op.hallIds);
    if !byId && !Given(op.hallNames) {
      return Err(NoHall);
    }
    var keys := Keys(op);
    var resolved := ResolveHalls(halls, keys, byId);
    if resolved.Err? {
      return Err(resolved.error);
    }
    ResolvedListsParallel(halls, keys, byId, resolved.value.0, resolved.value.1);
    return Ok(op.(hallIds := Some(resolved.value.0), hallNames := Some(resolved.value.1)));
  }

  /** What addOperator checks before the halls: an email in an allowed
      domain, an acceptable phone, and no operator with that email. */
  predicate Screened(ops: seq<Operator>, op: Operator) {
    op.headEmail.Some? && EmailAllowed(op.headEmail.value) && PhoneAllowed(op.phone)
    && !EmailTaken(ops, NormalizeEmail(op.headEmail.value))
  }

  /** addOperator: the body, the email, the phone, a duplicate email and
      then the halls are checked, in that order; the operator saved has the
      normalised email and the resolved, parallel hall lists. */
  method AddOperator(ops: seq<Operator>, halls: seq<Hall>, body: Option<Operator>)
    returns (r: Result<Operator, OperatorError>)
    ensures body.None? ==> r == Err(BodyRequired)
    ensures body.Some? && body.value.headEmail.None? ==> r == Err(EmailRequired)
    ensures body.Some? && body.value.headEmail.Some? && !EmailAllowed(body.value.headEmail.value) ==> r == Err(EmailDomain)
    ensures (body.Some? && body.value.headEmail.Some? && EmailAllowed(body.value.headEmail.value)
             && !PhoneAllowed(body.value.phone)) ==> r == Err(PhoneFormat)
    ensures (body.Some? && body.value.headEmail.Some? && EmailAllowed(body.value.headEmail.value)
             && PhoneAllowed(body.value.phone)
             && EmailTaken(ops, NormalizeEmail(body.value.headEmail.value))) ==> r == Err(EmailExists)
    ensures r.Ok? <==> body.Some? && Screened(ops, body.value) && HallsResolve(halls, body.value)
    ensures r == Err(NoHall) <==>
      body.Some? && Screened(ops, body.value) && !Given(body.value.hallIds) && !Given(body.value.hallNames)
    ensures r.Ok? ==>
      r.value.headEmail == Some(NormalizeEmail(body.value.headEmail.value))
      && !EmailTaken(ops, r.value.headEmail.value)
      && Attached(halls, body.value.(headEmail := r.value.headEmail), r.value)
  {
    if body.None? {
      return Err(BodyRequired);
    }
    var op := body.value;
    if op.headEmail.Some? {
      op := op.(headEmail := Some(NormalizeEmail(op.headEmail.value)));
      NormalizeIdempotent(body.value.headEmail.value);
    }
    var bad := ValidateEmailDomain(op.headEmail);
    if bad.Some? {
      return Err(bad.value);
    }
    var badPhone := ValidatePhoneOptional(op.phone);
    if badPhone.Some? {
      return Err(badPhone.value);
    }
    if EmailTaken(ops, op.headEmail.value) {
      return Err(EmailExists);
    }
    assert Keys(op) == Keys(body.value) && Given(op.hallIds) == Given(body.value.hallIds);
    r := AttachHalls(halls, op);
  }

  lemma NormalizeIdempotent(email: string)
    ensures NormalizeEmail(NormalizeEmail(email)) == NormalizeEmail(email)
    ensures EmailAllowed(NormalizeEmail(email)) <==> EmailAllowed(email)
  {
    LowerTrimIdempotent(email);
  }

  /** Saving an accepted operator keeps emails distinct up to case. */
  lemma AddKeepsEmailsDistinct(ops: seq<Operator>, saved: Operator)
    requires EmailsDistinct(ops)
    requires saved.headEmail.Some? && !EmailTaken(ops, saved.headEmail.value)
    ensures EmailsDistinct(ops + [saved])
  {
    var r := ops + [saved];
    forall i, j | 0 <= i < j < |r| && r[i].headEmail.Some? && r[j].headEmail.Some?
      ensures !EqualsIgnoreCase(r[i].headEmail.value, r[j].headEmail.value)
    {
      if j == |ops| {
        assert r[i] == ops[i];
        assert !EqualsIgnoreCase(ops[i].headEmail.value, saved.headEmail.value);
      }
    }
  }

  // ---------------------------------------------------------------------
  // updateOperator and deleteOperator

  /** The merge: non-null fields overwrite, hall lists only when non-empty. */
  function Merge(e: Operator, p: Operator): (r: Operator)
    ensures r.id == e.id
  {
    e.(headName := if p.headName.Some? then p.headName else e.headName,
       headEmail := if p.headEmail.Some? then p.headEmail else e.headEmail,
       phone := if p.phone.Some? then p.phone else e.phone,
       hallIds := if Given(p.hallIds) then p.hallIds else e.hallIds,
       hallNames := if Given(p.hallNames) then p.hallNames else e.hallNames)
  }

  /** updateOperator: the body, a given email and a given phone are checked
      before the id is looked up. */
  method UpdateOperator(ops: seq<Operator>, id: string, body: Option<Operator>)
    returns (r: Result<Operator, OperatorError>)
    ensures body.None? ==> r == Err(BodyRequired)
    ensures body.Some? && body.value.headEmail.Some? && !EmailAllowed(body.value.headEmail.value) ==> r == Err(EmailDomain)
    ensures (body.Some? && (body.value.headEmail.None? || EmailAllowed(body.value.headEmail.value))
             && !PhoneAllowed(body.value.phone)) ==> r == Err(PhoneFormat)
    ensures r == Err(OperatorNotFound) <==>
      body.Some? && (body.value.headEmail.None? || EmailAllowed(body.value.headEmail.value))
      && PhoneAllowed(body.value.phone) && IndexOf(ops, OperatorId, id).None?
    ensures r.Ok? ==>
      var p := body.value;
      var p' := if p.headEmail.Some? then p.(headEmail := Some(NormalizeEmail(p.headEmail.value))) else p;
      r.value == Merge(ops[IndexOf(ops, OperatorId, id).value], p')
  {
    if body.None? {
      return Err(BodyRequired);
    }
    var op := body.value;
    if op.headEmail.Some? {
      op := op.(headEmail := Some(NormalizeEmail(op.headEmail.value)));
      NormalizeIdempotent(body.value.headEmail.value);
      var bad := ValidateEmailDomain(op.headEmail);
      if bad.Some? {
        return Err(bad.value);
      }
    }
    if op.phone.Some? {
      var badPhone := ValidatePhoneOptional(op.phone);
      if badPhone.Some? {
        return Err(badPhone.value);
      }
    }
    var found := IndexOf(ops, OperatorId, id);
    if found.None? {
      return Err(OperatorNotFound);
    }
    return Ok(Merge(ops[found.value], op));
  }

  /** Only the fields the body names change, and an empty hall list changes
      nothing. */
  lemma MergeKeepsUnnamed(e: Operator, p: Operator)
    ensures p.headName.None? ==> Merge(e, p).headName == e.headName
    ensures p.headEmail.None? ==> Merge(e, p).headEmail == e.headEmail
    ensures p.phone.None? ==> Merge(e, p).phone == e.phone
    ensures !Given(p.hallIds) ==> Merge(e, p).hallIds == e.hallIds
    ensures !Given(p.hallNames) ==> Merge(e, p).hallNames == e.hallNames
    ensures p.headName.Some? ==> Merge(e, p).headName == p.headName
    ensures p.headEmail.Some? ==> Merge(e, p).headEmail == p.headEmail
    ensures p.phone.Some? ==> Merge(e, p).phone == p.phone
    ensures Given(p.hallIds) ==> Merge(e, p).hallIds == p.hallIds
    ensures Given(p.hallNames) ==> Merge(e, p).hallNames == p.hallNames
  {
  }

  /** The update does not resolve the halls it is given: replacing only the
      ids leaves the old names beside them, and the lists stop being
      parallel. */
  lemma UpdateCanUnpairHalls()
    ensures var e := Operator(Some("op"), Some([Some("h1")]), Some([Some("Main")]), None, None, None);
            var p := Operator(None, Some([Some("h2"), Some("h3")]), None, None, None, None);
            |Merge(e, p).hallIds.value| != |Merge(e, p).hallNames.value|
  {
  }

  /** deleteOperator: NOT_FOUND for an unknown id. */
  function DeleteOperator(ops: seq<Operator>, id: string): (r: Result<seq<Operator>, OperatorError>)
    ensures r == Err(OperatorNotFound) <==> forall k :: 0 <= k < |ops| ==> ops[k].id != Some(id)
    ensures r.Err? ==> r.error == OperatorNotFound
    ensures r.Ok? ==> |r.value| == |ops| - 1 && forall x :: x in r.value ==> x in ops
  {
    match IndexOf(ops, OperatorId, id)
    case None => Err(OperatorNotFound)
    case Some(i) => Ok(RemoveAt(ops, i))
  }

  /** With unique ids, a deleted operator is gone and every other stays. */
  lemma DeleteRemovesOnlyThatOperator(ops: seq<Operator>, id: string)
    requires IdsUnique(ops, OperatorId)
    requires DeleteOperator(ops, id).Ok?
    ensures forall x :: x in DeleteOperator(ops, id).value ==> x.id != Some(id)
    ensures forall x :: x in ops && x.id != Some(id) ==> x in DeleteOperator(ops, id).value
  {
    RemoveById(ops, OperatorId, id, IndexOf(ops, OperatorId, id).value);
  }
}
