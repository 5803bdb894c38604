// UserService: registering a user and patching one. The password encoder
// and the clock are parameters: `encode` is the one-way hash, `now` the
// instant of the call.

module UserService {

  import opened Wrappers
  import opened Text
  import opened Patterns
  import opened Repository

  /** model/User.java; `createdAt` is an instant in milliseconds. */
  datatype User = User(id: Option<string>, name: Option<string>, department: Option<string>,
                       email: Option<string>, phone: Option<string>, password: Option<string>,
                       role: Option<string>, createdBy: Option<string>, createdAt: Option<int>,
                       active: bool)

  /** Why addUser refuses (a RuntimeException), one constructor per
      message; a null email or phone reaches the regex matcher and fails
      with a null-dereference exception. */
  datatype UserError =
    | NameRequired            // "Name is required!"
    | InvalidEmail            // "Invalid email! Must end with @newhorizonindia.edu"
    | InvalidPhone            // "Invalid phone number! ..."
    | EmailAndPhoneTaken      // "Email and Phone already registered!"
    | EmailTaken              // "Email already registered!"
    | PhoneTaken              // "Phone already registered!"
    | PasswordRequired        // "Password required"
    | NullValue               // null-dereference exception

  function UserId(u: User): Option<string> { u.id }

  /** `findByEmail(email).isPresent()`: an exact match. */
  predicate HasEmail(users: seq<User>, email: string) {
    exists k :: 0 <= k < |users| && users[k].email == Some(email)
  }

  /** `findByPhone(phone).isPresent()`: an exact match. */
  predicate HasPhone(users: seq<User>, phone: string) {
    exists k :: 0 <= k < |users| && users[k].phone == Some(phone)
  }

  /** `s == null || s.trim().isEmpty()` */
  predicate Missing(s: Option<string>) {
    s.None? || Trim(s.value) == ""
  }

  /** The contact details addUser accepts: an institution address and a
      ten-digit mobile number, both matched as given (untrimmed). */
  predicate ContactValid(u: User) {
    u.email.Some? && MatchesInstitutionEmail(u.email.value)
    && u.phone.Some? && MatchesPhone(u.phone.value)
  }

  /** addUser: the name, the email, the phone, the duplicates and the
      password are checked in that order. The saved user holds the hash of
      the password, and `now` as createdAt when none was given. */
  function AddUser(users: seq<User>, u: User, encode: string -> string, now: int): (r: Result<User, UserError>)
    ensures Missing(u.name) ==> r == Err(NameRequired)
    ensures !Missing(u.name) && u.email.Some? && !MatchesInstitutionEmail(u.email.value) ==> r == Err(InvalidEmail)
    ensures r.Ok? <==>
      !Missing(u.name) && ContactValid(u)
      && !HasEmail(users, u.email.value) && !HasPhone(users, u.phone.value) && !Missing(u.password)
    ensures !Missing(u.name) && ContactValid(u) ==>
      (r == Err(EmailAndPhoneTaken) <==> HasEmail(users, u.email.value) && HasPhone(users, u.phone.value))
      && (r == Err(EmailTaken) <==> HasEmail(users, u.email.value) && !HasPhone(users, u.phone.value))
      && (r == Err(PhoneTaken) <==> !HasEmail(users, u.email.value) && HasPhone(users, u.phone.value))
    ensures r == Err(PasswordRequired) ==> ContactValid(u) && Missing(u.password)
    ensures r.Ok? ==>
      r.value.password == Some(encode(u.password.value))
      && r.value.createdAt == (if u.createdAt.Some? then u.createdAt else Some(now))
      && r.value.(password := u.password, createdAt := u.createdAt) == u
  {
    if Missing(u.name) then Err(NameRequired)
    else if u.email.None? then Err(NullValue)
    else if !MatchesInstitutionEmail(u.email.value) then Err(InvalidEmail)
    else if u.phone.None? then Err(NullValue)
    else if !MatchesPhone(u.phone.value) then Err(InvalidPhone)
    else
      var emailExists := HasEmail(users, u.email.value);
      var phoneExists := HasPhone(users, u.phone.value);
      if emailExists && phoneExists then Err(EmailAndPhoneTaken)
      else if emailExists then Err(EmailTaken)
      else if phoneExists then Err(PhoneTaken)
      else if Missing(u.password) then Err(PasswordRequired)
      else
        var hashed := u.(password := Some(encode(u.password.value)));
        Ok(if hashed.createdAt.None? then hashed.(createdAt := Some(now)) else hashed)
  }

  /** No two users share an email or a phone number. */
  predicate ContactsDistinct(users: seq<User>) {
    forall i, j :: 0 <= i < j < |users| ==>
      (users[i].email.Some? ==> users[i].email != users[j].email)
      && (users[i].phone.Some? ==> users[i].phone != users[j].phone)
  }

  /** Saving what addUser accepts keeps emails and phone numbers distinct. */
  lemma AddKeepsContactsDistinct(users: seq<User>, u: User, encode: string -> string, now: int)
    requires ContactsDistinct(users)
    requires AddUser(users, u, encode, now).Ok?
    ensures ContactsDistinct(users + [AddUser(users, u, encode, now).value])
  {
    var saved := AddUser(users, u, encode, now).value;
    var r := users + [saved];
    forall i, j | 0 <= i < j < |r|
      ensures r[i].email.Some? ==> r[i].email != r[j].email
      ensures r[i].phone.Some? ==> r[i].phone != r[j].phone
    {
      if j == |users| {
        assert r[i] == users[i];
      }
    }
  }

  /** The password given is never what is stored: with an encoder that
      changes every password, the saved password differs from the raw one. */
  lemma RawPasswordNotStored(users: seq<User>, u: User, encode: string -> string, now: int)
    requires forall p :: encode(p) != p
    requires AddUser(users, u, encode, now).Ok?
    ensures AddUser(users, u, encode, now).value.password != u.password
  {
  }

  // ---------------------------------------------------------------------
  // updateUser

  /** The patch: each non-null field overwrites the stored one; a given
      password is stored hashed. Nothing is validated. */
  function PatchUser(e: User, p: User, encode: string -> string): (r: User)
    ensures r.id == e.id && r.createdAt == e.createdAt && r.createdBy == e.createdBy && r.active == e.active
    ensures p.password.Some? ==> r.password == Some(encode(p.password.value))
    ensures p.password.None? ==> r.password == e.password
  {
    e.(name := if p.name.Some? then p.name else e.name,
       email := if p.email.Some? then p.email else e.email,
       phone := if p.phone.Some? then p.phone else e.phone,
       role := if p.role.Some? then p.role else e.role,
       department := if p.department.Some? then p.department else e.department,
       password := if p.password.Some? then Some(encode(p.password.value)) else e.password)
  }

  /** updateUser: empty for an unknown id. */
  function UpdateUser(users: seq<User>, id: string, p: User, encode: string -> string): (r: Option<User>)
    ensures r.None? <==> forall k :: 0 <= k < |users| ==> users[k].id != Some(id)
    ensures r.Some? ==> r.value.id == Some(id)
    ensures r.Some? ==> r.value == PatchUser(users[IndexOf(users, UserId, id).value], p, encode)
  {
    match IndexOf(users, UserId, id)
    case None => None
    case Some(i) => Some(PatchUser(users[i], p, encode))
  }

  /** Only the named fields change. */
  lemma PatchKeepsUnnamed(e: User, p: User, encode: string -> string)
    ensures p.name.None? ==> PatchUser(e, p, encode).name == e.name
    ensures p.email.None? ==> PatchUser(e, p, encode).email == e.email
    ensures p.phone.None? ==> PatchUser(e, p, encode).phone == e.phone
    ensures p.role.None? ==> PatchUser(e, p, encode).role == e.role
    ensures p.department.None? ==> PatchUser(e, p, encode).department == e.department
    ensures p.name.Some? ==> PatchUser(e, p, encode).name == p.name
    ensures p.email.Some? ==> PatchUser(e, p, encode).email == p.email
    ensures p.phone.Some? ==> PatchUser(e, p, encode).phone == p.phone
    ensures p.role.Some? ==> PatchUser(e, p, encode).role == p.role
    ensures p.department.Some? ==> PatchUser(e, p, encode).department == p.department
  {
  }

  /** The update performs none of addUser's checks: an address addUser
      would refuse is stored as given. */
  lemma UpdateSkipsValidation(e: User, encode: string -> string)
    ensures var p := User(None, None, None, Some("someone@example.com"), None, None, None, None, None, true);
            !MatchesInstitutionEmail(p.email.value) && PatchUser(e, p, encode).email == p.email
  {
    assert |"someone@example.com"| <= |INSTITUTION_DOMAIN|;
  }
}
