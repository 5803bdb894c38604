// CustomUserDetails: what Spring Security sees of a stored user. The user
// name is the e-mail the login was made with, normalised; the single
// authority comes from the stored role.

module CustomUserDetails {

  import opened Wrappers
  import opened Text
  import UserService

  /** The wrapper: the stored user and the normalised user name. */
  datatype Details = Details(user: UserService.User, username: Option<string>)

  /** The constructor: the user name trimmed and lower-cased; null stays
      null. */
  function NewDetails(user: UserService.User, username: Option<string>): (d: Details)
    ensures d.user == user
    ensures d.username.None? <==> username.None?
    ensures d.username.Some? ==> Trim(d.username.value) == d.username.value && Lower(d.username.value) == d.username.value
    ensures d.username.Some? ==> EqualsIgnoreCase(d.username.value, Trim(username.value))
  {
    LowerTrimIdempotent(if username.Some? then username.value else "");
    LowerEqualsIgnoreCase(if username.Some? then Trim(username.value) else "");
    Details(user, if username.None? then None else Some(Lower(Trim(username.value))))
  }

  /** The role name behind the authority: DEPARTMENT for a null or blank
      role, otherwise the role trimmed and upper-cased. */
  function RoleName(role: Option<string>): (r: string)
    ensures NullOrBlank(role) ==> r == "DEPARTMENT"
    ensures !NullOrBlank(role) ==> r == Upper(Trim(role.value))
  {
    if NullOrBlank(role) then "DEPARTMENT" else Upper(Trim(role.value))
  }

  /** getAuthorities: a list of exactly one authority, "ROLE_" followed by
      the role name. */
  function Authorities(d: Details): (r: seq<string>)
    ensures |r| == 1
    ensures StartsWith(r[0], "ROLE_") && r[0][5..] == RoleName(d.user.role)
  {
    ["ROLE_" + RoleName(d.user.role)]
  }

  /** getPassword: the stored (hashed) password. */
  function Password(d: Details): Option<string> { d.user.password }

  /** isAccountNonExpired, isAccountNonLocked, isCredentialsNonExpired,
      isEnabled: all true, whatever the user's `active` flag says. */
  function AccountFlags(d: Details): (flags: (bool, bool, bool, bool))
    ensures flags == (true, true, true, true)
  {
    (true, true, true, true)
  }

  /** The authority names a role that is trimmed and upper-case. */
  lemma AuthorityIsNormalised(d: Details)
    ensures var name := Authorities(d)[0][5..];
            Upper(name) == name && Trim(name) == name
  {
    RoleNameIsNormalised(d.user.role);
  }

  lemma RoleNameIsNormalised(role: Option<string>)
    ensures Upper(RoleName(role)) == RoleName(role) && Trim(RoleName(role)) == RoleName(role)
  {
    if !NullOrBlank(role) {
      UpperTrimIdempotent(role.value);
      UpperIdempotent(Trim(role.value));
    } else {
      DepartmentIsNormalised("DEPARTMENT");
    }
  }

  lemma DepartmentIsNormalised(s: string)
    requires s == "DEPARTMENT"
    ensures Upper(s) == s && Trim(s) == s
  {
    DepartmentTrimmed(s);
    DepartmentUpper(s);
  }

  lemma DepartmentTrimmed(s: string)
    requires s == "DEPARTMENT"
    ensures Trim(s) == s
  {
    TrimOfUntrimmable(s);
  }

  lemma DepartmentUpper(s: string)
    requires s == "DEPARTMENT"
    ensures Upper(s) == s
  {
    forall i | 0 <= i < |s| ensures UpperChar(s[i]) == s[i] {
      assert IsAsciiUpper(s[i]);
    }
  }

  /** Roles equal up to case and surrounding spaces give the same
      authority. */
  lemma SameRoleSameAuthority(d1: Details, d2: Details)
    requires d1.user.role.Some? && d2.user.role.Some?
    requires !IsBlank(d1.user.role.value) && !IsBlank(d2.user.role.value)
    requires EqualsIgnoreCase(Trim(d1.user.role.value), Trim(d2.user.role.value))
    ensures Authorities(d1) == Authorities(d2)
  {
  }
}
