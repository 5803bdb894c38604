// The two regular expressions the backend validates contact details with,
// written as character-class predicates:
//   EMAIL_PATTERN  ^[A-Za-z0-9._%+-]+@newhorizonindia\.edu$
//   PHONE_PATTERN  ^[6-9][0-9]{9}$
// Because '@' is not in the local-part class, a whole-string match splits
// the address uniquely into local part and domain.
module Patterns {

  import opened Text

  const INSTITUTION_DOMAIN: string := "@newhorizonindia.edu"

  predicate IsLocalPartChar(c: char) {
    IsAsciiLower(c) || IsAsciiUpper(c) || IsDigit(c)
    || c == '.' || c == '_' || c == '%' || c == '+' || c == '-'
  }

  /** `EMAIL_PATTERN.matcher(s).matches()` */
  predicate MatchesInstitutionEmail(s: string) {
    |s| > |INSTITUTION_DOMAIN| && EndsWith(s, INSTITUTION_DOMAIN)
    && forall i :: 0 <= i < |s| - |INSTITUTION_DOMAIN| ==> IsLocalPartChar(s[i])
  }

  /** `PHONE_PATTERN.matcher(s).matches()` */
  predicate MatchesPhone(s: string) {
    |s| == 10 && '6' <= s[0] <= '9' && forall i :: 1 <= i < 10 ==> IsDigit(s[i])
  }
}
