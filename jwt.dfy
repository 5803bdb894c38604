// JwtTokenProvider: the lifetime of an access token, the claims put into
// it and the role read back from it. The clock is the parameter `now`
// (milliseconds since the epoch); signing, the random token id and parsing
// the compact form are not modelled, so a token is its claims.

module Jwt {

  import opened Wrappers
  import opened Text

  // ---------------------------------------------------------------------
  // Java `long` arithmetic

  const LONG_MIN: int := -0x8000_0000_0000_0000
  const LONG_MAX: int := 0x7FFF_FFFF_FFFF_FFFF

  predicate IsLong(x: int) { LONG_MIN <= x <= LONG_MAX }

  /** A `long` result: the mathematical value modulo 2^64. */
  function WrapLong(x: int): (r: int)
    ensures IsLong(r)
    ensures IsLong(x) ==> r == x
  {
    (x - LONG_MIN) % 0x1_0000_0000_0000_0000 + LONG_MIN
  }

  /** Java's `/` on longs: rounds toward zero. */
  function JavaDiv(a: int, b: int): (q: int)
    requires b > 0
    ensures a >= 0 ==> q == a / b
    ensures a < 0 ==> q == -((-a) / b)
  {
    if a >= 0 then a / b else -((-a) / b)
  }

  function Min(a: int, b: int): int { if a <= b then a else b }

  // ---------------------------------------------------------------------
  // Lifetime

  /** `7L * 24L * 60L * 60L * 1000L`, one week in milliseconds. */
  const WEEK_MS: int := 7 * 24 * 60 * 60 * 1000

  /** The cap generateToken puts on a remember-me token: `weekMs * 4L`. */
  const TOKEN_CAP_MS: int := WEEK_MS * 4

  /** The cap getExpiresInSeconds uses: `4L * 7L * 24L * 60L * 60L * 1000L`. */
  const REPORTED_CAP_MS: int := 4 * 7 * 24 * 60 * 60 * 1000

  /** The lifetime generateToken gives a token: the configured expiration,
      or with remember-me seven times it, capped at four weeks. */
  function TokenLifetimeMs(expirationMs: int, rememberMe: bool): (ms: int)
    requires IsLong(expirationMs)
    ensures IsLong(ms)
    ensures rememberMe ==> ms <= TOKEN_CAP_MS
  {
    if rememberMe then Min(WrapLong(expirationMs * 7), TOKEN_CAP_MS) else expirationMs
  }

  /** getExpiresInSeconds: the lifetime reported to the client. */
  function ExpiresInSeconds(expirationMs: int, rememberMe: bool): (s: int)
    requires IsLong(expirationMs)
    ensures !rememberMe ==> s == JavaDiv(expirationMs, 1000)
    ensures rememberMe ==> s <= 2419200
    ensures rememberMe && 0 <= expirationMs <= LONG_MAX / 7 ==>
              s == Min(7 * expirationMs, 2419200000) / 1000
  {
    var ms := if rememberMe then Min(WrapLong(expirationMs * 7), REPORTED_CAP_MS) else expirationMs;
    JavaDiv(ms, 1000)
  }

  /** The two methods compute the same lifetime: what the client is told
      is the token's lifetime in whole seconds. */
  lemma LifetimesAgree(expirationMs: int, rememberMe: bool)
    requires IsLong(expirationMs)
    ensures ExpiresInSeconds(expirationMs, rememberMe) == JavaDiv(TokenLifetimeMs(expirationMs, rememberMe), 1000)
  {
  }

  /** With remember-me the lifetime is never shorter than without it, as
      long as the configured expiration is positive and at most four weeks
      and seven times it fits a long. */
  lemma RememberMeNotShorter(expirationMs: int)
    requires 0 < expirationMs <= TOKEN_CAP_MS
    ensures TokenLifetimeMs(expirationMs, false) <= TokenLifetimeMs(expirationMs, true)
    ensures ExpiresInSeconds(expirationMs, false) <= ExpiresInSeconds(expirationMs, true)
  {
  }

  /** An expiration past `Long.MAX_VALUE / 7` wraps when multiplied: the
      remember-me lifetime turns negative. */
  lemma HugeExpirationWraps()
    ensures TokenLifetimeMs(LONG_MAX / 7 + 1, true) < 0
  {
  }

  // ---------------------------------------------------------------------
  // Claims

  /** The claims of a token. `issuedAt` and `expiration` are NumericDate
      values (section 2 of RFC 7519): whole seconds, the milliseconds of
      the Date cut off. */
  datatype Claims = Claims(subject: Option<string>, issuer: string, audience: string,
                           issuedAt: int, expiration: int, role: string, rememberMe: bool)

  /** The configured properties generateToken reads. */
  datatype Config = Config(expirationMs: int, issuer: string, audience: string)

  /** `Map.of("role", role, ...)` refuses a null value with a
      null-dereference exception. */
  datatype TokenError = NullRole

  /** The subject of a token: the user name trimmed and lower-cased. */
  function Subject(username: Option<string>): (r: Option<string>)
    ensures r.None? <==> username.None?
    ensures r.Some? ==> Trim(r.value) == r.value && Lower(r.value) == r.value
    ensures r.Some? ==> EqualsIgnoreCase(r.value, Trim(username.value))
  {
    LowerTrimIdempotent(if username.Some? then username.value else "");
    LowerEqualsIgnoreCase(if username.Some? then Trim(username.value) else "");
    if username.None? then None else Some(Lower(Trim(username.value)))
  }

  /** generateToken(authentication, rememberMe, role) at instant `now`. */
  function GenerateToken(cfg: Config, username: Option<string>, rememberMe: bool, role: Option<string>, now: int): (r: Result<Claims, TokenError>)
    requires IsLong(cfg.expirationMs) && 0 <= now
    ensures r.Err? <==> role.None?
    ensures r.Ok? ==> r.value.subject == Subject(username) && r.value.role == role.value
                      && r.value.issuer == cfg.issuer && r.value.audience == cfg.audience
                      && r.value.rememberMe == rememberMe
  {
    if role.None? then Err(NullRole)
    else
      var expMs := TokenLifetimeMs(cfg.expirationMs, rememberMe);
      var expiry := WrapLong(now + expMs);
      Ok(Claims(Subject(username), cfg.issuer, cfg.audience,
                JavaDiv(now, 1000), JavaDiv(expiry, 1000), role.value, rememberMe))
  }

  /** The token lives as long as getExpiresInSeconds says, up to the second
      lost when the milliseconds of both instants are cut off. */
  lemma TokenLivesAsReported(cfg: Config, username: Option<string>, rememberMe: bool, role: string, now: int)
    requires IsLong(cfg.expirationMs) && 0 <= now
    requires 0 <= TokenLifetimeMs(cfg.expirationMs, rememberMe) && IsLong(now + TokenLifetimeMs(cfg.expirationMs, rememberMe))
    ensures var c := GenerateToken(cfg, username, rememberMe, Some(role), now).value;
            var reported := ExpiresInSeconds(cfg.expirationMs, rememberMe);
            reported <= c.expiration - c.issuedAt <= reported + 1
  {
    var d := TokenLifetimeMs(cfg.expirationMs, rememberMe);
    LifetimesAgree(cfg.expirationMs, rememberMe);
    DivSumBounds(now, d);
  }

  /** Cutting the milliseconds off a sum loses at most one second more
      than cutting them off each part. */
  lemma DivSumBounds(a: int, d: int)
    requires 0 <= a && 0 <= d
    ensures d / 1000 <= (a + d) / 1000 - a / 1000 <= d / 1000 + 1
  {
    var qa, ra := a / 1000, a % 1000;
    var qd, rd := d / 1000, d % 1000;
    assert a + d == 1000 * (qa + qd) + (ra + rd);
    if ra + rd < 1000 {
      assert (a + d) / 1000 == qa + qd;
    } else {
      assert a + d == 1000 * (qa + qd + 1) + (ra + rd - 1000);
      assert (a + d) / 1000 == qa + qd + 1;
    }
  }

  /** The role of the two-argument generateToken: the first authority with
      "ROLE_" removed, upper-cased; DEPARTMENT when there is none (or when
      the authority's name is null, which throws and is caught). */
  function DefaultRole(authorities: seq<Option<string>>): (role: string)
    ensures authorities == [] || authorities[0].None? ==> role == "DEPARTMENT"
    ensures authorities != [] && authorities[0].Some? ==>
              role == Upper(ReplaceAll(authorities[0].value, "ROLE_", ""))
    ensures Upper(role) == role
  {
    UpperIdempotent(if authorities != [] && authorities[0].Some? then ReplaceAll(authorities[0].value, "ROLE_", "") else "");
    if authorities == [] || authorities[0].None? then "DEPARTMENT"
    else Upper(ReplaceAll(authorities[0].value, "ROLE_", ""))
  }

  /** generateToken(authentication, rememberMe). */
  function GenerateTokenDefaultRole(cfg: Config, username: Option<string>, authorities: seq<Option<string>>,
                                    rememberMe: bool, now: int): (r: Claims)
    requires IsLong(cfg.expirationMs) && 0 <= now
    ensures r.role == DefaultRole(authorities) && r.subject == Subject(username)
  {
    GenerateToken(cfg, username, rememberMe, Some(DefaultRole(authorities)), now).value
  }

  /** getUsernameFromToken on a token that parsed. */
  function UsernameFromClaims(c: Claims): Option<string> {
    c.subject
  }

  /** getRoleFromToken on a token that parsed: the role claim upper-cased. */
  function RoleFromClaims(c: Claims): (r: string)
    ensures Upper(r) == r
  {
    UpperIdempotent(c.role);
    Upper(c.role)
  }

  /** validateUserRole on a token that parsed. */
  predicate ValidateUserRole(c: Claims, requiredRole: string) {
    EqualsIgnoreCase(RoleFromClaims(c), requiredRole)
  }

  /** Reading a generated token back gives the normalised user name and
      the role, and the role check accepts exactly the roles equal to it up
      to case. */
  lemma ClaimsRoundTrip(cfg: Config, username: Option<string>, rememberMe: bool, role: string, now: int, required: string)
    requires IsLong(cfg.expirationMs) && 0 <= now
    ensures var c := GenerateToken(cfg, username, rememberMe, Some(role), now).value;
            UsernameFromClaims(c) == Subject(username)
            && RoleFromClaims(c) == Upper(role)
            && (ValidateUserRole(c, required) <==> EqualsIgnoreCase(role, required))
  {
    UpperIdempotent(role);
  }

  /** A subject is already normalised: normalising it again, as the
      authentication of the next request does, changes nothing. */
  lemma SubjectIsStable(username: Option<string>)
    ensures Subject(Subject(username)) == Subject(username)
  {
    if username.Some? {
      LowerTrimIdempotent(username.value);
    }
  }
}
