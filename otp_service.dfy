// OtpService: one-time passwords for a password reset, as a state machine
// over the stored tokens. A token is live while it is unused; generating a
// new one retires the live ones, a successful verification or a password
// reset retires them all. Random codes, hashing and mail are parameters:
// the caller passes the new code's hash and the `matches` relation of the
// password encoder. Instants are milliseconds.

module OtpService {

  import opened Wrappers

  /** model/OtpToken.java */
  datatype Token = Token(userId: string, otpHash: string, expiresAt: int, used: bool)

  /** The answers of verifyOtp. */
  datatype OtpStatus = Valid | Expired | Invalid | NoToken | UserNotFound

  /** `Instant.now().plus(5, ChronoUnit.MINUTES)` */
  const OTP_LIFETIME_MS: int := 5 * 60 * 1000

  /** A live token of the user: what findByUserIdAndUsedIsFalse returns. */
  predicate LiveFor(t: Token, uid: string) {
    t.userId == uid && !t.used
  }

  /** The tokens after `setUsed(true)` on each live token of the user. */
  function Retired(ts: seq<Token>, uid: string): (r: seq<Token>)
    ensures |r| == |ts|
    ensures forall k :: 0 <= k < |ts| ==> !LiveFor(r[k], uid)
    ensures forall k :: 0 <= k < |ts| && ts[k].userId != uid ==> r[k] == ts[k]
    ensures forall k :: 0 <= k < |ts| ==> r[k].(used := ts[k].used) == ts[k]
  {
    seq(|ts|, k requires 0 <= k < |ts| => if LiveFor(ts[k], uid) then ts[k].(used := true) else ts[k])
  }

  /** The number of live tokens of the user. */
  function LiveCount(ts: seq<Token>, uid: string): nat {
    if ts == [] then 0 else (if LiveFor(ts[0], uid) then 1 else 0) + LiveCount(ts[1..], uid)
  }

  lemma {:induction false} LiveCountZero(ts: seq<Token>, uid: string)
    requires forall k :: 0 <= k < |ts| ==> !LiveFor(ts[k], uid)
    ensures LiveCount(ts, uid) == 0
  {
    if ts != [] {
      LiveCountZero(ts[1..], uid);
    }
  }

  lemma {:induction false} LiveCountAppend(a: seq<Token>, b: seq<Token>, uid: string)
    ensures LiveCount(a + b, uid) == LiveCount(a, uid) + LiveCount(b, uid)
  {
    if a != [] {
      assert (a + b)[1..] == a[1..] + b;
      LiveCountAppend(a[1..], b, uid);
    } else {
      assert a + b == b;
    }
  }

  /** After a new code is issued the user has exactly one live token. */
  lemma OneLiveTokenAfterIssue(ts: seq<Token>, uid: string, t: Token)
    requires LiveFor(t, uid)
    ensures LiveCount(Retired(ts, uid) + [t], uid) == 1
  {
    LiveCountZero(Retired(ts, uid), uid);
    LiveCountAppend(Retired(ts, uid), [t], uid);
  }

  /** `tokens.stream().max(comparing(getExpiresAt))` over the user's live
      tokens: the position of the live token that expires last, the first
      such one on a tie. */
  function Latest(ts: seq<Token>, uid: string): (r: Option<nat>)
    ensures r.None? <==> forall k :: 0 <= k < |ts| ==> !LiveFor(ts[k], uid)
    ensures r.Some? ==> r.value < |ts| && LiveFor(ts[r.value], uid)
    ensures r.Some? ==> forall k :: 0 <= k < |ts| && LiveFor(ts[k], uid) ==> ts[k].expiresAt <= ts[r.value].expiresAt
    ensures r.Some? ==> forall k :: 0 <= k < r.value && LiveFor(ts[k], uid) ==> ts[k].expiresAt < ts[r.value].expiresAt
    decreases |ts|
  {
    if ts == [] then None
    else
      var i := |ts| - 1;
      match Latest(ts[..i], uid)
      case None => if LiveFor(ts[i], uid) then Some(i) else None
      case Some(j) =>
        if LiveFor(ts[i], uid) && ts[i].expiresAt > ts[j].expiresAt then Some(i) else Some(j)
  }

  /** The user store and the token store, as the service sees them. */
  class OtpStore {
    /** findByEmail: a user's id by email. */
    var userIdOf: map<string, string>
    /** The stored password hash per user id. */
    var passwords: map<string, string>
    /** The OTP token collection, in repository order. */
    var tokens: seq<Token>

    constructor(userIdOf: map<string, string>, passwords: map<string, string>)
      ensures this.userIdOf == userIdOf && this.passwords == passwords && tokens == []
    {
      this.userIdOf := userIdOf;
      this.passwords := passwords;
      tokens := [];
    }

    /** The loop `for (t : tokens) { t.setUsed(true); save(t); }`. */
    method RetireLive(uid: string)
      modifies this
      ensures tokens == Retired(old(tokens), uid)
      ensures userIdOf == old(userIdOf) && passwords == old(passwords)
    {
      var i := 0;
      while i < |tokens|
        invariant 0 <= i <= |tokens| && |tokens| == |old(tokens)|
        invariant forall k :: 0 <= k < i ==> tokens[k] == Retired(old(tokens), uid)[k]
        invariant forall k :: i <= k < |tokens| ==> tokens[k] == old(tokens)[k]
        invariant userIdOf == old(userIdOf) && passwords == old(passwords)
      {
        if LiveFor(tokens[i], uid) {
          tokens := tokens[i := tokens[i].(used := true)];
        }
        i := i + 1;
      }
    }

    /** generateOtp: `otpHash` is the hash of the fresh six-digit code. It
        answers true for a known email whether or not the mail goes out. */
    method GenerateOtp(email: string, otpHash: string, now: int) returns (ok: bool)
      modifies this
      ensures ok <==> email in old(userIdOf)
      ensures !ok ==> tokens == old(tokens)
      ensures ok ==> tokens == Retired(old(tokens), old(userIdOf)[email]) + [Token(old(userIdOf)[email], otpHash, now + OTP_LIFETIME_MS, false)]
      ensures userIdOf == old(userIdOf) && passwords == old(passwords)
    {
      if email !in userIdOf {
        return false;
      }
      var uid := userIdOf[email];
      RetireLive(uid);
      tokens := tokens + [Token(uid, otpHash, now + OTP_LIFETIME_MS, false)];
      return true;
    }

    /** verifyOtp: only the live token that expires last is judged. */
    method VerifyOtp(email: string, entered: string, matches: (string, string) -> bool, now: int) returns (r: OtpStatus)
      modifies this
      ensures email !in old(userIdOf) ==> r == UserNotFound
      ensures email in old(userIdOf) ==>
        var uid := old(userIdOf)[email];
        match Latest(old(tokens), uid)
        case None => r == NoToken
        case Some(j) =>
          var t := old(tokens)[j];
          if t.expiresAt < now then r == Expired
          else if matches(entered, t.otpHash) then r == Valid
          else r == Invalid
      ensures r == Valid ==> tokens == Retired(old(tokens), old(userIdOf)[email])
      ensures r != Valid ==> tokens == old(tokens)
      ensures userIdOf == old(userIdOf) && passwords == old(passwords)
    {
      if email !in userIdOf {
        return UserNotFound;
      }
      var uid := userIdOf[email];
      var latest := Latest(tokens, uid);
      if latest.None? {
        return NoToken;
      }
      var token := tokens[latest.value];
      if token.expiresAt < now {
        return Expired;
      }
      if matches(entered, token.otpHash) {
        RetireLive(uid);
        return Valid;
      }
      return Invalid;
    }

    /** resetPassword: any known email, with no check that a code was
        verified; the new hash is stored and the live tokens retired. */
    method ResetPassword(email: string, newHash: string) returns (ok: bool)
      modifies this
      ensures ok <==> email in old(userIdOf)
      ensures !ok ==> tokens == old(tokens) && passwords == old(passwords)
      ensures ok ==> passwords == old(passwords)[old(userIdOf)[email] := newHash]
                     && tokens == Retired(old(tokens), old(userIdOf)[email])
      ensures userIdOf == old(userIdOf)
    {
      if email !in userIdOf {
        return false;
      }
      var uid := userIdOf[email];
      passwords := passwords[uid := newHash];
      RetireLive(uid);
      return true;
    }
  }

  /** Once verified, a code cannot be used again: the same user has no live
      token left, so a second verification answers NO_TOKEN. */
  lemma NoSecondUse(ts: seq<Token>, uid: string)
    ensures Latest(Retired(ts, uid), uid).None?
  {
  }

  /** A fresh code is the one judged next, since it expires last. */
  lemma FreshCodeIsJudged(ts: seq<Token>, uid: string, otpHash: string, now: int)
    ensures Latest(Retired(ts, uid) + [Token(uid, otpHash, now + OTP_LIFETIME_MS, false)], uid) == Some(|ts|)
  {
    var r := Retired(ts, uid) + [Token(uid, otpHash, now + OTP_LIFETIME_MS, false)];
    assert r[..|ts|] == Retired(ts, uid);
  }
}
