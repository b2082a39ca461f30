/**
 * Properties that relate several operations of the authentication core:
 * failed logins look alike, a login token opens the guard for the same user
 * until it expires, and a deleted account's token no longer resolves.
 *
 * The codec is an oracle; the two predicates below state, for the claim sets
 * `login` builds, what python-jose does with them, and appear only as
 * hypotheses.
 */
module AuthProperties {
  import opened Wrappers
  import opened Auth
  import Config

  const MicrosPerSecond := 1_000_000

  /**
   * An instant in whole seconds, the fraction dropped: python-jose writes
   * `exp` and reads its clock at this resolution.
   */
  function WholeSeconds(t: int): (seconds: int)
    ensures seconds * MicrosPerSecond <= t < (seconds + 1) * MicrosPerSecond
  {
    t / MicrosPerSecond
  }

  /**
   * For the claim sets `login` builds (a text `sub` and an instant `exp`, and
   * nothing else), decoding under the same secret and algorithm gives back
   * the subject as long as the expiry second has not passed; python-jose
   * rejects only when `exp` is strictly before the current second.
   */
  ghost predicate SoundCodec(c: Crypto, k: Keying)
  {
    forall claims: Claims, now: int ::
      claims.Keys == {SubClaim, ExpClaim} && claims[SubClaim].Text? && claims[ExpClaim].Instant? &&
      WholeSeconds(now) <= WholeSeconds(claims[ExpClaim].t) ==>
        var d := c.decode(c.encode(claims, k), k, now);
        d.Payload? && SubClaim in d.claims && d.claims[SubClaim] == claims[SubClaim].s
  }

  /** For the same claim sets, decoding fails once the expiry second lies in the past. */
  ghost predicate EnforcesExpiry(c: Crypto, k: Keying)
  {
    forall claims: Claims, now: int ::
      claims.Keys == {SubClaim, ExpClaim} && claims[ExpClaim].Instant? &&
      WholeSeconds(claims[ExpClaim].t) < WholeSeconds(now) ==>
        c.decode(c.encode(claims, k), k, now).DecodeErr?
  }

  /** An unknown username and a wrong password produce the same login response. */
  lemma FailedLoginsIndistinguishable(c: Crypto, k: Keying, users: UserTable,
                                      unknown: string, anyPassword: string,
                                      known: string, wrongPassword: string, now: int)
    requires forall u :: u in users ==> u.username != unknown
    requires GetUserByUsername(users, known).Some?
    requires !c.verifyPassword(wrongPassword, GetUserByUsername(users, known).value.hashedPassword)
    ensures AuthenticateUser(c, users, unknown, anyPassword) == None
    ensures AuthenticateUser(c, users, known, wrongPassword) == None
    ensures Login(c, k, users, unknown, anyPassword, now) == Login(c, k, users, known, wrongPassword, now)
    ensures Login(c, k, users, unknown, anyPassword, now) == HttpError(401, DetailBadCredentials)
  {
  }

  /** The expiry lies in the future unless the caller passes a negative lifetime. */
  lemma ExpiryInFuture(now: int, expiresDelta: Option<int>)
    ensures ExpiresAt(now, expiresDelta) > now <==> !(expiresDelta.Some? && expiresDelta.value < 0)
  {
  }

  /** auth.py and `Settings` read SECRET_KEY and ALGORITHM with the same defaults. */
  lemma KeyingAgreesWithSettings(env: Config.Environment, parseInt: string -> int)
    ensures ModuleKeying(env).secretKey == Config.ClassAttributes(env, parseInt).secretKey
    ensures ModuleKeying(env).algorithm == Config.ClassAttributes(env, parseInt).algorithm
  {
  }

  /** A 401 of the guard does not depend on the user table: it is raised before any lookup. */
  lemma UnauthorizedBeforeLookup(c: Crypto, k: Keying, users: UserTable, others: UserTable,
                                 token: string, now: int)
    requires c.decode(token, k, now).DecodeErr? || SubClaim !in c.decode(token, k, now).claims
    ensures GetCurrentUser(c, k, users, token, now) == GetCurrentUser(c, k, others, token, now)
    ensures GetCurrentUser(c, k, users, token, now).HttpError?
    ensures GetCurrentUser(c, k, users, token, now).status == 401
    ensures ReadUsersMe(c, k, users, token, now) == ReadUsersMe(c, k, others, token, now)
  {
  }

  /**
   * A successful login at `issuedAt` yields a token that, presented before its
   * 30 minutes are up, resolves to the very user that logged in.
   */
  lemma LoginThenGuard(c: Crypto, k: Keying, users: UserTable, username: string, password: string,
                       issuedAt: int, now: int)
    requires SoundCodec(c, k)
    requires Login(c, k, users, username, password, issuedAt).Ok?
    requires WholeSeconds(now) <= WholeSeconds(issuedAt + AccessTokenExpireMinutes * MicrosPerMinute)
    ensures AuthenticateUser(c, users, username, password).Some?
    ensures GetCurrentUser(c, k, users, Login(c, k, users, username, password, issuedAt).value.accessToken, now)
            == Ok(AuthenticateUser(c, users, username, password).value)
    ensures ReadUsersMe(c, k, users, Login(c, k, users, username, password, issuedAt).value.accessToken, now)
            == Ok(Profile(username, AuthenticateUser(c, users, username, password).value.role))
  {
  }

  /**
   * Deleting an account revokes its tokens: a token issued before the deletion,
   * replayed while still unexpired, ends in a 404.
   */
  lemma DeletedAccountTokenNotFound(c: Crypto, k: Keying, users: UserTable, remaining: UserTable,
                                    username: string, password: string, issuedAt: int, now: int)
    requires SoundCodec(c, k)
    requires Login(c, k, users, username, password, issuedAt).Ok?
    requires forall u :: u in remaining ==> u.username != username
    requires WholeSeconds(now) <= WholeSeconds(issuedAt + AccessTokenExpireMinutes * MicrosPerMinute)
    ensures GetCurrentUser(c, k, remaining, Login(c, k, users, username, password, issuedAt).value.accessToken, now)
            == HttpError(404, DetailUnknownUser)
  {
  }

  /** A login token presented after its 30 minutes fails as an invalid token, whatever the table. */
  lemma ExpiredTokenRejected(c: Crypto, k: Keying, users: UserTable, current: UserTable,
                             username: string, password: string, issuedAt: int, now: int)
    requires EnforcesExpiry(c, k)
    requires Login(c, k, users, username, password, issuedAt).Ok?
    requires WholeSeconds(issuedAt + AccessTokenExpireMinutes * MicrosPerMinute) < WholeSeconds(now)
    ensures GetCurrentUser(c, k, current, Login(c, k, users, username, password, issuedAt).value.accessToken, now)
            == HttpError(401, DetailBadToken)
  {
  }
}
