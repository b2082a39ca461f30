/**
 * The authentication core of app/routers/auth.py: the user lookup, the
 * credential check, the claim set of an access token, the request guard
 * (`get_current_user` and its twin `read_users_me`) and the login handler.
 *
 * bcrypt verification and JWT encoding/decoding are foreign library calls;
 * they enter the model as the function-valued fields of a `Crypto` value,
 * about which nothing is assumed unless a lemma says so.
 */
module Auth {
  import opened Wrappers
  import Config

  /** A row of the `Utilisateur` table, as far as the core reads it. */
  datatype User = User(username: string, hashedPassword: string, role: Option<string>)

  /** The user table, in the order the database returns rows. */
  type UserTable = seq<User>

  /** A claim value handed to the encoder: text, or an instant (`exp`). */
  datatype ClaimValue = Text(s: string) | Instant(t: int)

  /** A claim set before encoding (the `dict` given to `jwt.encode`). */
  type Claims = map<string, ClaimValue>

  /**
   * What `jwt.decode` produces: a `JWTError` (bad signature, expired,
   * malformed), or the payload's string-valued claims.
   */
  datatype Decoded = DecodeErr | Payload(claims: map<string, string>)

  /** The secret and the algorithm name the codec is called with. */
  datatype Keying = Keying(secretKey: Option<string>, algorithm: string)

  /**
   * The library oracles:
   * `verifyPassword(plain, hash)` is `pwd_context.verify`,
   * `encode(claims, keying)` is `jwt.encode`,
   * `decode(token, keying, now)` is `jwt.decode` at wall-clock time `now`.
   */
  datatype Crypto = Crypto(
    verifyPassword: (string, string) -> bool,
    encode: (Claims, Keying) -> string,
    decode: (string, Keying, int) -> Decoded)

  /** A handler's outcome: its value, or the `HTTPException` it raises. */
  datatype Response<T> = Ok(value: T) | HttpError(status: int, detail: string)

  /** The JSON body returned by `/auth/login`. */
  datatype TokenResponse = TokenResponse(accessToken: string, tokenType: string)

  /** The JSON body returned by `/auth/me`. */
  datatype Profile = Profile(username: string, role: Option<string>)

  /** Durations and instants are integers in microseconds, the resolution of `timedelta`. */
  const MicrosPerMinute := 60_000_000

  /** auth.py's own token lifetime, in minutes (it does not read the configured one). */
  const AccessTokenExpireMinutes := 30

  const ExpClaim := "exp"
  const SubClaim := "sub"
  const BearerType := "bearer"

  const DetailBadToken := "Token invalide ou expiré"
  const DetailNoSubject := "Token invalide"
  const DetailUnknownUser := "Utilisateur non trouvé"
  const DetailBadCredentials := "Nom d'utilisateur ou mot de passe incorrect"

  /** The module-level SECRET_KEY and ALGORITHM of auth.py, read from the environment. */
  function ModuleKeying(env: Config.Environment): (k: Keying)
    ensures Config.SecretKeyName in env <==> k.secretKey.Some?
    ensures Config.SecretKeyName in env ==> k.secretKey.value == env[Config.SecretKeyName]
    ensures Config.AlgorithmName !in env ==> k.algorithm == "HS256"
    ensures Config.AlgorithmName in env ==> k.algorithm == env[Config.AlgorithmName]
  {
    Keying(Config.Getenv(env, Config.SecretKeyName),
           Config.GetenvOr(env, Config.AlgorithmName, Config.DefaultAlgorithm))
  }

  /**
   * `query(...).filter(username == name).first()`: the position of the first
   * row whose username is `name`, if any.
   */
  function FirstMatch(users: UserTable, name: string): (r: Option<nat>)
    ensures r.Some? ==> r.value < |users| && users[r.value].username == name
    ensures r.Some? ==> forall j :: 0 <= j < r.value ==> users[j].username != name
    ensures r.None? <==> forall j :: 0 <= j < |users| ==> users[j].username != name
  {
    if |users| == 0 then None
    else if users[0].username == name then Some(0)
    else match FirstMatch(users[1..], name)
      case None => None
      case Some(i) => Some(i + 1)
  }

  /** `get_user_by_username`: the first user named `name`, or `None`. */
  function GetUserByUsername(users: UserTable, name: string): (r: Option<User>)
    ensures r.Some? ==> r.value in users && r.value.username == name
    ensures r.Some? ==> exists i :: 0 <= i < |users| && users[i] == r.value &&
                          forall j :: 0 <= j < i ==> users[j].username != name
    ensures r.None? <==> forall u :: u in users ==> u.username != name
  {
    match FirstMatch(users, name)
    case None => None
    case Some(i) => Some(users[i])
  }

  /**
   * `authenticate_user`: the user when the first user named `username`
   * exists and `password` verifies against its hash; `None` otherwise, for
   * an unknown name and a wrong password alike.
   */
  function AuthenticateUser(c: Crypto, users: UserTable, username: string, password: string): (r: Option<User>)
    ensures r.Some? ==> r.value in users && r.value.username == username
    ensures r.Some? ==> c.verifyPassword(password, r.value.hashedPassword)
    ensures r.Some? ==> r == GetUserByUsername(users, username)
    ensures (forall u :: u in users ==> u.username != username) ==> r.None?
    ensures r.None? <==>
              (forall u :: u in users ==> u.username != username) ||
              !c.verifyPassword(password, GetUserByUsername(users, username).value.hashedPassword)
  {
    var user := GetUserByUsername(users, username);
    if user.None? || !c.verifyPassword(password, user.value.hashedPassword) then None
    else user
  }

  /**
   * Python's `expires_delta or timedelta(minutes=30)`: `None` and a zero
   * `timedelta` are both falsy and give the default.
   */
  function LifetimeOr(expiresDelta: Option<int>, default: int): (lifetime: int)
  {
    if expiresDelta.Some? && expiresDelta.value != 0 then expiresDelta.value else default
  }

  /** The `expire` instant of `create_access_token`. */
  function ExpiresAt(now: int, expiresDelta: Option<int>): (exp: int)
    ensures expiresDelta.Some? && expiresDelta.value != 0 ==> exp == now + expiresDelta.value
    ensures expiresDelta.None? || expiresDelta.value == 0 ==> exp == now + 30 * MicrosPerMinute
  {
    now + LifetimeOr(expiresDelta, AccessTokenExpireMinutes * MicrosPerMinute)
  }

  /**
   * The claim set `create_access_token` encodes: a copy of `data` with `exp`
   * set (a caller-supplied `exp` is overwritten). Maps are values, so the
   * `data.copy()` of the source is implicit and the caller's map is left as it was.
   */
  function AccessClaims(data: Claims, expiresDelta: Option<int>, now: int): (toEncode: Claims)
    ensures toEncode.Keys == data.Keys + {ExpClaim}
    ensures toEncode[ExpClaim] == Instant(ExpiresAt(now, expiresDelta))
    ensures forall key :: key in data && key != ExpClaim ==> toEncode[key] == data[key]
  {
    data[ExpClaim := Instant(ExpiresAt(now, expiresDelta))]
  }

  /**
   * `create_access_token`: the encoder's token for a copy of `data` whose `exp`
   * is the computed expiry and whose other keys keep their values.
   */
  function CreateAccessToken(c: Crypto, k: Keying, data: Claims, expiresDelta: Option<int>, now: int)
    : (token: string)
    ensures exists toEncode: Claims ::
              && token == c.encode(toEncode, k)
              && toEncode.Keys == data.Keys + {ExpClaim}
              && toEncode[ExpClaim] == Instant(ExpiresAt(now, expiresDelta))
              && forall key :: key in data && key != ExpClaim ==> toEncode[key] == data[key]
  {
    var toEncode := AccessClaims(data, expiresDelta, now);
    c.encode(toEncode, k)
  }

  /**
   * `get_current_user`: decode the bearer token, take its subject, and load
   * that user. A decoding failure and a missing subject are 401s raised
   * before the table is read; an unknown subject is a 404.
   */
  function GetCurrentUser(c: Crypto, k: Keying, users: UserTable, token: string, now: int): (r: Response<User>)
    ensures c.decode(token, k, now).DecodeErr? ==> r == HttpError(401, DetailBadToken)
    ensures c.decode(token, k, now).Payload? && SubClaim !in c.decode(token, k, now).claims ==>
              r == HttpError(401, DetailNoSubject)
    ensures c.decode(token, k, now).Payload? && SubClaim in c.decode(token, k, now).claims &&
            (forall u :: u in users ==> u.username != c.decode(token, k, now).claims[SubClaim]) ==>
              r == HttpError(404, DetailUnknownUser)
    ensures r.Ok? <==>
              c.decode(token, k, now).Payload? && SubClaim in c.decode(token, k, now).claims &&
              exists u :: u in users && u.username == c.decode(token, k, now).claims[SubClaim]
    ensures r.Ok? ==> r.value in users && r.value.username == c.decode(token, k, now).claims[SubClaim]
  {
    match c.decode(token, k, now)
    case DecodeErr => HttpError(401, DetailBadToken)
    case Payload(payload) =>
      if SubClaim !in payload then HttpError(401, DetailNoSubject)
      else
        var username := payload[SubClaim];
        match FirstMatch(users, username)
        case None => HttpError(404, DetailUnknownUser)
        case Some(i) => Ok(users[i])
  }

  /**
   * `read_users_me`: the same decoding and lookup as `get_current_user`,
   * written out again in the source, returning the user's name and role.
   */
  function ReadUsersMe(c: Crypto, k: Keying, users: UserTable, token: string, now: int): (r: Response<Profile>)
    ensures r.HttpError? <==> GetCurrentUser(c, k, users, token, now).HttpError?
    ensures r.HttpError? ==> r == HttpError(GetCurrentUser(c, k, users, token, now).status,
                                            GetCurrentUser(c, k, users, token, now).detail)
    ensures r.Ok? ==> r.value == Profile(GetCurrentUser(c, k, users, token, now).value.username,
                                         GetCurrentUser(c, k, users, token, now).value.role)
  {
    match c.decode(token, k, now)
    case DecodeErr => HttpError(401, DetailBadToken)
    case Payload(payload) =>
      if SubClaim !in payload then HttpError(401, DetailNoSubject)
      else
        var username := payload[SubClaim];
        match GetUserByUsername(users, username)
        case None => HttpError(404, DetailUnknownUser)
        case Some(user) => Ok(Profile(user.username, user.role))
  }

  /**
   * `login`: a 401 when the credentials are rejected, otherwise a bearer
   * token whose claims are exactly the username and an expiry 30 minutes on.
   */
  function Login(c: Crypto, k: Keying, users: UserTable, username: string, password: string, now: int)
    : (r: Response<TokenResponse>)
    ensures r.HttpError? <==> AuthenticateUser(c, users, username, password).None?
    ensures r.HttpError? ==> r == HttpError(401, DetailBadCredentials)
    ensures r.Ok? ==> r.value.tokenType == "bearer"
    ensures r.Ok? ==>
              r.value.accessToken ==
              c.encode(map["sub" := Text(username), "exp" := Instant(now + 30 * MicrosPerMinute)], k)
  {
    var user := AuthenticateUser(c, users, username, password);
    if user.None? then HttpError(401, DetailBadCredentials)
    else
      var accessToken := CreateAccessToken(c, k, map[SubClaim := Text(user.value.username)], None, now);
      Ok(TokenResponse(accessToken, BearerType))
  }
}
