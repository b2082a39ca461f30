# Authentication core of the field-personnel backend, in Dafny

This project models the authentication core of a FastAPI backend:

- the user lookup;
- the credential check (`authenticate_user`);
- the claim set of an access token (`create_access_token`);
- the request guard `get_current_user` and its twin `/auth/me` (`read_users_me`);
- the login handler (`/auth/login`);
- the startup check of `Settings`, which refuses to start without `SECRET_KEY` and `DATABASE_URL`.

Modules:

- `Wrappers` (`wrappers.dfy`): `Option` and `Result`.
- `Config` (`config.dfy`): app/config.py. `Settings` is a value: its class attributes are read from an environment map, and `__init__` only checks them. The `missing` list is built by a method, with the same two conditional appends as the source.
- `Auth` (`auth.dfy`): app/routers/auth.py.
  - The user table is a `seq<User>`. The lookup takes the first row with the given name, as `.first()` does.
  - Handlers return `Response<T>`: either `Ok(value)` or `HttpError(status, detail)`. The status codes and detail strings are those of the source.
  - bcrypt verification, `jwt.encode` and `jwt.decode` are function-valued fields of a `Crypto` value. Nothing is assumed about them.
  - The clock `now` is a parameter. Instants and durations are integers in microseconds, the resolution of `timedelta`.
- `AuthProperties` (`auth_properties.dfy`): lemmas that connect several operations.
  - Failed logins look alike.
  - A login token opens the guard for the same user until it expires.
  - Deleting an account revokes its tokens: a replayed token gets a 404.
  - An expired token gets a 401.
  - Two predicates, `SoundCodec` and `EnforcesExpiry`, state what python-jose does with the claim sets `login` builds (a text `sub` and an instant `exp`, nothing else). They appear only as hypotheses of these lemmas.
  - The library works in whole seconds: it drops the fraction of `exp` and of its clock, and rejects a token only when `exp` lies strictly before the current second. The predicates compare instants the same way, through `WholeSeconds`.

Three points of the code's behaviour:

- The token lifetime is auth.py's own constant `ACCESS_TOKEN_EXPIRE_MINUTES = 30` (app/routers/auth.py:32). It is not the configured `ACCESS_TOKEN_EXPIRE_MINUTES` that `Settings` reads.
- A subject that decodes but matches no user is a 404, not a 401.
- An expiry is computed with Python's `or`: a zero `timedelta` falls back to 30 minutes, and a negative one is kept.

## Model

| member | source | states |
|---|---|---|
| `Config.ClassAttributes` | app/config.py:6-10 | SECRET_KEY and DATABASE_URL are `None` when unset and the variable's value otherwise; ALGORITHM defaults to "HS256" and ACCESS_TOKEN_EXPIRE_MINUTES to 30 only when the variable is unset (a set but empty ALGORITHM stays empty); a set ACCESS_TOKEN_EXPIRE_MINUTES is parsed by `int()` |
| `Config.MissingVariables` | app/config.py:13-17 | the list holds SECRET_KEY exactly when it is unset or empty, and DATABASE_URL exactly when it is unset or empty; it holds nothing else and no name twice, and when both are missing SECRET_KEY comes first |
| `Config.Init` | app/config.py:12-19 | construction fails if and only if SECRET_KEY or DATABASE_URL is `None` or ""; the message is the prefix followed by exactly the missing names, SECRET_KEY before DATABASE_URL, joined by ", "; on success the settings are returned unchanged |
| `Config.Load` | app/config.py:6-21 | `Settings()` fails if and only if SECRET_KEY or DATABASE_URL is absent from the environment or set to ""; on success it carries the attributes read from the environment, including the two required values |
| `Auth.FirstMatch` | app/routers/auth.py:55-56 | the position found holds a user with the given name and no earlier row does; no position is found exactly when no row has that name |
| `Auth.GetUserByUsername` | app/routers/auth.py:55-56 | the user returned is in the table, carries the given name and is the first such row; `None` exactly when no user has that name |
| `Auth.AuthenticateUser` | app/routers/auth.py:58-62 | a returned user has the given username, is the one the lookup finds, and the password verifies against its hash; the result is `None` exactly when no user has the name or the found user's hash rejects the password |
| `Auth.ExpiresAt` | app/routers/auth.py:49-51 | the expiry is `now + expires_delta` for a non-zero delta, and `now` + 30 minutes when the delta is `None` or zero (a zero `timedelta` is falsy); the 30 is the constant of line 32 |
| `Auth.ModuleKeying` | app/routers/auth.py:30-31 | auth.py's secret is `None` when SECRET_KEY is unset and its value otherwise; its algorithm is ALGORITHM's value when set and "HS256" when unset |
| `Auth.CreateAccessToken` | app/routers/auth.py:49-53 | the token is the encoder's output, under auth.py's secret and algorithm, for a claim set holding `data`'s keys plus `exp`: `exp` is the computed expiry, even when the caller supplied one, and every other key keeps its value |
| `Auth.AccessClaims` | app/routers/auth.py:49-52 | the claims are the input's keys plus `exp`; `exp` holds the computed expiry even if the caller supplied one; every other key keeps its value |
| `Auth.GetCurrentUser` | app/routers/auth.py:15-27 | a decode failure is 401 "Token invalide ou expiré"; a payload without `sub` is 401 "Token invalide"; a `sub` no user has is 404 "Utilisateur non trouvé"; otherwise the result is a user of the table whose username is `sub`, and success happens exactly when such a user exists |
| `Auth.ReadUsersMe` | app/routers/auth.py:73-86 | fails exactly when `get_current_user` fails, with the same status and detail; on success returns that user's username and role |
| `Auth.Login` | app/routers/auth.py:65-71 | fails exactly when authentication fails, always with 401 "Nom d'utilisateur ou mot de passe incorrect"; otherwise `token_type` is "bearer" and the token encodes exactly `{sub: username, exp: now + 30 minutes}` |
| `AuthProperties.FailedLoginsIndistinguishable` | app/routers/auth.py:58-69 | an unknown username and a known username with a wrong password both give `None` from `authenticate_user` and the identical 401 response from `login` |
| `AuthProperties.ExpiryInFuture` | app/routers/auth.py:51 | the expiry lies after `now` exactly when the caller did not pass a negative lifetime |
| `AuthProperties.KeyingAgreesWithSettings` | app/routers/auth.py:30-31 | the SECRET_KEY and ALGORITHM that auth.py reads equal those of `Settings` (same variables, same "HS256" default) |
| `AuthProperties.UnauthorizedBeforeLookup` | app/routers/auth.py:15-24 | when the token does not decode or has no `sub`, the guard's 401 (and that of `/auth/me`) is the same whatever the user table holds |
| `AuthProperties.LoginThenGuard` | app/routers/auth.py:65-86 | with a codec that gives back the encoded subject until the expiry second has passed, a login token presented no later than the second in which its 30 minutes end makes `get_current_user` return the very user that logged in, and `/auth/me` return that user's name and role |
| `AuthProperties.DeletedAccountTokenNotFound` | app/routers/auth.py:24-26 | with the same codec, a login token replayed within the same window, after every user of that name is deleted ends in 404 "Utilisateur non trouvé" |
| `AuthProperties.ExpiredTokenRejected` | app/routers/auth.py:17-22 | with a codec that rejects a token once its expiry second has passed, a login token presented in a later second than the one in which its 30 minutes end ends in 401 "Token invalide ou expiré", whatever the user table |

## Left out

- bcrypt hashing and verification (app/routers/auth.py:35, 43-47): foreign library calls. `verify_password` is the oracle `Crypto.verifyPassword`. `get_password_hash` is not modelled because the core never calls it. passlib raises an error on a malformed hash; the model does not capture this, because the oracle always returns a boolean.
- HS256 signing and decoding (python-jose, app/routers/auth.py:17, 53, 76): foreign library calls, modelled as the oracles `Crypto.encode` and `Crypto.decode`. The decoded payload is modelled as its string-valued claims, because python-jose itself rejects a non-string `sub`. Its whole-second treatment of `exp` appears only in the hypotheses `SoundCodec` and `EnforcesExpiry`. Its other claim checks (`aud`, `nbf`, `iat`, `at_hash`) apply to claim sets `login` never builds, so the hypotheses do not cover them.
- `Auth.Login`: errors raised by `jwt.encode` are not modelled, because the encoder oracle always returns a token. python-jose raises `JWSError` for an unsupported ALGORITHM (`Settings` accepts any value, "" included) or an unusable key. That error is not a `JWTError`, so it would leave `login` as a 500.
- `Auth.ExpiresAt`: does not model the `OverflowError` that `datetime + timedelta` raises beyond year 9999, because instants are unbounded integers.
- `Auth.AccessClaims`: does not model key order. The source's `dict` is ordered, and `update` keeps a caller-supplied `exp` in its original position. Only the encoded bytes depend on that order, and they are behind the encoder oracle.
- Wall-clock time: `datetime.utcnow()` and the decoder's clock are the `now` parameters.
- The environment and `.env` loading (`load_dotenv`): the environment is an input map. `int()` is the `parseInt` parameter; its `ValueError` on a non-numeric value is not modelled. The model also does not capture that the class attributes are evaluated once, at import time.
- The FastAPI wiring: `OAuth2PasswordBearer` header extraction and its own 401 for a missing header, dependency injection, `OAuth2PasswordRequestForm`, and the router registration. The guard starts from the extracted token string.
- The SQLAlchemy session and engine (app/database.py): connection plumbing. Its `DATABASE_URL` check duplicates the one `Config.Init` models.
- main.py and app/main.py: application wiring. This includes the bootstrap account and the custom 401 page.
- app/routers/zones.py: template rendering and an `ILIKE` query whose semantics belong to the database.
- Concurrency: each request is independent, and no shared state is mutated.
- Claim values other than text and instants (numbers, lists, nested objects) in `create_access_token`'s input: the core only passes `sub` and `exp`.
