/**
 * Startup configuration (app/config.py): the class attributes of `Settings`,
 * read from the process environment, and the check in `Settings.__init__`
 * that refuses to start when a required variable is missing or empty.
 */
module Config {
  import opened Wrappers

  /** The process environment once `.env` has been merged in: name to value. */
  type Environment = map<string, string>

  const SecretKeyName := "SECRET_KEY"
  const AlgorithmName := "ALGORITHM"
  const ExpireMinutesName := "ACCESS_TOKEN_EXPIRE_MINUTES"
  const DatabaseUrlName := "DATABASE_URL"

  const DefaultAlgorithm := "HS256"
  const DefaultExpireMinutes := 30

  /** The required variables, in the order `__init__` tests them. */
  const RequiredVariables := [SecretKeyName, DatabaseUrlName]

  /** Prefix of the `EnvironmentError` message raised by `__init__`. */
  const MissingPrefix := "❌ Variables d'environnement manquantes : "

  /** `os.getenv(name)`: the value, or `None` when the variable is unset. */
  function Getenv(env: Environment, name: string): (value: Option<string>)
  {
    if name in env then Some(env[name]) else None
  }

  /** `os.getenv(name, default)`. */
  function GetenvOr(env: Environment, name: string, default: string): (value: string)
  {
    if name in env then env[name] else default
  }

  /** The four settings a `Settings` object carries. */
  datatype Settings = Settings(
    secretKey: Option<string>,
    algorithm: string,
    accessTokenExpireMinutes: int,
    databaseUrl: Option<string>)

  /** Python truthiness of `str | None`: `None` and `""` are both false. */
  predicate Truthy(v: Option<string>)
  {
    v.Some? && v.value != ""
  }

  /**
   * The class attributes of `Settings`, evaluated from the environment.
   * `parseInt` stands for Python's `int()` applied to the variable's text.
   */
  function ClassAttributes(env: Environment, parseInt: string -> int): (s: Settings)
    ensures SecretKeyName in env <==> s.secretKey.Some?
    ensures SecretKeyName in env ==> s.secretKey.value == env[SecretKeyName]
    ensures AlgorithmName !in env ==> s.algorithm == "HS256"
    ensures AlgorithmName in env ==> s.algorithm == env[AlgorithmName]
    ensures ExpireMinutesName !in env ==> s.accessTokenExpireMinutes == 30
    ensures ExpireMinutesName in env ==> s.accessTokenExpireMinutes == parseInt(env[ExpireMinutesName])
    ensures DatabaseUrlName in env <==> s.databaseUrl.Some?
    ensures DatabaseUrlName in env ==> s.databaseUrl.value == env[DatabaseUrlName]
  {
    Settings(
      Getenv(env, SecretKeyName),
      GetenvOr(env, AlgorithmName, DefaultAlgorithm),
      if ExpireMinutesName in env then parseInt(env[ExpireMinutesName]) else DefaultExpireMinutes,
      Getenv(env, DatabaseUrlName))
  }

  /** Python's `sep.join(parts)`. */
  function Join(parts: seq<string>, sep: string): (joined: string)
  {
    if |parts| == 0 then ""
    else if |parts| == 1 then parts[0]
    else parts[0] + sep + Join(parts[1..], sep)
  }

  /**
   * The `missing` list of `__init__`: exactly the required variables that are
   * unset or empty, each once, in the order of `RequiredVariables`.
   */
  method MissingVariables(s: Settings) returns (missing: seq<string>)
    ensures SecretKeyName in missing <==> !Truthy(s.secretKey)
    ensures DatabaseUrlName in missing <==> !Truthy(s.databaseUrl)
    ensures forall i :: 0 <= i < |missing| ==> missing[i] in RequiredVariables
    ensures forall i, j :: 0 <= i < j < |missing| ==> missing[i] != missing[j]
    ensures |missing| <= |RequiredVariables|
    ensures |missing| == |RequiredVariables| ==> missing == RequiredVariables
  {
    missing := [];
    if !Truthy(s.secretKey) {
      missing := missing + [SecretKeyName];
    }
    if !Truthy(s.databaseUrl) {
      missing := missing + [DatabaseUrlName];
    }
  }

  /**
   * `Settings.__init__`: fails with the list of missing names, joined by ", ",
   * when a required variable is unset or empty; otherwise the settings are
   * accepted unchanged.
   */
  method Init(s: Settings) returns (r: Result<Settings, string>)
    ensures r.Failure? <==> !Truthy(s.secretKey) || !Truthy(s.databaseUrl)
    ensures r.Success? ==> r.value == s
    ensures !Truthy(s.secretKey) && !Truthy(s.databaseUrl) ==>
              r.error == MissingPrefix + "SECRET_KEY, DATABASE_URL"
    ensures !Truthy(s.secretKey) && Truthy(s.databaseUrl) ==>
              r.error == MissingPrefix + "SECRET_KEY"
    ensures Truthy(s.secretKey) && !Truthy(s.databaseUrl) ==>
              r.error == MissingPrefix + "DATABASE_URL"
  {
    var missing := MissingVariables(s);
    if |missing| == 1 {
      assert missing == [missing[0]];
    }
    if |missing| == 2 {
      assert missing == RequiredVariables;
      assert Join(missing, ", ") == SecretKeyName + ", " + Join([DatabaseUrlName], ", ");
    }
    if |missing| > 0 {
      r := Failure(MissingPrefix + Join(missing, ", "));
    } else {
      r := Success(s);
    }
  }

  /**
   * `settings = Settings()`: the attributes are read from the environment and
   * checked. Startup fails exactly when SECRET_KEY or DATABASE_URL is unset
   * or set to the empty string.
   */
  method Load(env: Environment, parseInt: string -> int) returns (r: Result<Settings, string>)
    ensures r.Failure? <==>
              SecretKeyName !in env || env[SecretKeyName] == "" ||
              DatabaseUrlName !in env || env[DatabaseUrlName] == ""
    ensures r.Success? ==> r.value == ClassAttributes(env, parseInt)
    ensures r.Success? ==> r.value.secretKey == Some(env[SecretKeyName])
    ensures r.Success? ==> r.value.databaseUrl == Some(env[DatabaseUrlName])
  {
    r := Init(ClassAttributes(env, parseInt));
  }
}
