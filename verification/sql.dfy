/** The SQL client layer (api/src/lib/sql.ts): configuration read from the
    process environment and the all-or-nothing transaction wrapper. The
    connection pool and the wire protocol are not modelled. */
module Sql {
  import opened Common
  import opened Strings

  /** The process environment; a name absent from the map is `undefined`. */
  type Env = map<string, string>

  /** `process.env[name]` if it is set to a non-empty value, else `config_error`. */
  function RequireEnv(env: Env, name: string): (r: Result<string>)
    ensures r.Ok? <==> name in env && env[name] != ""
    ensures r.Ok? ==> r.value == env[name] && r.value != ""
    ensures r.Err? ==> r.error == Api(500, "Missing required env: " + name, "config_error")
  {
    if name in env && env[name] != "" then Ok(env[name])
    else Err(Api(500, "Missing required env: " + name, "config_error"))
  }

  /** An unset variable gives the fallback; a set one is true exactly for
      "true" in any letter case, or "1". */
  function ParseBoolean(value: Option<string>, fallback: bool): (b: bool)
  {
    if value.None? then fallback
    else ToLower(value.value) == "true" || value.value == "1"
  }

  /** ParseBoolean against its spelled-out acceptance set. */
  lemma ParseBooleanSpec(value: Option<string>, fallback: bool)
    ensures value.None? ==> ParseBoolean(value, fallback) == fallback
    ensures value.Some? ==>
      (ParseBoolean(value, fallback) <==> SpelledIgnoringCase(value.value, "true") || value.value == "1")
  {
    if value.Some? {
      LowerEqualsIff(value.value, "true");
    }
  }

  /** `env[name]` as the `string | undefined` that `process.env.X` yields. */
  function Lookup(env: Env, name: string): Option<string> {
    if name in env then Some(env[name]) else None
  }

  datatype SqlConfig = SqlConfig(
    user: string,
    password: string,
    server: string,
    database: string,
    port: Option<string>,            // SQL_PORT text when set; Number() conversion is not modelled
    encrypt: bool,
    trustServerCertificate: bool)

  /** getSqlConfig: the four required variables in order, optional port, and the
      two TLS switches with their defaults. */
  function GetSqlConfig(env: Env): (r: Result<SqlConfig>)
    ensures r.Ok? <==> forall v :: v in ["SQL_SERVER", "SQL_DATABASE", "SQL_USER", "SQL_PASSWORD"] ==> RequireEnv(env, v).Ok?
    ensures r.Ok? ==>
      && r.value.server == env["SQL_SERVER"] && r.value.database == env["SQL_DATABASE"]
      && r.value.user == env["SQL_USER"] && r.value.password == env["SQL_PASSWORD"]
    ensures r.Ok? && "SQL_ENCRYPT" !in env ==> r.value.encrypt
    ensures r.Ok? && "SQL_TRUST_CERT" !in env ==> !r.value.trustServerCertificate
    ensures r.Ok? ==> (r.value.port.Some? <==> "SQL_PORT" in env && env["SQL_PORT"] != "")
    ensures r.Err? && RequireEnv(env, "SQL_SERVER").Err? ==> r.error == RequireEnv(env, "SQL_SERVER").error
    ensures r.Err? ==> r.error.ApiError? && r.error.code == "config_error" && r.error.status == 500
  {
    var server :- RequireEnv(env, "SQL_SERVER");
    var database :- RequireEnv(env, "SQL_DATABASE");
    var user :- RequireEnv(env, "SQL_USER");
    var password :- RequireEnv(env, "SQL_PASSWORD");
    var port := if "SQL_PORT" in env && env["SQL_PORT"] != "" then Some(env["SQL_PORT"]) else None;
    Ok(SqlConfig(user, password, server, database, port,
                 ParseBoolean(Lookup(env, "SQL_ENCRYPT"), true),
                 ParseBoolean(Lookup(env, "SQL_TRUST_CERT"), false)))
  }

  /** What a transaction callback did to its working copy of the state: it
      returned a value, or it threw. */
  datatype Run<S, T> = Returned(state: S, value: T) | Threw(error: Error)

  /** withTransaction: begin, run the callback, commit its state and return its
      value; if it throws, roll back to the state at begin and rethrow. */
  function WithTransaction<S, T>(begin: S, callback: S -> Run<S, T>): (r: (S, Result<T>))
    ensures r.1.Err? ==> r.0 == begin
    ensures r.1.Err? <==> callback(begin).Threw?
    ensures r.1.Err? ==> r.1.error == callback(begin).error
    ensures r.1.Ok? ==> r.0 == callback(begin).state && r.1.value == callback(begin).value
  {
    match callback(begin)
    case Returned(state, value) => (state, Ok(value))
    case Threw(e) => (begin, Err(e))
  }
}
