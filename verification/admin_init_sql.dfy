/** The protected schema-initialisation endpoint
    (api/src/functions/adminInitSql.ts): an admin-key gate, then the embedded
    init script, then the "001_init.sql" migration record written only when it
    is missing. The tables the script creates are the ones of the Schema
    module; here only the migrations table matters. */
module AdminInitSql {
  import opened Common
  import opened Strings
  import opened Sql
  import opened Http
  import opened Migrations

  /** The 200 answer `{success, message, migration}`. */
  datatype InitBody = InitBody(success: bool, message: string, migration: string)

  const InitMigration: string := "001_init.sql"
  const NotConfigured: Error := Api(500, "Admin endpoint not configured", "admin_not_configured")
  const Unauthorized: Error := Api(401, "Unauthorized", "unauthorized")

  function InitFailed(message: string): Error {
    Api(500, "SQL initialization failed: " + message, "sql_init_failed")
  }

  /** The request carries the configured admin key in x-admin-key. */
  predicate Authorized(env: Env, request: Request) {
    && "ADMIN_KEY" in env && env["ADMIN_KEY"] != ""
    && "x-admin-key" in request.headers && request.headers["x-admin-key"] == env["ADMIN_KEY"]
  }

  /** The handler. `init` is what connecting and running INIT_SQL does; on
      success the script has created `schema_migrations` if it was missing. */
  function AdminInit(env: Env, init: Outcome, db: MigrationDb, request: Request): (r: (MigrationDb, Result<Response<InitBody>>))
    ensures !("ADMIN_KEY" in env && env["ADMIN_KEY"] != "") ==> r == (db, Err(NotConfigured))
    ensures "ADMIN_KEY" in env && env["ADMIN_KEY"] != "" && !Authorized(env, request) ==> r == (db, Err(Unauthorized))
    ensures Authorized(env, request) && init.Failed? ==> r == (db, Err(InitFailed(init.message)))
    ensures r.1.Ok? <==> Authorized(env, request) && init.Ran?
    ensures r.1.Ok? ==> r.1.value.status == 200 && r.1.value.body == JsonBody(InitBody(true, "SQL schema initialized successfully", InitMigration))
  {
    var adminKey := Lookup(env, "ADMIN_KEY");
    if adminKey.None? || adminKey.value == "" then (db, Err(NotConfigured))
    else
      var provided := Lookup(request.headers, "x-admin-key");
      if provided.None? || provided.value == "" || provided.value != adminKey.value then (db, Err(Unauthorized))
      else
        match init
        case Failed(message) => (db, Err(InitFailed(message)))
        case Ran(_) =>
          var rows := Rows(db);
          var rows' := if AppliedCount(db, InitMigration) == 0 then rows + [InitMigration] else rows;
          (MigrationDb(Some(rows')),
           Ok(JsonResponse(200, JsonBody(InitBody(true, "SQL schema initialized successfully", InitMigration)), map[])))
  }

  /** A successful call records "001_init.sql" exactly when no record
      collates equal to it and touches no other record, so the name is never
      recorded twice. */
  lemma AdminInitRecordsOnce(env: Env, init: Outcome, db: MigrationDb, request: Request)
    requires AdminInit(env, init, db, request).1.Ok?
    ensures var db' := AdminInit(env, init, db, request).0;
      && db'.table.Some?
      && Rows(db') == (if Recorded(Rows(db), InitMigration) then Rows(db) else Rows(db) + [InitMigration])
      && (NoDuplicates(Rows(db)) ==> NoDuplicates(Rows(db')))
  {
    var db' := AdminInit(env, init, db, request).0;
    if !Recorded(Rows(db), InitMigration) && NoDuplicates(Rows(db)) {
      var rows := Rows(db');
      forall i, j | 0 <= i < j < |rows| ensures Collated(rows[i]) != Collated(rows[j]) {
        if j == |rows| - 1 {
          assert rows[i] == Rows(db)[i];
        }
      }
    }
  }

  /** After a successful call, "001_init.sql" is recorded. */
  lemma AdminInitRecorded(env: Env, init: Outcome, db: MigrationDb, request: Request)
    requires AdminInit(env, init, db, request).1.Ok?
    ensures var db' := AdminInit(env, init, db, request).0;
      db'.table.Some? && Recorded(Rows(db'), InitMigration)
  {
    AdminInitRecordsOnce(env, init, db, request);
    if !Recorded(Rows(db), InitMigration) {
      RecordedAppend(Rows(db), [InitMigration], InitMigration);
      assert Collated([InitMigration][0]) == Collated(InitMigration);
    }
  }

  /** Calling the endpoint again changes nothing more. */
  lemma AdminInitIdempotent(env: Env, init: Outcome, db: MigrationDb, request: Request)
    requires AdminInit(env, init, db, request).1.Ok?
    ensures var db' := AdminInit(env, init, db, request).0;
      AdminInit(env, init, db', request).0 == db'
  {
    AdminInitRecorded(env, init, db, request);
    var db' := AdminInit(env, init, db, request).0;
    assert AppliedCount(db', InitMigration) > 0;
    assert MigrationDb(Some(Rows(db'))) == db';
  }

  /** After the endpoint has run, the migration runner skips 001_init.sql. */
  lemma AdminInitThenRunner(env: Env, init: Outcome, db: MigrationDb, request: Request, scripts: Scripts)
    requires AdminInit(env, init, db, request).1.Ok?
    ensures var db' := AdminInit(env, init, db, request).0;
      RunAll(db', [InitMigration], scripts) == RunResult(db', [], None)
  {
    AdminInitRecorded(env, init, db, request);
    RunAllRecorded(AdminInit(env, init, db, request).0, [InitMigration], scripts);
  }
}
