/** The migration runner (api/scripts/run-migrations.ts): the `.sql` files of
    the migrations directory, in sorted order, each applied once and then
    recorded by name in `schema_migrations`. What a script does to the rest of
    the schema is abstract; only whether it succeeds and whether it creates the
    migrations table matters here. */
module Migrations {
  import opened Common
  import opened Strings
  import opened Seqs
  import opened Sql

  /** The migration bookkeeping: the rows of `schema_migrations` (one name per
      INSERT, in insertion order), or `None` while the table does not exist. */
  datatype MigrationDb = MigrationDb(table: Option<seq<string>>)

  /** What running one script's SQL text does: it fails with a message, or it
      runs, possibly creating the migrations table on the way. */
  datatype Outcome = Ran(createsTable: bool) | Failed(message: string)

  /** The effect of each migration file, by name. */
  type Scripts = string -> Outcome

  function Rows(db: MigrationDb): seq<string> {
    db.table.GetOr([])
  }

  /** `WHERE name = @name` finds a row: `name` is recorded under the
      case-insensitive collation of the NVARCHAR column. */
  predicate Recorded(rows: seq<string>, name: string) {
    exists i :: 0 <= i < |rows| && Collated(rows[i]) == Collated(name)
  }

  /** The `applied` count the runner reads: 0 without the table, else the
      number of rows whose name equals `name` under the collation. */
  function AppliedCount(db: MigrationDb, name: string): (n: nat)
    ensures n > 0 <==> Recorded(Rows(db), name)
  {
    Count(Rows(db), name)
  }

  function Count(rows: seq<string>, name: string): (n: nat)
    ensures n > 0 <==> Recorded(rows, name)
    ensures n <= |rows|
  {
    if |rows| == 0 then 0
    else
      assert Recorded(rows, name) <==> Collated(rows[0]) == Collated(name) || Recorded(rows[1..], name) by {
        if Recorded(rows[1..], name) {
          var i :| 0 <= i < |rows[1..]| && Collated(rows[1..][i]) == Collated(name);
          assert rows[i + 1] == rows[1..][i];
        }
        if Recorded(rows, name) && Collated(rows[0]) != Collated(name) {
          var i :| 0 <= i < |rows| && Collated(rows[i]) == Collated(name);
          assert rows[1..][i - 1] == rows[i];
        }
      }
      (if Collated(rows[0]) == Collated(name) then 1 else 0) + Count(rows[1..], name)
  }

  /** Appending a record keeps the others and records its own name. */
  lemma RecordedAppend(rows: seq<string>, more: seq<string>, name: string)
    ensures Recorded(rows + more, name) <==> Recorded(rows, name) || Recorded(more, name)
  {
    if Recorded(rows + more, name) {
      var i :| 0 <= i < |rows + more| && Collated((rows + more)[i]) == Collated(name);
      if i >= |rows| {
        assert more[i - |rows|] == (rows + more)[i];
      }
    }
    if Recorded(more, name) {
      var i :| 0 <= i < |more| && Collated(more[i]) == Collated(name);
      assert (rows + more)[|rows| + i] == more[i];
    }
    if Recorded(rows, name) {
      var i :| 0 <= i < |rows| && Collated(rows[i]) == Collated(name);
      assert (rows + more)[i] == rows[i];
    }
  }

  /** No two records name the same migration under the collation. */
  predicate NoDuplicates(rows: seq<string>) {
    forall i, j :: 0 <= i < j < |rows| ==> Collated(rows[i]) != Collated(rows[j])
  }

  /** The failure of an INSERT into a table that does not exist. */
  const MissingTable: Error := OtherError("Invalid object name 'dbo.schema_migrations'.")

  /** One iteration of the loop: skip a recorded file; otherwise run it, then
      insert its name. `Ok((db', true))` when the file was applied. */
  function Step(db: MigrationDb, name: string, scripts: Scripts): (r: Result<(MigrationDb, bool)>)
    ensures Recorded(Rows(db), name) ==> r == Ok((db, false))
    ensures r.Ok? && !r.value.1 ==> r.value.0 == db
    ensures r.Ok? && r.value.1 ==> !Recorded(Rows(db), name) && Rows(r.value.0) == Rows(db) + [name]
    ensures r.Ok? ==> Recorded(Rows(r.value.0), name)
  {
    if AppliedCount(db, name) > 0 then Ok((db, false))
    else
      match scripts(name)
      case Failed(message) => Err(OtherError(message))
      case Ran(createsTable) =>
        var table := if db.table.None? && createsTable then Some([]) else db.table;
        if table.None? then Err(MissingTable)
        else
          RecordedAppend(Rows(db), [name], name);
          assert Collated([name][0]) == Collated(name);
          Ok((MigrationDb(Some(table.value + [name])), true))
  }

  /** The end of a run: the database, the names applied (in order), and the
      error that stopped it, if any. */
  datatype RunResult = RunResult(db: MigrationDb, applied: seq<string>, error: Option<Error>)

  /** The loop over `names`; the first failure stops it. */
  function RunAll(db: MigrationDb, names: seq<string>, scripts: Scripts): RunResult
    decreases |names|
  {
    if |names| == 0 then RunResult(db, [], None)
    else
      match Step(db, names[0], scripts)
      case Err(e) => RunResult(db, [], Some(e))
      case Ok((db1, applied)) =>
        var rest := RunAll(db1, names[1..], scripts);
        RunResult(rest.db, (if applied then [names[0]] else []) + rest.applied, rest.error)
  }

  /** The key file names are sorted by: their own text, which is the order
      the default `sort()` gives names of Basic Multilingual Plane characters. */
  function FileName(f: string): string { f }

  predicate IsSqlFile(f: string) {
    EndsWith(f, ".sql")
  }

  /** `readdirSync(dir).filter(endsWith(".sql")).sort()` */
  function Pending(files: seq<string>): (names: seq<string>)
    ensures SortedByName(names, FileName)
    ensures forall n :: n in names <==> n in files && IsSqlFile(n)
  {
    var sql := Filter(files, IsSqlFile);
    var names := SortByName(sql, FileName);
    assert forall n :: n in names <==> n in multiset(names);
    assert forall n :: n in sql <==> n in multiset(sql);
    names
  }

  /** runMigrations: configuration first (a failure stops the script before
      anything runs), then the loop. The exit code is 1 exactly when an error
      stopped the run. */
  function RunMigrations(env: Env, files: seq<string>, db: MigrationDb, scripts: Scripts): (r: RunResult)
    ensures GetSqlConfig(env).Err? ==> r == RunResult(db, [], Some(GetSqlConfig(env).error))
  {
    match GetSqlConfig(env)
    case Err(e) => RunResult(db, [], Some(e))
    case Ok(_) => RunAll(db, Pending(files), scripts)
  }

  function ExitCode(r: RunResult): int {
    if r.error.Some? then 1 else 0
  }

  /** A run records exactly the names it applies, after the rows already
      there, so recorded names stay recorded even when it stops early. */
  lemma {:induction false} RunAllRows(db: MigrationDb, names: seq<string>, scripts: Scripts)
    ensures var r := RunAll(db, names, scripts);
      && Rows(r.db) == Rows(db) + r.applied
    decreases |names|
  {
    if |names| > 0 {
      var st := Step(db, names[0], scripts);
      if st.Ok? {
        var db1 := st.value.0;
        RunAllRows(db1, names[1..], scripts);
        var rest := RunAll(db1, names[1..], scripts);
        var head := if st.value.1 then [names[0]] else [];
        assert RunAll(db, names, scripts) == RunResult(rest.db, head + rest.applied, rest.error);
        assert Rows(db1) == Rows(db) + head;
        assert Rows(db) + head + rest.applied == Rows(db) + (head + rest.applied);
      }
    }
  }

  /** A run applies only names it was given that were not yet recorded. */
  lemma {:induction false} RunAllAppliesNew(db: MigrationDb, names: seq<string>, scripts: Scripts)
    ensures forall n :: n in RunAll(db, names, scripts).applied ==> n in names && !Recorded(Rows(db), n)
    decreases |names|
  {
    if |names| > 0 {
      match Step(db, names[0], scripts)
      case Err(e) =>
      case Ok((db1, applied)) =>
        RunAllAppliesNew(db1, names[1..], scripts);
        var rest := RunAll(db1, names[1..], scripts);
        forall n | n in rest.applied ensures n in names && !Recorded(Rows(db), n) {
          assert n in names[1..];
          if applied {
            RecordedAppend(Rows(db), [names[0]], n);
          }
        }
    }
  }

  /** A run that ends without error leaves every name it was given recorded,
      possibly under a spelling that collates equal. */
  lemma {:induction false} RunAllCompletes(db: MigrationDb, names: seq<string>, scripts: Scripts)
    requires RunAll(db, names, scripts).error.None?
    ensures forall n :: n in names ==> Recorded(Rows(RunAll(db, names, scripts).db), n)
    decreases |names|
  {
    if |names| > 0 {
      match Step(db, names[0], scripts)
      case Err(e) =>
      case Ok((db1, applied)) =>
        RunAllCompletes(db1, names[1..], scripts);
        RunAllRows(db1, names[1..], scripts);
        var r := RunAll(db, names, scripts);
        var rest := RunAll(db1, names[1..], scripts);
        forall n | n in names ensures Recorded(Rows(r.db), n) {
          RecordedAppend(Rows(db1), rest.applied, n);
          if n != names[0] {
            assert n in names[1..];
          }
        }
    }
  }

  /** Over sorted names, the names are applied in sorted order. */
  lemma {:induction false} AppliedInOrder(db: MigrationDb, names: seq<string>, scripts: Scripts)
    requires SortedByName(names, FileName)
    ensures SortedByName(RunAll(db, names, scripts).applied, FileName)
    decreases |names|
  {
    if |names| > 0 {
      match Step(db, names[0], scripts)
      case Err(e) =>
      case Ok((db1, applied)) =>
        assert SortedByName(names[1..], FileName);
        AppliedInOrder(db1, names[1..], scripts);
        RunAllAppliesNew(db1, names[1..], scripts);
        var rest := RunAll(db1, names[1..], scripts).applied;
        if applied {
          forall j | 0 <= j < |rest| ensures LexLe(names[0], rest[j]) {
            assert rest[j] in names[1..];
            var k :| 0 <= k < |names[1..]| && names[1..][k] == rest[j];
            assert names[k + 1] == rest[j];
          }
          SortedByNameCons(names[0], rest, FileName);
        }
    }
  }

  /** With every name already recorded, a run does nothing. */
  lemma {:induction false} RunAllRecorded(db: MigrationDb, names: seq<string>, scripts: Scripts)
    requires forall n :: n in names ==> Recorded(Rows(db), n)
    ensures RunAll(db, names, scripts) == RunResult(db, [], None)
    decreases |names|
  {
    if |names| > 0 {
      assert names[0] in names;
      assert forall n :: n in names[1..] ==> n in names;
      RunAllRecorded(db, names[1..], scripts);
    }
  }

  /** A file whose name differs from a recorded one only in letter case is
      skipped: "001_INIT.sql" counts as applied once "001_init.sql" is recorded. */
  lemma CaseVariantSkipped(scripts: Scripts)
    ensures var db := MigrationDb(Some(["001_init.sql"]));
      Step(db, "001_INIT.sql", scripts) == Ok((db, false))
  {
    var db := MigrationDb(Some(["001_init.sql"]));
    assert Collated("001_INIT.sql") == Collated("001_init.sql");
    assert Rows(db)[0] == "001_init.sql";
  }

  /** A second run over the same files after a successful one applies nothing
      and changes nothing. */
  lemma RunTwice(env: Env, files: seq<string>, db: MigrationDb, scripts: Scripts)
    requires RunMigrations(env, files, db, scripts).error.None?
    ensures var first := RunMigrations(env, files, db, scripts);
      RunMigrations(env, files, first.db, scripts) == RunResult(first.db, [], None)
  {
    RunAllCompletes(db, Pending(files), scripts);
    RunAllRecorded(RunMigrations(env, files, db, scripts).db, Pending(files), scripts);
  }

  /** A run never records a name twice, whatever the files and however it
      ends: a name applied once is recorded before the loop reaches its next
      occurrence. */
  lemma {:induction false} RunAllNoDuplicates(db: MigrationDb, names: seq<string>, scripts: Scripts)
    requires NoDuplicates(Rows(db))
    ensures NoDuplicates(Rows(RunAll(db, names, scripts).db))
    decreases |names|
  {
    if |names| > 0 {
      match Step(db, names[0], scripts)
      case Err(e) =>
      case Ok((db1, applied)) =>
        if applied {
          var rows := Rows(db1);
          forall i, j | 0 <= i < j < |rows| ensures Collated(rows[i]) != Collated(rows[j]) {
            if j == |rows| - 1 {
              assert rows[i] == Rows(db)[i];
            }
          }
        }
        RunAllNoDuplicates(db1, names[1..], scripts);
    }
  }

  /** A recorded name and an unrecorded one never collate equal. */
  lemma RecordedDiffers(rows: seq<string>, a: string, b: string)
    requires Recorded(rows, a) && !Recorded(rows, b)
    ensures Collated(a) != Collated(b)
  {
  }

  /** A name put in front of distinct names it collates apart from keeps
      them distinct. */
  lemma ConsDistinct(name: string, rest: seq<string>)
    requires NoDuplicates(rest)
    requires forall n :: n in rest ==> Collated(n) != Collated(name)
    ensures NoDuplicates([name] + rest)
  {
    var all := [name] + rest;
    forall i, j | 0 <= i < j < |all| ensures Collated(all[i]) != Collated(all[j]) {
      assert all[j] == rest[j - 1];
      if i > 0 {
        assert all[i] == rest[i - 1];
      }
    }
  }

  /** The names one pass applies never collate equal to each other: each is
      recorded before the next file is looked at. */
  lemma {:induction false} RunAllAppliedDistinct(db: MigrationDb, names: seq<string>, scripts: Scripts)
    ensures NoDuplicates(RunAll(db, names, scripts).applied)
    decreases |names|
  {
    if |names| > 0 {
      match Step(db, names[0], scripts)
      case Err(e) =>
      case Ok((db1, applied)) =>
        RunAllAppliedDistinct(db1, names[1..], scripts);
        if applied {
          var rest := RunAll(db1, names[1..], scripts).applied;
          RunAllAppliesNew(db1, names[1..], scripts);
          forall n | n in rest ensures Collated(n) != Collated(names[0]) {
            RecordedDiffers(Rows(db1), names[0], n);
          }
          ConsDistinct(names[0], rest);
        }
    }
  }

  /** What one run of the script does: it applies `.sql` files of the
      directory that were not yet recorded (under the collation), in sorted
      order, records each right after applying it, keeps every earlier record,
      applies no two names that collate equal, adds no duplicate to a table
      that had none, and, unless it exits with code 1, leaves every `.sql`
      file recorded. */
  lemma RunMigrationsSpec(env: Env, files: seq<string>, db: MigrationDb, scripts: Scripts)
    ensures var r := RunMigrations(env, files, db, scripts);
      && Rows(r.db) == Rows(db) + r.applied
      && (forall n :: n in r.applied ==> n in files && IsSqlFile(n) && !Recorded(Rows(db), n))
      && SortedByName(r.applied, FileName)
      && NoDuplicates(r.applied)
      && (NoDuplicates(Rows(db)) ==> NoDuplicates(Rows(r.db)))
      && (ExitCode(r) == 0 ==> forall n :: n in files && IsSqlFile(n) ==> Recorded(Rows(r.db), n))
  {
    if GetSqlConfig(env).Ok? {
      var names := Pending(files);
      RunAllRows(db, names, scripts);
      RunAllAppliesNew(db, names, scripts);
      AppliedInOrder(db, names, scripts);
      RunAllAppliedDistinct(db, names, scripts);
      if NoDuplicates(Rows(db)) {
        RunAllNoDuplicates(db, names, scripts);
      }
      if RunAll(db, names, scripts).error.None? {
        RunAllCompletes(db, names, scripts);
      }
    }
  }
}
