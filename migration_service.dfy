/**
 * `MigrationService`: the orchestrator as an object whose fields are the
 * migration directory and the database state it reads and writes. Each
 * method runs the source's steps in order and is proved to end in the state
 * that the matching function of module Migrations gives. A method that may
 * let an exception escape returns `ok == false` (or a null result) for it.
 */
module Service {
  import opened Options
  import opened Text
  import opened Linq
  import opened Models
  import opened MigrationUtils
  import opened Migrations
  import opened MigrationProperties

  class MigrationService {
    /** The `<id>.json` migration files. */
    var files: ArtifactStore
    /** `__EFMigrationsHistory`: None while the table does not exist. */
    var history: Option<seq<string>>
    /** The rows of `modelsnapshot`, in insertion order. */
    var snapshots: seq<string>
    /** Whether the public schema holds any table (`DatabaseExists`). */
    var dbHasTables: bool
    /** The statements `ExecuteSql` committed, in order. */
    var executed: seq<string>
    /** The behaviour of the database and the file system. */
    const env: Env

    constructor (env: Env, files: ArtifactStore, db: Db)
      ensures this.env == env && this.files == files && DbView() == db
    {
      this.env := env;
      this.files := files;
      history, snapshots, dbHasTables, executed := db.history, db.snapshots, db.hasTables, db.executed;
    }

    /** The database fields as one value. */
    function DbView(): Db
      reads this
    {
      Db(history, snapshots, dbHasTables, executed)
    }

    /** `GetNotAppliedMigrationIds`: migration files whose id is not in the history, sorted, each once. */
    function GetNotAppliedMigrationIds(): (pending: seq<string>)
      reads this
      ensures Ascending(pending) && NoDuplicates(pending)
      ensures forall id :: id in pending <==> id in files && id !in AppliedIds(env, DbView())
    {
      NotAppliedIds(DeclaredIds(files), AppliedIds(env, DbView()))
    }

    /** `GetMigrationsToApply`: always succeeds, with the working set as data. */
    method GetMigrationsToApply(migrationIds: seq<string>) returns (result: StepResult<seq<string>>)
      ensures result.Success
      ensures result.Data == Some(WorkingSet(env, files, DbView(), migrationIds))
    {
      if |migrationIds| > 0 {
        result := new StepResult<seq<string>>.WithData(true, Some(migrationIds));
      } else {
        result := new StepResult<seq<string>>.WithData(true, Some(GetNotAppliedMigrationIds()));
      }
    }

    /** `ExecuteSql`, reduced to its blank-script guard and its commit-or-throw outcome. */
    method ExecuteSql(sqlQuery: string) returns (ok: bool)
      modifies this`executed
      ensures Step(DbView(), ok) == Exec(env, old(DbView()), sqlQuery)
    {
      ok := true;
      if !IsBlank(sqlQuery) {
        if env.rejects(sqlQuery) {
          ok := false;
        } else {
          executed := executed + [sqlQuery];
        }
      }
    }

    /** `EnsureCreateEFHistoryTable`. */
    method EnsureCreateEFHistoryTable() returns (ok: bool)
      modifies this`history, this`dbHasTables, this`executed
      ensures Step(DbView(), ok) == EnsureHistoryTable(env, old(DbView()))
    {
      ok := true;
      if history.None? {
        ok := ExecuteSql(CreateHistoryScript);
        if ok {
          // the new table lives in the public schema
          history, dbHasTables := Some([]), true;
        }
      }
    }

    /** `AddEFHistoryRecord`: the insert fails on a missing table or a duplicate key. */
    method AddEFHistoryRecord(migrationId: string) returns (ok: bool)
      modifies this`history, this`executed
      ensures Step(DbView(), ok) == InsertRow(env, old(DbView()), migrationId)
    {
      match history {
        case None =>
          ok := false;
        case Some(rows) =>
          if migrationId in rows {
            ok := false;
          } else {
            InsertHistoryScriptNotBlank(migrationId, env.productVersion);
            ok := ExecuteSql(InsertHistoryScript(migrationId, env.productVersion));
            if ok {
              history := Some(rows + [migrationId]);
            }
          }
      }
    }

    /** The `foreach` over `AddEFHistoryRecord` in `SaveMigrations` and `UpdateDatabase`. */
    method AddEFHistoryRecords(migrationIds: seq<string>) returns (ok: bool)
      modifies this`history, this`executed
      ensures Step(DbView(), ok) == InsertRows(env, old(DbView()), migrationIds)
    {
      ok := true;
      var i := 0;
      while i < |migrationIds|
        invariant 0 <= i <= |migrationIds|
        invariant InsertRows(env, old(DbView()), migrationIds) == InsertRows(env, DbView(), migrationIds[i..])
      {
        assert migrationIds[i..][1..] == migrationIds[i + 1..];
        ok := AddEFHistoryRecord(migrationIds[i]);
        if !ok {
          return;
        }
        i := i + 1;
      }
    }

    /** `DeleteEFHistoryRecord`. */
    method DeleteEFHistoryRecord(migrationId: string) returns (ok: bool)
      modifies this`history, this`executed
      ensures Step(DbView(), ok) == DeleteRow(env, old(DbView()), migrationId)
    {
      match history {
        case None =>
          ok := false;
        case Some(rows) =>
          DeleteHistoryScriptNotBlank(migrationId);
          ok := ExecuteSql(DeleteHistoryScript(migrationId));
          if ok {
            history := Some(Without(rows, {migrationId}));
          }
      }
    }

    /** The `foreach` over `DeleteEFHistoryRecord` in `RollbackMigrations`. */
    method DeleteEFHistoryRecords(migrationIds: seq<string>) returns (ok: bool)
      modifies this`history, this`executed
      ensures Step(DbView(), ok) == DeleteRows(env, old(DbView()), migrationIds)
    {
      ok := true;
      var i := 0;
      while i < |migrationIds|
        invariant 0 <= i <= |migrationIds|
        invariant DeleteRows(env, old(DbView()), migrationIds) == DeleteRows(env, DbView(), migrationIds[i..])
      {
        assert migrationIds[i..][1..] == migrationIds[i + 1..];
        ok := DeleteEFHistoryRecord(migrationIds[i]);
        if !ok {
          return;
        }
        i := i + 1;
      }
    }

    /** `SaveModelSnapshot`: adds a row; earlier rows stay. */
    method SaveModelSnapshot(migrationId: string)
      modifies this`snapshots
      ensures DbView() == SaveSnapshot(env, old(DbView()), migrationId)
    {
      snapshots := snapshots + [env.generateSnapshot(migrationId)];
    }

    /**
     * `SaveMigrations`: registers the working set as applied without running
     * its scripts. A null result stands for an exception escaping the call.
     */
    method SaveMigrations(migrationIds: seq<string>) returns (result: StepResultBase?)
      modifies this`history, this`snapshots, this`dbHasTables, this`executed
      ensures var s := SaveMigrationsStep(env, files, old(DbView()), migrationIds);
        DbView() == s.db && (result != null <==> s.ok)
      ensures result != null ==> result.Success == (|WorkingSet(env, files, old(DbView()), migrationIds)| > 0)
    {
      ghost var before := DbView();
      ghost var store := files;
      var migrationsToApplyResult := GetMigrationsToApply(migrationIds);
      assert files == store;
      var migrationsToApply := migrationsToApplyResult.Data.value;
      ghost var spec := SaveMigrationsStep(env, files, before, migrationIds);
      assert migrationsToApply == WorkingSet(env, files, before, migrationIds);
      if |migrationsToApply| > 0 {
        SaveModelSnapshot(Last(migrationsToApply));
        assert files == store;
        var ok := EnsureCreateEFHistoryTable();
        assert files == store;
        ghost var registered := EnsureHistoryTable(env, SaveSnapshot(env, before, Last(migrationsToApply)));
        assert Step(DbView(), ok) == registered;
        assert spec == if registered.ok then InsertRows(env, registered.db, migrationsToApply) else registered;
        if !ok {
          return null;
        }
        ok := AddEFHistoryRecords(migrationsToApply);
        assert Step(DbView(), ok) == spec;
        if !ok {
          return null;
        }
        result := new StepResultBase.WithOutcome("Migrations saved.", true);
      } else {
        assert spec == Step(before, true);
        result := new StepResultBase.WithOutcome("There are no migrations to save.", false);
      }
    }

    /**
     * `BuildUpdateSqlScript`: the `up` scripts of the ids in order; fails
     * without data at the first id whose file cannot be loaded.
     */
    method BuildUpdateSqlScript(migrationIds: seq<string>) returns (result: StepResult<string>)
      ensures result.Success == AllLoadable(files, migrationIds)
      ensures result.Data == if result.Success then Some(UpScript(files, migrationIds)) else None
    {
      result := new StepResult<string>.FromSuccess(true);
      var updateSqlScript := "";
      var i := 0;
      while i < |migrationIds|
        invariant 0 <= i <= |migrationIds|
        invariant result.Success && result.Data == None
        invariant AllLoadable(files, migrationIds[..i]) && updateSqlScript == UpScript(files, migrationIds[..i])
      {
        var migrationResult := GetDeclaredMigration(files, migrationIds[i]);
        assert migrationIds[..i + 1] == migrationIds[..i] + [migrationIds[i]];
        if migrationResult.Some? {
          UpScriptAppend(files, migrationIds[..i], migrationIds[i]);
          var sqlCommands := migrationResult.value.upSqlCommands;
          if |sqlCommands| > 0 {
            var upOperationsScript := SqlCommandsToScript(sqlCommands);
            updateSqlScript := updateSqlScript + upOperationsScript + NL;
          }
        } else {
          assert !AllLoadable(files, migrationIds);
          result := new StepResult<string>.WithOutcome("A migration file could not be loaded.", false);
          break;
        }
        i := i + 1;
      }
      if result.Success {
        assert migrationIds[..i] == migrationIds;
        result.Data := Some(updateSqlScript);
      }
    }

    /**
     * `UpdateDatabase`: builds and runs the update script, then registers the
     * ids. A null result stands for an exception escaping the call.
     */
    method UpdateDatabase(migrationsToApply: seq<string>) returns (result: StepResultBase?)
      requires |migrationsToApply| > 0
      modifies this`history, this`snapshots, this`dbHasTables, this`executed
      ensures var s := UpdateDatabaseStep(env, files, old(DbView()), migrationsToApply);
        DbView() == s.db && (result == null <==> AllLoadable(files, migrationsToApply) && !s.ok)
      ensures result != null ==> result.Success == UpdateDatabaseStep(env, files, old(DbView()), migrationsToApply).ok
    {
      var sqlScriptResult := BuildUpdateSqlScript(migrationsToApply);
      if sqlScriptResult.Success {
        var ok := ExecuteSql(sqlScriptResult.Data.value);
        if !ok {
          return null;
        }
        SaveModelSnapshot(Last(migrationsToApply));
        ok := EnsureCreateEFHistoryTable();
        if !ok {
          return null;
        }
        ok := AddEFHistoryRecords(migrationsToApply);
        if !ok {
          return null;
        }
        result := new StepResultBase.WithOutcome("Migrations applied, database updated.", true);
      } else {
        result := new StepResultBase.WithOutcome("The update script could not be built.", false);
      }
    }

    /** `ApplyMigrations`: every exception is turned into a failed result. */
    method ApplyMigrations(migrationIds: seq<string>) returns (result: StepResultBase)
      modifies this`history, this`snapshots, this`dbHasTables, this`executed
      ensures var s := ApplyStep(env, files, old(DbView()), migrationIds);
        DbView() == s.db && result.Success == s.ok
    {
      ghost var before, store := DbView(), files;
      ghost var spec := ApplyStep(env, store, before, migrationIds);
      var migrationsToApplyResult := GetMigrationsToApply(migrationIds);
      assert files == store;
      var migrationsToApply := migrationsToApplyResult.Data.value;
      assert migrationsToApply == WorkingSet(env, store, before, migrationIds);
      if |migrationsToApply| > 0 {
        var modelSnapshotCode := CurrentSnapshot(DbView());
        var appliedMigrationIds := AppliedIds(env, DbView());
        var firstApply := IsNullOrWhiteSpace(modelSnapshotCode) || |appliedMigrationIds| == 0;
        assert firstApply == Bootstrap(env, before);
        var applied: StepResultBase?;
        if firstApply && |migrationsToApply| > 1 {
          assert spec == Step(before, false);
          applied := new StepResultBase.WithOutcome("The initial migration must be applied first.", false);
        } else if firstApply && |migrationsToApply| == 1 {
          if !dbHasTables {
            assert spec == UpdateDatabaseStep(env, store, before, migrationsToApply);
            applied := UpdateDatabase(migrationsToApply);
          } else {
            var migrationId := migrationsToApply[0];
            assert WorkingSet(env, store, before, [migrationId]) == [migrationId];
            assert spec == SaveMigrationsStep(env, store, before, [migrationId]);
            applied := SaveMigrations([migrationId]);
          }
        } else {
          assert spec == UpdateDatabaseStep(env, store, before, migrationsToApply);
          applied := UpdateDatabase(migrationsToApply);
        }
        assert DbView() == spec.db && (applied != null && applied.Success) == spec.ok;
        if applied == null {
          result := new StepResultBase.WithOutcome("Applying migrations failed.", false);
        } else {
          result := applied;
        }
      } else {
        assert spec == Step(before, false);
        result := new StepResultBase.WithOutcome("There are no migrations to apply.", false);
      }
    }

    /** `ValidateRollback`: reads the state and changes nothing. */
    method ValidateRollback(targetMigrationId: string) returns (result: StepResultBase)
      ensures result.Success
        == (ValidateRollbackVerdict(targetMigrationId, AppliedIds(env, DbView()), CurrentSnapshot(DbView())) == RollbackAllowed)
    {
      if IsBlank(targetMigrationId) {
        return new StepResultBase.WithOutcome("A target migration is required.", false);
      }
      var target := GetFileNameWithoutExtension(targetMigrationId);
      var appliedMigrationIds := AppliedIds(env, DbView());
      if |appliedMigrationIds| == 0 {
        return new StepResultBase.WithOutcome("No migrations are applied.", false);
      }
      if target !in appliedMigrationIds {
        return new StepResultBase.WithOutcome("The target migration is not applied.", false);
      }
      if EqualsIgnoreCase(Last(appliedMigrationIds), target) {
        return new StepResultBase.WithOutcome("The target migration is the last one.", false);
      }
      var targetMigrationIndex := IndexOf(appliedMigrationIds, target);
      var rollbackMigrationIds := Skip(appliedMigrationIds, targetMigrationIndex + 1);
      if |rollbackMigrationIds| == 0 {
        return new StepResultBase.WithOutcome("There is nothing to roll back.", false);
      }
      var modelSnapshotCode := CurrentSnapshot(DbView());
      if IsNullOrWhiteSpace(modelSnapshotCode) {
        return new StepResultBase.WithOutcome("There is no current model snapshot.", false);
      }
      result := new StepResultBase.FromSuccess(true);
    }

    /** `DeleteDeclaredMigrations`: deleting an absent file is a no-op; the first failing deletion ends the call. */
    method DeleteDeclaredMigrations(migrationIds: seq<string>) returns (result: StepResultBase)
      modifies this`files
      ensures var d := DeleteFiles(env, old(files), migrationIds);
        files == d.store && result.Success == d.ok
    {
      var i := 0;
      while i < |migrationIds|
        invariant 0 <= i <= |migrationIds|
        invariant DeleteFiles(env, old(files), migrationIds) == DeleteFiles(env, files, migrationIds[i..])
      {
        var migrationId := migrationIds[i];
        assert migrationIds[i..][1..] == migrationIds[i + 1..];
        if migrationId in files {
          if env.deleteFails(migrationId) {
            return new StepResultBase.WithOutcome("A migration file could not be deleted.", false);
          }
          files := files - {migrationId};
        } else {
          assert files - {migrationId} == files;
        }
        i := i + 1;
      }
      result := new StepResultBase.FromSuccess(true);
    }

    /**
     * The reversed loop of `RollbackMigrations`: the `down` scripts of the
     * ids from the last to the first; fails without data at the first id
     * (from the end) whose file cannot be loaded.
     */
    method BuildRollbackSqlScript(rollbackMigrationIds: seq<string>) returns (result: StepResult<string>)
      ensures result.Success == AllLoadable(files, rollbackMigrationIds)
      ensures result.Data == if result.Success then Some(DownScript(files, rollbackMigrationIds)) else None
    {
      result := new StepResult<string>.FromSuccess(true);
      var updateSqlScript := "";
      var i := |rollbackMigrationIds|;
      while i > 0
        invariant 0 <= i <= |rollbackMigrationIds|
        invariant result.Success && result.Data == None
        invariant AllLoadable(files, rollbackMigrationIds[i..]) && updateSqlScript == DownScript(files, rollbackMigrationIds[i..])
      {
        var migrationResult := GetDeclaredMigration(files, rollbackMigrationIds[i - 1]);
        if migrationResult.Some? {
          DownScriptPrepend(files, rollbackMigrationIds, i - 1);
          var downOperationsScript := SqlCommandsToScript(migrationResult.value.downSqlCommands);
          updateSqlScript := updateSqlScript + downOperationsScript + NL;
        } else {
          assert !AllLoadable(files, rollbackMigrationIds);
          result := new StepResult<string>.WithOutcome("A migration file could not be loaded.", false);
          break;
        }
        i := i - 1;
      }
      if result.Success {
        assert rollbackMigrationIds[i..] == rollbackMigrationIds;
        result.Data := Some(updateSqlScript);
      }
    }

    /**
     * The `try` block of `RollbackMigrations`, entered once the rollback is
     * validated: builds the `down` script from the last rolled-back id to
     * the first, runs it, deletes the history rows, saves a snapshot for the
     * target and deletes the migration files. A statement that throws ends
     * it with a failed result.
     */
    method RollbackValidated(targetMigrationId: string) returns (result: StepResultBase)
      modifies this`files, this`history, this`snapshots, this`executed
      ensures var r := RollbackSteps(env, old(files), old(DbView()),
                                     RollbackIds(AppliedIds(env, old(DbView())), targetMigrationId), targetMigrationId);
        DbView() == r.db && files == r.store && result.Success == r.ok
    {
      ghost var before, store := DbView(), files;
      var appliedMigrationIds := AppliedIds(env, DbView());
      var targetMigrationIndex := IndexOf(appliedMigrationIds, targetMigrationId);
      var rollbackMigrationIds := Skip(appliedMigrationIds, targetMigrationIndex + 1);
      ghost var spec := RollbackSteps(env, store, before, rollbackMigrationIds, targetMigrationId);
      assert spec == RollbackSteps(env, old(files), old(DbView()),
                                   RollbackIds(AppliedIds(env, old(DbView())), targetMigrationId), targetMigrationId);
      var sqlScriptResult := BuildRollbackSqlScript(rollbackMigrationIds);
      assert files == store && DbView() == before;
      if !sqlScriptResult.Success {
        assert spec == Rollback(before, store, false);
        return new StepResultBase.WithOutcome("A migration file could not be loaded.", false);
      }
      ghost var executedDown := Exec(env, before, DownScript(store, rollbackMigrationIds));
      var ok := ExecuteSql(sqlScriptResult.Data.value);
      assert Step(DbView(), ok) == executedDown && files == store;
      if !ok {
        assert spec == Rollback(DbView(), store, false);
        return new StepResultBase.WithOutcome("Rolling back failed.", false);
      }
      ghost var deletedRows := DeleteRows(env, executedDown.db, rollbackMigrationIds);
      ok := DeleteEFHistoryRecords(rollbackMigrationIds);
      assert Step(DbView(), ok) == deletedRows && files == store;
      if !ok {
        assert spec == Rollback(DbView(), store, false);
        return new StepResultBase.WithOutcome("Rolling back failed.", false);
      }
      SaveModelSnapshot(targetMigrationId);
      assert DbView() == spec.db && files == store;
      var deletingResult := DeleteDeclaredMigrations(rollbackMigrationIds);
      assert DbView() == spec.db && files == spec.store && deletingResult.Success == spec.ok;
      if deletingResult.Success {
        result := new StepResultBase.WithOutcome("Database rolled back.", true);
      } else {
        result := new StepResultBase.WithOutcome("A migration file could not be deleted.", false);
      }
    }

    /** `RollbackMigrations`: validates, then rolls back. */
    method RollbackMigrations(targetMigrationId: string) returns (result: StepResultBase)
      modifies this`files, this`history, this`snapshots, this`executed
      ensures var r := RollbackOutcome(env, old(files), old(DbView()), targetMigrationId);
        DbView() == r.db && files == r.store && result.Success == r.ok
    {
      var validateRollbackResult := ValidateRollback(targetMigrationId);
      if validateRollbackResult.Success {
        result := RollbackValidated(targetMigrationId);
      } else {
        result := validateRollbackResult;
      }
    }

    /**
     * `AddMigration`, given the id generator, the schema differ and the SQL
     * generator. The data of the result is the new id when a file is written.
     */
    method AddMigration(
      generateId: string -> string,
      differ: (SchemaModel, SchemaModel) -> seq<MigrationOperation>,
      sqlGenerator: seq<MigrationOperation> -> seq<string>)
      returns (result: StepResult<string>)
      modifies this`files
      ensures var c := AddMigrationOutcome(env, old(files), DbView(), generateId, differ, sqlGenerator);
        files == StoreAfter(old(files), c) && result.Success == c.Created?
        && result.Data == (if c.Created? then Some(c.id) else None)
    {
      ghost var spec := AddMigrationOutcome(env, files, DbView(), generateId, differ, sqlGenerator);
      var notAppliedMigrations := GetNotAppliedMigrationIds();
      if |notAppliedMigrations| == 0 {
        var declaredMigrationIds := DeclaredIds(files);
        var modelSnapshot := CurrentSnapshot(DbView());
        var migrationId := generateId(MigrationName(declaredMigrationIds, modelSnapshot));
        var migration := GenerateMigration(modelSnapshot, differ, sqlGenerator);
        assert spec == if migration.Some? && Complete(migration.value) then Created(migrationId, migration.value) else NotCreated;
        if migration.Some? && Complete(migration.value) {
          files := files[migrationId := Readable(migration.value)];
          assert files == StoreAfter(old(files), spec);
          result := new StepResult<string>.WithMessageAndData("Migration created.", true, Some(migrationId));
        } else {
          assert spec == NotCreated;
          result := new StepResult<string>.WithMessageAndData("The model matches the database; no migration created.", false, None);
        }
      } else {
        assert spec == NotCreated;
        result := new StepResult<string>.WithMessageAndData("There are pending migrations; no migration created.", false, None);
      }
      assert DbView() == old(DbView());
    }
  }
}
