/**
 * The data the migration orchestrator works on and, for each of its
 * operations, a function that gives the operation's outcome from the state
 * it starts in. The class in module Service runs the same operations step by
 * step and is proved to agree with these functions; module
 * MigrationProperties proves what the operations promise.
 */
module Migrations {
  import opened Options
  import opened Text
  import opened Linq
  import opened MigrationUtils

  /** `CustomMigration`: the forward (`up`) and backward (`down`) SQL commands of one migration. */
  datatype CustomMigration = CustomMigration(upSqlCommands: seq<string>, downSqlCommands: seq<string>)

  /** The file `<id>.json`: it deserialises to a migration, or reading it throws. */
  datatype Artifact = Readable(migration: CustomMigration) | Unreadable

  /** The migration directory, keyed by migration id (the file name without `.json`). */
  type ArtifactStore = map<string, Artifact>

  /** The schema models the differ compares: one compiled from a snapshot (None: no model), or the context's. */
  datatype SchemaModel = SnapshotModel(code: Option<string>) | ContextModel

  /** The operation kinds the differ returns that matter here. */
  datatype MigrationOperation =
    | UpdateDataOperation
    | AddForeignKeyOperation
    | DropForeignKeyOperation
    | StructuralOperation(description: string)

  /**
   * What the database and the file system do that the orchestrator cannot
   * see: whether reading `__EFMigrationsHistory` throws, which statements the
   * database refuses, the version written into history rows, the snapshot
   * source generated for a migration id, and which migration files cannot be
   * deleted.
   */
  datatype Env = Env(
    historyUnreadable: bool,
    rejects: string -> bool,
    productVersion: string,
    generateSnapshot: string -> string,
    deleteFails: string -> bool)

  /**
   * The database side: the `__EFMigrationsHistory` rows in read order (None:
   * the table does not exist), the `modelsnapshot` rows, whether any table
   * exists in the public schema, and the statements committed by `ExecuteSql`.
   */
  datatype Db = Db(history: Option<seq<string>>, snapshots: seq<string>, hasTables: bool, executed: seq<string>)

  /** The database after a step, and whether the step returned normally (false: it threw). */
  datatype Step = Step(db: Db, ok: bool)

  // ---------------------------------------------------------------- reading

  /** `GetDeclaredMigration`: the migration in `<id>.json`, if the file exists and can be read. */
  function GetDeclaredMigration(store: ArtifactStore, id: string): Option<CustomMigration>
  {
    if id in store && store[id].Readable? then Some(store[id].migration) else None
  }

  /** `GetDeclaredMigrationIds`: the ids of the migration files, sorted, each once. */
  function DeclaredIds(store: ArtifactStore): (ids: seq<string>)
    ensures Ascending(ids) && NoDuplicates(ids)
    ensures forall id :: id in ids <==> id in store
  {
    OrderedKeys(store.Keys)
  }

  /** `GetAppliedMigrationIds`: the history rows; empty when the table is missing or reading throws. */
  function AppliedIds(env: Env, db: Db): seq<string>
  {
    if env.historyUnreadable || db.history.None? then [] else db.history.value
  }

  /** The ledger rows, empty while the table does not exist. */
  function Rows(db: Db): seq<string>
  {
    if db.history.None? then [] else db.history.value
  }

  /** `GetCurrentModelSnapshotCode`: the FIRST row of `modelsnapshot`, or null. */
  function CurrentSnapshot(db: Db): Option<string>
  {
    if |db.snapshots| == 0 then None else Some(db.snapshots[0])
  }

  /**
   * `GetNotAppliedMigrationIds`: declared ids minus applied ids, sorted, each
   * once; empty when nothing is declared.
   */
  function NotAppliedIds(declared: seq<string>, applied: seq<string>): (pending: seq<string>)
    ensures Ascending(pending) && NoDuplicates(pending)
    ensures forall id :: id in pending <==> id in declared && id !in applied
    ensures |declared| == 0 ==> pending == []
  {
    if |declared| == 0 then []
    else
      var except := Except(declared, applied);
      OrderByKeepsElements(except);
      OrderBy(except)
  }

  /** `GetMigrationsToApply`: the explicit ids if there are any, else the pending ones. */
  function MigrationsToApply(migrationIds: seq<string>, notApplied: seq<string>): seq<string>
  {
    if |migrationIds| > 0 then migrationIds else notApplied
  }

  /** The ids an apply or save works on: `GetMigrationsToApply` on the current state. */
  function WorkingSet(env: Env, store: ArtifactStore, db: Db, migrationIds: seq<string>): seq<string>
  {
    MigrationsToApply(migrationIds, NotAppliedIds(DeclaredIds(store), AppliedIds(env, db)))
  }

  // ---------------------------------------------------------------- creating

  /** Operations kept in a migration: not data changes and not foreign-key-only changes. */
  predicate Tracked(op: MigrationOperation)
  {
    !(op.UpdateDataOperation? || op.AddForeignKeyOperation? || op.DropForeignKeyOperation?)
  }

  /** The `Where` filter `GenerateMigration` applies to both difference lists. */
  function FilterOperations(ops: seq<MigrationOperation>): (kept: seq<MigrationOperation>)
    ensures forall op :: op in kept <==> op in ops && Tracked(op)
    ensures |kept| <= |ops|
  {
    if |ops| == 0 then []
    else (if Tracked(ops[0]) then [ops[0]] else []) + FilterOperations(ops[1..])
  }

  /**
   * `GenerateMigration`: diffs the model compiled from the snapshot (none when
   * the snapshot is blank) against the context's model in both directions,
   * filters both lists, and generates SQL only when both lists are non-empty.
   */
  function GenerateMigration(
    snapshot: Option<string>,
    differ: (SchemaModel, SchemaModel) -> seq<MigrationOperation>,
    sqlGenerator: seq<MigrationOperation> -> seq<string>): Option<CustomMigration>
  {
    var current := SnapshotModel(if IsNullOrWhiteSpace(snapshot) then None else snapshot);
    var up := FilterOperations(differ(current, ContextModel));
    var down := FilterOperations(differ(ContextModel, current));
    if |up| > 0 && |down| > 0 then Some(CustomMigration(sqlGenerator(up), sqlGenerator(down))) else None
  }

  /** The name handed to the id generator: `Init` for the first migration, else `Migration`. */
  function MigrationName(declared: seq<string>, snapshot: Option<string>): string
  {
    if |declared| == 0 && IsNullOrEmpty(snapshot) then "Init" else "Migration"
  }

  /** A migration both of whose command lists are non-empty: the only kind ever written. */
  predicate Complete(m: CustomMigration)
  {
    |m.upSqlCommands| > 0 && |m.downSqlCommands| > 0
  }

  /** What `AddMigration` writes: a migration under a new id, or nothing. */
  datatype Creation = Created(id: string, migration: CustomMigration) | NotCreated

  /** `AddMigration`, given the id generator, the schema differ and the SQL generator. */
  function AddMigrationOutcome(
    env: Env, store: ArtifactStore, db: Db,
    generateId: string -> string,
    differ: (SchemaModel, SchemaModel) -> seq<MigrationOperation>,
    sqlGenerator: seq<MigrationOperation> -> seq<string>): Creation
  {
    var pending := NotAppliedIds(DeclaredIds(store), AppliedIds(env, db));
    if |pending| > 0 then NotCreated
    else
      var snapshot := CurrentSnapshot(db);
      var id := generateId(MigrationName(DeclaredIds(store), snapshot));
      match GenerateMigration(snapshot, differ, sqlGenerator)
      case None => NotCreated
      case Some(m) => if Complete(m) then Created(id, m) else NotCreated
  }

  /** The store after `AddMigration`: the new file, if one is written, overwrites any file of that id. */
  function StoreAfter(store: ArtifactStore, creation: Creation): ArtifactStore
  {
    match creation
    case NotCreated => store
    case Created(id, m) => store[id := Readable(m)]
  }

  // ---------------------------------------------------------------- the database

  /** The history table's quoted name. */
  const HistoryTable: string := "\"__EFMigrationsHistory\""

  /** The statement creating the history table (its real text comes from EF Core's history repository). */
  const CreateHistoryScript: string :=
    "CREATE TABLE " + HistoryTable + " (\"MigrationId\" character varying(150) NOT NULL, "
    + "\"ProductVersion\" character varying(32) NOT NULL, CONSTRAINT \"PK___EFMigrationsHistory\" PRIMARY KEY (\"MigrationId\"));\n"

  /** The statement inserting one history row. */
  function InsertHistoryScript(id: string, version: string): string
  {
    "INSERT INTO " + HistoryTable + " (\"MigrationId\", \"ProductVersion\") VALUES ('" + id + "', '" + version + "');\n"
  }

  /** The statement deleting one history row. */
  function DeleteHistoryScript(id: string): string
  {
    "DELETE FROM " + HistoryTable + " WHERE \"MigrationId\" = '" + id + "';\n"
  }

  /** The insert statements for `ids`, in order. */
  function InsertHistoryScripts(ids: seq<string>, version: string): seq<string>
  {
    if |ids| == 0 then [] else [InsertHistoryScript(ids[0], version)] + InsertHistoryScripts(ids[1..], version)
  }

  /** The delete statements for `ids`, in order. */
  function DeleteHistoryScripts(ids: seq<string>): seq<string>
  {
    if |ids| == 0 then [] else [DeleteHistoryScript(ids[0])] + DeleteHistoryScripts(ids[1..])
  }

  /** `[q]` when `q` is not blank, else nothing: what `ExecuteSql(q)` commits when it succeeds. */
  function Committed(q: string): seq<string>
  {
    if IsBlank(q) then [] else [q]
  }

  /**
   * `ExecuteSql`: a blank script is skipped; otherwise it runs in its own
   * transaction that either commits or is rolled back and rethrows.
   */
  function Exec(env: Env, db: Db, q: string): Step
  {
    if IsBlank(q) then Step(db, true)
    else if env.rejects(q) then Step(db, false)
    else Step(db.(executed := db.executed + [q]), true)
  }

  /** `EnsureCreateEFHistoryTable`: creates the history table when it does not exist. */
  function EnsureHistoryTable(env: Env, db: Db): Step
  {
    if db.history.Some? then Step(db, true)
    else
      var s := Exec(env, db, CreateHistoryScript);
      if s.ok then Step(s.db.(history := Some([]), hasTables := true), true) else s
  }

  /**
   * `AddEFHistoryRecord`: inserts one row. It fails when the table is missing,
   * when the id is already a row (`MigrationId` is the primary key) or when the
   * database refuses the statement.
   */
  function InsertRow(env: Env, db: Db, id: string): Step
  {
    match db.history
    case None => Step(db, false)
    case Some(rows) =>
      if id in rows then Step(db, false)
      else
        var s := Exec(env, db, InsertHistoryScript(id, env.productVersion));
        if s.ok then Step(s.db.(history := Some(rows + [id])), true) else s
  }

  /** The `foreach` over `AddEFHistoryRecord`: stops at the first insert that throws. */
  function InsertRows(env: Env, db: Db, ids: seq<string>): Step
    decreases |ids|
  {
    if |ids| == 0 then Step(db, true)
    else
      var s := InsertRow(env, db, ids[0]);
      if s.ok then InsertRows(env, s.db, ids[1..]) else s
  }

  /** `DeleteEFHistoryRecord`: deletes the rows of one id. */
  function DeleteRow(env: Env, db: Db, id: string): Step
  {
    match db.history
    case None => Step(db, false)
    case Some(rows) =>
      var s := Exec(env, db, DeleteHistoryScript(id));
      if s.ok then Step(s.db.(history := Some(Without(rows, {id}))), true) else s
  }

  /** The `foreach` over `DeleteEFHistoryRecord`: stops at the first delete that throws. */
  function DeleteRows(env: Env, db: Db, ids: seq<string>): Step
    decreases |ids|
  {
    if |ids| == 0 then Step(db, true)
    else
      var s := DeleteRow(env, db, ids[0]);
      if s.ok then DeleteRows(env, s.db, ids[1..]) else s
  }

  /** `SaveModelSnapshot`: APPENDS a row holding the snapshot generated for `id`. */
  function SaveSnapshot(env: Env, db: Db, id: string): Db
  {
    db.(snapshots := db.snapshots + [env.generateSnapshot(id)])
  }

  /**
   * The registration both `SaveMigrations` and the tail of `UpdateDatabase`
   * perform: a snapshot for the last id, the history table, one row per id.
   */
  function Register(env: Env, db: Db, ids: seq<string>): Step
    requires |ids| > 0
  {
    var s := EnsureHistoryTable(env, SaveSnapshot(env, db, Last(ids)));
    if s.ok then InsertRows(env, s.db, ids) else s
  }

  /** `SaveMigrations`: registers the working set as applied without running its scripts. */
  function SaveMigrationsStep(env: Env, store: ArtifactStore, db: Db, migrationIds: seq<string>): Step
  {
    var work := WorkingSet(env, store, db, migrationIds);
    if |work| == 0 then Step(db, true) else Register(env, db, work)
  }

  // ---------------------------------------------------------------- applying

  /** Every id has a readable migration file. */
  predicate AllLoadable(store: ArtifactStore, ids: seq<string>)
  {
    forall i :: 0 <= i < |ids| ==> GetDeclaredMigration(store, ids[i]).Some?
  }

  /** The part of the update script one migration gives: its `up` script and a line break, if it has commands. */
  function UpChunk(m: CustomMigration): string
  {
    if |m.upSqlCommands| > 0 then Script(m.upSqlCommands) + NL else ""
  }

  /** The part of the rollback script one migration gives: its `down` script and a line break. */
  function DownChunk(m: CustomMigration): string
  {
    Script(m.downSqlCommands) + NL
  }

  /** The script `BuildUpdateSqlScript` builds: the `up` chunks of `ids` in order. */
  function UpScript(store: ArtifactStore, ids: seq<string>): string
    requires AllLoadable(store, ids)
  {
    if |ids| == 0 then ""
    else
      assert AllLoadable(store, ids[1..]) by {
        forall i | 0 <= i < |ids| - 1 ensures GetDeclaredMigration(store, ids[1..][i]).Some? {
          assert ids[1..][i] == ids[i + 1];
        }
      }
      UpChunk(GetDeclaredMigration(store, ids[0]).value) + UpScript(store, ids[1..])
  }

  /** The script `RollbackMigrations` builds: the `down` chunks of `ids`, the last id's first. */
  function DownScript(store: ArtifactStore, ids: seq<string>): string
    requires AllLoadable(store, ids)
  {
    if |ids| == 0 then ""
    else
      assert AllLoadable(store, ids[1..]) by {
        forall i | 0 <= i < |ids| - 1 ensures GetDeclaredMigration(store, ids[1..][i]).Some? {
          assert ids[1..][i] == ids[i + 1];
        }
      }
      DownScript(store, ids[1..]) + DownChunk(GetDeclaredMigration(store, ids[0]).value)
  }

  /**
   * `UpdateDatabase`: builds the script (refusing on a missing file), runs it,
   * then registers the ids. `ok` is false when the build refused or a step threw.
   */
  function UpdateDatabaseStep(env: Env, store: ArtifactStore, db: Db, ids: seq<string>): Step
    requires |ids| > 0
  {
    if !AllLoadable(store, ids) then Step(db, false)
    else
      var s := Exec(env, db, UpScript(store, ids));
      if s.ok then Register(env, s.db, ids) else s
  }

  /** Either there is no snapshot or no applied migration: the next apply is the first one. */
  predicate Bootstrap(env: Env, db: Db)
  {
    IsNullOrWhiteSpace(CurrentSnapshot(db)) || |AppliedIds(env, db)| == 0
  }

  /** `ApplyMigrations`: the database afterwards and the result's `Success`. */
  function ApplyStep(env: Env, store: ArtifactStore, db: Db, migrationIds: seq<string>): Step
  {
    var work := WorkingSet(env, store, db, migrationIds);
    if |work| == 0 then Step(db, false)
    else if Bootstrap(env, db) && |work| > 1 then Step(db, false)
    else if Bootstrap(env, db) && db.hasTables then Register(env, db, [work[0]])
    else UpdateDatabaseStep(env, store, db, work)
  }

  // ---------------------------------------------------------------- rolling back

  /** Why `ValidateRollback` refuses, or that it accepts. */
  datatype RollbackVerdict =
    | TargetMissing
    | NothingApplied
    | TargetNotApplied
    | TargetIsLast
    | NothingToRollBack
    | SnapshotMissing
    | RollbackAllowed

  /** `ValidateRollback`: its chain of guards, in the source's order. */
  function ValidateRollbackVerdict(target: string, applied: seq<string>, snapshot: Option<string>): RollbackVerdict
  {
    if IsBlank(target) then TargetMissing
    else
      var id := GetFileNameWithoutExtension(target);
      if |applied| == 0 then NothingApplied
      else if id !in applied then TargetNotApplied
      else if EqualsIgnoreCase(Last(applied), id) then TargetIsLast
      else if |Skip(applied, IndexOf(applied, id) + 1)| == 0 then NothingToRollBack
      else if IsNullOrWhiteSpace(snapshot) then SnapshotMissing
      else RollbackAllowed
  }

  /** The ids `RollbackMigrations` undoes: those after `IndexOf(target)`, all of them when it is -1. */
  function RollbackIds(applied: seq<string>, target: string): seq<string>
  {
    Skip(applied, IndexOf(applied, target) + 1)
  }

  /** The store after `DeleteDeclaredMigrations`, and whether it returned success. */
  datatype Deletion = Deletion(store: ArtifactStore, ok: bool)

  /** `DeleteDeclaredMigrations`: deletes each existing file; stops at the first deletion that throws. */
  function DeleteFiles(env: Env, store: ArtifactStore, ids: seq<string>): Deletion
    decreases |ids|
  {
    if |ids| == 0 then Deletion(store, true)
    else if ids[0] in store && env.deleteFails(ids[0]) then Deletion(store, false)
    else DeleteFiles(env, store - {ids[0]}, ids[1..])
  }

  /** Database, store and `Success` after `RollbackMigrations`. */
  datatype Rollback = Rollback(db: Db, store: ArtifactStore, ok: bool)

  /** `RollbackMigrations(target)`. */
  function RollbackOutcome(env: Env, store: ArtifactStore, db: Db, target: string): Rollback
  {
    var applied := AppliedIds(env, db);
    if ValidateRollbackVerdict(target, applied, CurrentSnapshot(db)) != RollbackAllowed then Rollback(db, store, false)
    else RollbackSteps(env, store, db, RollbackIds(applied, target), target)
  }

  /**
   * What `RollbackMigrations` does once the rollback is validated: build and
   * run the `down` script of `ids`, delete their history rows, save a snapshot
   * for the target and delete their files.
   */
  function RollbackSteps(env: Env, store: ArtifactStore, db: Db, ids: seq<string>, target: string): Rollback
  {
    if !AllLoadable(store, ids) then Rollback(db, store, false)
    else
      var s1 := Exec(env, db, DownScript(store, ids));
      if !s1.ok then Rollback(s1.db, store, false)
      else
        var s2 := DeleteRows(env, s1.db, ids);
        if !s2.ok then Rollback(s2.db, store, false)
        else
          var d := DeleteFiles(env, store, ids);
          Rollback(SaveSnapshot(env, s2.db, target), d.store, d.ok)
  }

}
