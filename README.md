# RuntimeMigrator orchestrator, modelled in Dafny

RuntimeMigrator manages Entity Framework Core schema migrations at run time
against a PostgreSQL database. Migrations are JSON files `<id>.json` holding
the forward (`up`) and backward (`down`) SQL commands of one schema change.
Applied migrations are the rows of the `__EFMigrationsHistory` table. Model
snapshots are the rows of the `modelsnapshot` table.

This project models the orchestrator `MigrationService`:

- creating a migration (`AddMigration`);
- applying pending or named migrations (`ApplyMigrations`, `UpdateDatabase`,
  `BuildUpdateSqlScript`);
- registering migrations as applied without running them (`SaveMigrations`);
- validating and performing a rollback to a target migration
  (`ValidateRollback`, `RollbackMigrations`, `DeleteDeclaredMigrations`);
- the helpers these use: `GetNotAppliedMigrationIds`, `GetMigrationsToApply`,
  `ExecuteSql`, `EnsureCreateEFHistoryTable`, `AddEFHistoryRecord`,
  `DeleteEFHistoryRecord`, `SaveModelSnapshot`, `GetDeclaredMigration` and
  `GetCurrentModelSnapshotCode`.

It also models the script builder `MigrationUtils.SqlCommandsToScript` and
the result records `StepResultBase` and `StepResult<T>`.

## Modules

- `Options`: `Option<T>`, the stand-in for `null`.
- `Text`: the .NET string operations the orchestrator relies on:
  - `IsNullOrWhiteSpace` and `IsNullOrEmpty`;
  - the ordinal ignore-case comparison;
  - `Path.GetFileNameWithoutExtension`;
  - an ordinal order on strings.
- `Linq`: the list operations it uses: `Except`, `OrderBy`, `IndexOf`, `Skip`
  and `Last`.
- `Models`: `StepResultBase` and `StepResult<T>` as classes with mutable
  fields and one constructor per C# constructor.
- `MigrationUtils`: `Script`, the meaning of `SqlCommandsToScript`, and the
  method itself, with its loop.
- `Migrations`: the data model and one function per operation.
  - The data model:
    - the migration store: id to readable or unreadable file;
    - the database: history rows or a missing table, snapshot rows, whether
      any table exists, and the statements committed so far;
    - the environment: which statements the database refuses, whether the
      history cannot be read, the product version, the snapshot generator,
      and which file deletions fail.
  - Each function gives the outcome of an operation from its starting state.
  - An exception that escapes is a step whose `ok` is false, carrying the
    state reached before the throw.
- `MigrationProperties`: what the operations promise, proved about those
  functions.
- `Service`: the class `MigrationService`. Its fields are the migration files
  and the database state. Its methods run the source's steps in the source's
  order, loops included. Each method is proved to end in exactly the state
  the matching `Migrations` function gives.

## Behaviour kept as the code has it

- **Current snapshot.** `GetCurrentModelSnapshotCode` reads the first row of
  `modelsnapshot`, while every save appends a row. So the current snapshot
  never changes once one exists (`ApplyOnlyAppendsSnapshots`,
  `RollbackOnlyAppendsSnapshots`).
- **Rollback target lookup.** `ValidateRollback` strips the target's
  extension and checks membership ordinally. It compares with the last
  applied id ignoring case. `RollbackMigrations` then looks up the
  unstripped target.
  - A target `x.json` is validated as `x`, but selects every applied
    migration for rollback (`UnstrippedTargetRollsBackAll`).
  - The "nothing to roll back" check can never fire
    (`ValidateRollbackIff`).
- **Rollback and apply are not atomic.** Each statement commits in its own
  transaction, so a failure part-way through keeps everything done before it.
  A rollback whose file deletion fails reports failure, yet its `down`
  script, history deletes and snapshot stay committed
  (`RollbackDeletionFailureKeepsDatabase`). A failed history delete leaves
  every file and no new snapshot (`RollbackHistoryFailureKeepsFiles`). An
  apply whose history table or inserts fail after the `up` script ran reports
  failure with the snapshot already appended
  (`UpdateRegisterFailureKeepsSnapshot`).
- **`AddMigration` overwrites.** When its directory already holds a file of
  the generated id, the new migration replaces that file.

## Model

| member | source | states |
|---|---|---|
| Models.StepResultBase.constructor | RuntimeMigrator/Models/StepResult.cs:10-13 | status code 500, not successful, no message, no exception |
| Models.StepResultBase.WithMessage | RuntimeMigrator/Models/StepResult.cs:15-19 | status code 500, not successful, the given message |
| Models.StepResultBase.WithStatusCode | RuntimeMigrator/Models/StepResult.cs:21-25 | the given status code and message, not successful |
| Models.StepResultBase.WithOutcome | RuntimeMigrator/Models/StepResult.cs:27-31 | status code 0, the given success flag and message |
| Models.StepResultBase.WithException | RuntimeMigrator/Models/StepResult.cs:33-38 | status code 0, the given success flag, message and exception |
| Models.StepResultBase.FromSuccess | RuntimeMigrator/Models/StepResult.cs:40-43 | status code 0, the given success flag, no message |
| Models.StepResult.constructor | RuntimeMigrator/Models/StepResult.cs:71-74 | the base defaults (500, not successful), no data |
| Models.StepResult.FromSuccess | RuntimeMigrator/Models/StepResult.cs:76-79 | status code 0, the given success flag, no data |
| Models.StepResult.WithMessage | RuntimeMigrator/Models/StepResult.cs:81-84 | status code 500, not successful, the message, no data |
| Models.StepResult.WithStatusCode | RuntimeMigrator/Models/StepResult.cs:86-89 | the given status code and message, not successful, no data |
| Models.StepResult.WithOutcome | RuntimeMigrator/Models/StepResult.cs:91-94 | status code 0, the given success flag and message, no data |
| Models.StepResult.WithData | RuntimeMigrator/Models/StepResult.cs:96-100 | status code 0, the given success flag and data, no message |
| Models.StepResult.WithMessageAndData | RuntimeMigrator/Models/StepResult.cs:102-106 | status code 0, the given message, success flag and data |
| MigrationUtils.SqlCommandsToScript | RuntimeMigrator/MigrationUtils.cs:135-145 | the script is `Script(sqlCommands)`: each command followed by a line terminator, in input order |
| MigrationUtils.ScriptConcat | RuntimeMigrator/MigrationUtils.cs:139-144 | the script of two concatenated command lists is the concatenation of their scripts, so commands keep their order |
| MigrationUtils.ScriptOfFewCommands | RuntimeMigrator/MigrationUtils.cs:137-144 | no commands give the empty script; one command gives that command and one line terminator |
| MigrationUtils.ScriptLength | RuntimeMigrator/MigrationUtils.cs:139-144 | the script's length is the commands' total length plus one terminator per command, so nothing is dropped or added |
| Linq.Except | RuntimeMigrator/MigrationService.cs:384-385 | the result has no duplicates and holds exactly the elements of the first list that are not in the second |
| Linq.OrderBy | RuntimeMigrator/MigrationService.cs:386 | the result is ascending in the ordinal order and a permutation of the input |
| Linq.OrderByKeepsElements | RuntimeMigrator/MigrationService.cs:386 | sorting keeps the length and the elements, and so keeps a duplicate-free list duplicate-free |
| Linq.IndexOf | RuntimeMigrator/MigrationService.cs:260 | -1 exactly when the element is absent, otherwise the position of its first occurrence |
| Linq.OrderedKeys | RuntimeMigrator/MigrationService.cs:403-406 | the keys of a set, ascending, each once, and no others |
| Migrations.DeclaredIds | RuntimeMigrator/MigrationService.cs:396-410 | the declared ids are the ids of the migration files, each listed once, in ascending order |
| Migrations.NotAppliedIds | RuntimeMigrator/MigrationService.cs:373-391 | pending ids are ascending, distinct, exactly the declared ids not applied, and empty when nothing is declared |
| Migrations.FilterOperations | RuntimeMigrator/MigrationService.cs:896 | the kept operations are exactly the input's data-change-free and foreign-key-free operations |
| Service.MigrationService.GetNotAppliedMigrationIds | RuntimeMigrator/MigrationService.cs:373-391 | the pending ids are ascending, distinct, and exactly the migration files whose id is not among the applied ids |
| Service.MigrationService.GetMigrationsToApply | RuntimeMigrator/MigrationService.cs:928-942 | always succeeds, with the explicit ids when there are any and the pending ids otherwise |
| Service.MigrationService.ExecuteSql | RuntimeMigrator/MigrationService.cs:818-842 | a blank script is skipped; otherwise the statement is committed, or the call throws and nothing is committed |
| Service.MigrationService.EnsureCreateEFHistoryTable | RuntimeMigrator/MigrationService.cs:629-637 | runs the create statement only when the history table is missing, and the table exists afterwards unless that statement failed |
| Service.MigrationService.AddEFHistoryRecord | RuntimeMigrator/MigrationService.cs:643-655 | inserts one history row; fails on a missing table, an id that is already a row, or a refused statement |
| Service.MigrationService.AddEFHistoryRecords | RuntimeMigrator/MigrationService.cs:134-136 | inserts the ids one by one, in order, and stops at the first insert that throws |
| Service.MigrationService.DeleteEFHistoryRecord | RuntimeMigrator/MigrationService.cs:661-668 | deletes one history row by running its delete statement |
| Service.MigrationService.DeleteEFHistoryRecords | RuntimeMigrator/MigrationService.cs:296-297 | deletes the rows of the ids one by one, in order, and stops at the first delete that throws |
| Service.MigrationService.SaveModelSnapshot | RuntimeMigrator/MigrationService.cs:704-737 | appends the snapshot generated for the id; earlier snapshots stay |
| Service.MigrationService.SaveMigrations | RuntimeMigrator/MigrationService.cs:117-158 | the new database is the one `SaveMigrationsStep` gives; the call throws exactly when a step fails; success means the working set was not empty |
| Service.MigrationService.BuildUpdateSqlScript | RuntimeMigrator/MigrationService.cs:775-812 | succeeds exactly when every id's file can be loaded, and then its data is the `up` script of the ids in order; otherwise there is no data |
| Service.MigrationService.UpdateDatabase | RuntimeMigrator/MigrationService.cs:739-773 | the new database is the one `UpdateDatabaseStep` gives; the call throws exactly when the script was built and a later step failed |
| Service.MigrationService.ApplyMigrations | RuntimeMigrator/MigrationService.cs:164-238 | the new database and the success flag are those `ApplyStep` gives; every exception becomes a failed result |
| Service.MigrationService.ValidateRollback | RuntimeMigrator/MigrationService.cs:470-515 | succeeds exactly when the guard chain (`ValidateRollbackVerdict`) allows the rollback; changes nothing |
| Service.MigrationService.DeleteDeclaredMigrations | RuntimeMigrator/MigrationService.cs:342-368 | the new store and the success flag are those `DeleteFiles` gives |
| Service.MigrationService.BuildRollbackSqlScript | RuntimeMigrator/MigrationService.cs:263-288 | succeeds exactly when every id's file can be loaded, and then its data is the `down` script from the last id to the first |
| Service.MigrationService.RollbackValidated | RuntimeMigrator/MigrationService.cs:254-326 | database, store and success flag are those `RollbackSteps` gives for the ids after the unstripped target |
| Service.MigrationService.RollbackMigrations | RuntimeMigrator/MigrationService.cs:245-335 | database, store and success flag are those `RollbackOutcome` gives |
| Service.MigrationService.AddMigration | RuntimeMigrator/MigrationService.cs:57-115 | store and result are those `AddMigrationOutcome` gives; the result's data is the new id exactly when a file is written |
| MigrationProperties.CreateHistoryScriptNotBlank | RuntimeMigrator/MigrationService.cs:633-635 | the create statement is not blank, so running it always reaches the database |
| MigrationProperties.InsertHistoryScriptNotBlank | RuntimeMigrator/MigrationService.cs:650-654 | an insert statement is not blank |
| MigrationProperties.DeleteHistoryScriptNotBlank | RuntimeMigrator/MigrationService.cs:663-667 | a delete statement is not blank |
| MigrationProperties.AllLoadableConcat | RuntimeMigrator/MigrationService.cs:780-803 | the files of two id lists are all loadable exactly when those of each list are |
| MigrationProperties.UpScriptConcat | RuntimeMigrator/MigrationService.cs:780-808 | the `up` script of concatenated id lists is the concatenation of their scripts, in id order |
| MigrationProperties.UpScriptAppend | RuntimeMigrator/MigrationService.cs:780-794 | one more loadable id appends exactly its chunk to the `up` script |
| MigrationProperties.UpScriptOfOne | RuntimeMigrator/MigrationService.cs:787-794 | one migration contributes nothing when it has no `up` commands, and otherwise its command script plus a line break; its `down` part is always its command script plus a line break |
| MigrationProperties.DownScriptConcat | RuntimeMigrator/MigrationService.cs:269-279 | the `down` script of concatenated id lists is the second list's script first, then the first's |
| MigrationProperties.DownScriptPrepend | RuntimeMigrator/MigrationService.cs:269-279 | one more loadable id in front appends exactly its chunk to the `down` script |
| MigrationProperties.Reversed | RuntimeMigrator/MigrationService.cs:269 | a reversed list has the same length, with each element at the mirrored position |
| MigrationProperties.DownScriptIsReversedOrder | RuntimeMigrator/MigrationService.cs:269-279 | the `down` script equals the chunks of the ids taken in reverse order |
| MigrationProperties.DownChunksConcat | RuntimeMigrator/MigrationService.cs:269-279 | chunks of concatenated lists concatenate |
| MigrationProperties.FilterConcat | RuntimeMigrator/MigrationService.cs:896 | the operation filter distributes over concatenation, so it keeps the relative order |
| MigrationProperties.FilterKeepsTracked | RuntimeMigrator/MigrationService.cs:896 | a list of only kept kinds passes the filter unchanged |
| MigrationProperties.FilterIdempotent | RuntimeMigrator/MigrationService.cs:896 | filtering twice is filtering once |
| MigrationProperties.GenerateMigrationWhen | RuntimeMigrator/MigrationService.cs:863-926 | for `Migrations.GenerateMigration`: a migration is generated exactly when both filtered difference lists are non-empty, and its commands are the SQL of those lists |
| MigrationProperties.MigrationNameIsInitIff | RuntimeMigrator/MigrationService.cs:70-75 | for `Migrations.MigrationName`: the name is `Init` exactly when no migration is declared and the snapshot is null or empty |
| MigrationProperties.NothingPendingWithoutFiles | RuntimeMigrator/MigrationService.cs:381-390 | with no migration files, no migration is pending |
| MigrationProperties.AddMigrationRefusedWhilePending | RuntimeMigrator/MigrationService.cs:64-67 | while some file is not applied, `AddMigration` writes nothing |
| MigrationProperties.AddMigrationCreatesIff | RuntimeMigrator/MigrationService.cs:64-106 | a file is written exactly when every file is applied and a migration with both command lists non-empty is generated; its id comes from the `Init`/`Migration` name |
| MigrationProperties.AddMigrationKeepsStoreComplete | RuntimeMigrator/MigrationService.cs:81-91 | if every readable file has both command lists non-empty, that stays so |
| MigrationProperties.NoDuplicatesAppend | RuntimeMigrator/MigrationService.cs:643-655 | appending an id that is not a row keeps the rows distinct |
| MigrationProperties.NoDuplicatesCons | RuntimeMigrator/MigrationService.cs:643-655 | putting an absent id in front keeps a list distinct |
| MigrationProperties.WithoutWithout | RuntimeMigrator/MigrationService.cs:296-297 | removing two sets one after the other is removing their union |
| MigrationProperties.WithoutConcat | RuntimeMigrator/MigrationService.cs:296-297 | removal distributes over concatenation |
| MigrationProperties.WithoutNothing | RuntimeMigrator/MigrationService.cs:296-297 | removing ids none of which occur changes nothing |
| MigrationProperties.WithoutEverything | RuntimeMigrator/MigrationService.cs:296-297 | removing a set that holds every element leaves nothing |
| MigrationProperties.WithoutSuffix | RuntimeMigrator/MigrationService.cs:260-261 | removing every id of a suffix of distinct rows leaves exactly the prefix before it |
| MigrationProperties.InsertRowEffect | RuntimeMigrator/MigrationService.cs:643-655 | an insert changes only the history and the committed statements; a failure changes nothing; a success appends the id, which was not a row, and commits its statement |
| MigrationProperties.InsertRowsEffect | RuntimeMigrator/MigrationService.cs:134-136 | the inserts keep snapshots and tables and keep rows distinct; a success appends the ids in order, which were distinct and not rows, and commits their statements |
| MigrationProperties.DeleteRowEffect | RuntimeMigrator/MigrationService.cs:661-668 | a delete changes only the history and the committed statements; a failure changes nothing; a success removes the id's row |
| MigrationProperties.DeleteRowsEffect | RuntimeMigrator/MigrationService.cs:296-297 | the deletes keep rows distinct; a success removes every id's row and commits their statements in order |
| MigrationProperties.EnsureHistoryTableEffect | RuntimeMigrator/MigrationService.cs:629-637 | it succeeds exactly when the table exists afterwards; rows and snapshots stay; the create statement is committed only when the table was missing |
| MigrationProperties.RegisterEffect | RuntimeMigrator/MigrationService.cs:129-136 | registering always appends the last id's snapshot; a success makes the table exist and appends the ids, which were distinct and not rows, after the create and insert statements |
| MigrationProperties.UpdateDatabaseRefusals | RuntimeMigrator/MigrationService.cs:743-748 | a missing or unreadable file, or a refused update script, changes nothing and fails |
| MigrationProperties.UpdateDatabaseSuccess | RuntimeMigrator/MigrationService.cs:739-773 | a success loaded every file, appended the ids to the history and the last id's snapshot, and committed the update script, then the create statement if needed, then the inserts |
| MigrationProperties.UpdateRegisterFailureKeepsSnapshot | RuntimeMigrator/MigrationService.cs:748-758 | when the update script committed and the table creation or an insert then fails, the update fails with the last id's snapshot already appended |
| MigrationProperties.ApplySuccess | RuntimeMigrator/MigrationService.cs:177-211 | a successful apply had a non-empty working set, only one id while the snapshot is blank or nothing is applied, and appended exactly those ids to the history and the last one's snapshot |
| MigrationProperties.ApplyRunsUpdateScript | RuntimeMigrator/MigrationService.cs:195-211 | unless an existing database is being adopted, a successful apply committed the working set's `up` script before its history inserts |
| MigrationProperties.AdoptionRunsNoMigrationScript | RuntimeMigrator/MigrationService.cs:195-207 | adopting an existing database, whether it succeeds or fails, commits at most the history-table creation and then the history insert, never a migration script; on success the id is the one new row |
| MigrationProperties.ApplyRefusals | RuntimeMigrator/MigrationService.cs:177-218 | an empty working set, several ids while the snapshot is blank or nothing is applied, or an unloadable file changes nothing and fails |
| MigrationProperties.ValidateRollbackIff | RuntimeMigrator/MigrationService.cs:470-515 | a rollback is allowed exactly when the target is not blank, its stem is applied and is not the last applied id ignoring case, and a snapshot exists; the empty-rollback verdict never occurs |
| MigrationProperties.PlainNameIsItsOwnStem | RuntimeMigrator/MigrationService.cs:477 | a one-letter name without separator or dot is its own stem and not blank |
| MigrationProperties.RefusedAsNotApplied | RuntimeMigrator/MigrationService.cs:487-490 | a stem that is not applied is refused as not applied |
| MigrationProperties.RefusedAsLast | RuntimeMigrator/MigrationService.cs:492-495 | a stem equal to the last applied id ignoring case is refused as the last |
| MigrationProperties.LowerAndUpper | RuntimeMigrator/MigrationService.cs:492 | a lower-case letter differs from its upper case but equals it ignoring case |
| MigrationProperties.ValidateRollbackLookupIsOrdinal | RuntimeMigrator/MigrationService.cs:487-490 | the applied check is case-sensitive: `a` is refused as not applied when only `A` is applied |
| MigrationProperties.ValidateRollbackLastIgnoresCase | RuntimeMigrator/MigrationService.cs:492-495 | the last check ignores case: `a` is refused as the last when `A` was applied after it |
| MigrationProperties.RollbackIdsSuffix | RuntimeMigrator/MigrationService.cs:260-261 | the ids rolled back are the suffix after the target's first position, all of them when it is absent |
| MigrationProperties.UnstrippedTargetRollsBackAll | RuntimeMigrator/MigrationService.cs:260-261 | the target `x.json` has stem `x`, yet when `x.json` itself is not applied every applied id is rolled back |
| MigrationProperties.ExecEffect | RuntimeMigrator/MigrationService.cs:818-842 | running a statement succeeds exactly when it is blank or accepted, and a success commits it unless it is blank |
| MigrationProperties.DeleteFilesEffect | RuntimeMigrator/MigrationService.cs:342-368 | deletion only removes files; files of other ids stay; a success removed every listed id; no failing existing file means success |
| MigrationProperties.DeleteFilesKeepsStoreComplete | RuntimeMigrator/MigrationService.cs:342-368 | deleting files keeps every readable file complete |
| MigrationProperties.RollbackStepsSuccess | RuntimeMigrator/MigrationService.cs:290-315 | a successful rollback loaded every file, committed the `down` script then the deletes, removed those rows, appended the target's snapshot and deleted those files |
| MigrationProperties.RollbackDeletionFailureKeepsDatabase | RuntimeMigrator/MigrationService.cs:290-315 | once the down script and history deletes committed, the rollback succeeds exactly when the file deletion does, and the rows, the target's snapshot and the committed statements are those of a success either way |
| MigrationProperties.RollbackHistoryFailureKeepsFiles | RuntimeMigrator/MigrationService.cs:293-297 | a history delete that fails after the down script ran fails the rollback with every file kept and no snapshot appended |
| MigrationProperties.RollbackSuccess | RuntimeMigrator/MigrationService.cs:245-335 | a successful rollback was validated and leaves the rows up to and including the target, the target last when it is an applied id, and none when the unstripped target is not applied; it commits the `down` script and the deletes, appends the target's snapshot and deletes the rolled-back files |
| MigrationProperties.RowsLeftByRollback | RuntimeMigrator/MigrationService.cs:260-261 | removing the rolled-back ids from distinct rows leaves the rows up to the target, the target last when it is applied |
| MigrationProperties.RollbackRefusals | RuntimeMigrator/MigrationService.cs:250-332 | a refused validation, or an unloadable file among the rolled-back ids, changes nothing and fails |
| MigrationProperties.ApplyKeepsRowsDistinct | RuntimeMigrator/MigrationService.cs:117-238 | saving and applying keep the history rows distinct |
| MigrationProperties.RollbackKeepsRowsDistinct | RuntimeMigrator/MigrationService.cs:245-335 | rolling back keeps the history rows distinct |
| MigrationProperties.AppliedIdsOfHistory | RuntimeMigrator/MigrationService.cs:415-464 | for `Migrations.AppliedIds`: the applied ids are the history rows, and empty when the table is missing or the read fails (the error is swallowed); distinct rows give distinct ids |
| MigrationProperties.GetDeclaredMigrationWhen | RuntimeMigrator/MigrationService.cs:674-697 | for `Migrations.GetDeclaredMigration`: a migration is loaded exactly when its file exists and is readable, and it is that file's content; a list is loadable exactly when every id names a readable file |
| MigrationProperties.AppendingKeepsCurrentSnapshot | RuntimeMigrator/MigrationService.cs:553-572 | for `Migrations.CurrentSnapshot`, the first row: once a snapshot exists, appending rows never changes the current (first) snapshot |
| MigrationProperties.SaveMigrationsOnlyAppendsSnapshots | RuntimeMigrator/MigrationService.cs:117-158 | saving only appends snapshot rows |
| MigrationProperties.ApplyOnlyAppendsSnapshots | RuntimeMigrator/MigrationService.cs:164-238 | applying only appends snapshot rows and keeps the current snapshot once one exists |
| MigrationProperties.RollbackOnlyAppendsSnapshots | RuntimeMigrator/MigrationService.cs:245-335 | rolling back only appends snapshot rows and keeps the current snapshot once one exists |

## Left out

- Database and file I/O, connections, `async`, logging and the
  `IOperationReporter` callbacks. The database and the directory are
  state fields. What they do that the code cannot see is a parameter of the
  environment: refused statements, an unreadable history, failing deletions.
- Transactions: each committed statement is recorded in order. The rollback
  of a failed statement is modelled as "nothing committed".
- The real SQL texts of EF Core's history repository. The create, insert and
  delete statements here are stand-ins with the same table and column names.
  Only their non-blankness matters.
- The schema differ, the SQL generator, the id generator and the snapshot
  code generator. They are parameters.
  - `GenerateMigrationId` is reduced to the name (`Init` or `Migration`) it
    passes to the id generator.
  - Snapshot compilation and generation failures are not modelled.
- Snapshot compression and decompression; a snapshot is its source text.
- `SaveModelSnapshot` never fails in the model. Its `catch`, which only
  rethrows, is not modelled.
- JSON serialisation. A file is either a readable migration or unreadable.
  A `null` command list is not modelled; command lists are sequences.
- File-write failures in `AddMigration`.
- Migrations.DeclaredIds: the store is a map keyed by id, so the model holds
  only `<id>.json` files, each stem once. The code lists every file of the
  directory (line 400) and strips any extension (line 405): a stray
  `notes.txt` would become the pending id `notes`, which the model can only
  approximate as an unreadable entry, and two files with one stem would give
  a repeated id, which the model cannot hold. The code sorts the paths before
  stripping them; the model sorts the ids.
- Linq.OrderBy, Migrations.NotAppliedIds: the model sorts ordinally. The code
  (line 386) and `GetDeclaredMigrationIds` use `Comparer<string>.Default`,
  which is culture-sensitive, so for ids whose cultural and ordinal orders
  differ the order of the `up` scripts and of the history inserts is not
  modelled.
- An unreadable history is a property of the environment, so it fails every
  read in one call alike. A failure of only one of the two reads in
  `RollbackMigrations` (lines 480 and 257) or in `ApplyMigrations` (lines 379
  and 181) is not modelled: in the code, a failure of only the read at 257
  rolls nothing back yet saves the snapshot and reports success, and a
  failure of only the read at 379 re-runs applied migrations.
- The history is read back in insertion order: `Migrations.InsertRow`
  appends to the end of the rows, and `RollbackMigrations` relies on that
  order through `Last` (line 492) and `IndexOf` with `Skip` (lines 260-262).
  The query at line 445 has no `ORDER BY`, so PostgreSQL promises no order;
  the model assumes rows come back in the order they were inserted.
- `null` strings are not modelled (for example `ValidateRollback(null)`);
  every string is a sequence of characters.
- Case folding covers ASCII letters only. Paths use the Unix separator `/`.
- Migration scripts do not change whether the database has tables. Only
  creating the history table sets that.
- The unused snapshot read in `RollbackMigrations` (line 266).
- Status codes and message texts. Results carry stand-in messages; only
  success, data and state matter.
- `GetAppliedMigrationIds` and `DatabaseExists` read the state fields.
  Their connection handling is not modelled, but the swallowed read error
  (an empty list) is.
- Service.MigrationService.UpdateDatabase: requires a non-empty id list.
  Its only caller passes one, and `Last` of an empty list would throw.
