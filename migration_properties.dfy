/**
 * What the orchestrator's operations promise, proved about the functions of
 * module Migrations.
 */
module MigrationProperties {
  import opened Options
  import opened Text
  import opened Linq
  import opened MigrationUtils
  import opened Migrations

  // ---------------------------------------------------------------- history statements

  /** The create statement is never skipped by `ExecuteSql`'s blank check. */
  lemma CreateHistoryScriptNotBlank()
    ensures !IsBlank(CreateHistoryScript)
  {
    var head := "CREATE TABLE ";
    assert head[0] == 'C';
    assert CreateHistoryScript == head + CreateHistoryScript[|head|..];
    NotBlankByFirst(CreateHistoryScript);
  }

  /** No insert statement is skipped by `ExecuteSql`'s blank check. */
  lemma InsertHistoryScriptNotBlank(id: string, version: string)
    ensures !IsBlank(InsertHistoryScript(id, version))
  {
    var head := "INSERT INTO ";
    assert head[0] == 'I';
    assert InsertHistoryScript(id, version) == head + InsertHistoryScript(id, version)[|head|..];
    NotBlankByFirst(InsertHistoryScript(id, version));
  }

  /** No delete statement is skipped by `ExecuteSql`'s blank check. */
  lemma DeleteHistoryScriptNotBlank(id: string)
    ensures !IsBlank(DeleteHistoryScript(id))
  {
    var head := "DELETE FROM ";
    assert head[0] == 'D';
    assert DeleteHistoryScript(id) == head + DeleteHistoryScript(id)[|head|..];
    NotBlankByFirst(DeleteHistoryScript(id));
  }

  // ---------------------------------------------------------------- reading

  /**
   * The applied ids are the history rows, except that reading them yields
   * nothing when the table is missing or the read throws (the error is
   * swallowed); read rows that are distinct stay distinct.
   */
  lemma AppliedIdsOfHistory(env: Env, db: Db)
    ensures AppliedIds(env, db) == (if env.historyUnreadable then [] else Rows(db))
    ensures db.history.None? ==> AppliedIds(env, db) == []
    ensures NoDuplicates(Rows(db)) ==> NoDuplicates(AppliedIds(env, db))
  {
  }

  /**
   * A migration is loaded exactly when its file exists and can be read, and
   * it is the file's content; so a list of ids is loadable exactly when each
   * id names a readable file.
   */
  lemma GetDeclaredMigrationWhen(store: ArtifactStore, id: string, ids: seq<string>)
    ensures GetDeclaredMigration(store, id).Some? <==> id in store && store[id].Readable?
    ensures GetDeclaredMigration(store, id).Some? ==> GetDeclaredMigration(store, id).value == store[id].migration
    ensures AllLoadable(store, ids) <==> forall x :: x in ids ==> x in store && store[x].Readable?
  {
    if AllLoadable(store, ids) {
      forall x | x in ids ensures x in store && store[x].Readable? {
        var i :| 0 <= i < |ids| && ids[i] == x;
        assert GetDeclaredMigration(store, ids[i]).Some?;
      }
    }
  }

  // ---------------------------------------------------------------- loading and scripts

  /** Loadability of a concatenation is loadability of both parts. */
  lemma AllLoadableConcat(store: ArtifactStore, a: seq<string>, b: seq<string>)
    ensures AllLoadable(store, a + b) <==> AllLoadable(store, a) && AllLoadable(store, b)
  {
    if AllLoadable(store, a + b) {
      forall i | 0 <= i < |a| ensures GetDeclaredMigration(store, a[i]).Some? {
        assert a[i] == (a + b)[i];
      }
      forall i | 0 <= i < |b| ensures GetDeclaredMigration(store, b[i]).Some? {
        assert b[i] == (a + b)[|a| + i];
      }
    }
  }

  /** The update script of a concatenation is the two scripts one after the other. */
  lemma {:induction false} UpScriptConcat(store: ArtifactStore, a: seq<string>, b: seq<string>)
    requires AllLoadable(store, a) && AllLoadable(store, b)
    ensures AllLoadable(store, a + b)
    ensures UpScript(store, a + b) == UpScript(store, a) + UpScript(store, b)
    decreases |a|
  {
    AllLoadableConcat(store, a, b);
    if |a| == 0 {
      assert a + b == b;
    } else {
      assert a == [a[0]] + a[1..];
      AllLoadableConcat(store, [a[0]], a[1..]);
      var c := UpChunk(GetDeclaredMigration(store, a[0]).value);
      assert (a + b)[0] == a[0];
      assert (a + b)[1..] == a[1..] + b;
      UpScriptConcat(store, a[1..], b);
      assert UpScript(store, a + b) == c + UpScript(store, a[1..] + b);
      assert UpScript(store, a) == c + UpScript(store, a[1..]);
      AppendAssociative(c, UpScript(store, a[1..]), UpScript(store, b));
    }
  }

  /** The step of `BuildUpdateSqlScript`'s loop: one more id adds its `up` chunk at the end. */
  lemma UpScriptAppend(store: ArtifactStore, ids: seq<string>, id: string)
    requires AllLoadable(store, ids) && GetDeclaredMigration(store, id).Some?
    ensures AllLoadable(store, ids + [id])
    ensures UpScript(store, ids + [id]) == UpScript(store, ids) + UpChunk(GetDeclaredMigration(store, id).value)
  {
    assert AllLoadable(store, [id]);
    UpScriptConcat(store, ids, [id]);
    assert [id][1..] == [];
  }

  /** The rollback script of a concatenation: the second part's script comes first. */
  lemma {:induction false} DownScriptConcat(store: ArtifactStore, a: seq<string>, b: seq<string>)
    requires AllLoadable(store, a) && AllLoadable(store, b)
    ensures AllLoadable(store, a + b)
    ensures DownScript(store, a + b) == DownScript(store, b) + DownScript(store, a)
    decreases |a|
  {
    AllLoadableConcat(store, a, b);
    if |a| == 0 {
      assert a + b == b;
    } else {
      assert a == [a[0]] + a[1..];
      AllLoadableConcat(store, [a[0]], a[1..]);
      var c := DownChunk(GetDeclaredMigration(store, a[0]).value);
      assert (a + b)[0] == a[0];
      assert (a + b)[1..] == a[1..] + b;
      DownScriptConcat(store, a[1..], b);
      assert DownScript(store, a + b) == DownScript(store, a[1..] + b) + c;
      assert DownScript(store, a) == DownScript(store, a[1..]) + c;
      AppendAssociative(DownScript(store, b), DownScript(store, a[1..]), c);
    }
  }

  /** The step of `RollbackMigrations`' reversed loop: id `k` adds its `down` chunk after those of the ids behind it. */
  lemma DownScriptPrepend(store: ArtifactStore, ids: seq<string>, k: int)
    requires 0 <= k < |ids|
    requires AllLoadable(store, ids[k + 1..]) && GetDeclaredMigration(store, ids[k]).Some?
    ensures AllLoadable(store, ids[k..])
    ensures DownScript(store, ids[k..]) == DownScript(store, ids[k + 1..]) + DownChunk(GetDeclaredMigration(store, ids[k]).value)
  {
    assert ids[k..] == [ids[k]] + ids[k + 1..];
    assert AllLoadable(store, [ids[k]]);
    AllLoadableConcat(store, [ids[k]], ids[k + 1..]);
    assert ids[k..][1..] == ids[k + 1..];
  }

  /** The `down` chunks concatenated in the order of `ids`: the reference the rollback script is compared with. */
  function DownChunks(store: ArtifactStore, ids: seq<string>): string
    requires AllLoadable(store, ids)
  {
    if |ids| == 0 then ""
    else
      AllLoadableConcat(store, [ids[0]], ids[1..]);
      assert ids == [ids[0]] + ids[1..];
      DownChunk(GetDeclaredMigration(store, ids[0]).value) + DownChunks(store, ids[1..])
  }

  /** `ids` backwards. */
  function Reversed(ids: seq<string>): (r: seq<string>)
    ensures |r| == |ids|
    ensures forall i :: 0 <= i < |ids| ==> r[i] == ids[|ids| - 1 - i]
  {
    if |ids| == 0 then [] else Reversed(ids[1..]) + [ids[0]]
  }

  /**
   * The rollback script is the `down` chunks of the ids in reverse order,
   * as `rollbackMigrationIds.Reverse()` visits them.
   */
  lemma {:induction false} DownScriptIsReversedOrder(store: ArtifactStore, ids: seq<string>)
    requires AllLoadable(store, ids)
    ensures AllLoadable(store, Reversed(ids))
    ensures DownScript(store, ids) == DownChunks(store, Reversed(ids))
  {
    assert AllLoadable(store, Reversed(ids)) by {
      forall i | 0 <= i < |ids| ensures GetDeclaredMigration(store, Reversed(ids)[i]).Some? {
        assert Reversed(ids)[i] == ids[|ids| - 1 - i];
      }
    }
    if |ids| > 0 {
      assert ids == [ids[0]] + ids[1..];
      AllLoadableConcat(store, [ids[0]], ids[1..]);
      DownScriptIsReversedOrder(store, ids[1..]);
      DownChunksConcat(store, Reversed(ids[1..]), [ids[0]]);
      assert [ids[0]][1..] == [];
    }
  }

  /** `DownChunks` of a concatenation. */
  lemma {:induction false} DownChunksConcat(store: ArtifactStore, a: seq<string>, b: seq<string>)
    requires AllLoadable(store, a) && AllLoadable(store, b)
    ensures AllLoadable(store, a + b)
    ensures DownChunks(store, a + b) == DownChunks(store, a) + DownChunks(store, b)
    decreases |a|
  {
    AllLoadableConcat(store, a, b);
    if |a| == 0 {
      assert a + b == b;
    } else {
      assert a == [a[0]] + a[1..];
      AllLoadableConcat(store, [a[0]], a[1..]);
      DownChunksConcat(store, a[1..], b);
      assert (a + b)[1..] == a[1..] + b;
    }
  }

  /** Each chunk ends its migration's commands with one line break per command and one more. */
  lemma UpScriptOfOne(store: ArtifactStore, id: string)
    requires GetDeclaredMigration(store, id).Some?
    ensures AllLoadable(store, [id])
    ensures var m := GetDeclaredMigration(store, id).value;
      UpScript(store, [id]) == (if |m.upSqlCommands| == 0 then "" else Script(m.upSqlCommands) + NL)
      && DownScript(store, [id]) == Script(m.downSqlCommands) + NL
  {
    assert [id][1..] == [];
  }

  // ---------------------------------------------------------------- creating migrations

  /** The operation filter distributes over concatenation. */
  lemma {:induction false} FilterConcat(a: seq<MigrationOperation>, b: seq<MigrationOperation>)
    ensures FilterOperations(a + b) == FilterOperations(a) + FilterOperations(b)
    decreases |a|
  {
    if |a| == 0 {
      assert a + b == b;
    } else {
      var head := if Tracked(a[0]) then [a[0]] else [];
      var ab := a + b;
      assert ab[0] == a[0] && ab[1..] == a[1..] + b;
      FilterConcat(a[1..], b);
      calc {
        FilterOperations(ab);
        head + FilterOperations(a[1..] + b);
        head + (FilterOperations(a[1..]) + FilterOperations(b));
        (head + FilterOperations(a[1..])) + FilterOperations(b);
      }
    }
  }

  /** The filter keeps a list of tracked operations as it is, order included. */
  lemma {:induction false} FilterKeepsTracked(ops: seq<MigrationOperation>)
    requires forall i :: 0 <= i < |ops| ==> Tracked(ops[i])
    ensures FilterOperations(ops) == ops
  {
    if |ops| > 0 {
      FilterKeepsTracked(ops[1..]);
    }
  }

  /** Filtering twice is filtering once. */
  lemma FilterIdempotent(ops: seq<MigrationOperation>)
    ensures FilterOperations(FilterOperations(ops)) == FilterOperations(ops)
  {
    var kept := FilterOperations(ops);
    forall i | 0 <= i < |kept| ensures Tracked(kept[i]) {
      assert kept[i] in kept;
    }
    FilterKeepsTracked(kept);
  }

  /**
   * A migration is generated exactly when both difference lists hold a
   * tracked operation; its commands are the generator's SQL for the
   * filtered lists, and a blank snapshot diffs like no snapshot at all.
   */
  lemma GenerateMigrationWhen(
    snapshot: Option<string>,
    differ: (SchemaModel, SchemaModel) -> seq<MigrationOperation>,
    sqlGenerator: seq<MigrationOperation> -> seq<string>)
    ensures var current := SnapshotModel(if IsNullOrWhiteSpace(snapshot) then None else snapshot);
      var g := GenerateMigration(snapshot, differ, sqlGenerator);
      (g.Some? <==> (exists op :: op in differ(current, ContextModel) && Tracked(op))
                    && (exists op :: op in differ(ContextModel, current) && Tracked(op)))
      && (g.Some? ==> g.value.upSqlCommands == sqlGenerator(FilterOperations(differ(current, ContextModel)))
                      && g.value.downSqlCommands == sqlGenerator(FilterOperations(differ(ContextModel, current))))
  {
    var current := SnapshotModel(if IsNullOrWhiteSpace(snapshot) then None else snapshot);
    var up := FilterOperations(differ(current, ContextModel));
    var down := FilterOperations(differ(ContextModel, current));
    if |up| > 0 {
      assert up[0] in up;
    }
    if |down| > 0 {
      assert down[0] in down;
    }
  }

  /** The id generator is given `Init` exactly when there is no migration file and no snapshot. */
  lemma MigrationNameIsInitIff(store: ArtifactStore, snapshot: Option<string>)
    ensures MigrationName(DeclaredIds(store), snapshot) == "Init" <==> store == map[] && IsNullOrEmpty(snapshot)
  {
    var ids := DeclaredIds(store);
    if |ids| > 0 {
      assert ids[0] in store;
    }
    if store != map[] {
      var k :| k in store;
      assert k in ids;
    }
  }

  /** With no migration file in the directory, no migration is pending. */
  lemma NothingPendingWithoutFiles(env: Env, store: ArtifactStore, db: Db)
    requires |store| == 0
    ensures NotAppliedIds(DeclaredIds(store), AppliedIds(env, db)) == []
  {
  }

  /** While some migration file is not in the history, `AddMigration` creates nothing. */
  lemma AddMigrationRefusedWhilePending(
    env: Env, store: ArtifactStore, db: Db,
    generateId: string -> string,
    differ: (SchemaModel, SchemaModel) -> seq<MigrationOperation>,
    sqlGenerator: seq<MigrationOperation> -> seq<string>,
    pendingId: string)
    requires pendingId in store && pendingId !in AppliedIds(env, db)
    ensures AddMigrationOutcome(env, store, db, generateId, differ, sqlGenerator) == NotCreated
  {
    assert pendingId in NotAppliedIds(DeclaredIds(store), AppliedIds(env, db));
  }

  /**
   * `AddMigration` creates a migration exactly when every migration file is
   * applied and the generated migration has commands both ways; it is then
   * the generated migration, stored under the generator's id for the name
   * `MigrationName` chooses.
   */
  lemma AddMigrationCreatesIff(
    env: Env, store: ArtifactStore, db: Db,
    generateId: string -> string,
    differ: (SchemaModel, SchemaModel) -> seq<MigrationOperation>,
    sqlGenerator: seq<MigrationOperation> -> seq<string>)
    ensures var c := AddMigrationOutcome(env, store, db, generateId, differ, sqlGenerator);
      var g := GenerateMigration(CurrentSnapshot(db), differ, sqlGenerator);
      (c.Created? <==> (forall id :: id in store ==> id in AppliedIds(env, db)) && g.Some? && Complete(g.value))
      && (c.Created? ==> c.id == generateId(MigrationName(DeclaredIds(store), CurrentSnapshot(db)))
                         && g == Some(c.migration) && Complete(c.migration))
  {
    var pending := NotAppliedIds(DeclaredIds(store), AppliedIds(env, db));
    if |pending| > 0 {
      assert pending[0] in pending;
    }
    if !(forall id :: id in store ==> id in AppliedIds(env, db)) {
      var id :| id in store && id !in AppliedIds(env, db);
      assert id in pending;
    }
  }

  /** Every readable migration file has commands both ways. */
  predicate StoreComplete(store: ArtifactStore)
  {
    forall id :: id in store && store[id].Readable? ==> Complete(store[id].migration)
  }

  /** `AddMigration` writes only complete migrations, so a store of complete migrations stays one. */
  lemma AddMigrationKeepsStoreComplete(
    env: Env, store: ArtifactStore, db: Db,
    generateId: string -> string,
    differ: (SchemaModel, SchemaModel) -> seq<MigrationOperation>,
    sqlGenerator: seq<MigrationOperation> -> seq<string>)
    requires StoreComplete(store)
    ensures StoreComplete(StoreAfter(store, AddMigrationOutcome(env, store, db, generateId, differ, sqlGenerator)))
  {
  }

  // ---------------------------------------------------------------- sequences without duplicates

  /** Adding an element that is not there keeps a sequence free of duplicates. */
  lemma NoDuplicatesAppend(rows: seq<string>, x: string)
    requires NoDuplicates(rows) && x !in rows
    ensures NoDuplicates(rows + [x])
  {
    forall i, j | 0 <= i < j < |rows| + 1 ensures (rows + [x])[i] != (rows + [x])[j] {
      if j == |rows| {
        assert (rows + [x])[i] == rows[i];
      }
    }
  }

  /** Putting in front an element that is not in the rest keeps a sequence free of duplicates. */
  lemma NoDuplicatesCons(x: string, rest: seq<string>)
    requires NoDuplicates(rest) && x !in rest
    ensures NoDuplicates([x] + rest)
  {
    forall i, j | 0 <= i < j < |rest| + 1 ensures ([x] + rest)[i] != ([x] + rest)[j] {
      assert ([x] + rest)[j] == rest[j - 1];
      if i > 0 {
        assert ([x] + rest)[i] == rest[i - 1];
      }
    }
  }

  /** Removing in two steps is removing the union. */
  lemma {:induction false} WithoutWithout(rows: seq<string>, first: set<string>, rest: set<string>)
    ensures Without(Without(rows, first), rest) == Without(rows, first + rest)
  {
    if |rows| > 0 {
      WithoutWithout(rows[1..], first, rest);
      if rows[0] !in first {
        assert ([rows[0]] + Without(rows[1..], first))[1..] == Without(rows[1..], first);
      }
    }
  }

  /** `Without` distributes over concatenation. */
  lemma {:induction false} WithoutConcat(a: seq<string>, b: seq<string>, drop: set<string>)
    ensures Without(a + b, drop) == Without(a, drop) + Without(b, drop)
    decreases |a|
  {
    if |a| == 0 {
      assert a + b == b;
    } else {
      var ab := a + b;
      assert ab[0] == a[0] && ab[1..] == a[1..] + b;
      WithoutConcat(a[1..], b, drop);
      if a[0] !in drop {
        assert Without(ab, drop) == [a[0]] + Without(a[1..] + b, drop);
        AppendAssociative([a[0]], Without(a[1..], drop), Without(b, drop));
      }
    }
  }

  /** Removing elements none of which occur leaves the sequence as it is. */
  lemma {:induction false} WithoutNothing(a: seq<string>, drop: set<string>)
    requires forall i :: 0 <= i < |a| ==> a[i] !in drop
    ensures Without(a, drop) == a
  {
    if |a| > 0 {
      WithoutNothing(a[1..], drop);
    }
  }

  /** Removing a set that holds every element leaves nothing. */
  lemma {:induction false} WithoutEverything(a: seq<string>, drop: set<string>)
    requires forall i :: 0 <= i < |a| ==> a[i] in drop
    ensures Without(a, drop) == []
  {
    if |a| > 0 {
      WithoutEverything(a[1..], drop);
    }
  }

  /** Deleting every id of a suffix of distinct rows leaves the prefix before it. */
  lemma WithoutSuffix(rows: seq<string>, n: nat)
    requires NoDuplicates(rows) && n <= |rows|
    ensures Without(rows, set id | id in rows[n..]) == rows[..n]
  {
    var pre, suf := rows[..n], rows[n..];
    var drop := set id | id in suf;
    forall i | 0 <= i < |pre| ensures pre[i] !in drop {
      forall j | 0 <= j < |suf| ensures suf[j] != pre[i] {
        assert pre[i] == rows[i] && suf[j] == rows[n + j];
      }
    }
    WithoutNothing(pre, drop);
    forall i | 0 <= i < |suf| ensures suf[i] in drop {
      assert suf[i] in suf;
    }
    WithoutEverything(suf, drop);
    calc {
      Without(rows, drop);
      { assert rows == pre + suf; }
      Without(pre + suf, drop);
      { WithoutConcat(pre, suf, drop); }
      Without(pre, drop) + Without(suf, drop);
      pre + [];
    }
    assert pre + [] == pre;
  }

  // ---------------------------------------------------------------- history rows

  /**
   * `AddEFHistoryRecord`: only `history` and `executed` change; a failure
   * changes nothing; a success needs the table and an id that is not a row
   * yet, appends it to the rows and commits its insert statement.
   */
  lemma InsertRowEffect(env: Env, db: Db, id: string)
    ensures var s := InsertRow(env, db, id);
      s.db.snapshots == db.snapshots && s.db.hasTables == db.hasTables
      && s.db.history.Some? == db.history.Some?
      && (!s.ok ==> s.db == db)
      && (s.ok ==> db.history.Some? && id !in Rows(db) && Rows(s.db) == Rows(db) + [id]
                   && s.db.executed == db.executed + [InsertHistoryScript(id, env.productVersion)])
  {
    InsertHistoryScriptNotBlank(id, env.productVersion);
  }

  /**
   * Inserting history rows: only `history` and `executed` change; the rows
   * stay distinct; and when every insert succeeds the ids follow the old
   * rows in order, none of them was a row before and they are distinct, and
   * exactly their insert statements were committed.
   */
  lemma {:induction false} InsertRowsEffect(env: Env, db: Db, ids: seq<string>)
    ensures var s := InsertRows(env, db, ids);
      s.db.snapshots == db.snapshots && s.db.hasTables == db.hasTables
      && s.db.history.Some? == db.history.Some?
      && (NoDuplicates(Rows(db)) ==> NoDuplicates(Rows(s.db)))
      && (s.ok ==> Rows(s.db) == Rows(db) + ids
                   && s.db.executed == db.executed + InsertHistoryScripts(ids, env.productVersion)
                   && NoDuplicates(ids) && (forall id :: id in ids ==> id !in Rows(db))
                   && (|ids| > 0 ==> db.history.Some?))
    decreases |ids|
  {
    if |ids| > 0 {
      var s1 := InsertRow(env, db, ids[0]);
      InsertRowEffect(env, db, ids[0]);
      if s1.ok {
        var rows := Rows(db);
        InsertRowsEffect(env, s1.db, ids[1..]);
        if NoDuplicates(rows) {
          NoDuplicatesAppend(rows, ids[0]);
        }
        var s := InsertRows(env, s1.db, ids[1..]);
        if s.ok {
          AppendAssociative(rows, [ids[0]], ids[1..]);
          AppendAssociative(db.executed, [InsertHistoryScript(ids[0], env.productVersion)], InsertHistoryScripts(ids[1..], env.productVersion));
          assert ids == [ids[0]] + ids[1..];
          assert ids[0] !in ids[1..] by {
            assert ids[0] in rows + [ids[0]];
          }
          NoDuplicatesCons(ids[0], ids[1..]);
          forall id | id in ids ensures id !in rows {
            if id != ids[0] {
              assert id in ids[1..];
            }
          }
        }
      }
    }
  }

  lemma AppendAssociative<T>(a: seq<T>, b: seq<T>, c: seq<T>)
    ensures (a + b) + c == a + (b + c)
  {
  }

  /** The set of the ids of a non-empty sequence: its head and those of its tail. */
  lemma IdSetCons(ids: seq<string>)
    requires |ids| > 0
    ensures (set id | id in ids) == {ids[0]} + set id | id in ids[1..]
  {
    forall x ensures x in ids <==> x == ids[0] || x in ids[1..] {
      if x in ids && x != ids[0] {
        var i :| 0 <= i < |ids| && ids[i] == x;
        assert ids[1..][i - 1] == x;
      }
    }
  }

  /**
   * `DeleteEFHistoryRecord`: only `history` and `executed` change; distinct
   * rows stay distinct; a failure changes nothing; a success removes the
   * id's rows and commits its delete statement.
   */
  lemma DeleteRowEffect(env: Env, db: Db, id: string)
    ensures var s := DeleteRow(env, db, id);
      s.db.snapshots == db.snapshots && s.db.hasTables == db.hasTables
      && s.db.history.Some? == db.history.Some?
      && (NoDuplicates(Rows(db)) ==> NoDuplicates(Rows(s.db)))
      && (!s.ok ==> s.db == db)
      && (s.ok ==> db.history.Some? && Rows(s.db) == Without(Rows(db), {id})
                   && s.db.executed == db.executed + [DeleteHistoryScript(id)])
  {
    DeleteHistoryScriptNotBlank(id);
  }

  /**
   * Deleting history rows: only `history` and `executed` change; distinct
   * rows stay distinct; and when every delete succeeds the rows of the ids
   * are gone, the others keep their order, and exactly the delete
   * statements were committed.
   */
  lemma {:induction false} DeleteRowsEffect(env: Env, db: Db, ids: seq<string>)
    ensures var s := DeleteRows(env, db, ids);
      s.db.snapshots == db.snapshots && s.db.hasTables == db.hasTables
      && s.db.history.Some? == db.history.Some?
      && (NoDuplicates(Rows(db)) ==> NoDuplicates(Rows(s.db)))
      && (s.ok ==> Rows(s.db) == Without(Rows(db), set id | id in ids)
                   && s.db.executed == db.executed + DeleteHistoryScripts(ids)
                   && (|ids| > 0 ==> db.history.Some?))
    decreases |ids|
  {
    if |ids| == 0 {
      assert (set id | id in ids) == {};
      WithoutNothing(Rows(db), {});
    } else {
      var s1 := DeleteRow(env, db, ids[0]);
      DeleteRowEffect(env, db, ids[0]);
      if s1.ok {
        var rest := DeleteRows(env, s1.db, ids[1..]);
        DeleteRowsEffect(env, s1.db, ids[1..]);
        if rest.ok {
          WithoutWithout(Rows(db), {ids[0]}, set id | id in ids[1..]);
          IdSetCons(ids);
          AppendAssociative(db.executed, [DeleteHistoryScript(ids[0])], DeleteHistoryScripts(ids[1..]));
        }
      }
    }
  }

  // ---------------------------------------------------------------- registering and applying

  /**
   * `EnsureCreateEFHistoryTable`: afterwards the table exists exactly when it
   * succeeded; the rows and snapshots stay; the create statement is committed
   * only when the table was missing; and a failure changes nothing.
   */
  lemma EnsureHistoryTableEffect(env: Env, db: Db)
    ensures var e := EnsureHistoryTable(env, db);
      e.db.snapshots == db.snapshots && Rows(e.db) == Rows(db)
      && (e.ok <==> e.db.history.Some?)
      && (e.ok ==> e.db.hasTables == (db.hasTables || db.history.None?)
                   && e.db.executed == db.executed + (if db.history.None? then [CreateHistoryScript] else []))
      && (!e.ok ==> e.db == db)
  {
    CreateHistoryScriptNotBlank();
  }

  /**
   * `Register` always saves the snapshot of the last id; the history rows
   * stay distinct; when it succeeds the history table exists, the ids
   * follow the old rows (none of them was a row before, and they are
   * distinct), and what was committed is the create statement if the table
   * was missing, then one insert per id.
   */
  lemma RegisterEffect(env: Env, db: Db, ids: seq<string>)
    requires |ids| > 0
    ensures var s := Register(env, db, ids);
      s.db.snapshots == db.snapshots + [env.generateSnapshot(Last(ids))]
      && (NoDuplicates(Rows(db)) ==> NoDuplicates(Rows(s.db)))
      && (s.ok ==> s.db.history.Some? && Rows(s.db) == Rows(db) + ids
                   && NoDuplicates(ids) && (forall id :: id in ids ==> id !in Rows(db))
                   && s.db.hasTables == (db.hasTables || db.history.None?)
                   && s.db.executed == db.executed + (if db.history.None? then [CreateHistoryScript] else [])
                                       + InsertHistoryScripts(ids, env.productVersion))
  {
    var d := SaveSnapshot(env, db, Last(ids));
    var e := EnsureHistoryTable(env, d);
    EnsureHistoryTableEffect(env, d);
    if e.ok {
      InsertRowsEffect(env, e.db, ids);
    }
  }

  /**
   * `UpdateDatabase` changes nothing when a migration file cannot be loaded
   * or the update script is refused, and keeps the history rows distinct.
   */
  lemma UpdateDatabaseRefusals(env: Env, store: ArtifactStore, db: Db, ids: seq<string>)
    requires |ids| > 0
    ensures var s := UpdateDatabaseStep(env, store, db, ids);
      (!AllLoadable(store, ids) ==> s == Step(db, false))
      && (AllLoadable(store, ids) && !IsBlank(UpScript(store, ids)) && env.rejects(UpScript(store, ids)) ==> s == Step(db, false))
      && (NoDuplicates(Rows(db)) ==> NoDuplicates(Rows(s.db)))
  {
    if AllLoadable(store, ids) {
      var e := Exec(env, db, UpScript(store, ids));
      if e.ok {
        RegisterEffect(env, e.db, ids);
      }
    }
  }

  /**
   * When `UpdateDatabase` succeeds, every migration file was loaded, the
   * update script was committed before the history statements, the ids
   * follow the old rows and the snapshot of the last one is saved.
   */
  lemma UpdateDatabaseSuccess(env: Env, store: ArtifactStore, db: Db, ids: seq<string>)
    requires |ids| > 0
    ensures var s := UpdateDatabaseStep(env, store, db, ids);
      s.ok ==> AllLoadable(store, ids)
               && s.db.history.Some? && Rows(s.db) == Rows(db) + ids
               && NoDuplicates(ids) && (forall id :: id in ids ==> id !in Rows(db))
               && s.db.snapshots == db.snapshots + [env.generateSnapshot(Last(ids))]
               && s.db.executed == db.executed + Committed(UpScript(store, ids))
                                   + (if db.history.None? then [CreateHistoryScript] else [])
                                   + InsertHistoryScripts(ids, env.productVersion)
  {
    if AllLoadable(store, ids) {
      var script := UpScript(store, ids);
      var e := Exec(env, db, script);
      ExecEffect(env, db, script);
      if e.ok {
        assert e.db == db.(executed := db.executed + Committed(script));
        RegisterEffect(env, e.db, ids);
      }
    }
  }

  /**
   * Applying is not atomic either: when the `up` script has committed and
   * the history table or an insert then fails, the call fails but the
   * snapshot of the last id has already been appended.
   */
  lemma UpdateRegisterFailureKeepsSnapshot(env: Env, store: ArtifactStore, db: Db, ids: seq<string>)
    requires |ids| > 0 && AllLoadable(store, ids)
    requires Exec(env, db, UpScript(store, ids)).ok
    requires !Register(env, Exec(env, db, UpScript(store, ids)).db, ids).ok
    ensures var s := UpdateDatabaseStep(env, store, db, ids);
      !s.ok && s.db.snapshots == db.snapshots + [env.generateSnapshot(Last(ids))]
  {
    var e := Exec(env, db, UpScript(store, ids));
    ExecEffect(env, db, UpScript(store, ids));
    RegisterEffect(env, e.db, ids);
  }

  /**
   * `ApplyMigrations` succeeds only on a non-empty working set, and on one
   * id when no migration is applied yet or no snapshot exists. On success
   * every id of the working set follows the old history rows, none was a row
   * before, and the snapshot of the last one is saved.
   */
  lemma ApplySuccess(env: Env, store: ArtifactStore, db: Db, migrationIds: seq<string>)
    ensures var s := ApplyStep(env, store, db, migrationIds);
      var work := WorkingSet(env, store, db, migrationIds);
      s.ok ==> |work| > 0 && (Bootstrap(env, db) ==> |work| == 1)
               && s.db.history.Some? && Rows(s.db) == Rows(db) + work
               && NoDuplicates(work) && (forall id :: id in work ==> id !in Rows(db))
               && s.db.snapshots == db.snapshots + [env.generateSnapshot(Last(work))]
  {
    var work := WorkingSet(env, store, db, migrationIds);
    if |work| > 0 && !(Bootstrap(env, db) && |work| > 1) {
      if Bootstrap(env, db) && db.hasTables {
        RegisterEffect(env, db, [work[0]]);
        assert [work[0]] == work;
      } else {
        UpdateDatabaseSuccess(env, store, db, work);
      }
    }
  }

  /**
   * Unless an existing database is adopted, a successful `ApplyMigrations`
   * committed the update script of the working set first, then the history
   * statements.
   */
  lemma ApplyRunsUpdateScript(env: Env, store: ArtifactStore, db: Db, migrationIds: seq<string>)
    requires !(Bootstrap(env, db) && db.hasTables)
    ensures var s := ApplyStep(env, store, db, migrationIds);
      var work := WorkingSet(env, store, db, migrationIds);
      s.ok ==> AllLoadable(store, work)
               && s.db.executed == db.executed + Committed(UpScript(store, work))
                                   + (if db.history.None? then [CreateHistoryScript] else [])
                                   + InsertHistoryScripts(work, env.productVersion)
  {
    var work := WorkingSet(env, store, db, migrationIds);
    if |work| > 0 {
      UpdateDatabaseSuccess(env, store, db, work);
    }
  }

  /**
   * Adopting an existing database: when nothing is applied yet (or no
   * snapshot exists), the database has tables and the working set is one id,
   * `ApplyMigrations` runs no migration script, whether it succeeds or not.
   * It commits nothing, or only the create statement the history table
   * needed, or that and the id's insert statement; it always appends the
   * id's snapshot. A success inserted the id's row after the old rows.
   */
  lemma AdoptionRunsNoMigrationScript(env: Env, store: ArtifactStore, db: Db, migrationIds: seq<string>)
    requires |WorkingSet(env, store, db, migrationIds)| == 1 && Bootstrap(env, db) && db.hasTables
    ensures var s := ApplyStep(env, store, db, migrationIds);
      var id := WorkingSet(env, store, db, migrationIds)[0];
      var create := if db.history.None? then [CreateHistoryScript] else [];
      (s.db.executed == db.executed
       || s.db.executed == db.executed + create
       || s.db.executed == db.executed + create + [InsertHistoryScript(id, env.productVersion)])
      && s.db.snapshots == db.snapshots + [env.generateSnapshot(id)]
    ensures var s := ApplyStep(env, store, db, migrationIds);
      var id := WorkingSet(env, store, db, migrationIds)[0];
      s.ok ==> s.db.executed == db.executed + (if db.history.None? then [CreateHistoryScript] else [])
                                + [InsertHistoryScript(id, env.productVersion)]
               && Rows(s.db) == Rows(db) + [id]
  {
    var id := WorkingSet(env, store, db, migrationIds)[0];
    var saved := SaveSnapshot(env, db, id);
    var e := EnsureHistoryTable(env, saved);
    EnsureHistoryTableEffect(env, saved);
    assert ApplyStep(env, store, db, migrationIds) == Register(env, db, [id]);
    assert Register(env, db, [id]) == if e.ok then InsertRows(env, e.db, [id]) else e;
    if e.ok {
      var r := InsertRow(env, e.db, id);
      InsertRowEffect(env, e.db, id);
      assert [id][1..] == [];
      assert InsertRows(env, e.db, [id]) == if r.ok then InsertRows(env, r.db, []) else r;
    }
    RegisterEffect(env, db, [id]);
    assert InsertHistoryScripts([id], env.productVersion) == [InsertHistoryScript(id, env.productVersion)];
  }

  /**
   * `ApplyMigrations` refuses without changing anything when the working set
   * is empty, when several ids would be applied to a database with no
   * applied migration or no snapshot, or when a migration file of the
   * working set cannot be loaded.
   */
  lemma ApplyRefusals(env: Env, store: ArtifactStore, db: Db, migrationIds: seq<string>)
    ensures var s := ApplyStep(env, store, db, migrationIds);
      var work := WorkingSet(env, store, db, migrationIds);
      (|work| == 0 || (Bootstrap(env, db) && |work| > 1)
       || (!(Bootstrap(env, db) && db.hasTables) && !AllLoadable(store, work)))
      ==> s == Step(db, false)
  {
  }

  // ---------------------------------------------------------------- validating and rolling back

  /**
   * `ValidateRollback` accepts exactly when the target is not blank, its
   * file name without extension is an applied id (compared ordinally), the
   * last applied id is not that name ignoring case, and a snapshot exists.
   * Its "nothing to roll back" guard can never fire after the earlier ones.
   */
  lemma ValidateRollbackIff(target: string, applied: seq<string>, snapshot: Option<string>)
    ensures var id := GetFileNameWithoutExtension(target);
      ValidateRollbackVerdict(target, applied, snapshot) == RollbackAllowed
      <==> !IsBlank(target) && id in applied && !EqualsIgnoreCase(Last(applied), id)
           && !IsNullOrWhiteSpace(snapshot)
    ensures ValidateRollbackVerdict(target, applied, snapshot) != NothingToRollBack
  {
    var id := GetFileNameWithoutExtension(target);
    if !IsBlank(target) && id in applied && !EqualsIgnoreCase(Last(applied), id) {
      var k := IndexOf(applied, id);
      assert k != |applied| - 1 by {
        assert EqualsIgnoreCase(id, id);
      }
      assert |Skip(applied, k + 1)| == |applied| - (k + 1);
    }
  }

  /** A one-letter name that is neither a separator, a dot nor white space is its own file name without extension. */
  lemma PlainNameIsItsOwnStem(name: string)
    requires |name| == 1 && name[0] != '/' && name[0] != '.' && !IsWhiteSpace(name[0])
    ensures GetFileNameWithoutExtension(name) == name && !IsBlank(name)
  {
    assert LastIndexOf(name[..0], '/') == -1;
    assert LastIndexOf(name, '/') == -1;
    assert LastIndexOf(name[..0], '.') == -1;
    assert LastIndexOf(name, '.') == -1;
  }

  /** The guard of `ValidateRollback` that looks the target up among the applied ids. */
  lemma RefusedAsNotApplied(target: string, applied: seq<string>, snapshot: Option<string>)
    requires !IsBlank(target) && |applied| > 0 && GetFileNameWithoutExtension(target) !in applied
    ensures ValidateRollbackVerdict(target, applied, snapshot) == TargetNotApplied
  {
  }

  /** The guard of `ValidateRollback` that compares the target with the last applied id. */
  lemma RefusedAsLast(target: string, applied: seq<string>, snapshot: Option<string>)
    requires !IsBlank(target) && GetFileNameWithoutExtension(target) in applied
    requires EqualsIgnoreCase(Last(applied), GetFileNameWithoutExtension(target))
    ensures ValidateRollbackVerdict(target, applied, snapshot) == TargetIsLast
  {
  }

  /** A one-letter lower-case name and its upper-case spelling: different, but equal ignoring case. */
  lemma LowerAndUpper(name: string)
    requires |name| == 1 && 'a' <= name[0] <= 'z'
    ensures var upper := [FoldCase(name[0])];
      name != upper && EqualsIgnoreCase(name, upper) && EqualsIgnoreCase(upper, name)
    ensures !IsWhiteSpace(name[0])
  {
    var upper := FoldCase(name[0]);
    assert FoldCase(upper) == upper;
    assert [upper][0] == upper;
  }

  /**
   * The applied-id lookup is ordinal: a one-letter lower-case target whose
   * upper-case spelling is the only applied id is "not applied".
   */
  lemma ValidateRollbackLookupIsOrdinal(target: string, snapshot: Option<string>)
    requires |target| == 1 && 'a' <= target[0] <= 'z'
    ensures var upper := [FoldCase(target[0])];
      EqualsIgnoreCase(target, upper)
      && ValidateRollbackVerdict(target, [upper], snapshot) == TargetNotApplied
  {
    LowerAndUpper(target);
    PlainNameIsItsOwnStem(target);
    RefusedAsNotApplied(target, [[FoldCase(target[0])]], snapshot);
  }

  /**
   * The last-id guard ignores case: a one-letter lower-case target that is
   * applied but not last is refused as the last one when the last id is its
   * upper-case spelling.
   */
  lemma ValidateRollbackLastIgnoresCase(target: string, snapshot: Option<string>)
    requires |target| == 1 && 'a' <= target[0] <= 'z'
    ensures var upper := [FoldCase(target[0])];
      target != upper
      && ValidateRollbackVerdict(target, [target, upper], snapshot) == TargetIsLast
  {
    LowerAndUpper(target);
    PlainNameIsItsOwnStem(target);
    var applied := [target, [FoldCase(target[0])]];
    assert applied[0] == target;
    RefusedAsLast(target, applied, snapshot);
  }

  /** `RollbackIds` is the suffix of the applied ids after the target's position. */
  lemma RollbackIdsSuffix(applied: seq<string>, target: string)
    ensures var k := IndexOf(applied, target) + 1;
      0 <= k <= |applied| && RollbackIds(applied, target) == applied[k..]
  {
  }

  /**
   * The target is looked up in the applied ids as given, not stripped of
   * its extension as the validation does: rolling back to `x.json` for a
   * validated `x` looks up `x.json`, finds nothing and selects EVERY applied
   * migration, `x` included.
   */
  lemma UnstrippedTargetRollsBackAll(x: string, applied: seq<string>)
    requires '/' !in x && x + ".json" !in applied
    ensures GetFileNameWithoutExtension(x + ".json") == x
    ensures RollbackIds(applied, x + ".json") == applied
  {
    var path := x + ".json";
    assert path[|x|] == '.';
    forall j | 0 <= j < |path| ensures path[j] != '/' {
      if j < |x| { assert path[j] == x[j]; }
    }
    assert LastIndexOf(path, '/') == -1;
    assert GetFileName(path) == path;
    var k := LastIndexOf(path, '.');
    assert k == |x|;
    assert path[..k] == x;
  }

  /** `Exec`: a script is refused only when it is not blank; a success commits it unless blank. */
  lemma ExecEffect(env: Env, db: Db, q: string)
    ensures var e := Exec(env, db, q);
      (e.ok <==> IsBlank(q) || !env.rejects(q))
      && e.db == (if e.ok then db.(executed := db.executed + Committed(q)) else db)
  {
  }

  /**
   * `DeleteDeclaredMigrations`: only files of the given ids disappear, the
   * others keep their contents; on success every listed file is gone; and it
   * succeeds whenever no listed existing file fails to delete.
   */
  lemma {:induction false} DeleteFilesEffect(env: Env, store: ArtifactStore, ids: seq<string>)
    ensures var d := DeleteFiles(env, store, ids);
      d.store.Keys <= store.Keys
      && (forall k :: k in d.store ==> d.store[k] == store[k])
      && (forall k :: k in store && k !in ids ==> k in d.store)
      && (d.ok ==> d.store == store - set id | id in ids)
      && ((forall id :: id in ids ==> !(id in store && env.deleteFails(id))) ==> d.ok)
    decreases |ids|
  {
    if |ids| == 0 {
      assert (set id | id in ids) == {};
      assert store - {} == store;
    } else if !(ids[0] in store && env.deleteFails(ids[0])) {
      var rest := store - {ids[0]};
      DeleteFilesEffect(env, rest, ids[1..]);
      IdSetCons(ids);
      var d := DeleteFiles(env, rest, ids[1..]);
      forall k | k in store && k !in ids ensures k in d.store {
        assert k !in ids[1..];
      }
      if (forall id :: id in ids ==> !(id in store && env.deleteFails(id))) {
        forall id | id in ids[1..] ensures !(id in rest && env.deleteFails(id)) {
          assert id in ids;
        }
      }
      if d.ok {
        assert d.store == rest - set id | id in ids[1..];
        assert rest - (set id | id in ids[1..]) == store - set id | id in ids;
      }
    }
  }

  /** Deleting migration files keeps a store of complete migrations complete. */
  lemma DeleteFilesKeepsStoreComplete(env: Env, store: ArtifactStore, ids: seq<string>)
    requires StoreComplete(store)
    ensures StoreComplete(DeleteFiles(env, store, ids).store)
  {
    DeleteFilesEffect(env, store, ids);
  }

  /**
   * Once validated, a successful rollback of `ids` ran their `down` script
   * and then their history deletes, removed their history rows, appended a
   * snapshot for the target and deleted their files.
   */
  lemma RollbackStepsSuccess(env: Env, store: ArtifactStore, db: Db, ids: seq<string>, target: string)
    ensures var r := RollbackSteps(env, store, db, ids, target);
      r.ok ==> AllLoadable(store, ids)
               && Rows(r.db) == Without(Rows(db), set id | id in ids)
               && r.db.snapshots == db.snapshots + [env.generateSnapshot(target)]
               && r.db.executed == db.executed + Committed(DownScript(store, ids)) + DeleteHistoryScripts(ids)
               && r.store == store - set id | id in ids
  {
    if AllLoadable(store, ids) {
      var s1 := Exec(env, db, DownScript(store, ids));
      ExecEffect(env, db, DownScript(store, ids));
      if s1.ok {
        DeleteRowsEffect(env, s1.db, ids);
        DeleteFilesEffect(env, store, ids);
      }
    }
  }

  /**
   * Rollback is not atomic: once the `down` script and the history deletes
   * have committed, the outcome is that of the file deletion alone, while
   * the database keeps the rolled-back rows, the target's snapshot and the
   * committed statements whatever the deletion does.
   */
  lemma RollbackDeletionFailureKeepsDatabase(env: Env, store: ArtifactStore, db: Db, ids: seq<string>, target: string)
    requires AllLoadable(store, ids)
    requires Exec(env, db, DownScript(store, ids)).ok
    requires DeleteRows(env, Exec(env, db, DownScript(store, ids)).db, ids).ok
    ensures var r := RollbackSteps(env, store, db, ids, target);
      r.ok == DeleteFiles(env, store, ids).ok
      && r.store == DeleteFiles(env, store, ids).store
      && Rows(r.db) == Without(Rows(db), set id | id in ids)
      && r.db.snapshots == db.snapshots + [env.generateSnapshot(target)]
      && r.db.executed == db.executed + Committed(DownScript(store, ids)) + DeleteHistoryScripts(ids)
  {
    var s1 := Exec(env, db, DownScript(store, ids));
    ExecEffect(env, db, DownScript(store, ids));
    DeleteRowsEffect(env, s1.db, ids);
  }

  /**
   * A history delete that throws after the `down` script ran fails the
   * rollback with no file deleted and no snapshot saved.
   */
  lemma RollbackHistoryFailureKeepsFiles(env: Env, store: ArtifactStore, db: Db, ids: seq<string>, target: string)
    requires AllLoadable(store, ids)
    requires Exec(env, db, DownScript(store, ids)).ok
    requires !DeleteRows(env, Exec(env, db, DownScript(store, ids)).db, ids).ok
    ensures var r := RollbackSteps(env, store, db, ids, target);
      !r.ok && r.store == store && r.db.snapshots == db.snapshots
  {
    var s1 := Exec(env, db, DownScript(store, ids));
    ExecEffect(env, db, DownScript(store, ids));
    DeleteRowsEffect(env, s1.db, ids);
  }

  /**
   * A successful `RollbackMigrations` was validated, ran the `down` script
   * of every selected migration (the last applied first) and then their
   * history deletes, leaves the history rows up to and including the target
   * (all of them gone when the target is not an applied id), appends a
   * snapshot for the target and deletes the selected migrations' files.
   */
  lemma RollbackSuccess(env: Env, store: ArtifactStore, db: Db, target: string)
    requires NoDuplicates(Rows(db))
    ensures var r := RollbackOutcome(env, store, db, target);
      var applied := AppliedIds(env, db);
      var ids := RollbackIds(applied, target);
      r.ok ==> ValidateRollbackVerdict(target, applied, CurrentSnapshot(db)) == RollbackAllowed
               && !env.historyUnreadable && db.history.Some? && AllLoadable(store, ids)
               && Rows(r.db) == applied[..IndexOf(applied, target) + 1]
               && (target in applied ==> |Rows(r.db)| > 0 && Last(Rows(r.db)) == target)
               && r.db.snapshots == db.snapshots + [env.generateSnapshot(target)]
               && r.db.executed == db.executed + Committed(DownScript(store, ids)) + DeleteHistoryScripts(ids)
               && r.store == store - set id | id in ids
  {
    var applied := AppliedIds(env, db);
    var ids := RollbackIds(applied, target);
    var r := RollbackOutcome(env, store, db, target);
    if r.ok {
      assert ValidateRollbackVerdict(target, applied, CurrentSnapshot(db)) == RollbackAllowed;
      assert r == RollbackSteps(env, store, db, ids, target);
      assert |applied| > 0;
      assert applied == Rows(db);
      RollbackStepsSuccess(env, store, db, ids, target);
      RowsLeftByRollback(applied, target);
    }
  }

  /**
   * Deleting the rows `RollbackMigrations` selects from distinct rows leaves
   * those up to and including the target, the target last.
   */
  lemma RowsLeftByRollback(applied: seq<string>, target: string)
    requires NoDuplicates(applied)
    ensures var left := Without(applied, set id | id in RollbackIds(applied, target));
      left == applied[..IndexOf(applied, target) + 1]
      && (target in applied ==> |left| > 0 && Last(left) == target)
  {
    RollbackIdsSuffix(applied, target);
    var k := IndexOf(applied, target) + 1;
    WithoutSuffix(applied, k);
    if target in applied {
      assert Last(applied[..k]) == applied[k - 1];
    }
  }

  /**
   * A rollback that fails validation, or whose selected migrations are not
   * all readable files, changes nothing: no script runs, the history and the
   * snapshots stay as they are and no file is deleted.
   */
  lemma RollbackRefusals(env: Env, store: ArtifactStore, db: Db, target: string)
    ensures var applied := AppliedIds(env, db);
      ValidateRollbackVerdict(target, applied, CurrentSnapshot(db)) != RollbackAllowed
      ==> RollbackOutcome(env, store, db, target) == Rollback(db, store, false)
    ensures var applied := AppliedIds(env, db);
      !AllLoadable(store, RollbackIds(applied, target))
      ==> RollbackOutcome(env, store, db, target) == Rollback(db, store, false)
  {
  }

  // ---------------------------------------------------------------- invariants

  /**
   * `MigrationId` is the history table's primary key: updating the
   * database never makes an id appear twice in the history.
   */
  lemma ApplyKeepsRowsDistinct(env: Env, store: ArtifactStore, db: Db, migrationIds: seq<string>)
    requires NoDuplicates(Rows(db))
    ensures NoDuplicates(Rows(SaveMigrationsStep(env, store, db, migrationIds).db))
    ensures NoDuplicates(Rows(ApplyStep(env, store, db, migrationIds).db))
  {
    var work := WorkingSet(env, store, db, migrationIds);
    if |work| > 0 {
      RegisterEffect(env, db, work);
      RegisterEffect(env, db, [work[0]]);
      UpdateDatabaseRefusals(env, store, db, work);
    }
  }

  /** Rolling back never makes an id appear twice in the history. */
  lemma RollbackKeepsRowsDistinct(env: Env, store: ArtifactStore, db: Db, target: string)
    requires NoDuplicates(Rows(db))
    ensures NoDuplicates(Rows(RollbackOutcome(env, store, db, target).db))
  {
    var r := RollbackOutcome(env, store, db, target);
    var ids := RollbackIds(AppliedIds(env, db), target);
    if r.db != db {
      var s1 := Exec(env, db, DownScript(store, ids));
      ExecEffect(env, db, DownScript(store, ids));
      var s2 := DeleteRows(env, s1.db, ids);
      DeleteRowsEffect(env, s1.db, ids);
      assert Rows(r.db) == Rows(s1.db) || Rows(r.db) == Rows(s2.db);
    }
  }

  /** Once a snapshot exists, appending more leaves the current one (the first row) as it was. */
  lemma AppendingKeepsCurrentSnapshot(db: Db, later: Db)
    requires db.snapshots <= later.snapshots && |db.snapshots| > 0
    ensures CurrentSnapshot(later) == CurrentSnapshot(db)
  {
  }

  /** Registering applied migrations only ever appends snapshots. */
  lemma SaveMigrationsOnlyAppendsSnapshots(env: Env, store: ArtifactStore, db: Db, migrationIds: seq<string>)
    ensures db.snapshots <= SaveMigrationsStep(env, store, db, migrationIds).db.snapshots
  {
    var work := WorkingSet(env, store, db, migrationIds);
    if |work| > 0 {
      RegisterEffect(env, db, work);
    }
  }

  /**
   * Updating the database only ever appends snapshots, so once one exists
   * the snapshot read back as current (the first row) never changes.
   */
  lemma ApplyOnlyAppendsSnapshots(env: Env, store: ArtifactStore, db: Db, migrationIds: seq<string>)
    ensures db.snapshots <= ApplyStep(env, store, db, migrationIds).db.snapshots
    ensures |db.snapshots| > 0 ==> CurrentSnapshot(ApplyStep(env, store, db, migrationIds).db) == CurrentSnapshot(db)
  {
    var work := WorkingSet(env, store, db, migrationIds);
    var s := ApplyStep(env, store, db, migrationIds);
    if |work| > 0 && !(Bootstrap(env, db) && |work| > 1) {
      if Bootstrap(env, db) && db.hasTables {
        RegisterEffect(env, db, [work[0]]);
      } else if AllLoadable(store, work) {
        var e := Exec(env, db, UpScript(store, work));
        ExecEffect(env, db, UpScript(store, work));
        if e.ok {
          RegisterEffect(env, e.db, work);
        }
      }
    }
    assert db.snapshots <= s.db.snapshots;
    if |db.snapshots| > 0 {
      AppendingKeepsCurrentSnapshot(db, s.db);
    }
  }

  /** Rolling back only ever appends snapshots, so the current one stays once one exists. */
  lemma RollbackOnlyAppendsSnapshots(env: Env, store: ArtifactStore, db: Db, target: string)
    ensures db.snapshots <= RollbackOutcome(env, store, db, target).db.snapshots
    ensures |db.snapshots| > 0 ==> CurrentSnapshot(RollbackOutcome(env, store, db, target).db) == CurrentSnapshot(db)
  {
    var r := RollbackOutcome(env, store, db, target);
    var ids := RollbackIds(AppliedIds(env, db), target);
    if AllLoadable(store, ids) {
      var s1 := Exec(env, db, DownScript(store, ids));
      ExecEffect(env, db, DownScript(store, ids));
      DeleteRowsEffect(env, s1.db, ids);
    }
    assert db.snapshots <= r.db.snapshots;
    if |db.snapshots| > 0 {
      AppendingKeepsCurrentSnapshot(db, r.db);
    }
  }
}
