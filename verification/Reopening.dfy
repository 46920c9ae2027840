/** Opening the engine again: after a crash of a run, and after a crash inside a checkpoint. */
module Reopening {
  import opened Types
  import opened WalFormat
  import opened Tables
  import opened Catalog
  import opened TableIndexes
  import opened Scans
  import opened Replaying
  import opened Engine
  import opened Rollback
  import opened Agreement
  import opened Wal
  import opened LogInvariant
  import opened CrashAtomicity

  /** Load, replay, rebuild.  Transaction ids start again at 1. */
  ghost function Reopened(catalog: SchemaMap, disk: TableMap, entries: seq<Entry>, lsn: nat): Result<Db, Error> {
    match Recovered(Ensured(disk, catalog), entries)
    case Err(e) => Err(e)
    case Ok(tables) =>
      if Rebuildable(catalog, tables)
      then Ok(Db(catalog, tables, Rebuilt(catalog, tables), entries, lsn, 1, IDLE))
      else Err(DuplicateKey)
  }

  lemma StartedFiles(disk: TableMap, db: Db)
    requires Started(disk, db)
    ensures disk.Keys <= db.catalog.Keys && Inv(db)
    ensures forall t :: t in disk ==> IdsBounded(disk[t])
  {
    hide TableAgrees;
    forall t | t in disk ensures t in db.catalog && IdsBounded(disk[t]) {
      assert t in db.tables && db.tables[t] == disk[t];
      assert TableOk(db.catalog[t], IndexesOf(db.indexes, t), db.tables[t]);
    }
  }

  lemma {:induction false} CatalogGrows(db: Db, es: seq<Event>)
    requires Run(db, es).Ok?
    ensures db.catalog.Keys <= Run(db, es).value.catalog.Keys
  {
    hide Step;
    if es != [] {
      CatalogGrows(db, es[..|es| - 1]);
      StepCatalogGrows(Run(db, es[..|es| - 1]).value, es[|es| - 1]);
    }
  }

  lemma StepCatalogGrows(db: Db, e: Event)
    requires Step(db, e).Ok?
    ensures db.catalog.Keys <= Step(db, e).value.catalog.Keys
    ensures !e.ECreateIndex? ==> forall t :: t in db.catalog ==> Step(db, e).value.catalog[t] == db.catalog[t]
  {
    hide InsertRow, UpdateRow, DeleteRow;
    if e.IsDdl() {
      DdlKeepsLog(db, e);
    } else {
      StepAppends(db, e);
    }
  }

  lemma BoundedFiles(disk: TableMap, catalog: SchemaMap)
    requires forall t :: t in disk ==> IdsBounded(disk[t])
    ensures AllBounded(Ensured(disk, catalog))
  {
  }

  // Tables created later store nothing, so they break no unique index.
  lemma SameStoredUnique(catalog: SchemaMap, a: RowMap, b: RowMap)
    requires SameStored(a, b)
    ensures UniqueValues(catalog, a) <==> UniqueValues(catalog, b)
  {
    hide SameStored, UniqueValues;
    SameStoredSym(a, b);
    if UniqueValues(catalog, a) {
      SameStoredUniqueOneWay(catalog, a, b);
    }
    if UniqueValues(catalog, b) {
      SameStoredUniqueOneWay(catalog, b, a);
    }
  }

  lemma SameStoredSym(a: RowMap, b: RowMap)
    requires SameStored(a, b)
    ensures SameStored(b, a)
  {
    hide StoredIn;
  }

  lemma SameStoredUniqueOneWay(catalog: SchemaMap, a: RowMap, b: RowMap)
    requires SameStored(a, b) && UniqueValues(catalog, a)
    ensures UniqueValues(catalog, b)
  {
    hide UniqueRows;
    forall t | t in catalog && t in b ensures UniqueRows(catalog[t], b[t]) {
      SameRows(a, b, t);
      if t !in a {
        NoRowsUnique(catalog[t]);
      }
    }
  }

  lemma SameRows(a: RowMap, b: RowMap, t: string)
    requires SameStored(a, b) && t in b
    ensures b[t] == if t in a then a[t] else map[]
  {
    forall id ensures id in b[t] <==> t in a && id in a[t]
      ensures id in b[t] ==> t in a && a[t][id] == b[t][id]
    {
      assert StoredIn(a, t, id) == StoredIn(b, t, id);
    }
  }

  lemma NoRowsUnique(schema: TableSchema)
    ensures UniqueRows(schema, map[])
  {
  }

  /** The tables whose definitions did not change have the same indexes. */
  ghost predicate SameWhereUnchanged(a: Db, b: Db) {
    forall t :: t in a.catalog && t in b.catalog && a.catalog[t] == b.catalog[t] ==>
      SameDefinitions(IndexesOf(a.indexes, t), IndexesOf(b.indexes, t))
  }

  lemma SameStoredSameIndexes(a: Db, b: Db)
    requires Inv(a) && Inv(b) && SameStored(ValuesOf(a.tables), ValuesOf(b.tables))
    ensures SameWhereUnchanged(a, b)
  {
    hide TableAgrees, RowVals, SameDefinitions, SameStored;
    forall t | t in a.catalog && t in b.catalog && a.catalog[t] == b.catalog[t]
      ensures SameDefinitions(IndexesOf(a.indexes, t), IndexesOf(b.indexes, t))
    {
      assert TableOk(a.catalog[t], IndexesOf(a.indexes, t), a.tables[t]);
      assert TableOk(b.catalog[t], IndexesOf(b.indexes, t), b.tables[t]);
      SameRows(ValuesOf(a.tables), ValuesOf(b.tables), t);
      AgreeingMapsSame(a.catalog[t], IndexesOf(a.indexes, t), IndexesOf(b.indexes, t), RowVals(a.tables[t].rows));
    }
  }

  ghost predicate ReopensTo(reopened: Result<Db, Error>, catalog: SchemaMap, then': Db) {
    && (reopened.Ok? <==> UniqueValues(catalog, ValuesOf(then'.tables)))
    && (reopened.Ok? ==>
          && Inv(reopened.value)
          && SameValues(reopened.value.tables, then'.tables)
          && SameWhereUnchanged(then', reopened.value))
  }

  /**
   Opening after a crash: it fails exactly when the rows of the last durable COMMIT break a unique
   index of the (later) catalog; otherwise the opened engine stores those rows, and each index is
   the one that was live then.
   */
  lemma ReopenExact(c: Codec, disk: TableMap, db: Db, es: seq<Event>, k: nat, from: nat, lsn: nat)
    requires Started(disk, db) && Run(db, es).Ok? && from <= db.lsn
    requires AllEncodable(c, Run(db, es).value.log)
    requires k <= |Stream(c, Run(db, es).value.log)|
    ensures var db' := Run(db, es).value;
      var d := DurablePoint(db, es, CompleteFrames(c, db'.log, k));
      && Run(db, es[..d]).Ok?
      && ReopensTo(Reopened(db'.catalog, disk, Surviving(c, db'.log, k, from), lsn), db'.catalog,
                   Run(db, es[..d]).value)
  {
    hide Stream, CompleteFrames, Surviving, Run, Started, ValuesOf, Recovered, Inv, ReopensTo, AllBounded, AgreementInv;
    var db' := Run(db, es).value;
    var n := CompleteFrames(c, db'.log, k);
    var d, entries := DurablePoint(db, es, n), Surviving(c, db'.log, k, from);
    RecoveredState(c, disk, db, es, k, from);
    StartedFiles(disk, db);
    BoundedFiles(disk, db'.catalog);
    CatalogGrows(db, es);
    StartedAgrees(disk, db);
    RunKeepsAgreement(db, es);
    RunKeepsAgreement(db, es[..d]);
    AgreementHasInv(db');
    AgreementHasInv(Run(db, es[..d]).value);
    RebuildAfter(db', Ensured(disk, db'.catalog), entries, lsn, Run(db, es[..d]).value, disk);
  }

  lemma RebuildAfter(db': Db, base: TableMap, entries: seq<Entry>, lsn: nat, then': Db, disk: TableMap)
    requires Inv(db') && Inv(then') && base == Ensured(disk, db'.catalog)
    requires RecoveredTo(Recovered(base, entries), db'.catalog.Keys, then'.tables)
    requires AllBounded(Recovered(base, entries).value)
    ensures ReopensTo(Reopened(db'.catalog, disk, entries, lsn), db'.catalog, then')
  {
    hide Recovered, SameStored, SameValues, ValuesOf, SameWhereUnchanged, Rebuildable, Rebuilt, UniqueValues;
    var tables := Recovered(base, entries).value;
    var loaded := Db(db'.catalog, tables, map[], entries, lsn, 1, IDLE);
    LoadedTables(db', tables);
    hide Inv, AllBounded;
    RebuildExact(loaded);
    SameStoredUnique(db'.catalog, ValuesOf(tables), ValuesOf(then'.tables));
    if Rebuildable(db'.catalog, tables) {
      var reopened := loaded.(indexes := Rebuilt(db'.catalog, tables));
      SameStoredValues(tables, then'.tables);
      SameStoredSym(ValuesOf(tables), ValuesOf(then'.tables));
      SameStoredSameIndexes(then', reopened);
    }
  }

  lemma LoadedTables(db: Db, tables: TableMap)
    requires Inv(db) && tables.Keys == db.catalog.Keys && AllBounded(tables)
    ensures Loaded(db.catalog, tables)
  {
    hide TableAgrees;
    forall t | t in db.catalog ensures DistinctNames(db.catalog[t].indexes) {
      assert TableOk(db.catalog[t], IndexesOf(db.indexes, t), db.tables[t]);
    }
  }

  lemma {:induction false} DefinitionsKept(db: Db, es: seq<Event>, d: nat)
    requires Run(db, es).Ok? && d <= |es|
    requires forall i :: d <= i < |es| ==> !es[i].ECreateIndex?
    ensures Run(db, es[..d]).Ok?
    ensures var then', db' := Run(db, es[..d]).value, Run(db, es).value;
      forall t :: t in then'.catalog ==> t in db'.catalog && db'.catalog[t] == then'.catalog[t]
    decreases |es|
  {
    hide Step;
    if d == |es| {
      assert es[..d] == es;
    } else {
      var init := es[..|es| - 1];
      DefinitionsKept(db, init, d);
      assert init[..d] == es[..d];
      StepCatalogGrows(Run(db, init).value, es[|es| - 1]);
    }
  }

  /** Without a CREATE INDEX behind the last durable COMMIT, opening succeeds. */
  lemma ReopenSucceeds(c: Codec, disk: TableMap, db: Db, es: seq<Event>, k: nat, from: nat, lsn: nat)
    requires Started(disk, db) && Run(db, es).Ok? && from <= db.lsn
    requires AllEncodable(c, Run(db, es).value.log)
    requires k <= |Stream(c, Run(db, es).value.log)|
    requires forall i :: DurablePoint(db, es, CompleteFrames(c, Run(db, es).value.log, k)) <= i < |es| ==>
      !es[i].ECreateIndex?
    ensures var db' := Run(db, es).value;
      Reopened(db'.catalog, disk, Surviving(c, db'.log, k, from), lsn).Ok?
  {
    hide Stream, CompleteFrames, Surviving, Run, Started, Recovered, UniqueRows, Reopened, Inv, AgreementInv;
    var db' := Run(db, es).value;
    var d := DurablePoint(db, es, CompleteFrames(c, db'.log, k));
    ReopenExact(c, disk, db, es, k, from, lsn);
    DefinitionsKept(db, es, d);
    var then' := Run(db, es[..d]).value;
    assert AgreementInv(db) by { StartedAgrees(disk, db); }
    RunKeepsAgreement(db, es[..d]);
    AgreementHasInv(then');
    KeptDefinitionsUnique(db'.catalog, then');
  }

  lemma KeptDefinitionsUnique(catalog: SchemaMap, then': Db)
    requires Inv(then')
    requires forall t :: t in then'.catalog ==> t in catalog && catalog[t] == then'.catalog[t]
    ensures UniqueValues(catalog, ValuesOf(then'.tables))
  {
    hide UniqueRows;
    InvUnique(then');
  }

  lemma StartedAgrees(disk: TableMap, db: Db)
    requires Started(disk, db)
    ensures AgreementInv(db) && db.session.txn == None && db.log == []
  {
  }

  // ---- A checkpoint between transactions.

  lemma EnsuredMixed(disk: TableMap, memory: TableMap, persisted: set<string>, catalog: SchemaMap)
    ensures Ensured(Mixed(disk, memory, persisted), catalog) == Mixed(Ensured(disk, catalog), memory, persisted)
  {
  }

  /**
   A checkpoint that a crash interrupts is harmless when no transaction runs.  Recovery stores the
   values memory held, whether the crash came after an arbitrary set of tables was written, after
   the checkpoint LSN was stored, or after the log was truncated.
   */
  lemma CheckpointSafe(c: Codec, disk: TableMap, db: Db, es: seq<Event>, persisted: set<string>, from: nat)
    requires Started(disk, db) && Run(db, es).Ok? && Run(db, es).value.session.txn == None && from <= db.lsn
    requires AllEncodable(c, Run(db, es).value.log)
    ensures var db' := Run(db, es).value;
      var file := Stream(c, db'.log);
      && (var partly := Recovered(Ensured(Mixed(disk, db'.tables, persisted), db'.catalog), Replay(c, file, from));
          partly.Ok? && SameValues(partly.value, db'.tables))
      && Recovered(Ensured(db'.tables, db'.catalog), Replay(c, file, db'.lsn)) == Ok(db'.tables)
      && Recovered(Ensured(db'.tables, db'.catalog), Replay(c, [], db'.lsn)) == Ok(db'.tables)
  {
    hide Stream, Replay, Run, Started, ValuesOf, Inv, ApplyAll, ToApply, SameValues, TablesKnown;
    var db' := Run(db, es).value;
    var start := RunKeepsCrashInv(disk, db, es);
    CrashInvShows(disk, db', start, db.lsn);
    AgreementHasInv(db');
    StartedFiles(disk, db);
    CatalogGrows(db, es);
    QuietReplay(c, disk, db', db.lsn, from);
    assert Ensured(db'.tables, db'.catalog) == db'.tables by { AllTablesKnown(db'); }
    NothingToReplay(db'.tables);
    EnsuredMixed(disk, db'.tables, persisted, db'.catalog);
    assert Ensured(disk, db'.catalog).Keys <= db'.tables.Keys by { AllTablesKnown(db'); }
    PartialPersist(Ensured(disk, db'.catalog), db'.tables, persisted, Ops(ToApply(db'.log)));
  }

  lemma AllTablesKnown(db: Db)
    requires Inv(db)
    ensures db.tables.Keys == db.catalog.Keys && Ensured(db.tables, db.catalog) == db.tables
  {
  }

  lemma NothingToReplay(tables: TableMap)
    ensures Recovered(tables, []) == Ok(tables)
  {
    SortedLogOrder([]);
  }

  // At rest the log, replayed over the files, gives what memory holds; above its last LSN it is empty.
  lemma QuietReplay(c: Codec, disk: TableMap, db: Db, lsn0: nat, from: nat)
    requires LogOk(lsn0, db) && Shows(disk, db.log, ValuesOf(db.tables)) && from <= lsn0
    requires AllEncodable(c, db.log)
    ensures Replay(c, Stream(c, db.log), from) == db.log
    ensures Replay(c, Stream(c, db.log), db.lsn) == [] && Replay(c, [], db.lsn) == []
    ensures var base, ops := Ensured(disk, db.catalog), Ops(ToApply(db.log));
      TablesKnown(base, ops) && ApplyAll(base, ops).Ok? && SameValues(ApplyAll(base, ops).value, db.tables)
  {
    hide Replay, Shows, CommittedData, Ops, ApplyAll, ToApply, ValuesOf, SameValues, SameStored, Above;
    assert db.log[..|db.log|] == db.log;
    LogIsSorted(db, lsn0, |db.log|);
    StreamRoundTrip(c, db.log, from);
    StreamRoundTrip(c, db.log, db.lsn);
    AboveConsecutive(db.log, lsn0, from);
    AboveConsecutive(db.log, lsn0, db.lsn);
    EmptyFile(c, db.lsn);
    RecoveredValues(disk, db.catalog, db.log, ValuesOf(db.tables));
    SortedLogOrder(db.log);
    CommittedOps(db.log, db.catalog.Keys);
    SameStoredValues(Recovered(Ensured(disk, db.catalog), db.log).value, db.tables);
  }

  lemma EmptyFile(c: Codec, from: nat)
    ensures Replay(c, [], from) == []
  {
    EmptyFrame(c);
  }
}
