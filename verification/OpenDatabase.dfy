/** Opening a data directory: load the tables, replay the log, rebuild the indexes. */
module OpenDatabase {
  import opened WalFormat
  import opened Wal
  import opened Tables
  import opened Catalog
  import opened Sorting
  import opened Replaying
  import opened Agreement
  import opened CrashAtomicity
  import opened Reopening
  import opened MemoryStorage
  import opened IndexManagement
  import opened Recovery

  /** Every table of the catalog exists afterwards, empty if it has no file. */
  method EnsureTables(storage: StorageEngine, catalog: SchemaMap)
    requires storage.Valid()
    modifies storage`tables
    ensures storage.Valid() && storage.tables == Ensured(old(storage.tables), catalog)
  {
    hide WriteAheadLog.Valid, WithTables, Ensured;
    var left := catalog.Keys;
    ghost var before, all := storage.tables, catalog.Keys;
    NoneAdded(before);
    assert all - left == {};
    while left != {}
      invariant left <= all && storage.Valid() && storage.tables == WithTables(before, all - left)
      decreases |left|
    {
      var table :| table in left;
      OneAdded(before, all - left, table);
      assert all - (left - {table}) == (all - left) + {table};
      storage.EnsureTable(table);
      left := left - {table};
    }
    assert all - left == all;
    AllAdded(before, catalog);
  }

  function WithTables(ts: TableMap, names: set<string>): TableMap {
    map t | t in ts.Keys + names :: TableOf(ts, t)
  }

  lemma NoneAdded(ts: TableMap)
    ensures WithTables(ts, {}) == ts
  {
  }

  lemma OneAdded(ts: TableMap, names: set<string>, t: string)
    ensures WithTables(ts, names + {t}) == WithTables(ts, names)[t := TableOf(WithTables(ts, names), t)]
  {
  }

  lemma AllAdded(ts: TableMap, catalog: SchemaMap)
    ensures WithTables(ts, catalog.Keys) == Ensured(ts, catalog)
  {
  }

  /** The order matters: replay needs the tables, the rebuild needs the replayed rows. */
  method Open(wal: WriteAheadLog, catalog: SchemaMap, disk: TableMap)
    returns (ok: bool, storage: StorageEngine, indexes: IndexManager)
    requires wal.Valid() && forall t :: t in disk ==> IdsBounded(disk[t])
    requires DistinctKeys(Replay(wal.codec, wal.file, wal.checkpointLsn), Lsn)
    ensures var reopened := Reopened(catalog, disk, Replay(wal.codec, wal.file, wal.checkpointLsn), wal.lsn);
      && (ok <==> reopened.Ok?)
      && (ok ==>
            && storage.Valid() && storage.tables == reopened.value.tables
            && indexes.indexes == reopened.value.indexes)
    ensures storage.wal == wal && fresh(storage) && fresh(indexes)
  {
    hide WriteAheadLog.Valid, Replay, Recovered, Rebuildable, Rebuilt, Ensured, CommittedData;
    storage := new StorageEngine.Open(wal, disk);
    indexes := new IndexManager();
    EnsureTables(storage, catalog);
    var replayed := ReplayWal(storage);
    if replayed.Err? {
      ok := false;
      return;
    }
    ok := indexes.RebuildAll(catalog, storage);
  }
}
