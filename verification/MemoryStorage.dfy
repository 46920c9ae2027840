/** The row store in memory mode: all tables, their files, and the log. */
module MemoryStorage {
  import opened Types
  import opened WalFormat
  import opened Wal
  import opened Tables
  import opened Scans
  import opened Sorting
  import Storage

  class StorageEngine {
    const wal: WriteAheadLog
    var tables: TableMap
    var disk: TableMap     // the table files

    ghost predicate Valid()
      reads this, wal
    {
      && wal.Valid()
      && forall t :: t in tables ==> forall id :: id in tables[t].rows ==> id < tables[t].nextId
    }

    constructor Open(wal: WriteAheadLog, disk: TableMap)
      requires wal.Valid()
      requires forall t :: t in disk ==> IdsBounded(disk[t])
      ensures Valid() && this.wal == wal && tables == disk == this.disk
    {
      this.wal, this.tables, this.disk := wal, disk, disk;
    }

    method EnsureTable(table: string)
      requires Valid()
      modifies this`tables
      ensures Valid()
      ensures tables == old(tables)[table := TableOf(old(tables), table)]
    {
      hide WriteAheadLog.Valid;
      if table !in tables {
        tables := tables[table := EMPTY_TABLE];
      }
    }

    /** Writes every table file, in the order a hash map yields the names. */
    method CheckpointAll()
      modifies this`disk
      ensures disk == old(disk) + tables
    {
      hide Mixed;
      var names := tables.Keys;
      ghost var all, before := tables.Keys, disk;
      NothingMixed(disk, tables);
      assert all - names == {};
      while names != {}
        invariant names <= all
        invariant disk == Mixed(before, tables, all - names)
        decreases |names|
      {
        var name :| name in names;
        PersistOne(before, tables, all - names, name);
        assert all - (names - {name}) == (all - names) + {name};
        if name in tables {
          disk := disk[name := tables[name]];
        }
        names := names - {name};
      }
      assert all - names == all;
      AllMixed(before, tables);
    }

    method Checkpoint()
      requires Valid()
      modifies this`disk, wal
      ensures Valid() && disk == old(disk) + tables
      ensures wal.storedCheckpoint == old(wal.lsn) && wal.lsn == 0 && wal.log == [] && wal.file == []
      ensures wal.history == old(wal.history) && wal.nextTxnId == old(wal.nextTxnId)
    {
      hide WriteAheadLog.Valid;
      CheckpointAll();
      var lsn := wal.lsn;
      wal.MarkCheckpoint(lsn);
      wal.Truncate();
    }

    method MaybeCheckpoint()
      requires Valid()
      modifies this`disk, wal
      ensures Valid() && wal.history == old(wal.history) && wal.nextTxnId == old(wal.nextTxnId)
      ensures old(wal.opsSinceCheckpoint) < CHECKPOINT_INTERVAL ==>
        disk == old(disk) && wal.log == old(wal.log) && wal.lsn == old(wal.lsn) && wal.truncated == old(wal.truncated)
      ensures old(wal.opsSinceCheckpoint) >= CHECKPOINT_INTERVAL ==>
        && disk == old(disk) + tables
        && wal.storedCheckpoint == old(wal.lsn) && wal.lsn == 0 && wal.log == [] && wal.file == []
    {
      hide WriteAheadLog.Valid;
      var due := wal.ShouldCheckpoint();
      if due {
        Checkpoint();
      }
    }

    method Insert(table: string, row: Row, txn: TxnId) returns (id: RowId)
      requires Valid()
      modifies this`tables, this`disk, wal
      ensures Valid() && wal.nextTxnId == old(wal.nextTxnId)
      ensures id == TableOf(old(tables), table).nextId
      ensures tables == old(tables)[table := InsertNew(TableOf(old(tables), table), row)]
      ensures wal.history == old(wal.history) + [WalOp.Insert(txn, table, id, row)]
    {
      hide WriteAheadLog.Valid;
      var t := TableOf(tables, table);
      id := t.nextId;
      tables := tables[table := InsertNew(t, row)];
      var at := wal.Append(WalOp.Insert(txn, table, id, row));
      MaybeCheckpoint();
    }

    method ApplyInsert(table: string, id: RowId, row: Row)
      requires Valid()
      modifies this`tables
      ensures Valid()
      ensures tables == old(tables)[table := InsertAt(TableOf(old(tables), table), id, row)]
    {
      hide WriteAheadLog.Valid;
      tables := tables[table := InsertAt(TableOf(tables, table), id, row)];
    }

    method Get(table: string, id: RowId) returns (r: Option<Row>)
      ensures r == if id in TableOf(tables, table).rows then Some(TableOf(tables, table).rows[id]) else None
    {
      if table !in tables { return None; }
      r := if id in tables[table].rows then Some(tables[table].rows[id]) else None;
    }

    method Scan(table: string) returns (rows: seq<(RowId, Row)>)
      requires Valid()
      ensures rows == Scans.Scan(TableOf(tables, table))
    {
      hide WriteAheadLog.Valid, Scans.Scan, Lists;
      var t := TableOf(tables, table);
      var entries := EntriesOf(t.rows);
      SortedListIsScan(t, entries);
      rows := SortByKey(entries, (p: (RowId, Row)) => p.0);
    }

    method FetchByIds(table: string, ids: seq<RowId>) returns (r: Result<seq<(RowId, Row)>, Error>)
      ensures r == if table in tables then Ok(Storage.Fetched(tables[table].rows, ids)) else Err(TableNotFound)
    {
      if table !in tables { return Err(TableNotFound); }
      var rows := [];
      for i := 0 to |ids|
        invariant rows == Storage.Fetched(tables[table].rows, ids[..i])
      {
        assert ids[..i + 1][..i] == ids[..i];
        var row := Get(table, ids[i]);
        if row.Some? {
          rows := rows + [(ids[i], row.value)];
        }
      }
      assert ids[..|ids|] == ids;
      r := Ok(rows);
    }

    method Update(table: string, id: RowId, row: Row, txn: TxnId, expected: nat) returns (r: Result<bool, Error>)
      requires Valid()
      modifies this`tables, this`disk, wal
      ensures Valid() && wal.nextTxnId == old(wal.nextTxnId)
      ensures r == (if table !in old(tables) then Err(TableNotFound)
                    else if id !in old(tables)[table].rows then Ok(false)
                    else if old(tables)[table].rows[id].version != expected then Err(VersionConflict)
                    else Ok(true))
      ensures r != Ok(true) ==> tables == old(tables) && wal.history == old(wal.history)
      ensures r == Ok(true) ==>
        var newRow := Row(row.values, expected + 1);
        var t := old(tables)[table];
        && tables == old(tables)[table := t.(rows := t.rows[id := newRow])]
        && wal.history == old(wal.history) + [WalOp.Update(txn, table, id, newRow)]
    {
      hide WriteAheadLog.Valid;
      if table !in tables { return Err(TableNotFound); }
      var t := tables[table];
      if id !in t.rows { return Ok(false); }
      if t.rows[id].version != expected { return Err(VersionConflict); }
      var newRow := Row(row.values, expected + 1);
      tables := tables[table := t.(rows := t.rows[id := newRow])];
      var at := wal.Append(WalOp.Update(txn, table, id, newRow));
      MaybeCheckpoint();
      r := Ok(true);
    }

    method ApplyUpdate(table: string, id: RowId, row: Row) returns (r: Result<bool, Error>)
      requires Valid()
      modifies this`tables
      ensures Valid()
      ensures r == if table !in old(tables) then Err(TableNotFound) else Ok(id in old(tables)[table].rows)
      ensures r.Ok? ==> tables == old(tables)[table := UpdateAt(old(tables)[table], id, row)]
      ensures r.Err? ==> tables == old(tables)
    {
      hide WriteAheadLog.Valid;
      if table !in tables { return Err(TableNotFound); }
      var t := tables[table];
      if id !in t.rows { return Ok(false); }
      tables := tables[table := t.(rows := t.rows[id := Row(row.values, t.rows[id].version + 1)])];
      r := Ok(true);
    }

    method Delete(table: string, id: RowId, txn: TxnId) returns (r: Result<bool, Error>)
      requires Valid()
      modifies this`tables, this`disk, wal
      ensures Valid() && wal.nextTxnId == old(wal.nextTxnId)
      ensures r == if table !in old(tables) then Err(TableNotFound) else Ok(id in old(tables)[table].rows)
      ensures r.Ok? ==> tables == old(tables)[table := DeleteAt(old(tables)[table], id)]
      ensures r.Err? ==> tables == old(tables)
      ensures wal.history == old(wal.history) + if r == Ok(true) then [WalOp.Delete(txn, table, id)] else []
    {
      hide WriteAheadLog.Valid;
      r := ApplyDelete(table, id);
      if r == Ok(true) {
        var at := wal.Append(WalOp.Delete(txn, table, id));
        MaybeCheckpoint();
      }
    }

    method ApplyDelete(table: string, id: RowId) returns (r: Result<bool, Error>)
      requires Valid()
      modifies this`tables
      ensures Valid()
      ensures r == if table !in old(tables) then Err(TableNotFound) else Ok(id in old(tables)[table].rows)
      ensures r.Ok? ==> tables == old(tables)[table := DeleteAt(old(tables)[table], id)]
      ensures r.Err? ==> tables == old(tables)
    {
      hide WriteAheadLog.Valid;
      if table !in tables { return Err(TableNotFound); }
      var t := tables[table];
      r := Ok(id in t.rows);
      tables := tables[table := DeleteAt(t, id)];
    }

    /** Applies one log record without logging it again. */
    method ApplyWalOp(op: WalOp) returns (r: Result<(), Error>)
      requires Valid()
      modifies this`tables
      ensures Valid()
      ensures if ApplyOp(old(tables), op).Ok? then r.Ok? && tables == ApplyOp(old(tables), op).value
              else r == Err(TableNotFound) && tables == old(tables)
    {
      hide WriteAheadLog.Valid;
      r := Ok(());
      match op
      case Begin(_) | Commit(_) | Abort(_) =>
      case Insert(_, table, id, row) =>
        ApplyInsert(table, id, row);
      case Update(_, table, id, row) =>
        var updated := ApplyUpdate(table, id, row);
        if updated.Err? { return Err(updated.error); }
      case Delete(_, table, id) =>
        var deleted := ApplyDelete(table, id);
        if deleted.Err? { return Err(deleted.error); }
    }
  }

  lemma NothingMixed(disk: TableMap, memory: TableMap)
    ensures Mixed(disk, memory, {}) == disk
  {
  }

  lemma PersistOne(disk: TableMap, memory: TableMap, persisted: set<string>, t: string)
    requires t in memory
    ensures Mixed(disk, memory, persisted + {t}) == Mixed(disk, memory, persisted)[t := memory[t]]
  {
  }

  lemma AllMixed(disk: TableMap, memory: TableMap)
    ensures Mixed(disk, memory, memory.Keys) == disk + memory
  {
  }
}
