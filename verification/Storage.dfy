/**
 The row store, one table at a time: every change goes to the table's backend, then to the log, and
 a full log is checkpointed.
 */
module Storage {
  import opened Types
  import opened Bytes
  import opened WalFormat
  import opened Wal
  import opened Tables
  import opened PageFile
  import opened PageTables
  import opened Backend

  class TableStore {
    const wal: WriteAheadLog
    const table: string
    const pageCodec: PageCodec
    const maxCachedPages: nat          // 0 keeps the table in memory
    const rowsPerPage: nat
    var backend: Option<TableBackend>  // absent until the table is first used
    var file: Option<Table>            // the table file of an in-memory table

    ghost function Objects(): set<object>
      reads this, if backend.Some? && backend.value.Paged? then {backend.value.pt} else {}
    {
      if backend.Some? then backend.value.Repr() else {}
    }

    ghost predicate Valid()
      reads this, wal, Objects(), if backend.Some? && backend.value.Paged? then {backend.value.pt} else {}
    {
      && wal.Valid() && rowsPerPage >= 1 && (maxCachedPages > 0 ==> pageCodec.Invertible())
      && (backend.Some? ==>
            && backend.value.Valid()
            && (backend.value.Paged? ==>
                  && maxCachedPages > 0
                  && backend.value.pt.rowsPerPage == rowsPerPage && backend.value.pt.codec == pageCodec))
    }

    /** The table as the engine sees it; `None` if it is unknown. */
    ghost function Model(): Option<Table>
      reads this, Objects(), if backend.Some? && backend.value.Paged? then {backend.value.pt} else {}
    {
      if backend.Some? then Some(backend.value.Model()) else None
    }

    /** A row that the page serializer is made for; in memory every row is one. */
    ghost predicate Storable(values: seq<Value>) {
      maxCachedPages > 0 ==> values in pageCodec.storable
    }

    ghost predicate Addressable(id: RowId) {
      && id >= 1 && rowsPerPage >= 1
      && id + 1 < U64_LIMIT && PageOf(id, rowsPerPage) + 1 < U32_LIMIT
    }

    constructor Open(wal: WriteAheadLog, table: string, pageCodec: PageCodec, maxCachedPages: nat, rowsPerPage: nat,
                     file: Option<Table>)
      requires wal.Valid() && rowsPerPage >= 1 && (maxCachedPages > 0 ==> pageCodec.Invertible())
      requires file.Some? ==> maxCachedPages == 0 && IdsBounded(file.value)
      ensures Valid() && fresh(Objects()) && Model() == file == this.file
      ensures this.wal == wal && this.maxCachedPages == maxCachedPages && this.rowsPerPage == rowsPerPage
      ensures this.pageCodec == pageCodec
    {
      this.wal, this.table, this.pageCodec := wal, table, pageCodec;
      this.maxCachedPages, this.rowsPerPage, this.file := maxCachedPages, rowsPerPage, file;
      if file.Some? {
        var data := new TableData(file.value);
        backend := Some(Memory(data));
      } else {
        backend := None;
      }
    }

    method Ensure()
      requires Valid()
      modifies this`backend
      ensures Valid() && backend.Some? && fresh(Objects() - old(Objects()))
      ensures Model() == Some(OrEmpty(old(Model())))
      ensures if old(backend).Some? then backend == old(backend) else backend.value.Paged? <==> maxCachedPages > 0
    {
      hide FileHolds, ReadHeader;
      if backend.None? {
        if maxCachedPages > 0 {
          NoPages();
          var pt := new PageTable.Open(pageCodec, rowsPerPage, maxCachedPages, None, []);
          backend := Some(Paged(pt));
        } else {
          var data := new TableData(EMPTY_TABLE);
          backend := Some(Memory(data));
        }
      }
    }

    /** Writes the table out, remembers the LSN and empties the log. */
    method Checkpoint()
      requires Valid() && backend.Some?
      modifies this`file, wal, Objects()
      ensures Valid() && Objects() == old(Objects()) && Model() == old(Model()) && backend == old(backend)
      ensures wal.log == [] && wal.file == [] && wal.lsn == 0 && wal.storedCheckpoint == old(wal.lsn)
      ensures backend.value.Memory? ==> file == Model()
      ensures backend.value.Paged? ==> backend.value.pt.HeaderCurrent() && file == old(file)
    {
      hide FileHolds, ReadHeader, WriteAheadLog.Valid;
      match backend.value {
        case Memory(data) => file := Some(Table(data.rows, data.nextId));
        case Paged(pt) => pt.FlushAll();
      }
      var lsn := wal.lsn;
      wal.MarkCheckpoint(lsn);
      wal.Truncate();
    }

    /** Appends one record; the fiftieth since the last checkpoint brings the next one. */
    method Record(op: WalOp)
      requires Valid() && backend.Some?
      modifies this`file, wal, Objects()
      ensures Valid() && Objects() == old(Objects()) && Model() == old(Model()) && backend == old(backend)
      ensures if old(wal.opsSinceCheckpoint) + 1 < CHECKPOINT_INTERVAL
        then wal.log == old(wal.log) + [Entry(old(wal.lsn) + 1, op)] && file == old(file)
        else
          && wal.log == [] && wal.file == [] && wal.lsn == 0 && wal.storedCheckpoint == old(wal.lsn) + 1
          && (if backend.value.Memory? then file == Model() else backend.value.pt.HeaderCurrent() && file == old(file))
    {
      hide FileHolds, ReadHeader, WriteAheadLog.Valid;
      var at := wal.Append(op);
      var full := wal.ShouldCheckpoint();
      if full {
        Checkpoint();
      }
    }

    /** What the log gained by an operation: one record, unless that record led to a checkpoint. */
    twostate predicate Recorded(op: WalOp)
      reads wal
    {
      if old(wal.opsSinceCheckpoint) + 1 < CHECKPOINT_INTERVAL
      then wal.log == old(wal.log) + [Entry(old(wal.lsn) + 1, op)]
      else wal.log == []
    }

    method Insert(row: Row, txn: TxnId) returns (r: Result<RowId, Error>)
      requires Valid() && Addressable(if Model().Some? then Model().value.nextId else 1) && Storable(row.values)
      modifies this`backend, this`file, wal, Objects()
      ensures Valid() && fresh(Objects() - old(Objects()))
      ensures r.Ok? || r == Err(Storage)
      ensures backend.Some? && (backend.value.Memory? ==> r.Ok?)
      ensures old(backend).Some? ==> backend == old(backend)
      ensures old(backend).None? ==> (backend.value.Paged? <==> maxCachedPages > 0)
      ensures r.Ok? ==>
        && r.value == OrEmpty(old(Model())).nextId
        && Model() == Some(InsertNew(OrEmpty(old(Model())), row))
        && Recorded(WalOp.Insert(txn, table, r.value, row))
      ensures r.Err? ==>
        && wal.log == old(wal.log)
        && Model() == Some(OrEmpty(old(Model())).(nextId := OrEmpty(old(Model())).nextId + 1))
    {
      hide FileHolds, ReadHeader, WriteAheadLog.Valid, PageTable.Valid, PageOf;
      Ensure();
      r := backend.value.Insert(row);
      if r.Ok? {
        Record(WalOp.Insert(txn, table, r.value, row));
      }
    }

    method ApplyInsert(id: RowId, row: Row, log: bool, txn: TxnId) returns (r: Result<(), Error>)
      requires Valid() && Addressable(id) && Storable(row.values)
      modifies this`backend, this`file, wal, Objects()
      ensures Valid() && fresh(Objects() - old(Objects()))
      ensures r.Ok? || r == Err(Storage)
      ensures backend.Some? && (backend.value.Memory? ==> r.Ok?)
      ensures old(backend).Some? ==> backend == old(backend)
      ensures old(backend).None? ==> (backend.value.Paged? <==> maxCachedPages > 0)
      ensures r.Ok? ==> Model() == Some(InsertAt(OrEmpty(old(Model())), id, row))
      ensures r.Ok? && log ==> Recorded(WalOp.Insert(txn, table, id, row))
      ensures r.Err? || !log ==> wal.log == old(wal.log)
      ensures r.Err? ==> Model().value.rows == OrEmpty(old(Model())).rows
    {
      hide FileHolds, ReadHeader, WriteAheadLog.Valid, PageTable.Valid, PageOf;
      Ensure();
      r := backend.value.ApplyInsert(id, row);
      if r.Ok? && log {
        Record(WalOp.Insert(txn, table, id, row));
      }
    }

    method Get(id: RowId) returns (r: Result<Option<Row>, Error>)
      requires Valid() && id >= 1
      modifies Objects()
      ensures Valid() && Objects() == old(Objects()) && Model() == old(Model())
      ensures r == Ok(RowAt(Model(), id))
    {
      hide FileHolds, ReadHeader, WriteAheadLog.Valid, PageTable.Valid, PageOf;
      if backend.None? { return Ok(None); }
      r := backend.value.Get(id);
    }

    method Scan() returns (r: Result<seq<(RowId, Row)>, Error>)
      requires Valid()
      modifies Objects()
      ensures Valid() && Objects() == old(Objects()) && Model() == old(Model())
      ensures r == Ok(if Model().Some? then Scans.Scan(Model().value) else [])
    {
      hide FileHolds, ReadHeader, WriteAheadLog.Valid, PageTable.Valid, PageOf, Scans.Scan;
      if backend.None? { return Ok([]); }
      r := backend.value.Scan();
    }

    method FetchByIds(ids: seq<RowId>) returns (r: Result<seq<(RowId, Row)>, Error>)
      requires Valid() && forall i :: 0 <= i < |ids| ==> ids[i] >= 1
      modifies Objects()
      ensures Valid() && Objects() == old(Objects()) && Model() == old(Model())
      ensures r == if Model().Some? then Ok(Fetched(Model().value.rows, ids)) else Err(TableNotFound)
    {
      hide FileHolds, ReadHeader, WriteAheadLog.Valid, PageTable.Valid, PageOf;
      if backend.None? { return Err(TableNotFound); }
      var rows := [];
      for i := 0 to |ids|
        invariant Valid() && Objects() == old(Objects()) && Model() == old(Model()) && backend == old(backend)
        invariant rows == Fetched(Model().value.rows, ids[..i])
        modifies Objects()
      {
        var row := backend.value.Get(ids[i]);
        assert ids[..i + 1][..i] == ids[..i];
        if row.value.Some? {
          rows := rows + [(ids[i], row.value.value)];
        }
      }
      assert ids[..|ids|] == ids;
      r := Ok(rows);
    }

    /** The version-checked update: it replaces the row only in the version the caller has read. */
    method Update(id: RowId, row: Row, txn: TxnId, expected: nat) returns (r: Result<bool, Error>)
      requires Valid() && id >= 1 && Storable(row.values)
      modifies this`file, wal, Objects()
      ensures Valid() && Objects() == old(Objects()) && backend == old(backend)
      ensures r != Err(Storage) ==> (Model(), r) == Updated(old(Model()), id, row, expected)
      ensures backend.Some? && backend.value.Memory? ==> r != Err(Storage)
      ensures r == Err(Storage) ==> Model() == old(Model())
      ensures if r == Ok(true) then Recorded(WalOp.Update(txn, table, id, Row(row.values, expected + 1)))
              else wal.log == old(wal.log)
    {
      hide FileHolds, ReadHeader, WriteAheadLog.Valid, PageTable.Valid, PageOf;
      if backend.None? { return Err(TableNotFound); }
      var existing := backend.value.Get(id);
      if existing.value.None? { return Ok(false); }
      if existing.value.value.version != expected { return Err(VersionConflict); }
      var newRow := Row(row.values, expected + 1);
      var stored := backend.value.Update(id, newRow);
      if stored.Err? { return stored; }
      Record(WalOp.Update(txn, table, id, newRow));
      r := Ok(true);
    }

    method ApplyUpdate(id: RowId, row: Row, log: bool, txn: TxnId) returns (r: Result<bool, Error>)
      requires Valid() && id >= 1 && Storable(row.values)
      modifies this`file, wal, Objects()
      ensures Valid() && Objects() == old(Objects()) && backend == old(backend)
      ensures r != Err(Storage) ==>
        && r == (if old(Model()).None? then Err(TableNotFound) else Ok(id in old(Model()).value.rows))
        && Model() == (if old(Model()).None? then None else Some(UpdateAt(old(Model()).value, id, row)))
      ensures backend.Some? && backend.value.Memory? ==> r != Err(Storage)
      ensures r == Err(Storage) ==> Model() == old(Model())
      ensures r == Ok(true) && log ==> Recorded(WalOp.Update(txn, table, id, Model().value.rows[id]))
      ensures r != Ok(true) || !log ==> wal.log == old(wal.log)
    {
      hide FileHolds, ReadHeader, WriteAheadLog.Valid, PageTable.Valid, PageOf;
      if backend.None? { return Err(TableNotFound); }
      var existing := backend.value.Get(id);
      if existing.value.None? { return Ok(false); }
      var newRow := Row(row.values, existing.value.value.version + 1);
      var stored := backend.value.Update(id, newRow);
      if stored.Err? { return stored; }
      if log {
        Record(WalOp.Update(txn, table, id, newRow));
      }
      r := Ok(true);
    }

    method Delete(id: RowId, txn: TxnId) returns (r: Result<bool, Error>)
      requires Valid() && id >= 1
      modifies this`file, wal, Objects()
      ensures Valid() && Objects() == old(Objects()) && backend == old(backend)
      ensures r != Err(Storage) ==> (Model(), r) == Deleted(old(Model()), id)
      ensures backend.Some? && backend.value.Memory? ==> r != Err(Storage)
      ensures r == Err(Storage) ==> Model() == old(Model())
      ensures if r == Ok(true) then Recorded(WalOp.Delete(txn, table, id)) else wal.log == old(wal.log)
    {
      hide FileHolds, ReadHeader, WriteAheadLog.Valid, PageTable.Valid, PageOf;
      r := ApplyDelete(id, true, txn);
    }

    method ApplyDelete(id: RowId, log: bool, txn: TxnId) returns (r: Result<bool, Error>)
      requires Valid() && id >= 1
      modifies this`file, wal, Objects()
      ensures Valid() && Objects() == old(Objects()) && backend == old(backend)
      ensures r != Err(Storage) ==> (Model(), r) == Deleted(old(Model()), id)
      ensures backend.Some? && backend.value.Memory? ==> r != Err(Storage)
      ensures r == Err(Storage) ==> Model() == old(Model())
      ensures r == Ok(true) && log ==> Recorded(WalOp.Delete(txn, table, id))
      ensures r != Ok(true) || !log ==> wal.log == old(wal.log)
    {
      hide FileHolds, ReadHeader, WriteAheadLog.Valid, PageTable.Valid, PageOf;
      if backend.None? { return Err(TableNotFound); }
      r := backend.value.Delete(id);
      if r == Ok(true) && log {
        Record(WalOp.Delete(txn, table, id));
      }
    }

    method RowCount() returns (n: nat)
      requires Valid()
      modifies Objects()
      ensures Valid() && Objects() == old(Objects()) && Model() == old(Model())
      ensures n == if Model().Some? then |Model().value.rows| else 0
    {
      hide FileHolds, ReadHeader, WriteAheadLog.Valid, PageTable.Valid, PageOf;
      if backend.None? { return 0; }
      n := backend.value.RowCount();
    }
  }

  // ---- The operations on plain tables.

  function OrEmpty(s: Option<Table>): Table {
    if s.Some? then s.value else EMPTY_TABLE
  }

  function RowAt(s: Option<Table>, id: RowId): Option<Row> {
    if s.Some? && id in s.value.rows then Some(s.value.rows[id]) else None
  }

  /** The rows of the ids that exist, in the order asked for. */
  function Fetched(rows: map<RowId, Row>, ids: seq<RowId>): seq<(RowId, Row)> {
    if ids == [] then []
    else
      var last := ids[|ids| - 1];
      Fetched(rows, ids[..|ids| - 1]) + if last in rows then [(last, rows[last])] else []
  }

  function Updated(s: Option<Table>, id: RowId, row: Row, expected: nat): (Option<Table>, Result<bool, Error>) {
    if s.None? then (s, Err(TableNotFound))
    else if id !in s.value.rows then (s, Ok(false))
    else if s.value.rows[id].version != expected then (s, Err(VersionConflict))
    else (Some(s.value.(rows := s.value.rows[id := Row(row.values, expected + 1)])), Ok(true))
  }

  function Deleted(s: Option<Table>, id: RowId): (Option<Table>, Result<bool, Error>) {
    if s.None? then (s, Err(TableNotFound))
    else (Some(DeleteAt(s.value, id)), Ok(id in s.value.rows))
  }
}
